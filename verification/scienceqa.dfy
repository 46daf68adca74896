/**
 * prepare_dataset/convert_scienceqa_to_hf.py: each ScienceQA example becomes a record of one image, a
 * problem text with lettered options, an answer letter and a flag for a substituted blank image; the
 * shuffled records are cut into a test split of 1500 and a train split of the rest.
 *
 * Images are opaque: a source image is an identifier, and the converted image says what was done to it.
 */
module ScienceQA {
  import opened Wrappers
  import opened Text

  /** An image as the dataset yields it: an identifier, and whether the object has a `convert` method. */
  datatype SourceImage = SourceImage(id: nat, convertible: bool)

  /** The image stored in a record: the blank stand-in, a source converted to RGB, or a source kept as is. */
  datatype Image = Blank | Rgb(source: nat) | AsLoaded(source: nat)

  /** One example; `None` stands for a key that is absent (for `image`, also for a `None` value). */
  datatype Example = Example(
    image: Option<SourceImage>,
    hint: Option<string>,
    question: Option<string>,
    choices: Option<seq<string>>,
    answer: Option<int>)

  datatype Record = Record(images: seq<Image>, problem: string, answer: string, maskImage: bool)

  /**
   * Why converting an example can fail. `chr` raises `ValueError` outside `0..0x10FFFF`; a surrogate
   * code point, and an option letter past the last one below the surrogates, cannot be a `char` here.
   */
  datatype ConvertError =
    | NoSuchCharacter(code: int)
    | SurrogateCharacter(code: int)
    | TooManyChoices(count: nat)
    | NoExamples  // the `ZeroDivisionError` of the statistics printout
    | EmptySplit(split: string)  // the `IndexError` of `final_dataset[split][0]` in the example printout

  function GetOr<T>(o: Option<T>, default: T): T
  {
    if o.Some? then o.value else default
  }

  /** The first image step: the blank stand-in for a missing image, else RGB conversion when available. */
  function PrepareImage(image: Option<SourceImage>): (r: Image)
    ensures r.Blank? <==> image.None?
    ensures image.Some? ==> r.source == image.value.id
  {
    match image
    case None => Blank
    case Some(src) => if src.convertible then Rgb(src.id) else AsLoaded(src.id)
  }

  /** The most options that can be lettered `A`, `B`, ... before the letters reach the surrogates. */
  const MaxChoices: nat := 0xD800 - 65

  /** Option `k` as one line: its letter, `". "`, the choice. */
  function OptionLine(k: nat, choice: string): (line: string)
    requires k < MaxChoices
    ensures |line| == |choice| + 3 && line[0] as int == 65 + k && line[1..3] == ". " && line[3..] == choice
  {
    [(65 + k) as char] + ". " + choice
  }

  function OptionLines(choices: seq<string>): (lines: seq<string>)
    requires |choices| <= MaxChoices
    ensures |lines| == |choices|
    ensures forall k :: 0 <= k < |lines| ==> lines[k] == OptionLine(k, choices[k])
  {
    seq(|choices|, k requires 0 <= k < |choices| => OptionLine(k, choices[k]))
  }

  /** `"\n".join(f"{option}. {choice}" ...)`. */
  function ChoicesBlock(choices: seq<string>): (r: Result<string, ConvertError>)
    ensures r.Err? <==> |choices| > MaxChoices
  {
    if |choices| > MaxChoices then Err(TooManyChoices(|choices|))
    else Ok(Join(OptionLines(choices), "\n"))
  }

  /** `s.split("\n")`. */
  function SplitLines(s: string): (lines: seq<string>)
    ensures |lines| >= 1
  {
    if s == [] then [""]
    else
      var rest := SplitLines(s[1..]);
      if s[0] == '\n' then [""] + rest else [[s[0]] + rest[0]] + rest[1..]
  }

  lemma {:induction false} SplitLinesOfLine(x: string)
    requires '\n' !in x
    ensures SplitLines(x) == [x]
  {
    if x != [] {
      SplitLinesOfLine(x[1..]);
      assert [x[0]] + x[1..] == x;
    }
  }

  lemma {:induction false} SplitLinesAfterLine(x: string, y: string)
    requires '\n' !in x
    ensures SplitLines(x + "\n" + y) == [x] + SplitLines(y)
  {
    if x == [] {
      assert x + "\n" + y == "\n" + y;
      assert ("\n" + y)[1..] == y;
    } else {
      assert (x + "\n" + y)[1..] == x[1..] + "\n" + y;
      SplitLinesAfterLine(x[1..], y);
      assert [x[0]] + x[1..] == x;
    }
  }

  /** Joining newline-free lines with `"\n"` and splitting at `"\n"` gives the lines back. */
  lemma {:induction false} SplitJoinedLines(parts: seq<string>)
    requires |parts| >= 1
    requires forall k :: 0 <= k < |parts| ==> '\n' !in parts[k]
    ensures SplitLines(Join(parts, "\n")) == parts
  {
    if |parts| == 1 {
      SplitLinesOfLine(parts[0]);
    } else {
      SplitJoinedLines(parts[1..]);
      SplitLinesAfterLine(parts[0], Join(parts[1..], "\n"));
    }
  }

  /**
   * The options block can be read back: line `k` carries the `k`-th letter, and dropping the letter
   * and `". "` gives the `k`-th choice, provided no choice contains a line break.
   */
  lemma ChoicesBlockRoundTrip(choices: seq<string>)
    requires 1 <= |choices| <= MaxChoices
    requires forall k :: 0 <= k < |choices| ==> '\n' !in choices[k]
    ensures var lines := SplitLines(ChoicesBlock(choices).value);
            && |lines| == |choices|
            && forall k :: 0 <= k < |choices| ==>
                 && |lines[k]| >= 3 && lines[k][0] as int == 65 + k
                 && lines[k][1..3] == ". " && lines[k][3..] == choices[k]
  {
    var lines := OptionLines(choices);
    forall k | 0 <= k < |lines|
      ensures '\n' !in lines[k] && lines[k][1..3] == ". " && lines[k][3..] == choices[k]
    {
      assert lines[k] == [(65 + k) as char] + ". " + choices[k];
    }
    SplitJoinedLines(lines);
  }

  const ImageTag: string := "<image>"
  const OptionsHeader: string := "\n\nOptions:\n"

  /** The context paragraph, present only for a non-empty hint. */
  function ContextPart(hint: string): string
  {
    if hint != [] then "Context: " + hint + "\n\n" else ""
  }

  /**
   * The problem text: the image tag, then the context paragraph when the hint is non-empty, then the
   * question followed by the options. The prefix, the suffix and the length together fix every character.
   */
  function Problem(hint: string, question: string, block: string): (r: string)
    ensures StartsWith(r, ImageTag)
    ensures hint != [] ==> StartsWith(r, ImageTag + "Context: " + hint + "\n\n")
    ensures EndsWith(r, "Question: " + question + OptionsHeader + block)
    ensures |r| == |ImageTag| + (if hint != [] then |hint| + 11 else 0) + 10 + |question| + |OptionsHeader| + |block|
  {
    var front := ImageTag + ContextPart(hint);
    var back := "Question: " + question + OptionsHeader + block;
    assert (front + back)[..|ImageTag|] == ImageTag;
    assert (front + back)[..|front|] == front;
    assert (front + back)[|front|..] == back;
    front + back
  }

  /** A context line appears exactly when the hint is non-empty. */
  lemma ProblemShowsContext(hint: string, question: string, block: string)
    ensures StartsWith(Problem(hint, question, block), ImageTag + "Context: ") <==> hint != []
  {
    var r := Problem(hint, question, block);
    var back := "Question: " + question + OptionsHeader + block;
    if hint == [] {
      assert r == ImageTag + back;
      assert r[|ImageTag|] == back[0] == 'Q';
      assert (ImageTag + "Context: ")[|ImageTag|] == 'C';
    } else {
      var front := ImageTag + ContextPart(hint);
      assert r == front + back;
      assert front[..16] == ImageTag + "Context: ";
      assert r[..16] == front[..16];
    }
  }

  /** `chr(code)`. */
  function Letter(code: int): (r: Result<char, ConvertError>)
    ensures r.Ok? ==> r.value as int == code
    ensures r.Err? <==> code < 0 || code > 0x10FFFF || 0xD800 <= code <= 0xDFFF
    ensures r.Err? && r.error.NoSuchCharacter? <==> code < 0 || code > 0x10FFFF
  {
    if code < 0 || code > 0x10FFFF then Err(NoSuchCharacter(code))
    else if 0xD800 <= code <= 0xDFFF then Err(SurrogateCharacter(code))
    else Ok(code as char)
  }

  /** The conversion of one example, in the order the script evaluates it: options first, then the answer. */
  function ConvertExample(e: Example): (r: Result<Record, ConvertError>)
    ensures var choices := GetOr(e.choices, []);
            var idx := GetOr(e.answer, 0);
            r.Err? <==> |choices| > MaxChoices || Letter(65 + idx).Err?
    ensures r.Ok? ==> |r.value.images| == 1 && (r.value.images[0].Blank? <==> e.image.None?)
    ensures r.Ok? ==> r.value.images == [PrepareImage(e.image)]
    ensures r.Ok? ==> (r.value.maskImage <==> e.image.None?)
    ensures r.Ok? ==> |r.value.answer| == 1 && r.value.answer[0] as int - 65 == GetOr(e.answer, 0)
    ensures r.Ok? ==> StartsWith(r.value.problem, ImageTag)
    ensures r.Ok? ==> && ChoicesBlock(GetOr(e.choices, [])).Ok?
                      && r.value.problem == Problem(GetOr(e.hint, ""), GetOr(e.question, ""),
                                                    ChoicesBlock(GetOr(e.choices, [])).value)
  {
    var image := PrepareImage(e.image);
    match ChoicesBlock(GetOr(e.choices, []))
    case Err(err) => Err(err)
    case Ok(block) =>
      var problem := Problem(GetOr(e.hint, ""), GetOr(e.question, ""), block);
      match Letter(65 + GetOr(e.answer, 0))
      case Err(err) => Err(err)
      case Ok(letter) => Ok(Record([image], problem, [letter], e.image.None?))
  }

  /** An example without an `answer` key is answered `A`. */
  lemma MissingAnswerIsA(e: Example)
    requires e.answer.None? && |GetOr(e.choices, [])| <= MaxChoices
    ensures ConvertExample(e).Ok? && ConvertExample(e).value.answer == "A"
  {
  }

  function ConcatSplits(splits: seq<seq<Example>>): seq<Example>
  {
    if splits == [] then [] else splits[0] + ConcatSplits(splits[1..])
  }

  /** How many records carry the blank stand-in image. */
  function DummyCount(records: seq<Record>): (n: nat)
    ensures n <= |records|
  {
    if records == [] then 0 else (if records[0].maskImage then 1 else 0) + DummyCount(records[1..])
  }

  /** How many examples have no image. */
  function MissingImages(examples: seq<Example>): nat
  {
    if examples == [] then 0 else (if examples[0].image.None? then 1 else 0) + MissingImages(examples[1..])
  }

  lemma {:induction false} DummyCountAppend(a: seq<Record>, b: seq<Record>)
    ensures DummyCount(a + b) == DummyCount(a) + DummyCount(b)
  {
    if a == [] {
      assert a + b == b;
    } else {
      assert (a + b)[1..] == a[1..] + b;
      DummyCountAppend(a[1..], b);
    }
  }

  lemma {:induction false} MissingImagesAppend(a: seq<Example>, b: seq<Example>)
    ensures MissingImages(a + b) == MissingImages(a) + MissingImages(b)
  {
    if a == [] {
      assert a + b == b;
    } else {
      assert (a + b)[1..] == a[1..] + b;
      MissingImagesAppend(a[1..], b);
    }
  }

  /** Shuffling does not change the count: it depends only on the multiset of records. */
  lemma {:induction false} DummyCountPermutation(a: seq<Record>, b: seq<Record>)
    requires multiset(a) == multiset(b)
    ensures DummyCount(a) == DummyCount(b)
    decreases |a|
  {
    if a != [] {
      assert a[0] in multiset(b);
      var j :| 0 <= j < |b| && b[j] == a[0];
      var rest := RemoveAt(b, j);
      assert a == [a[0]] + a[1..];
      assert multiset(a[1..]) == multiset(rest) by {
        assert multiset(a) == multiset(a[1..]) + multiset{a[0]};
        forall y ensures multiset(a[1..])[y] == multiset(rest)[y] {
          assert multiset(a)[y] == multiset(b)[y];
        }
      }
      DummyCountPermutation(a[1..], rest);
    }
  }

  /** `b` without its `j`-th record: one copy fewer of it, and one fewer blank image if it had one. */
  lemma RemoveAt(b: seq<Record>, j: nat) returns (rest: seq<Record>)
    requires j < |b|
    ensures multiset(b) == multiset(rest) + multiset{b[j]}
    ensures DummyCount(b) == DummyCount(rest) + (if b[j].maskImage then 1 else 0)
  {
    rest := b[..j] + b[j + 1..];
    assert b == b[..j] + [b[j]] + b[j + 1..];
    DummyCountAppend(b[..j] + [b[j]], b[j + 1..]);
    DummyCountAppend(b[..j], [b[j]]);
    DummyCountAppend(b[..j], b[j + 1..]);
  }

  /** One more converted example keeps the blank-image count equal to the missing-image count. */
  lemma CountStep(all: seq<Example>, records: seq<Record>, i: nat, rec: Record)
    requires i < |all| && (rec.maskImage <==> all[i].image.None?)
    requires DummyCount(records) == MissingImages(all[..i])
    ensures DummyCount(records + [rec]) == MissingImages(all[..i + 1])
  {
    DummyCountAppend(records, [rec]);
    assert all[..i + 1] == all[..i] + [all[i]];
    MissingImagesAppend(all[..i], [all[i]]);
  }

  /** Every example converts without raising. */
  predicate AllConvert(examples: seq<Example>)
  {
    forall k :: 0 <= k < |examples| ==> ConvertExample(examples[k]).Ok?
  }

  /** The first example that fails to convert names the error the whole conversion raises. */
  lemma FirstFailure(all: seq<Example>, i: nat)
    requires i < |all| && ConvertExample(all[i]).Err?
    requires forall j :: 0 <= j < i ==> ConvertExample(all[j]).Ok?
    ensures !AllConvert(all)
    ensures exists k :: 0 <= k < |all| && ConvertExample(all[k]) == Err(ConvertExample(all[i]).error)
                        && forall j :: 0 <= j < k ==> ConvertExample(all[j]).Ok?
  {
  }

  /**
   * The conversion loop over every split in order. The first example that fails raises and ends the
   * script; otherwise there is one record per example, in order.
   */
  method ConvertAll(splits: seq<seq<Example>>) returns (r: Result<seq<Record>, ConvertError>)
    ensures r.Ok? <==> AllConvert(ConcatSplits(splits))
    ensures var all := ConcatSplits(splits);
            r.Ok? ==> |r.value| == |all| && forall k :: 0 <= k < |all| ==> ConvertExample(all[k]) == Ok(r.value[k])
    ensures var all := ConcatSplits(splits);
            r.Err? ==> exists k :: 0 <= k < |all| && ConvertExample(all[k]) == Err(r.error)
                                   && forall j :: 0 <= j < k ==> ConvertExample(all[j]).Ok?
    ensures r.Ok? ==> DummyCount(r.value) == MissingImages(ConcatSplits(splits))
  {
    var all := ConcatSplits(splits);
    var records: seq<Record> := [];
    var i := 0;
    while i < |all|
      invariant 0 <= i <= |all|
      invariant |records| == i
      invariant forall k {:trigger ConvertExample(all[k])} :: 0 <= k < i ==> ConvertExample(all[k]) == Ok(records[k])
      invariant DummyCount(records) == MissingImages(all[..i])
    {
      var converted := ConvertExample(all[i]);
      if converted.Err? {
        FirstFailure(all, i);
        return Err(converted.error);
      }
      CountStep(all, records, i, converted.value);
      records := records + [converted.value];
      i := i + 1;
    }
    assert all[..i] == all;
    return Ok(records);
  }

  /**
   * The statistics printout: the number of blank-image records, or the `ZeroDivisionError` its
   * percentage raises when no example was collected.
   */
  function DummyStatistics(records: seq<Record>): (r: Result<nat, ConvertError>)
    ensures r.Err? <==> records == []
    ensures r.Ok? ==> r.value <= |records|
    ensures r.Ok? ==> (r.value == 0 <==> forall k :: 0 <= k < |records| ==> !records[k].maskImage)
  {
    if records == [] then Err(NoExamples)
    else
      DummyCountZero(records);
      Ok(DummyCount(records))
  }

  lemma {:induction false} DummyCountZero(records: seq<Record>)
    ensures DummyCount(records) == 0 <==> forall k :: 0 <= k < |records| ==> !records[k].maskImage
  {
    if records != [] {
      DummyCountZero(records[1..]);
      assert forall k :: 1 <= k < |records| ==> records[k] == records[1..][k - 1];
    }
  }

  /** The number of examples the test split takes. */
  const TestSize: nat := 1500

  datatype DatasetSplits = DatasetSplits(train: seq<Record>, test: seq<Record>)

  /** `all_examples[:1500]` as the test split, the rest as the train split. */
  function SplitTestTrain(shuffled: seq<Record>): (r: DatasetSplits)
    ensures |r.test| == if |shuffled| < TestSize then |shuffled| else TestSize
    ensures r.test + r.train == shuffled
  {
    var cut := if |shuffled| < TestSize then |shuffled| else TestSize;
    assert shuffled[..cut] + shuffled[cut..] == shuffled;
    DatasetSplits(shuffled[cut..], shuffled[..cut])
  }

  /**
   * Whatever permutation the shuffle picks, the two splits together hold exactly the converted records,
   * and so exactly as many blank-image records as there were examples without an image.
   */
  lemma SplitKeepsRecords(records: seq<Record>, shuffled: seq<Record>)
    requires multiset(shuffled) == multiset(records)
    ensures var s := SplitTestTrain(shuffled);
            && multiset(s.test) + multiset(s.train) == multiset(records)
            && DummyCount(s.test) + DummyCount(s.train) == DummyCount(records)
  {
    var s := SplitTestTrain(shuffled);
    DummyCountAppend(s.test, s.train);
    DummyCountPermutation(shuffled, records);
  }

  /**
   * The example printout before the push: the first record of the train split, then of the test split.
   * Indexing an empty split raises, so the push is reached only when both splits are non-empty.
   */
  function ShowExamples(splits: DatasetSplits): (r: Result<DatasetSplits, ConvertError>)
    ensures r.Ok? <==> splits.train != [] && splits.test != []
    ensures r.Ok? ==> r.value == splits
    ensures splits.train == [] ==> r == Err(EmptySplit("train"))
    ensures splits.train != [] && splits.test == [] ==> r == Err(EmptySplit("test"))
  {
    if splits.train == [] then Err(EmptySplit("train"))
    else if splits.test == [] then Err(EmptySplit("test"))
    else Ok(splits)
  }

  /**
   * From the converted records to the splits handed to `push_to_hub`: the statistics printout, the
   * split of the shuffled records, and the example printout. `shuffled` is the order `random.shuffle`
   * picked, any permutation of the records.
   */
  function Publish(records: seq<Record>, shuffled: seq<Record>): (r: Result<DatasetSplits, ConvertError>)
    requires multiset(shuffled) == multiset(records)
    ensures r.Ok? <==> |records| > TestSize
    ensures records == [] ==> r == Err(NoExamples)
    ensures 0 < |records| <= TestSize ==> r == Err(EmptySplit("train"))
    ensures r.Ok? ==> |r.value.test| == TestSize
                      && multiset(r.value.test) + multiset(r.value.train) == multiset(records)
  {
    assert |shuffled| == |multiset(shuffled)| == |records|;
    match DummyStatistics(records)
    case Err(e) => Err(e)
    case Ok(_) =>
      SplitKeepsRecords(records, shuffled);
      ShowExamples(SplitTestTrain(shuffled))
  }
}
