/**
 * The text the generator writes for an exam: the lettered alternatives of a question
 * (`Exam._format_alternatives`), the answer key (`Exam.generate_answers`) and the exam
 * code shown in the header (`Exam.build_markdown`).
 */
module Rendering {
  import opened Wrappers
  import opened Strings
  import opened Questions

  /** How many labels `string.ascii_lowercase` offers. */
  const LetterCount: nat := 26

  /** The position of a lower-case ASCII letter in the alphabet. */
  function LetterIndex(c: char): nat
    requires 'a' <= c <= 'z'
  {
    c as int - 'a' as int
  }

  /** `string.ascii_lowercase[i]`: the label of alternative `i`. */
  function Letter(i: nat): (c: char)
    requires i < LetterCount
    ensures 'a' <= c <= 'z' && LetterIndex(c) == i
  {
    ('a' as int + i) as char
  }

  /** Alternative `i` with its label, as one line of the lettered block. */
  function ChoiceLine(i: nat, value: string): string
    requires i < LetterCount
  {
    [Letter(i)] + ") " + value
  }

  function ChoiceLines(alternatives: seq<string>): (r: seq<string>)
    requires |alternatives| <= LetterCount
    ensures |r| == |alternatives|
  {
    seq(|alternatives|, i requires 0 <= i < |alternatives| => ChoiceLine(i, alternatives[i]))
  }

  /** Labelling one more alternative adds one line. */
  lemma ChoiceLinesPrefix(alternatives: seq<string>, n: nat)
    requires n < |alternatives| && n < LetterCount
    ensures ChoiceLines(alternatives[..n + 1]) == ChoiceLines(alternatives[..n]) + [ChoiceLine(n, alternatives[n])]
  {
  }

  /**
   * The text `_format_alternatives` returns, one labelled line per alternative; `None`
   * where it raises `IndexError`, on asking for a label past `z`.
   */
  function Choices(alternatives: seq<string>): Option<string> {
    if |alternatives| > LetterCount then None
    else Some(Concat(Terminated(ChoiceLines(alternatives))))
  }

  /**
   * The lettered block reads back, line by line, as label `i`, ") " and alternative `i`,
   * with nothing after the last line break; it exists exactly when there are at most 26
   * alternatives.
   */
  lemma ChoicesReadBack(alternatives: seq<string>)
    requires forall i :: 0 <= i < |alternatives| ==> '\n' !in alternatives[i]
    ensures Choices(alternatives).Some? <==> |alternatives| <= LetterCount
    ensures Choices(alternatives).Some? ==>
      var lines := Split(Choices(alternatives).value, "\n");
      && |lines| == |alternatives| + 1
      && lines[|alternatives|] == []
      && forall i :: 0 <= i < |alternatives| ==>
           && |lines[i]| >= 3
           && lines[i][0] == Letter(i)
           && lines[i][1..3] == ") "
           && lines[i][3..] == alternatives[i]
  {
    if |alternatives| <= LetterCount {
      var lines := ChoiceLines(alternatives);
      forall i | 0 <= i < |lines| ensures '\n' !in lines[i] {
        assert lines[i] == [Letter(i)] + ") " + alternatives[i];
      }
      SplitTerminated(lines);
    }
  }

  /**
   * In the lettered block the label of the correct alternative starts exactly one line,
   * the one that holds the correct text.
   */
  lemma CorrectLabelUnique(alternatives: seq<string>, c: nat)
    requires forall i :: 0 <= i < |alternatives| ==> '\n' !in alternatives[i]
    requires c < |alternatives| <= LetterCount
    ensures var lines := Split(Choices(alternatives).value, "\n");
      && |lines| > |alternatives|
      && (forall j :: 0 <= j < |alternatives| ==> |lines[j]| >= 3)
      && (forall j :: 0 <= j < |alternatives| ==> (lines[j][0] == Letter(c) <==> j == c))
      && lines[c][3..] == alternatives[c]
  {
    ChoicesReadBack(alternatives);
    var lines := Split(Choices(alternatives).value, "\n");
    forall j | 0 <= j < |alternatives| ensures lines[j][0] == Letter(c) <==> j == c {
      assert LetterIndex(Letter(j)) == j && LetterIndex(Letter(c)) == c;
    }
  }

  /** Why `generate_answers` stops, at this position of the exam's questions. */
  datatype AnswerError =
    | NoCorrectAnswer(position: nat)   // no line was marked: indexing with `None`
    | LetterOutOfRange(position: nat)  // the correct index has no label

  /** The question has a correct alternative that a letter can name. */
  predicate HasLetter(q: Question) {
    q.correctIndex.Some? && q.correctIndex.value < LetterCount
  }

  /** The first question at or after `from` whose answer cannot be written. */
  function FirstWithoutLetter(qs: seq<Question>, from: nat): (r: Option<nat>)
    decreases |qs| - from
    ensures r.Some? ==> from <= r.value < |qs| && !HasLetter(qs[r.value])
    ensures r.Some? ==> forall j :: from <= j < r.value ==> HasLetter(qs[j])
    ensures r.None? ==> forall j :: from <= j < |qs| ==> HasLetter(qs[j])
  {
    if from >= |qs| then None
    else if !HasLetter(qs[from]) then Some(from)
    else FirstWithoutLetter(qs, from + 1)
  }

  /** `f"{index+1} - {letter}"`: the answer to the question numbered `number`. */
  function AnswerLine(number: nat, q: Question): string
    requires HasLetter(q)
  {
    NatToString(number) + " - " + [Letter(q.correctIndex.value)]
  }

  function AnswerLines(qs: seq<Question>): (r: seq<string>)
    requires forall i :: 0 <= i < |qs| ==> HasLetter(qs[i])
    ensures |r| == |qs|
  {
    seq(|qs|, i requires 0 <= i < |qs| => AnswerLine(i + 1, qs[i]))
  }

  /** Answering one more question adds one line. */
  lemma AnswerLinesPrefix(qs: seq<Question>, n: nat)
    requires n < |qs| && forall i :: 0 <= i <= n ==> HasLetter(qs[i])
    ensures AnswerLines(qs[..n + 1]) == AnswerLines(qs[..n]) + [AnswerLine(n + 1, qs[n])]
  {
  }

  /** The answer-key file `generate_answers` writes, or where it stops. */
  function AnswerKey(qs: seq<Question>): Result<string, AnswerError> {
    var bad := FirstWithoutLetter(qs, 0);
    if bad.Some? then
      if qs[bad.value].correctIndex.None? then Err(NoCorrectAnswer(bad.value))
      else Err(LetterOutOfRange(bad.value))
    else Ok(Concat(Terminated(AnswerLines(qs))))
  }

  /** The key stops at the first question without a letter, for the reason it has none. */
  lemma AnswerKeyStopsAt(qs: seq<Question>, n: nat)
    requires n < |qs| && !HasLetter(qs[n])
    requires forall j :: 0 <= j < n ==> HasLetter(qs[j])
    ensures AnswerKey(qs) == if qs[n].correctIndex.None? then Err(NoCorrectAnswer(n)) else Err(LetterOutOfRange(n))
  {
    var bad := FirstWithoutLetter(qs, 0);
    assert bad.Some?;
    assert bad.value == n;
  }

  /**
   * The key is written exactly when every question has a correct alternative with a
   * label; otherwise the error names the first question without one and why.
   */
  lemma AnswerKeyFails(qs: seq<Question>)
    ensures AnswerKey(qs).Ok? <==> forall i :: 0 <= i < |qs| ==> HasLetter(qs[i])
    ensures AnswerKey(qs).Err? ==>
      var e := AnswerKey(qs).error;
      && e.position < |qs|
      && (forall j :: 0 <= j < e.position ==> HasLetter(qs[j]))
      && (e.NoCorrectAnswer? <==> qs[e.position].correctIndex.None?)
      && (e.LetterOutOfRange? <==> qs[e.position].correctIndex.Some? && qs[e.position].correctIndex.value >= LetterCount)
  {
    var bad := FirstWithoutLetter(qs, 0);
    if bad.None? {
      assert forall i :: 0 <= i < |qs| ==> HasLetter(qs[i]);
    } else {
      assert !HasLetter(qs[bad.value]);
    }
  }

  /** No line of the key contains a line break. */
  lemma AnswerLinesUnbroken(qs: seq<Question>)
    requires forall i :: 0 <= i < |qs| ==> HasLetter(qs[i])
    ensures forall i :: 0 <= i < |qs| ==> '\n' !in AnswerLines(qs)[i]
  {
    forall i | 0 <= i < |qs| ensures '\n' !in AnswerLines(qs)[i] {
      var digits := NatToString(i + 1);
      assert AnswerLines(qs)[i] == digits + " - " + [Letter(qs[i].correctIndex.value)];
    }
  }

  /** The key, cut at its line breaks, is its answer lines and the empty remainder. */
  lemma AnswerKeyLines(qs: seq<Question>)
    requires AnswerKey(qs).Ok?
    ensures forall i :: 0 <= i < |qs| ==> HasLetter(qs[i])
    ensures Split(AnswerKey(qs).value, "\n") == AnswerLines(qs) + [""]
  {
    AnswerKeyFails(qs);
    AnswerLinesUnbroken(qs);
    SplitTerminated(AnswerLines(qs));
  }

  /**
   * An answer line reads back as its number, " - ", and the label whose position is the
   * correct index.
   */
  lemma AnswerLineReadBack(number: nat, q: Question)
    requires HasLetter(q)
    ensures var line := AnswerLine(number, q);
      && |line| >= 5
      && IsDigits(line[..|line| - 4])
      && DecimalValue(line[..|line| - 4]) == number
      && line[|line| - 4..|line| - 1] == " - "
      && 'a' <= line[|line| - 1] <= 'z'
      && q.correctIndex == Some(LetterIndex(line[|line| - 1]))
  {
    var digits := NatToString(number);
    var line := AnswerLine(number, q);
    assert line[..|line| - 4] == digits;
    DecimalRoundTrip(number);
  }

  /** Line `i` of the key ends in the label of question `i`'s correct alternative. */
  lemma AnswerKeyLetter(qs: seq<Question>, i: nat)
    requires AnswerKey(qs).Ok? && i < |qs|
    ensures |Split(AnswerKey(qs).value, "\n")| > i
    ensures var keyLine := Split(AnswerKey(qs).value, "\n")[i];
      && HasLetter(qs[i])
      && |keyLine| > 0
      && keyLine[|keyLine| - 1] == Letter(qs[i].correctIndex.value)
  {
    AnswerKeyLines(qs);
    var keyLine := Split(AnswerKey(qs).value, "\n")[i];
    var lines := AnswerLines(qs);
    assert keyLine == (lines + [""])[i] == lines[i];
    assert lines[i] == AnswerLine(i + 1, qs[i]);
  }

  /**
   * The answer key agrees with the rendered exam: the letter on the key's line for a
   * question starts exactly one line of that question's lettered block, the line holding
   * the correct alternative.
   */
  lemma AnswerKeyAgreesWithChoices(qs: seq<Question>, i: nat)
    requires AnswerKey(qs).Ok? && i < |qs|
    requires |qs[i].alternatives| <= LetterCount
    requires qs[i].correctIndex.Some? ==> qs[i].correctIndex.value < |qs[i].alternatives|
    requires forall k :: 0 <= k < |qs[i].alternatives| ==> '\n' !in qs[i].alternatives[k]
    ensures |Split(AnswerKey(qs).value, "\n")| > i
    ensures var keyLine := Split(AnswerKey(qs).value, "\n")[i];
      var alternatives := qs[i].alternatives;
      var block := Split(Choices(alternatives).value, "\n");
      var c := qs[i].correctIndex.value;
      && keyLine != []
      && qs[i].correctIndex.Some?
      && c < |alternatives|
      && |block| > |alternatives|
      && (forall j :: 0 <= j < |alternatives| ==> |block[j]| >= 3)
      && (forall j :: 0 <= j < |alternatives| ==> (block[j][0] == keyLine[|keyLine| - 1] <==> j == c))
      && block[c][3..] == alternatives[c]
  {
    AnswerKeyLetter(qs, i);
    CorrectLabelUnique(qs[i].alternatives, qs[i].correctIndex.value);
  }

  /** `f"#{examcode}" if examcode is not None else ""`: the exam code in the header. */
  function ExamCodeTag(code: Option<nat>): string {
    match code
    case None => ""
    case Some(c) => "#" + NatToString(c)
  }

  /** The exam code a header tag shows, if any. */
  function ReadExamCodeTag(tag: string): Option<nat>
    requires tag == [] || (tag[0] == '#' && IsDigits(tag[1..]))
  {
    if tag == [] then None else Some(DecimalValue(tag[1..]))
  }

  /**
   * The tag is empty exactly when no code is given (a code of 0 still shows as "#0"),
   * and the code can be read back from it.
   */
  lemma ExamCodeTagRoundTrip(code: Option<nat>)
    ensures ExamCodeTag(code) == [] <==> code.None?
    ensures var tag := ExamCodeTag(code);
      && (tag == [] || (tag[0] == '#' && IsDigits(tag[1..])))
      && ReadExamCodeTag(tag) == code
  {
    if code.Some? {
      var tag := ExamCodeTag(code);
      assert tag[1..] == NatToString(code.value);
      DecimalRoundTrip(code.value);
    }
  }
}
