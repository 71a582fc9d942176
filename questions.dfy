/**
 * A question file and what `Exam.read_question` makes of it.
 *
 * The file text is cut at every "---\n". The first piece is the prompt, the second the
 * alternatives block, and any further pieces are comments. The block is trimmed and cut
 * into lines. Each line starts with a two-character prefix ("x " marks the correct
 * alternative, "- " the others). With `random_answers` the lines are shuffled before the
 * marker is looked for, so the correct index refers to the shuffled order.
 */
module Questions {
  import opened Wrappers
  import opened Strings
  import opened Permutations

  /** `examgen.Question`: the prompt, the alternatives in exam order, and the correct one. */
  datatype Question = Question(question: string, alternatives: seq<string>, correctIndex: Option<nat>)

  /** How reading a question file fails (the `IndexError`s the parser raises). */
  datatype ParseError =
    | MissingSeparator              // `text_split[1]` on a text without "---\n"
    | EmptyAlternativeLine(index: nat)  // `value[0]` on an empty line, at this position

  const Separator: string := "---\n"

  /** The pieces of the file text between separators. */
  function Sections(text: string): seq<string> {
    Split(text, Separator)
  }

  /** The stored prompt: the section trimmed, with one line break put back. */
  function Prompt(section: string): (r: string)
    ensures |r| >= 1 && r[|r| - 1] == '\n'
    ensures |r| >= 2 ==> !IsSpace(r[|r| - 2])
  {
    Strip(section) + "\n"
  }

  /** The lines of an alternatives block, after trimming it. */
  function Lines(block: string): seq<string> {
    Split(Strip(block), "\n")
  }

  /** The line carries the correctness marker: its first character is `x`. */
  predicate IsMarked(line: string) {
    |line| > 0 && line[0] == 'x'
  }

  /** `value[2:]`: the line without its two-character prefix (empty for shorter lines). */
  function Unprefix(line: string): string {
    if |line| < 2 then [] else line[2..]
  }

  /** A line is its two-character prefix followed by the stored alternative. */
  lemma UnprefixRestores(line: string)
    ensures |line| >= 2 ==> line == line[..2] + Unprefix(line)
    ensures |line| < 2 ==> Unprefix(line) == []
  {
  }

  function Unprefixed(lines: seq<string>): seq<string> {
    seq(|lines|, j requires 0 <= j < |lines| => Unprefix(lines[j]))
  }

  /** Looking at one more line appends it without its prefix. */
  lemma UnprefixedStep(lines: seq<string>, n: nat)
    requires n < |lines|
    ensures Unprefixed(lines[..n + 1]) == Unprefixed(lines[..n]) + [Unprefix(lines[n])]
  {
  }

  /** The position of the last marked line, if any. */
  function LastMarked(lines: seq<string>): (r: Option<nat>)
    ensures r.Some? ==> r.value < |lines| && IsMarked(lines[r.value])
    ensures r.Some? ==> forall j :: r.value < j < |lines| ==> !IsMarked(lines[j])
    ensures r.None? ==> forall j :: 0 <= j < |lines| ==> !IsMarked(lines[j])
  {
    if lines == [] then None
    else if IsMarked(lines[|lines| - 1]) then Some(|lines| - 1)
    else LastMarked(lines[..|lines| - 1])
  }

  /** Looking at one more line: it becomes the last marked one if it is marked. */
  lemma LastMarkedStep(lines: seq<string>, n: nat)
    requires n < |lines|
    ensures LastMarked(lines[..n + 1]) == if IsMarked(lines[n]) then Some(n) else LastMarked(lines[..n])
  {
    assert lines[..n + 1][..n] == lines[..n];
  }

  /** The first position at or after `from` that holds an empty line, if any. */
  function FirstEmpty(lines: seq<string>, from: nat): (r: Option<nat>)
    decreases |lines| - from
    ensures r.Some? ==> from <= r.value < |lines| && |lines[r.value]| == 0
    ensures r.Some? ==> forall j :: from <= j < r.value ==> |lines[j]| > 0
    ensures r.None? ==> forall j :: from <= j < |lines| ==> |lines[j]| > 0
  {
    if from >= |lines| then None
    else if |lines[from]| == 0 then Some(from)
    else FirstEmpty(lines, from + 1)
  }

  /** The lines in the order the exam shows them: shuffled by `perm` or as written. */
  function Arranged(lines: seq<string>, randomAnswers: bool, perm: seq<nat>): (r: seq<string>)
    requires randomAnswers ==> IsPermutation(perm, |lines|)
    ensures |r| == |lines|
  {
    if randomAnswers then Permute(lines, perm) else lines
  }

  /** The shuffle drawn for a file is a permutation of its alternative lines. */
  predicate ShuffleFits(text: string, randomAnswers: bool, perm: seq<nat>) {
    randomAnswers && |Sections(text)| >= 2 ==> IsPermutation(perm, |Lines(Sections(text)[1])|)
  }

  /** `Exam.read_question` on the text of a question file. */
  function ParseQuestion(text: string, randomAnswers: bool, perm: seq<nat>): Result<Question, ParseError>
    requires ShuffleFits(text, randomAnswers, perm)
  {
    var sections := Sections(text);
    if |sections| < 2 then Err(MissingSeparator)
    else
      var order := Arranged(Lines(sections[1]), randomAnswers, perm);
      var empty := FirstEmpty(order, 0);
      if empty.Some? then Err(EmptyAlternativeLine(empty.value))
      else Ok(Question(Prompt(sections[0]), Unprefixed(order), LastMarked(order)))
  }

  /**
   * Reading fails exactly when the text has no separator, or when its alternatives block
   * has an empty line; the missing separator is reported as such.
   */
  lemma ParseFails(text: string, randomAnswers: bool, perm: seq<nat>)
    requires ShuffleFits(text, randomAnswers, perm)
    ensures ParseQuestion(text, randomAnswers, perm) == Err(MissingSeparator) <==> !Contains(text, Separator)
    ensures ParseQuestion(text, randomAnswers, perm).Err? <==>
      |Sections(text)| < 2 || [] in Lines(Sections(text)[1])
  {
    SplitCount(text, Separator);
    var sections := Sections(text);
    if |sections| >= 2 {
      var lines := Lines(sections[1]);
      var order := Arranged(lines, randomAnswers, perm);
      if randomAnswers {
        PermuteMultiset(lines, perm);
        assert [] in lines <==> [] in multiset(order);
      }
      var empty := FirstEmpty(order, 0);
      if [] in order {
        var j :| 0 <= j < |order| && order[j] == [];
        assert empty.Some?;
      }
    }
  }

  /**
   * Without shuffling, the alternatives are the lines of the block in file order, each
   * without its prefix; the correct index is the last marked line (none when no line is
   * marked); a failure names the first empty line.
   */
  lemma ParseInOrder(text: string, perm: seq<nat>)
    requires |Sections(text)| >= 2
    ensures var lines := Lines(Sections(text)[1]);
      match ParseQuestion(text, false, perm)
      case Ok(q) =>
        && |q.alternatives| == |lines|
        && (forall j :: 0 <= j < |lines| && |lines[j]| >= 2 ==> lines[j] == lines[j][..2] + q.alternatives[j])
        && (forall j :: 0 <= j < |lines| && |lines[j]| < 2 ==> q.alternatives[j] == [])
        && (q.correctIndex.Some? ==> var k := q.correctIndex.value;
              k < |lines| && IsMarked(lines[k]) && forall j :: k < j < |lines| ==> !IsMarked(lines[j]))
        && (q.correctIndex.None? <==> forall j :: 0 <= j < |lines| ==> !IsMarked(lines[j]))
      case Err(e) =>
        e.EmptyAlternativeLine? && e.index < |lines| && lines[e.index] == []
        && forall j :: 0 <= j < e.index ==> |lines[j]| > 0
  {
    var lines := Lines(Sections(text)[1]);
    var r := ParseQuestion(text, false, perm);
    forall j | 0 <= j < |lines| {
      UnprefixRestores(lines[j]);
    }
    if r.Ok? {
      var m := LastMarked(lines);
      assert r.value.correctIndex == m;
      if m.None? {
        assert forall j :: 0 <= j < |lines| ==> !IsMarked(lines[j]);
      } else {
        assert IsMarked(lines[m.value]);
      }
    }
  }

  /** Unprefixing the lines commutes with shuffling them. */
  lemma UnprefixedPermute(lines: seq<string>, perm: seq<nat>)
    requires IsPermutation(perm, |lines|)
    ensures IsPermutation(perm, |Unprefixed(lines)|)
    ensures Unprefixed(Permute(lines, perm)) == Permute(Unprefixed(lines), perm)
  {
  }

  /**
   * With shuffling, alternative `k` is the line `perm[k]` of the block without its
   * prefix, and the alternatives are the unprefixed lines, each kept once.
   */
  lemma ParseShuffledAlternatives(text: string, perm: seq<nat>)
    requires |Sections(text)| >= 2 && IsPermutation(perm, |Lines(Sections(text)[1])|)
    ensures var lines := Lines(Sections(text)[1]);
      var r := ParseQuestion(text, true, perm);
      r.Ok? ==>
        && |r.value.alternatives| == |lines|
        && (forall k :: 0 <= k < |lines| ==> r.value.alternatives[k] == Unprefix(lines[perm[k]]))
        && multiset(r.value.alternatives) == multiset(Unprefixed(lines))
  {
    var lines := Lines(Sections(text)[1]);
    UnprefixedPermute(lines, perm);
    PermuteMultiset(Unprefixed(lines), perm);
  }

  /**
   * The last marked position of a shuffled list, read through the shuffle: its source
   * line is marked and no later position's is; there is none exactly when no line is
   * marked; a line `j` marked alone is found where the shuffle moved it.
   */
  lemma ShuffledLastMarked(lines: seq<string>, perm: seq<nat>, j: nat)
    requires IsPermutation(perm, |lines|)
    ensures var m := LastMarked(Permute(lines, perm));
      && (m.Some? ==>
            && m.value < |lines|
            && IsMarked(lines[perm[m.value]])
            && forall k :: m.value < k < |lines| ==> !IsMarked(lines[perm[k]]))
      && (m.None? <==> forall i :: 0 <= i < |lines| ==> !IsMarked(lines[i]))
      && (j < |lines| && IsMarked(lines[j]) && (forall i :: 0 <= i < |lines| && i != j ==> !IsMarked(lines[i])) ==>
            m.Some? && perm[m.value] == j)
  {
    var order := Permute(lines, perm);
    var m := LastMarked(order);
    forall k | 0 <= k < |lines| ensures order[k] == lines[perm[k]] {
    }
    if m.None? {
      forall i | 0 <= i < |lines| ensures !IsMarked(lines[i]) {
        PermuteSource(lines, perm, i);
      }
    }
    if j < |lines| && IsMarked(lines[j]) {
      PermuteSource(lines, perm, j);
    }
  }

  /**
   * With shuffling, the correct index follows the marked lines: it is the last position
   * of the shuffled order whose source line is marked (so with several marked lines the
   * shuffle decides which one the key names), it is absent exactly when no line is
   * marked, and when one line `j` alone is marked it is the position the shuffle moved
   * `j` to.
   */
  lemma ParseShuffledMarker(text: string, perm: seq<nat>, j: nat)
    requires |Sections(text)| >= 2 && IsPermutation(perm, |Lines(Sections(text)[1])|)
    ensures var lines := Lines(Sections(text)[1]);
      var r := ParseQuestion(text, true, perm);
      r.Ok? ==>
        && (r.value.correctIndex.Some? ==>
              && r.value.correctIndex.value < |lines|
              && IsMarked(lines[perm[r.value.correctIndex.value]])
              && forall k :: r.value.correctIndex.value < k < |lines| ==> !IsMarked(lines[perm[k]]))
        && (r.value.correctIndex.None? <==> forall i :: 0 <= i < |lines| ==> !IsMarked(lines[i]))
        && (j < |lines| && IsMarked(lines[j]) && (forall i :: 0 <= i < |lines| && i != j ==> !IsMarked(lines[i])) ==>
              && r.value.correctIndex.Some?
              && perm[r.value.correctIndex.value] == j
              && r.value.alternatives[r.value.correctIndex.value] == Unprefix(lines[j]))
  {
    var lines := Lines(Sections(text)[1]);
    ShuffledLastMarked(lines, perm, j);
  }

  /** The first section is the text before the first separator. */
  lemma FirstSection(text: string)
    requires |Sections(text)| >= 2
    ensures FindFrom(text, Separator, 0).Some?
    ensures Sections(text)[0] == text[..FindFrom(text, Separator, 0).value]
  {
    SplitCount(text, Separator);
    SplitAtFirst(text, Separator, FindFrom(text, Separator, 0).value);
  }

  /**
   * The stored prompt is the text before the first separator, trimmed, followed by
   * exactly one line break.
   */
  lemma ParsePrompt(text: string, randomAnswers: bool, perm: seq<nat>)
    requires ShuffleFits(text, randomAnswers, perm)
    ensures var r := ParseQuestion(text, randomAnswers, perm);
      r.Ok? ==>
        && FindFrom(text, Separator, 0).Some?
        && r.value.question == Strip(text[..FindFrom(text, Separator, 0).value]) + "\n"
        && r.value.question[|r.value.question| - 1] == '\n'
        && (|r.value.question| >= 2 ==> !IsSpace(r.value.question[|r.value.question| - 2]))
  {
    var r := ParseQuestion(text, randomAnswers, perm);
    if r.Ok? {
      FirstSection(text);
      assert r.value.question == Prompt(Sections(text)[0]);
    }
  }

  /** A separator in `p + Separator + r` cannot start inside a `p` that does not contain one. */
  lemma NoSeparatorBefore(p: string, r: string)
    requires !Contains(p, Separator)
    ensures forall j: nat :: j < |p| ==> !OccursAt(p + Separator + r, Separator, j)
  {
    var x := p + Separator + r;
    forall j: nat | j < |p| ensures !OccursAt(x, Separator, j) {
      if j + 4 <= |p| {
        assert !OccursAt(p, Separator, j);
        var k :| 0 <= k < 4 && p[j + k] != Separator[k];
        assert x[j + k] == p[j + k];
        assert !OccursAt(x, Separator, j);
      } else {
        assert x[j + 3] == Separator[j + 3 - |p|] == '-';
        assert Separator[3] == '\n';
      }
    }
  }

  /**
   * Comments are ignored: whatever follows a second separator does not change what is
   * read from the prompt and the alternatives block before it.
   */
  lemma CommentsIgnored(p: string, b: string, c: string, randomAnswers: bool, perm: seq<nat>)
    requires !Contains(p, Separator) && !Contains(b, Separator)
    requires ShuffleFits(p + Separator + b, randomAnswers, perm)
    ensures ShuffleFits(p + Separator + b + Separator + c, randomAnswers, perm)
    ensures ParseQuestion(p + Separator + b + Separator + c, randomAnswers, perm)
         == ParseQuestion(p + Separator + b, randomAnswers, perm)
  {
    var tail := b + Separator + c;
    assert p + Separator + b + Separator + c == p + Separator + tail;
    NoSeparatorBefore(p, tail);
    SplitAfterPiece(p, Separator, tail);
    NoSeparatorBefore(b, c);
    SplitAfterPiece(b, Separator, c);
    NoSeparatorBefore(p, b);
    SplitAfterPiece(p, Separator, b);
    assert Split(b, Separator) == [b];
  }

  /** No line of a block contains a line break. */
  lemma LineHasNoBreak(block: string, k: nat)
    requires k < |Lines(block)|
    ensures '\n' !in Lines(block)[k]
  {
    SplitPiecesFree(Strip(block), "\n", k);
    ContainsChar(Lines(block)[k], '\n');
  }

  /**
   * There is one alternative per line of the trimmed block, that is one more than the
   * line breaks inside it, and no alternative contains a line break.
   */
  lemma ParseAlternativeLines(text: string, randomAnswers: bool, perm: seq<nat>)
    requires ShuffleFits(text, randomAnswers, perm)
    ensures var r := ParseQuestion(text, randomAnswers, perm);
      r.Ok? ==>
        && |Sections(text)| >= 2
        && |r.value.alternatives| == multiset(Strip(Sections(text)[1]))['\n'] + 1
        && forall k :: 0 <= k < |r.value.alternatives| ==> '\n' !in r.value.alternatives[k]
  {
    var r := ParseQuestion(text, randomAnswers, perm);
    if r.Ok? {
      var lines := Lines(Sections(text)[1]);
      var order := Arranged(lines, randomAnswers, perm);
      SplitCharCount(Strip(Sections(text)[1]), '\n');
      forall k | 0 <= k < |order| ensures '\n' !in Unprefix(order[k]) {
        var src := if randomAnswers then perm[k] else k;
        assert order[k] == lines[src];
        LineHasNoBreak(Sections(text)[1], src);
      }
    }
  }

  /**
   * A question the layout and the key can show line by line: its correct index, when it
   * has one, names one of its alternatives, and no alternative spans two lines.
   */
  predicate Printable(q: Question) {
    && (q.correctIndex.Some? ==> q.correctIndex.value < |q.alternatives|)
    && forall k :: 0 <= k < |q.alternatives| ==> '\n' !in q.alternatives[k]
  }

  /** Every question read from a file is printable. */
  lemma ParsedPrintable(text: string, randomAnswers: bool, perm: seq<nat>)
    requires ShuffleFits(text, randomAnswers, perm)
    ensures var r := ParseQuestion(text, randomAnswers, perm);
      r.Ok? ==> Printable(r.value)
  {
    ParseAlternativeLines(text, randomAnswers, perm);
  }
}
