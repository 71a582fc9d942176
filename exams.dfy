/**
 * `examgen.Exam`: an exam definition, the questions collected from its question files,
 * and the texts generated from them.
 *
 * The definition is the exam module's data (header fields and the list of question
 * entries). The question directory is a map from question name to the text of its `.md`
 * file. The random choices of one build (`random.choice` for tuple entries,
 * `random.shuffle` for alternatives and for questions) are given as `Draws`.
 */
module Exams {
  import opened Wrappers
  import opened Strings
  import opened Permutations
  import opened Questions
  import opened Rendering

  /** An entry of the definition's `questions` list: a question name, or a tuple of them. */
  datatype QuestionRef = Single(id: string) | Group(ids: seq<string>)

  /** What the exam module defines: the header fields and the question entries. */
  datatype ExamDefinition = ExamDefinition(
    institution: string, course: string, professor: string, exam: string,
    questions: seq<QuestionRef>)

  /**
   * The random choices of one build: for entry `k`, the position `picks[k]` chosen from a
   * tuple and the shuffle `answerShuffles[k]` of its alternatives; then the shuffle of
   * the questions.
   */
  datatype Draws = Draws(picks: seq<nat>, answerShuffles: seq<seq<nat>>, questionShuffle: seq<nat>)

  /** Why building an exam fails (the exceptions `Exam.__init__` lets through). */
  datatype ExamError =
    | EmptyGroup(position: nat)              // `random.choice` on an empty tuple
    | MissingQuestionFile(id: string)        // opening `<id>.md` fails
    | BadQuestion(id: string, error: ParseError)

  /** The text of each question file that exists, by question name. */
  type Files = map<string, string>

  /** The choice drawn for an entry lies within its tuple. */
  predicate PickFits(entry: QuestionRef, pick: nat) {
    entry.Group? && entry.ids != [] ==> pick < |entry.ids|
  }

  /** The question name an entry stands for; `None` for an empty tuple. */
  function Resolve(entry: QuestionRef, pick: nat): (r: Option<string>)
    requires PickFits(entry, pick)
  {
    match entry
    case Single(id) => Some(id)
    case Group(ids) => if ids == [] then None else Some(ids[pick])
  }

  /** The draws for an entry are ones `random` can make for it. */
  predicate EntryFits(files: Files, entry: QuestionRef, pick: nat, shuffle: seq<nat>, randomAnswers: bool) {
    && PickFits(entry, pick)
    && var id := Resolve(entry, pick);
       id.Some? && id.value in files ==> ShuffleFits(files[id.value], randomAnswers, shuffle)
  }

  /** There are draws for every entry, and each fits its entry. */
  predicate EntriesFit(files: Files, entries: seq<QuestionRef>, draws: Draws, randomAnswers: bool) {
    && |draws.picks| == |entries|
    && |draws.answerShuffles| == |entries|
    && forall k :: 0 <= k < |entries| ==>
         EntryFits(files, entries[k], draws.picks[k], draws.answerShuffles[k], randomAnswers)
  }

  /** The question entry `k` contributes, read from its file. */
  function LoadEntry(files: Files, entries: seq<QuestionRef>, draws: Draws, randomAnswers: bool, k: nat): Result<Question, ExamError>
    requires k < |entries| && EntriesFit(files, entries, draws, randomAnswers)
  {
    var id := Resolve(entries[k], draws.picks[k]);
    if id.None? then Err(EmptyGroup(k))
    else if id.value !in files then Err(MissingQuestionFile(id.value))
    else match ParseQuestion(files[id.value], randomAnswers, draws.answerShuffles[k])
      case Ok(q) => Ok(q)
      case Err(e) => Err(BadQuestion(id.value, e))
  }

  /**
   * A loaded entry comes from the file of the named question, or of one member of the
   * tuple, and is what reading that file gives.
   */
  lemma LoadEntryFrom(files: Files, entries: seq<QuestionRef>, draws: Draws, randomAnswers: bool, k: nat)
    requires k < |entries| && EntriesFit(files, entries, draws, randomAnswers)
    ensures var r := LoadEntry(files, entries, draws, randomAnswers, k);
      var id := Resolve(entries[k], draws.picks[k]);
      r.Ok? ==>
        && id.Some? && id.value in files
        && (entries[k].Single? ==> id.value == entries[k].id)
        && (entries[k].Group? ==> id.value in entries[k].ids)
        && ShuffleFits(files[id.value], randomAnswers, draws.answerShuffles[k])
        && ParseQuestion(files[id.value], randomAnswers, draws.answerShuffles[k]) == Ok(r.value)
    ensures LoadEntry(files, entries, draws, randomAnswers, k) == Err(EmptyGroup(k)) <==> entries[k] == Group([])
  {
  }

  /** What every entry contributes, in the definition's order. */
  function LoadAll(files: Files, entries: seq<QuestionRef>, draws: Draws, randomAnswers: bool): (r: seq<Result<Question, ExamError>>)
    requires EntriesFit(files, entries, draws, randomAnswers)
    ensures |r| == |entries|
  {
    seq(|entries|, k requires 0 <= k < |entries| => LoadEntry(files, entries, draws, randomAnswers, k))
  }

  /**
   * The values of the first `n` results, in order, as a loop that appends each value
   * collects them; the first error stops the collection.
   */
  function Collect<T, E>(rs: seq<Result<T, E>>, n: nat): (r: Result<seq<T>, E>)
    requires n <= |rs|
    ensures r.Ok? <==> forall k :: 0 <= k < n ==> rs[k].Ok?
    ensures r.Ok? ==> |r.value| == n && forall k :: 0 <= k < n ==> rs[k] == Ok(r.value[k])
  {
    if n == 0 then Ok([])
    else
      var before := Collect(rs, n - 1);
      if before.Err? then before
      else if rs[n - 1].Err? then Err(rs[n - 1].error)
      else Ok(before.value + [rs[n - 1].value])
  }

  /** The position of the first error at or after `from`, if any. */
  function FirstErr<T, E>(rs: seq<Result<T, E>>, from: nat): (r: Option<nat>)
    decreases |rs| - from
    ensures r.Some? ==> from <= r.value < |rs| && rs[r.value].Err?
    ensures r.Some? ==> forall j :: from <= j < r.value ==> rs[j].Ok?
    ensures r.None? ==> forall j :: from <= j < |rs| ==> rs[j].Ok?
  {
    if from >= |rs| then None
    else if rs[from].Err? then Some(from)
    else FirstErr(rs, from + 1)
  }

  /** A failed collection reports the error of the first result that is one. */
  lemma {:induction false} CollectFailsAtFirst<T, E>(rs: seq<Result<T, E>>, n: nat)
    requires n <= |rs|
    ensures Collect(rs, n).Err? ==>
      var k := FirstErr(rs, 0);
      k.Some? && k.value < n && rs[k.value] == Err(Collect(rs, n).error)
  {
    if n > 0 {
      CollectFailsAtFirst(rs, n - 1);
    }
  }

  /** Once the results before `k` are values, an error at `k` is the error of any longer collection. */
  lemma {:induction false} CollectStops<T, E>(rs: seq<Result<T, E>>, k: nat, n: nat)
    requires k < n <= |rs| && Collect(rs, k).Ok? && rs[k].Err?
    ensures Collect(rs, n) == Err(rs[k].error)
    decreases n
  {
    if n > k + 1 {
      CollectStops(rs, k, n - 1);
    }
  }

  /** The draws of a build fit its definition and its options. */
  predicate DrawsFit(files: Files, definition: ExamDefinition, draws: Draws, randomQuestions: bool, randomAnswers: bool) {
    && EntriesFit(files, definition.questions, draws, randomAnswers)
    && (randomQuestions ==> IsPermutation(draws.questionShuffle, |definition.questions|))
  }

  /** The questions of a built exam: collected from the entries, then shuffled if asked. */
  function Assemble(files: Files, definition: ExamDefinition, draws: Draws, randomQuestions: bool, randomAnswers: bool): Result<seq<Question>, ExamError>
    requires DrawsFit(files, definition, draws, randomQuestions, randomAnswers)
  {
    var loaded := LoadAll(files, definition.questions, draws, randomAnswers);
    var collected := Collect(loaded, |loaded|);
    if collected.Err? then Err(collected.error)
    else Ok(if randomQuestions then Permute(collected.value, draws.questionShuffle) else collected.value)
  }

  /**
   * Building an exam fails exactly when some entry cannot be loaded, and then with the
   * error of the first such entry.
   */
  lemma AssembleFails(files: Files, definition: ExamDefinition, draws: Draws, randomQuestions: bool, randomAnswers: bool)
    requires DrawsFit(files, definition, draws, randomQuestions, randomAnswers)
    ensures var loaded := LoadAll(files, definition.questions, draws, randomAnswers);
      var r := Assemble(files, definition, draws, randomQuestions, randomAnswers);
      && (r.Ok? <==> forall k :: 0 <= k < |loaded| ==> loaded[k].Ok?)
      && (r.Err? ==>
            var k := FirstErr(loaded, 0);
            && k.Some?
            && loaded[k.value] == Err(r.error)
            && forall j :: 0 <= j < k.value ==> loaded[j].Ok?)
  {
    var loaded := LoadAll(files, definition.questions, draws, randomAnswers);
    CollectFailsAtFirst(loaded, |loaded|);
  }

  /**
   * An exam has one question per entry of its definition: question `k` is the one entry
   * `questionShuffle[k]` contributes (entry `k` without shuffling), moved whole, so it
   * keeps its alternatives and its correct index.
   */
  lemma AssembleOrder(files: Files, definition: ExamDefinition, draws: Draws, randomQuestions: bool, randomAnswers: bool)
    requires DrawsFit(files, definition, draws, randomQuestions, randomAnswers)
    ensures var loaded := LoadAll(files, definition.questions, draws, randomAnswers);
      var r := Assemble(files, definition, draws, randomQuestions, randomAnswers);
      r.Ok? ==>
        && |r.value| == |loaded|
        && forall k :: 0 <= k < |loaded| ==>
             var source := if randomQuestions then draws.questionShuffle[k] else k;
             source < |loaded| && loaded[source] == Ok(r.value[k])
  {
  }

  /** Shuffling the questions neither loses nor repeats any of them. */
  lemma AssembleKeepsQuestions(files: Files, definition: ExamDefinition, draws: Draws, randomQuestions: bool, randomAnswers: bool)
    requires DrawsFit(files, definition, draws, randomQuestions, randomAnswers)
    ensures var loaded := LoadAll(files, definition.questions, draws, randomAnswers);
      var r := Assemble(files, definition, draws, randomQuestions, randomAnswers);
      r.Ok? ==> multiset(r.value) == multiset(Collect(loaded, |loaded|).value)
  {
    var loaded := LoadAll(files, definition.questions, draws, randomAnswers);
    var c := Collect(loaded, |loaded|);
    if c.Ok? && randomQuestions {
      PermuteMultiset(c.value, draws.questionShuffle);
    }
  }

  /** Every question an entry contributes is printable, since it was read from a file. */
  lemma LoadedPrintable(files: Files, entries: seq<QuestionRef>, draws: Draws, randomAnswers: bool, k: nat)
    requires k < |entries| && EntriesFit(files, entries, draws, randomAnswers)
    ensures var r := LoadEntry(files, entries, draws, randomAnswers, k);
      r.Ok? ==> Printable(r.value)
  {
    var id := Resolve(entries[k], draws.picks[k]);
    if id.Some? && id.value in files {
      ParsedPrintable(files[id.value], randomAnswers, draws.answerShuffles[k]);
    }
  }

  /** Every question of a built exam is printable. */
  lemma AssembledPrintable(files: Files, definition: ExamDefinition, draws: Draws, randomQuestions: bool, randomAnswers: bool)
    requires DrawsFit(files, definition, draws, randomQuestions, randomAnswers)
    ensures var r := Assemble(files, definition, draws, randomQuestions, randomAnswers);
      r.Ok? ==> forall k :: 0 <= k < |r.value| ==> Printable(r.value[k])
  {
    var r := Assemble(files, definition, draws, randomQuestions, randomAnswers);
    if r.Ok? {
      AssembleOrder(files, definition, draws, randomQuestions, randomAnswers);
      var loaded := LoadAll(files, definition.questions, draws, randomAnswers);
      forall k | 0 <= k < |r.value| ensures Printable(r.value[k]) {
        var source := if randomQuestions then draws.questionShuffle[k] else k;
        assert loaded[source] == Ok(r.value[k]);
        LoadedPrintable(files, definition.questions, draws, randomAnswers, source);
      }
    }
  }

  /** `os.path.basename(path).split(".")[0]`: the exam's name, from its file path. */
  function ExamName(path: string): string {
    var parts := Split(path, "/");
    Split(parts[|parts| - 1], ".")[0]
  }

  /** The exam name is the base name up to its first dot: it has no slash and no dot. */
  lemma ExamNameShape(path: string)
    ensures '/' !in ExamName(path) && '.' !in ExamName(path)
    ensures var parts := Split(path, "/");
      '.' !in parts[|parts| - 1] ==> ExamName(path) == parts[|parts| - 1]
    ensures var parts := Split(path, "/");
      var base := parts[|parts| - 1];
      var f := FindFrom(base, ".", 0);
      f.Some? ==> ExamName(path) == base[..f.value]
  {
    var parts := Split(path, "/");
    var base := parts[|parts| - 1];
    SplitPiecesFree(path, "/", |parts| - 1);
    ContainsChar(base, '/');
    SplitPiecesFree(base, ".", 0);
    ContainsChar(ExamName(path), '.');
    ContainsChar(base, '.');
    SplitCount(base, ".");
    var f := FindFrom(base, ".", 0);
    if f.Some? {
      SplitAtFirst(base, ".", f.value);
      assert '/' !in base[..f.value];
    }
  }

  /** The substitution values of one question in the question template. */
  datatype QuestionFields = QuestionFields(number: nat, content: string, answers: string)

  /** The substitution values of the exam template. */
  datatype ExamFields = ExamFields(
    institution: string, course: string, professor: string, exam: string,
    questions: seq<QuestionFields>, examcode: string)

  /** Why `build_markdown` stops: this question has more alternatives than letters. */
  datatype LayoutError = TooManyAlternatives(position: nat)

  /** The first question at or after `from` whose alternatives cannot all be lettered. */
  function FirstUnlettered(qs: seq<Question>, from: nat): (r: Option<nat>)
    decreases |qs| - from
    ensures r.Some? ==> from <= r.value < |qs| && |qs[r.value].alternatives| > LetterCount
    ensures r.Some? ==> forall j :: from <= j < r.value ==> |qs[j].alternatives| <= LetterCount
    ensures r.None? ==> forall j :: from <= j < |qs| ==> |qs[j].alternatives| <= LetterCount
  {
    if from >= |qs| then None
    else if |qs[from].alternatives| > LetterCount then Some(from)
    else FirstUnlettered(qs, from + 1)
  }

  /** The template values `build_markdown` fills in, or where it stops. */
  function Markdown(definition: ExamDefinition, qs: seq<Question>, examcode: Option<nat>): Result<ExamFields, LayoutError> {
    var bad := FirstUnlettered(qs, 0);
    if bad.Some? then Err(TooManyAlternatives(bad.value))
    else
      var fields := seq(|qs|, i requires 0 <= i < |qs| =>
        QuestionFields(i + 1, qs[i].question, Choices(qs[i].alternatives).value));
      Ok(ExamFields(definition.institution, definition.course, definition.professor,
                    definition.exam, fields, ExamCodeTag(examcode)))
  }

  /**
   * Question `i` of the layout and line `i` of the answer key show question `q` alike: it
   * is numbered `i + 1` in both, the layout shows its prompt, and the key's letter labels
   * exactly one line of its lettered alternatives, the line with the correct text.
   */
  predicate AgreesWithKey(fields: ExamFields, key: string, q: Question, i: nat) {
    var keyLines := Split(key, "\n");
    && i < |fields.questions|
    && i < |keyLines|
    && fields.questions[i].number == i + 1
    && fields.questions[i].content == q.question
    && |keyLines[i]| >= 5
    && IsDigits(keyLines[i][..|keyLines[i]| - 4])
    && DecimalValue(keyLines[i][..|keyLines[i]| - 4]) == i + 1
    && var block := Split(fields.questions[i].answers, "\n");
       && q.correctIndex.Some?
       && var c := q.correctIndex.value;
          && c < |q.alternatives| < |block|
          && (forall j :: 0 <= j < |q.alternatives| ==> |block[j]| >= 3)
          && (forall j :: 0 <= j < |q.alternatives| ==>
                (block[j][0] == keyLines[i][|keyLines[i]| - 1] <==> j == c))
          && block[c][3..] == q.alternatives[c]
  }

  /**
   * The exam layout and the answer key agree on every printable question, and the header
   * shows the exam code exactly when one is given.
   */
  lemma MarkdownAgreesWithAnswerKey(definition: ExamDefinition, qs: seq<Question>, examcode: Option<nat>, i: nat)
    requires Markdown(definition, qs, examcode).Ok? && AnswerKey(qs).Ok? && i < |qs|
    requires Printable(qs[i])
    ensures var fields := Markdown(definition, qs, examcode).value;
      && |fields.questions| == |qs| < |Split(AnswerKey(qs).value, "\n")|
      && AgreesWithKey(fields, AnswerKey(qs).value, qs[i], i)
    ensures Markdown(definition, qs, examcode).value.examcode == [] <==> examcode.None?
  {
    assert |qs[i].alternatives| <= LetterCount;
    AnswerKeyLines(qs);
    AnswerLineReadBack(i + 1, qs[i]);
    AnswerKeyAgreesWithChoices(qs, i);
    ExamCodeTagRoundTrip(examcode);
  }

  /** Building the layout fails exactly when some question has more than 26 alternatives. */
  lemma MarkdownFails(definition: ExamDefinition, qs: seq<Question>, examcode: Option<nat>)
    ensures Markdown(definition, qs, examcode).Err? <==>
      exists i :: 0 <= i < |qs| && |qs[i].alternatives| > LetterCount
  {
    var bad := FirstUnlettered(qs, 0);
    if bad.Some? {
      assert |qs[bad.value].alternatives| > LetterCount;
    }
  }

  /** The name the output files get: the one asked for, or the exam's own name. */
  function OutputBase(examName: string, outputName: Option<string>): string {
    if outputName.None? then examName else outputName.value
  }

  /** The PDF `generate_pdf` asks pandoc for. */
  function PdfFileName(base: string): string {
    base + ".pdf"
  }

  /** The answer-key file `generate_answers` writes. */
  function AnswersFileName(base: string): string {
    base + "-answers.txt"
  }

  /** `examgen.Exam`: the options it was built with, its name and its questions. */
  class Exam {
    const examPath: string
    const definition: ExamDefinition
    const randomQuestions: bool
    const randomAnswers: bool
    const examName: string
    var questions: seq<Question>

    /** The fields `__init__` sets before it reads the questions. */
    constructor (examPath: string, definition: ExamDefinition, randomQuestions: bool, randomAnswers: bool)
      ensures this.examPath == examPath && this.definition == definition
      ensures this.randomQuestions == randomQuestions && this.randomAnswers == randomAnswers
      ensures examName == ExamName(examPath) && questions == []
    {
      this.examPath := examPath;
      this.definition := definition;
      this.randomQuestions := randomQuestions;
      this.randomAnswers := randomAnswers;
      examName := ExamName(examPath);
      questions := [];
    }

    /**
     * `__init__`: an exam whose questions are read from the question files, one per entry
     * of the definition, and shuffled when `randomQuestions` is set; or the error that
     * stops the reading.
     */
    static method Load(examPath: string, definition: ExamDefinition, files: Files, draws: Draws,
                       randomQuestions: bool, randomAnswers: bool)
      returns (r: Result<Exam, ExamError>)
      requires DrawsFit(files, definition, draws, randomQuestions, randomAnswers)
      ensures r.Err? <==> Assemble(files, definition, draws, randomQuestions, randomAnswers).Err?
      ensures r.Err? ==> r.error == Assemble(files, definition, draws, randomQuestions, randomAnswers).error
      ensures r.Ok? ==>
        && fresh(r.value)
        && r.value.examPath == examPath && r.value.definition == definition
        && r.value.randomQuestions == randomQuestions && r.value.randomAnswers == randomAnswers
        && r.value.examName == ExamName(examPath)
        && r.value.questions == Assemble(files, definition, draws, randomQuestions, randomAnswers).value
    {
      var exam := new Exam(examPath, definition, randomQuestions, randomAnswers);
      var entries := definition.questions;
      ghost var loaded := LoadAll(files, entries, draws, randomAnswers);
      for k := 0 to |entries|
        invariant Collect(loaded, k).Ok?
        invariant exam.questions == Collect(loaded, k).value
      {
        var question := exam.ReadEntry(files, entries, draws, k);
        assert loaded[k] == question;
        if question.Err? {
          CollectStops(loaded, k, |loaded|);
          return Err(question.error);
        }
        exam.questions := exam.questions + [question.value];
      }
      if randomQuestions {
        exam.questions := Permute(exam.questions, draws.questionShuffle);
      }
      return Ok(exam);
    }

    /**
     * One pass of the loop in `__init__`: the entry's question name (drawn from a tuple),
     * then the question read from that name's file.
     */
    method ReadEntry(files: Files, entries: seq<QuestionRef>, draws: Draws, k: nat)
      returns (r: Result<Question, ExamError>)
      requires k < |entries| && EntriesFit(files, entries, draws, randomAnswers)
      ensures r == LoadEntry(files, entries, draws, randomAnswers, k)
    {
      var entry := entries[k];
      var id: string;
      if entry.Group? {
        if entry.ids == [] {
          return Err(EmptyGroup(k));
        }
        id := entry.ids[draws.picks[k]];
      } else {
        id := entry.id;
      }
      if id !in files {
        return Err(MissingQuestionFile(id));
      }
      var question := ReadQuestion(files[id], draws.answerShuffles[k]);
      if question.Err? {
        return Err(BadQuestion(id, question.error));
      }
      return Ok(question.value);
    }

    /**
     * `read_question`: cuts the text at the separators, trims the prompt and the block,
     * shuffles the lines when `randomAnswers` is set, then looks at each line in turn.
     */
    method ReadQuestion(text: string, perm: seq<nat>) returns (r: Result<Question, ParseError>)
      requires ShuffleFits(text, randomAnswers, perm)
      ensures r == ParseQuestion(text, randomAnswers, perm)
    {
      var textSplit := Split(text, Separator);
      if |textSplit| < 2 {
        return Err(MissingSeparator);
      }
      var question := Strip(textSplit[0]) + "\n";
      var alternativesList := Split(Strip(textSplit[1]), "\n");
      if randomAnswers {
        alternativesList := Permute(alternativesList, perm);
      }
      var scanned := ScanAlternatives(alternativesList);
      if scanned.Err? {
        return Err(EmptyAlternativeLine(scanned.error));
      }
      var (alternatives, correctIndex) := scanned.value;
      return Ok(Question(question, alternatives, correctIndex));
    }

    /**
     * The loop of `read_question` over the (possibly shuffled) lines: each line's first
     * character decides whether it is the correct one so far, and the line without its
     * prefix is appended; an empty line stops it, at its position.
     */
    static method ScanAlternatives(alternativesList: seq<string>) returns (r: Result<(seq<string>, Option<nat>), nat>)
      ensures r.Err? <==> FirstEmpty(alternativesList, 0).Some?
      ensures r.Err? ==> r.error == FirstEmpty(alternativesList, 0).value
      ensures r.Ok? ==> r.value == (Unprefixed(alternativesList), LastMarked(alternativesList))
    {
      var alternatives: seq<string> := [];
      var correctIndex: Option<nat> := None;
      for index := 0 to |alternativesList|
        invariant alternatives == Unprefixed(alternativesList[..index])
        invariant correctIndex == LastMarked(alternativesList[..index])
        invariant forall j :: 0 <= j < index ==> |alternativesList[j]| > 0
      {
        var value := alternativesList[index];
        if |value| == 0 {
          return Err(index);
        }
        LastMarkedStep(alternativesList, index);
        UnprefixedStep(alternativesList, index);
        if value[0] == 'x' {
          correctIndex := Some(index);
        }
        alternatives := alternatives + [if |value| < 2 then [] else value[2..]];
      }
      assert alternativesList[..|alternativesList|] == alternativesList;
      return Ok((alternatives, correctIndex));
    }

    /** `_format_alternatives`: labels the alternatives `a)`, `b)`, ... one per line. */
    static method FormatAlternatives(alternatives: seq<string>) returns (r: Option<string>)
      ensures r == Choices(alternatives)
    {
      var alternativesText := "";
      for index := 0 to |alternatives|
        invariant index <= LetterCount
        invariant alternativesText == Concat(Terminated(ChoiceLines(alternatives[..index])))
      {
        if index >= LetterCount {
          return None;
        }
        var line := [Letter(index)] + ") " + alternatives[index];
        ChoiceLinesPrefix(alternatives, index);
        TerminatedAppend(ChoiceLines(alternatives[..index]), line);
        alternativesText := alternativesText + line + "\n";
      }
      assert alternatives[..|alternatives|] == alternatives;
      return Some(alternativesText);
    }

    /**
     * `build_markdown`: the template values of each question, numbered from 1 in exam
     * order, and of the exam header with the exam-code tag.
     */
    method BuildMarkdown(examcode: Option<nat>) returns (r: Result<ExamFields, LayoutError>)
      ensures r == Markdown(definition, questions, examcode)
    {
      var fields: seq<QuestionFields> := [];
      for index := 0 to |questions|
        invariant |fields| == index
        invariant forall j :: 0 <= j < index ==> |questions[j].alternatives| <= LetterCount
        invariant forall j :: 0 <= j < index ==>
          fields[j] == QuestionFields(j + 1, questions[j].question, Choices(questions[j].alternatives).value)
      {
        var question := questions[index];
        var alternativesText := FormatAlternatives(question.alternatives);
        if alternativesText.None? {
          return Err(TooManyAlternatives(index));
        }
        fields := fields + [QuestionFields(index + 1, question.question, alternativesText.value)];
      }
      var tag := if examcode.Some? then "#" + NatToString(examcode.value) else "";
      ghost var qs := questions;
      assert fields == seq(|qs|, i requires 0 <= i < |qs| =>
        QuestionFields(i + 1, qs[i].question, Choices(qs[i].alternatives).value));
      assert FirstUnlettered(questions, 0).None?;
      return Ok(ExamFields(definition.institution, definition.course, definition.professor,
                           definition.exam, fields, tag));
    }

    /** `generate_pdf`: the PDF file pandoc is asked to write. */
    method GeneratePdf(outputName: Option<string>) returns (fileName: string)
      ensures fileName == PdfFileName(OutputBase(examName, outputName))
    {
      var name := if outputName.None? then examName else outputName.value;
      fileName := name + ".pdf";
    }

    /**
     * `generate_answers`: the answer-key file name and its text, one line
     * "<number> - <letter>" per question in exam order; or where it stops.
     */
    method GenerateAnswers(outputName: Option<string>) returns (fileName: string, r: Result<string, AnswerError>)
      ensures fileName == AnswersFileName(OutputBase(examName, outputName))
      ensures r == AnswerKey(questions)
    {
      var name := if outputName.None? then examName else outputName.value;
      fileName := name + "-answers.txt";
      var text := "";
      for index := 0 to |questions|
        invariant forall j :: 0 <= j < index ==> HasLetter(questions[j])
        invariant text == Concat(Terminated(AnswerLines(questions[..index])))
      {
        var value := questions[index];
        if value.correctIndex.None? {
          AnswerKeyStopsAt(questions, index);
          return fileName, Err(NoCorrectAnswer(index));
        }
        if value.correctIndex.value >= LetterCount {
          AnswerKeyStopsAt(questions, index);
          return fileName, Err(LetterOutOfRange(index));
        }
        var line := NatToString(index + 1) + " - " + [Letter(value.correctIndex.value)];
        AnswerLinesPrefix(questions, index);
        TerminatedAppend(AnswerLines(questions[..index]), line);
        text := text + line + "\n";
      }
      assert questions[..|questions|] == questions;
      assert FirstWithoutLetter(questions, 0).None?;
      r := Ok(text);
    }
  }
}
