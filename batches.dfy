/**
 * `examgen.Batch`: several variants of one exam, each built afresh (so with its own random
 * draws), numbered from 0, written as a PDF and an answer key under the variant's name;
 * optionally merged into one PDF, after padding each variant to an even page count for
 * printing front and back.
 *
 * pandoc's pagination is not modelled: the number of pages of each variant's PDF is
 * given. A page is only known as page `number` of the document rendered from a layout.
 */
module Batches {
  import opened Wrappers
  import opened Strings
  import opened Questions
  import opened Rendering
  import opened Exams

  /** `f"{exam_name}-{i}"`: the output name of variant `i`. */
  function VariantName(name: string, i: nat): string {
    name + "-" + NatToString(i)
  }

  /** `f"{exam_name}-merge.pdf"`: the merged PDF. */
  function MergeFileName(name: string): string {
    name + "-merge.pdf"
  }

  /** Two equal strings with the same prefix have equal remainders. */
  lemma CancelPrefix(p: string, a: string, b: string)
    requires p + a == p + b
    ensures a == b
  {
    assert a == (p + a)[|p|..];
    assert b == (p + b)[|p|..];
  }

  /** Two equal strings with the same suffix have equal beginnings. */
  lemma CancelSuffix(a: string, b: string, t: string)
    requires a + t == b + t
    ensures a == b
  {
    assert a == (a + t)[..|a|];
    assert b == (b + t)[..|b|];
  }

  /** Different variants get different output names. */
  lemma VariantNamesDistinct(name: string, i: nat, j: nat)
    ensures VariantName(name, i) == VariantName(name, j) <==> i == j
  {
    if VariantName(name, i) == VariantName(name, j) {
      CancelPrefix(name + "-", NatToString(i), NatToString(j));
      NatToStringInjective(i, j);
    }
  }

  /**
   * No two files a batch writes share a name: the PDFs and the answer keys of different
   * variants differ, no PDF is named like an answer key, and no variant is named like the
   * merged PDF.
   */
  lemma OutputNamesDistinct(name: string, i: nat, j: nat)
    ensures PdfFileName(VariantName(name, i)) == PdfFileName(VariantName(name, j)) <==> i == j
    ensures AnswersFileName(VariantName(name, i)) == AnswersFileName(VariantName(name, j)) <==> i == j
    ensures PdfFileName(VariantName(name, i)) != AnswersFileName(VariantName(name, j))
    ensures PdfFileName(VariantName(name, i)) != MergeFileName(name)
    ensures AnswersFileName(VariantName(name, i)) != MergeFileName(name)
  {
    VariantNamesDistinct(name, i, j);
    if PdfFileName(VariantName(name, i)) == PdfFileName(VariantName(name, j)) {
      CancelSuffix(VariantName(name, i), VariantName(name, j), ".pdf");
    }
    if AnswersFileName(VariantName(name, i)) == AnswersFileName(VariantName(name, j)) {
      CancelSuffix(VariantName(name, i), VariantName(name, j), "-answers.txt");
    }
    var pdf := PdfFileName(VariantName(name, i));
    var answers := AnswersFileName(VariantName(name, j));
    assert pdf[|pdf| - 1] == 'f' && answers[|answers| - 1] == 't';
    var digits := NatToString(i);
    assert pdf[|name| + 1] == digits[0];
    assert MergeFileName(name)[|name| + 1] == 'm';
    var key := AnswersFileName(VariantName(name, i));
    assert key[|name| + 1] == digits[0];
  }

  /** `range(quantity)`: how many variants a batch makes; none for a negative quantity. */
  function Count(quantity: int): nat {
    if quantity < 0 then 0 else quantity
  }

  /** A page of a PDF: page `number` of the document rendered from `layout`, or blank. */
  datatype Page = Page(layout: ExamFields, number: nat) | Blank

  datatype PdfFile = PdfFile(name: string, pages: seq<Page>)

  datatype TextFile = TextFile(name: string, text: string)

  /** What one variant leaves in the batch directory, and the layout its PDF shows. */
  datatype Variant = Variant(layout: ExamFields, pdf: PdfFile, answers: TextFile)

  /** Why `Batch.generate` stops, at variant `variant`. */
  datatype BatchError =
    | ExamFailed(variant: nat, examError: ExamError)
    | LayoutFailed(variant: nat, layoutError: LayoutError)
    | AnswersFailed(variant: nat, answerError: AnswerError)

  /** The pages pandoc makes of a layout, given how many there are. */
  function Rendered(layout: ExamFields, count: nat): (r: seq<Page>)
    ensures |r| == count
  {
    seq(count, k requires 0 <= k < count => Page(layout, k))
  }

  /** The variant PDF written before its answer key, when the build gets that far. */
  function VariantPdf(files: Files, definition: ExamDefinition, draws: Draws, pageCount: nat,
                      randomQuestions: bool, randomAnswers: bool, name: string, i: nat): Result<(ExamFields, PdfFile), BatchError>
    requires DrawsFit(files, definition, draws, randomQuestions, randomAnswers)
  {
    var exam := Assemble(files, definition, draws, randomQuestions, randomAnswers);
    if exam.Err? then Err(ExamFailed(i, exam.error))
    else
      var layout := Markdown(definition, exam.value, Some(i));
      if layout.Err? then Err(LayoutFailed(i, layout.error))
      else Ok((layout.value, PdfFile(PdfFileName(VariantName(name, i)), Rendered(layout.value, pageCount))))
  }

  /** Everything variant `i` writes, or why it stops. */
  function VariantResult(files: Files, definition: ExamDefinition, draws: Draws, pageCount: nat,
                         randomQuestions: bool, randomAnswers: bool, name: string, i: nat): Result<Variant, BatchError>
    requires DrawsFit(files, definition, draws, randomQuestions, randomAnswers)
  {
    var pdf := VariantPdf(files, definition, draws, pageCount, randomQuestions, randomAnswers, name, i);
    if pdf.Err? then Err(pdf.error)
    else
      var key := AnswerKey(Assemble(files, definition, draws, randomQuestions, randomAnswers).value);
      if key.Err? then Err(AnswersFailed(i, key.error))
      else Ok(Variant(pdf.value.0, pdf.value.1, TextFile(AnswersFileName(VariantName(name, i)), key.value)))
  }

  /**
   * A finished variant carries its own number as exam code, an answer key that is the
   * key of its questions, and files named after it; it fails exactly when building the
   * exam, its layout or its key fails.
   */
  lemma VariantShape(files: Files, definition: ExamDefinition, draws: Draws, pageCount: nat,
                     randomQuestions: bool, randomAnswers: bool, name: string, i: nat)
    requires DrawsFit(files, definition, draws, randomQuestions, randomAnswers)
    ensures var v := VariantResult(files, definition, draws, pageCount, randomQuestions, randomAnswers, name, i);
      var exam := Assemble(files, definition, draws, randomQuestions, randomAnswers);
      && (v.Ok? <==> exam.Ok? && Markdown(definition, exam.value, Some(i)).Ok? && AnswerKey(exam.value).Ok?)
      && (v.Err? ==> v.error.variant == i)
      && (v.Ok? ==>
            && v.value.layout == Markdown(definition, exam.value, Some(i)).value
            && ReadExamCodeTag(v.value.layout.examcode) == Some(i)
            && v.value.pdf.name == PdfFileName(VariantName(name, i))
            && |v.value.pdf.pages| == pageCount
            && (forall k :: 0 <= k < pageCount ==> v.value.pdf.pages[k] == Page(v.value.layout, k))
            && v.value.answers == TextFile(AnswersFileName(VariantName(name, i)), AnswerKey(exam.value).value))
  {
    ExamCodeTagRoundTrip(Some(i));
  }

  /**
   * In a finished variant the layout in its PDF and its answer key agree on every
   * question: same number, same prompt, and the key's letter labels the correct line.
   */
  lemma VariantAgrees(files: Files, definition: ExamDefinition, draws: Draws, pageCount: nat,
                      randomQuestions: bool, randomAnswers: bool, name: string, i: nat)
    requires DrawsFit(files, definition, draws, randomQuestions, randomAnswers)
    ensures var v := VariantResult(files, definition, draws, pageCount, randomQuestions, randomAnswers, name, i);
      var exam := Assemble(files, definition, draws, randomQuestions, randomAnswers);
      v.Ok? ==>
        && exam.Ok?
        && |v.value.layout.questions| == |exam.value|
        && forall j :: 0 <= j < |exam.value| ==>
             AgreesWithKey(v.value.layout, v.value.answers.text, exam.value[j], j)
  {
    var v := VariantResult(files, definition, draws, pageCount, randomQuestions, randomAnswers, name, i);
    var exam := Assemble(files, definition, draws, randomQuestions, randomAnswers);
    if v.Ok? {
      VariantShape(files, definition, draws, pageCount, randomQuestions, randomAnswers, name, i);
      AssembledPrintable(files, definition, draws, randomQuestions, randomAnswers);
      forall j | 0 <= j < |exam.value|
        ensures AgreesWithKey(v.value.layout, v.value.answers.text, exam.value[j], j)
      {
        MarkdownAgreesWithAnswerKey(definition, exam.value, Some(i), j);
      }
    }
  }

  /** Every variant's result, in order. */
  function Results(files: Files, definition: ExamDefinition, draws: seq<Draws>, pageCounts: seq<nat>,
                   randomQuestions: bool, randomAnswers: bool, name: string): (r: seq<Result<Variant, BatchError>>)
    requires |pageCounts| == |draws|
    requires forall i :: 0 <= i < |draws| ==> DrawsFit(files, definition, draws[i], randomQuestions, randomAnswers)
    ensures |r| == |draws|
  {
    seq(|draws|, i requires 0 <= i < |draws| =>
      VariantResult(files, definition, draws[i], pageCounts[i], randomQuestions, randomAnswers, name, i))
  }

  function Pdfs(vs: seq<Variant>): (r: seq<PdfFile>)
    ensures |r| == |vs|
  {
    seq(|vs|, i requires 0 <= i < |vs| => vs[i].pdf)
  }

  function AnswerFiles(vs: seq<Variant>): (r: seq<TextFile>)
    ensures |r| == |vs|
  {
    seq(|vs|, i requires 0 <= i < |vs| => vs[i].answers)
  }

  /** The PDF a failing variant has already written: one exactly when only its key failed. */
  function Stranded(files: Files, definition: ExamDefinition, draws: Draws, pageCount: nat,
                    randomQuestions: bool, randomAnswers: bool, name: string, i: nat): seq<PdfFile>
    requires DrawsFit(files, definition, draws, randomQuestions, randomAnswers)
  {
    var pdf := VariantPdf(files, definition, draws, pageCount, randomQuestions, randomAnswers, name, i);
    if pdf.Ok? then [pdf.value.1] else []
  }

  /** `n_pages > 1 and n_pages % 2 == 1`: the PDF gets a blank page. */
  predicate NeedsBlankPage(n: nat) {
    n > 1 && n % 2 == 1
  }

  /** `_add_blank_page_if_odd` on the pages of one PDF. */
  function Padded(pages: seq<Page>): seq<Page> {
    if NeedsBlankPage(|pages|) then pages + [Blank] else pages
  }

  /**
   * Padding adds exactly one page, a blank one at the end, when there is more than one
   * page and their number is odd, and changes nothing otherwise; afterwards the count is
   * even unless the PDF has a single page.
   */
  lemma PaddedCount(pages: seq<Page>)
    ensures |Padded(pages)| == |pages| + 1 <==> |pages| > 1 && |pages| % 2 == 1
    ensures |Padded(pages)| == |pages| <==> !(|pages| > 1 && |pages| % 2 == 1)
    ensures Padded(pages)[..|pages|] == pages
    ensures |Padded(pages)| > |pages| ==> Padded(pages)[|pages|] == Blank
    ensures |Padded(pages)| % 2 == 0 || |pages| == 1
  {
  }

  function PaddedAll(pdfs: seq<PdfFile>): (r: seq<PdfFile>)
    ensures |r| == |pdfs|
  {
    seq(|pdfs|, i requires 0 <= i < |pdfs| => pdfs[i].(pages := Padded(pdfs[i].pages)))
  }

  /** The pages of the documents, one after the other: what `PdfFileMerger` writes. */
  function Flatten(docs: seq<PdfFile>): seq<Page> {
    if docs == [] then [] else Flatten(docs[..|docs| - 1]) + docs[|docs| - 1].pages
  }

  /** Where document `i` starts in the merged PDF (counting pages from 0). */
  function Offset(docs: seq<PdfFile>, i: nat): nat
    requires i <= |docs|
  {
    |Flatten(docs[..i])|
  }

  /** The merged PDF holds each document whole, in order: page `k` of document `i` is at its offset plus `k`. */
  lemma {:induction false} FlattenAt(docs: seq<PdfFile>, i: nat, k: nat)
    requires i < |docs| && k < |docs[i].pages|
    ensures Offset(docs, i) + k < |Flatten(docs)|
    ensures Flatten(docs)[Offset(docs, i) + k] == docs[i].pages[k]
    decreases |docs|
  {
    var n := |docs|;
    var init := docs[..n - 1];
    if i < n - 1 {
      assert init[..i] == docs[..i];
      FlattenAt(init, i, k);
    } else {
      assert init == docs[..i];
    }
  }

  /** Merging one more document appends its pages. */
  lemma FlattenStep(docs: seq<PdfFile>, i: nat)
    requires i < |docs|
    ensures Flatten(docs[..i + 1]) == Flatten(docs[..i]) + docs[i].pages
  {
    assert docs[..i + 1][..i] == docs[..i];
  }

  /** Each document starts right after the previous one ends. */
  lemma OffsetNext(docs: seq<PdfFile>, i: nat)
    requires i < |docs|
    ensures Offset(docs, i + 1) == Offset(docs, i) + |docs[i].pages|
  {
    assert docs[..i + 1][..i] == docs[..i];
  }

  /**
   * Printed front and back, every padded variant starts on the front of a sheet (an even
   * offset) as long as no earlier variant has a single page, since those are not padded.
   */
  lemma {:induction false} PaddedStartsOnFront(pdfs: seq<PdfFile>, i: nat)
    requires i <= |pdfs|
    requires forall j :: 0 <= j < i ==> |pdfs[j].pages| != 1
    ensures Offset(PaddedAll(pdfs), i) % 2 == 0
  {
    if i > 0 {
      PaddedStartsOnFront(pdfs, i - 1);
      OffsetNext(PaddedAll(pdfs), i - 1);
      PaddedCount(pdfs[i - 1].pages);
    }
  }

  /** `examgen.Batch`: the options of a batch and the files its last `generate` wrote. */
  class Batch {
    const examPath: string
    const quantity: int
    const randomQuestions: bool
    const randomAnswers: bool
    const merge: bool
    const frontAndBack: bool
    const examName: string
    /** The variant PDFs in the batch directory, in variant order. */
    var pdfs: seq<PdfFile>
    /** The answer keys in the batch directory, in variant order. */
    var answerKeys: seq<TextFile>
    /** The merged PDF, once written. */
    var merged: Option<PdfFile>

    constructor (examPath: string, quantity: int, randomQuestions: bool, randomAnswers: bool,
                 merge: bool, frontAndBack: bool)
      ensures this.examPath == examPath && this.quantity == quantity
      ensures this.randomQuestions == randomQuestions && this.randomAnswers == randomAnswers
      ensures this.merge == merge && this.frontAndBack == frontAndBack
      ensures examName == ExamName(examPath)
      ensures pdfs == [] && answerKeys == [] && merged == None
    {
      this.examPath := examPath;
      this.quantity := quantity;
      this.randomQuestions := randomQuestions;
      this.randomAnswers := randomAnswers;
      this.merge := merge;
      this.frontAndBack := frontAndBack;
      examName := ExamName(examPath);
      pdfs := [];
      answerKeys := [];
      merged := None;
    }

    /**
     * `generate`: variants 0 to quantity-1, each from a fresh `Exam` with its own draws
     * and page count, stopping at the first that fails; then, if `merge` is set, the
     * merged PDF of all variants in order, each padded first when `frontAndBack` is set.
     */
    method Generate(definition: ExamDefinition, files: Files, draws: seq<Draws>, pageCounts: seq<nat>)
      returns (error: Option<BatchError>)
      requires |draws| == Count(quantity) && |pageCounts| == Count(quantity)
      requires forall i :: 0 <= i < |draws| ==> DrawsFit(files, definition, draws[i], randomQuestions, randomAnswers)
      modifies this
      ensures var rs := Results(files, definition, draws, pageCounts, randomQuestions, randomAnswers, examName);
        var stop := FirstErr(rs, 0);
        && (error.None? <==> stop.None?)
        && (stop.Some? ==>
              var s := stop.value;
              && Collect(rs, s).Ok?
              && error == Some(rs[s].error)
              && answerKeys == AnswerFiles(Collect(rs, s).value)
              && pdfs == Pdfs(Collect(rs, s).value)
                         + Stranded(files, definition, draws[s], pageCounts[s], randomQuestions, randomAnswers, examName, s)
              && merged == None)
        && (stop.None? ==>
              var all := Pdfs(Collect(rs, |rs|).value);
              && Collect(rs, |rs|).Ok?
              && answerKeys == AnswerFiles(Collect(rs, |rs|).value)
              && pdfs == (if merge && frontAndBack then PaddedAll(all) else all)
              && merged == (if merge then Some(PdfFile(MergeFileName(examName), Flatten(pdfs))) else None))
    {
      error := GenerateVariants(definition, files, draws, pageCounts);
      if error.None? && merge {
        MergeFiles();
      }
    }

    /**
     * The first loop of `generate`: the files of each variant in turn, until one fails.
     * The files it replaces in the batch directory are those of the previous run.
     */
    method GenerateVariants(definition: ExamDefinition, files: Files, draws: seq<Draws>, pageCounts: seq<nat>)
      returns (error: Option<BatchError>)
      requires |draws| == Count(quantity) && |pageCounts| == Count(quantity)
      requires forall i :: 0 <= i < |draws| ==> DrawsFit(files, definition, draws[i], randomQuestions, randomAnswers)
      modifies this
      ensures var rs := Results(files, definition, draws, pageCounts, randomQuestions, randomAnswers, examName);
        var stop := FirstErr(rs, 0);
        && (error.None? <==> stop.None?)
        && (stop.Some? ==>
              var s := stop.value;
              && Collect(rs, s).Ok?
              && error == Some(rs[s].error)
              && answerKeys == AnswerFiles(Collect(rs, s).value)
              && pdfs == Pdfs(Collect(rs, s).value)
                         + Stranded(files, definition, draws[s], pageCounts[s], randomQuestions, randomAnswers, examName, s))
        && (stop.None? ==>
              && Collect(rs, |rs|).Ok?
              && answerKeys == AnswerFiles(Collect(rs, |rs|).value)
              && pdfs == Pdfs(Collect(rs, |rs|).value))
        && merged == None
    {
      pdfs := [];
      answerKeys := [];
      merged := None;
      ghost var rs := Results(files, definition, draws, pageCounts, randomQuestions, randomAnswers, examName);
      for i := 0 to Count(quantity)
        invariant Collect(rs, i).Ok?
        invariant answerKeys == AnswerFiles(Collect(rs, i).value)
        invariant pdfs == Pdfs(Collect(rs, i).value)
        invariant merged == None
      {
        error := GenerateVariant(definition, files, draws[i], pageCounts[i], i);
        assert rs[i] == VariantResult(files, definition, draws[i], pageCounts[i], randomQuestions, randomAnswers, examName, i);
        if error.Some? {
          FirstErrAt(rs, i);
          return;
        }
        StepFiles(Collect(rs, i).value, rs[i].value);
      }
      CollectDone(rs);
      return None;
    }

    /** One pass of the first loop of `generate`: the exam of variant `i` and its files. */
    method GenerateVariant(definition: ExamDefinition, files: Files, draws: Draws, pageCount: nat, i: nat)
      returns (error: Option<BatchError>)
      requires DrawsFit(files, definition, draws, randomQuestions, randomAnswers)
      modifies this
      ensures var v := VariantResult(files, definition, draws, pageCount, randomQuestions, randomAnswers, examName, i);
        && (error.None? <==> v.Ok?)
        && (v.Err? ==> error == Some(v.error))
        && pdfs == old(pdfs) + (if v.Ok? then [v.value.pdf]
                                else Stranded(files, definition, draws, pageCount, randomQuestions, randomAnswers, examName, i))
        && answerKeys == old(answerKeys) + (if v.Ok? then [v.value.answers] else [])
        && merged == old(merged)
    {
      ghost var spec := Assemble(files, definition, draws, randomQuestions, randomAnswers);
      ghost var pdf := VariantPdf(files, definition, draws, pageCount, randomQuestions, randomAnswers, examName, i);
      ghost var v := VariantResult(files, definition, draws, pageCount, randomQuestions, randomAnswers, examName, i);
      var exam := Exam.Load(examPath, definition, files, draws, randomQuestions, randomAnswers);
      if exam.Err? {
        assert pdf == Err(ExamFailed(i, exam.error)) && v == Err(ExamFailed(i, exam.error));
        return Some(ExamFailed(i, exam.error));
      }
      assert exam.value.questions == spec.value;
      var layout := exam.value.BuildMarkdown(Some(i));
      if layout.Err? {
        assert pdf == Err(LayoutFailed(i, layout.error)) && v == Err(LayoutFailed(i, layout.error));
        return Some(LayoutFailed(i, layout.error));
      }
      var pdfName := exam.value.GeneratePdf(Some(VariantName(examName, i)));
      assert pdf == Ok((layout.value, PdfFile(pdfName, Rendered(layout.value, pageCount))));
      pdfs := pdfs + [PdfFile(pdfName, Rendered(layout.value, pageCount))];
      var answersName, key := exam.value.GenerateAnswers(Some(VariantName(examName, i)));
      if key.Err? {
        assert v == Err(AnswersFailed(i, key.error));
        return Some(AnswersFailed(i, key.error));
      }
      assert v == Ok(Variant(layout.value, pdf.value.1, TextFile(answersName, key.value)));
      answerKeys := answerKeys + [TextFile(answersName, key.value)];
      return None;
    }

    /**
     * The merge in `generate`: each variant PDF in turn, padded in place first when
     * `frontAndBack` is set, is appended to the merger, which is then written.
     */
    method MergeFiles()
      modifies this
      ensures pdfs == if frontAndBack then PaddedAll(old(pdfs)) else old(pdfs)
      ensures merged == Some(PdfFile(MergeFileName(examName), Flatten(pdfs)))
      ensures answerKeys == old(answerKeys)
    {
      ghost var before := pdfs;
      ghost var after := if frontAndBack then PaddedAll(before) else before;
      var merger: seq<Page> := [];
      for i := 0 to |pdfs|
        invariant pdfs == after[..i] + before[i..]
        invariant merger == Flatten(after[..i])
        invariant answerKeys == old(answerKeys)
      {
        ghost var current := pdfs;
        assert current[i] == before[i];
        if frontAndBack {
          AddBlankPageIfOdd(i);
          assert pdfs == current[i := after[i]];
        }
        SpliceStep(after, before, i);
        FlattenStep(after, i);
        merger := merger + pdfs[i].pages;
      }
      assert after[..|after|] == after;
      merged := Some(PdfFile(MergeFileName(examName), merger));
    }

    /** `_add_blank_page_if_odd`: rewrites variant PDF `i` with a blank page when it needs one. */
    method AddBlankPageIfOdd(i: nat)
      requires i < |pdfs|
      modifies this
      ensures pdfs == old(pdfs)[i := old(pdfs)[i].(pages := Padded(old(pdfs)[i].pages))]
      ensures answerKeys == old(answerKeys) && merged == old(merged)
    {
      var pdf := pdfs[i];
      var nPages := |pdf.pages|;
      if nPages > 1 && nPages % 2 == 1 {
        pdfs := pdfs[i := pdf.(pages := pdf.pages + [Blank])];
      }
    }
  }

  /** Taking element `i` of `a` in place of element `i` of `b` moves the splice point by one. */
  lemma SpliceStep<T>(a: seq<T>, b: seq<T>, i: nat)
    requires |a| == |b| && i < |a|
    ensures (a[..i] + b[i..])[i := a[i]] == a[..i + 1] + b[i + 1..]
    ensures a == b ==> a[..i] + b[i..] == a[..i + 1] + b[i + 1..]
  {
  }

  /** The files after one more successful variant. */
  lemma StepFiles(vs: seq<Variant>, v: Variant)
    ensures Pdfs(vs + [v]) == Pdfs(vs) + [v.pdf]
    ensures AnswerFiles(vs + [v]) == AnswerFiles(vs) + [v.answers]
  {
  }

  /** The first error is at `i` when the results before it are values. */
  lemma FirstErrAt<T, E>(rs: seq<Result<T, E>>, i: nat)
    requires i < |rs| && Collect(rs, i).Ok? && rs[i].Err?
    ensures FirstErr(rs, 0) == Some(i)
  {
  }

  /** A collection with no error is complete. */
  lemma CollectDone<T, E>(rs: seq<Result<T, E>>)
    requires Collect(rs, |rs|).Ok?
    ensures FirstErr(rs, 0).None?
  {
  }
}
