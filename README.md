# examgen, modelled in Dafny

examgen builds multiple-choice exams from Markdown files. An exam is a Python module. It
gives header fields (institution, course, professor, exam) and a list of question
entries. An entry is either one question file name or a tuple of names, and then one of
them is drawn at random.

The shape of a question file:

- the prompt comes first;
- then a `---` line, then the alternatives, one per line;
- the correct alternative is marked with `x `, the others with `- `;
- an optional further `---` line is followed by comments.

The `Exam` class does the following:

- reads every question, optionally shuffling each question's alternatives and then the
  questions;
- fills the Markdown templates, numbering the questions from 1, lettering the
  alternatives `a)`, `b)`, … and showing an optional exam code `#<code>` in the header;
- has pandoc render the PDF;
- writes an answer key with lines `<number> - <letter>`.

`Batch` builds variants 0, 1, … of one exam, each with fresh random draws and its number
as exam code. It writes `<name>-<i>.pdf` and `<name>-<i>-answers.txt` for each variant.
Optionally it merges all the PDFs into `<name>-merge.pdf`. For front-and-back printing it
first pads every PDF that has an odd number of pages, more than one, with one blank page.

## The model

The modules follow the program's structure:

- `Wrappers`: `Option` and `Result`.
- `Strings`: these Python string built-ins:
  - `str.strip()`, with the `isspace` character set;
  - `str.split(sep)` on a substring, found left to right without overlap;
  - `sep.join`, `str(n)` and the concatenation of written lines.
- `Permutations`: `random.shuffle`, modelled by the permutation it draws.
- `Questions`: the `Question` record and `read_question` as a function.
- `Rendering`:
  - the lettered alternatives block of `_format_alternatives`;
  - the answer key of `generate_answers`;
  - the exam-code tag of `build_markdown`.
- `Exams`:
  - the exam definition;
  - the assembly of the questions in `Exam.__init__`;
  - the template values of `build_markdown`;
  - the output names;
  - `class Exam`, whose methods follow the source's loops.
- `Batches`:
  - variant names;
  - the padding rule and the merge;
  - `class Batch`, whose methods follow `generate` and `_add_blank_page_if_odd`.

Each method is proved against a specification function. For example, `Exam.ReadQuestion`
ensures `r == ParseQuestion(...)`. The lemmas beside each function state what the source
promises.

Every exception the code raises on bad input becomes an error value:

- a file without `---\n` (`text_split[1]`);
- an empty alternative line (`value[0]`);
- an empty tuple (`random.choice`);
- a missing question file;
- more than 26 alternatives (`string.ascii_lowercase[index]`);
- a question with no marked line (`None` as an index in `generate_answers`).

Where the code and its documentation differ, the model follows the code:

- The file is cut at every occurrence of the substring `---\n`, not only at a line that
  holds `---`.
- A one-character line is accepted (`value[2:]` is empty). Only an empty line fails.
- When several lines are marked, the correct index is the last of them in the order
  after shuffling, so with shuffled alternatives the shuffle decides which marked line
  the key names. When none is marked it is `None`, and only the answer key then fails.
- An exam code of 0 still shows as `#0`.
- A negative `quantity` makes no variants.

Randomness and I/O come in as parameters:

- `Draws`: the tuple choice and alternative shuffle of each entry, then the question
  shuffle.
- A map from question name to file text.
- The exam definition as a record.
- The page count pandoc gives each variant PDF.

## Model

| member | source | states |
|---|---|---|
| Strings.IsSpace | examgen/examgen.py:84-85 | the characters `str.isspace` accepts, which `strip` removes; its meaning is stated by Strings.LeadingSpace, Strings.TrailingSpace and Strings.StripIsInfix |
| Strings.LeadingSpace | examgen/examgen.py:84-85 | the count of leading characters removed by `strip` is bounded by the length, covers only white space, and stops at a non-space character |
| Strings.TrailingSpace | examgen/examgen.py:84-85 | the same for the trailing white space |
| Strings.Strip | examgen/examgen.py:84-85 | the stripped text is no longer than the input and starts and ends with a non-space character |
| Strings.StripEmpty | examgen/examgen.py:84-85 | stripping gives "" exactly when every character is white space |
| Strings.StripIsInfix | examgen/examgen.py:84-85 | the stripped text is the contiguous middle of the input, with only white space after it |
| Strings.StripUnchanged | examgen/examgen.py:84-85 | a text with no white space at either end is left as it is |
| Strings.Split | examgen/examgen.py:80-85 | `str.split(sep)`: the pieces between non-overlapping occurrences found left to right; its meaning is stated by Strings.SplitAtFirst, Strings.SplitPiecesFree, Strings.SplitJoin, Strings.SplitCount and Strings.SplitCharCount |
| Strings.FindFrom | examgen/examgen.py:80 | the position found is an occurrence of the separator with none before it, and `None` means there is no occurrence at or after the start |
| Strings.SplitAtFirst | examgen/examgen.py:80 | split cuts at the first occurrence and splits the rest |
| Strings.SplitPiecesFree | examgen/examgen.py:80 | no piece of a split contains the separator |
| Strings.SplitJoin | examgen/examgen.py:80 | joining the pieces with the separator gives back the text |
| Strings.SplitCount | examgen/examgen.py:80-82 | a split has a second piece exactly when the separator occurs |
| Strings.SplitAfterPiece | examgen/examgen.py:80 | a text made of a separator-free piece, the separator and a rest splits into that piece and the pieces of the rest |
| Strings.ContainsChar | examgen/examgen.py:85 | containing a one-character separator is membership of that character |
| Strings.SplitCharCount | examgen/examgen.py:85 | splitting at a character gives one piece more than the character occurs |
| Strings.NatToString | examgen/examgen.py:190 | `str(n)` is a non-empty string of decimal digits with no leading zero |
| Strings.DecimalRoundTrip | examgen/examgen.py:190 | reading the decimal text of `n` gives `n` back |
| Strings.NatToStringInjective | examgen/examgen.py:244 | different numbers have different decimal texts |
| Strings.ConcatFront | examgen/examgen.py:102-103 | text built by appending pieces is the first piece followed by the rest |
| Strings.TerminatedAppend | examgen/examgen.py:102-103 | writing one more line appends the line and a line break |
| Strings.SplitTerminated | examgen/examgen.py:102-103 | text written as break-free lines, each followed by "\n", splits at the breaks into those lines and an empty remainder |
| Permutations.Permute | examgen/examgen.py:87-88 | a shuffle keeps the length |
| Permutations.PermuteSource | examgen/examgen.py:87-88 | every old position is moved to exactly one new position, with its element |
| Permutations.DropLast | examgen/examgen.py:87-88 | removing the entry for the last element leaves a permutation of one fewer |
| Permutations.PermuteInsertLast | examgen/examgen.py:87-88 | a shuffle is the shuffle of all but the last element with the last one inserted |
| Permutations.PermuteMultiset | examgen/examgen.py:63-64 | a shuffle keeps the multiset of elements: nothing is lost or duplicated |
| Questions.Question | examgen/examgen.py:8-19 | the `Question` record: prompt, alternatives and the correct index, which may be absent |
| Questions.ParseQuestion | examgen/examgen.py:66-97 | `read_question`, giving the `Question` record (prompt, alternatives, correct index) or the error; its meaning is stated by Questions.ParseFails, Questions.ParseInOrder, Questions.ParseShuffledAlternatives, Questions.ParseShuffledMarker, Questions.ParsePrompt, Questions.CommentsIgnored, Questions.ParseAlternativeLines and Questions.ParsedPrintable |
| Questions.Prompt | examgen/examgen.py:84 | the stored prompt ends in exactly one line break, with no white space before it |
| Questions.UnprefixRestores | examgen/examgen.py:95 | a line of two or more characters is its prefix followed by the stored alternative, and a shorter one stores "" |
| Questions.LastMarked | examgen/examgen.py:91-93 | the position given holds a marked line with no marked line after it, and `None` means no line is marked |
| Questions.FirstEmpty | examgen/examgen.py:91-92 | the position given is the first empty line, and `None` means no line is empty |
| Questions.ParseFails | examgen/examgen.py:80-92 | reading fails exactly when there is no separator or the block has an empty line, and the missing separator is reported exactly when "---\n" does not occur |
| Questions.ParseInOrder | examgen/examgen.py:85-97 | unshuffled, there is one alternative per block line, each the line without its prefix, in order; the correct index is that of the last marked line, and `None` exactly when none is marked; a failure names the first empty line |
| Questions.UnprefixedPermute | examgen/examgen.py:87-95 | removing the prefixes commutes with the shuffle |
| Questions.ParseShuffledAlternatives | examgen/examgen.py:87-95 | shuffled, alternative `k` is block line `perm[k]` without its prefix, and the multiset of alternatives is that of the unprefixed lines |
| Questions.ShuffledLastMarked | examgen/examgen.py:87-93 | after a shuffle, the last marked position is one whose source line is marked with no marked source line at a later position; there is none exactly when no line is marked; a line marked alone is found where the shuffle moved it |
| Questions.ParseShuffledMarker | examgen/examgen.py:87-95 | shuffled, the correct index is the last position whose source line is marked, so with several marked lines the shuffle decides which one the key names; it is `None` exactly when no line is marked, and follows a single marked line to where the shuffle put it, with that line's text |
| Questions.FirstSection | examgen/examgen.py:80-81 | the first section is the text before the first separator |
| Questions.ParsePrompt | examgen/examgen.py:80-84 | the stored prompt is the text before the first separator, stripped, followed by one line break |
| Questions.NoSeparatorBefore | examgen/examgen.py:80 | no separator can start inside a separator-free text that a separator follows |
| Questions.CommentsIgnored | examgen/examgen.py:80-82 | anything after a second separator leaves the parse unchanged |
| Questions.LineHasNoBreak | examgen/examgen.py:85 | no line of a block contains a line break |
| Questions.ParseAlternativeLines | examgen/examgen.py:82-95 | there are as many alternatives as line breaks in the stripped block plus one, and none contains a line break |
| Questions.ParsedPrintable | examgen/examgen.py:82-97 | every question read from a file has its correct index among its alternatives, and no alternative contains a line break |
| Rendering.Letter | examgen/examgen.py:103 | label `i` is a lower-case letter at alphabet position `i` |
| Rendering.Choices | examgen/examgen.py:99-105 | the lettered block of `_format_alternatives`, `None` when a letter runs out; its meaning is stated by Rendering.ChoicesReadBack and Rendering.CorrectLabelUnique |
| Rendering.ChoicesReadBack | examgen/examgen.py:99-105 | the block exists exactly when there are at most 26 alternatives; line `i` is label `i`, ") " and alternative `i`; nothing follows the last break |
| Rendering.CorrectLabelUnique | examgen/examgen.py:99-105 | the label of the correct alternative starts exactly one line of the block, the line that holds the correct text |
| Rendering.FirstWithoutLetter | examgen/examgen.py:189-190 | the position given is the first question whose answer has no letter |
| Rendering.AnswerKey | examgen/examgen.py:188-190 | the text of the answer key, or the first question it fails on; its meaning is stated by Rendering.AnswerKeyFails, Rendering.AnswerKeyLines, Rendering.AnswerKeyLetter and Rendering.AnswerKeyAgreesWithChoices |
| Rendering.AnswerKeyStopsAt | examgen/examgen.py:189-190 | the key stops at the first question with no usable correct index, with the reason "none" or "out of range" |
| Rendering.AnswerKeyFails | examgen/examgen.py:189-190 | the key is written exactly when every question has a correct index below 26; otherwise the error names the first question without one and why |
| Rendering.AnswerLinesUnbroken | examgen/examgen.py:190 | no answer line contains a line break |
| Rendering.AnswerKeyLines | examgen/examgen.py:188-190 | the key, split at its breaks, is one line per question in exam order and an empty remainder |
| Rendering.AnswerLineReadBack | examgen/examgen.py:190 | an answer line is the decimal question number, " - ", and the letter whose position is the correct index |
| Rendering.AnswerKeyLetter | examgen/examgen.py:188-190 | line `i` of the key ends in the label of question `i`'s correct alternative |
| Rendering.AnswerKeyAgreesWithChoices | examgen/examgen.py:99-105 | the key's letter for a question starts exactly one line of its lettered block, the line with the correct text |
| Rendering.ExamCodeTag | examgen/examgen.py:138 | the header tag `#<code>`, empty without a code; its meaning is stated by Rendering.ExamCodeTagRoundTrip |
| Rendering.ExamCodeTagRoundTrip | examgen/examgen.py:138 | the tag is "" exactly when there is no code; otherwise it is "#" and digits from which the code reads back |
| Exams.LoadEntry | examgen/examgen.py:55-61 | what one entry of the definition contributes: the question read from the named file or the drawn tuple member, or why not; its meaning is stated by Exams.LoadEntryFrom and Exams.LoadedPrintable |
| Exams.LoadEntryFrom | examgen/examgen.py:55-61 | a loaded entry is the parse of the file of the named question, or of a member of the tuple; `EmptyGroup` comes exactly from an empty tuple |
| Exams.LoadedPrintable | examgen/examgen.py:55-61 | every question an entry contributes is printable: its correct index names one of its alternatives, none of which contains a line break |
| Exams.LoadAll | examgen/examgen.py:55-61 | there is one result per entry |
| Exams.Collect | examgen/examgen.py:55-61 | collecting succeeds exactly when every result does, giving the values in order, one per result |
| Exams.FirstErr | examgen/examgen.py:55-61 | the position given is the first error, and `None` means there is none |
| Exams.CollectFailsAtFirst | examgen/examgen.py:55-61 | a failed collection reports the error of the first failing result |
| Exams.CollectStops | examgen/examgen.py:55-61 | after values only, an error stops every longer collection with that error |
| Exams.Assemble | examgen/examgen.py:55-64 | the questions of a built exam, collected in entry order and then shuffled if asked, or the first entry's error; its meaning is stated by Exams.AssembleFails, Exams.AssembleOrder, Exams.AssembleKeepsQuestions and Exams.AssembledPrintable |
| Exams.AssembleFails | examgen/examgen.py:55-64 | building fails exactly when some entry fails, and then with the first failing entry's error |
| Exams.AssembleOrder | examgen/examgen.py:55-64 | there is one question per entry; question `k` is what entry `questionShuffle[k]` gives (entry `k` unshuffled), whole, with its correct index |
| Exams.AssembleKeepsQuestions | examgen/examgen.py:63-64 | shuffling the questions neither loses nor repeats any |
| Exams.AssembledPrintable | examgen/examgen.py:55-64 | every question of a built exam is printable |
| Exams.ExamName | examgen/examgen.py:41-43 | the exam name from the path; its meaning is stated by Exams.ExamNameShape |
| Exams.ExamNameShape | examgen/examgen.py:41-43 | the exam name has no "/" and no "."; it is the base name up to its first dot, or the whole base name when that has no dot |
| Exams.FirstUnlettered | examgen/examgen.py:117-122 | the position given is the first question with more than 26 alternatives |
| Exams.Markdown | examgen/examgen.py:117-138 | the template values of `build_markdown`, or the first question it cannot letter; its meaning is stated by Exams.MarkdownAgreesWithAnswerKey and Exams.MarkdownFails |
| Exams.MarkdownAgreesWithAnswerKey | examgen/examgen.py:117-138 | for a printable question `i`, it is numbered `i + 1` in both the layout and the key, with the same prompt, and the key's letter labels exactly its correct line; the header shows a code exactly when one is given |
| Exams.MarkdownFails | examgen/examgen.py:117-128 | the layout fails exactly when some question has more than 26 alternatives |
| Exams.Exam.constructor | examgen/examgen.py:37-43 | the fields are the given options, the name comes from the path, and there are no questions yet |
| Exams.Exam.Load | examgen/examgen.py:28-64 | `__init__` fails exactly when assembling does, with its error; otherwise a new exam holds the assembled questions |
| Exams.Exam.ReadEntry | examgen/examgen.py:55-61 | one pass of the loop gives what the entry contributes |
| Exams.Exam.ReadQuestion | examgen/examgen.py:66-97 | `read_question` is `ParseQuestion` |
| Exams.Exam.ScanAlternatives | examgen/examgen.py:91-95 | the line loop gives the unprefixed lines and the last marked position, or stops at the first empty line |
| Exams.Exam.FormatAlternatives | examgen/examgen.py:99-105 | `_format_alternatives` is `Choices`, so `None` beyond 26 alternatives |
| Exams.Exam.BuildMarkdown | examgen/examgen.py:107-138 | `build_markdown` gives the template values of `Markdown` |
| Exams.Exam.GeneratePdf | examgen/examgen.py:156-162 | the PDF is named after the requested name, or else the exam name, with ".pdf" |
| Exams.Exam.GenerateAnswers | examgen/examgen.py:180-190 | the key file is named `<name>-answers.txt`, and its text is `AnswerKey` of the questions |
| Batches.VariantName | examgen/examgen.py:244-245 | the output name `<name>-<i>` of variant `i`; its meaning is stated by Batches.VariantNamesDistinct and Batches.OutputNamesDistinct |
| Batches.VariantNamesDistinct | examgen/examgen.py:244-245 | two variants have the same name exactly when they have the same number |
| Batches.OutputNamesDistinct | examgen/examgen.py:244-258 | the PDFs and keys of different variants differ, no PDF has a key's name, and no variant file has the merged PDF's name |
| Batches.Rendered | examgen/examgen.py:164 | a rendered document has the given number of pages |
| Batches.VariantPdf | examgen/examgen.py:239-244 | the layout and PDF of variant `i`, or where building stops before its key; its meaning is stated by Batches.VariantShape |
| Batches.VariantResult | examgen/examgen.py:239-245 | everything variant `i` writes, or why it stops; its meaning is stated by Batches.VariantShape and Batches.VariantAgrees |
| Batches.VariantShape | examgen/examgen.py:239-245 | a variant fails exactly when its exam, layout or key fails, at its own number; a finished one shows its number as exam code, has the PDF and key named after it, and its key is that of its questions |
| Batches.VariantAgrees | examgen/examgen.py:239-245 | in a finished variant the layout in its PDF and its answer key agree on every question: same number, same prompt, and the key's letter labels the correct line |
| Batches.NeedsBlankPage | examgen/examgen.py:267 | the padding condition, more than one page and an odd number of them; its meaning is stated by Batches.PaddedCount |
| Batches.Padded | examgen/examgen.py:262-275 | the pages of one PDF after `_add_blank_page_if_odd`; its meaning is stated by Batches.PaddedCount |
| Batches.PaddedCount | examgen/examgen.py:262-275 | padding adds one blank page at the end exactly when there are more than one page and an odd number of them, and otherwise leaves the pages; the result is even unless there is one page |
| Batches.Flatten | examgen/examgen.py:247-260 | the pages `PdfFileMerger` writes, document after document; its meaning is stated by Batches.FlattenAt and Batches.OffsetNext |
| Batches.FlattenAt | examgen/examgen.py:247-260 | the merged PDF holds every document whole, in order: page `k` of document `i` sits at its offset plus `k` |
| Batches.OffsetNext | examgen/examgen.py:250-256 | each document starts where the previous one ends |
| Batches.PaddedStartsOnFront | examgen/examgen.py:250-256 | with padding, each variant starts at an even offset (the front of a sheet) if no earlier variant has one page |
| Batches.Batch.constructor | examgen/examgen.py:220-229 | the fields are the given options, the name comes from the path, and no files are written yet |
| Batches.Batch.Generate | examgen/examgen.py:231-260 | `generate` stops at the first failing variant, leaving the files of the variants before it and, if only its key failed, its PDF, and no merged file; otherwise one PDF and key per variant in order, padded when merging front and back, and the merged PDF of them all in order when `merge` is set |
| Batches.Batch.GenerateVariants | examgen/examgen.py:239-245 | the first loop writes the variants' files in order and stops at the first failure |
| Batches.Batch.GenerateVariant | examgen/examgen.py:240-245 | one variant adds exactly the files `VariantResult` lists; a PDF without a key if only the key fails |
| Batches.Batch.MergeFiles | examgen/examgen.py:247-260 | every variant PDF is padded in place when printing front and back, and the merged PDF is their pages in order |
| Batches.Batch.AddBlankPageIfOdd | examgen/examgen.py:262-275 | only PDF `i` changes, and it becomes `Padded` |

## Left out

- Reading and writing files, `os.path` joins, the `folder` argument, the exam and media
  directories, `os.makedirs`, temporary files and cleanup. A file name is modelled as the
  name without its directory, and the question directory as a map from name to text.
- Loading the exam module with `importlib`: the definition is a given record.
- `random.choice` and `random.shuffle`: the drawn index and permutations are parameters.
  `Draws` carries one set per exam build.
- pandoc and its HTML/PDF rendering: each variant's page count is a parameter. A page is
  known only by the layout it comes from and its number.
- PyPDF2: reading, writing and merging PDFs become operations on lists of abstract pages.
- The Markdown templates of `string.Template`, which are not part of this model:
  `build_markdown` gives the values it substitutes (number, prompt, lettered block,
  header fields and the exam-code tag), not the filled-in text or the generated `.md`
  file.
- `Exam.generate`: a shortcut that calls `build_markdown`, `generate_pdf` and
  `generate_answers` with their defaults. Those three are modelled.
- Batches.Batch.Generate: when the answer key fails part-way, the text already written
  to the key file is not modelled; the key counts as not written.
- Batches.Batch.Generate: the fields hold this run's files. A stale file left by an
  earlier run with more variants is not modelled.
- Line-ending translation when reading text files, say `\r\n`: the text is what
  `f.read()` returns.
- `examgen/cli.py` (option parsing) and `setup.py` are not part of this model.
