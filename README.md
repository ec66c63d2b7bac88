# PdfProcessor: a Dafny model of PDFigest's document-processing component

PDFigest is a web page. The user picks a PDF. The page has a generative model
summarize it, then has the model extract the key sentences of that summary. All
of the page's control flow sits in one React component, `PdfProcessor`. The
component holds five pieces of state:

- `selectedFile`
- `summary`
- `keySentences`
- `isLoading`
- `error`

Three handlers change that state: `handleFileChange`, `handleSubmit` and
`handleRemoveFile`. The component renders `keySentences` as a list by splitting
it on a separator and dropping blank pieces.

The project has four modules:

- `Outcomes` (`outcomes.dfy`): `Option` (the source's `T | null`) and
  `Outcome` (an awaited step resolves to `Ok(value)` or rejects with
  `Err(message)`).
- `JsString` (`js_string.dfy`): the JavaScript string operations the list
  needs. These are `trim` (with the ECMAScript white-space and line-terminator
  set), `split` on a non-empty string separator (pieces between left-to-right,
  non-overlapping occurrences), and `join`. Proved: splitting then joining gives
  the string back; no piece contains the separator; there is one piece exactly
  when the separator does not occur.
- `KeySentences` (`key_sentences.dfy`): the rendered list. The separator is
  the two-character literal backslash-`n` that the component uses. Proved: the
  list is an in-order subsequence of the pieces; pieces stay untrimmed; a string
  is an item exactly when it is a non-blank piece; a null or empty value shows
  no card.
- `PdfProcessor` (`pdf_processor.dfy`): the component as a class.
  - The class has the five state fields and one method per handler.
  - The three awaited steps are `fileToDataUri`, `pdfSummarization` and
    `extractKeySentences`. The model does not compute them. `HandleSubmit` gets
    their scripted outcomes as parameters instead, so every transition is
    deterministic.
  - A ghost field `calls` logs every step the model performs. Each entry holds
    the request, the state visible while the step ran, and the step's outcome.
  - The class invariant `Valid()` says two things about this log. First, the
    steps run in order: each stage gets exactly what the previous stage
    produced, and the summary is already shown when key-sentence extraction is
    asked for it. Second, the results on screen come from the last submission.

The UI controls are disabled while a submission runs, and the model turns that
into preconditions:

- the file input is disabled (`disabled={isLoading}`);
- the submit button is disabled (`disabled={isLoading || !selectedFile}`);
- the Remove button is hidden.

So handlers never interleave, and each submission is modelled as one sequential
run that ends with `isLoading` false. `HandleSubmit` requires only
`!isLoading`. The handler guards against a missing file itself, so that case is
modelled rather than excluded.

Notable behaviour of the code, which the model keeps:

- Rejecting a non-PDF clears any previous selection. It does not leave the
  state unchanged.
- The code has no run identifier and no guard against stale responses.
- Every stage failure gets the same prefix, `"Failed to process PDF: "`. There
  is no text saying which stage failed.
- An empty summary is not rejected. It is stored and passed to key-sentence
  extraction.
- The list is split on the literal backslash-`n`, not on a newline character.
  The key-sentence prompt asks the model to put each sentence on its own line.
  `KeySentences.NewlineCharacterExample` and `KeySentences.UnseparatedIsOneItem`
  show the effect: sentences separated only by newline characters are shown as
  one item.

## Model

| member | source | states |
|---|---|---|
| `PdfProcessor.Processor.constructor` | src/components/pdf-processor.tsx:15-19 | initial state: no file, no summary, no key sentences, not loading, no error; empty step log |
| `PdfProcessor.Processor.HandleFileChange` | src/components/pdf-processor.tsx:23-44 | a non-`application/pdf` file sets the error "Please select a PDF file." and clears the selection; a PDF is selected and clears the error; no file clears the selection and keeps the error; summary, key sentences, loading flag and step log never change; needs the input enabled (not loading) |
| `PdfProcessor.Processor.HandleSubmit` | src/components/pdf-processor.tsx:55-108 | no file: only the error "Please select a PDF file to analyze." changes and no step runs; with a file the steps run encode, then summarize, then extract, each only after the previous succeeded, with exactly its output as input, while loading with error and results cleared; the first failure becomes the error, with summary kept only if the failure is in extraction; success shows both results and no error; always ends not loading with the selection unchanged |
| `PdfProcessor.Processor.HandleRemoveFile` | src/components/pdf-processor.tsx:110-116 | clears selection and error; summary, key sentences, loading flag unchanged |
| `PdfProcessor.FailureMessage` | src/components/pdf-processor.tsx:97-99 | the error starts with "Failed to process PDF: " and goes on with the step's message, or with "An unexpected error occurred." when that is empty; it never equals either validation message |
| `PdfProcessor.FailureMessageInjective` | src/components/pdf-processor.tsx:98-99 | distinct non-empty step messages yield distinct errors |
| `PdfProcessor.RunCalls` | src/components/pdf-processor.tsx:77-89 | one submission's steps, each logged with exactly its scripted outcome: encoding of the selected file always (one step if it rejects); summarization exactly when encoding succeeded, as the second step, on exactly the data URI produced (two steps if it rejects); key-sentence extraction exactly when both succeeded, as the third step, on the summary just produced and already shown; the steps are in order by themselves |
| `PdfProcessor.AppendInOrder` | src/components/pdf-processor.tsx:77-89 | a step appended in order keeps the whole step log in order (the invariant HandleSubmit maintains) |
| `JsString.TrimStart` | src/components/pdf-processor.tsx:225 | result is a suffix of the input, what was removed is all white space, and it does not start with white space |
| `JsString.TrimEnd` | src/components/pdf-processor.tsx:225 | result is a prefix of the input, what was removed is all white space, and it does not end with white space |
| `JsString.Trim` | src/components/pdf-processor.tsx:225 | `trim()` is a substring of the input with only white space cut off before and after it; it is empty exactly when the string is all white space, and otherwise starts and ends with a non-white-space character |
| `JsString.IndexOf` | src/components/pdf-processor.tsx:224 | the result is the first occurrence of the separator at or after the start index, or none exists |
| `JsString.Split` | src/components/pdf-processor.tsx:224 | `split` always yields at least one piece (the empty string gives one empty piece) |
| `JsString.JoinSplit` | src/components/pdf-processor.tsx:224 | joining the pieces of a split with the separator gives back the original string |
| `JsString.PrefixBeforeFirstOccurrence` | src/components/pdf-processor.tsx:224 | the text before the first occurrence of the separator does not contain it |
| `JsString.SplitPiecesFree` | src/components/pdf-processor.tsx:224 | no piece of a split contains the separator |
| `JsString.SplitSingle` | src/components/pdf-processor.tsx:224 | a split has one piece, the whole string, exactly when the separator does not occur |
| `KeySentences.KeepNonBlank` | src/components/pdf-processor.tsx:224-226 | every kept piece is non-blank, and no more pieces are kept than given |
| `KeySentences.KeepNonBlankIsSubsequence` | src/components/pdf-processor.tsx:224-226 | the kept pieces are an in-order subsequence of the pieces, kept untrimmed |
| `KeySentences.KeepNonBlankMembers` | src/components/pdf-processor.tsx:224-226 | a string is kept exactly when it is a piece and not blank, and it is kept as many times as it occurs as a piece |
| `KeySentences.KeepNonBlankAppend` | src/components/pdf-processor.tsx:224-226 | filtering a concatenation gives the concatenation of the filtered parts, so each piece independently is kept or dropped |
| `KeySentences.Items` | src/components/pdf-processor.tsx:224-225 | the rendered items, one per non-blank piece of the split on the literal backslash-`n`: no more items than pieces, each non-blank and free of the separator |
| `KeySentences.Card` | src/components/pdf-processor.tsx:214 | the list shows exactly when `keySentences` is neither null nor empty, and then lists the kept pieces |
| `KeySentences.ItemsAreTheNonBlankPieces` | src/components/pdf-processor.tsx:224-225 | the items are an in-order subsequence of the pieces split on the literal backslash-`n`; each item is non-blank and free of the separator; every non-blank piece is an item, as many times as it is a piece, and blank pieces are not; the pieces join back to the string |
| `KeySentences.UnseparatedIsOneItem` | src/components/pdf-processor.tsx:224-225 | a string not containing the literal backslash-`n` is one item, or no item if blank |
| `KeySentences.LiteralSeparatorSplit` | src/components/pdf-processor.tsx:224 | "A.", backslash-`n`, backslash-`n`, "B." splits into "A.", "" and "B." |
| `KeySentences.LiteralSeparatorExample` | src/components/pdf-processor.tsx:224-225 | that answer renders as the two items "A." and "B."; the blank piece is dropped |
| `KeySentences.NewlineCharacterExample` | src/components/pdf-processor.tsx:224-225 | the same answer with newline characters renders as one item |
| `KeySentences.BlankShowsEmptyCard` | src/components/pdf-processor.tsx:214-226 | a non-empty but blank value shows the card with an empty list |

## Left out

- `fileToDataUri` (src/components/pdf-processor.tsx:46-53) wraps the browser's `FileReader`. It is modelled only as a scripted outcome: a data-URI string or a rejection. Its data URI format (RFC 2397 with the base64 of section 4 of RFC 4648) is produced by the browser, so no encoding round trip is modelled. A rejection there carries a `ProgressEvent` with no `message`; the model writes that as `Err("")`, which gets the generic error.
- `pdfSummarization` and `extractKeySentences` (src/ai/flows/pdf-summarization.ts, src/ai/flows/key-sentence-extraction.ts) wrap Genkit prompts and schemas that are not part of this model. Each is a scripted `Ok(text)` or `Err(message)`. A missing `output` then failing on `summaryResult.summary` is one such `Err`.
- Every step's outcome is given as a parameter, so it does not depend on the step's input. For one run this covers any deterministic backend. The step log records what each step was asked.
- Toast notifications, clearing the DOM file input through `fileInputRef`, the JSX layout, the summary and loading cards, the file name display, React list keys, styles and src/app/page.tsx are presentation.
- The model does not simulate React's render batching. The view stored with each logged step is the state visible while that step is awaited.
- Overlapping submissions and late responses cannot arise through the UI, because the controls are disabled while loading. The code has no stale-response guard to model.
- Dafny characters are Unicode scalar values, but JavaScript strings are UTF-16 code units. Every character `trim` removes is a single code unit, and so is the separator.
