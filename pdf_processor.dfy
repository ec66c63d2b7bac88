/** The PDF processor component: the five pieces of state it holds and the three
    handlers that update them. The three awaited steps of a submission (reading
    the file as a data URI, the summarization flow and the key-sentence flow)
    are not computed here: each submission is given their scripted outcomes. */
module PdfProcessor {
  import opened Outcomes

  const PdfMediaType: string := "application/pdf"
  const InvalidTypeMessage: string := "Please select a PDF file."
  const NoFileMessage: string := "Please select a PDF file to analyze."
  const FailurePrefix: string := "Failed to process PDF: "
  const UnexpectedMessage: string := "An unexpected error occurred."

  /** A chosen file: its name and its declared media type (its bytes are opaque). */
  datatype File = File(name: string, mediaType: string)

  /** The error shown when a stage of a submission fails with `message`; an empty
      message is replaced by a generic one. */
  function FailureMessage(message: string): (r: string)
    ensures |r| > |FailurePrefix| && r[..|FailurePrefix|] == FailurePrefix
    ensures message != "" ==> r[|FailurePrefix|..] == message
    ensures message == "" ==> r[|FailurePrefix|..] == UnexpectedMessage
    ensures r != InvalidTypeMessage && r != NoFileMessage
  {
    var r := FailurePrefix + (if message == "" then UnexpectedMessage else message);
    assert r[0] == 'F' != InvalidTypeMessage[0] && NoFileMessage[0] == 'P';
    r
  }

  /** Distinct non-empty stage messages give distinct errors. */
  lemma FailureMessageInjective(m1: string, m2: string)
    requires m1 != "" && m2 != ""
    ensures FailureMessage(m1) == FailureMessage(m2) ==> m1 == m2
  {
    if FailureMessage(m1) == FailureMessage(m2) {
      assert FailureMessage(m1)[|FailurePrefix|..] == FailureMessage(m2)[|FailurePrefix|..];
    }
  }

  /** The five state fields at one moment. */
  datatype View = View(
    selectedFile: Option<File>,
    summary: Option<string>,
    keySentences: Option<string>,
    isLoading: bool,
    error: Option<string>)

  /** A request made to one of the three awaited steps. */
  datatype Request =
    | EncodeFile(file: File)
    | Summarize(pdfDataUri: string)
    | ExtractKeySentences(documentSummary: string)

  /** One awaited step: what was asked, the state visible while it ran, and its outcome. */
  datatype Call = Call(request: Request, view: View, response: Outcome<string>)

  /** The call at index `i` of the log happened when it may: every step runs while
      loading, with no error and no key sentences shown; the file is encoded while
      it is the selected one; summarization is asked for exactly the data URI the
      encoding step just produced; key-sentence extraction is asked for exactly the
      summary the summarization step just produced, and that summary is already
      shown when extraction starts. */
  ghost predicate CallInOrder(calls: seq<Call>, i: nat)
    requires i < |calls|
  {
    var c := calls[i];
    && c.view.isLoading && c.view.error.None? && c.view.keySentences.None?
    && match c.request
       case EncodeFile(f) =>
         c.view.selectedFile == Some(f) && c.view.summary.None?
       case Summarize(uri) =>
         && i > 0 && calls[i - 1].request.EncodeFile? && calls[i - 1].response == Ok(uri)
         && c.view == calls[i - 1].view
       case ExtractKeySentences(s) =>
         && i > 0 && calls[i - 1].request.Summarize? && calls[i - 1].response == Ok(s)
         && c.view == calls[i - 1].view.(summary := Some(s))
  }

  /** Every call of the log happened in order. */
  ghost predicate StagesInOrder(calls: seq<Call>) {
    forall i: nat :: i < |calls| ==> CallInOrder(calls, i)
  }

  /** What is shown comes from the last submission that got that far: a shown
      summary is the one the last call (a key-sentence extraction) was asked
      about, and key sentences are shown exactly when that extraction succeeded,
      and are then its answer. */
  ghost predicate ShownFromLastRun(summary: Option<string>, keySentences: Option<string>, calls: seq<Call>) {
    && (keySentences.Some? ==> summary.Some?)
    && (summary.Some? ==>
          && calls != []
          && calls[|calls| - 1].request == ExtractKeySentences(summary.value)
          && (calls[|calls| - 1].response.Ok? <==> keySentences.Some?)
          && (keySentences.Some? ==> calls[|calls| - 1].response.value == keySentences.value))
  }

  /** The calls one submission of `file` makes: encoding always, summarization
      once encoding succeeded, key-sentence extraction once both succeeded. */
  function RunCalls(file: File, encoded: Outcome<string>, summarized: Outcome<string>, extracted: Outcome<string>): (r: seq<Call>)
    ensures r != [] && r[0].request == EncodeFile(file) && r[0].response == encoded
    ensures |r| == if encoded.Err? then 1 else if summarized.Err? then 2 else 3
    ensures (exists i :: 0 <= i < |r| && r[i].request.Summarize?) <==> encoded.Ok?
    ensures encoded.Ok? ==> r[1].request == Summarize(encoded.value) && r[1].response == summarized
    ensures |r| == 3 ==> r[2].response == extracted
    ensures StagesInOrder(r)
    ensures forall i :: 0 <= i < |r| ==> r[i].view.selectedFile == Some(file)
    ensures (exists i :: 0 <= i < |r| && r[i].request.ExtractKeySentences?) <==> encoded.Ok? && summarized.Ok?
    ensures encoded.Ok? && summarized.Ok? ==>
              |r| == 3 && r[2].request == ExtractKeySentences(summarized.value) && r[2].view.summary == Some(summarized.value)
  {
    var started := View(Some(file), None, None, true, None);
    var r :=
      [Call(EncodeFile(file), started, encoded)] +
      if encoded.Err? then [] else
      [Call(Summarize(encoded.value), started, summarized)] +
      if summarized.Err? then [] else
      [Call(ExtractKeySentences(summarized.value), started.(summary := Some(summarized.value)), extracted)];
    assert encoded.Ok? ==> r[1].request.Summarize?;
    assert encoded.Ok? && summarized.Ok? ==> r[2].request.ExtractKeySentences?;
    r
  }

  /** Appending a call that happened in order keeps the whole log in order. */
  lemma AppendInOrder(calls: seq<Call>, c: Call)
    requires StagesInOrder(calls)
    requires CallInOrder(calls + [c], |calls|)
    ensures StagesInOrder(calls + [c])
  {
    forall i: nat | i < |calls| + 1 ensures CallInOrder(calls + [c], i) {
      if i < |calls| {
        assert CallInOrder(calls, i);
        assert (calls + [c])[i] == calls[i];
        assert i > 0 ==> (calls + [c])[i - 1] == calls[i - 1];
      }
    }
  }

  class Processor {
    var selectedFile: Option<File>
    var summary: Option<string>
    var keySentences: Option<string>
    var isLoading: bool
    var error: Option<string>
    /** Every awaited step made so far, in order. */
    ghost var calls: seq<Call>

    function Shown(): View
      reads this
    {
      View(selectedFile, summary, keySentences, isLoading, error)
    }

    ghost predicate Valid()
      reads this
    {
      StagesInOrder(calls) && ShownFromLastRun(summary, keySentences, calls)
    }

    /** The initial state: nothing selected, nothing shown, not loading. */
    constructor ()
      ensures Valid()
      ensures Shown() == View(None, None, None, false, None) && calls == []
    {
      selectedFile, summary, keySentences, isLoading, error := None, None, None, false, None;
      calls := [];
    }

    /** A change of the file input, which is disabled while loading. Choosing a
        file that is not a PDF clears the selection and reports it; choosing a
        PDF selects it and clears the error; choosing nothing clears the
        selection and keeps the error. Shown results are never touched. */
    method HandleFileChange(chosen: Option<File>)
      requires Valid()
      requires !isLoading
      modifies this
      ensures Valid()
      ensures summary == old(summary) && keySentences == old(keySentences)
      ensures isLoading == old(isLoading) && calls == old(calls)
      ensures chosen.Some? && chosen.value.mediaType != PdfMediaType ==>
                selectedFile.None? && error == Some(InvalidTypeMessage)
      ensures chosen.Some? && chosen.value.mediaType == PdfMediaType ==>
                selectedFile == chosen && error.None?
      ensures chosen.None? ==> selectedFile.None? && error == old(error)
    {
      if chosen.Some? {
        if chosen.value.mediaType != PdfMediaType {
          error := Some(InvalidTypeMessage);
          selectedFile := None;
          return;
        }
        selectedFile := chosen;
        error := None;
      } else {
        selectedFile := None;
      }
    }

    /** A submission, started only when not loading. Without a selected file it
        only reports that one is needed. Otherwise it sets the loading flag,
        clears the error and both results, runs the three steps in order (the
        summary is committed before key-sentence extraction is asked for it),
        records the first failure as the error, and always ends not loading. */
    method HandleSubmit(encoded: Outcome<string>, summarized: Outcome<string>, extracted: Outcome<string>)
      requires Valid()
      requires !isLoading
      modifies this
      ensures Valid()
      ensures !isLoading && selectedFile == old(selectedFile)
      ensures old(selectedFile).None? ==>
                && error == Some(NoFileMessage)
                && summary == old(summary) && keySentences == old(keySentences)
                && calls == old(calls)
      ensures old(selectedFile).Some? ==>
                calls == old(calls) + RunCalls(old(selectedFile).value, encoded, summarized, extracted)
      ensures old(selectedFile).Some? && encoded.Err? ==>
                summary.None? && keySentences.None? && error == Some(FailureMessage(encoded.message))
      ensures old(selectedFile).Some? && encoded.Ok? && summarized.Err? ==>
                summary.None? && keySentences.None? && error == Some(FailureMessage(summarized.message))
      ensures old(selectedFile).Some? && encoded.Ok? && summarized.Ok? && extracted.Err? ==>
                && summary == Some(summarized.value) && keySentences.None?
                && error == Some(FailureMessage(extracted.message))
      ensures old(selectedFile).Some? && encoded.Ok? && summarized.Ok? && extracted.Ok? ==>
                && summary == Some(summarized.value) && keySentences == Some(extracted.value)
                && error.None?
    {
      if selectedFile.None? {
        error := Some(NoFileMessage);
        return;
      }
      var file := selectedFile.value;
      ghost var before := calls;

      isLoading := true;
      error := None;
      summary := None;
      keySentences := None;

      // try
      var failure: Option<string> := None;
      AppendInOrder(calls, Call(EncodeFile(file), Shown(), encoded));
      calls := calls + [Call(EncodeFile(file), Shown(), encoded)];
      match encoded {
        case Err(m) =>
          failure := Some(m);
        case Ok(pdfDataUri) =>
          AppendInOrder(calls, Call(Summarize(pdfDataUri), Shown(), summarized));
          calls := calls + [Call(Summarize(pdfDataUri), Shown(), summarized)];
          match summarized {
            case Err(m) =>
              failure := Some(m);
            case Ok(s) =>
              summary := Some(s);
              AppendInOrder(calls, Call(ExtractKeySentences(s), Shown(), extracted));
              calls := calls + [Call(ExtractKeySentences(s), Shown(), extracted)];
              match extracted {
                case Err(m) =>
                  failure := Some(m);
                case Ok(k) =>
                  keySentences := Some(k);
              }
          }
      }
      // catch
      if failure.Some? {
        error := Some(FailureMessage(failure.value));
      }
      // finally
      isLoading := false;
      assert calls == before + RunCalls(file, encoded, summarized, extracted);
    }

    /** The "Remove" button, shown only while not loading: clears the selection
        and the error and keeps the shown results. */
    method HandleRemoveFile()
      requires Valid()
      requires !isLoading
      modifies this
      ensures Valid()
      ensures selectedFile.None? && error.None?
      ensures summary == old(summary) && keySentences == old(keySentences)
      ensures isLoading == old(isLoading) && calls == old(calls)
    {
      selectedFile := None;
      error := None;
    }
  }
}
