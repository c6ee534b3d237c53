/** The per-user session of the chatbot page (`main` in test.py). Streamlit
    re-runs `main` on every interaction against the same session state; one
    call of `Run` is one such re-run. */
module App {
  import opened Wrappers
  import opened Text
  import Extract
  import Retry
  import Latex

  /** A re-run stops in the upload step either after showing the error of an
      uploaded document that was being processed (test.py:120-125), or when
      building the chain raises (test.py:127), `chainFailure` being that
      exception's message. */
  function UploadStops(upload: Option<Result<string>>, chainFailure: Option<string>, pdfText: Option<string>): bool {
    upload.Some? && pdfText.None?
    && (Contains(Extract.ExtractPdfText(upload.value), "Error") || chainFailure.Some?)
  }

  /** `if st.session_state.pdf_text:`, Python truthiness of an optional string. */
  function Loaded(pdfText: Option<string>): bool {
    pdfText.Some? && pdfText.value != []
  }

  /** What Python raises when `invoke` is called on the chain `None`. */
  const NoChainMessage := "'NoneType' object has no attribute 'invoke'"

  /** The replies `ask_question` meets: those of the model when the chain was
      built, and otherwise the same exception on every invocation. */
  function ChainReplies(chain: bool, replies: nat -> Retry.Reply): nat -> Retry.Reply {
    if chain then replies else (k: nat) => Failure(NoChainMessage)
  }

  /** Without a chain, a question ends after one invocation with an answer
      that contains "Error", so it is never added to the conversation. */
  lemma NoChainAnswer(replies: nat -> Retry.Reply)
    ensures Retry.Ask(ChainReplies(false, replies), Retry.DefaultMaxRetries)
         == Retry.Outcome(Retry.ErrorPrefix + NoChainMessage, 1, 0)
    ensures Contains(Retry.Ask(ChainReplies(false, replies), Retry.DefaultMaxRetries).answer, "Error")
  {
    assert Contains(Retry.ErrorPrefix + NoChainMessage, "Error") by {
      PrefixContains(Retry.ErrorPrefix, NoChainMessage, "Error");
    }
    assert !Contains(NoChainMessage, "429") by { MissingFirstChar(NoChainMessage, "429"); }
    Retry.OtherFailureStops(ChainReplies(false, replies), Retry.DefaultMaxRetries, 0, NoChainMessage);
  }

  /** The state kept in `st.session_state`. */
  class Session {
    var pdfText: Option<string>
    /** Whether the prompt-and-model chain has been built (`chain` is not `None`). */
    var chain: bool
    var conversation: seq<Latex.Turn>

    ghost predicate Valid()
      reads this
    {
      && (chain ==> pdfText.Some?)
      && (pdfText.Some? ==> Extract.IsNormalised(pdfText.value) && !Contains(pdfText.value, "Error"))
      && (conversation != [] ==> chain && Loaded(pdfText))
      && forall k | 0 <= k < |conversation| ::
           conversation[k].0 != [] && !Contains(conversation[k].1, "Error")
    }

    /** The session state as the first run initialises it (test.py:112-117). */
    constructor ()
      ensures Valid()
      ensures pdfText == None && !chain && conversation == []
    {
      pdfText, chain, conversation := None, false, [];
    }

    /** The upload step of `main` (test.py:120-128). `chainFailure` is the
        message of the exception `initialize_chatbot` raises, if it raises
        (test.py:39 when no API key is configured). `stopped` tells that the
        run ends here with `shownError`: Streamlit shows an uncaught
        exception's message. */
    method ProcessUpload(upload: Option<Result<string>>, chainFailure: Option<string>)
      returns (stopped: bool, shownError: Option<string>)
      requires Valid()
      modifies this
      ensures Valid() && conversation == old(conversation)
      ensures stopped == UploadStops(upload, chainFailure, old(pdfText))
      ensures upload.Some? && old(pdfText).None? ==>
        var text := Extract.ExtractPdfText(upload.value);
        if Contains(text, "Error")
        then pdfText == None && !chain && shownError == Some(text)
        else pdfText == Some(text) && chain == chainFailure.None? && shownError == chainFailure
      ensures !(upload.Some? && old(pdfText).None?) ==>
        pdfText == old(pdfText) && chain == old(chain) && shownError == None
    {
      stopped, shownError := false, None;
      if upload.Some? && pdfText.None? {
        var text := Extract.ExtractPdfText(upload.value);
        if Contains(text, "Error") {
          stopped, shownError := true, Some(text);
          return;
        }
        pdfText := Some(text);
        if chainFailure.Some? {
          stopped, shownError := true, chainFailure;
          return;
        }
        chain := true;
      }
    }

    /** The chat step of `main` (test.py:131-161), reached when the upload step
        did not stop the run. */
    method Chat(question: string, replies: nat -> Retry.Reply) returns (shownError: Option<string>, report: Option<string>)
      requires Valid()
      modifies this`conversation
      ensures Valid()
      ensures var asked := Loaded(pdfText) && question != [];
        var answer := Retry.Ask(ChainReplies(chain, replies), Retry.DefaultMaxRetries).answer;
        && conversation == (if asked && !Contains(answer, "Error") then old(conversation) + [(question, answer)]
                            else old(conversation))
        && shownError == (if asked && Contains(answer, "Error") then Some(answer) else None)
      ensures !chain ==> conversation == []
      ensures report == if Loaded(pdfText) && conversation != [] then Some(Latex.Report(conversation)) else None
    {
      shownError, report := None, None;
      if pdfText.Some? && pdfText.value != [] {
        if question != [] {
          var answer, _, _ := Retry.AskQuestion(pdfText.value, question, ChainReplies(chain, replies), Retry.DefaultMaxRetries);
          if !chain {
            NoChainAnswer(replies);
          }
          if Contains(answer, "Error") {
            shownError := Some(answer);
          } else {
            conversation := conversation + [(question, answer)];
          }
        }
        if conversation != [] {
          var latex := Latex.CreateLatexContent(conversation);
          report := Some(latex);
        }
      }
    }

    /** One run of `main`. `upload` is the uploaded file, given as what the PDF
        library makes of it; `chainFailure` is what building the chain raises,
        if anything; `question` is the text input ("" when empty); `replies`
        answers the chain's invocations. Returns the error shown, if any, and
        the LaTeX report offered for download, if any. */
    method Run(upload: Option<Result<string>>, chainFailure: Option<string>, question: string,
               replies: nat -> Retry.Reply)
      returns (shownError: Option<string>, report: Option<string>)
      requires Valid()
      modifies this
      ensures Valid()
      // The upload is processed only while no text is loaded. An extraction
      // result containing "Error" changes nothing; otherwise the text is
      // stored, and the chain only when building it does not raise.
      ensures upload.Some? && old(pdfText).None? ==>
        var text := Extract.ExtractPdfText(upload.value);
        if Contains(text, "Error") then pdfText == None && !chain && shownError == Some(text) && report == None
        else pdfText == Some(text) && chain == chainFailure.None?
             && (chainFailure.Some? ==> shownError == chainFailure && report == None)
      ensures !(upload.Some? && old(pdfText).None?) ==> pdfText == old(pdfText) && chain == old(chain)
      // A question is asked only when a non-empty text is loaded; its answer
      // is kept only when it does not contain "Error".
      ensures var asked := !UploadStops(upload, chainFailure, old(pdfText)) && Loaded(pdfText) && question != [];
        var answer := Retry.Ask(ChainReplies(chain, replies), Retry.DefaultMaxRetries).answer;
        && conversation == (if asked && !Contains(answer, "Error") then old(conversation) + [(question, answer)]
                            else old(conversation))
        && (!UploadStops(upload, chainFailure, old(pdfText)) ==>
              shownError == if asked && Contains(answer, "Error") then Some(answer) else None)
      ensures report == if !UploadStops(upload, chainFailure, old(pdfText)) && Loaded(pdfText) && conversation != []
                        then Some(Latex.Report(conversation)) else None
    {
      var stopped;
      stopped, shownError := ProcessUpload(upload, chainFailure);
      if stopped {
        report := None;
        return;
      }
      shownError, report := Chat(question, replies);
    }
  }
}
