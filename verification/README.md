# PDF chatbot: a verified model of its session logic

The application is one Streamlit page, `test.py`. A user uploads a PDF. The page
extracts and whitespace-normalises its text. A hosted chat model then answers
questions about that text: only the first 4000 characters are sent, and a
rate-limit error (`"429"`) is retried with exponential back-off. The
conversation can be exported as a LaTeX report. This project models the four
pieces of that script which are plain logic, and proves what they do:

- `Extract` (extract.dfy): the normalisation `re.sub(r'\s+', ' ', text).strip()`
  and `extract_pdf_text`. The main theorem states that the normalised text is
  the words of the input joined by single spaces. Normalising is idempotent.
  A failed extraction always yields `"Error extracting text: " + message`.
- `Retry` (retry.dfy): `ask_question` as a method with a counted loop. It is
  proved against the function `Ask`, and lemmas about `Ask` give the policy
  attempt by attempt. The hosted model is an oracle: `replies(k)` is the reply
  to the k-th invocation.
- `Latex` (latex.dfy): `create_latex_content` as a loop method. It is proved to
  give the fixed preamble, then a question item and an answer item per turn in
  order, then the fixed postamble. Values go in verbatim.
- `App` (session.dfy): `st.session_state` as the class `App.Session`. One call
  of `Run` is one re-run of `main`. The class invariant says:
  - a chain exists only when text is loaded; text can be loaded without a
    chain, when building the chain raised;
  - loaded text is normalised and never contains `"Error"`;
  - a conversation exists only when a chain exists and non-empty text is
    loaded;
  - no stored answer contains `"Error"`.
- `Text` (text.dfy): Python's whitespace class and the substring test `in`.
  `Wrappers` (wrappers.dfy): Option and Result.

Behaviour of the code worth noting, which the model keeps:

- A failure whose message lacks `"429"` is returned as `"Error: "` followed
  by the message (test.py:65-66). See `Retry.OtherFailureStops`.
- A rate-limited attempt sleeps before the loop moves on, including the last
  one (test.py:62-64). The exhaustion message comes only after the loop
  (test.py:67). So when every attempt is rate limited, `max_retries` waits are
  made. See `Retry.AllRateLimited`.
- The chat opens on `if st.session_state.pdf_text:` (test.py:131), which tests
  Python truthiness. Uploads are processed only while `pdf_text is None`
  (test.py:120). A PDF with no words therefore stores the empty text: the chat
  never opens and no later upload is processed. See `App.Loaded` and
  `Extract.NormaliseEmpty`.
- `"Error" in pdf_text` (test.py:123) and `"Error" in answer` (test.py:138)
  are substring tests. An extracted text or a genuine answer that contains
  `"Error"` is treated as a failure.
- `pdf_text` is stored (test.py:126) before the chain is built (test.py:127).
  If building the chain raises, for instance without an API key, the text
  stays while the chain stays `None`. No later upload is processed
  (test.py:120). Every question then fails on `None.invoke`, which the retry
  loop returns as an `"Error: "` answer (test.py:59-66), so the conversation
  never grows. See `App.NoChainAnswer` and `App.Session.Chat`.

## Model

| member | source | states |
|---|---|---|
| `Text.MissingFirstChar` | test.py:62 | a string in which the pattern's first character never appears does not contain the pattern |
| `Text.ContainsOccurs` | test.py:62 | the substring test used for `"429" in str(e)` and `"Error" in ...` holds exactly when the pattern occurs at some position |
| `Extract.TrimStart` | test.py:32 | drops exactly the leading whitespace: the result is empty or starts with non-whitespace, and every dropped character is whitespace |
| `Extract.TrimStartSuffix` | test.py:32 | what `strip` keeps at the front is a suffix of its input |
| `Extract.TrimEnd` | test.py:32 | drops exactly the trailing whitespace: the result is a prefix, empty or ending in non-whitespace, and every dropped character is whitespace |
| `Extract.Collapse` | test.py:32 | `re.sub(r'\s+', ' ', s)` leaves no two adjacent whitespace characters and no whitespace other than ' ', is empty iff the input is, and starts with whitespace iff the input does |
| `Extract.Strip` | test.py:32 | `str.strip()` removes only whitespace and only at the two ends: the result is a slice of the input with whitespace before and after it, and neither end of the result is whitespace; a single-spaced text stays single-spaced |
| `Extract.Normalise` | test.py:32 | the normalised text is single-spaced and neither starts nor ends with whitespace |
| `Extract.TakeWord` | test.py:32 | the longest whitespace-free prefix: a prefix, without whitespace, followed by whitespace or the end |
| `Extract.Words` | test.py:32 | the reference splitting of a text into its maximal whitespace-free runs; every element is a non-empty word |
| `Extract.CollapseTrimStart` | test.py:32 | collapsing whitespace runs commutes with stripping leading whitespace |
| `Extract.CollapseWord` | test.py:32 | collapsing keeps a leading word intact |
| `Extract.CollapseTrimEnd` | test.py:32 | for a text starting with a word, collapsing then right-stripping gives its words joined by single spaces |
| `Extract.NormaliseIsJoinedWords` | test.py:32 | for every input, the normalised text equals its words joined by single spaces |
| `Extract.WordsOfJoin` | test.py:32 | splitting words joined by single spaces gives back the same words |
| `Extract.NormaliseIdempotent` | test.py:32 | normalising twice gives the same text as normalising once |
| `Extract.NormaliseEmpty` | test.py:32 | the normalised text is empty exactly when the input is all whitespace |
| `Extract.ExtractPdfText` | test.py:25-35 | a library failure yields `"Error extracting text: "` followed by the message, so the result contains "Error"; a success yields a normalised text equal to the input's words joined by single spaces |
| `Retry.Context` | test.py:59 | the context sent is the prefix of the text of length min(4000, its length) |
| `Retry.Backoff` | test.py:56-64 | the deterministic back-off waits: wait k is `base_delay * 2 ** k`, the first is `base_delay` and each later one doubles the one before |
| `Retry.AskFrom` | test.py:57-67 | the outcome of the remaining attempts makes between the current attempt number and `max_retries` invocations, and waits at most once per invocation |
| `Retry.AskQuestion` | test.py:55-67 | the loop returns `Ask`'s answer after `Ask`'s number of invocations (at most `max_retries`); each invocation gets the truncated context and the unchanged question; the waits are the first `Backoff` waits, one per rate-limited failure |
| `Retry.NoRetriesAllowed` | test.py:57-67 | with `max_retries = 0` nothing is invoked and the exhaustion message is returned |
| `Retry.FirstSuccess` | test.py:57-64 | if attempt k is the first success after k rate-limited failures, its content is returned after exactly k+1 invocations and k waits |
| `Retry.OtherFailureStops` | test.py:61-66 | a failure without "429" after k rate-limited failures ends the loop at once with `"Error: " + msg` after k+1 invocations |
| `Retry.AllRateLimited` | test.py:57-67 | when every attempt is rate limited, exactly `max_retries` invocations and waits are made and the exhaustion message is returned |
| `Retry.SkipRateLimited` | test.py:62-64 | a run of rate-limited attempts is passed over without changing the outcome |
| `Retry.AnswerFlaggedOrGenuine` | test.py:60-67 | every returned answer either contains "Error" or is the content of the successful reply to the last invocation |
| `Latex.ItemLines` | test.py:97-100 | a conversation of n turns gives exactly 2n list items |
| `Latex.ItemLinesAt` | test.py:98-100 | item 2k is the question item of turn k and item 2k+1 its answer item, with the texts verbatim, so the items follow the turns in order |
| `Latex.ConcatAppend` | test.py:97-100 | concatenating two lists of items gives the two concatenations joined |
| `Latex.ItemLinesAppend` | test.py:98-100 | one more turn adds exactly its question item and its answer item at the end of the list |
| `Latex.ItemsAppend` | test.py:98-100 | one more turn adds exactly its two item lines at the end of the text put in `%s` |
| `Latex.CreateLatexContent` | test.py:70-101 | the loop builds the report: preamble, then the items of every turn in order, then the postamble |
| `Latex.ItemsOfShortConversations` | test.py:97-101 | the item text of a one-turn and of a two-turn conversation, written out |
| `Latex.AnswerCanForgeItems` | test.py:99-101 | without escaping, an answer that embeds item markup gives the same report as a longer conversation |
| `App.NoChainAnswer` | test.py:59-67 | with no chain, a question ends after one invocation and no wait, with `"Error: "` and the exception's message, which contains "Error" |
| `App.Session.constructor` | test.py:112-117 | a new session has no text, no chain and an empty conversation, and satisfies the invariant |
| `App.Session.ProcessUpload` | test.py:120-128 | an upload is processed only while no text is loaded. An extraction result containing "Error" is shown, stops the run and changes nothing. Otherwise the text is stored. If building the chain then raises, the run stops with that message and no chain; otherwise the chain is built. The conversation is untouched |
| `App.Session.Chat` | test.py:131-161 | a question is asked only when non-empty text is loaded, with the model's replies or, without a chain, the `None.invoke` failure. The conversation grows by exactly (question, answer) when the answer lacks "Error" and is otherwise unchanged, the answer then being shown as the error. Without a chain the conversation stays empty. The report offered is the LaTeX of the whole conversation when it is non-empty |
| `App.Session.Run` | test.py:119-161 | an upload is processed only while no text is loaded. A result containing "Error" is shown and changes nothing. Otherwise the text is stored, and the chain too unless building it raises, which ends the run. A question is asked only when non-empty text is loaded. The conversation grows by exactly (question, answer) when the answer lacks "Error" and is otherwise unchanged. The report offered is the LaTeX of the whole conversation. The session invariant is kept |

## Left out

- Streamlit widgets, titles, spinners, `st.write` output, the history display
  (test.py:145-150) and the download button (test.py:13, 104-110, 156-162): these
  are UI. `Run` returns the error it would show and the report it would offer.
- PDF parsing with `PdfReader` and the page loop (test.py:27-30): this is a
  foreign library. Its result is a parameter: the concatenated page text, or the
  message of the exception it raised.
- `initialize_chatbot` (test.py:38-52), `ChatOpenAI`, `PromptTemplate` and the
  chain invocation (test.py:59): these are network and foreign calls. The chain
  is a flag. Whether building it raises is the parameter `chainFailure`, which
  holds the exception's message. The prompt text is not modelled. Each
  invocation is recorded with its prompt variables, and its reply comes from
  the `replies` oracle. A chain that is `None` is modelled by `App.ChainReplies`:
  every invocation then raises Python's `'NoneType' object has no attribute
  'invoke'`.
- `time.sleep` and the `random.uniform(0, 0.1)` jitter (test.py:63-64): these
  are a side effect and floating point. Only the integer part
  `base_delay * 2 ** attempt` of each wait is modelled.
- The API-key check and interactive key entry (test.py:15-22): this is
  configuration I/O.
- UTF-8 encoding of the report into `BytesIO` (test.py:155): this is I/O.
- The Unicode character database: Python's whitespace is written out as a fixed
  list of characters in `Text.IsWhitespace`, the ones `str.isspace` accepts.
