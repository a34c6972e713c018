# LLM Toolbox core, modelled in Dafny

The repository is a single Streamlit script (`streamlit-example-1.py`) that lets a
user connect to an Ollama server, send prompts, and summarise uploaded documents.
This project models its three pieces of decision logic, with the foreign calls
(Ollama client, PyPDF2, UTF-8 decoding) replaced by inputs:

- **Document reader** (`read_document_content`): the extension is taken the way
  `os.path.splitext` takes it and lower-cased. One of ten text extensions means
  UTF-8 decoding. `.pdf` means concatenating every page's text in page order.
  Anything else is refused with a warning. Every failure returns `None`.
  Files: `paths.dfy` (splitext, lower-casing), `text.dfy` (concatenation, join),
  `document_reader.dfy`.
- **Connection state machine** (`initialize_ollama_client`, `update_connection`,
  the Connect button handler): a class `Session.SessionState` holding the five
  session-state fields. A `Server` oracle answers each probe of a host/model pair.
  A ghost log `probes` records every probe sent. The class invariant `Valid()`
  says a client is stored exactly when the status reads "Connected". It also says
  that this client is bound to the current host and that the current pair is the
  last successful one. File: `session.dfy`.
- **Response streaming** (`generate_ollama_response`): the empty-prompt guard,
  the system prompt sent as `None` when empty, the loop that folds the chunks'
  `'response'` fields into `full_response` and shows each running value, and one
  reconnect on any exception. Files: `streaming.dfy` (the loop) and
  `session.dfy` (the method on the session).

Three behaviours of the code worth knowing:

- A reconnect after a failed generation probes the current
  `ollama_host`/`ollama_model`, not `last_successful_config`.
  `last_successful_config` is written but never read. The page calls
  `generate_ollama_response` only while a client is stored (lines 171 and 196).
  At that point the current pair is the last successful one, so every reconnect
  the page triggers probes the last successful pair
  (`Session.SessionState.GenerateResponse`). The two pairs differ only when the
  function is called directly with no client after a failed Connect
  (`Session.ReconnectUsesCurrentPair`).
- The unsupported-type warning's fixed text names TXT, PDF and MD. Only the
  list in parentheses comes from `text_extensions[2:]`, so it holds the eight
  code extensions.
- The empty-prompt check sits inside `generate_ollama_response`. With no client
  stored, calling `generate` on `None` raises inside the `try`, and that
  exception triggers the reconnect too.

## Model

| member | source | states |
|---|---|---|
| `Paths.LastIndexOf` | streamlit-example-1.py:102 | The `rfind` inside `splitext`: the result is -1 or an index holding the character, and no later index holds it. |
| `Paths.Lower` | streamlit-example-1.py:102 | The `.lower()` of the extension: same length, each character lower-cased (ASCII letters only). |
| `Paths.SplitExt` | streamlit-example-1.py:102 | The name is exactly root followed by extension. The extension is empty or is a dot followed by non-dot, non-separator characters after a root whose base name has a non-dot character. |
| `Paths.SplitExtUnique` | streamlit-example-1.py:102 | Any cut of the name into a root that has a stem and a well-formed extension is the cut `splitext` makes, so its result is fully determined. |
| `Paths.ExtOfLower` | streamlit-example-1.py:102 | The extension of the lower-cased name is the lower-cased extension of the name. |
| `DocumentReader.FileExtension` | streamlit-example-1.py:102 | The extension is `splitext`'s extension lower-cased: as long as that extension and equal to the lower-cased last characters of the name. It is empty, or a dot followed by neither dots nor separators, and it has no upper-case letter. |
| `DocumentReader.FileExtensionOfCut` | streamlit-example-1.py:102 | A name cut into a root with a stem and a well-formed extension gets that extension lower-cased (".PDF" from "report.PDF" becomes ".pdf"). |
| `DocumentReader.KindOf` | streamlit-example-1.py:106-125 | Text exactly when the extension is one of the ten listed, PDF exactly when it is ".pdf", and a name is read only when it has a non-empty extension. |
| `DocumentReader.ExtensionIgnoresCase` | streamlit-example-1.py:102 | Two names that agree once lower-cased have the same lower-cased extension. |
| `DocumentReader.KindIgnoresCase` | streamlit-example-1.py:102-112 | Two names that agree once lower-cased take the same branch. |
| `DocumentReader.KindOfEnding` | streamlit-example-1.py:102-125 | A stem followed by a listed extension in any case is text. Followed by `.pdf` in any case it is a PDF. Followed by any other extension it is unsupported. |
| `DocumentReader.LeadingDotsOnlyUnsupported` | streamlit-example-1.py:102-125 | A name without a dot, or whose only dots are leading (".json"), has the empty extension and is unsupported. |
| `DocumentReader.UpperCaseTextExample` | streamlit-example-1.py:102-106 | "A.TXT" and "a.txt" are both read as text. |
| `DocumentReader.PdfExample` | streamlit-example-1.py:102-112 | "report.pdf" is read as a PDF. |
| `DocumentReader.UnsupportedExamples` | streamlit-example-1.py:102-125 | "image.png", ".json" and "notes" are unsupported. |
| `DocumentReader.WarnedExtensions` | streamlit-example-1.py:104-124 | The warning lists the eight code extensions and neither `.txt` nor `.md`. |
| `DocumentReader.UnsupportedWarning` | streamlit-example-1.py:123-124 | The warning is "Unsupported file type. Please upload TXT, PDF, MD, or code files (", then `.js`, `.py`, `.cs`, `.go`, `.html`, `.css`, `.xml`, `.json` joined by ", ", then ").". |
| `Text.Join` | streamlit-example-1.py:124 | `', '.join`: no parts give the empty string, and one part gives that part. |
| `Text.JoinShape` | streamlit-example-1.py:124 | A join of one or more parts starts with the first part. It is as long as the parts plus one separator between each two. |
| `Text.JoinSnoc` | streamlit-example-1.py:124 | Appending a part to a non-empty list appends one separator and then that part to the join, so the parts follow in order with one separator between each two. |
| `DocumentReader.Returned` | streamlit-example-1.py:106-125 | The function returns the content's text exactly when the outcome is content, and `None` on every other path. |
| `DocumentReader.ReadDocumentContent` | streamlit-example-1.py:97-125 | A text-kind name yields its decoding, or a read error when decoding fails. A PDF name yields the PDF text, or a read error. Any other name yields the unsupported warning. The value returned is the decoded text or `None` for text, the PDF text or `None` for PDF, and `None` otherwise. |
| `DocumentReader.ReadPdfText` | streamlit-example-1.py:112-122 | The page loop returns the PDF text: every page's text in order when the reader and every page succeed, `None` otherwise. |
| `DocumentReader.PdfTextAllOrNothing` | streamlit-example-1.py:112-122 | A PDF yields text exactly when the reader and all pages succeed. A single failing page yields `None`, never the text read before it. |
| `DocumentReader.PdfTextInPageOrder` | streamlit-example-1.py:115-119 | Page k's text stands right after the text of the pages before it and right before the text of the pages after it. The length is the sum of the page lengths. |
| `DocumentReader.TwoPagePdf` | streamlit-example-1.py:115-119 | A two-page PDF reads as page one's text followed by page two's, with nothing between. |
| `Text.ConcatAppend` | streamlit-example-1.py:115-118 | Concatenating the parts of two sequences is concatenating the two results. |
| `Text.ConcatAt` | streamlit-example-1.py:115-118 | Each part sits in the concatenation between the parts before it and the parts after it. |
| `Text.ConcatLength` | streamlit-example-1.py:115-118 | The concatenation is as long as the parts together. |
| `Streaming.AccumulateStream` | streamlit-example-1.py:69-81 | The loop ends with the in-order concatenation of the `'response'` fields of the chunks that have one, and shows the running concatenation after each such chunk. |
| `Streaming.DisplayedArePrefixes` | streamlit-example-1.py:78-81 | Every value shown extends every earlier one and is a prefix of the final text. |
| `Streaming.LastDisplayedIsFull` | streamlit-example-1.py:78-81 | When anything was shown, the last value shown is the whole response. |
| `Streaming.SilentChunk` | streamlit-example-1.py:78 | A chunk without a `'response'` field adds no text and shows nothing. |
| `Streaming.ResponsesAppend` | streamlit-example-1.py:72-79 | The response text of two successive stretches of the stream is the concatenation of their response texts. |
| `Streaming.HelloExample` | streamlit-example-1.py:78-81 | Chunks "Hel" and "lo" are shown as "Hel" and then "Hello". |
| `Session.InitializeClient` | streamlit-example-1.py:19-32 | Exactly one of success and error is present. Success means the probe of the pair succeeded. Otherwise the error is "Unexpected error: " followed by the exception text. |
| `Session.FailedStatus` | streamlit-example-1.py:52-54 | A failure status starts with "Connection Failed: " and is never "Connected" or "Not Connected". |
| `Session.SystemArgument` | streamlit-example-1.py:75 | An empty system prompt is sent as `None`, and any other is sent unchanged. |
| `Session.SessionState.constructor` | streamlit-example-1.py:6-16 | A new session has the default host and model, no client, "Not Connected", no remembered pair, and satisfies the invariant. |
| `Session.SessionState.UpdateConnection` | streamlit-example-1.py:35-54 | Probes the current pair exactly once and leaves host and model alone. On success: client bound to the host, "Connected", the pair remembered. On failure: no client, the failure status, the remembered pair unchanged. The invariant holds afterwards from any state. |
| `Session.SessionState.Connect` | streamlit-example-1.py:148-151 | Stores the typed host and model, then probes exactly that pair, with the outcomes of `UpdateConnection`. |
| `Session.SessionState.GenerateResponse` | streamlit-example-1.py:57-94 | An empty prompt issues nothing and changes nothing. Otherwise at most one request goes out, with the current model, the prompt and the mapped system prompt. The values shown are the running texts. A finished stream ends with `full_response` equal to the full response text (the Python function itself returns `None`) and leaves the state unchanged. A broken stream, or a missing client, triggers exactly one probe of the current pair. When a client was stored, as whenever the page calls it, that probe is of the last successful pair. |
| `Session.ReconnectUsesCurrentPair` | streamlit-example-1.py:40-54 | After a good connect and a failed one, a generation called with no client stored probes the failed pair again (the probes are good, bad, bad), leaves the good pair remembered, and the status reports the failed pair's error. |

## Left out

- Streamlit rendering: widgets, layout, the tab radio, the status colour, the
  "connect first" warnings, and the document-summary prompt built from the
  document text (lines 128-221, except the Connect handler). The text of
  `st.error`/`st.warning` messages built from exception texts is not modelled
  either. Only the unsupported-type warning is modelled, in full.
- The debug expander (lines 84-90). It sits inside the `try`, so an exception
  raised while rendering it would also trigger the reconnect. The model does not
  cover that path.
- The Ollama client: `Client(host)`, `show` and `generate` are network calls in a
  foreign library. A probe is an answer of the `Server` oracle. The oracle does not change over time: a pair probed twice gets the same answer both times. A request's
  chunk stream is the `Stream` input, and the model does not tie it to the
  request. The throw-away client that the probe creates is not modelled.
- PyPDF2 and `extract_text`: a PDF is either unreadable or a sequence of page
  texts, where a page may have raised instead.
- UTF-8 decoding of the upload, delegated to `bytes.decode`: its outcome is the
  `Utf8Decoding` input.
- `Paths.Lower`: only ASCII `A`-`Z` are lower-cased, unlike Python's full
  Unicode `str.lower`. The branch taken is the same. No other character
  lower-cases to a plain letter of `txt`, `md`, `js`, `py`, `cs`, `go`, `html`,
  `css`, `xml`, `json` or `pdf` (the Kelvin sign lowers to `k`, which none of them use).
- `Paths.SplitExt`: the POSIX `os.path.splitext`, with `/` as the only
  separator. On Windows, `\` also separates path components.
- Session-state initialisation runs only when a key is missing. The constructor
  models the first run; Streamlit's reruns keep the object.
- Concurrency between browser sessions and timeouts: the source has neither.
