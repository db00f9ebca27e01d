# Financial analyst chat: parsing and chat-state model

The system is a chat front end in front of an LLM agent that answers finance
questions. The agent runs on a Python backend.

- **Backend parser** (`backend/core/agent_analyst.py`).
  - `_parse_response` takes the agent's raw text and splits it at the first case-insensitive `sources:`.
  - It strips the answer and collects `http://` / `https://` URLs from the block after the delimiter.
  - When that block yields none, it falls back to the URLs inside the answer and deletes them from it.
  - `run_analysis` returns either that parse or, for any exception, an error answer with no sources.
- **Front-end chat state** (`frontend/src/App.jsx`).
  - The page holds three pieces of state: the chat history, the text in the input box, and an "awaiting a reply" flag.
  - The submit handler checks the trimmed query and the flag. It records a user turn, clears the box, raises the flag and posts the query.
  - When the reply settles, it appends one assistant turn: an answer with its sources, the body's error or status line for a non-ok response, or the caught error's message. Then it lowers the flag.
  - The send button, the Enter key and the choice between the welcome screen and the conversation are expressions of that state.

The Dafny modules:

| file | module | what it holds |
|---|---|---|
| `wrappers.dfy` | `Wrappers` | `Option` |
| `whitespace.dfy` | `Whitespace` | Whitespace tables, one for Python (`str.isspace`, the same as `re`'s `\s`) and one for JavaScript's `trim`, both given by code point. `Strip` for each language. |
| `url_scan.dfy` | `UrlScan` | `re.findall(r'https?://\S+', …)` as a left-to-right scanner over match spans. `re.sub` of the same pattern, as the deletion of those spans. |
| `agent_analyst.dfy` | `AgentAnalyst` | `re.split(r'\s*sources:\s*', …, maxsplit=1, flags=re.IGNORECASE)`, `_parse_response` in two readings, the `_parse_response` statements as a method, and `run_analysis`. |
| `chat_session.dfy` | `ChatSession` | The page state as a value (`View`) with pure transitions and their invariant. A `Session` class whose methods update the three state fields and are tied to those transitions. The send-button, Enter-key and welcome-screen expressions. |

About the two readings of `_parse_response`:

- `ParseAsWritten` deletes each URL found in the answer with `str.replace`, one URL after the other, as the code does. The method `ParseResponse` runs the same statements and is proved to compute it. Its `for url in found_urls` loop is the method `RemoveFound`.
- `Parse` deletes exactly the matched spans. This is what the cleanup is meant to do.
- `RunAnalysis` is `run_analysis` as written, over `ParseAsWritten`. `RunAnalysisIntended` is the same wrapper over `Parse`.
- The two readings differ only when one found URL occurs inside a later one (see "## Findings").

## Model

| member | source | states |
|---|---|---|
| `Whitespace.IsWs` | backend/core/agent_analyst.py:56-58 | Decides whitespace by code point. For Python it is the `str.isspace` table, which is also what `\s` and `strip()` use. For JavaScript it is the `trim` table, which adds U+FEFF and leaves out U+001C-U+001F and U+0085. |
| `Whitespace.Strip` | backend/core/agent_analyst.py:58 | Never returns text with whitespace at either end. The result is no longer than the input, and it is empty exactly when the input is all whitespace. |
| `Whitespace.StripExact` | backend/core/agent_analyst.py:58 | Whitespace, then a core free of whitespace at its ends, then whitespace, strips to exactly that core. |
| `Whitespace.StripIdempotent` | backend/core/agent_analyst.py:75 | Stripping an already stripped text changes nothing. |
| `Whitespace.StripIgnoresTrailingWs` | backend/core/agent_analyst.py:58 | Whitespace appended to a text does not change what stripping keeps. |
| `Whitespace.StripSplits` | backend/core/agent_analyst.py:58 | The text is a run of whitespace, then what stripping keeps, then a run of whitespace. |
| `Whitespace.StripIsSlice` | backend/core/agent_analyst.py:58 | What stripping keeps is one contiguous piece of the input. |
| `UrlScan.UrlAt` | backend/core/agent_analyst.py:64 | Decides whether `https?://\S` matches at the front of a text. The test is case-sensitive: `http://` followed by a non-whitespace character, or `https://` followed by one. |
| `UrlScan.NonWsRun` | backend/core/agent_analyst.py:64 | The greedy `\S+`: the run it takes is free of whitespace and ends at whitespace or at the end of the text. |
| `UrlScan.MatchUrl` | backend/core/agent_analyst.py:64 | At a position, the URL pattern matches exactly when `http://` or `https://` plus one non-whitespace character starts there. A match is a URL and stops only at whitespace or at the end. |
| `UrlScan.LongEnough` | backend/core/agent_analyst.py:64 | A match covers the scheme, `://` and at least one more character. |
| `UrlScan.UrlSpans` | backend/core/agent_analyst.py:64 | The matches `findall` makes, as spans. Each is a maximal match where it starts. They come left to right and do not overlap. |
| `UrlScan.FindUrls` | backend/core/agent_analyst.py:69 | Every returned source is a URL. The sources are exactly the texts of the spans, in order, with duplicates kept. |
| `UrlScan.SpansComplete` | backend/core/agent_analyst.py:64 | The scan misses nothing: every position where a match could start lies inside a found span. |
| `UrlScan.NoneFoundIffNoUrl` | backend/core/agent_analyst.py:68-70 | `findall` returns nothing exactly when no position of the text starts a match. |
| `UrlScan.StripKeepsNoUrl` | backend/core/agent_analyst.py:75 | Stripping a text without a match cannot create one. |
| `UrlScan.DeleteUrls` | backend/core/agent_analyst.py:72-74 | Deleting the matches removes exactly as many characters as the spans cover. |
| `UrlScan.DeleteUrlsLeavesNoUrl` | backend/core/agent_analyst.py:72-74 | After the matched spans are deleted, no URL is left in the text. |
| `AgentAnalyst.FoldEq` | backend/core/agent_analyst.py:56 | Decides `re.IGNORECASE` matching of one text character against one pattern character. A character matches itself and, for a lower-case ASCII letter, its upper-case form. For `s` it also matches U+017F (long s). |
| `AgentAnalyst.DelimiterAt` | backend/core/agent_analyst.py:56 | Decides whether `sources:` occurs at a position, in any case under `FoldEq`, with no word boundary required. |
| `AgentAnalyst.DelimiterStartsWithNonWs` | backend/core/agent_analyst.py:56 | Under `IGNORECASE`, an occurrence of `sources:` starts with a non-whitespace character. |
| `AgentAnalyst.MatchSeparator` | backend/core/agent_analyst.py:56 | A separator match ends at least the delimiter's length past where it starts. |
| `AgentAnalyst.SearchSeparator` | backend/core/agent_analyst.py:56 | `re.split` cuts at the leftmost position where the separator matches. No earlier position matches, and none at all when there is no cut. |
| `AgentAnalyst.Split` | backend/core/agent_analyst.py:56 | With `maxsplit=1` there are one or two parts. One part is the whole text. Two parts are a prefix and a suffix of the text, with room for the delimiter between them. |
| `AgentAnalyst.SplitRejoins` | backend/core/agent_analyst.py:56 | The two parts and the separator between them rebuild the text. The separator is whitespace, the delimiter in some case, then whitespace. No whitespace is left at the inner edges of the parts. |
| `AgentAnalyst.SplitIffDelimiter` | backend/core/agent_analyst.py:56 | The text splits exactly when `sources:` occurs somewhere in it, in any case. |
| `AgentAnalyst.SplitAtFirstDelimiter` | backend/core/agent_analyst.py:56 | Only the first delimiter counts. The parts are the text before it, minus trailing whitespace, and everything after it and the whitespace that follows, later delimiters included. |
| `AgentAnalyst.SearchFindsFirst` | backend/core/agent_analyst.py:56 | The search returns the first position from which the separator matches. |
| `AgentAnalyst.Sections` | backend/core/agent_analyst.py:56-64 | The stripped answer has no whitespace at its ends, and every URL taken from the block is a URL. |
| `AgentAnalyst.Replace` | backend/core/agent_analyst.py:74 | `str.replace(url, '')` never lengthens the text. It leaves the text as it is exactly when the URL occurs nowhere in it. |
| `AgentAnalyst.ReplaceAtMatch` | backend/core/agent_analyst.py:74 | At an occurrence of the URL, `str.replace` deletes it and goes on after it. |
| `AgentAnalyst.ReplaceAtMiss` | backend/core/agent_analyst.py:74 | Where no occurrence starts, `str.replace` keeps the character and goes on one further. |
| `AgentAnalyst.RemoveEach` | backend/core/agent_analyst.py:73-74 | The successive replacements never lengthen the answer. |
| `AgentAnalyst.ParseAsWritten` | backend/core/agent_analyst.py:53-77 | `_parse_response` as written. The answer has no whitespace at its ends, and every source is a URL. |
| `AgentAnalyst.Parse` | backend/core/agent_analyst.py:53-77 | `_parse_response` with the intended cleanup. The answer has no whitespace at its ends, and every source is a URL. |
| `AgentAnalyst.RemoveFound` | backend/core/agent_analyst.py:73-74 | The `for url in found_urls` loop, rebinding the answer to each replacement in turn, computes `RemoveEach`. |
| `AgentAnalyst.ParseResponse` | backend/core/agent_analyst.py:53-77 | The statements of `_parse_response`, with the replace loop, compute `ParseAsWritten`. |
| `AgentAnalyst.RunAnalysis` | backend/core/agent_analyst.py:79-91 | Success returns exactly `_parse_response` of the output, as written (`ParseAsWritten`). Any exception gives no sources and an answer starting with `An error occurred during analysis: ` followed by the exception's text. A missing `output` key gives the text `'output'`. |
| `AgentAnalyst.RunAnalysisIntended` | backend/core/agent_analyst.py:79-91 | `run_analysis` with the intended cleanup: success returns `Parse` of the output, and every failure gives what `RunAnalysis` gives. |
| `AgentAnalyst.RunAnalysisSources` | backend/core/agent_analyst.py:79-91 | Whatever the agent did, every source handed back is a URL, in both readings. |
| `AgentAnalyst.RunAnalysisLeavesFragment` | backend/core/agent_analyst.py:88 | On the output `http://a http://ab`, `run_analysis` answers `b` with both URLs as sources. The intended reading answers the empty text. |
| `AgentAnalyst.NoDelimiterNoSplit` | backend/core/agent_analyst.py:56 | Without an occurrence of `sources:`, the split leaves the text whole. |
| `AgentAnalyst.AnswerBeforeFirstDelimiter` | backend/core/agent_analyst.py:56-64 | The answer is the stripped text before the first delimiter. The block is everything after that delimiter, later delimiters included. |
| `AgentAnalyst.BlockUrlsAreSources` | backend/core/agent_analyst.py:61-68 | When the block yields URLs, they are the sources. The answer is the stripped prefix, and any URLs in it are left untouched. Both readings agree here. |
| `AgentAnalyst.EmptyBlockIsDiscarded` | backend/core/agent_analyst.py:61-75 | When the block yields no URL, the text after the delimiter is discarded. Both readings give the same result as for the text before the delimiter. |
| `AgentAnalyst.PrefixHasNoDelimiter` | backend/core/agent_analyst.py:56 | The text before the first delimiter holds no delimiter. |
| `AgentAnalyst.SameSections` | backend/core/agent_analyst.py:53-77 | Both readings see the text only through the split answer and the block's URLs. |
| `AgentAnalyst.PlainText` | backend/core/agent_analyst.py:56-69 | With no delimiter and no URL anywhere, the result is the stripped text and no sources. |
| `AgentAnalyst.FallbackUnfolds` | backend/core/agent_analyst.py:68-75 | In the fallback, the sources are the answer's URLs. The two readings differ only in how those URLs are deleted. |
| `AgentAnalyst.FallbackAnswerHasNoUrl` | backend/core/agent_analyst.py:68-75 | With the intended cleanup, the fallback sources are the answer's URLs and the answer left holds no URL. |
| `AgentAnalyst.ReplaceLeavesFragment` | backend/core/agent_analyst.py:73-74 | For `http://a http://ab` the code as written answers `b`, the tail of the second URL. The intended cleanup answers the empty text. |
| `ChatSession.Decimal` | frontend/src/App.jsx:204 | `${response.status}` is a non-empty string of decimal digits with no leading zero. |
| `ChatSession.DecimalRoundTrip` | frontend/src/App.jsx:204 | Reading the status digits back gives the status. |
| `ChatSession.DecimalInjective` | frontend/src/App.jsx:204 | Different statuses render differently. |
| `ChatSession.HttpErrorText` | frontend/src/App.jsx:203-204 | The thrown message is never empty. It is the body's `error` when that is truthy. Otherwise it is `HTTP error! status: ` followed by digits that read back as the status. |
| `ChatSession.ThrownText` | frontend/src/App.jsx:213 | The caught message when it is non-empty, else `Failed to fetch. Is the backend server running?`. |
| `ChatSession.Reply` | frontend/src/App.jsx:207-217 | Decides the assistant turn a settled request appends. An ok response gives its answer and sources. A non-ok response gives its thrown text, passed through the catch. A thrown error gives `Error: ` plus its message or the fallback hint. |
| `ChatSession.ReplyText` | frontend/src/App.jsx:207-217 | Each outcome's assistant turn has these contents. An answer with its sources, verbatim. `Error: ` plus the body's error, or the status line. `Error: ` plus the exception's message, or the server hint. Error turns carry no sources. |
| `ChatSession.Accepts` | frontend/src/App.jsx:184 | Decides the submit handler's guard: the JavaScript-trimmed query is non-empty and no reply is awaited. |
| `ChatSession.SubmitsOnKey` | frontend/src/App.jsx:119 | Decides the key handler's test: the key is `Enter` and Shift is not held. |
| `ChatSession.ShowsWelcome` | frontend/src/App.jsx:249 | Decides whether the welcome screen is rendered instead of the conversation: exactly when the history is empty. |
| `ChatSession.SendDisabled` | frontend/src/App.jsx:158 | The send button is disabled exactly when the submit guard would refuse. |
| `ChatSession.SendEnabledIffSubmits` | frontend/src/App.jsx:158 | The send button is enabled exactly when pressing it would post a request. |
| `ChatSession.Submitted` | frontend/src/App.jsx:182-189 | A refused submit, with an empty trimmed query or while loading, changes nothing and posts nothing. An accepted one appends the trimmed query as a user turn, clears the box, raises the flag and posts the trimmed query with the profile `a retail investor`. |
| `ChatSession.RejectedSubmitIsIdle` | frontend/src/App.jsx:184 | A refused submit leaves the page state as it was. |
| `ChatSession.Settled` | frontend/src/App.jsx:207-219 | Settling appends exactly one assistant turn, lowers the flag and leaves the input alone. |
| `ChatSession.Typed` | frontend/src/App.jsx:142 | Typing replaces the input and nothing else. |
| `ChatSession.InitialConsistent` | frontend/src/App.jsx:170-172 | The initial state satisfies the page invariant: turns alternate starting with the user, the flag is up exactly when the last turn is the user's, the box is empty while loading, and user turns are trimmed, non-empty and without sources. |
| `ChatSession.SubmittedConsistent` | frontend/src/App.jsx:182-189 | Submitting keeps the page invariant. |
| `ChatSession.SettledConsistent` | frontend/src/App.jsx:207-219 | Settling keeps the page invariant. |
| `ChatSession.TypedConsistent` | frontend/src/App.jsx:142 | Typing, possible only while idle, keeps the page invariant. |
| `ChatSession.WelcomeMeansIdle` | frontend/src/App.jsx:249 | While the welcome screen shows (empty history), no reply is awaited. |
| `ChatSession.ExchangeAppendsTwo` | frontend/src/App.jsx:182-221 | An accepted submission and its settlement keep the old history. They add exactly the user turn and the reply, leave the page idle with an empty box, keep the conversation view and preserve the invariant. |
| `ChatSession.Session.constructor` | frontend/src/App.jsx:170-172 | Starts with no history, an empty box and no reply awaited. |
| `ChatSession.Session.Edit` | frontend/src/App.jsx:142 | The change handler sets the input and keeps the invariant. |
| `ChatSession.Session.Submit` | frontend/src/App.jsx:182-189 | Updates the three fields as `Submitted` does and returns the request it posts. |
| `ChatSession.Session.KeyDown` | frontend/src/App.jsx:118-123 | Enter without Shift runs the submit handler. Any other key changes nothing and posts nothing. |
| `ChatSession.Session.SettleOk` | frontend/src/App.jsx:207-211 | Appends the answer and its sources verbatim and lowers the flag. |
| `ChatSession.Session.SettleHttpError` | frontend/src/App.jsx:203-204 | Throws the body's error or the status line, and the catch appends it prefixed with `Error: ` and lowers the flag. |
| `ChatSession.Session.SettleThrow` | frontend/src/App.jsx:212-219 | Appends `Error: ` plus the message, or the server hint when the message is empty, and lowers the flag. |

## Left out

- The agent's construction: the LLM client, the search tool, the prompt template and environment loading (backend/core/agent_analyst.py:18-51). These are foreign library calls. `AgentAnalyst.RunAnalysis` takes the executor's outcome as a parameter: an output text, a result without `output`, or an exception with its text.
- The console logging in `run_analysis`. It has no effect on the result.
- `str(e)` of an arbitrary exception. `RunAnalysis` takes that text as given.
- backend/app.py is not part of this model. It is HTTP plumbing: routing, CORS and JSON parsing. Its status codes reach the front end only as the `status` of `SettleHttpError`.
- frontend/vite.config.js is not part of this model. It is build configuration.
- `fetch` and `response.json()` (network I/O). Their outcomes are the three settle methods. A body that is not JSON throws, which `SettleThrow` covers.
- React's asynchronous updates and stale closures. Submitting and settling are treated as sequential events.
- Presentation: icons, CSS classes, textarea resizing, scrolling, newline-to-`<br />` rendering and the suggestion buttons. The suggestions only set the input on the welcome screen, when nothing is awaited, like `Edit`.
- The hostname shown for each source (`new URL(...)` in `SourceList`). This is the WHATWG URL parser, a foreign library.
- `ChatSession.Session.SettleOk`: takes `answer` as a string and `sources` as a list of strings. A body whose fields are missing or of another type is passed through by the code and is not modelled.
- `ChatSession.HttpErrorText`: models `data.error` as an optional string. A truthy non-string value, which JavaScript would convert to text, is not modelled.
- `ChatSession.Session.KeyDown`: `preventDefault` and the key event object are not modelled. Only the key name and the Shift state are.
- JavaScript strings are UTF-16 and Python strings are code points. Both are modelled as sequences of `char`, so lone surrogates are not modelled.
- `ChatSession.ThrownText`: the caught error's own message is shown whenever it is non-empty. `Failed to fetch. Is the backend server running?` appears only for an empty message, whatever made the request fail.

## Findings

| source | as written | input that shows it | evidently intended | confidence | as-written member | corrected member |
|---|---|---|---|---|---|---|
| backend/core/agent_analyst.py:73-74 | In the fallback, each found URL is deleted with `answer.replace(url, '')`, one after the other. This deletes every occurrence of that text, including occurrences inside a longer URL found later. | Response text `http://a http://ab` with no `sources:`. Sources are `http://a` and `http://ab`. The first replace turns `http://ab` into `b`, so the answer comes back as `b`. | Delete exactly the matched URLs (as `re.sub` of the same pattern would), leaving an answer with no URL and no URL fragments. Here the answer is the empty text. | not executed | `AgentAnalyst.ReplaceLeavesFragment` | `AgentAnalyst.FallbackAnswerHasNoUrl` |
