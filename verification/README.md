# chatgpt-ime, modelled in Dafny

chatgpt-ime is a Japanese input method in two parts.

- **The fcitx5 engine** (`fcitx5-chatgpt`). It keeps a preedit buffer in which romaji are typed and transliterated to hiragana. On Space it sends the buffer to a local conversion service. The service's answer becomes a candidate list the user moves through with Up, Down and Space, and Return commits the selected candidate.
- **The conversion service** (`chatgpt-ime`). It is a small HTTP server on a Unix socket that validates the request. It then asks a language model for candidates, wrapping the text in a random token, and checks that the reply comes back framed with the same token.

This project models the sequential logic of both parts:

| module | file | models |
|---|---|---|
| `Common` | common.dfy | `Option` and `Result` |
| `Text` | text.dfy | trimming whitespace, as in `trim` and Go's `strings.TrimSpace` |
| `CLib` | clib.dfy | the C/C++ library behaviour the client relies on: 64-bit `size_t` wrap-around, `npos`, `find`, `substr`, `stoi`, `%d`, NUL-terminated buffers |
| `ImeClient` | imeclient.dfy | the hand-written HTTP/1.1 client: splitting on CR LF, the status line (section 4 of RFC 9112), header fields (section 5 of RFC 9112), the body, the request template, the status dispatch and `send_message` |
| `Engine` | engine.dfy | the composition state machine, twice: as functions on a `Session` value (`Step`), and as the class `ChatGptState` whose methods update its fields and are proved to follow `Step` |
| `OpenAIClient` | openai_client.dfy | the random token, the request framing, `parseReply` and the text-completion tail |
| `Server` | server.dfy | the service's request handler and `handleError` |
| `Protocol` | protocol.dfy | the client reading what the handler sent |

Some collaborators are not modelled. Each becomes a function-typed parameter or field, so every property holds whatever they do:

- the transliteration table (`convert_to_hiragana`);
- the JSON decoders and encoders;
- the conversion service as the engine sees it;
- the socket exchange;
- the conversion function the handler is built with.

`convert_to_hiragana` and `hiraganatable.h` are not part of this model.

Four behaviours of the code that the model follows as written, although a reader might expect otherwise:

- **Cursor.** A fresh candidate list starts with no selection (cursor -1). The single `nextCandidate` after it is built selects index 0, the first candidate, as the comment at engine.cpp:57 says.
- **Empty candidate list.** A successful conversion with no candidates still enters reviewing mode, with nothing selected. Return or a simple key would then read `candidate(cursorIndex())` on an empty list. The model makes this a precondition (`Committable`) and shows the case in `EmptySuccessLeavesNothingSelected`. The invariant `Ready` is preserved by every other step (`StepPreservesReady`).
- **Backspace.** Backspace removes the last buffered character without transliterating again.
- **Content-Length.** `Content-Length` is `15 + message.size()`, while `%s` copies the message only up to its first NUL. The declared length is exact precisely when the message holds no NUL (`ContentLengthExact`).

## Model

| member | source | states |
|---|---|---|
| Text.FindFirstNotOf | fcitx5-chatgpt/src/imeclient.cpp:39 | the first index from `i` on whose character is not whitespace; all before it are whitespace |
| Text.FindLastNotOf | fcitx5-chatgpt/src/imeclient.cpp:40 | the last index below `n` whose character is not whitespace, or -1; all after it are whitespace |
| Text.Trim | fcitx5-chatgpt/src/imeclient.cpp:38-47 | the result is a substring of the input with only whitespace cut on either side, and neither end of it is whitespace; it is empty iff the input is all whitespace |
| Text.TrimUnique | fcitx5-chatgpt/src/imeclient.cpp:38-47 | any substring cut that way is the trim: the trim is determined by the input |
| Text.TrimIdempotent | fcitx5-chatgpt/src/imeclient.cpp:38-47 | trimming twice gives what trimming once gives |
| Text.TrimPadded | chatgpt-ime/openai/client.go:114 | whitespace padding around a text whose ends are not whitespace is exactly what is removed |
| CLib.SizeAdd | fcitx5-chatgpt/src/imeclient.cpp:56 | `size_t` addition: the true sum below 2^64, and 0 for `npos + 1` |
| CLib.SizeSub | fcitx5-chatgpt/src/imeclient.cpp:55 | `size_t` subtraction: the true difference when it is not negative |
| CLib.Find | fcitx5-chatgpt/src/imeclient.cpp:54 | `find` gives `npos` or an index at or after `from` holding the character, with no earlier occurrence |
| CLib.FindAt | fcitx5-chatgpt/src/imeclient.cpp:54 | the first occurrence at or after `from` is what `find` returns |
| CLib.FindNone | fcitx5-chatgpt/src/imeclient.cpp:54 | without an occurrence `find` returns `npos` |
| CLib.Substr | fcitx5-chatgpt/src/imeclient.cpp:55 | `substr(pos, n)` is the slice from `pos` of length `n`, cut short at the end of the string |
| CLib.CString | fcitx5-chatgpt/src/imeclient.cpp:17-36 | the C string in a buffer is the prefix before the first NUL, and holds no NUL |
| CLib.CStringNoNul | fcitx5-chatgpt/src/imeclient.cpp:136 | a NUL-free text is its own C string |
| CLib.LeadingDigits | fcitx5-chatgpt/src/imeclient.cpp:60 | the length of the run of digits at the front of the text, and what follows it is no digit |
| CLib.SkipSpace | fcitx5-chatgpt/src/imeclient.cpp:60 | the result is a suffix of the text; every character dropped before it is an `isspace` character, and it does not start with one |
| CLib.SkipSpaceOver | fcitx5-chatgpt/src/imeclient.cpp:60 | white space in front of a text that does not start with white space is exactly what is dropped |
| CLib.LeadingDigitsOver | fcitx5-chatgpt/src/imeclient.cpp:60 | a string of digits followed by anything but a digit has exactly that string as its leading digit run |
| CLib.Stoi | fcitx5-chatgpt/src/imeclient.cpp:60 | `stoi` succeeds only with a value in the range of a 32-bit `int`; the value read and when it throws are stated by `StoiReadsNumber`, `StoiReadsDecimal` and `StoiNeedsDigit` |
| CLib.ReadSigned | fcitx5-chatgpt/src/imeclient.cpp:60 | after the white space, an optional sign and digits give a value in the range of a 32-bit `int` |
| CLib.StoiReadsNumber | fcitx5-chatgpt/src/imeclient.cpp:60 | white space, an optional `+` or `-` and a run of digits followed by anything but a digit read as the signed value of the digits when it fits in an `int`, and throw otherwise |
| CLib.ReadSignedNumber | fcitx5-chatgpt/src/imeclient.cpp:60 | an optional sign and a run of digits, followed by anything but a digit, read as the signed value of the digits when it fits, and throw otherwise |
| CLib.StoiReadsDecimal | fcitx5-chatgpt/src/imeclient.cpp:60 | white space, a sign and what `%d` wrote, followed by anything but a digit, read back as the signed value |
| CLib.StoiNeedsDigit | fcitx5-chatgpt/src/imeclient.cpp:60 | with no digit after the white space and the optional sign, `stoi` throws (`" x"`, `"-x"`, `"+"`) |
| CLib.ReadSignedNeedsDigit | fcitx5-chatgpt/src/imeclient.cpp:60 | an optional sign followed by no digit is rejected |
| CLib.StoiRejectsNonNumeric | fcitx5-chatgpt/src/imeclient.cpp:60 | text starting with no space, sign or digit is rejected: `stoi` throws |
| CLib.Decimal | fcitx5-chatgpt/src/imeclient.cpp:136 | `%d` writes digits only, with no leading zero |
| CLib.DecimalValue | fcitx5-chatgpt/src/imeclient.cpp:136 | the digits `%d` writes denote the number |
| CLib.StoiDecimal | fcitx5-chatgpt/src/imeclient.cpp:60 | `stoi` reads back exactly what `%d` wrote |
| ImeClient.FirstCrlf | fcitx5-chatgpt/src/imeclient.cpp:21 | `strstr(p, "\r\n")`: the first CR LF from `i` on, or the end when there is none |
| ImeClient.Split | fcitx5-chatgpt/src/imeclient.cpp:17-36 | the lines between CR LF pairs; there is always at least one |
| ImeClient.JoinSplit | fcitx5-chatgpt/src/imeclient.cpp:17-36 | joining the lines with CR LF gives back the input |
| ImeClient.SplitNoCrlf | fcitx5-chatgpt/src/imeclient.cpp:17-36 | no line contains CR LF |
| ImeClient.SplitCount | fcitx5-chatgpt/src/imeclient.cpp:17-36 | there is one line more than there are CR LF pairs in the input |
| ImeClient.SplitLineBound | fcitx5-chatgpt/src/imeclient.cpp:17-36 | no line is longer than the input |
| ImeClient.SplitCons | fcitx5-chatgpt/src/imeclient.cpp:17-36 | a line without CR LF followed by CR LF is split off as the first line |
| ImeClient.SplitSingle | fcitx5-chatgpt/src/imeclient.cpp:17-36 | a text without CR LF is one line |
| ImeClient.SplitJoin | fcitx5-chatgpt/src/imeclient.cpp:17-36 | lines without CR LF, joined with CR LF, split back into the same lines |
| ImeClient.WalkLines | fcitx5-chatgpt/src/imeclient.cpp:19-34 | the outer loop collects the lines from the start of the text: each round adds the text up to the next CR LF, or to the end, and steps over the CR LF |
| ImeClient.CopyLine | fcitx5-chatgpt/src/imeclient.cpp:23-27 | the inner loop stops at the CR LF that `strstr` found, or at the terminating NUL when there is none, having copied exactly the text in between |
| ImeClient.SplitFromTail | fcitx5-chatgpt/src/imeclient.cpp:20-34 | the lines found by searching for CR LF from an index are the lines of the text that starts there |
| ImeClient.ConvertLines | fcitx5-chatgpt/src/imeclient.cpp:17-36 | the nested pointer loops produce `Split` of the C string in the buffer; their join is that C string, no line holds CR LF, and there is one line more than CR LF pairs |
| ImeClient.ParseStatusLine | fcitx5-chatgpt/src/imeclient.cpp:49-65 | a parsed status code is a 32-bit `int` |
| ImeClient.StatusLineTwoSpaces | fcitx5-chatgpt/src/imeclient.cpp:49-65 | with two spaces, the version is the text before the first, the code is read from between them, and the reason is everything after the second, spaces included; parsing fails iff `stoi` fails on the code text |
| ImeClient.StatusLineOneSpace | fcitx5-chatgpt/src/imeclient.cpp:59-64 | with one space the code runs to the end of the line and, `npos + 1` wrapping to 0, the reason is the whole line |
| ImeClient.StatusLineNoSpace | fcitx5-chatgpt/src/imeclient.cpp:54-64 | with no space the version, the code text and the reason are all the whole line |
| ImeClient.StatusLineCut | fcitx5-chatgpt/src/imeclient.cpp:49-65 | once the two `find`s land on `i` and `j`, the three `substr`s are the text before `i`, between them and after `j`, and parsing fails iff `stoi` fails on the middle one |
| ImeClient.StatusLineOfPieces | fcitx5-chatgpt/src/imeclient.cpp:49-65 | a version and a code text without spaces, joined to any reason phrase by single spaces, parse back to those three |
| ImeClient.StatusLineRoundTrip | fcitx5-chatgpt/src/imeclient.cpp:49-65 | a status line written as version, code and reason parses back to those three |
| ImeClient.SplitHeader | fcitx5-chatgpt/src/imeclient.cpp:68-70 | with a colon the line is key, colon, raw value, and the key holds no colon; with none, key and raw value are both the whole line |
| ImeClient.SplitHeaderRoundTrip | fcitx5-chatgpt/src/imeclient.cpp:68-70 | a key without a colon, a colon and a value split back into that key and value |
| ImeClient.HeaderValue | fcitx5-chatgpt/src/imeclient.cpp:70 | the text after the colon (the whole line when there is none) with its leading and trailing white space cut off, and nothing more; empty iff that text is all white space |
| ImeClient.ParseHeader | fcitx5-chatgpt/src/imeclient.cpp:67-72 | the line's key maps to its trimmed value, replacing any earlier one; every other key keeps its presence and its value |
| ImeClient.HeadersOf | fcitx5-chatgpt/src/imeclient.cpp:86-92 | the header lines applied in order (no ensures; stated by `HeaderLastWins`, `HeaderAbsent` and `ReadHeaders`) |
| ImeClient.HeaderLastWins | fcitx5-chatgpt/src/imeclient.cpp:71 | the last line with a given key decides that key's value in the header map |
| ImeClient.HeaderAbsent | fcitx5-chatgpt/src/imeclient.cpp:71 | a key no line has is not in the map |
| ImeClient.BodyOf | fcitx5-chatgpt/src/imeclient.cpp:93-101 | the lines after the first empty one run together (no ensures; stated by `HeaderBlock`, `NoBlankNoBody` and `ReadBody`) |
| ImeClient.HeaderEnd | fcitx5-chatgpt/src/imeclient.cpp:86-92 | the index of the first empty line from `i` on, or the number of lines |
| ImeClient.HeaderBlock | fcitx5-chatgpt/src/imeclient.cpp:85-101 | with an empty line after the headers, the headers are exactly the lines before it and the body is all later lines joined without separators |
| ImeClient.NoBlankNoBody | fcitx5-chatgpt/src/imeclient.cpp:85-101 | with no empty line every line is a header line and the body is empty |
| ImeClient.ReadHeaders | fcitx5-chatgpt/src/imeclient.cpp:85-92 | the header loop stops at the first empty line and builds the header map of the lines before it |
| ImeClient.ReadBody | fcitx5-chatgpt/src/imeclient.cpp:99-101 | the body loop appends every line from `from` on, and nothing when `from` is past the end |
| ImeClient.ParseHttpResponse | fcitx5-chatgpt/src/imeclient.cpp:74-104 | the response is the parsed status line, the header map from line 1 to the first empty line and the body after it; it fails iff `stoi` fails on the status line |
| ImeClient.ContentLengthExact | fcitx5-chatgpt/src/imeclient.cpp:109-136 | the declared `15 + message.size()` equals the length of the body `%s` produces iff the message holds no NUL |
| ImeClient.RequestBody | fcitx5-chatgpt/src/imeclient.cpp:109-136 | the JSON body of the template around the message up to its first NUL (no ensures; its length is stated by `ContentLengthExact`) |
| ImeClient.FormatRequest | fcitx5-chatgpt/src/imeclient.cpp:109-136 | the template's lines joined with CR LF (no ensures; its lines are stated by `RequestLines` and what it reads back as by `RequestReadsBack`) |
| ImeClient.RequestLines | fcitx5-chatgpt/src/imeclient.cpp:109 | the request is the request line, three header lines, an empty line and the body |
| ImeClient.HeaderLineReadsBack | fcitx5-chatgpt/src/imeclient.cpp:67-72 | a `key: value` line is read back as that key and value |
| ImeClient.RequestReadsBack | fcitx5-chatgpt/src/imeclient.cpp:109-136 | the request read with the client's own parser has the three header fields, the JSON body, and a Content-Length that `stoi` reads as the body's length |
| ImeClient.Dispatch | fcitx5-chatgpt/src/imeclient.cpp:150-164 | success iff status 200; at 200 the candidates and otherwise `error_message` are those of the body's JSON; a decode or type failure throws |
| ImeClient.Received4095 | fcitx5-chatgpt/src/imeclient.cpp:143-144 | at most 4095 bytes of the reply are kept, as a prefix of it |
| ImeClient.SystemError | fcitx5-chatgpt/src/imeclient.cpp:114-119 | a failure response whose text is the call's name, a colon and the `strerror` text (no ensures; `SendMessage` states when each one is returned) |
| ImeClient.SendMessage | fcitx5-chatgpt/src/imeclient.cpp:106-165 | a failing socket call gives `"<call>: <strerror>"` with no success; a received reply is parsed and dispatched on its status |
| Engine.NextCursor | fcitx5-chatgpt/src/engine.cpp:57-58 | from no selection to the first candidate, then forward with wrap-around; an empty list has no selection |
| Engine.PrevCursor | fcitx5-chatgpt/src/engine.cpp:105-106 | from no selection to the last candidate, then back with wrap-around |
| Engine.CursorStepsInverse | fcitx5-chatgpt/src/engine.cpp:105-110 | a step back undoes a step forward and the other way round |
| Engine.ForwardAdd | fcitx5-chatgpt/src/engine.cpp:108-110 | `a` forward steps then `b` are `a + b` steps |
| Engine.ForwardNoWrap | fcitx5-chatgpt/src/engine.cpp:108-110 | before the end of the list `k` steps move the selection `k` places |
| Engine.ForwardFullRound | fcitx5-chatgpt/src/engine.cpp:108-110 | as many forward steps as there are candidates return to the same one |
| Engine.TypeKey | fcitx5-chatgpt/src/engine.cpp:67-75 | the buffer after typing is never empty; it is the transliteration when that is non-empty, and otherwise the raw buffer with the key appended |
| Engine.StepEditing | fcitx5-chatgpt/src/engine.cpp:32-95 | the service is asked only on Space with something typed, and for the buffer; only Return with something typed commits, the buffer, and clears it; keys that do not edit keep the buffer (each case in full: the `Editing*` lemmas) |
| Engine.StepReviewing | fcitx5-chatgpt/src/engine.cpp:97-152 | the service is never asked; exactly Return and a simple key commit the selected candidate and leave reviewing; only an unhandled key is passed on (each case in full: the `Reviewing*` lemmas) |
| Engine.Step | fcitx5-chatgpt/src/engine.cpp:24-30 | dispatch on the mode (no ensures; what a step keeps is stated by `StepPreservesWf` and `StepPreservesReady`) |
| Engine.Render | fcitx5-chatgpt/src/engine.cpp:80-92 | the preedit is the buffer text, highlighted iff reviewing, underlined iff editing, with the cursor at its end iff the client draws the preedit |
| Engine.ChatGptState.constructor | fcitx5-chatgpt/src/engine.h:15 | a new state is the empty buffer in editing mode |
| Engine.ChatGptState.Reset | fcitx5-chatgpt/src/engine.cpp:154-157 | the buffer is cleared and converting mode is left; the panel is untouched |
| Engine.ChatGptState.ResetPanel | fcitx5-chatgpt/src/engine.cpp:44 | the candidate list goes away; nothing else changes |
| Engine.ChatGptState.TypeSym | fcitx5-chatgpt/src/engine.cpp:68-74 | the character is appended and a non-empty transliteration of the buffer replaces it |
| Engine.ChatGptState.KeyEventWhenNotConverting | fcitx5-chatgpt/src/engine.cpp:32-95 | the new fields are `StepEditing` of the old buffer, with its acceptance, commit and request; the preedit is rendered from the new state |
| Engine.ChatGptState.KeyEventWhenConverting | fcitx5-chatgpt/src/engine.cpp:97-152 | the new fields are `StepReviewing` of the old buffer and list, with its acceptance and commit; the preedit is rendered from the new state |
| Engine.ChatGptState.KeyEvent | fcitx5-chatgpt/src/engine.cpp:24-30 | the dispatch on the mode follows `Step`, and the state stays well formed |
| Engine.EngineKeyEvent | fcitx5-chatgpt/src/engine.cpp:166-179 | in every state, a release or a key with a modifier leaves the state unchanged and is not consumed; any other event is one `Step` |
| Engine.EngineReset | fcitx5-chatgpt/src/engine.cpp:181-191 | the context returns to the initial session |
| Engine.StepPreservesWf | fcitx5-chatgpt/src/engine.cpp:32-152 | every step keeps the session well formed: a buffer while reviewing and a cursor on the list or, for an empty list, unset |
| Engine.ReadyCommittable | fcitx5-chatgpt/src/engine.cpp:112 | with a candidate selected, any key can be handled |
| Engine.StepPreservesReady | fcitx5-chatgpt/src/engine.cpp:32-152 | every step keeps a candidate selected, except a conversion that succeeds with no candidates |
| Engine.EmptySuccessLeavesNothingSelected | fcitx5-chatgpt/src/engine.cpp:51-62 | a success with no candidates enters reviewing with nothing selected, where Return cannot be handled |
| Engine.NoRequestNoConverter | fcitx5-chatgpt/src/engine.cpp:47-66 | when no request is sent the converter makes no difference to the outcome |
| Engine.RequestOnlyOnSpace | fcitx5-chatgpt/src/engine.cpp:47-50 | a request is sent iff Space is pressed on a non-empty buffer while editing, and it carries the buffer |
| Engine.CommitCases | fcitx5-chatgpt/src/engine.cpp:40-132 | text is committed iff Return on a non-empty buffer while editing (the buffer) or Return or a simple key while reviewing (the selected candidate), and the session then is editing |
| Engine.EditingBackSpace | fcitx5-chatgpt/src/engine.cpp:35-39 | a non-empty buffer loses exactly its last character and the key is consumed; an empty one stays and the key is not consumed |
| Engine.EditingReturn | fcitx5-chatgpt/src/engine.cpp:40-46 | a non-empty buffer is committed whole and the session is the initial one; an empty buffer does nothing |
| Engine.EditingSpace | fcitx5-chatgpt/src/engine.cpp:47-66 | empty buffer: no request; failure: nothing changes and the key is not consumed; success: reviewing the candidates in the order given, with the first selected |
| Engine.EditingSimple | fcitx5-chatgpt/src/engine.cpp:67-75 | the character is appended, and a non-empty transliteration of the result replaces the buffer |
| Engine.TypeThenErase | fcitx5-chatgpt/src/engine.cpp:35-39 | typing a character that does not transliterate and erasing it gives the buffer back |
| Engine.IgnoredKeys | fcitx5-chatgpt/src/engine.cpp:76-78 | unhandled keys change nothing and are not consumed |
| Engine.ReviewingBackSpace | fcitx5-chatgpt/src/engine.cpp:101-104 | from any reviewing session, whatever the list and the selection, BackSpace is consumed and returns to editing the same buffer |
| Engine.ConvertThenCancel | fcitx5-chatgpt/src/engine.cpp:47-104 | converting and then pressing BackSpace brings back the session converted from |
| Engine.ReviewingNavigation | fcitx5-chatgpt/src/engine.cpp:105-110 | Up, Down and Space move only the selection, keeping it on the list, or unset for an empty list, and Up and Down undo each other |
| Engine.ReviewingCommit | fcitx5-chatgpt/src/engine.cpp:111-132 | Return commits the selected candidate and starts over; a simple key commits it too and then types the character into an empty buffer |
| Engine.ConvertAndPickSecond | fcitx5-chatgpt/src/engine.cpp:47-116 | typing, converting, one Down and Return commits the second candidate |
| OpenAIClient.CharSetAlnum | chatgpt-ime/openai/client.go:95 | the character set holds each of the 62 letters and digits once and nothing else |
| OpenAIClient.GenerateRandomToken | chatgpt-ime/openai/client.go:91-107 | the token has 10 characters, each from the character set and so alphanumeric |
| OpenAIClient.TokenEndsNotSpace | chatgpt-ime/openai/client.go:91-107 | a token neither starts nor ends with whitespace, so trimming never cuts into it |
| OpenAIClient.Unframe | chatgpt-ime/openai/client.go:115-123 | succeeds iff the token is in front of the trimmed reply and again at the end of what follows it; the trimmed reply is then token, result, token |
| OpenAIClient.UnframeFramed | chatgpt-ime/openai/client.go:115-123 | undoes the framing: token, `J`, token gives back exactly `J` |
| OpenAIClient.ParseReply | chatgpt-ime/openai/client.go:109-131 | every failure is `invalid response: ` and the untrimmed reply; a success means the trimmed reply is token, some middle, token, and the result is that middle decoded |
| OpenAIClient.ParseReplyFramed | chatgpt-ime/openai/client.go:114-130 | a trimmed reply equal to token, `J`, token is decoded from exactly `J` |
| OpenAIClient.ParseReplyNeedsPrefix | chatgpt-ime/openai/client.go:114-117 | a trimmed reply without the token in front is rejected |
| OpenAIClient.ParseReplyNeedsSuffix | chatgpt-ime/openai/client.go:118-122 | a reply whose rest after the token does not end with it is rejected |
| OpenAIClient.ParseReplyRejectsShort | chatgpt-ime/openai/client.go:115-122 | a trimmed reply shorter than two tokens is rejected |
| OpenAIClient.ParseReplyIgnoresPadding | chatgpt-ime/openai/client.go:114 | whitespace around a framed reply makes no difference, for any token whose ends are not whitespace (every token, by `TokenEndsNotSpace`) |
| OpenAIClient.RequestContentFramed | chatgpt-ime/openai/client.go:38-42 | the request content is token, newline, message, newline, token, whatever the message, for any token whose ends are not whitespace |
| OpenAIClient.FramingRoundTrip | chatgpt-ime/openai/client.go:145 | for any token whose ends are not whitespace, a reply framed as the request is accepted and decoded from the text between the tokens |
| OpenAIClient.RequestContent | chatgpt-ime/openai/client.go:38-42 | the chat request template filled with the token, the message and the token, then trimmed (no ensures; its shape is stated by `RequestContentFramed`) |
| OpenAIClient.TextCompletionCandidates | chatgpt-ime/openai/client.go:269-272 | exactly one candidate, the trimmed reply, empty iff the reply is all whitespace |
| Server.HandleError | chatgpt-ime/cmd/main.go:71-76 | an error reply: the given status and message, and nil candidates (no ensures; `Handle` states every reply it is used for) |
| Server.Handle | chatgpt-ime/cmd/main.go:29-69 | the checks in order (405, then 400 three times) with their fixed texts; the conversion runs iff all pass, on the decoded message; its failure is 500 "internal server error", its success the default status with the candidates as returned, nil included, and no error text; 200 iff the conversion ran and succeeded; candidates only in a 200 |
| Server.RejectionIgnoresConverter | chatgpt-ime/cmd/main.go:31-57 | a rejected request's reply does not depend on the conversion function and is no success |
| Server.MethodCheckedFirst | chatgpt-ime/cmd/main.go:31-35 | a request with another method gets the same reply whatever its headers and body |
| Server.ConversionErrorHidden | chatgpt-ime/cmd/main.go:57-62 | the conversion's error text does not reach the reply |
| Protocol.ClientSeesHandlerReply | fcitx5-chatgpt/src/imeclient.cpp:150-164 | the client reads the handler's reply as a success iff the conversion succeeded with a list, with that list; as the handler's error text iff the conversion did not run or failed; and throws a type error iff the conversion succeeded with a nil slice, sent as `"candidates": null`; it works at the JSON level and assumes the HTTP layer delivers the status and the body whole |

## Left out

- Socket I/O in `send_message`: `socket`, `connect`, `send`, `recv`, `close` and `strerror`. These are operating system calls, modelled as the `exchange` oracle returning a `Transport`. Only one `recv` is made, so a reply longer than 4095 bytes is cut short (`Received4095`).
- ImeClient.SendMessage: requires the formatted request to fit in the 4096-byte buffer. `sprintf` into it is otherwise a buffer overflow, which is not modelled.
- ImeClient.FormatRequest: `%d` is given a `size_t`. The model prints the value as a non-negative number.
- Characters stand for code points in the engine buffer (`fcitx::InputBuffer` edits whole UTF-8 characters, so BackSpace removes one code point), for bytes in the client (imeclient.cpp), and for runes on the Go side, where `strings.TrimSpace` reads runes and `GoSpace` holds multi-byte code points. UTF-8 encoding is not modelled, so `message.size()` is a length in characters here.
- The JSON libraries (nlohmann::json, Go `encoding/json`) are function-typed parameters. `None` stands for a parse error or a wrong type. A nil Go slice is modelled where the handler encodes the conversion's result (`None`, sent as `null`, which the client's `json["candidates"]` conversion throws on; see `Protocol.ClientSeesHandlerReply`).
- OpenAIClient.ParseReply: the `decode` parameter yields a list of candidates, so a framed `{}` or `{"candidates": null}`, which Go decodes to a nil slice, is not told apart from an empty list there; the handler model takes the nil case as a possible result of the conversion function instead.
- The fcitx framework surface:
  - the input panel, `setClientPreedit`/`setPreedit` and `updateUserInterface`;
  - capability flags, reduced to one boolean;
  - `CommonCandidateList` paging and layout; the engine sets no page size or cursor mode, and `NextCursor`/`PrevCursor` assume fcitx's default of moving the cursor over the whole list with wrap-around rather than within one page;
  - `ChatGPTCandidateWord::select`;
  - the addon factory;
  - `isSimple`, reduced to the `Simple` key.
- Protocol.ClientSeesHandlerReply: passes the handler's status and JSON text straight to `Dispatch`, assuming the HTTP layer delivers the body whole. Go's net/http framing (the Date and Content-Length headers, the trailing newline `Encode` writes) and the single 4095-byte `recv` are not composed with it.
- Exceptions escaping `keyEvent` are not modelled. `send_message` can throw from `stoi` or the JSON library (`ClientOutcome.Thrown`); the engine model takes the converter as a total function to a `SendMessageResponse`.
- `convert_to_hiragana` is an uninterpreted function.
- The OpenAI HTTP round trips (`PostChatCompletion`, `PostTextCompletion`), URL parsing, the prompt templates, logging, and `math/rand` are left out. The random pick is an arbitrary choice in `GenerateRandomToken`.
- `main`, the listener on the Unix socket, and `healthcheckHandler` are left out as I/O.
- ImeClient.ParseStatusLine: its contract states only the range of the code. The parse for each shape of line (two spaces, one, none) is stated by the `StatusLine*` lemmas. Those lemmas require lines shorter than `npos`, which every `std::string` is.
