# wtf-cli, modelled in Dafny

`wtf` turns a natural-language request into a shell command. It sends the
request to Google's Gemini `generateContent` endpoint, shows the command it
gets back and asks `Execute? [yes/No/edit]`. On "yes" it runs the command
with `sh -c`. Otherwise it copies the command to the macOS clipboard through
`printf '%s' '<command>' | pbcopy`. With `--raw` it only prints the command.

The whole tool is one file, `src/main.rs`. This project models the decisions
in that file and proves what they promise:

- **Gemini request and response** (`gemini.dfy`). The request envelope holds
  exactly one user part and one system part. The reply is judged in layers:
  a non-2xx status is an error first, then an embedded `error` field, then
  the first part of the first candidate; anything else is "no command".
- **Confirm dispatch** (`confirm.dfy`). The line read is trimmed and
  lower-cased, then mapped to Execute, CopyForEdit or Cancel.
- **Clipboard quoting** (`shell_quote.dfy`). `replace("'", "'\\''")` wrapped in
  `'…'` is the POSIX single-quote idiom (POSIX Shell Command Language, section
  2.2.2 "Single-Quotes", with section 2.2.1 for the backslash between the
  quoted parts). A small lexer for that part of the shell language shows two
  things. The quoted word reads back as the original command. The whole
  clipboard line reads as `printf`, `%s`, the command as one word, `|` and
  `pbcopy`, whatever the command contains.
- **Exit status** (`process.dfy`). A failed run exits with the child's code,
  or with 1 when there is none.
- **String helpers** (`text.dfy`). Rust's `trim`, `to_lowercase` and
  `join(" ")`. Splitting at spaces undoes the join when no word contains a
  space.
- **One run of `main`** (`cli.dfy`). A method over an abstract environment.
  It returns the visible effects in order and how the process ends.

The network, the JSON decoder and the shell are parameters of the
environment. `post` is what the HTTP round trip answers, given the key and
the request. `parse` is what `serde_json` makes of a body. `run` is what
`sh -c` yields for a command. The `SYSTEM_PROMPT` text is a parameter too.

## Behaviour worth knowing

- "edit" copies the command to the clipboard, exactly as cancelling does.
  Only the message printed afterwards differs.
- An empty `GEMINI_API_KEY` is accepted, because `env::var` returns
  `Ok("")`. An unset variable, or one whose value is not valid Unicode, is
  an error; the model has both as a missing key.

## Model

| member | source | states |
|---|---|---|
| Gemini.BuildRequest | src/main.rs:147-158 | the request has exactly one `contents` entry with exactly one part whose text is the prompt, and a `systemInstruction` with exactly one part whose text is the system prompt |
| Gemini.BuildRequestOnto | src/main.rs:147-158 | every request of that shape is the one built from its two texts, so the envelope carries nothing else |
| Gemini.BuildRequestInjective | src/main.rs:147-158 | different prompts or system prompts give different requests |
| Gemini.Interpret | src/main.rs:182-191 | an embedded `error` gives a provider error with its message; with no error the result succeeds exactly when a first part of a first candidate exists |
| Gemini.Extract | src/main.rs:172-191 | a non-2xx status is exactly the case of the status error carrying status and body; a 2xx body that does not decode is exactly the case of the parse error; the result succeeds exactly on a 2xx reply that decodes with no error and a first part, and is then that part's text; sending and body-read errors never come from here |
| Gemini.NonSuccessIsHttpError | src/main.rs:175-177 | a status outside 2xx gives the HTTP-status error carrying status and body, whatever the body is and whatever the decoder would make of it |
| Gemini.EmbeddedErrorWins | src/main.rs:182-184 | on a 2xx reply that decodes with an `error` field, the result is that error, even when candidates are present too |
| Gemini.FirstPartOfFirstCandidate | src/main.rs:186-190 | with no error field and a first candidate that has a part, the command is exactly the text of that first part |
| Gemini.LaterCandidatesIgnored | src/main.rs:186-188 | candidates after the first never change the result |
| Gemini.LaterPartsIgnored | src/main.rs:189-190 | parts after the first, and later candidates, never change the result |
| Gemini.NoCommandCases | src/main.rs:186-191 | no `candidates`, an empty list, or a first candidate without parts gives "no command", with no fallback to a later candidate |
| Gemini.CommandFromGemini | src/main.rs:144-194 | the envelope for the prompt and system prompt is what gets posted; a send failure is exactly the case of the send error, an unreadable body exactly the case of the body-read error, and a reply is judged by `Extract` on its status and body |
| Gemini.CommandFromGeminiSucceeds | src/main.rs:144-194 | the exchange yields a command exactly when the reply to the built envelope is 2xx, decodes, has no error and has a first part; the command is then that part's text |
| Confirm.Normalize | src/main.rs:107 | the normalised answer is no longer than the line, has no white space at its ends and holds no upper-case letter |
| Confirm.NormalizeRecognises | src/main.rs:107 | trimming and lower-casing yields a word (one without white space at its ends) exactly when the line spells that word in any case with any white space around it |
| Confirm.ClassifyMeaning | src/main.rs:107-138 | the `match` on the normalised answer, `Confirm.Classify`, by what the line spells: Execute exactly for the spellings of "y" and "yes", CopyForEdit exactly for "e" and "edit", and Cancel for every other line, the empty line included |
| Confirm.ClassifyIgnoresPadding | src/main.rs:105-107 | white space added before and after a line, such as the newline `read_line` keeps, never changes the choice |
| Confirm.ShoutedYesExecutes | src/main.rs:107-110 | the line " YES\n" executes |
| ShellQuote.Escape | src/main.rs:126 | the escaped text is the original length plus three characters for every single quote |
| ShellQuote.EscapeConcat | src/main.rs:126 | escaping works on each character separately: it distributes over concatenation |
| ShellQuote.EscapeNoQuote | src/main.rs:126 | a command without single quotes is left unchanged |
| ShellQuote.Quote | src/main.rs:126 | the quoted word starts and ends with a single quote and is two characters longer than the escaped text |
| ShellQuote.LexEscaped | src/main.rs:126 | inside single quotes, the escaped text and the closing quote add exactly the original text to the word being read |
| ShellQuote.QuoteRoundTrip | src/main.rs:126 | the shell reads the quoted escape of any command back as exactly that command, as one word |
| ShellQuote.QuoteInjective | src/main.rs:126 | different commands give different quoted words |
| ShellQuote.ClipboardScript | src/main.rs:124-127 | the clipboard line adds 23 characters around the command plus 3 per single quote in it, so it is never the command itself; the same line is built at src/main.rs:134 |
| ShellQuote.ClipboardScriptTokens | src/main.rs:124-127 | the clipboard line reads as `printf`, `%s`, the command as one word, a pipe and `pbcopy`, whatever the command holds; the same line is built at src/main.rs:134 |
| Process.ReportedStatus | src/main.rs:119 | the status the parent sees after `exit` is a byte, equal to the code modulo 256, and a code already in 0..255 is reported unchanged |
| Process.FailureExitCode | src/main.rs:118-120 | a run that did not succeed exits with the child's code when there is one, else 1; that code lies in 1..255, so it is reported unchanged and never as 0 |
| Text.TrimStart | src/main.rs:89 | the kept part is a suffix, everything dropped is white space, and the kept part does not start with white space |
| Text.TrimEnd | src/main.rs:89 | the kept part is a prefix, everything dropped is white space, and the kept part does not end with white space |
| Text.Trim | src/main.rs:89 | the result is no longer than the input and neither starts nor ends with white space |
| Text.TrimParts | src/main.rs:89 | every string is exactly the white space that trimming drops in front, the trimmed result, and the white space it drops behind |
| Text.TrimTight | src/main.rs:89 | a string that neither starts nor ends with white space is its own trim |
| Text.TrimUnique | src/main.rs:107 | white space, then a core without white space at its ends, then white space, trims to exactly that core |
| Text.TrimPadding | src/main.rs:107 | padding a string with white space does not change what it trims to |
| Text.TrimIdempotent | src/main.rs:89 | trimming twice is trimming once |
| Text.ToLower | src/main.rs:107 | lower-casing keeps the length and maps each character by itself |
| Text.Join | src/main.rs:83 | the prompt is the words in order with one space between neighbours: its length is the words' total plus one per gap, and it starts with the first word |
| Text.SplitJoin | src/main.rs:83 | joining one or more prompt words that hold no space, with single spaces, is undone by splitting at the spaces |
| Cli.Answer | src/main.rs:109-138 | on "yes" the one child runs the command itself and the run fails to start, completes, or exits with the child's failure code; on anything else the child runs the clipboard line and the run completes; the command itself is started only on "yes", and the status is 0 exactly when the run completed |
| Cli.Interactive | src/main.rs:98-138 | the command is shown first; a failed read of the answer fails the run with nothing else done; otherwise exactly one child follows, as the answer decides, and the command itself only on "yes" |
| Cli.ProcessExitCode | src/main.rs:82-140 | a completed run ends with status 0, an `Err` from `main` with a non-zero status (1), and an `exit` with a code in 0..255 with that code; every status is a byte |
| Cli.RunOnce | src/main.rs:81-141 | a missing key or a failed exchange has no effects and fails; raw mode prints only the trimmed command; otherwise the command is shown, then run on "yes" (ending with the child's failure code when it fails) or copied to the clipboard on anything else; at most one child starts, the command itself only on "yes", and the process ends with status 0 exactly when the run completed |

## Left out

- HTTP transport, the URL with the API key, and the async runtime. They are network I/O, so the reply is a parameter (`post`).
- JSON decoding by serde. It is a foreign library, so a decoded body is a parameter (`parse`).
- Argument parsing by clap. The model starts from its result: the prompt words and the `--raw` flag.
- Reading `GEMINI_API_KEY`. It is an optional input; a missing key is an error.
- The coloured text, `flush` and the messages printed after the clipboard copy. These are display only. The suggestion and the raw output are kept as effects, and a failed `flush` is not modelled.
- The processes started by `sh -c`: the command and `printf … | pbcopy`. They are opaque. Only the strings handed to them are modelled, plus, for the command, whether it started and its exit status.
- The `SYSTEM_PROMPT` text. It is a constant string, passed as a parameter.
- Text.ToLower: covers only ASCII letters, not the full Unicode mapping of `to_lowercase`. No other character lower-cases to a single ASCII letter among y, e, s, d, i, t. U+0130 gives `i` plus a combining dot, so it cannot form "edit" either. The choice is therefore the same for every line.
- ShellQuote.LexFrom refuses the characters the shell treats specially outside quotes that the clipboard line does not use (`&;<>()$` and the like). It is a reference reading for this one line, not a whole shell parser.
- Process.ExitStatus: modelled as on Unix. Success means exit code 0, a code is one byte (0 to 255), and a child ended by a signal has no code.
