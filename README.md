# shlex: shell-style splitting and quoting

This project models `src/shlex.ts`, a small library that splits a
command-line string into shell-style words in a POSIX or a Windows dialect
(`split`; quote characters are kept in the words, see below), and wraps a
single word in quotes (`quote`) so that `split` reads a word without
backslashes back as one token (`SplitQuote`).

- `shlex.dfy` (module `Shlex`) holds the model. The tokenizer state of the
  generator — the token being built, the open quote character, the pending
  escape character, the active escape characters and the escape characters
  saved while a Windows quote is open — is the datatype `Scanner`. The body
  of the character loop is the transition function `Step`, `Feed` folds it
  over a string, and `Tokens` adds the token left at the end. `Split` is the
  generator itself, written as an imperative loop over the same five
  variables that collects what the generator yields; its contract ties it to
  `Tokens`. `Quote` and `EscapeDoubleQuotes` model `quote`.
- `shlex_properties.dfy` (module `ShlexProperties`) states and proves what
  the tokenizer and the quoter guarantee: token bounds, the behaviour on
  input without quotes or escapes (maximal runs of non-whitespace), quoted
  runs, each escape rule, which escape characters can be active, the
  inverse of `Quote`, and what `Split` makes of `Quote`'s output.

The dialect (`Posix` or `Windows`) is a parameter of `Split`; the source's
fallback to the platform is not modelled.

Behaviour of the code worth knowing:

- Quote characters are kept in the token, and a quote may open anywhere,
  even in the middle of a word (`QuoteMidToken`): `''` splits into the one
  token `''`, not into an empty token. For a word without backslashes,
  `split(quote(w))` gives `[quote(w)]` rather than `[w]` whenever `quote`
  adds quotes (`SplitQuote`, `SplitQuoteKeepsQuotes`); only a non-empty word
  of safe characters comes back as itself (`SplitQuoteSafe`).
- Closing a quote sets the escape characters to the saved ones or, when none
  were saved, to the empty set — not back to the dialect's default. In the
  POSIX dialect the backslash therefore stops escaping for the rest of the
  input once the first quoted run closes (`PosixEscapesEndAtClose`,
  `PosixEscapeGone`, `BackslashLiteral`): in `'a' "b\" c"` the backslash no
  longer protects the second run's closing quote. `BackslashSpaceBeforeQuote`
  and `BackslashSpaceAfterQuote` show the same backslash-space pair read two
  ways.
- An unterminated quote is not an error: the last token, holding the open
  quote character, is yielded as it stands (`UnterminatedQuoteAnywhere`).
- An escaped newline adds nothing and does not start a token
  (`EscapedNewline`).
- The check on `src/shlex.ts:34` (an open quote that is itself an escape
  character) can never succeed: the escape characters are only ever empty or
  a single backslash, and a backslash never opens a quote (`EscapeSetAfter`).
- `quote` never looks at its dialect option, so `Quote` has no dialect
  parameter.

## Model

| member | source | states |
|---|---|---|
| Shlex.QuoteChars | src/shlex.ts:9 | the quote characters of each dialect: both quotes in POSIX, only the double quote in Windows |
| Shlex.DefaultEscapeChars | src/shlex.ts:10-13 | the escape characters at the start: the backslash in POSIX, none in Windows |
| Shlex.IsWhitespace | src/shlex.ts:72 | the separator class: tab, space, newline, carriage return, form feed |
| Shlex.Start | src/shlex.ts:9-17 | the state before the first character: no token, no open quote, no pending escape, the dialect's escape characters, nothing saved |
| Shlex.Step | src/shlex.ts:19-81 | one iteration of the loop body, branch for branch; what it promises is stated by `StepYields`, `StepBounds`, `StepReachable` and `StepQuoteInToken` |
| Shlex.Feed | src/shlex.ts:18-82 | the loop over a whole string from a given state, collecting what it yields; its properties are `FeedAppend`, `FeedBounds`, `FeedReachable` and `FeedQuoteInToken` |
| Shlex.Tokens | src/shlex.ts:5-87 | everything `split` yields: the loop's tokens then the token left at the end; see `TokensBounds`, `TokensCount`, `TokensOfPlain` |
| Shlex.Split | src/shlex.ts:5-87 | the generator, as a loop over the characters updating token, quote, escape and escape-set state, yields exactly `Tokens(mode, str)`: the tokens of the state machine run over the whole input followed by the unfinished token |
| Shlex.FeedAppend | src/shlex.ts:18-82 | running the loop over `s + t` is running it over `s` and then over `t` from the state `s` left, with the yielded tokens concatenated in order |
| Shlex.FeedSnoc | src/shlex.ts:18-82 | one more character of input is one more iteration from the state the prefix left, its yield appended after the prefix's |
| Shlex.IsSafeChar | src/shlex.ts:96 | the characters `quote` leaves unquoted: letters, digits, `_` and `@%-+=:,./|` |
| Shlex.IsSafeWord | src/shlex.ts:96 | a word made only of such characters |
| Shlex.EscapeDoubleQuotes | src/shlex.ts:97 | the result is at least as long as the input and every double quote in it is preceded by a backslash |
| Shlex.Quote | src/shlex.ts:89-102 | the result is never empty; it equals the input exactly when the input is non-empty and made only of safe characters; otherwise it is at least two characters, starting and ending with a double quote |
| ShlexProperties.TotalLengthAppend | src/shlex.ts:74 | the total length of concatenated token lists is the sum of their total lengths |
| ShlexProperties.StepYields | src/shlex.ts:19-81 | a token is yielded only at a separator outside quotes and escapes and it is the pending token, after which none is pending; otherwise the old token is a prefix of the new one, at most two characters shorter |
| ShlexProperties.StepBounds | src/shlex.ts:18-82 | one iteration never leaves an empty token pending, never yields an empty token, and adds at most one character to yielded plus pending text |
| ShlexProperties.FeedBounds | src/shlex.ts:18-82 | over any input, no empty token is pending or yielded, and the yielded plus pending text grows by at most the input length |
| ShlexProperties.TokensBounds | src/shlex.ts:5-87 | no token of any input is empty, and the tokens together are no longer than the input |
| ShlexProperties.CountWithinLength | src/shlex.ts:74 | a list of non-empty tokens has no more entries than characters |
| ShlexProperties.TokensCount | src/shlex.ts:5-87 | `split` never yields more tokens than the input has characters |
| ShlexProperties.WordLength | src/shlex.ts:72 | the length of the longest whitespace-free prefix: every character before it is not whitespace, and it ends at the end or at whitespace |
| ShlexProperties.Words | src/shlex.ts:72-81 | the reference splitting on whitespace yields only non-empty whitespace-free words |
| ShlexProperties.WordLengthOf | src/shlex.ts:72 | a whitespace-free word followed by nothing or whitespace is exactly the longest whitespace-free prefix |
| ShlexProperties.WordsLead | src/shlex.ts:72-81 | such a word is the first word of the reference splitting, followed by the words of the rest |
| ShlexProperties.WordsAfter | src/shlex.ts:72-81 | how the reference words of pending token plus input change when the next character is whitespace or not |
| ShlexProperties.FeedPlainSpace | src/shlex.ts:72-78 | a whitespace character outside quotes and escapes yields the pending token and the rest splits from nothing |
| ShlexProperties.FeedPlainChar | src/shlex.ts:80-81 | any other plain character extends the pending token |
| ShlexProperties.FeedPlain | src/shlex.ts:18-86 | from a state outside quotes and escapes, input without quote or active escape characters yields exactly the reference words of the pending token followed by the input |
| ShlexProperties.TokensOfPlain | src/shlex.ts:5-87 | input without the dialect's quote and escape characters splits into exactly its maximal runs of non-whitespace (runs of whitespace collapse, no empty tokens) |
| ShlexProperties.FeedLiteral | src/shlex.ts:43-53 | characters that are neither escapes, nor the closing quote, nor (outside quotes) quotes or whitespace are appended to the token one by one and change nothing else |
| ShlexProperties.OpenQuote | src/shlex.ts:56-70 | a quote character at the start opens a quoted token holding that character; in the Windows dialect it also saves the empty escape set and activates the backslash |
| ShlexProperties.OpenQuoteAnywhere | src/shlex.ts:56-70 | from any reachable state outside quotes and escapes, even in the middle of a token, a quote character is appended and opens a quote; Windows saves the escape set and adds the backslash |
| ShlexProperties.QuoteMidToken | src/shlex.ts:56-81 | a quote after the start of a word continues that word: `x"a b` is the single token `x"a b` |
| ShlexProperties.CloseQuote | src/shlex.ts:43-53 | the open quote character closes the quote, is appended, and sets the escape characters to the saved ones or to none |
| ShlexProperties.ClosedQuote | src/shlex.ts:43-70 | a quoted run without backslashes and without its own quote character leaves one token holding the run with both quotes, and no escape character active in either dialect |
| ShlexProperties.QuotedToken | src/shlex.ts:43-86 | such a quoted run alone splits into one token that keeps both quote characters |
| ShlexProperties.UnterminatedQuote | src/shlex.ts:43-86 | a quote opening the input, followed by text with no backslash and no copy of that quote, is not an error: the whole input becomes one token including the opening quote (the general case is `UnterminatedQuoteAnywhere`) |
| ShlexProperties.StepQuoteInToken | src/shlex.ts:19-81 | while a quote is open the pending token holds that quote character, and one iteration keeps it so |
| ShlexProperties.FeedQuoteInToken | src/shlex.ts:18-82 | the same holds after any input |
| ShlexProperties.UnterminatedQuoteAnywhere | src/shlex.ts:43-86 | any input that ends inside a quote ends with a yielded token that is the pending one and holds the open quote character |
| ShlexProperties.BackslashLiteralAfterQuote | src/shlex.ts:46 | in the POSIX dialect a backslash after a closed quote is an ordinary character of the token |
| ShlexProperties.EscapedNewline | src/shlex.ts:20-30 | an escape character followed by a newline contributes nothing, not even the start of a token |
| ShlexProperties.EscapedChar | src/shlex.ts:20-39 | an escape character followed by any other character than a newline or the open quote appends that character alone |
| ShlexProperties.EscapedQuote | src/shlex.ts:25-27 | inside a quote, an escape character followed by the quote character keeps both characters and does not close the quote |
| ShlexProperties.TrailingEscape | src/shlex.ts:33-86 | an escape character at the very end of the input is dropped and changes no token |
| ShlexProperties.StepReachable | src/shlex.ts:19-81 | one iteration keeps the state in the reachable shapes described for `FeedReachable` |
| ShlexProperties.FeedReachable | src/shlex.ts:9-82 | every state the loop reaches keeps the escape set empty or a single backslash, a pending escape is a backslash, an open quote is a quote character of the dialect, and in the Windows dialect the backslash is active exactly while a quote is open |
| ShlexProperties.EscapeSetAfter | src/shlex.ts:10-65 | after any input an open quote is never an active escape character (so the check on line 34 never holds), and in the Windows dialect the backslash escapes exactly while a quote is open |
| ShlexProperties.PosixEscapeGone | src/shlex.ts:33-53 | in the POSIX dialect an empty escape set with no pending escape stays so over any further input |
| ShlexProperties.PosixEscapesEndAtClose | src/shlex.ts:43-49 | in the POSIX dialect, after the input closes an open quote, no escape character is active and none is pending for the rest of the input |
| ShlexProperties.BackslashLiteral | src/shlex.ts:33-81 | when the backslash is not an escape character a backslash is appended to the token like any letter, inside or outside quotes |
| ShlexProperties.UnescapeEscape | src/shlex.ts:97 | removing the backslash before each escaped double quote undoes the escaping |
| ShlexProperties.EscapeWithoutQuotes | src/shlex.ts:97 | a word without double quotes is left unchanged by the escaping |
| ShlexProperties.QuoteInverse | src/shlex.ts:89-102 | stripping the added quotes and unescaping recovers the original word from `quote`, for every word including the empty one |
| ShlexProperties.FeedEscapedHead | src/shlex.ts:20-53 | inside a double-quoted run with the backslash active, an escaped double quote or a plain character is appended as it stands |
| ShlexProperties.FeedEscapedQuotes | src/shlex.ts:20-53 | inside such a run the escaped form of a backslash-free word is appended unchanged, without closing the quote |
| ShlexProperties.SplitEscapedRun | src/shlex.ts:43-70 | a backslash-free word escaped and wrapped in double quotes splits, in either dialect, into one token equal to the wrapped text |
| ShlexProperties.SpecialsUnsafe | src/shlex.ts:96 | no separator, quote character or backslash is a safe character, so `quote` wraps any word holding one |
| ShlexProperties.SplitQuoteSafe | src/shlex.ts:96-101 | a non-empty word of safe characters splits back into itself |
| ShlexProperties.SplitQuote | src/shlex.ts:89-102 | for every backslash-free word, splitting `quote(w)` in either dialect gives exactly one token, `quote(w)` itself |
| ShlexProperties.SplitQuoteKeepsQuotes | src/shlex.ts:93-98 | the quotes added by `quote` survive splitting: `a b` comes back as `"a b"` and the empty word as `""` |
| ShlexProperties.WordsOfJoin | src/shlex.ts:72-81 | splitting non-empty whitespace-free words joined by single spaces gives the words back |
| ShlexProperties.PlainJoin | src/shlex.ts:9-13 | joining plain words with spaces keeps the text free of quote and escape characters |
| ShlexProperties.PlainWords | src/shlex.ts:9-13 | the words of a plain text are plain |
| ShlexProperties.ResplitJoined | src/shlex.ts:5-87 | for input without quote or escape characters, joining its tokens with spaces and splitting again gives the same tokens |
| ShlexProperties.ExampleWhitespace | src/shlex.ts:72-78 | `a   b` splits into `a` and `b` |
| ShlexProperties.ExampleWindowsBackslash | src/shlex.ts:10-13 | in the Windows dialect `a\b` is one token with its backslash |
| ShlexProperties.ExampleEmptyQuotes | src/shlex.ts:43-70 | `''` is the one token `''` in the POSIX dialect |
| ShlexProperties.ExampleWindowsEscapedQuote | src/shlex.ts:25-65 | in the Windows dialect `"a\"b"` is one token with the backslash kept |
| ShlexProperties.FeedWord | src/shlex.ts:80-81 | outside quotes and escapes, a run of ordinary characters extends the token (starting it when non-empty) and nothing else |
| ShlexProperties.BackslashSpaceBeforeQuote | src/shlex.ts:20-39 | in the POSIX dialect, before any quote, a backslash-escaped space joins two words into one token holding the space |
| ShlexProperties.BackslashSpaceAfterQuote | src/shlex.ts:43-78 | in the POSIX dialect, after a closed quote, the same backslash is kept and the space separates two tokens |

## Left out

- Platform default: when no options are given, the source picks the dialect from the running platform (`src/shlex.ts:6-8`, `src/shlex.ts:90-92`); here the dialect is always an explicit argument of `Split`.
- Laziness: the source is a generator that yields tokens on demand; `Split` returns the whole list, in the same order.
- The regular expressions `[\t \n\r\f]` and `[^\w@%\-+=:,./|]` are written out as the predicates `IsWhitespace` and `IsSafeChar`; characters are Dafny `char`s, not UTF-16 code units, which makes no difference since every special character is ASCII.
- `quote`'s option argument has no effect in the source and is not modelled.
- SplitQuote: covers words without backslashes only. A word containing backslashes can split differently: in the POSIX dialect the quoted form of `\"x y` is `"\\"x y"`, whose first backslash escapes the second, so the next `"` closes the quote and the space separates two tokens. No single-token promise is stated for such words.
