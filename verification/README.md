# Proofs about the stoa server's core

A Dafny model of the algorithms the stoa news and mail server relies on, and proofs of what they
promise. Each Dafny file models one source file, or states and proves what holds of it over all
inputs and all runs.

| part | files |
|---|---|
| hybrid logical clock, and networks of them | `Hlc.dfy`, `HlcNetwork.dfy` |
| Sieve form reader | `SieveGrammar.dfy`, `SieveFormReader.dfy`, `SieveLayouts.dfy`, `SieveFormTheorems.dfy` |
| Sieve tokenizer | `SieveLexical.dfy`, `SieveTokenizer.dfy`, `SieveLexTheorems.dfy`, `SieveLexRoundTrip.dfy` |
| articles, ingress validation, canonical bytes | `Article.dfy`, `Sorting.dfy`, `Canonical.dfy` |
| wildmat patterns and group filters | `Wildmat.dfy` |
| authentication-failure tracker | `AuthLimiter.dfy` |
| token-bucket rate limiter | `RateLimiter.dfy` |
| circuit breaker | `CircuitBreaker.dfy` |
| audit logger | `Audit.dfy`, `AuditTask.dfy` |
| RFC 2822 dates, NNTP dot-stuffing | `Calendar.dfy`, `DotStuffing.dfy` |
| shared vocabulary | `Prelude.dfy`, `Decimals.dfy` |

Code that works step by step is modelled by methods and classes with loops; each is proved equal
to a specification function, and the theorems are about those functions. Clocks are parameters
(`now`), one reading for each call. The database of the audit logger is a parameter that says which
of its steps fail. Header text is modelled by the bytes of its UTF-8 encoding.

`dafny verify dfyconfig.toml` checks the project.

## Main results

- **Clock.** A timestamp's wall time and counter form one 96-bit number. `send` and `receive` issue
  the first timestamp that is past the last one, past the observed one and not behind the reading.
  Over every run of any number of nodes, with physical clocks that may step back and peers that
  forge timestamps, every issued wall time is at least its reading, and none drifts past the readings
  by more than the skew, one, and the carries of the counter, however stale the checkpoints of
  restarts. If no restart falls behind, the issued timestamps are a total order that extends
  happens-before.
- **Sieve.** A source text compiles to a script exactly when it is a list of pieces (words, tags,
  numbers, strings, text blocks, blanks, comments), of which none runs into the next, and what the
  pieces mean is a layout of that script: its commands, with optional semicolons and trailing commas
  where the reader takes them. The readable scripts are exactly the well-formed ones. Whatever source
  a script was compiled from, it can be written out again and compiles to itself.
- **Canonical bytes.** Two accepted articles have equal bytes exactly when they are the same
  article up to the order of groups and extra headers. A reader that knows only the format recovers
  from the bytes the header names, values and body, groups and extra headers in ascending order.
- **Limits.** The tracker's heap is invisible; a lockout is signalled exactly at the threshold; with
  room for the addresses, each is counted on its own since its last success. The limiter's eviction
  is invisible; a request is allowed exactly when the budget of every interval that ends with it
  permits.
- **Protocols.** The breaker opens only on a streak of failures within one window. Once open it
  stays open and refuses every request until the probe interval has passed since the last failure,
  whatever successes are reported, and it is closed exactly when no failure has tripped it since the
  last success of a probe. No interleaving of callers, task and failing transactions loses an audit
  event without counting it; a received event is written or counted once the next tick has been
  served; shutdown always ends.
- **Algorithms.** The rolling two-row table decides the language of a pattern, and filters see no
  difference of case; the date arithmetic is the Gregorian calendar in both directions of time, and
  its printed form reads back; dot-stuffed text is delivered intact.

## Where the code and its documentation differ

The model follows the code.

- `shutdown` of the audit logger is documented to leave every accepted event written. A failing
  transaction loses its whole buffer: `Audit.AcceptedIsWrittenIff` says exactly when the promise
  holds, `Audit.ShutdownCanLose` gives a run where it does not.
- The circuit breaker's window is documented as sliding; it starts afresh when it expires
  (`CircuitBreaker.BurstOpensIff`, `CircuitBreaker.WindowDoesNotSlide`).
- crates/transit/src/main.rs promises that the first timestamp after a restart exceeds every earlier
  one, but saves its checkpoint every 30 seconds only (`HlcNetwork.RestartIsMonotoneIff`,
  `HlcNetwork.StaleCheckpointRegresses`).
- The tracker promises one lockout signal per window. Its counter has 32 bits, so a window with
  more than 2^32 failures signals again (`AuthLimiter.LockoutOncePerWindow`,
  `AuthLimiter.SignalsAgainAfterWrap`). Its window is documented as sliding too, and starts afresh
  when it expires (`AuthLimiter.BurstSignalsIff`, `AuthLimiter.WindowDoesNotSlide`).
- The rate limiter documents a hard cap on tracked addresses. Only idle ones are evicted, so the
  table has no bound (`RateLimiter.CapHoldsIff`, `RateLimiter.TableIsUnbounded`).
- The form reader promises an error when the input ends inside a statement. A statement that goes on
  after a block may stop anywhere (`SieveFormTheorems.MissingTerminatorReportedIff`,
  `SieveFormTheorems.DanglingElseAccepted`).
- A `text:` string loses its leading newlines, and a CR before a bare newline
  (`SieveLexTheorems.TextReadsBackIff`).
- A backslash before any other character than a quote or a backslash stays in the string; section
  2.4.2 of RFC 5228 drops it (`SieveLexTheorems.EscapesAgreeIff`,
  `SieveLexTheorems.UnknownEscapeKept`).
- The comment on group filters calls first-match the rule of RFC 3977, where section 4.2 lets the
  rightmost match win (`Wildmat.RulesAgreeIff`). It also says an exception must come second, where
  first-match makes it inert (`Wildmat.CommentedListDiffers`, `Wildmat.ExceptionAfterIsInert`,
  `Wildmat.ExceptionBeforeExempts`).

## Model

| member | source | states |
|---|---|---|
| `Hlc.OrderIsTicksThenNode` | crates/core/src/hlc.rs:5-14 | comparing fields in order is comparing the 96-bit number they form, then the node id |
| `Hlc.OrderIsStrictAndTotal` | crates/core/src/hlc.rs:9-14 | the derived order is a strict total order |
| `Hlc.HlcClock.constructor` | crates/core/src/hlc.rs:60-70 | a new clock stands at its physical reading |
| `Hlc.HlcClock.Seeded` | crates/core/src/hlc.rs:83-102 | a seeded clock stands at the later of checkpoint and reading |
| `Hlc.HlcClock.Bump` | crates/core/src/hlc.rs:120-127 | the overflow branches compute the successor of the 96-bit number, wrapping at its end |
| `Hlc.HlcClock.Send` | crates/core/src/hlc.rs:117-137 | the new timestamp is the larger of last plus one and the reading, modulo 2^96 |
| `Hlc.HlcClock.Receive` | crates/core/src/hlc.rs:147-197 | rejected exactly when the observed wall time exceeds the reading plus the skew, changing nothing; otherwise the largest of last plus one, observed plus one and the reading, modulo 2^96 |
| `Hlc.SendAdvancesUnlessExhausted` | crates/core/src/hlc.rs:111-137 | a send increases the timestamp exactly when wall and counter are not both at their maximum |
| `Hlc.SentIsFirst` | crates/core/src/hlc.rs:117-137 | unless wall and counter are both at their maximum, a send gives the first timestamp after the last one and not behind the reading |
| `Hlc.ReceivedIsFirst` | crates/core/src/hlc.rs:147-197 | a receive gives the first timestamp after the last one and the observed one and not behind the reading |
| `HlcNetwork.DriftIsBounded` | crates/core/src/hlc.rs:117-197 | after n steps no wall time exceeds max(start, readings + skew) + 1 + n / 2^32, whatever peers send and however stale the checkpoints of restarts |
| `HlcNetwork.TimestampsKeepUp` | crates/core/src/hlc.rs:117-197 | over every such run, no issued wall time is behind the reading it was issued at |
| `HlcNetwork.StepIssuesIff` | crates/core/src/hlc.rs:147-165 | a message whose wall time is at most 5000 ms past the reading is always answered by a new timestamp, any other by none |
| `HlcNetwork.SoundIsPlausible` | crates/core/src/hlc.rs:72-102 | the runs the ordering results are about are among those the drift bound is about |
| `HlcNetwork.TimestampsExtendCausality` | crates/core/src/hlc.rs:117-197 | over every run that fits 64 bits and whose restarts do not fall behind, happens-before implies a smaller timestamp and all timestamps are distinct |
| `HlcNetwork.LifetimeIsMonotone` | crates/core/src/hlc.rs:72-137 | the timestamps of one node increase across any number of restarts |
| `HlcNetwork.LatestCheckpointIsSound` | crates/core/src/hlc.rs:72-109 | a checkpoint of the last timestamp makes any restart sound |
| `HlcNetwork.RestartIsMonotoneIff` | crates/core/src/hlc.rs:72-102 | the first timestamp after a restart exceeds the last one issued, whatever the next reading, exactly when the checkpoint is that one or the start-up reading has reached it |
| `HlcNetwork.StaleCheckpointRegresses` | crates/transit/src/main.rs:872-891 | a stale checkpoint and a clock stepped back give a smaller timestamp than one already issued |
| `SieveFormReader.ReadStringList` | crates/sieve-native/src/form.rs:223-280 | the loop reads what the list grammar reads from the same tokens; which lists those are is part of `SieveLayouts.ReadsIff` |
| `SieveFormReader.ReadOne` | crates/sieve-native/src/form.rs:99-137 | one leaf or bracketed form, as the grammar reads it |
| `SieveFormReader.ReadStmt` | crates/sieve-native/src/form.rs:75-218 | one command, with the clauses it absorbs, as the grammar reads it |
| `SieveFormReader.AbsorbClauses` | crates/sieve-native/src/form.rs:138-193 | the nested loops read the elsif/else clauses that follow a block |
| `SieveFormReader.ReadTestList` | crates/sieve-native/src/form.rs:286-334 | a parenthesised test list, as the grammar reads it |
| `SieveFormReader.ReadTestStmt` | crates/sieve-native/src/form.rs:339-415 | one test, as the grammar reads it |
| `SieveFormReader.ReadBraced` | crates/sieve-native/src/form.rs:420-450 | a braced block, as the grammar reads it |
| `SieveFormReader.ReadTokens` | crates/sieve-native/src/form.rs:53-69 | the reader terminates on every token list with the grammar's script or its failure |
| `SieveLayouts.EntriesRead` | crates/sieve-native/src/form.rs:53-450 | every layout of statements, with stray semicolons, trailing commas and clauses after blocks, is read as those statements, whatever follows |
| `SieveLayouts.ScriptParse` | crates/sieve-native/src/form.rs:53-450 | every token list the reader accepts is such a layout |
| `SieveLayouts.ReadsIff` | crates/sieve-native/src/form.rs:53-450 | a token list is read as a script exactly when it is a layout of it |
| `SieveFormTheorems.ScriptFaithful` | crates/sieve-native/src/form.rs:53-450 | on success the leaves of the script are the word, tag, string and number tokens in order, and all brackets match |
| `SieveFormTheorems.ScriptReadWellFormed` | crates/sieve-native/src/form.rs:53-450 | every script read has no empty command, and blocks only where a clause follows or at the end |
| `SieveFormTheorems.ScriptReadBack` | crates/sieve-native/src/form.rs:53-450 | reading the printed tokens of a well-formed script gives that script |
| `SieveFormTheorems.ReadableIffWellFormed` | crates/sieve-native/src/form.rs:53-450 | a script can be read from some token list exactly when it is well formed |
| `SieveFormTheorems.MissingTerminatorReportedIff` | crates/sieve-native/src/form.rs:41-218 | after any well-formed statements, input that ends inside a statement is an error exactly when that statement has no block; otherwise it is taken as complete |
| `SieveFormTheorems.BlockEndsStatement` | crates/sieve-native/src/form.rs:41-42 | a statement that ends in a block is complete without a semicolon |
| `SieveFormTheorems.DanglingElseAccepted` | crates/sieve-native/src/form.rs:138-193 | a block and the word else at the end of the input give no error |
| `SieveTokenizer.ScanWhile` | crates/sieve-native/src/lexer.rs:181-183 | the collecting loop takes the longest run of characters of its class |
| `SieveTokenizer.SkipLineComment` | crates/sieve-native/src/lexer.rs:77-84 | a line comment ends before the newline |
| `SieveTokenizer.SkipBlockComment` | crates/sieve-native/src/lexer.rs:86-121 | a block comment ends at its first closing mark, or is an error |
| `SieveTokenizer.ReadTag` | crates/sieve-native/src/lexer.rs:168-186 | a colon and an identifier, or an error |
| `SieveTokenizer.ReadNumber` | crates/sieve-native/src/lexer.rs:188-221 | digits and a unit, within 64 bits, or an error |
| `SieveLexRoundTrip.ScaledIs` | crates/sieve-native/src/lexer.rs:199-213 | K, M and G in either case multiply by 1024, 1024 squared and 1024 cubed |
| `SieveTokenizer.ReadLines` | crates/sieve-native/src/lexer.rs:247-283 | the lines of a text block, unstuffed, up to the lone dot |
| `SieveTokenizer.ReadTextBlock` | crates/sieve-native/src/lexer.rs:230-286 | a text block needs a newline right after its header |
| `SieveTokenizer.ReadWord` | crates/sieve-native/src/lexer.rs:223-289 | an identifier, or the text block it introduces |
| `SieveTokenizer.ReadQuoted` | crates/sieve-native/src/lexer.rs:291-345 | the quoted-string loop resolves exactly the two escapes |
| `SieveTokenizer.ReadToken` | crates/sieve-native/src/lexer.rs:123-347 | the dispatch on the first character of a token |
| `SieveTokenizer.ReadOne` | crates/sieve-native/src/lexer.rs:65-348 | one round of the main loop: a token, a blank, or an error |
| `SieveTokenizer.Tokenize` | crates/sieve-native/src/lexer.rs:33-351 | the loop terminates on every text with the token list the lexical rules define |
| `SieveLexTheorems.QuoteReadsBack` | crates/sieve-native/src/lexer.rs:296-343 | every string, escaped, reads back as itself |
| `SieveLexTheorems.QuoteReads` | crates/sieve-native/src/lexer.rs:296-343 | every list of plain and backslashed characters is read up to the closing quote, as what it means |
| `SieveLexTheorems.QuoteParses` | crates/sieve-native/src/lexer.rs:296-343 | every string the loop accepts is such a list |
| `SieveLexTheorems.EscapesAgreeIff` | crates/sieve-native/src/lexer.rs:310-336 | a terminated string is read as section 2.4.2 of RFC 5228 reads it exactly when each of its backslashes precedes a quote or a backslash |
| `SieveLexTheorems.UnknownEscapeKept` | crates/sieve-native/src/lexer.rs:328-334 | the two readings of a backslash and an a |
| `SieveLexTheorems.TextReadsBackIff` | crates/sieve-native/src/lexer.rs:230-286 | a dot-stuffed text block reads back exactly when the string does not start with a newline and, with bare newlines, no line ends in CR |
| `SieveLexTheorems.TextCollects` | crates/sieve-native/src/lexer.rs:247-283 | a text block gives its lines, bare and joined from the first that is not empty, whatever its line endings and also when its dot ends the source |
| `SieveLexTheorems.TextParses` | crates/sieve-native/src/lexer.rs:247-283 | every text block the loop accepts is such a list of lines |
| `SieveLexTheorems.BareIs` | crates/sieve-native/src/lexer.rs:267-278 | a line of a text block loses its CR, and the first of two leading dots, and nothing else |
| `SieveLexRoundTrip.PieceLexes` | crates/sieve-native/src/lexer.rs:65-348 | one round of the main loop reads any piece that what follows cannot continue, as what it means, and stops at its end |
| `SieveLexRoundTrip.PieceRead` | crates/sieve-native/src/lexer.rs:65-348 | whatever one round reads is such a piece |
| `SieveLexRoundTrip.RenderingTokenizes` | crates/sieve-native/src/lexer.rs:33-351 | every rendering of a token list tokenizes to that list |
| `SieveLexRoundTrip.AcceptedIsRendering` | crates/sieve-native/src/lexer.rs:33-351 | every accepted text is a rendering of the tokens it gives |
| `SieveLexRoundTrip.TokenizesIff` | crates/sieve-native/src/lexer.rs:33-351 | a text gives a token list exactly when it is a rendering of it |
| `SieveLexRoundTrip.LexableIffSpellable` | crates/sieve-native/src/lexer.rs:33-351 | a token list comes out of the lexer exactly when its words and tags are identifiers |
| `SieveLexRoundTrip.CompilesIff` | crates/sieve-native/src/lib.rs:99-100 | a text compiles to a script exactly when it is a rendering of a layout of that script |
| `SieveLexRoundTrip.PrettyCompiles` | crates/sieve-native/src/lib.rs:99-100 | a well-formed script written out as text compiles to itself |
| `SieveLexRoundTrip.CompiledScriptsAreWritable` | crates/sieve-native/src/lib.rs:99-100 | every compiled script can be written out again, and its text compiles to the same script |
| `Decimals.NumeralOfDecimal` | crates/sieve-native/src/lexer.rs:190-198 | every number reads back from its decimal digits |
| `Wildmat.WildmatMatch` | crates/core/src/wildmat.rs:35-63 | two rolling rows decide whether the text splits into pieces the pattern bytes stand for |
| `Wildmat.CellDecides` | crates/core/src/wildmat.rs:18-34 | a table cell decides the match of a prefix against a prefix |
| `Wildmat.LiteralMatchesItself` | crates/core/src/wildmat.rs:10-12 | a pattern without wildcards matches itself only |
| `Wildmat.MatchesWildmat` | crates/core/src/wildmat.rs:6-16 | both shortcuts agree with the language of the folded pattern on the folded name; that folding is blind to case and to nothing else is `Wildmat.LiteralMatchesIff` |
| `Wildmat.MatchesPrefolded` | crates/core/src/wildmat.rs:67-78 | agrees with the language of the pattern as stored on the folded name |
| `Wildmat.LiteralMatchesIff` | crates/core/src/wildmat.rs:6-16 | without wildcards, name and pattern match exactly when they differ in the case of ASCII letters only |
| `Wildmat.ParsedPatterns` | crates/core/src/wildmat.rs:131-156 | a parsed pattern is folded, not empty, and reads back from what it prints as |
| `Wildmat.ParsesIff` | crates/core/src/wildmat.rs:131-156 | a pattern is accepted exactly when, after any bang, it is not empty, is made of letters, digits, plus, minus, underscore, dot, star and question mark, and has no two dots in a row; otherwise which of the three errors; its stored form differs in case only |
| `Wildmat.ParseIgnoresCase` | crates/core/src/wildmat.rs:131-156 | patterns that differ in case parse alike |
| `Wildmat.ParseAll` | crates/core/src/wildmat.rs:187-191 | all entries parsed in order, or the error of the first that does not parse |
| `Wildmat.NewFilter` | crates/core/src/wildmat.rs:186-199 | built exactly from patterns that all parse and are not all negated; otherwise the first parse error, or which of the two list errors |
| `Wildmat.Accepts` | crates/core/src/wildmat.rs:223-233 | a nonempty name is accepted exactly when the first pattern that matches it, folded, is not negated |
| `Wildmat.FilterIgnoresCase` | crates/core/src/wildmat.rs:223-233 | names that differ in case are decided alike by every filter |
| `Wildmat.LiteralFilterIff` | crates/core/src/wildmat.rs:223-233 | a filter of one plain name accepts exactly that name, in any case |
| `Wildmat.AllNegationAcceptsNothing` | crates/core/src/wildmat.rs:177-185 | a list of negations accepts no name |
| `Wildmat.ExceptionAfterIsInert` | crates/core/src/wildmat.rs:215-222 | a negated pattern listed last changes no decision |
| `Wildmat.ExceptionBeforeExempts` | crates/core/src/wildmat.rs:223-233 | listed first, it exempts exactly the names it matches |
| `Wildmat.RulesAgreeIff` | crates/core/src/wildmat.rs:215-233 | first-match and the rightmost rule of section 4.2 of RFC 3977 decide a name alike exactly when it is empty, nothing matches it, or the first and last match have the same sign |
| `Wildmat.ExceptionSecondDiffers` | crates/core/src/wildmat.rs:217-222 | for every stem and rest, the list stem-star, not stem-rest: the code accepts stem-rest, the standard rejects it |
| `Wildmat.CommentedListDiffers` | crates/core/src/wildmat.rs:217-222 | so for the list of the comment, parsed, and the name comp.binaries |
| `Article.GroupNameShape` | crates/core/src/article.rs:75-101 | a group name is valid exactly when it is a dotted list of components: a letter, then letters, digits, minus, plus and underscore |
| `Article.GroupNameBytes` | crates/core/src/article.rs:79-101 | a group name is not empty and holds dots and component bytes only, so no comma and no CR |
| `Article.MessageIdShape` | crates/core/src/validation.rs:62-106 | a message id is valid exactly when it reads `<local@domain>`, both parts not empty and without blanks, controls, DEL, angle brackets and another at-sign |
| `Article.ValidateIngress` | crates/core/src/validation.rs:159-297 | returns the first failing check, or none |
| `Article.AcceptedIff` | crates/core/src/validation.rs:149-158 | an article is accepted exactly when every header has 1 to 998 bytes without NUL, CR and LF, the message id has its shape, there are 1 to 100 groups, one of them allowed, the extra headers are within their limits, and the body is |
| `Article.ReportedIff` | crates/core/src/validation.rs:159-297 | when each error that has one cause is reported: its own condition fails and all checked before it hold |
| `Article.AcceptedIsFramed` | crates/core/src/validation.rs:180-284 | no header of an accepted article can break the canonical framing |
| `Sorting.SortEqualIff` | crates/core/src/canonical.rs:36-46 | two lists sort to the same list exactly when they are equal as multisets |
| `Prelude.LexLessIff` | crates/core/src/canonical.rs:36-46 | one byte string is below another exactly when it is a proper prefix or smaller at the first difference |
| `Canonical.PushHeader` | crates/core/src/canonical.rs:161-166 | appends one framed header line |
| `Canonical.PushExtras` | crates/core/src/canonical.rs:81-83 | the loop appends one line for each extra header |
| `Canonical.CanonicalBytes` | crates/core/src/canonical.rs:56-92 | the buffer holds the canonical form |
| `Canonical.CanonicalIsInjective` | crates/core/src/canonical.rs:56-92 | two accepted articles have equal bytes exactly when they differ in the order of groups and extra headers only |
| `Canonical.CanonicalReads` | crates/core/src/canonical.rs:7-92 | a reader of the format recovers from the bytes of an accepted article the six headers by name and in order, the groups ascending between commas, the extra headers ascending by name and value, and the body |
| `Canonical.LogEntryCanonicalBytes` | crates/core/src/canonical.rs:103-117 | the buffer holds the bytes to sign |
| `Canonical.LogEntryIdBytes` | crates/core/src/canonical.rs:143-159 | the buffer holds the bytes an id is derived from |
| `Canonical.SignedBytesRead` | crates/core/src/canonical.rs:103-117 | the bytes to sign are the timestamp in eight bytes, most significant first, the article, and the parents ascending |
| `Canonical.EntryIdBytesRead` | crates/core/src/canonical.rs:143-159 | the id bytes are the same with the signature before the parents |
| `Canonical.SignedBytesInjective` | crates/core/src/canonical.rs:94-117 | with CIDs of one length, signed bytes are equal exactly when timestamp, article and multiset of parents are |
| `Canonical.EntryIdBytesInjective` | crates/core/src/canonical.rs:119-159 | with signatures of one length too, id bytes are equal exactly when the signature also is |
| `Canonical.EntryIdNeedsFixedSignatures` | crates/core/src/canonical.rs:143-159 | with signatures of different lengths two entries share their id bytes |
| `AuthLimiter.AuthFailureTracker.constructor` | crates/reader/src/auth_limiter.rs:48-56 | a new tracker is empty |
| `AuthLimiter.AuthFailureTracker.EvictOldest` | crates/reader/src/auth_limiter.rs:80-96 | the pop loop removes exactly the live entry with the oldest window: none that stays has started earlier; every live entry keeps its record in the heap |
| `AuthLimiter.AuthFailureTracker.RecordFailure` | crates/reader/src/auth_limiter.rs:63-102 | the table changes as a tracker without a heap changes it; signals exactly at the threshold |
| `AuthLimiter.AuthFailureTracker.RecordSuccess` | crates/reader/src/auth_limiter.rs:105-109 | forgets the address and nothing else, leaving stale records harmless |
| `AuthLimiter.TableStaysBounded` | crates/reader/src/auth_limiter.rs:8-11 | over every run the table holds at most max(max_entries, 1) addresses |
| `AuthLimiter.EvictedIff` | crates/reader/src/auth_limiter.rs:78-102 | a failure evicts an address exactly when the failing one is new to a full table and that one has the oldest window (of equal ones the smallest address); the others keep their entries |
| `AuthLimiter.RoomIsMade` | crates/reader/src/auth_limiter.rs:78-102 | an address is evicted whenever a new one meets a full table that is not empty |
| `AuthLimiter.TrackedSinceSuccess` | crates/reader/src/auth_limiter.rs:58-109 | over every run with no more addresses than the table holds, an address is tracked exactly when it failed since its last success, and its entry is the number of those failures in the last window, modulo 2^32, and when that started |
| `AuthLimiter.LockoutOncePerWindow` | crates/reader/src/auth_limiter.rs:58-63 | in every run, two signals in one window are at least 2^32 failures apart |
| `AuthLimiter.LockoutAtThreshold` | crates/reader/src/auth_limiter.rs:58-75 | in every run, every failure signals exactly when its position in its window is the threshold modulo 2^32 |
| `AuthLimiter.SignalsAgainAfterWrap` | crates/reader/src/auth_limiter.rs:58-75 | of n failures at one instant, all in one window, the i-th signals exactly when i is the threshold modulo 2^32, so again at threshold plus 2^32 |
| `AuthLimiter.BurstSignalsIff` | crates/reader/src/auth_limiter.rs:63-102 | failures of one address within one window length, tracked or not, signal exactly when the counter passes the threshold among those in the running window or among those after it |
| `AuthLimiter.ShortBurstSignalsIff` | crates/reader/src/auth_limiter.rs:63-102 | short of 2^32, these are two intervals for the threshold |
| `AuthLimiter.WindowDoesNotSlide` | crates/reader/src/auth_limiter.rs:38-39 | three failures within three ticks miss a threshold of three |
| `RateLimiter.RateLimiter.constructor` | crates/core/src/rate_limiter.rs:41-51 | a new limiter has no buckets |
| `RateLimiter.RateLimiter.CheckAndConsume` | crates/core/src/rate_limiter.rs:59-96 | allowed exactly when there is no limit or the refilled credit is at least one; the new buckets, after any sweep |
| `RateLimiter.SweepKeepsCredit` | crates/core/src/rate_limiter.rs:86-93 | dropping a bucket idle for an hour changes nobody's credit |
| `RateLimiter.EvictionIsUnobservable` | crates/core/src/rate_limiter.rs:71-93 | over every run the answers are those of a limiter that never evicts |
| `RateLimiter.GrantsStayWithinBudget` | crates/core/src/rate_limiter.rs:59-96 | over every run, an address is allowed at most rpm + t * rpm / 60 requests in t seconds |
| `RateLimiter.AllowedIffAffordable` | crates/core/src/rate_limiter.rs:59-96 | after every run, a request is allowed exactly when granting it keeps every interval within that budget |
| `RateLimiter.CapHoldsIff` | crates/core/src/rate_limiter.rs:86-93 | the table is within its cap after a call exactly when the caller fits into it, or beside the other addresses of the last hour |
| `RateLimiter.RememberedIff` | crates/core/src/rate_limiter.rs:86-93 | over every run, addresses of the last hour are remembered, with the time of their last call, and after every 1024th call or with more than 65536 entries no others are |
| `RateLimiter.ForgottenIff` | crates/core/src/rate_limiter.rs:86-93 | a call forgets an address exactly when it is not the caller, was last seen more than 3600 seconds ago, and the call is a 1024th or finds more than 65536 addresses |
| `RateLimiter.ZeroIsUnlimited` | crates/core/src/rate_limiter.rs:53-62 | with a limit of zero every request of every run is allowed and nothing is kept |
| `RateLimiter.TableIsUnbounded` | crates/core/src/rate_limiter.rs:15-18 | for every n, n addresses within the hour leave n buckets |
| `CircuitBreaker.CircuitBreaker.constructor` | crates/core/src/circuit_breaker.rs:83-94 | starts closed |
| `CircuitBreaker.CircuitBreaker.AllowRequest` | crates/core/src/circuit_breaker.rs:117-136 | the answer, and the step to half-open |
| `CircuitBreaker.CircuitBreaker.RecordSuccess` | crates/core/src/circuit_breaker.rs:139-155 | the new state; the count stays below the limit |
| `CircuitBreaker.CircuitBreaker.RecordFailure` | crates/core/src/circuit_breaker.rs:159-195 | the new state; the count never overflows |
| `CircuitBreaker.OpeningNeedsAStreak` | crates/core/src/circuit_breaker.rs:157-195 | in every timed trace, opening completes max(threshold, 1) consecutive failures within one window |
| `CircuitBreaker.AllowedIffProbeElapsed` | crates/core/src/circuit_breaker.rs:112-195 | after every timed trace, a request is allowed exactly when no failure has tripped the breaker since the last recovery, or the probe interval has passed since the last failure; tripped and recovery are conditions on the trace |
| `CircuitBreaker.RunTold` | crates/core/src/circuit_breaker.rs:117-195 | after every timed trace, the state and the count are those the trace tells |
| `CircuitBreaker.RefusedUntilProbe` | crates/core/src/circuit_breaker.rs:112-173 | once open, the breaker stays open and refuses every request until the probe interval has passed since the last failure, whatever is reported |
| `CircuitBreaker.BurstOpensIff` | crates/core/src/circuit_breaker.rs:45-52 | a burst within one window length opens the breaker exactly when its part in the running window, or its part after it, reaches the limit |
| `CircuitBreaker.WindowDoesNotSlide` | crates/core/src/circuit_breaker.rs:45-52 | three failures in two ticks with threshold three leave the breaker closed |
| `Audit.EventsAreConserved` | crates/core/src/audit.rs:365-470 | in every interleaving each logged event is in exactly one of channel, buffer, rows and dropped, rows in order; channel and buffer stay bounded |
| `Audit.StoppedAccounts` | crates/core/src/audit.rs:385-390 | once the task has ended, logged is written plus counted as dropped |
| `Audit.AcceptedIsWrittenIff` | crates/core/src/audit.rs:215-223 | every accepted event is written at shutdown exactly when no transaction step failed |
| `Audit.ShutdownCanLose` | crates/core/src/audit.rs:215-223 | a run where an accepted event is lost |
| `Audit.ShutdownEnds` | crates/core/src/audit.rs:215-223 | after any run that closed the channel the task takes boundedly many steps, and can take none exactly when it has ended, however callers and failures interleave |
| `Audit.TaskStepProgresses` | crates/core/src/audit.rs:365-400 | after shutdown every step of the task brings it closer to its end |
| `Audit.TaskNeverStuck` | crates/core/src/audit.rs:365-400 | until it has ended the task can take a step, whatever the database answers |
| `Audit.ResolvedAfterTick` | crates/core/src/audit.rs:375-398 | in every interleaving, an event received before a tick is in the table, or lost and counted, once that tick has been served |
| `Audit.RefusedIff` | crates/core/src/audit.rs:182-213 | an event enters the channel exactly when the logger is open and fewer than 1000 wait; otherwise it is counted as dropped |
| `AuditTask.AuditLogger.constructor` | crates/core/src/audit.rs:355-363 | starts empty and open |
| `AuditTask.AuditLogger.LogEvent` | crates/core/src/audit.rs:182-213 | the caller's step: appended to the channel below 1000 while open, otherwise dropped and counted |
| `AuditTask.AuditLogger.FlushBuffer` | crates/core/src/audit.rs:402-470 | the chunk loop takes exactly the steps of the transaction; the buffer is empty after it, written if the database went along, counted if not |
| `AuditTask.FlushIsAllOrNothing` | crates/core/src/audit.rs:402-470 | a flush writes the whole buffer in order, exactly when begin, every chunk and commit succeed, or loses and counts all of it |
| `AuditTask.AuditLogger.OnReceive` | crates/core/src/audit.rs:377-392 | one round of the receive arm: the next event moves to the buffer, which is flushed when it reaches the batch size; stops exactly on a closed and empty channel |
| `AuditTask.AuditLogger.OnTick` | crates/core/src/audit.rs:393-397 | one round of the timer arm: the buffer is empty after it, written if the database went along, counted if not |
| `AuditTask.ReceiveRound` | crates/core/src/audit.rs:377-384 | with a database that goes along, a round of the receive arm loses and reorders nothing, and leaves less than a batch |
| `AuditTask.TickRound` | crates/core/src/audit.rs:393-397 | a round of the timer arm leaves no buffer: written in order, or counted |
| `AuditTask.DrainWritesEverything` | crates/core/src/audit.rs:375-400 | with such a database, one receive for each waiting event and a tick write all that was buffered and waiting, in order |
| `Calendar.CivilIsTheCalendar` | crates/core/src/util.rs:23-33 | day 0 is 1 January 1970, each day is followed by the calendar's next, every date is valid |
| `Calendar.DayNumberOfCivil` | crates/core/src/util.rs:23-33 | the date of a day is that many days from the epoch, counted by year and month lengths |
| `Calendar.FieldsRecoverSeconds` | crates/core/src/util.rs:14-33 | date and time fields are in range and recover the second count; the weekday is the day count modulo 7 |
| `Calendar.WeekdayAdvances` | crates/core/src/util.rs:20-21 | the weekday of the next day is the next one |
| `Calendar.DateAdvances` | crates/core/src/util.rs:14-33 | 86400 seconds later the date is the calendar's next, and the weekday that of the next day |
| `Calendar.Rfc2822Injective` | crates/core/src/util.rs:8-45 | the printed date determines the second |
| `Calendar.Rfc2822Reads` | crates/core/src/util.rs:35-44 | a reader that knows the names of days and months recovers weekday, date and time from the printed date |
| `Calendar.IntermediatesFit` | crates/core/src/util.rs:14-33 | for every 64-bit second count every value the algorithm computes is within 64 bits, and within the stated range |
| `DotStuffing.EmitLine` | crates/core/src/util.rs:136-141 | one line, stuffed and ended by CRLF |
| `DotStuffing.EndLine` | crates/core/src/util.rs:128-143 | the slice is in range, and emitting it keeps the output a prefix of the whole |
| `DotStuffing.NntpDotStuff` | crates/core/src/util.rs:123-156 | the output is the input's lines, stuffed, each ended by CRLF |
| `DotStuffing.StuffedTextIsDelivered` | crates/core/src/util.rs:112-123 | whatever follows on the connection, a receiver recovers exactly the lines and stops at the terminating dot |
| `DotStuffing.LinesOfUnlines` | crates/core/src/util.rs:115-118 | splitting into lines undoes joining them with CRLF |
| `DotStuffing.LinesIff` | crates/core/src/util.rs:112-156 | which lines a text has: exactly those it is written from with LF or CRLF after each, the last one optionally with neither |

## Left out

- Hlc.HlcClock.Bump: models the wrap-around of an optimised build at the end of the 96-bit counter; a build with overflow checks panics there instead.
- RateLimiter.RateLimiter.CheckAndConsume: tokens and times are reals, so rounding of f64 is not modelled, nor the underflow of `now - IDLE_TTL` on a clock younger than an hour.
- AuthLimiter.AuthFailureTracker.EvictOldest: the binary heap is the multiset of its records; its array layout and the order of equal records are not modelled.
- Canonical.CanonicalBytes: `sort_unstable` is modelled by a sort on values; a total order leaves no other result.
- CircuitBreaker.CircuitBreaker.RecordFailure: one clock reading for each call, where the source may read the clock up to three times under its lock.
- AuditTask.AuditLogger.FlushBuffer: a failed commit is taken to have written nothing; the SQL itself is not modelled.
- SieveLexRoundTrip.PrettyCompiles: compiling stops at the parsed script; the UTF-8 check before it and the check of `require` extensions after it are not modelled.
- AuthLimiter.AuthFailureTracker.RecordFailure: models the wrap-around of an optimised build at 2^32; a build with overflow checks panics there.
- Article.ValidateIngress: errors carry the missing field, lengths and counts, but not the reasons, limits and names the other errors display.
- The Merkle-CRDT group log, its reconciliation and its storage.
- Error texts, line and column reporting, callbacks, tracing and metrics.
- Accessors that return one field (`last_timestamp`, `failure_count`, `tracked_count`, `rpm`, `state`).
- The JSONL audit backend, reading back audit rows, and the contents of audit events.
- `split_headers_body` and the loopback checks of util.rs.
- Sieve evaluation: the meaning of commands and tests.
- Block stores, SQL stores and migrations, signing, certificates and TLS, the SMTP, JMAP, IMAP and NNTP daemons, duplicate checks, configuration and the command line.
