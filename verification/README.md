# catter: verification model

catter intercepts the commands of a build. A hook inside every process replaces what the process would execute by
a proxy; the proxy parses its command line, asks a server over a pipe what to do with the command, and runs it.
Scripts read files through a small text reader. This project models the parts of catter whose behaviour is
decided by its own code, and proves what they are for:

- **Command lines** (`OptOrder`, `OptInfo`, `OptAccept`, `OptParse`, `OptLoop`, `OptFastRun`, `OptGrouped`,
  `OptGroupedRun`, `OptTable`, `OptRender`, `OptExamples`). The option table's parser: the order of names, the binary
  search that starts a scan, ten classes of options, aliases, `--`, grouped short options that rewrite the words in
  place, and the renderer. The recursive functions say what a run delivers; the class `OptTable.OptTable` and the
  loops beside it are the program's own and are proved equal to them.
- **Windows** (`WinCommandLine`, `WinEnvBlock`, `NulStrings`). Quoting a command line and reading it back by the
  rules that Microsoft documents under "Parsing C command-line arguments", and adding the command id to an
  environment block.
- **The protocol** (`Serde`, `SerdeStream`, `UvRead`, `Rpc`, `RpcSession`, `RpcProgress`, `RpcConversation`). The byte
  format, a coroutine's read driven by libuv's two callbacks, the two ends of a connection, and a state machine of one
  server and any number of proxies in which every step is one write, one callback or one handled request.
- **The hook's command builder and path search** (`PayloadArray`, `CmdBuilder`, `PathSearch`). They may not
  allocate: strings lie in one fixed array and are pointed at by offsets.
- **The text reader** (`OpenFiles`, `TextReader`). Block reads that seek back behind a delimiter.
- **Tasks** (`LazyTask`). A coroutine whose handles are closed behind it before whoever awaits it goes on.

Several properties that the code is meant to have hold only under a condition. Where the condition can be checked
by a caller it is proved to be the exact one, with an input that fails:

- The fast mode of the option table needs names that trimming does not move past their own place
  (`OptParse.BinaryStartExact`, `OptParse.FastModeExact`, `OptFastRun.FastRunExact`); the program's own option `--exec`
  has the name `-exec` and would be missed (`OptExamples.FastModeMissesExec`).
- An empty word behind an option that wants one is reported as a missing value, and an assert fails unless it is
  the last word (`OptLoop.AssertsExact`, `OptExamples.EmptyValueBreaksAssert`).
- In a table of short flags a grouped word equals its letters as separate words if and only if the last names an
  option and none that does stands before an `=`; an unknown last letter yields an input `-`
  (`OptGrouped.GroupedEqualsSeparate`).
- In such a table a word makes up a `--` that closes option parsing if and only if it starts and ends in a dash, has
  no other in between and no option before an `=` (`OptGrouped.GroupedClosesExactly`); `-c-` does
  (`OptGrouped.TrailingDashClosesOptions`).
- Grouped mode ends in an exception on some command line if and only if some word of one character is neither an
  input nor an option (`OptGrouped.NeverThrowsExactly`).
- Rendering drops the second value of a JoinedAndSeparate argument (`OptRender.RenderRoundTrip`).
- Empty arguments vanish from a Windows command line, and a program name with a quote, or with a blank and a
  closing backslash, arrives changed (`WinCommandLine.CmdlineExact`, `WinCommandLine.UnsafeProgram`).
- A read of no bytes never succeeds on a libuv stream, so a message with an empty string is never handled and its
  sender gets no reply (`Serde.RequestBack`, `RpcProgress.ReplyExactly`, `RpcProgress.EmptyEntryBlocks`).
- Lines written with a newline behind each are read back if and only if none ends in a return; with a return and a
  newline they always are (`TextReader.LinesReadBack`).
- A task that several coroutines wait for resumes only the last of them: all go on if and only if at most one came
  before the last close (`LazyTask.NobodyIsForgottenExactly`).

The comments in `api/src/io.ts` call `close` safe to call twice, and beside it say that it throws for a closed
file; the code throws, and `TextReader.FileStream.Close` follows the code.

## Model

| member | source | states |
|---|---|---|
| OptOrder.CompareInsensitiveLoop | src/common/option/opt_table.cc:48-63 | the comparison loop is the lexicographic comparison of the folded characters, as signed chars, shorter first |
| OptOrder.FoldsCapitals | src/common/option/opt_table.cc:32-34 | folding takes `A` to `Z` to `a` to `z` and leaves every other character |
| OptOrder.RankIsSigned | src/common/option/opt_table.cc:48-63 | folded bytes compare as signed characters |
| OptOrder.StrCmpIsLex | src/common/option/opt_table.cc:65-83 | the name comparator is lexicographic order, ignoring case, with the end of the string as the greatest letter |
| OptOrder.TotalPreorder | src/common/option/opt_table.cc:71-83 | it is a total preorder and its ties are the names that differ in case only |
| OptOrder.TotalOrderWithFallback | src/common/option/opt_table.cc:77-79 | with the case fallback only equal names tie, it is a total order, and names that differ in case only are ordered by their bytes, as unsigned |
| OptOrder.PrefixNotLess | src/common/option/opt_table.cc:67-68 | a name is never less than a text that starts with it, ignoring case |
| OptOrder.LongerPrefixFirst | src/common/option/opt_table.cc:67-68 | of two ordered names that both start one text the first is at least as long |
| OptOrder.LowerBoundSearch | src/common/option/opt_table.cc:318-320 | halving finds the first entry that is not less than the word |
| OptAccept.CommaParts | src/common/option/option.cc:132-137 | the loop over comma-separated parts gives the pieces between commas that are not empty |
| OptAccept.AcceptInternalInPlace | src/common/option/option.cc:98-249 | the ten cases, with the position they move, are the function the results are about |
| OptAccept.AcceptOutcomes | src/common/option/option.cc:98-249 | exactly when a class refuses a word and exactly when a value is missing; otherwise the argument stands for exactly the words passed over |
| OptAccept.CoversDeterminesValues | src/common/option/option.cc:98-249 | spelling and words determine the values: no two readings of the same words |
| OptAccept.MissingReachesEnd | src/common/option/option.cc:147-150 | a missing value leaves the position short of the end only at an empty word that is not the last |
| OptAccept.AcceptInPlace | src/common/option/option.cc:251-311 | accepting, in both modes, with the alias added to what was accepted |
| OptAccept.AliasArgs | src/common/option/option.cc:296-303 | the pointer walk over NUL-closed alias arguments gives the strings that lie there |
| OptAccept.AliasMeaning | src/common/option/parsed_arg.h:124-139 | an alias names the entry whose number it carries, and what is no alias stays as it is; only a flag alias adds values: exactly the strings laid in the table's alias arguments, or one empty string for a joined target |
| OptParse.MatchMeans | src/common/option/opt_table.cc:152-166 | a match is one of the prefixes with the name behind it; no match of a named option means that there is none |
| OptParse.LTrimMeans | src/common/option/opt_table.cc:22-30 | trimming drops prefix characters and stops at the first other one |
| OptParse.ParseOneOutcome | src/common/option/opt_table.cc:297-378 | one step emits an argument for exactly the words it moves over, or misses a value |
| OptParse.FirstTakerIsParsed | src/common/option/opt_table.cc:330-359 | the argument is of the first option in scan order that takes the word, under the spelling it matched and the number of its alias target |
| OptParse.WordIsReadAs | src/common/option/opt_table.cc:297-378 | a word that no known prefix opens, and a lone `-`, is an input as it stands; otherwise the first option that matches it, is not excluded and does not refuse it has it; otherwise it is an input if it starts with a slash, and unknown |
| OptParse.BinaryStartExact | src/common/option/opt_table.cc:315-336 | in a sorted table the binary search passes over no matching option, for all words, if and only if no name is moved past its own place by trimming |
| OptParse.CleanStaysPut | src/common/option/opt_table.cc:22-30 | names that do not start with a prefix character, in either case, meet that condition |
| OptParse.FastEqualsLinear | src/common/option/opt_table.cc:315-359 | under it the fast mode returns the argument and the position of the full scan, for every command line and every filter |
| OptParse.UnstableNameDiffers | src/common/option/opt_table.cc:315-359 | for a name that fails it there is a command line, read without a filter, on which the full scan delivers an option and the fast mode another or none |
| OptParse.FastModeExact | src/common/option/opt_table.cc:297-378 | the two modes agree at every word of every command line if and only if every name stays in its place |
| OptParse.MaximalMunch | src/common/option/opt_table.cc:322-325 | of two options that match a word the earlier has the longer name |
| OptLoop.ParseTiles | src/common/option/opt_table.cc:423-483 | on every command line the emitted arguments tile the words in order, with nothing but empty words left out, up to the end, the `--` or the option that misses its value |
| OptLoop.TilesWithoutGaps | src/common/option/opt_table.cc:434-440 | without empty words there is no gap between one argument and the next |
| OptLoop.AssertsExact | src/common/option/opt_table.cc:470-476 | the loop's asserts fail exactly when the loop comes to a word that reads as an option wanting the next word, which is empty and not the last |
| OptLoop.AssertsHold | src/common/option/opt_table.cc:470-476 | so they hold on every command line in which no word but the last is empty |
| OptLoop.MissingReported | src/common/option/opt_table.cc:473-480 | a missing value is reported for a word exactly when the loop comes to it and the option that takes it misses its value, with the number of words that option asks for; otherwise both counters are 0 |
| OptLoop.WalkSplits | src/common/option/opt_table.cc:431-482 | wherever the loop stands, what it has emitted is the parse of the words before, and what it will emit the parse from there |
| OptLoop.DashDashVerbatim | src/common/option/opt_table.cc:442-464 | wherever the loop comes to a `--` that closes option parsing: the words before it parse as if alone with nothing missed, and behind their arguments come the words after it, verbatim and in order: one input spelled `--` at its place with all of them as values, or an input each under its own spelling and place |
| OptLoop.DashesAreRead | src/common/option/opt_table.cc:442-464 | without that mode no word stops the loop: the arguments tile the whole command line |
| OptLoop.FastRun | src/common/option/opt_table.cc:423-483 | binary search changes nothing of any run |
| OptFastRun.FastRunExact | src/common/option/opt_table.cc:423-483 | whole runs of the two modes are the same for all command lines if and only if every name stays in its place, but for options that are only ever spelled `--` where that closes option parsing |
| OptGrouped.PeelingConserves | src/common/option/opt_table.cc:235-271 | on any other word nothing is lost: it is unknown as a whole, or its first two characters are emitted and the rest stays behind a dash |
| OptGrouped.PeelingNames | src/common/option/opt_table.cc:235-271 | the two characters are the last flag that they spell, or an unknown option if there is none; the word is unknown as a whole only behind such a flag given a value, or with a dash behind its first |
| OptGrouped.GroupedAlwaysShrinks | src/common/option/opt_table.cc:235-271 | every grouped step moves on or leaves a shorter word, for every table, so the loop ends |
| OptGrouped.ThrowsExactly | src/common/option/opt_table.cc:253-264 | exactly when a grouped step ends in an out-of-range exception |
| OptGrouped.NeverThrowsExactly | src/common/option/opt_table.cc:185-272 | no command line ends in that exception if and only if every word of one character is an input or taken by an option |
| OptGrouped.DashPrefixesNeverThrow | src/common/option/opt_table.cc:185-272 | so with prefixes that start with `-` none does |
| OptGrouped.GroupedEqualsSeparate | src/common/option/opt_table.cc:185-272 | a grouped word, without dashes inside, gives the ids, spellings and alias values of its characters as separate words if and only if its last names an option and none that does stands before an `=`; with an unknown last one it gives one input more |
| OptGrouped.GroupedClosesExactly | src/common/option/opt_table.cc:235-271 | the loop stops at a word exactly when it is the first that starts and ends in a dash, has no other in between and no option before an `=`; nothing else stops it, and what follows is positional as it stands |
| OptGrouped.TrailingDashClosesOptions | src/common/option/opt_table.cc:247-250 | `-c-` is such a word: a known letter and a dash leave `--` in place |
| OptGrouped.GroupedFastRun | src/common/option/opt_table.cc:199-207 | binary search changes no grouped run either |
| OptGrouped.FastGroupedEqualsSeparate | src/common/option/opt_table.cc:185-272 | grouping agrees with separate words in the fast mode as well |
| OptGroupedRun.GroupedRunAccounts | src/common/option/opt_table.cc:185-272 | for every table and command line: what a grouped run delivers before it stops accounts, in order, for every character of every word before the stop |
| OptGroupedRun.GroupedLineExpands | src/common/option/opt_table.cc:185-272 | a flag table's line of grouped words that equal their letters, inputs and a closing `--` delivers what its expansion into separate words delivers, up to positions |
| OptTable.OptTable.constructor | src/common/option/opt_table.cc:93-128 | finds the special entries and the first searchable one, unites the prefixes unless given, collects exactly their characters; the table is well formed |
| OptTable.FirstSearchableMeans | src/common/option/opt_table.cc:101-114 | the first searchable entry is no group, input or unknown entry and only such come before it; a table of those only is searched from its start |
| OptTable.OptTable.BuildPrefixChars | src/common/option/opt_table.h:227-237 | the prefix characters are exactly the characters of the prefixes |
| OptTable.BuiltPrefixesCover | src/common/option/opt_table.cc:116-127 | a union built from the table covers every searchable option's prefixes |
| OptTable.InternalParseOneArg | src/common/option/opt_table.cc:297-378 | the two nested scans return what the specification of one step says |
| OptTable.ParseOneArgGrouped | src/common/option/opt_table.cc:185-272 | the grouped scan with its remembered fallback, and the word it writes back into the command line |
| OptTable.MainLoop | src/common/option/opt_table.cc:431-482 | the loop with its lexicographic measure delivers the walk of the specification and leaves its words in place |
| OptTable.OptTable.ParseArgs | src/common/option/opt_table.cc:380-483 | a whole run, in either mode: what the callback receives, the missing-argument counters, and the command line afterwards |
| OptRender.WriteArgStr | src/common/option/parsed_arg.h:97-122 | the stream writes of the four styles |
| OptRender.PlainIsWritten | src/common/option/parsed_arg.h:97-122 | an input or an unknown word is written as it stands |
| OptRender.RenderRoundTrip | src/common/option/parsed_arg.h:97-122 | rendering an accepted argument in its class's style and accepting again gives it back if and only if it is not JoinedAndSeparate and, in separate style, free of spaces |
| OptExamples.FastModeMissesExec | src/common/opt-data/catter-proxy/table.cc:26-34 | on `--exec x` the proxy's sorted table delivers the option with its value in the full scan, and the fast mode an unknown word |
| OptExamples.EmptyValueBreaksAssert | src/common/option/opt_table.cc:474-478 | `-p`, an empty word and one more word fail the assert |
| WinCommandLine.QuoteWin32Arg | src/catter-hook/win/impl.cc:22-56 | the quoting loop with its backslash counter |
| WinCommandLine.QuoteLeaves | src/catter-hook/win/impl.cc:22-27 | an argument is left as it is exactly when it has no blank, tab, line feed, vertical tab or quote; otherwise it is put in quotes |
| WinCommandLine.CmdlineOf | src/catter-hook/win/impl.cc:58-64 | program and arguments, each quoted, with blanks between |
| WinCommandLine.PlainIsJoined | src/catter-hook/win/impl.cc:58-64 | words that need no quotes are put down with one blank between |
| WinCommandLine.ReadQuote | src/catter-hook/win/impl.cc:22-56 | reading a quoted non-empty argument gives the argument and stops behind it |
| WinCommandLine.CmdlineExact | src/catter-hook/win/impl.cc:22-64 | the program receives exactly its name and arguments if and only if the name is safe and no argument is empty |
| WinCommandLine.CmdlineKeepsNonEmpty | src/catter-hook/win/impl.cc:58-64 | with a safe name, exactly the empty arguments are lost |
| WinCommandLine.QuotedProgram | src/catter-hook/win/impl.cc:38-41 | a program name without quotes that is put in quotes arrives with the backslashes at its end twice |
| WinCommandLine.UnsafeProgram | src/catter-hook/win/impl.cc:38-41 | a program name with a blank and a closing backslash arrives with two |
| WinEnvBlock.KeyMatchMeans | src/catter-hook/win/payload/main.cc:78-90 | a key match is an entry that starts with the key and an equals sign |
| WinEnvBlock.FixEnvBlock | src/catter-hook/win/payload/main.cc:92-124 | the result is the block of the same entries in order, with the id entry added exactly when no entry has the key |
| WinEnvBlock.FixedReadsBack | src/catter-hook/win/payload/main.cc:92-124 | reading the result gives these entries, some entry has the key, and what is added, exactly when none had it, is the key with the id |
| WinEnvBlock.FixedTwice | src/catter-hook/win/payload/main.cc:92-124 | applying it twice equals applying it once |
| NulStrings.RoundTrip | src/catter-hook/win/payload/main.cc:106-111 | strings laid out with their NULs are read back, whatever lies behind |
| Serde.LittleEndianRoundTrip | src/common/util/serde.h:47-61 | an integer of any width is read back from its bytes |
| Serde.OnTheWire | src/common/uv/rpc_data.h:30-91 | the bytes of one request of each kind: the tag, the fields in order, lengths in eight bytes and ids in four, the least first |
| Serde.ActionOnTheWire | src/common/uv/rpc_data.h:21-28 | an action to inject is the byte 1 and its command |
| Serde.IntBack | src/common/util/serde.h:47-69 | a 32-bit integer is read back with what follows it left |
| Serde.SerializeStrings | src/common/util/serde.h:96-103 | the appending loop over a vector |
| Serde.StringsBack | src/common/util/serde.h:94-115 | a vector of strings is read back with what follows it left; over a libuv stream exactly when no string is empty |
| Serde.ActionBack | src/common/uv/rpc_data.h:93-118 | an action is read back with what follows it left; over a libuv stream exactly when it has no empty string |
| Serde.RequestBack | src/common/uv/rpc_data.h:39-91 | a request with its fields is read back with what follows it left; over a libuv stream exactly when it has no empty string |
| SerdeStream.RequestCanonical | src/common/uv/rpc_data.h:39-91 | what decodes to a request is that request's encoding, byte for byte |
| SerdeStream.ActionCanonical | src/common/uv/rpc_data.h:93-118 | what decodes to an action is that action's encoding, byte for byte |
| SerdeStream.PartOfRequest | src/catter/main.cc:51-113 | with part of a request the reader wants more, and no byte beyond the request |
| SerdeStream.PartOfAction | src/catter-proxy/rpc_handler.h:40-45 | the same for the part of an action |
| SerdeStream.StreamRecovered | src/catter/main.cc:52-54 | any sequence of written requests is recovered, whatever part of a next one follows |
| SerdeStream.StreamInjective | src/common/uv/rpc_data.h:59-66 | two sequences of requests never have the same bytes |
| UvRead.ReadIsExact | src/common/uv/uv.h:155-199 | for every cut into non-empty chunks a read takes exactly the next bytes, or meets the end with fewer, never a short success |
| UvRead.ShortSuccess | src/common/uv/uv.h:188-193 | a read succeeds short exactly when a callback that brings nothing comes before its bytes do, and then reports 0 |
| UvRead.Read.ReadCb | src/common/uv/uv.h:180-194 | the read callback's moves, and when it resumes the coroutine |
| UvRead.Read.Await | src/common/uv/uv.h:155-199 | both callbacks, turn by turn, come to what the specification of the read says |
| UvRead.Fill | src/catter/main.cc:44-49 | the reader lambda: all bytes, the thrown code, or suspended; with a callback that brings nothing a short success, taken as it is |
| UvRead.DeserializeStrings | src/common/util/serde.h:117-126 | the reading loop over a vector agrees with decoding the whole stream |
| UvRead.DeserializeAction | src/common/uv/rpc_data.h:108-117 | from chunks it comes to what decoding the whole stream comes to, and leaves the same rest |
| UvRead.DeserializeRequest | src/catter/main.cc:53-104 | the request byte and its fields, read from chunks, are what decoding the whole stream gives |
| Rpc.Accept | src/catter/main.cc:51-114 | the server's loop handles exactly the requests the client's bytes hold, in order, and writes their answers and nothing else |
| Rpc.ServedInFull | src/catter/main.cc:51-114 | so filled requests, however cut up, are all answered |
| Rpc.RpcHandler.Create | src/catter-proxy/rpc_handler.h:31-38 | what is written, and the id that is decoded and kept |
| Rpc.RpcHandler.MakeDecision | src/catter-proxy/rpc_handler.h:40-45 | what is written, and the action that is decoded |
| Rpc.RpcHandler.ReportError | src/catter-proxy/rpc_handler.h:53-63 | the report carries the ids known so far |
| Rpc.Proxy | src/catter-proxy/main.cc:40-117 | the requests a proxy has made are a prefix of the protocol's one order: it asks for an id with its parent's exactly when its first words are right, a decision about the whole command, and ends with the exit code or a report and -1; when the replies come it runs what was decided under the id it was given, and a message from the hook is reported as it is |
| Rpc.Converse | src/catter-proxy/main.cc:69-117 | from the first request on: a message from the hook, a command that cannot be built and a failed read are reported with the ids known and their own words; otherwise the whole command is asked about |
| Rpc.Decide | src/catter-proxy/main.cc:90-107 | from the decision on: asked about the command it was given, and when the action comes, the end of what it runs |
| RpcSession.ServerStands | src/catter/main.cc:52-54 | the server's read stands inside the first unhandled request of its own client, from its first byte |
| RpcSession.ClientStands | src/catter-proxy/rpc_handler.h:76-80 | a waiting proxy has its reply to the last byte or wants more |
| RpcSession.StepKeeps | src/catter/main.cc:52-113 | every step of a connection keeps alignment, the answers owed and the proxy's place |
| RpcSession.EveryRunIsGood | src/catter/main.cc:33-114 | after every run, with any number of connections and any interleaving, all of this holds and ids grow |
| RpcSession.SessionSafety | src/catter/main.cc:33-114 | after every run each server coroutine has handled a prefix of what its proxy wrote and written one answer for each CREATE and MAKE_DECISION of it and nothing else; the proxy decoded exactly what was written for it; no two connections share an id |
| RpcProgress.WaitingGoesOn | src/catter-proxy/rpc_handler.h:40-45 | a waiting proxy can be helped on by some step if and only if the server is not stuck at an empty string |
| RpcProgress.RunsAreShort | src/catter/main.cc:51-114 | however the steps between two choices of a proxy interleave, there are no more of them than bytes, requests and answers outstanding |
| RpcProgress.RunsFinish | src/catter/main.cc:51-114 | from every state of a connection such steps lead to one in which none is left |
| RpcProgress.ReplyExactly | src/catter-proxy/rpc_handler.h:31-45 | when none is left, a waiting proxy has its one reply, decoded as written, and stands behind its call, if and only if its request holds no empty string; otherwise it has taken in nothing |
| RpcProgress.SessionReplies | src/catter/main.cc:33-114 | after every run of the server, for every waiting proxy: none of its runs is longer than that bound, some comes to an end, and every one that does brings the reply if and only if the request holds no empty string |
| RpcConversation.WholeConversation | src/catter-proxy/main.cc:55-117 | for everything a proxy can say as the first connection, in requests that fit and have no empty string, there is a run of the server in which it says that, gets what it asked for, and has every request handled |
| RpcConversation.FailureIsReported | src/catter-proxy/main.cc:107-112 | a proxy whose read fails reports it under its parent's id, and its own if it has one |
| RpcConversation.Leaves | src/catter/main.cc:51-114 | a proxy can go at any time, and then the server comes to the end of serving it |
| RpcConversation.IdIsAttempt | src/catter/main.cc:33-54 | a connection's id is the number of the attempt to accept it, failed ones counted in |
| RpcConversation.AnyTries | src/catter/main.cc:33-54 | attempts succeed and fail in any order and number, up to the counter's bound |
| RpcProgress.EmptyEntryBlocks | src/common/util/serde.h:89 | a command with an empty last environment entry is read to its last byte and still blocks |
| PayloadArray.End | src/catter-hook/linux-mac/payload/array.h:13-22 | where the NUL is, and null for null |
| PayloadArray.Copy | src/catter-hook/linux-mac/payload/array.h:46-55 | copies inside the given bounds; null exactly when not all fits, with what fits copied |
| PayloadArray.EqualN | src/catter-hook/linux-mac/payload/array.h:66-73 | true exactly for equal stretches |
| PayloadArray.Buffer.Store | src/catter-hook/linux-mac/payload/buffer.cc:7-16 | the string with its NUL lies at the old top, or the top stays: without room, and for null |
| PayloadArray.Buffer.Push | src/catter-hook/linux-mac/payload/buffer.cc:18-27 | the same without the NUL |
| CmdBuilder.CmdBuilder.constructor | src/catter-hook/linux-mac/payload/command.cc:20-34 | of proxy path, `-p` and id, each null or not and however long, those that fit lie at the start of the block and are pointed at; the builder is usable exactly when both are given and leave room for one NUL more |
| CmdBuilder.CmdBuilder.StoreArg | src/catter-hook/linux-mac/payload/command.cc:8-18 | a string is added exactly when there is one and it and its pointer fit; otherwise both pointers stay |
| CmdBuilder.CmdBuilder.ProxyStr | src/catter-hook/linux-mac/payload/command.cc:36-67 | the command reads back as proxy, `-p`, id, `--`, path and the words exactly when there is a path and all fit, and is the error form otherwise; the head and both append pointers are as before |
| CmdBuilder.CmdBuilder.ErrorStr | src/catter-hook/linux-mac/payload/command.cc:69-106 | the command reads back as the head and one text of the pieces that are given and have room, or is the caller's own path and words when the text leaves none for its NUL |
| CmdBuilder.CmdBuilder.ErrorSays | src/catter-hook/linux-mac/payload/command.cc:78-89 | with room for it the text is the hook's prefix, the cause, the path and the caller's words but the first, in this order with blanks between |
| CmdBuilder.FitsExactly | src/catter-hook/linux-mac/payload/command.h:49-51 | what fits, in numbers: 409600 bytes with the NULs and 4096 pointers with the null one |
| CmdBuilder.GreedyMeans | src/catter-hook/linux-mac/payload/command.cc:78-89 | the text is the whole message when that fits, and never longer than the room |
| CmdBuilder.LaidReadsBack | src/catter-hook/linux-mac/payload/command.cc:54-61 | a program handed the pointers sees exactly the strings laid, up to the null pointer |
| PathSearch.Iterator.Advance | src/catter-hook/linux-mac/payload/paths.h:45-55 | the iterator moves to the next piece |
| PathSearch.AheadIsPieces | src/catter-hook/linux-mac/payload/paths.h:25-55 | the pieces are those between colons without one empty last piece |
| PathSearch.Resolver.FromCurrentDirectory | src/catter-hook/linux-mac/payload/resolver.cc:28-47 | of the path as it is seen in the result buffer, which is the path itself when it is shorter than PATH_MAX: found exactly when it is a regular file that may be executed, EACCES exactly when it is one that may not but is present, ENOENT otherwise |
| PathSearch.Resolver.Candidate | src/catter-hook/linux-mac/payload/resolver.cc:94-103 | directory, separator and name are put together with every write in bounds |
| PathSearch.Resolver.FromSearchPath | src/catter-hook/linux-mac/payload/resolver.cc:77-112 | the search along the pieces, and ENOENT when it finds nothing; a name with a slash is a path |
| PathSearch.SearchMeans | src/catter-hook/linux-mac/payload/resolver.cc:84-110 | it finds the name in the first directory that is named, fits and has it as an executable regular file, and nothing exactly when there is none |
| OpenFiles.Files.FileOpen | src/catter/core/capi/io.cc:42-52 | an id that is not in use, with the file read from its start |
| OpenFiles.StreamMoves | src/catter/core/capi/io.cc:64-136 | what a read gives and when it fails the stream, and where a seek goes from the start, the read head and the end |
| OpenFiles.Files.FileSeekRead | src/catter/core/capi/io.cc:64-78 | clears the stream's state and moves its read head, or says which argument is wrong |
| OpenFiles.Files.FileReadN | src/catter/core/capi/io.cc:116-136 | the bytes read lie at the start of the buffer, and the stream fails when there were fewer |
| TextReader.FileStream.FileSize | api/src/io.ts:317-323 | the size, with the read head put back |
| TextReader.FileStream.ReadEntireFile | api/src/io.ts:372-376 | all bytes, wherever the read head stood |
| TextReader.UptoPast | api/src/io.ts:598-613 | reading byte by byte gives what lies before the first delimiter and leaves what lies behind it |
| TextReader.ReadUntil | api/src/io.ts:455-480 | for every file, position, delimiter and block size the block reader gives what reading byte by byte gives and leaves the read head where that leaves it |
| TextReader.TextFileStream.ReadLine | api/src/io.ts:649-655 | the text up to the newline, or all of it but one return at its end if it has one |
| TextReader.TextFileStream.ReadLines | api/src/io.ts:695-709 | it ends, and returns the textbook lines of the rest of the file |
| TextReader.LinesReadBack | api/src/io.ts:676-709 | lines written with a return and a newline behind each are read back as they were, and with a newline only exactly when none ends in a return |
| LazyTask.EveryRun | src/common/uv/uv.h:381-421 | in every run handles are closed in the order registered, each once, after the body ended; nobody goes on before; then whoever waits goes on with the body's outcome |
| LazyTask.DoneExactly | src/common/uv/uv.h:343-345 | done exactly when the body has ended and every registered handle was closed |
| LazyTask.PossibleExactly | src/common/uv/uv.h:343-421 | handles are registered and the body ends while it runs, a close comes back while one is awaited, and anyone may await at any time |
| LazyTask.CleaningGoesOn | src/common/uv/uv.h:411-417 | until then a close is awaited and brings it nearer |
| LazyTask.AwaitedOnce | src/common/uv/uv.h:347-367 | one awaiter is resumed once, with the outcome, exactly when all is done, whenever it began to wait |
| LazyTask.NobodyIsForgottenExactly | src/common/uv/uv.h:397-399 | with several awaiters all go on if and only if at most one began to wait before the body had ended and every close had come back |
| LazyTask.LazyPromise.ResumeCleaner | src/common/uv/uv.h:411-417 | one resumption of the closing loop, from one suspension to the next |
| LazyTask.LazyPromise.FinalSuspend | src/common/util/lazy.h:11-23 | the end of the body hands control to the cleaner |
| LazyTask.LazyPromise.Await | src/common/uv/uv.h:357-364 | an awaiter is suspended exactly while there is something left to run or to close |

## Left out

- Index arithmetic of the option parser is on unbounded naturals; `unsigned` wrap-around of `index` is not modelled.
- Option groups, `matches`, help texts, printing, visibility masks and flag masks: a filter is any predicate on
  options, which covers both overloads of `parse_args`.
- Flags that override the render style: with them an argument is meant to change its form.
- NUL characters inside command-line words, other than in the eight-byte spelling array.
- Locales: case folding is that of the C locale.
- OptTable.OptTable.UnitePrefixes: the order of the prefix union (that of a `std::set`) does not matter to any result.
- WinCommandLine.CmdlineOf: an empty program name follows the model's rule for an empty name; Windows then takes
  the name of the running module instead.
- Integers are copied as they lie in memory, which is taken to be little-endian.
- Wide-character environment blocks: the code is one template for both widths.
- Write errors, and accept errors beyond the id they use up: writes to a pipe succeed.
- A callback that brings nothing makes a read succeed short (`UvRead.ShortSuccess`, `UvRead.Fill`), and the program
  goes on with whatever the destination held before, which is left open here:
- UvRead.DeserializeStrings: agrees with decoding the whole stream if no callback brings nothing.
- UvRead.DeserializeAction: the same.
- UvRead.DeserializeRequest: the same.
- Rpc.Accept: what it handles is what the bytes hold if no callback brings nothing; the answers owed are written
  in any case.
- Rpc.RpcHandler.Create: what is written and kept holds in any case, agreement with the bytes as above.
- Rpc.RpcHandler.MakeDecision: the same.
- OptFastRun.FastRunExact: asks, as a union built from the table gives it, that default prefixes are not empty and
  known to the table; where `--` closes option parsing, all prefixes of an option that is spelled `--` by default.
- OptGrouped.GroupedEqualsSeparate: words with NUL characters, which no command line has.
- libuv, sockets and spawning are steps of the environment; logging and the server's printed lines are not modelled.
- More than 2^31 - 1 connections: the id counter is not followed beyond the largest `int`.
- What follows a decision (running the command, parents across nested processes) is a value or an exception.
- CmdBuilder.CmdBuilder.ProxyStr: the builder is a usable one, as its constructor's comment assumes; the caller's
  words are not in the builder's own block, and there is a first one.
- PathSearch.Resolver.FromCurrentDirectory: a path of PATH_MAX characters or more fills the result buffer without
  its NUL; the memory behind the buffer, in which it then ends, is a parameter.
- The file system answers the same throughout one search.
- Finding PATH in an environment and `confstr`: only the search along a given path is modelled.
- Writing through a `FileStream`, buffers that are views into larger ones, and sizes beyond 32 bits.
- The JavaScript engine and the conversion of its values; text is its characters' codes.
- Destruction and moving of tasks, and references to a coroutine's locals across a suspension.
- A task's result is a number: one that is moved out (`result_rvalue`, src/common/util/lazy.h:41-43) leaves a moved-from
  value to whoever awaits the task later.
- Detours, the executor and the linker of the hook: foreign calls.
