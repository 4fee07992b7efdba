# Parser server request protocol

A model of the request protocol of Stanford CoreNLP's `LexicalizedParserServer2`. The server is a
socket server in front of a lexicalized parser. Each connection sends one line. The server trims
that line and splits it at its first space into a command and an optional argument. The command is
then dispatched by an exact, case-sensitive comparison:

- `quit` clears the `stillRunning` flag, so the accept loop stops after this connection;
- `parse <text>` writes one block per k-best candidate (at most 30), each made of the rendered tree,
  its score and two blank lines, followed by a `"\0\n"` sentinel;
- `tree <text>` writes the Java-serialized best tree;
- anything else writes nothing.

`main` reads its arguments in flag/value pairs. A `--` or `-` prefix is stripped from each flag, and
the rest is compared with `model` and `port` ignoring case. The last pair with a key wins, and a
missing value exits with status 2.

The modules follow the program's structure:

- `Wrappers`: `Option`.
- `JavaText`: the `java.lang.String` and `java.lang.Integer` operations the server uses, with
  Java's semantics. These are `trim` (all chars up to U+0020), `split(" ", 2)`, `startsWith`,
  `equalsIgnoreCase` and `Integer.valueOf` with its 32-bit range, plus `Integer.toString` as its
  partner.
- `Requests`: turns the request line into a `Request`. It also chooses the handler.
- `Responses`: the bytes a connection receives. The parsing engine is a record of functions over
  an abstract tree type, an `Engine`. Its parts are the tokenizer, the parser query, the k-best
  list, the tree printer, the single-tree parse and the serialization. `Response` distinguishes
  nothing written, text, and serialized bytes. A serialized response starts with the stream header
  `AC ED 00 05` (section 6.4.2 of the Java Object Serialization Specification).
- `Server`: the class `ParserServer` with its `stillRunning` field. `ProcessRequest` handles one
  already-read line, and `Listen` is the accept loop over a finite sequence of connections.
- `CommandLine`: `main`'s flag loop as a method over an `array<string>`. It is proved against
  `Outcome`, a loop-free statement of the result: the first bad port fails, then an unpaired last
  flag exits, and otherwise the last `model` and `port` pairs win.

Every source cell below cites `sp/src/edu/stanford/nlp/parser/server/LexicalizedParserServer2.java`,
relative to the repository root.

## Model

| member | source | states |
|---|---|---|
| JavaText.LeadingCount | sp/src/edu/stanford/nlp/parser/server/LexicalizedParserServer2.java:100 | the front run `trim` removes: every char in it is at most U+0020 and the char after it is not |
| JavaText.TrailingCount | sp/src/edu/stanford/nlp/parser/server/LexicalizedParserServer2.java:100 | the back run `trim` removes: every char in it is at most U+0020 and the char before it is not |
| JavaText.Trim | sp/src/edu/stanford/nlp/parser/server/LexicalizedParserServer2.java:100 | `line.trim()` is the infix after the leading run and before an all-trimmable tail; it neither starts nor ends with a char at most U+0020; it is empty exactly when every char is trimmable |
| JavaText.LeadingCountIs | sp/src/edu/stanford/nlp/parser/server/LexicalizedParserServer2.java:100 | the leading run is the unique prefix of trimmable chars followed by a non-trimmable char or the end |
| JavaText.TrailingCountIs | sp/src/edu/stanford/nlp/parser/server/LexicalizedParserServer2.java:100 | the same for the trailing run |
| JavaText.TrimUnique | sp/src/edu/stanford/nlp/parser/server/LexicalizedParserServer2.java:100 | any infix with trimmable chars around it and non-trimmable ends is the trimmed string |
| JavaText.TrimPadded | sp/src/edu/stanford/nlp/parser/server/LexicalizedParserServer2.java:100 | trimmable chars added on both sides of a string with non-trimmable ends are exactly what `trim` removes |
| JavaText.TrimIdempotent | sp/src/edu/stanford/nlp/parser/server/LexicalizedParserServer2.java:100 | trimming a trimmed line changes nothing |
| JavaText.IndexOfSpace | sp/src/edu/stanford/nlp/parser/server/LexicalizedParserServer2.java:101 | the position of the first space, or none exactly when the string has no space |
| JavaText.SplitAtFirstSpace | sp/src/edu/stanford/nlp/parser/server/LexicalizedParserServer2.java:101-102 | `split(" ", 2)` gives one or two pieces; the first has no space; there is one piece exactly when the string has no space; joining the pieces with a space gives the string back |
| JavaText.SplitJoin | sp/src/edu/stanford/nlp/parser/server/LexicalizedParserServer2.java:101 | splitting a space-free command, a space and any argument gives back exactly that command and argument |
| JavaText.SplitWithoutSpace | sp/src/edu/stanford/nlp/parser/server/LexicalizedParserServer2.java:101 | a string without a space splits into itself alone |
| JavaText.EqualsIgnoreCaseAt | sp/src/edu/stanford/nlp/parser/server/LexicalizedParserServer2.java:203-205 | `equalsIgnoreCase` holds exactly when the lengths agree and the chars agree pairwise after case mapping |
| JavaText.EqualsIgnoreCase | sp/src/edu/stanford/nlp/parser/server/LexicalizedParserServer2.java:203-205 | strings equal ignoring case have the same length |
| JavaText.EqualsIgnoreCaseExamples | sp/src/edu/stanford/nlp/parser/server/LexicalizedParserServer2.java:203-205 | `PoRt` equals `port` ignoring case; `ports` does not |
| JavaText.ParseInt | sp/src/edu/stanford/nlp/parser/server/LexicalizedParserServer2.java:206 | `Integer.valueOf` yields only 32-bit values and rejects the empty string |
| JavaText.ParseIntAccepts | sp/src/edu/stanford/nlp/parser/server/LexicalizedParserServer2.java:206 | an accepted string is a sign or digit followed by digits only, with at least one digit; the sign decides the sign of the value |
| JavaText.ParseIntRejects | sp/src/edu/stanford/nlp/parser/server/LexicalizedParserServer2.java:206 | the empty string, a lone sign, and a non-digit after the first char raise `NumberFormatException` |
| JavaText.ParseIntValue | sp/src/edu/stanford/nlp/parser/server/LexicalizedParserServer2.java:206 | both directions: a string of an optional sign and then `d` (not itself starting with a sign when there is none) is accepted with value `v` exactly when `d` is a non-empty ASCII digit string, `v` is its decimal value, negated after `-`, and `v` lies between -2147483648 and 2147483647 |
| JavaText.ParseIntPlusSign | sp/src/edu/stanford/nlp/parser/server/LexicalizedParserServer2.java:206 | `+7` is accepted as 7 |
| JavaText.ParseIntLeadingZeros | sp/src/edu/stanford/nlp/parser/server/LexicalizedParserServer2.java:206 | `007` is accepted as 7 |
| JavaText.ParseIntMax | sp/src/edu/stanford/nlp/parser/server/LexicalizedParserServer2.java:206 | `2147483647` is accepted |
| JavaText.ParseIntMin | sp/src/edu/stanford/nlp/parser/server/LexicalizedParserServer2.java:206 | `-2147483648` is accepted |
| JavaText.ParseIntPastMax | sp/src/edu/stanford/nlp/parser/server/LexicalizedParserServer2.java:206 | `2147483648` is rejected |
| JavaText.NatToDigits | sp/src/edu/stanford/nlp/parser/server/LexicalizedParserServer2.java:206 | the decimal digits of a natural number are a non-empty digit string |
| JavaText.DigitsRoundTrip | sp/src/edu/stanford/nlp/parser/server/LexicalizedParserServer2.java:206 | reading back the digits of `n` gives `n` |
| JavaText.ParseIntToString | sp/src/edu/stanford/nlp/parser/server/LexicalizedParserServer2.java:206 | `Integer.valueOf(Integer.toString(n)) == n` for every 32-bit `n` |
| Requests.ParseLine | sp/src/edu/stanford/nlp/parser/server/LexicalizedParserServer2.java:100-106 | the command has no space; there is no argument exactly when the trimmed line has no space, and then the command is the whole trimmed line; otherwise the trimmed line is command, space, argument, both non-empty; a line of only control chars and spaces gives the command `""` with no argument |
| Requests.ParseUnparse | sp/src/edu/stanford/nlp/parser/server/LexicalizedParserServer2.java:100-106 | parsing the line written for a request gives that request back, when the line needs no trimming |
| Requests.ArgumentKeepsSpaces | sp/src/edu/stanford/nlp/parser/server/LexicalizedParserServer2.java:101-105 | `parse  a b` has the argument ` a b`: the extra space stays in the argument |
| Requests.ArgumentNotResplit | sp/src/edu/stanford/nlp/parser/server/LexicalizedParserServer2.java:101-105 | `parse the cat sat` has the argument `the cat sat`, not split further |
| Requests.ParsePadded | sp/src/edu/stanford/nlp/parser/server/LexicalizedParserServer2.java:100-106 | chars up to U+0020 around a request line leave the parsed request unchanged |
| Requests.ControlCharsTrimmed | sp/src/edu/stanford/nlp/parser/server/LexicalizedParserServer2.java:100 | a tab and a space before `quit` and a NUL and a tab after it are trimmed away |
| Requests.DispatchIsExact | sp/src/edu/stanford/nlp/parser/server/LexicalizedParserServer2.java:107-113 | `HandlerFor` chooses each handler exactly for its own command word, and no handler for any other word |
| Requests.DispatchIsCaseSensitive | sp/src/edu/stanford/nlp/parser/server/LexicalizedParserServer2.java:107-113 | `QUIT`, `Parse` and the empty command choose no handler |
| Responses.KBestText | sp/src/edu/stanford/nlp/parser/server/LexicalizedParserServer2.java:170-176 | the text of a successful `parse` always ends with the sentinel `"\0\n"` |
| Responses.Block | sp/src/edu/stanford/nlp/parser/server/LexicalizedParserServer2.java:172-174 | every block ends with the three newlines, so two blank lines follow each score |
| Responses.Blocks | sp/src/edu/stanford/nlp/parser/server/LexicalizedParserServer2.java:170-175 | the blocks of n candidates are at least 3·n chars long, three newlines per candidate |
| Responses.BlocksEndWithSeparator | sp/src/edu/stanford/nlp/parser/server/LexicalizedParserServer2.java:170-175 | the blocks of a non-empty candidate list end with the three newlines of the last block: two blank lines follow the last score |
| Responses.ParseResponse | sp/src/edu/stanford/nlp/parser/server/LexicalizedParserServer2.java:149-176 | `parse` writes bytes exactly when there is an argument and the engine parses its tokens; otherwise it writes nothing at all; when it writes, it writes text ending in the sentinel |
| Responses.TreeResponse | sp/src/edu/stanford/nlp/parser/server/LexicalizedParserServer2.java:131-140 | `tree` writes bytes exactly when there is an argument and the engine returns a tree; otherwise nothing; when it writes, the bytes start with the serialization stream header |
| Responses.BlocksAppend | sp/src/edu/stanford/nlp/parser/server/LexicalizedParserServer2.java:170-175 | the blocks of two candidate lists placed one after the other are the blocks of the first list followed by those of the second |
| Responses.BlockAt | sp/src/edu/stanford/nlp/parser/server/LexicalizedParserServer2.java:170-175 | the k-th block of the text, after the blocks of the first k candidates, is exactly rendering ++ score ++ `"\n\n\n"` of candidate k |
| Responses.TwoCandidates | sp/src/edu/stanford/nlp/parser/server/LexicalizedParserServer2.java:170-176 | two candidates give the first block, the second block and the sentinel, in that order |
| Responses.BlocksNulFree | sp/src/edu/stanford/nlp/parser/server/LexicalizedParserServer2.java:170-175 | blocks of NUL-free renderings and scores contain no NUL |
| Responses.SentinelOnlyAtEnd | sp/src/edu/stanford/nlp/parser/server/LexicalizedParserServer2.java:170-176 | with NUL-free renderings and scores, the text's only NUL is the one at its second-to-last position |
| Responses.ReadUntilSentinel | sp/src/edu/stanford/nlp/parser/server/LexicalizedParserServer2.java:176 | a client reading up to the sentinel gets the prefix before the first sentinel, or none exactly when the stream has no sentinel |
| Responses.NothingWrittenReadsAsFailure | sp/src/edu/stanford/nlp/parser/server/LexicalizedParserServer2.java:149-162 | an empty stream reads as "no parse", never as an answer |
| Responses.ReadFindsFirst | sp/src/edu/stanford/nlp/parser/server/LexicalizedParserServer2.java:176 | a sentinel with no NUL before it is where the reader stops |
| Responses.ClientReadsBlocks | sp/src/edu/stanford/nlp/parser/server/LexicalizedParserServer2.java:169-176 | a client reading up to the sentinel gets back exactly all the blocks, when no rendering or score has a NUL |
| Responses.AtMostThirtyBlocks | sp/src/edu/stanford/nlp/parser/server/LexicalizedParserServer2.java:169-176 | when the engine honours the requested limit of 30, a successful `parse` is the text of the engine's own k-best list for the tokens of the argument, which has at most 30 candidates |
| Server.WrittenExactly | sp/src/edu/stanford/nlp/parser/server/LexicalizedParserServer2.java:98-113 | `Respond` gives bytes exactly when the line is `parse` with an argument that parses or `tree` with an argument that yields a tree; in every other case it gives nothing |
| Server.QuitAndEndOfStreamAreSilent | sp/src/edu/stanford/nlp/parser/server/LexicalizedParserServer2.java:98-99 | end of stream and `quit` write nothing, and end of stream is not a quit |
| Server.MissingArgumentIsSilent | sp/src/edu/stanford/nlp/parser/server/LexicalizedParserServer2.java:131-133 | `parse` or `tree` without an argument writes nothing |
| Server.UnknownCommandIsIgnored | sp/src/edu/stanford/nlp/parser/server/LexicalizedParserServer2.java:107-113 | any other command, including `""`, writes nothing and does not stop the server |
| Server.PingIsIgnored | sp/src/edu/stanford/nlp/parser/server/LexicalizedParserServer2.java:107-113 | `ping hello` writes nothing and does not stop the server |
| Server.PingLine | sp/src/edu/stanford/nlp/parser/server/LexicalizedParserServer2.java:100-106 | `ping hello` is the command `ping` with the argument `hello` |
| Server.QuitLine | sp/src/edu/stanford/nlp/parser/server/LexicalizedParserServer2.java:100-106 | `quit` is the command `quit` with no argument |
| Server.HandledCount | sp/src/edu/stanford/nlp/parser/server/LexicalizedParserServer2.java:68-80 | a running server handles every connection up to and including the first `quit`, or all of them when none asks to quit |
| Server.NothingAfterQuit | sp/src/edu/stanford/nlp/parser/server/LexicalizedParserServer2.java:68-80 | no connection after a `quit` is handled |
| Server.HandledCountIs | sp/src/edu/stanford/nlp/parser/server/LexicalizedParserServer2.java:68-80 | the handled count is the only count with no quit before its last connection, and a quit as its last connection unless every connection is handled |
| Server.Served | sp/src/edu/stanford/nlp/parser/server/LexicalizedParserServer2.java:68-72 | the responses to the first n connections are, in order, the response to each |
| Server.QuitStopsListening | sp/src/edu/stanford/nlp/parser/server/LexicalizedParserServer2.java:68-80 | a server given `ping hello`, `quit`, `parse a` answers the first two with nothing, never reaches the third, and is stopped afterwards |
| Server.ParserServer.constructor | sp/src/edu/stanford/nlp/parser/server/LexicalizedParserServer2.java:42-58 | a new server keeps its port, model and parser and is running |
| Server.ParserServer.HandleQuit | sp/src/edu/stanford/nlp/parser/server/LexicalizedParserServer2.java:121-123 | `handleQuit` clears `stillRunning` |
| Server.ParserServer.HandleTree | sp/src/edu/stanford/nlp/parser/server/LexicalizedParserServer2.java:128-141 | the method writes exactly the `tree` response |
| Server.ParserServer.HandleParse | sp/src/edu/stanford/nlp/parser/server/LexicalizedParserServer2.java:146-179 | the loop over the k-best list writes exactly the `parse` response: block by block in the engine's order, then the sentinel |
| Server.ParserServer.ProcessRequest | sp/src/edu/stanford/nlp/parser/server/LexicalizedParserServer2.java:92-116 | one connection writes exactly `Respond` of its line, and `stillRunning` becomes false exactly when the line is `quit` and otherwise keeps its value |
| Server.ParserServer.Listen | sp/src/edu/stanford/nlp/parser/server/LexicalizedParserServer2.java:65-81 | a stopped server handles nothing; a running one handles exactly `HandledCount` connections, answering each in order; afterwards it is running exactly when it was and none of the handled connections asked to quit |
| CommandLine.Spellings | sp/src/edu/stanford/nlp/parser/server/LexicalizedParserServer2.java:197-205 | `FlagKey` strips `--` or else `-` with `startsWith`, so a flag selects a key exactly when it is the key, `-` and the key, or `--` and the key, ignoring case |
| CommandLine.SpellingExamples | sp/src/edu/stanford/nlp/parser/server/LexicalizedParserServer2.java:197-205 | `--port`, `-PORT` and `Model` select their keys; `---port` and `ports` do not |
| CommandLine.LastPair | sp/src/edu/stanford/nlp/parser/server/LexicalizedParserServer2.java:192-207 | a pair found among the first n has the key |
| CommandLine.LastPairIsLast | sp/src/edu/stanford/nlp/parser/server/LexicalizedParserServer2.java:192-207 | no later pair has the key, and none found means no pair has it |
| CommandLine.FirstBadPort | sp/src/edu/stanford/nlp/parser/server/LexicalizedParserServer2.java:192-206 | the pair found is a `port` pair whose value `Integer.valueOf` rejects, and no earlier pair is; none found means no complete pair is |
| CommandLine.SettingsStep | sp/src/edu/stanford/nlp/parser/server/LexicalizedParserServer2.java:203-206 | one more good pair sets the model if its key is `model`, the port if its key is `port`, and otherwise changes neither |
| CommandLine.FirstBadPortIs | sp/src/edu/stanford/nlp/parser/server/LexicalizedParserServer2.java:192-206 | a bad port with only good pairs before it is the first bad port |
| CommandLine.BadPortOutcome | sp/src/edu/stanford/nlp/parser/server/LexicalizedParserServer2.java:206 | startup then fails with that value's `NumberFormatException` |
| CommandLine.OutcomeWithoutBadPort | sp/src/edu/stanford/nlp/parser/server/LexicalizedParserServer2.java:189-208 | an even count with only good pairs reaches the settings of the last `model` and the last `port` |
| CommandLine.OutcomeIsSettings | sp/src/edu/stanford/nlp/parser/server/LexicalizedParserServer2.java:189-208 | reaching the settings means an even count and only good pairs |
| CommandLine.ParseFlags | sp/src/edu/stanford/nlp/parser/server/LexicalizedParserServer2.java:189-208 | `main`'s loop over `args` ends in exactly `Outcome(args)`, its loop-free statement: the first bad port fails, then an unpaired last flag exits, and otherwise the last `model` and `port` pairs win |
| CommandLine.NoFlags | sp/src/edu/stanford/nlp/parser/server/LexicalizedParserServer2.java:181-190 | without arguments the server uses port 4466 and the default model |
| CommandLine.OddCountExits | sp/src/edu/stanford/nlp/parser/server/LexicalizedParserServer2.java:193-196 | an unpaired last flag after good pairs gives `Outcome` the missing value naming that flag, and `ExitStatus` 2 |
| CommandLine.LastPairPrefix | sp/src/edu/stanford/nlp/parser/server/LexicalizedParserServer2.java:192 | the last pair with a key among pairs already read does not depend on what follows |
| CommandLine.PairsPrefix | sp/src/edu/stanford/nlp/parser/server/LexicalizedParserServer2.java:192 | pairs already read, and whether their port is bad, do not depend on what follows |
| CommandLine.SettingsPrefix | sp/src/edu/stanford/nlp/parser/server/LexicalizedParserServer2.java:192-207 | the settings after pairs already read do not depend on what follows |
| CommandLine.AppendedPairsGood | sp/src/edu/stanford/nlp/parser/server/LexicalizedParserServer2.java:206 | appending a pair whose port, if any, is numeric keeps every pair good |
| CommandLine.AppendedModel | sp/src/edu/stanford/nlp/parser/server/LexicalizedParserServer2.java:203-204 | an appended pair sets the model exactly when its key is `model` |
| CommandLine.AppendedPort | sp/src/edu/stanford/nlp/parser/server/LexicalizedParserServer2.java:205-206 | an appended good pair sets the port exactly when its key is `port` |
| CommandLine.AppendPair | sp/src/edu/stanford/nlp/parser/server/LexicalizedParserServer2.java:192-207 | appending a good pair replaces the setting its key names, if any, and keeps the other |
| CommandLine.LastModelWins | sp/src/edu/stanford/nlp/parser/server/LexicalizedParserServer2.java:203-204 | a later `model` pair overrides every earlier one and leaves the port alone |
| CommandLine.LastPortWins | sp/src/edu/stanford/nlp/parser/server/LexicalizedParserServer2.java:205-206 | a later `port` pair with any 32-bit number overrides every earlier one and leaves the model alone |
| CommandLine.UnknownKeyIgnored | sp/src/edu/stanford/nlp/parser/server/LexicalizedParserServer2.java:203-207 | a pair whose key is neither `model` nor `port` changes nothing, whatever follows |
| CommandLine.NonNumericPortFails | sp/src/edu/stanford/nlp/parser/server/LexicalizedParserServer2.java:206 | after good pairs, a `port` pair with a value `Integer.valueOf` rejects makes startup fail, whatever follows |

## Left out

- Sockets: `ServerSocket`, `accept`, the reader, the writers, flushing, `close` and the UTF-8
  encoding are I/O. A connection is modelled as the line it sent, or `None` for end of stream. A
  response is modelled as the chars or bytes written.
- `Server.ParserServer.Listen`: it runs over a finite sequence of connections and returns when they
  run out. The real loop blocks in `accept` until another client comes.
- The `catch` branch of `listen` (lines 73-77) is not modelled. This is I/O error handling. When
  `accept` itself throws, `clientSocket` is still null at the `close` call. The model claims nothing
  about surviving I/O errors.
- The parsing engine is represented only by the functions of `Engine`. That covers
  `LexicalizedParser.loadModel`, the language pack's tokenizer, `ParserQuery.parse`,
  `getKBestPCFGParses`, `TreePrint` and `LexicalizedParser.parse(String)`. The order of the k-best
  list by score is the engine's business.
- Scores are opaque strings. They stand for the `double`s that `PrintWriter.print` prints.
- `Responses.TreeResponse`: the bytes of `writeObject` are not modelled, only the stream header
  the `ObjectOutputStream` constructor writes first. The bytes after the header may contain
  `00 0A`, for example in a back-reference to handle 10 or in the length of a 10-char string, so a
  client must not scan a `tree` response for the `"\0\n"` sentinel.
- The `System.err` logging, `System.setOut`/`setErr`, the dead `Options` loop over the empty `ss`
  (lines 210-221) and the final model load and `listen` call of `main` are not modelled.
- `LexicalizedParser.DEFAULT_PARSER_LOC` is not part of this model. `CommandLine.ParseFlags` takes
  it as the parameter `defaultModel`.
- `ServerSocket` port-range and bind failures are not modelled: any `int` is accepted as a port.
- `JavaText.ParseInt`: digits are ASCII `0`-`9` only. `Integer.valueOf` also accepts the other
  Unicode decimal digits that `Character.digit` knows.
- `JavaText.EqualsIgnoreCase`: it maps only ASCII letters to lower case. Java also compares the
  upper- and lower-case forms of non-ASCII chars. The only non-ASCII chars that fold onto ASCII
  letters fold onto `i`, `k` or `s`, and `model` and `port` contain none of those, so the flag keys
  match the same strings.
- UTF-16: a Dafny `char` is a Unicode scalar value, not one of Java's UTF-16 code units, and the
  decoding of the request bytes from UTF-8 is not modelled. Every surrogate code unit is above
  U+0020 and is not a space, so `trim`, `split` and the exact comparisons treat a surrogate pair
  the same as the one char it encodes.
