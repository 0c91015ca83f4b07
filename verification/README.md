# OpenWFC: verified models of its protocols, parsers, ciphers and file checks

OpenWFC replaces the servers of the Nintendo Wi-Fi Connection. This project models the parts of it
that carry state, branching or arithmetic, and proves what they keep over whole runs and for every
input. Each value model is a step relation or a specification function; the objects that the server
updates in place are classes whose methods are proved against it.

- **NATNEG pairing** (`NatnegPairing`, `NatnegHistory`, `Natneg`): one session's clients, the pairing walk
  in any map order, the message handlers as atomic steps, and the table of open sessions. A history of
  exchanges is kept beside the state, and what a client holds is told from the bytes of all messages.
- **Server browser filters** (`FilterGrammar`, `FilterParsing`, `FilterPrecedence`, `FilterReading`,
  `FilterParser`, `FilterValue`, `FilterBasics`, `FilterEval`, `FilterConvention`, `FilterMeaning`,
  `ServerFilter`, `FilterExample`): numbers and their texts, the parser as a zipper and as heap
  nodes with parent pointers, what token sequences it accepts and shows, when its tree respects operator
  precedence and is the conventional reading of its tokens, the evaluator on both, the value of any mix of operators by that reading, and the meaning of the comparisons joined by
  `and` that the games send, up to the search over a server list.
- **Ghost files** (`Yaz1`, `Yaz1Pack`, `Mii`, `MiiPolynomial`, `GhostFile`, `GhostHeader`): bit fields and
  the header written byte by byte, the Yaz1 verifier against a bit-by-bit decoder and a packer, the Mii CRC
  as a remainder over GF(2), the upload check and the sanitising after it.
- **TypeX cipher** (`TypeX`, `TypeXKeys`): the mixing of the key material, the key-driven shuffle, the
  four-way card rotation, and a receiver.
- **GPCM** (`GpcmLogin`, `GpcmPolling`, `GpcmStream`): logins, logouts and closes of many connections
  interleaved around a shared mutex, and the reassembly of messages from fragments.
- **Backend reload** (`Reload`, `ReloadHistory`): the frontend's mutex, busy count, connection table and
  identifier, and what each connection handler does over a run.
- **Byte-stream decoders** (`TlsRead`, `DwcPayload`, with `Keystream`): console TLS reads
  (section 6.2.1 of RFC 2246) and encrypted statistics payloads.

`Bytes` holds machine words and bitwise operations on them. Integers are unbounded; wherever the source
wraps, the model says so. Bytes are numbers below 256.

## Where the code differs from what one would expect

- The filter parser does not always keep the precedence its comment speaks of. It does exactly when,
  inside each bracket group, no operator drops to a level above that of the last drop, or of the group's
  first operator (`FilterPrecedence.PrecedenceIff`). `a or b = c and d` becomes `(a or b = c) and d`
  (`FilterPrecedence.PrecedenceLost`, `FilterPrecedence.DocumentedLevels`). Token order is always kept
  (`FilterParsing.RoundTrip`).
- An operator that directly repeats behind a single operand is taken together with the one before. For
  equality that changes the value: `2 = 2 = 2` holds (`FilterConvention.RunDiffers`), since a run of `=`
  compares every operand with the first (`FilterConvention.EqualRun`). Every filter that keeps precedence
  and has no run of equality, inequality or likeness, and none that starts with an overridden rating, has
  the value of its conventional reading (`FilterConvention.ConventionHolds`).
- Text that is no number fails a filter in a way of its own: the conversion panics with an error value,
  which is no text, so the recovery that turns other faults into an empty search result panics again
  (`ServerFilter.SearchFindsMatching`).
- The 8-bit long-run length of the Yaz1 verifier wraps, so it accepts streams the format does not
  allow (`Yaz1.WrappedLengthAccepted`). Without a wrap it accepts what the format does, with the same
  bytes consumed; after one, an accepted stream does not unpack or is done at least four bytes before the
  verifier (`Yaz1.VerifierMeetsFormat`). An accepted ghost file unpacks whole, with at most three bytes
  left, exactly when no length wrapped (`GhostFile.AcceptedUnpacksIff`).
- A logout leaves the session in the table. Nobody, the same connection included, can log in to that
  profile again before the table is reset (`GpcmLogin.StaleForever`); the table holds only logged-in
  sessions exactly when nobody ever logged out (`GpcmLogin.TableLiveIff`).
- A stream of messages is delivered whole, however it is cut, exactly when no fragment overflows the
  buffer it meets and no handler panics (`GpcmStream.DeliveryIff`), provided no message that could be
  buffered with the one before it starts with the delimiter less its first character. Among messages that
  each fit the buffer and do not make a handler panic that proviso is exact: with it every cut that fits
  dispatches messages as sent, and without it some cut that fits does not (`GpcmStream.InOrderIff`).
- A message whose handler panics stays in the buffer with all that came before it, whatever arrives
  afterwards, so the connection never gets past it (`GpcmStream.PanicStays`). What came before it is
  dispatched again each time another message is complete (`GpcmStream.Redispatched`).
- A TLS record without application data is decrypted in the buffer and stays there, so that every later
  read decrypts it anew and is refused (`TlsRead.RefusesForever`).
- From a shutdown until the unlock, once every sweep of the connection table is done, the table is as it
  was exactly when no backend with another identifier was compared and no older sweep was still under way
  in it, or there was nothing to close (`Reload.UnchangedIff`). An answer to reload promises nothing by
  itself: the right backend gets it after such a sweep (`Reload.ReloadAfterReset`), and after the unlock,
  when the table has moved on (`Reload.ReloadOutsideWindow`).
- An old-type statistics payload whose first word happens to be its own length is read as a new-type
  one (`DwcPayload.OldTypeIff`).
- A NATNEG report of exactly two bytes passes the length check and then reads past the message;
  a connect reply has no length check (`Natneg.NatnegSession.HandleReport`,
  `Natneg.NatnegSession.HandleConnectReply`).

## Model

| member | source | states |
|---|---|---|
| `NatnegPairing.WalkCovers` | natneg/connect.go:13-32 | of two clients still available after a walk in any order, each has already answered the other |
| `NatnegPairing.WalkSettles` | natneg/connect.go:13-61 | one complete walk, whatever the map order, keeps the session invariant, leaves no possible pair undone, and only narrows who is available |
| `NatnegPairing.VisitDestinationKeeps` | natneg/connect.go:19-32 | a pairing keeps every invariant although one sender may be matched several times |
| `NatnegPairing.StepKeeps` | natneg/main.go:242-303 | every handler keeps the invariant and the settled state and never forgets an exchange or a client |
| `NatnegPairing.RunSafety` | natneg/connect.go:13-61 | over every run each ordered pair is exchanged at most once, so at most n(n-1) in all; every exchange is answered or still in progress; peers and result keys name clients, busy clients are mapped, and any two idle mapped clients have answered each other |
| `NatnegPairing.RunHistoryGrows` | natneg/connect.go:29-32 | along a run the history of exchanges only grows |
| `NatnegHistory.ParsesProper` | natneg/init.go:14-48 | an INIT is taken exactly when bytes 0 and 2 are a known port type and a flag that fit together and a zero byte ends the name from byte 9 on; its fields are these bytes |
| `NatnegHistory.RunTold` | natneg/init.go:59-93 | after every run, told by message bytes: a client holds the name of its last INIT that took effect, the sender of the last with byte 0 not 0 for negotiation, of the last with byte 2 or byte 0 zero for the server, and the local address of the last with a nonzero port |
| `NatnegHistory.MappedIff` | natneg/init.go:85-97 | in every run a client is mapped exactly when an INIT of either kind of it took effect |
| `NatnegHistory.StepConnects` | natneg/connect.go:28-32 | for every message: a report stores byte 2 under the current peer and releases the client, each new exchange connects both its sides and asks for new acknowledgements, a connect reply is one, and nothing else changes |
| `NatnegHistory.OutcomeIff` | natneg/report.go:32-54 | a pair is reported on exactly when both sides have answered, as a success exactly when both stored answers are 1 |
| `Natneg.NatnegSession.Pair` | natneg/connect.go:29-32 | the in-place pairing is the exchange step of the value model |
| `Natneg.NatnegSession.MatchOne` | natneg/connect.go:19-32 | one turn of the inner loop visits one destination, paired or skipped |
| `Natneg.NatnegSession.MatchSender` | natneg/connect.go:19-59 | the inner loop visits every client once, in some order, for the same sender |
| `Natneg.NatnegSession.SendConnectRequests` | natneg/connect.go:13-61 | the nested loops perform one complete walk |
| `Natneg.NatnegSession.FindClient` | natneg/init.go:59-81 | an unknown index creates an idle client unless another client names another game, in which case nothing changes |
| `Natneg.NatnegSession.Register` | natneg/init.go:59-93 | refused exactly when the client is new and the game differs; otherwise only the sender's record changes, as announced |
| `Natneg.NatnegSession.HandleInit` | natneg/init.go:13-102 | the handler is the init step, rejections change nothing, and the session invariant and the settled state hold afterwards |
| `Natneg.NatnegSession.HandleConnectReply` | natneg/connect.go:76-87 | acknowledges a known client, ignores an unknown one, and reads past a message of fewer than two bytes |
| `Natneg.NatnegSession.HandleReport` | natneg/report.go:11-59 | records the result under the current peer, releases the client and walks again; a pair is reported on once both sides answered, as a success exactly when both said 1 |
| `Natneg.NatnegServer.FindSession` | natneg/main.go:213-232 | finds or creates the session of a cookie with one timer; a session is open exactly when it is the table entry for its cookie |
| `Natneg.NatnegServer.CloseSession` | natneg/main.go:305-314 | closes and removes exactly the session of the timer, or nothing during shutdown |
| `FilterParsing.AscendPrints` | filter/parse.go:70-89 | leaving a node shows the same tokens, plus the bracket that closes a group |
| `FilterParsing.ClimbIsOutermost` | filter/parse.go:128-138 | the climb ends at the outermost operator of the current group |
| `FilterParsing.OperatorKeeps` | filter/parse.go:109-151 | an operator of any precedence keeps the tree shape and the order of all tokens; it panics only for an unknown operator |
| `FilterParsing.CloseKeeps` | filter/parse.go:71-89 | a closing bracket panics exactly when none is open, and otherwise closes one group and shows one bracket more |
| `FilterParsing.RunKeeps` | filter/parse_branches.go:23-125 | the parser survives exactly the wellformed prefixes, and its state then shows exactly the tokens read, with as many open groups as open brackets |
| `FilterParsing.ParsePrints` | filter/parse.go:21-34 | exactly the wellformed sequences are accepted, and the finished tree printed in order is the input less a trailing operator, with open brackets closed |
| `FilterParsing.RoundTrip` | filter/parse.go:64-151 | with all brackets closed, printing the tree gives the input back exactly when it does not end in an operator |
| `FilterParsing.ParseIsNarrow` | filter/eval.go:30-44 | the root and every group have at most one child, so evaluating the first child loses nothing, and operators have one at least |
| `FilterPrecedence.ClimbKeeps` | filter/parse.go:128-138 | the climb keeps whether the open tree respects precedence, and ends at the operator of the last drop or the group's first |
| `FilterPrecedence.DropApplies` | filter/parse.go:128-141 | on a drop the new operator becomes the outermost one of its group, with all that came before below it, which keeps precedence exactly when its level is not above that of the outermost operator before |
| `FilterPrecedence.OperatorApplies` | filter/parse.go:109-151 | of all operators only such a misplaced drop breaks precedence |
| `FilterPrecedence.PrecedenceIff` | filter/parse.go:109-151 | for every accepted sequence, no operator of the tree has a looser operator as a direct child exactly when no bracket group has a misplaced drop |
| `FilterPrecedence.PrecedenceLost` | filter/parse.go:128-141 | whenever levels rise and then drop between the two, as in `a or b = c and d`, the last operator ends above the first, and precedence is lost |
| `FilterReading.OneReading` | filter/tokens.go:125-169 | a token sequence has at most one conventional reading, in which operators bind by level and equals to the left |
| `FilterReading.RunLeans` | filter/parse.go:109-151 | in every run, operators behind a first child bind more tightly, none stands in the middle of a node, and no node could still be continued where it is a first child |
| `FilterReading.ReadsIff` | filter/parse.go:21-34 | what the parser builds from a whole sequence reads as its tokens, and is the conventional reading exactly when no drop is misplaced |
| `FilterReading.ParsesBack` | filter/parse.go:21-34 | a conventional expression parses to its own tree, with runs of one operator over single operands in one node, exactly when no drop is misplaced |
| `FilterParser.TreeNode.IndexOf` | filter/treenode.go:100-107 | the first position of a child, or -1 exactly when it is none |
| `FilterParser.TreeNode.AddElement` | filter/treenode.go:62-66 | appends an unattached element and links it back |
| `FilterParser.TreeNode.PushElement` | filter/treenode.go:81-93 | the element takes the node's place below its parent, and the node becomes its only child |
| `FilterParser.Insert` | filter/treenode.go:81-93 | a push on the heap changes exactly the child lists and parents of the nodes involved |
| `FilterParser.Parser.AddLeaf` | filter/parse_branches.go:29-42 | a value becomes the last child of the current node, with links mutually inverse |
| `FilterParser.Parser.OpenBracket` | filter/parse.go:64-68 | a new group below the current node becomes the current node |
| `FilterParser.Parser.PushLast` | filter/parse.go:121-126 | the new operator takes the last child's place above it |
| `FilterParser.Parser.PushCurrent` | filter/parse.go:139-141 | the new operator takes the current node's place above it |
| `FilterParser.Parser.ClimbOperators` | filter/parse.go:128-138 | the climb loop over parent pointers is the climb of the value model, and never leaves the root |
| `FilterParser.Parser.ParseOperator` | filter/parse.go:109-151 | the branches on the heap agree with the value model, panics included; no attach panic or failed lookup can occur |
| `FilterParser.Parser.ParseCloseBracket` | filter/parse.go:71-89 | the loop to the innermost group agrees with the value model, panic included |
| `FilterParser.Parser.Turn` | filter/parse_branches.go:103-125 | one turn of the state machine on the heap is one step of the value model |
| `FilterParser.Parse` | filter/parse.go:21-34 | parsing on the heap fails exactly when the value parser does, and otherwise builds its tree, with parent and child links mutually inverse |
| `FilterEval.Expression.Eval` | filter/eval.go:30-54 | evaluation of heap nodes gives the value of the tree they form |
| `FilterEval.Expression.GetString` | filter/eval.go:107-126 | text of an operand, nested operators and groups included |
| `FilterEval.Expression.GetNumber` | filter/eval.go:223-243 | number of an operand; text that is no 64-bit number escapes as a panic of its own |
| `FilterEval.Expression.SwitchFunction` | filter/eval.go:56-105 | every operator of the table is evaluated as the tree's value says, unknown ones are faults |
| `FilterEval.Expression.EvalEquals` | filter/eval.go:128-172 | the loop gives the value the tree's equality has, region override and first failure included |
| `FilterEval.Expression.EvalNotEquals` | filter/eval.go:174-193 | the loop gives the value the tree's inequality has, first failure included |
| `FilterEval.Expression.EvalMathOperator` | filter/eval.go:245-314 | the left fold of the operator over the operands' numbers, with the rating override |
| `FilterEval.Expression.EvalAnd` | filter/eval.go:195-207 | the loop gives the value the tree's conjunction has, stopping at the first 0 or failure |
| `FilterEval.Expression.EvalOr` | filter/eval.go:209-221 | the loop gives the value the tree's disjunction has, stopping at the first text other than 0 or failure |
| `FilterBasics.DigitsValueIsPlaceSum` | filter/eval.go:392-395 | a text is read as a number exactly when it is all digits, and then counts each digit times ten to the power of the places behind it |
| `FilterBasics.ParsesIff` | filter/eval.go:392-399 | a text converts to x exactly when behind at most one sign there is a nonempty run of digits whose place sum, negated for a minus, is x and fits 64 bits; otherwise the conversion escapes |
| `FilterBasics.FormatParses` | filter/eval.go:107-117 | every 64-bit number reads back from its text, which has no plus, a minus exactly when negative and no leading zero |
| `FilterBasics.WrapMeans` | filter/eval.go:269-275 | a wrapped result is in range and differs by a multiple of 2^64 |
| `FilterBasics.Bitwise` | filter/eval.go:305-314 | the bitwise operators work on each of the 64 two's complement bits alone, sign bit included |
| `FilterBasics.OperatorTable` | filter/tokens.go:143-169 | which words are operators, upper case included, and on which of the five levels |
| `FilterBasics.RegionFreeMeans` | filter/eval.go:156-172 | exactly vs_0 to vs_5 stand for vs, bt_0 to bt_5 for bt, and every other text for itself |
| `FilterBasics.Calculates` | filter/eval.go:245-263 | two operands of an arithmetic operator: ev and eb of Mario Kart Wii pass, otherwise the first operand without a number fails it, or the operator is applied to both numbers in order |
| `FilterBasics.Equates` | filter/eval.go:128-172 | two operands with texts are equal exactly when the texts are, for rk of Mario Kart Wii with the region numbers dropped on both sides |
| `FilterBasics.Faults` | filter/eval.go:56-105 | too few operands, more than two alike, products and words that are no operator are faults |
| `FilterValue.EqualsMeans` | filter/eval.go:128-153 | for any number of operands, equality is 1 exactly when all have the first one's text |
| `FilterValue.NotEqualsMeans` | filter/eval.go:174-193 | for any number of operands, inequality is 1 exactly when all have a text and no later one has the first one's |
| `FilterValue.AndMeans` | filter/eval.go:195-207 | a conjunction is 1 exactly when every operand has a text other than 0 |
| `FilterValue.OrMeans` | filter/eval.go:209-221 | a disjunction is 1 exactly when some operand has a text other than 0 and all before it read 0 |
| `FilterValue.AllCompareFirst` | filter/eval.go:146-152 | the first operand that does not pass a comparison decides: 0, or its failure |
| `FilterConvention.ConventionHolds` | filter/eval.go:30-314 | for any mix of operators, brackets, faults and overrides: if no drop is misplaced, no equality, inequality or likeness repeats directly and no run starts with an overridden rating, evaluation gives the value of the conventional reading, two operands at a time |
| `FilterConvention.SequenceMeans` | filter/eval.go:30-54 | every whole sequence without misplaced drops has exactly one conventional reading, and under the same condition its value |
| `FilterConvention.EqualRun` | filter/eval.go:144-152 | a run of equalities holds exactly when all its operands have the first one's text |
| `FilterConvention.RunDiffers` | filter/eval.go:144-152 | `2 = 2 = 2` evaluates to 1, while its conventional reading has the value 0 |
| `FilterMeaning.ParsesTo` | filter/parse.go:109-151 | every written filter of the documented shape parses, to the tree that merges the and-nodes it may merge |
| `FilterMeaning.ParseEval` | filter/eval.go:18-44 | parsing then evaluating such a filter gives its meaning, Mario Kart Wii overrides, faults and escaping panics included |
| `FilterMeaning.ChainIsConjunction` | filter/eval.go:195-207 | a chain holds exactly when each conjunct does, whatever the others are |
| `FilterMeaning.FirstDecides` | filter/eval.go:195-207 | from left to right, the first conjunct that does not hold decides: it is false, or fails |
| `FilterMeaning.FilterAccepts` | serverbrowser/filter.go:10-41 | a filter of comparisons joined by and accepts a server exactly when every conjunct holds, however the nodes were nested; a bare operand counts by its number |
| `ServerFilter.FilterServers` | serverbrowser/filter.go:18-49 | parses on the heap once and keeps, in order, the servers of the game whose value is not zero; an unreadable filter or a fault finds nothing, a failed number conversion escapes |
| `ServerFilter.FirstUnvalued` | serverbrowser/filter.go:33-37 | the first server of the game without a value ends the search, as a fault or as an escape |
| `ServerFilter.SearchFindsMatching` | serverbrowser/filter.go:18-49 | a search with a filter of the documented shape finds, in order, the servers of the game it accepts; when it has no value on some of them, the first such one decides between an empty answer and an escaping panic |
| `ServerFilter.MatchingHolds` | serverbrowser/filter.go:28-42 | a server is among those exactly when it was listed, is of the game and is accepted |
| `FilterExample.MatchmakingFinds` | serverbrowser/filter.go:10-16 | a Mario Kart Wii search like the one documented finds a server exactly when the texts of its values are these: the version is "90", the profile not "43", fewer than 11 players, region vs or vs_0 to vs_5 whatever the rating, and p "0" |
| `FilterExample.VersionSearch` | serverbrowser/filter.go:18-49 | a search for version 90 finds a server exactly when its version is the text "90" |
| `Yaz1.VerifyYaz1Data` | common/mario_kart_wii.go:501-574 | the loop computes the verdict of the group-by-group specification and terminates |
| `Yaz1.VerifyGroup` | common/mario_kart_wii.go:519-559 | the inner loop from behind the flags of a group leaves the verdict the specification of the bits gives |
| `Yaz1.GroupsInStep` | common/mario_kart_wii.go:503-574 | from any point on, unless a length wraps, the verifier and the bit-by-bit decoder accept alike and consume alike |
| `Yaz1.GroupsBounded` | common/mario_kart_wii.go:503-574 | from any point on, an accepted stream counts at most 85 bytes for each byte read |
| `Yaz1.GroupsBehind` | common/mario_kart_wii.go:537-549 | once a length has wrapped, an accepted stream fails in the decoder or is done there at least four bytes earlier |
| `Yaz1.VerifierMeetsFormat` | common/mario_kart_wii.go:501-574 | without a wrapped length a stream is accepted exactly when the decoder stays inside input and output, ends at the expected size and cuts no group short; an accepted stream unpacks to that size uncut with the same bytes consumed exactly when no length wrapped, and otherwise fails or is done at least four bytes earlier |
| `Yaz1.WrappedLengthAccepted` | common/mario_kart_wii.go:537-549 | a concrete stream is accepted only because a long-run length wraps |
| `Yaz1Pack.RepeatIsCopied` | common/mario_kart_wii.go:526-548 | copying byte by byte repeats the last bytes of the output cyclically, for any overlap |
| `Yaz1Pack.DistanceReadsBack` | common/mario_kart_wii.go:526-546 | the two or three bytes written for a run give back its distance and length |
| `Yaz1Pack.Unpacks` | common/mario_kart_wii.go:501-574 | any literals and runs, packed byte by byte, unpack to what they expand to if no run reaches before the output, and to nothing otherwise |
| `Yaz1Pack.Verifies` | common/mario_kart_wii.go:501-574 | of packed literals and runs whose lengths do not wrap the verifier accepts exactly those in which no run reaches before the output, and consumes all bytes |
| `Yaz1Pack.EarlyRunRejected` | common/mario_kart_wii.go:528-536 | a concrete stream whose first run reaches 3840 bytes before the output is rejected |
| `Mii.CalculateMiiCRC` | common/mii.go:19-40 | the bit loop computes the register of the polynomial division |
| `Mii.FeedLinear` | common/mii.go:22-36 | feeding bits is linear over exclusive or of registers |
| `Mii.StoredCrcIsZero` | common/mii.go:92-98 | a record that stores the CRC it has with those bytes zero has CRC zero |
| `MiiPolynomial.ZeroIffMultiple` | common/mii.go:19-40 | a record has CRC zero exactly when its bits, as a polynomial over GF(2), are the product of x^16 + x^12 + x^5 + 1 and some polynomial |
| `MiiPolynomial.GeneratorPasses` | common/mii.go:24-33 | the bytes 01 10 21 of that polynomial have CRC zero |
| `Mii.ClearMiiInfo` | common/mii.go:63-100 | the in-place rewriting computes the cleared record, and leaves official ones alone |
| `Mii.ClearedRecord` | common/mii.go:69-98 | byte by byte what a cleared record keeps: the name up to its first null character, the looks and the flags without the birthday; everything else is zero, or 0x80 in the first byte of the identifier |
| `Mii.OfficialIff` | common/mii.go:42-67 | a record is left alone exactly when its identifier is 80 00 00 0k EC FF 82 D2 for k up to 5 |
| `Mii.ClearedCrcIsZero` | common/mii.go:63-100 | a cleared record passes the CRC check |
| `Mii.ClearIdempotent` | common/mii.go:63-100 | clearing twice is clearing once, on every record |
| `GhostFile.FieldAppend` | common/mario_kart_wii.go:233-236 | adjacent bit fields join into the field that spans both |
| `GhostFile.OrNextByte` | common/mario_kart_wii.go:233-236 | or-ing in the next shifted byte extends the gathered field |
| `GhostFile.TrimField` | common/mario_kart_wii.go:238-241 | shifting out the low bits and masking the high ones leaves the field in the middle |
| `GhostFile.GetBits` | common/mario_kart_wii.go:223-242 | reads exactly the bits of the field, first bit highest |
| `GhostFile.LapFieldsDetermine` | common/mario_kart_wii.go:244-282 | two headers agree on a lap's 24 bits exactly when they agree on its minutes, seconds and milliseconds |
| `GhostHeader.TimeReads` | common/mario_kart_wii.go:244-278 | the three bytes of a lap, from 0x04 for the race and 0x11 for the first, hold seven bits of minutes, seven of seconds and ten of milliseconds |
| `GhostHeader.TimeReadsBack` | common/mario_kart_wii.go:244-278 | of a header written byte by byte every time reads back |
| `GhostHeader.RaceAccepted` | common/mario_kart_wii.go:387-424 | such a header passes the race checks exactly with three laps, four nonzero times within 5:59.999, the expected total, and a total within one millisecond of the sum |
| `GhostHeader.SetupReads` | common/mario_kart_wii.go:284-314 | which bytes hold the course, the vehicle, the character, the controller and the compression flag, and which values pass |
| `GhostHeader.SetupAccepted` | common/mario_kart_wii.go:426-464 | a written header passes the setup checks exactly with these courses, characters, vehicles and controllers, compressed |
| `GhostHeader.FileAccepted` | common/mario_kart_wii.go:365-498 | a file put together from a header, a Mii, a size, a stream and a checksum is accepted exactly when the sizes, magic words and checksums are these and the parts pass |
| `GhostFile.CheckLaps` | common/mario_kart_wii.go:395-412 | accepts exactly when every time is nonzero and in range, and adds up the laps |
| `GhostFile.IsRKGDFileValid` | common/mario_kart_wii.go:365-498 | the checks in order accept exactly the files the specification accepts, for any CRC-32 function |
| `GhostFile.AcceptedUnpacksIff` | common/mario_kart_wii.go:466-495 | an accepted file unpacks to exactly the size it announces, uncut and with at most three bytes left over, exactly when no run length wrapped |
| `GhostFile.SetMiiData` | common/mario_kart_wii.go:348-350 | replaces exactly the Mii record |
| `GhostFile.RecalculateCRC` | common/mario_kart_wii.go:360-363 | stores the checksum of all bytes before it |
| `GhostFile.Sanitize` | sake/mario_kart_wii.go:394-395 | clears the Mii and redoes the checksum, in place, and changes nothing else |
| `GhostFile.SanitizedStaysAccepted` | sake/mario_kart_wii.go:387-395 | a file accepted for a course and score is still accepted after sanitising |
| `GhostFile.SanitizeIdempotent` | sake/mario_kart_wii.go:394-395 | sanitising again changes nothing |
| `TypeX.MoveHole` | serverbrowser/encryption.go:118-121 | passing a card into the hole keeps the deck complete, also when both places coincide |
| `TypeX.RotationKeepsDeck` | serverbrowser/encryption.go:116-121 | however its four indices coincide, the rotation loses and doubles no card |
| `TypeX.EveryCardOnce` | serverbrowser/encryption.go:12 | a deck holds every byte value exactly once |
| `TypeX.KeyRandBounds` | serverbrowser/encryption.go:70-102 | a draw ends within 12 tries, at most at its limit, having read the key cyclically one byte a try |
| `TypeX.CryptState.KeyRandom` | serverbrowser/encryption.go:70-102 | the retry loop computes the draw and terminates |
| `TypeXKeys.KeyRandWalks` | serverbrowser/encryption.go:70-102 | a draw walks along the sums of the card looked up and the key bytes, cyclically and with the key length behind the last, until the low bits, as few as the limit needs, are within it; a twelfth is reduced |
| `TypeX.ShufflingKeepsDeck` | serverbrowser/encryption.go:55-61 | the swaps permute the cards |
| `TypeXKeys.CardDrawn` | serverbrowser/encryption.go:55-61 | from the top place down, each gets for good the card of a place drawn from those not done, which takes its card |
| `TypeX.CryptState.Init` | serverbrowser/encryption.go:50-68 | deals, shuffles and seats the registers; the deck is complete |
| `TypeXKeys.KeyedReads` | serverbrowser/encryption.go:50-68 | the deck starts sorted and is shuffled whole, and the registers start on cards 1, 3, 5, 7 and that of the last sum |
| `TypeX.CryptState.InitKey` | serverbrowser/encryption.go:42-48 | mixes the key material into the challenge in place and keys the deck with it |
| `TypeXKeys.LastByteMixed` | serverbrowser/encryption.go:42-45 | changing the last byte of the key material changes exactly one byte of the challenge, at the place that its number times a key byte gives, by the same bits |
| `TypeXKeys.OnesReplace` | serverbrowser/encryption.go:42-45 | with a key of ones the material replaces the front of a challenge that is at least as long |
| `TypeX.CryptState.CreateHeader` | serverbrowser/encryption.go:26-40 | the header announces both lengths, and its last bytes key the state |
| `TypeXKeys.HeaderBytes` | serverbrowser/encryption.go:26-40 | the header is EB 00 00, five random bytes, E2 and the eight bytes of key material |
| `TypeX.CryptState.Turn` | serverbrowser/encryption.go:113-123 | the sequential assignments are the rotation, and keep the deck |
| `TypeX.CryptState.EncryptByte` | serverbrowser/encryption.go:112-134 | one byte is encrypted as specified, and the deck stays complete |
| `TypeXKeys.RotationCycles` | serverbrowser/encryption.go:116-121 | four different places pass their cards around, and no other card moves |
| `TypeXKeys.FreshStep` | serverbrowser/encryption.go:112-134 | one step on a sorted deck in closed form: how the registers move, and which two cards meet the byte |
| `TypeXKeys.KnownByte` | serverbrowser/encryption.go:112-134 | a concrete state encrypts 0 to 63 |
| `TypeX.CryptState.Encrypt` | serverbrowser/encryption.go:104-110 | the data is replaced in place by its encryption |
| `TypeX.StreamKeeps` | serverbrowser/encryption.go:104-110 | what every step of a stream keeps, the whole stream keeps |
| `TypeX.EncryptionKeepsDeck` | serverbrowser/encryption.go:104-134 | the cards stay a permutation over any number of bytes |
| `TypeX.StreamMirrored` | serverbrowser/encryption.go:104-110 | a side that undoes each step has recovered the data and holds the same state after every byte of any stream |
| `TypeX.StepUndone` | serverbrowser/encryption.go:112-134 | knowing the state, one byte is recovered and leads to the sender's next state |
| `TypeX.Mirrored` | serverbrowser/encryption.go:104-134 | a receiver that mirrors the updates has recovered the data and holds the sender's state after every byte |
| `TypeX.HeaderFollowed` | serverbrowser/encryption.go:26-40 | whatever the cipher, a receiver that follows the two length bytes finds the key material and recovers the data |
| `TypeX.ReceiverRecovers` | serverbrowser/encryption.go:20-40 | following the two length bytes of the header, a receiver recovers the data, for every nonempty key and challenge and all random bytes |
| `TypeX.PacketsDiffer` | serverbrowser/encryption.go:20-23 | different data never gives the same packet |
| `TypeX.EncryptTypeX` | serverbrowser/encryption.go:20-23 | the packet is the header followed by the data encrypted in place |
| `GpcmLogin.StepKeeps` | gpcm/login.go:133-176 | every step of any connection keeps a logged-in or just registered session the entry of its profile |
| `GpcmLogin.RunSafety` | gpcm/login.go:133-176 | over all interleavings a logged-in session is the table entry of its own profile, and no two share one |
| `GpcmLogin.StepKeepsHolder` | gpcm/login.go:161-163 | a registration never overwrites; an entry goes away only when its own session closes while active |
| `GpcmLogin.HandoverNeedsClose` | gpcm/main.go:108-135 | an entry passes to another session only after its first session closed |
| `GpcmLogin.LogoutLeavesStale` | gpcm/login.go:209-212 | a logout of a logged-in session leaves its entry stale |
| `GpcmLogin.StaleForever` | gpcm/login.go:137-158 | a stale entry stays for good, and nobody ever becomes active for its profile |
| `GpcmLogin.TableLiveIff` | gpcm/login.go:209-212 | the table holds only active sessions exactly when no logged-in session ever logged out |
| `GpcmPolling.LooksDecide` | gpcm/login.go:144-170 | over every interleaving a login registers at its first look that finds no entry, and gives up exactly when it found one at the first look and after each of twenty-one sleeps |
| `GpcmPolling.LogsInAtOnce` | gpcm/login.go:117-176 | with no entry in the way the session becomes the entry at once; an unknown profile changes only the profile of the session |
| `GpcmPolling.ClosesWhole` | gpcm/main.go:108-135 | closing takes away the entry of a logged-in session and nothing else |
| `GpcmLogin.Sessions.AwaitEntry` | gpcm/login.go:139-158 | polls with the mutex released, gives up after 21 polls with the entry still there, or returns with it gone and the mutex held |
| `GpcmLogin.Sessions.Login` | gpcm/login.go:66-176 | whatever other connections do meanwhile, a login is a run in which its own steps are, in order, the fetch, the lookup, the polls and, on success, the finish; success means logged in and entered, failure of a known profile twenty-one polls |
| `GpcmLogin.Sessions.LogOut` | gpcm/login.go:209-212 | a logout clears the flag and leaves the table alone |
| `GpcmLogin.Sessions.CloseConnection` | gpcm/main.go:128-134 | removes the entry of the stored profile only for a logged-in session |
| `GpcmStream.SplitsIntoMessages` | gpcm/main.go:201 | splitting after the delimiter gives back the messages of a stream and what is left over |
| `GpcmStream.EndIsBoundary` | gpcm/main.go:197-199 | whatever fits the buffer and ends with the delimiter on the way through a stream of separable messages ends at a message boundary |
| `GpcmStream.InOrderFrom` | gpcm/main.go:187-234 | for separable messages and handlers that do not panic, from any buffered state on, after any fragments that fit, exactly the messages completed so far have been dispatched and the buffer holds the rest |
| `GpcmStream.Delivery` | gpcm/main.go:187-234 | however a stream of any length is cut, if no fragment overflows the buffer and no handler panics, exactly its messages are dispatched, in order, and nothing stays buffered |
| `GpcmStream.DroppedIsLost` | gpcm/main.go:188-193 | a cut that overflows the buffer never delivers the stream, whether or not a handler panics |
| `GpcmStream.PanicStays` | gpcm/main.go:180-201 | once a complete message whose handler panics is in the buffer, the buffer keeps all it holds, that message included, whatever fragments follow |
| `GpcmStream.PanicKeeps` | gpcm/main.go:180-234 | of buffered messages exactly those up to the first whose handler panics are dispatched, and all stay buffered |
| `GpcmStream.Redispatched` | gpcm/main.go:180-234 | the next fragment that completes a message dispatches all of them again, up to the same one |
| `GpcmStream.FragmentMeans` | gpcm/main.go:187-199 | beyond 16384 characters a fragment is dropped, and what does not end with the seven characters of the delimiter only waits |
| `GpcmStream.ShortFits` | gpcm/main.go:188-193 | a stream no longer than the buffer fits however it is cut |
| `GpcmStream.BadCut` | gpcm/main.go:197-201 | a message that starts like the rest of the delimiter, and could be buffered that far with the one before it, admits a cut that fits and dispatches a fragment as a message |
| `GpcmStream.InOrderIff` | gpcm/main.go:187-234 | for messages that each fit the buffer and handlers that do not panic, every cut that fits, of any prefix, dispatches messages as sent exactly when the messages are separable |
| `GpcmStream.DeliveryIff` | gpcm/main.go:187-234 | for separable messages, a cut delivers the stream exactly when no fragment overflows the buffer it meets and no handler panics |
| `GpcmStream.BackslashSeparable` | gpcm/main.go:206 | messages that start with a backslash are never in doubt |
| `GpcmStream.GameSpySession.DispatchAll` | gpcm/main.go:201-231 | visits the nonempty messages up to the first whose handler panics |
| `GpcmStream.GameSpySession.HandlePacket` | gpcm/main.go:187-234 | drops an overflowing fragment, waits for a delimiter, and keeps the buffer when a handler panics |
| `Reload.StepKeeps` | main.go:480-553 | every step keeps the busy count equal to the number of calls in flight and the mutex with one holder |
| `Reload.RunSafety` | main.go:610-628 | in every run no handler has a call outstanding between the end of a shutdown and the unlock, and the table holds no connection that the shutdown did not find |
| `ReloadHistory.RunProtocol` | main.go:480-553 | in every run a handler announces its connection first, forwards each packet read once, follows a failed packet with the close alone and a failed announcement with nothing, and makes one call at a time; the connection is in the table from the announcement to the close unless a sweep closed it |
| `Reload.WindowHolds` | main.go:424-443 | until the unlock no call starts and no connection is entered, every sweep goes on over what it started with, and a new one starts exactly when a backend with another identifier is compared |
| `Reload.UnchangedIff` | main.go:610-657 | from a shutdown in any run on, which leaves the table as it is, until the unlock: the table is unchanged while only backends with its identifier are compared and no older sweep has to close any of it; once all sweeps are done it is so exactly then, or when it was empty |
| `Reload.ReloadAfterReset` | main.go:639-651 | a reachable window in which the right backend is told to reload although a sweep has emptied the table |
| `Reload.ReloadOutsideWindow` | main.go:632-637 | a reachable state after the unlock in which a backend that found the mutex held is told to reload although the table changed |
| `Reload.IntegratedNeverReloads` | main.go:619-625 | a frontend that runs its own backend never answers to reload |
| `Reload.Frontend.Release` | main.go:485-545 | what a handler does under the mutex before each kind of call, or when its connection is gone |
| `Reload.Frontend.Returned` | main.go:493-524 | a finished call gives back its busy count and decides how the handler goes on |
| `Reload.Frontend.ShutdownBackend` | main.go:610-628 | once nothing is busy, the window opens with a new identifier, or with none when integrated |
| `Reload.Frontend.FindsBusy` | main.go:632-637 | busy exactly when the mutex is free; otherwise the comparison is still to come |
| `Reload.Frontend.VerifyState` | main.go:639-657 | starts a sweep over the connections of that moment for other state, and otherwise asks to reload unless the identifier is empty, whatever happened since the mutex was found held |
| `Reload.Frontend.CloseNext` | main.go:643-648 | one turn of a sweep closes one connection, with any steps between two turns |
| `Reload.Frontend.CloseAll` | main.go:643-648 | a sweep that nothing interrupts empties the table |
| `TlsRead.Conservation` | nas/tls.go:299-355 | a read hands out exactly the next bytes that remain, makes progress when it has room, and fails only when no application data is left |
| `TlsRead.HeadMeans` | nas/tls.go:316-333 | the verdict on a record by its five header bytes: types 15 to 17, the version, lengths 17 to 4091, or from 65531 on where adding the header wraps |
| `TlsRead.RefusalMeans` | nas/tls.go:335-348 | a record without application data closes the connection when it is an alert or its first decrypted bytes say so, and stays at the front decrypted |
| `TlsRead.RefusesForever` | nas/tls.go:335-348 | from then on every read is refused |
| `Keystream.FlipsBits` | nas/tls.go:336 | a bit is turned over exactly when the keystream has it set at the position of its byte |
| `TlsRead.ReadsInOrder` | nas/tls.go:299-355 | successive reads of any size hand out the payloads in order, each byte once |
| `TlsRead.ReadsComplete` | nas/tls.go:299-355 | enough reads with room hand out everything |
| `TlsRead.SealedCarries` | nas/tls.go:317-331 | records sealed as the peer seals them are recognised and open to their payloads, each at its place in the keystream |
| `TlsRead.SentIsRead` | nas/tls.go:299-355 | reads of any size return a prefix of the payloads sent, and enough of them return all |
| `TlsRead.ConsoleTlsConn.Fill` | nas/tls.go:306-314 | how the wire is cut into fragments leaves no trace |
| `TlsRead.ConsoleTlsConn.NextRecord` | nas/tls.go:304-333 | the read loop finds the record or fault at the front of the wire |
| `TlsRead.ConsoleTlsConn.Open` | nas/tls.go:335-354 | decrypts one record in place and splits its payload between the caller and the buffer |
| `TlsRead.ConsoleTlsConn.Read` | nas/tls.go:299-355 | one read on the buffers is one read of the value model, whatever the fragments |
| `DwcPayload.DecryptDwc` | gamestats/dwc_crypt.go:41-77 | for every key set with nonzero modulus the loops over the cloned buffer compute the specified result, errors included, and accept exactly the encodings |
| `DwcPayload.RoundTrip` | gamestats/dwc_crypt.go:41-77 | every encoded plaintext of at least four bytes is accepted with its content |
| `DwcPayload.AcceptsIffEncoding` | gamestats/dwc_crypt.go:41-77 | for any mask and keystream, a byte string is accepted exactly when it is the encoding of some plaintext of at least four bytes |
| `DwcPayload.EncodingUnique` | gamestats/dwc_crypt.go:47-66 | that plaintext is unique |
| `DwcPayload.OldTypeIff` | gamestats/dwc_crypt.go:68-76 | an old-type body comes back as sent exactly when its first word does not announce its own length |
| `DwcPayload.NewTypeRoundTrip` | gamestats/dwc_crypt.go:70-73 | a new-type body always comes back as sent |
| `DwcPayload.SumIsTotal` | gamestats/dwc_crypt.go:60-63 | the checksum is the sum of all bytes modulo 2^32 |
| `DwcPayload.ChecksumMasked` | gamestats/dwc_crypt.go:47-48 | each bit of the checksum is that of the first word, turned over where the mask has it set |
| `DwcPayload.SeedMeans` | gamestats/dwc_crypt.go:50-52 | the seed is the low half of the checksum, twice |
| `DwcPayload.KeystreamMeans` | gamestats/dwc_crypt.go:50-58 | for a modulus that divides 2^32 the keystream in closed form: bits 16 to 23 of a^n s + c (1 + a + ... + a^(n-1)) reduced |
| `DwcPayload.WrapsFirst` | gamestats/dwc_crypt.go:56 | for other moduli the product wraps at 2^32 before it is reduced |

## Left out

- Filter scanning and operator lexing: the model starts from tokens; positions in UTF-8 text add bulk only.
- Function calls in filters and the stray single `=` branch of the operator part: argument parsing rolls back over spaces, and the operator table claims every `=` first.
- `like` matching: a parameter of the evaluator, since it rests on the regular expression library; shifts are evaluated by the source but no operator token spells them.
- SQL generation from filters: its meaning rests on the database.
- NATNEG retry goroutines, timers firing on their own, address check, natify, preinit and packet replies: timing and network output only; a local address is kept as its six bytes, and a failed acknowledgement is a flag of the message.
- NATNEG version mismatches end before a handler runs and change nothing.
- CRC-32, RC4, MD5 and SHA internals: functions or keystreams that the theorems hold for whatever they are.
- The weight class, input length, compressed size and padding checks of ghost files only log and decide nothing.
- TypeX random header bytes are arguments; the key, the challenge and the data are separate objects.
- `GpcmLogin.Sessions.Login`: authentication, the database and the texts exchanged are one flag that says whether the profile was found; a login that fails earlier changes nothing modelled.
- `GpcmStream.GameSpySession.HandlePacket`: handlers are reduced to whether they panic; command lookup, responses and the write buffer are not modelled.
- GPCM and NATNEG state saved and loaded through gob.
- Reload: a sweep closes the connections entered when it starts; one entered during a sweep may be closed by it in the source, and a runtime that detects the concurrent use of the map stops the program.
- Reload: one waiter per shutdown, as with the integrated reload or a shutdown asked for by a separate backend; starting processes, the calls themselves and the exit on a closed client are steps of the environment, and liveness is not promised.
- TLS handshakes, certificates and MAC checking; a record length that wraps when the header is added panics in the source and is an outcome of its own here.
- Token, hash and proof texts of the statistics server: only the payload encoding is modelled.
- Database queries, HTTP and SOAP handlers, logging, configuration, profanity, rankings and storage rules.
