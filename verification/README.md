# A verified model of the game backend

The repository is the server side of a frame-synchronised multiplayer game, written in Go. This
project models its stateful cores in Dafny and proves what they promise, over every input, every
run and every interleaving of their steps.

| modules | what they model |
|---|---|
| `ConfigText`, `ConfigLine`, `ConfigListing`, `ConfigFormat`, `ConfigReading`, `ConfigExact`, `ConfigStore`, `ConfigVars`, `ConfigStrings`, `Config` | the configuration language: comments, line parser, printer, variable unfolding, and the object with its numbered maps |
| `Ranking` | the leaderboard, spliced in place |
| `Framing`, `Sending` | ten-byte headers, reassembly from arbitrary reads, and the send buffer with partial writes |
| `Ring`, `SortOrders`, `Migration` | the sharding ring, its lookup and its sort, and the tool that adds and removes nodes |
| `Signup`, `SignupProgress` | signing up across the master and the databases, call by call |
| `Agents`, `Sessions`, `SessionAgents` | the master's round-robin allocator and session records |
| `Matching`, `MatchingOrder`, `Room`, `GameEnd` | gathering players, the room with its two routines, and the rewards at the end of a game |
| `Hall`, `HallHandler`, `TreasureBoxes` | shops, treasure boxes and the black market |
| `Basics` | small datatypes and sequence facts |

## How it is built

Where the source updates an object step by step there is a class with the same fields, and each of
its methods is proved to have exactly the effect of a function on values. The theorems are about
those functions: a run is a fold of steps, and what holds of every run is proved by induction over
it. History functions that know nothing of the implementation (`Ranking.Latest`,
`Room.HistoryOf`, `Signup.LastIndexer`, `Sessions.Latest`, `Hall.GoldFlow`) say what the state is
compared with.

- Calls that may fail take their effect as a parameter: done, not done, or done but reported as
  failed. Random draws, clocks, the order of Go maps and what a socket gives or takes are
  parameters too. A Go panic is an outcome of its own.
- Integer widths are written out where the source can reach them: the 64-bit id counter, the
  32-bit frame ids, allocation counter, balances and totals, and the 16-bit ring.
- Each action of a room, each tick and each call to the master or a database is one step. A tick
  that has to wait for space in the room's queue goes on in a later step. Sessions may change in
  any way between two steps of a room.
- `Framing.Receiver` and `Sending.Sender` keep ghost records of everything consumed, posted and
  written, and their `Valid` ties the real fields to them; `Migration.Tool` records every call it
  makes. `Ranking.RankingList.Serve` ties the list to the actions it has served.

## Where the code differs from its description

- `DbCluster.Sort` is said to put nodes in ascending order. Its inner loop starts from node 0 and
  compares with the wrong node, so of all orders of three or more nodes exactly three come out
  ascending (`SortOrders.SortsThree`), and not the ascending one (`Ring.SortKeepsOrderExactly`).
  Lookup on any other table is characterised by `Ring.ReachableNodes`.
- `Signin` means to load the stored session, but tests the read's error the wrong way round; the
  record is never loaded (`Sessions.SigninForgetsServer`).
- Multi-line values are read but not printed in a form that can be read again
  (`ConfigExact.ComesBackSingle`, `ConfigExact.RoundTripExactly`); the three lines "[s]", "a: b" and
  " c" already are such a file (`ConfigExact.MultiLineExample`).
- A variable that names no option is a nil dereference, the outcome `Crash` of `ConfigVars`
  (`ConfigStrings.CrashesExactly`, `ConfigStrings.CrashExample`).
- Unfolding replaces text: literal text and a value can make up a variable together, which is then
  unfolded as well (`ConfigVars.UnfoldsToMeaning`, `ConfigStrings.LiteralTextMatters`).
- `addNodef` moves the records below the new node's id, while lookup gives the new node the
  records at its id too (`Migration.AddedWhereLookedUp`, `Migration.NewValueExample`).
- The leaderboard turns away a listed player's lower score when the board is full
  (`Ranking.TopTenStep`); losing a game lowers a score by five, so this does happen
  (`Ranking.FallingScoreStaysListed`).
- An existing name is refused by a check that is separate from the store, so rivals can both be
  told OK (`Signup.FirstRivalIsLost`, `Signup.LostExactlyWhenOvertaken`).
- A full queue at the end of a game keeps its room and members for ever
  (`Room.FullQueueKeepsMembers`, `Room.FloodKeepsMembers`).
- A check can claim a player for a game server and still be answered with an error
  (`Sessions.ClaimedDespiteError`, `Sessions.ClaimedExample`).
- Opening an item that is no treasure box is a panic: the awards are an empty list
  (`Hall.CrashesExactly`, `Hall.OpenedItemCrashes`).
- A result report that names someone who is not in the room is a panic at the end of the game
  (`GameEnd.SettledExactly`, `GameEnd.StrangerExample`).

## Model

| member | source | states |
|---|---|---|
| ConfigText.StripComments | common/config/config.go:143-151 | cutting a line at one marker after another leaves the text before the earliest of the four markers |
| ConfigText.Index | common/config/config.go:146-148 | the first place of a two-character pattern, -1 exactly when it does not occur |
| ConfigLine.SettingRoundTrip | common/config/read.go:89-92 | a printed option line is read as the same option and value if and only if option and value are well formed |
| ConfigLine.HeaderRoundTrip | common/config/read.go:71-74 | a printed section line is read as the same section if and only if its name is well formed |
| ConfigLine.CommentLineIsBlank | common/config/read.go:67-68 | a header comment means nothing to the reader |
| ConfigFormat.RoundTrip | common/config/write.go:42-90 | a savable listing printed under any header, comment and separator style is read back as it was: sections, options, values and their order |
| ConfigExact.RoundTripExactly | common/config/write.go:42-90 | over all listings and print styles: what is printed reads back as exactly the same listing if and only if the listing is savable |
| ConfigExact.ReadIsTidy | common/config/read.go:58-100 | whatever file is read, every section name could be printed again, no option name holds a separator, and a line break in a value is followed by text |
| ConfigExact.ComesBackSingle | common/config/read.go:76-81 | a listing that survives printing and reading has no multi-line value and no option without a name |
| ConfigExact.MultiLineExample | common/config/read.go:76-81 | a file of three lines whose listing, in no print style, can be saved and read back |
| ConfigFormat.ReadsPrinted | common/config/read.go:58-100 | reading a printed listing whose lines are each read as their own option gives the same sections and options with the values so read |
| ConfigFormat.LinesOfPrint | common/config/write.go:42-90 | the printed text is exactly the header lines, then a title and option lines for each section, then an empty line |
| ConfigFormat.FeedEntries | common/config/read.go:89-92 | the printed option lines of a section, read in order, rebuild the list of its options |
| ConfigFormat.LinesOfOpenEnd | common/config/read.go:60-62 | the last line of a file counts whether or not it is closed |
| ConfigReading.ReadingFailsExactly | common/config/read.go:58-100 | reading fails if and only if some line is longer than 65535 bytes, or, cut of comment and trailing blanks, is not empty, no comment and no title, and either starts with a blank where the lines before open no section and option, or has no = or : behind its first character as its first mark |
| ConfigReading.ReadingMeans | common/config/read.go:58-100 | after reading any file onto any configuration, an option has the value of its last line and the lines that continue it, every other one the value it had, and new sections follow in the order of their titles |
| ConfigReading.TextExactly | common/config/config.go:143-151 | a line is cut at the first of the four comment marks, and of white space before it |
| ConfigReading.BytesExactly | common/config/read.go:60 | the length the scanner limits: one byte a character, and one more from each of the codes 0x80, 0x800 and 0x10000 on |
| ConfigListing.RawExactly | common/config/type.go:100-118 | an option has the value listed in its section, or, only when that lacks it, in the default one |
| ConfigStore.AddSectionRefines | common/config/section.go:34-38 | adding a section to the numbered maps appends it to the ordered list and keeps numbers distinct and below their counters |
| ConfigStore.AddOptionRefines | common/config/option.go:35-38 | storing an option under the next position is moving it to the end of its section with the new value; positions stay distinct and below the counter |
| ConfigStore.RemoveOptionRefines | common/config/option.go:44-53 | deleting an option from the map takes exactly it out of the ordered list |
| ConfigStore.RemoveSectionRefines | common/config/section.go:53-59 | deleting a section and its counters takes exactly it out of the ordered listing |
| ConfigStore.OrderedMembers | common/config/section.go:78-85 | walking the numbers in order meets every numbered key once |
| Config.ViewIsProper | common/config/config.go:56-69 | any reachable store stands for a listing with every section once, the default section first, and every option once in its section |
| Config.OrderedFits | common/config/section.go:75-85 | the walk over the section numbers never writes past an array of the number of sections, and fills it |
| Config.Config.constructor | common/config/config.go:87-117 | a new configuration is the empty listing with its default section and the chosen separator |
| Config.Config.AddSection | common/config/section.go:24-41 | the section is appended once; the answer says whether it was new |
| Config.Config.RemoveSection | common/config/section.go:45-62 | the section goes, unless it is the default one or unknown; the answer says which |
| Config.Config.AddOption | common/config/option.go:26-40 | the option is at the end of its section with the new value; the answer says whether it was new |
| Config.Config.RemoveOption | common/config/option.go:44-53 | exactly this option goes; the answer says whether it was there |
| Config.Config.RawString | common/config/type.go:100-118 | the value of an option in its section, else in the default section |
| Config.Config.String | common/config/type.go:127-155 | the value with the variables of the file and then those of the environment unfolded |
| Config.Config.Sections | common/config/section.go:74-88 | every section once, in the order added, in an array of exactly that length, whatever the order of the Go map |
| Config.Config.Write | common/config/write.go:42-90 | the text is the printed listing, and printing leaves every section without options |
| Config.Config.WriteOptions | common/config/write.go:67-80 | the options of a section are printed in position order, each once, and removed |
| Config.Config.WriteSection | common/config/write.go:55-82 | a section is printed with its title, an empty default section not at all |
| Config.Config.ReadLine | common/config/read.go:61-97 | one scanned line has the effect of feeding it to the line parser |
| Config.Config.Read | common/config/read.go:58-100 | reading a text onto a configuration is feeding its lines one by one; it fails exactly when a line is too long, says nothing known, or starts with a blank where no section and option are open |
| Config.Config.Merge | common/config/config.go:129-139 | map override with the source winning, whatever the order of the Go maps; sections without options are not copied |
| Config.SaveAndLoad | common/config/write.go:27-40 | saving one configuration and loading the file into a fresh one brings the same listing if and only if it is savable |
| ConfigVars.ComputeVar | common/config/type.go:27-57 | the loop is leftmost unfolding with a budget of 200 rounds |
| ConfigVars.StringsFollowTokens | common/config/type.go:30-48 | replacing text between positions is replacing one reference at a time, unless literal text has begun a variable by the time the loop stops |
| ConfigVars.RewriteMeans | common/config/type.go:30-54 | for all values and references: replacing the leftmost one at a time yields the recursive expansion, stops at the first missing or empty one, or runs out of depth, exactly as the meaning and its number of replacements say |
| ConfigVars.SucceedsExactly | common/config/type.go:30-54 | success if and only if nothing reached is missing or empty, no reference leads back to itself, and at most 199 replacements are needed; the result is the full expansion |
| ConfigVars.ExpandsExactly | common/config/type.go:30-54 | a value has a full expansion if and only if nothing it leads to is missing or empty and no reference leads back to itself |
| ConfigVars.UnfoldsToMeaning | common/config/type.go:27-57 | on all texts: when the meaning is a full expansion, the loop yields it if and only if no variable is left in it; whatever the meaning - expansion, empty-variable error, crash on a missing variable or cycle error - the loop ends so if literal text has begun no variable where it stops |
| ConfigVars.ExpandsInText | common/config/type.go:30-48 | for all values and budgets: the text unfolds to its full expansion if and only if the budget exceeds the replacements needed and the expansion holds no variable made of literal text |
| ConfigVars.ValueHasNoVariable | common/config/type.go:32-35 | a text that the loop yields has no variable in it |
| ConfigVars.PlainStopsClear | common/config/type.go:46-47 | where no literal is the first character of a variable's bracket, literal text begins none, however many references are replaced |
| ConfigVars.CycleNeverUnfolds | common/config/type.go:50-54 | a value that reaches a reference cycle never unfolds, whatever the budget; its error is the cycle error if and only if no missing or empty reference comes first within the budget |
| ConfigVars.UnfoldsExactly | common/config/type.go:27-57 | on all texts: the loop yields the full expansion if and only if nothing reached is missing or empty, nothing leads back to itself, at most 199 replacements are needed and no variable is left |
| ConfigVars.TokenizeRenders | common/config/config.go:51-52 | every text is the rendering of its literals and references |
| ConfigVars.VariablesExactly | common/config/config.go:51-52 | where each of the two expressions matches, character by character, and which name it finds |
| ConfigStrings.StringIsMeaning | common/config/type.go:127-155 | String is the meaning of the option's value, of its references to options and then of those to the environment, errors and crash included, unless literal text has begun a variable where a pass stops |
| ConfigStrings.StringExpandsExactly | common/config/type.go:127-155 | when both passes have a full expansion, they come to exactly these if and only if neither holds a variable made of literal text |
| ConfigStrings.LiteralTextMatters | common/config/type.go:46-47 | two options and a text that stands for `%(b)s` told by its references, which the source unfolds once more |
| ConfigStrings.ErrorAgreesAnyway | common/config/type.go:34-42 | a text in which literal text begins a variable, and which crashes on the same missing variable all the same |
| ConfigStrings.CrashesExactly | common/config/type.go:137-141 | unless literal text has begun a variable where the pass stops, String dereferences nil if and only if the option is there, the first of its references without a usable value names no option, and at most 199 replacements come before it |
| ConfigStrings.LoneVariableCrashes | common/config/type.go:137-141 | a value that is one variable crashes when nothing has its name |
| ConfigStrings.CrashExample | common/config/type.go:137-141 | a listing with one option on which String crashes |
| Ranking.RankingList.Positions | game_server/tcp_service.go:752-760 | one pass finds the place of the new score and that of the old entry, -1 when there is none |
| Ranking.RankingList.Cut | game_server/tcp_service.go:767-773 | the old entry and nothing else is cut out in place |
| Ranking.RankingList.Splice | game_server/tcp_service.go:774-780 | the new entry is spliced in before the first score that is not higher |
| Ranking.RankingList.Record | game_server/tcp_service.go:744-789 | the list after a submission is the submission function of the list before; refused submissions change nothing |
| Ranking.RankingList.Serve | game_server/tcp_service.go:736-817 | from an empty list, the loop serves the actions up to the first nil, leaves the board of their history, and answers each query with the board of that moment |
| Ranking.SubmitSpec | game_server/tcp_service.go:749-789 | who stays and who drops out after an accepted submission, and that the tenth score does not fall |
| Ranking.EntersExactly | game_server/tcp_service.go:744-789 | a complete record from no robot is entered if and only if fewer than ten are listed or its score beats the tenth; it stands behind the higher scores of the others and before the rest, the eleventh drops out, and nothing else changes the board |
| Ranking.AnsweredExactly | game_server/tcp_service.go:811-816 | a player is sent the board exactly for its queries, as it stood then |
| Ranking.BoardIsValid | game_server/tcp_service.go:743-789 | after any history: sorted, one entry a player, at most ten |
| Ranking.TenthNeverFalls | game_server/tcp_service.go:749 | once there are ten there are always ten, and the tenth score never falls |
| Ranking.BoardShowsLatest | game_server/tcp_service.go:743-789 | every player whose latest score beats the tenth is listed with exactly that record, and a listed record is out of date only when the latest score is below the tenth |
| Ranking.TopTenExactly | game_server/tcp_service.go:743-789 | the board is a top ten of latest scores if and only if no listed score is out of date |
| Ranking.RisingScoresGiveTopTen | game_server/tcp_service.go:743-789 | if no player's score ever falls, the board is exactly a top ten of latest scores |
| Ranking.TopTenStep | game_server/tcp_service.go:749 | a true top ten stays one exactly when the next submission is not a listed player's fall that the entry test turns away |
| Ranking.FallingScoreStaysListed | game_server/tcp_service.go:749 | ten players and one lost game: the board still shows a score its player no longer has |
| Framing.HeadRoundTrip | game_server/tcp_service.go:1175-1181 | decoding an encoded header gives the id and length back |
| Framing.HeaderIsTenBytes | game_server/tcp_service.go:1175-1181 | the header of a message with an id takes ten bytes if and only if its body is empty or its length is no multiple of 2^32 |
| Framing.BytesOfFrame | game_server/tcp_service.go:1165-1189 | the bytes of a frame: field 1 and the id, field 2 and the length, -1 for an empty body, each in four bytes with the least significant first, then the body |
| Framing.LongBodyEnds | game_server/tcp_service.go:312-340 | a body of more than 5120 bytes ends the session, as does a header that cannot be decoded |
| Framing.DeframeResumes | game_server/tcp_service.go:290-373 | where a stream is cut into reads does not matter |
| Framing.DeframeFrames | game_server/tcp_service.go:312-373 | a stream of frames with bodies up to 5120 bytes is cut into exactly the messages it was made of, up to the first, if any, that ends the session |
| Framing.StreamPrefix | game_server/tcp_service.go:290-373 | any beginning of a stream of frames yields a beginning of what the whole stream yields, and ends the session only where the whole stream does |
| Framing.Receiver.Store | game_server/tcp_service.go:299-310 | the bytes read land behind those already there, inside the buffer |
| Framing.Receiver.FinishHead | game_server/tcp_service.go:312-326 | a complete header is decoded and the body comes next; an incomplete one waits |
| Framing.Receiver.FinishBody | game_server/tcp_service.go:327-373 | a complete body is handed over, an overlong one ends the session, an incomplete one waits |
| Framing.Receiver.Turn | game_server/tcp_service.go:287-375 | after any turn the messages handed over are those of all bytes consumed, and the session goes exactly on a broken connection or a bad frame |
| Framing.ReceiveAll | game_server/tcp_service.go:290-373 | fed a stream of frames in any pieces, empty ones included, a session hands over a beginning of the messages; at the end all of them, or those up to the first that ends it |
| Framing.AllHandedOut | game_server/tcp_service.go:341-364 | all messages are handed over if and only if the session survives every beginning of them |
| Framing.OthersEndSession | game_server/tcp_service.go:342-344 | a message other than the sign-in ends a session that is not authenticated by then, whichever message of the stream it is |
| Framing.SessionGoesOnExactly | game_server/tcp_service.go:341-364 | a session survives a stream if and only if each message is the sign-in or comes when authenticated, and its handler does not end the session |
| Framing.OwnDecoder | game_server/tcp_service.go:314 | the modelled header decoder meets what the stream theorems ask of a decoder |
| Sending.Sender.PostMessage | game_server/tcp_service.go:1046-1060 | a message is queued unless the connection is going or the queue is full; a full queue closes the connection |
| Sending.Sender.FillBuffer | game_server/tcp_service.go:380-399 | messages are copied one after the other while they fit; what is outstanding does not change |
| Sending.FillsExactly | game_server/tcp_service.go:380-399 | filling copies the held message and then those queued up to the first that is nil, has no id or does not fit, and holds only the one that does not fit |
| Sending.Sender.Write | game_server/tcp_service.go:401-419 | the bytes taken are the first pending ones; the buffer is reset when empty |
| Sending.Sender.Turn | game_server/tcp_service.go:377-420 | for any partial write: bytes written, pending bytes, the held message and the queue always make up the frames of all posted messages in order |
| Sending.Sender.RunTurns | game_server/tcp_service.go:377-420 | with a socket that takes everything and messages no longer than the buffer, everything posted is written after one turn more than messages wait |
| Sending.WireOfPosts | game_server/tcp_service.go:1165-1189 | the wire of posted messages with ids is the concatenation of their frames |
| Sending.Sender.ReaderSeesPosted | game_server/tcp_service.go:377-420 | end to end: a reader of what the socket has taken has been handed a beginning of exactly the posted messages, and all of them once nothing is outstanding unless one ends its session |
| Ring.ConsecutiveIdsCoverRing | common/utility.go:66-70 | any 65536 consecutive player ids, the 64-bit counter wrapping, hit every ring value exactly once |
| Ring.ValueExactly | common/utility.go:66-70 | the ring value keeps the low twelve bits of the id and moves its high four on by the low four of the id |
| Ring.BlockFillsAllArcs | common/utility.go:66-70 | the sixteen ids of an aligned block fall in sixteen different arcs |
| Ring.LoadExactly | common/utility.go:66-70 | how many of the first n ids fall in each arc |
| Ring.LoadsAreEven | common/utility.go:66-70 | no arc holds more than one id more than another |
| Ring.OwnerIsSuccessor | common/utility.go:130-139 | on an ascending ring the lookup finds the one node whose arc holds the value |
| Ring.ReachableNodes | common/utility.go:130-139 | on any ring a node past the first is ever looked up if and only if its value exceeds all before it |
| Ring.DbCluster.constructor | common/utility.go:41-47 | a cluster of nodes with their connections |
| Ring.DbCluster.ReadValues | common/utility.go:85-101 | each node's value is the number in its id; refused exactly when one has no number in range |
| Ring.DbCluster.FindSwap | common/utility.go:105-110 | the last later node with a smaller value, else node 0 |
| Ring.DbCluster.Exchange | common/utility.go:104-124 | the in-place loop is the exchange function of the table before it |
| Ring.DbCluster.GetNodeIndex | common/utility.go:132-138 | the first node whose value is not below the given one, else node 0 |
| Ring.DbCluster.GetNodeIndexByPlayerId | common/utility.go:130-139 | the lookup of a player id's ring value |
| Ring.SortPermutesRows | common/utility.go:104-124 | Sort permutes whole rows of node, value and connection |
| Ring.SortsTwo | common/utility.go:104-124 | two nodes with different values are put in order |
| Ring.SortRotates | common/utility.go:104-124 | what Sort does to a table already in order: the last row it touches goes to the front |
| Ring.SortKeepsOrderExactly | common/utility.go:104-124 | a table in order stays in order if and only if it has at most two rows |
| SortOrders.SortsThree | common/utility.go:104-124 | an ascending table of three or more rows is what Sort makes of a table if and only if that is one of three orders of its rows |
| SortOrders.SortsExactly | common/utility.go:104-124 | Sort leaves a table of three or more rows ascending if and only if it lists them in one of these three orders |
| Migration.Tool.MoveRecord | db_server/db_tool/main.go:226-233 | two calls in this order: put into one database, then delete from the other whatever the put answered |
| Migration.Tool.AddNode | db_server/db_tool/main.go:215-237 | the calls made are a put and then a delete for each record below the new node's id, in the order walked; those records move, minus failing puts and deletes, and nothing else changes |
| Migration.Tool.DelNode | db_server/db_tool/main.go:329-345 | the calls made are a put and then a delete for every record; every record moves, minus failing puts and deletes |
| Migration.LostExactly | db_server/db_tool/main.go:216-237 | after any number of calls, also between the two for a record: it is on neither database if and only if its put failed and its delete, already made, succeeded; wherever it is, it is unchanged |
| Migration.NeverLost | db_server/db_tool/main.go:216-237 | a record that moves is on at least one database after every call if and only if not both its put fails and its delete succeeds |
| Migration.AddedWhereLookedUp | db_server/db_tool/main.go:225 | a record of the split node ends where the enlarged ring looks for it if and only if its ring value is not the new id and it does not wrap to a node inserted at the front |
| Migration.OthersStay | common/utility.go:130-139 | records of other nodes are looked up where they were |
| Migration.DeletedWhereLookedUp | db_server/db_tool/main.go:329-345 | moved records are where the shrunk ring looks for them if and only if they went to the next node up |
| Migration.OthersStayDeleted | common/utility.go:130-139 | records of other nodes are looked up where they were |
| Migration.InsertKeepsPlaced | db_server/db_tool/main.go:215-237 | on a well placed ring, inserting a node keeps every record where it is looked up if and only if no record has the new id's value or wraps to the front |
| Migration.NewValueExample | db_server/db_tool/main.go:225 | a ring of one node and one record with the new id's value: the tool leaves it behind and the enlarged ring looks for it on the new node |
| Migration.DeleteKeepsPlaced | db_server/db_tool/main.go:329-345 | deleting a node into its upper neighbour keeps every record where it is looked up |
| Signup.Directory.CheckAndMakeAccount | account_server/account.go:524-592 | check, draw, store index, store record, stopping at the first failure: the state is that of these steps in a run with one signup |
| Signup.Directory.MakeAccount | account_server/account.go:558-591 | the three calls after the check, each of which may fail or do its work and still report failure |
| Signup.NextKeepsInv | account_server/account.go:524-592 | every call of any signup keeps: ids are drawn once, index entries and records belong to the signup that drew the id |
| Signup.RunKeepsInv | account_server/account.go:524-592 | so does every interleaving of any number of signups, with any call failing |
| Signup.IndexIsSound | account_server/account.go:435-499 | no two names index the same player id, and a record reached through a name carries that name |
| Signup.LastIndexerWins | account_server/account.go:562-572 | the index entry of a name is that of the signup which stored it last |
| Signup.FoundExactlyWhenLast | account_server/account.go:435-499 | a signup that reported success is found by its name, with its own id and password, if and only if it stored the index entry last |
| Signup.NoRivalIsFound | account_server/account.go:524-592 | a signup that reported success and has no rival for its name is found again |
| Signup.LostExactlyWhenOvertaken | account_server/account.go:541-572 | with readable checks, a signup that reported success is not found if and only if another one for its name passed its check before this one stored its entry, and stored its own after |
| Signup.FirstRivalIsLost | account_server/account.go:541-572 | two signups for one name can both report success, and the first is then not found |
| SignupProgress.ReportsExactly | account_server/account.go:524-592 | in every interleaving a signup is as far as its own calls say: it reports success if and only if its check, draw, entry and record were answered fine in this order and no entry for its name was there to be read by the check; any other answer fails it for good |
| SignupProgress.TakenExactly | account_server/account.go:541-549 | the index has an entry for a name if and only if some signup has stored one |
| Agents.AllocateAgent | master_server/grpc_service.go:333-341 | the loop returns the first available node from the counter on, and the counter behind it |
| Agents.AlwaysFindsExactly | master_server/grpc_service.go:422-430 | for every pattern of availability an available agent is found whenever there is one, if and only if the 32-bit counter does not wrap during the loop or the node count divides 2^32 |
| Agents.AllocationsAreFair | master_server/grpc_service.go:333-341 | over any k allocations without a wrap each of the m available agents is chosen k/m times, rounded down or up |
| SessionAgents.SigninNamesFirst | master_server/grpc_service.go:333-361 | an answer OK and the stored record name the id and address of the first available node from the counter on, which moves behind it; a sign-in is answered OK if and only if there is such a node with an id and the record is stored |
| SessionAgents.CheckNamesAgent | master_server/grpc_service.go:415-472 | a check answered OK names the first available node from the counter on when it asks for another agent, else that of the record, and leaves the record with it and with the asking server |
| SessionAgents.SigninsAreFair | master_server/grpc_service.go:333-341 | the answers to k sign-ins in a row name each of the m available agents k/m times, rounded down or up |
| SessionAgents.CheckRefusedExactly | master_server/grpc_service.go:369-413 | when a check is answered with an invalid parameter, when with an invalid session |
| SessionAgents.OfflineKeepsRest | master_server/grpc_service.go:480-530 | a stored sign-off leaves the record offline and otherwise as it was |
| Sessions.Service.SignIn | master_server/grpc_service.go:277-367 | the record written, the counter and the answer; the stored record is never loaded |
| Sessions.Service.CheckSession | master_server/grpc_service.go:369-478 | the checks in order, then Renew; the record, the counter and the answer |
| Sessions.Service.Renew | master_server/grpc_service.go:415-472 | another agent, the claim of a game server, and saving when needed |
| Sessions.Service.GoOffline | master_server/grpc_service.go:480-530 | the record is set offline whatever session id is shown; the answer says whether it was saved |
| Sessions.HeldUntilReleased | master_server/grpc_service.go:451-461 | over any run a player stays online at its server if and only if no sign-off or sign-in is stored and the record does not run out |
| Sessions.TakeoverNeedsRelease | master_server/grpc_service.go:451-461 | another server has the player only after such a release |
| Sessions.RecordIsLatest | master_server/grpc_service.go:325-352 | the stored session id is that of the last stored sign-in |
| Sessions.SigninLasts | master_server/grpc_service.go:325-361 | the session id of a sign-in answered OK is the latest one until another sign-in of its player is stored or the record runs out |
| Sessions.RecordShowsHolder | master_server/grpc_service.go:451-461 | after any run the record shows the player online at exactly the server that claimed it last, unless it was released since |
| Sessions.ServedExactly | master_server/grpc_service.go:369-478 | after any run a check is answered OK if and only if it shows the id of the last stored sign-in, unexpired and on record, an agent is found if one is asked for, nobody but the asking server holds the player, and what is to be saved is saved |
| Sessions.AdmittedExactly | master_server/grpc_service.go:403-413 | a check passes the session tests if and only if it shows the id of the last stored sign-in, unexpired and still on record |
| Sessions.OldSessionsRefused | master_server/grpc_service.go:403-413 | once a later sign-in is stored, an older session id is never answered OK and changes nothing, whatever happens in between |
| Sessions.SigninForgetsServer | master_server/grpc_service.go:317-324 | after a sign-in any server that shows the new id takes the player, even while the old one still runs it |
| Sessions.ClaimedDespiteError | master_server/grpc_service.go:422-472 | a check that claims the player is answered with an error if and only if no agent is left to reallocate, or the write is applied and reported as failed |
| Sessions.ClaimedExample | master_server/grpc_service.go:422-461 | a store and a request for which this happens |
| Room.StageNeverGoesBack | game_server/room.go:336-515 | over every interleaving the stage only moves forward and never leaves a terminal stage |
| Room.GamesHaveCause | game_server/room.go:351-442 | in every run, a game that has begun came past a loading report that found every member prepared, one that ended normally past a result report that found every member finished or offline, and one that broke off past a disconnect or a cancel |
| Room.CommandsConserved | game_server/room.go:545-619 | over every interleaving the commands of all frames built, then those buffered, are the accepted commands in order, each once; a command is refused only when 256 wait; frame ids are 1, 2, 3, ... in 32 bits |
| Room.EveryTickBuilds | game_server/room.go:545-619 | every tick of a game builds a frame, empty or not, and the frame counter is the number of those ticks in 32 bits |
| Room.StepConserves | game_server/room.go:407-419 | any one step keeps that |
| Room.NextKeepsInv | game_server/room.go:336-634 | any one step keeps: slots point at their own cells, at most 256 wait, a terminal room works off no more actions, members are all there until freed |
| Room.QueueIsFifo | game_server/room.go:341-344 | actions are worked off in the order they were put in, and the queue never holds more than 1024 |
| Room.FreedAtMostOnce | game_server/room.go:628-632 | Free runs at most once in any run, and only once the room is over or a stop was seen |
| Room.FreeLetsGo | game_server/room.go:122-148 | Free empties the member list and leaves every former member in the hall and roomless |
| Room.FreedExactlyWithSpace | game_server/room.go:622-632 | a step lets everyone go if and only if it is a tick, or the end of one that waits, that finds the room over or the server stopping and the queue with space for what is still to be pushed |
| Room.FullQueueKeepsMembers | game_server/room.go:628-632 | if the queue is full when the room is over, its members are never let go |
| Room.FloodKeepsMembers | game_server/room.go:351-358 | for every room of two or more prepared members a run in which this happens: the game begins, one player disconnects, and 1024 status checks from a player still playing come in before the next tick |
| Room.RoomInfo.constructor | game_server/room.go:195-210 | an opened room of the given sessions |
| Room.RoomInfo.Send | game_server/message_handler.go:647-652 | an action is queued unless the queue is full |
| Room.RoomInfo.PreparedPlayers | game_server/room.go:366-372 | the number of prepared members |
| Room.RoomInfo.DonePlayers | game_server/room.go:426-434 | the members with a result and the offline others add up to those done; results fit the array |
| Room.RoomInfo.Start | game_server/room.go:375-402 | the buffers are fresh, the frame counter is zero, every member is in the game |
| Room.RoomInfo.AddCommand | game_server/room.go:409-418 | the command goes into the next cell and slot unless 256 wait |
| Room.RoomInfo.WorkOff | game_server/room.go:341-513 | working off one action is one step of the room |
| Room.RoomInfo.RunTick | game_server/room.go:545-632 | one tick is one step of the room and builds exactly the frame that step emits |
| Room.RoomInfo.GoOn | game_server/room.go:622-631 | a tick that waited for space goes on as one step of the room |
| Room.RoomInfo.FreeAll | game_server/room.go:131-145 | every session of the list is sent to the hall and leaves it, sessions of others are untouched |
| Matching.RunIsOk | game_server/room.go:167-334 | in every run the waiting players are different and fewer than a room takes, every opened room is full of different connected players, and everyone queued is waiting, in a room, cancelled or dropped |
| Matching.PlayersAddUp | game_server/room.go:167-334 | queued = waiting + playerTotal for each room + cancelled + dropped |
| Matching.OpensExactly | game_server/room.go:211-290 | a room opens if and only if a new connected player completes the number and nobody listed is gone; it holds the list in order |
| Matching.TakeIsOk | game_server/room.go:178-332 | any one action keeps that |
| MatchingOrder.JoinerWaits | game_server/room.go:213-222 | a player who joins waits at the end of the list while the room is not full; one listed already changes nothing |
| MatchingOrder.JoinerCompletes | game_server/room.go:231-290 | the player who completes the number opens a room for the whole list when all are connected; otherwise exactly the others are dropped and the connected ones keep their order |
| MatchingOrder.CancellerLeaves | game_server/room.go:297-331 | a listed player who cancels leaves the list and is reported cancelled, nobody else moves; another one changes nothing |
| MatchingOrder.WaitingInOrder | game_server/room.go:167-334 | in every run those waiting are exactly those who asked to join and have since neither cancelled nor been dropped nor got a room, in the order in which they asked |
| MatchingOrder.JoinersGetRoom | game_server/room.go:192-290 | when nobody waits, as many different connected players as a room takes, joining in a row, get a room of their own |
| Matching.Routine.Enlist | game_server/room.go:192-296 | joining: the new waiting list, and the room that opens with exactly these sessions in it |
| Matching.Routine.CheckAndOpen | game_server/room.go:231-290 | gone sessions are dropped in place; only when none is gone the room opens |
| Matching.Routine.Cancel | game_server/room.go:297-331 | the player leaves the list and goes to the hall, or is not listed and nothing changes |
| Matching.Routine.Quit | game_server/room.go:179-191 | everyone waiting goes to the hall |
| Hall.AddChangesOne | game_server/game.go:505-523 | adding changes the count of that id alone and keeps ids different and totals in range |
| Hall.BuyHeroIsOk | game_server/message_handler.go:934-978 | buying a hero: allowed exactly as the shop promises, and exactly its price and the hero change hands |
| Hall.BuyItemIsOk | game_server/message_handler.go:980-1018 | buying an item, in either currency |
| Hall.BuyEquipIsOk | game_server/message_handler.go:1021-1057 | buying an equip, never a second one |
| Hall.BlackBuyIsOk | game_server/message_handler.go:1059-1101 | buying an offer of the black market that is not taken yet |
| Hall.OpenBoxIsOk | game_server/message_handler.go:1103-1144 | a box leaves the pack; what the player has already is refunded, what is new is given, an equip drawn twice is given once and refunded once |
| Hall.CrashesExactly | game_server/message_handler.go:1119-1129 | with sound tables an operation panics if and only if it opens an owned item that is not one of the three boxes; any other does what it promises |
| Hall.RefusedExactly | game_server/message_handler.go:934-1144 | which refusal each operation is answered with: an owned equip comes before the money in the shop, and after it in the black market |
| Hall.OpenedItemCrashes | game_server/message_handler.go:1119-1129 | sound tables and a player who buys an item and opens it: a panic |
| Hall.RunKeepsBooks | game_server/message_handler.go:934-1144 | over every run no balance is negative, pack and hero ids stay different, totals are not negative, no equip is owned twice, and balances, heroes and holdings change by exactly what was paid, refunded, bought, opened and awarded |
| Hall.OfferBoughtOnce | game_server/message_handler.go:1069-1098 | between two restocks an offer is bought at most once, exactly when it becomes taken |
| Hall.RestockOffersFresh | game_server/game.go:446-471 | whatever the map order and the random picks, a restock offers min(3, eligible) different shown equips the player does not own |
| Hall.AwardsAreKnown | game_server/game.go:298-443 | with rarity lists of at least two every draw is an entry of the tables |
| TreasureBoxes.HeroesOfBox | game_server/game.go:298-443 | which of two lists a box draws its hero from on which rolls, and that every entry but the last is drawn by some pick, the last by none |
| TreasureBoxes.EquipsOfBox | game_server/game.go:298-443 | the same for each of its equips |
| TreasureBoxes.HeroChances | game_server/game.go:284-296 | of the 99 rolls exactly 60, 70 and 50 bring a hero of the better list from the gray, blue and gold box |
| TreasureBoxes.EquipChances | game_server/game.go:284-296 | and as many an equip of the better list |
| TreasureBoxes.ShortLists | game_server/game.go:298-443 | what lists of one entry or none give, a panic included |
| TreasureBoxes.AnyOffers | game_server/game.go:446-471 | any three different shown equips the player does not own, or all when there are fewer, are offered in any order on some picks |
| HallHandler.Record.IsInPack | game_server/game.go:495-502 | whether some place of the pack holds the id with a positive total |
| HallHandler.Record.AddItem | game_server/game.go:505-523 | the first place of the id is changed, clamped at zero, or a new one appended; unknown ids change nothing |
| HallHandler.Record.AddProperty | game_server/game.go:526-531 | the balance changes in 32 bits |
| HallHandler.Record.HadHero | game_server/game.go:534-541 | whether the hero is listed |
| HallHandler.Record.GetBlackItem | game_server/game.go:550-558 | the first offer of an equip |
| HallHandler.Record.CollectEquips | game_server/game.go:447-452 | the shown equips that are not in the pack, in the order walked |
| HallHandler.Record.MakeBlackStoreEquip | game_server/game.go:446-471 | the loop offers what the choice function chooses |
| HallHandler.Record.DoBuyHero | game_server/message_handler.go:934-978 | the branches in the order of the source, with their answers and effects |
| HallHandler.Record.DoBuyItem | game_server/message_handler.go:980-1018 | the branches in the order of the source, with their answers and effects |
| HallHandler.Record.DoBuyEquip | game_server/message_handler.go:1021-1057 | ownership before currency before money, with their answers and effects |
| HallHandler.Record.DoBlackBuy | game_server/message_handler.go:1059-1101 | the offer before money before ownership, with their answers and effects |
| HallHandler.Record.DoOpenBox | game_server/message_handler.go:1103-1144 | the box leaves the pack before the awards are given in turn |
| HallHandler.Record.Handle | game_server/message_handler.go:924-1144 | one operation has the effect of its step, a panic included |
| GameEnd.WinnersInAnyOrder | game_server/room.go:444-467 | who wins does not depend on the order of the reports |
| GameEnd.CountVotes | game_server/room.go:445-460 | the loops count for each reported player its Win and Lose votes |
| GameEnd.VotesAreCounted | game_server/room.go:444-460 | the votes of a kind for a player are as many as their places in the reports |
| GameEnd.SettledExactly | game_server/room.go:463-491 | whatever the order of the Go map: the end of a game panics if and only if a report names someone not in the room; otherwise exactly the reported players are rewarded: 5 experience and, below 100 on the day's counter, 5 to 9 gold when Win votes outnumber Lose votes, 5 experience less otherwise, on a tie too |
| GameEnd.StrangerExample | game_server/room.go:463-465 | a room of one whose report names another player: a panic |
| GameEnd.GoldFollowsCounter | game_server/room.go:471-484 | over any run of games between daily resets the gold paid is the growth of the counter, the counter stays at most 108, and experience is 5 for each win less 5 for each loss |
| GameEnd.Settlement.SettleGame | game_server/room.go:445-491 | counting and rewarding in place is settling the accounts |

## Left out

- Sockets, timers, logging, gRPC, Consul, Redis and LevelDB clients: input and output; stores are maps.
- The authenticated reader and writer of `game_server/tcp_service.go`: its writer can overwrite a pending message, so no loss-free order holds there.
- Protobuf bodies and unknown header fields: a header is two fixed 32-bit fields; the stream theorems take any decoder that reads those back.
- Text is a sequence of Unicode characters: invalid UTF-8 in a configuration file is not part of this model.
- `Options`, `SectionOptions`, `HasOption`, `Bool`, `Int` and `Float` of the configuration: easy members.
- What a configuration holds after a failed read: the source hands it to nobody.
- Loading the leaderboard from Redis at the start and saving it every hundred changes: the model starts from an empty list.
- Ring values of names: the hash is an arbitrary function.
- The GAME and INDEX loops of the migration tool: they use the wrong iterator or database, so the claim would be false.
- A restart of the leading master, and more than 2^64 draws of an id: ids would repeat.
- Sign-in by password, id cards, nicknames, captcha, ping: easy members.
- The connection check and reconnect before each Redis call: one `reachable` flag.
- `SyncLoadInfo` and node registration: they only replace table entries.
- Room: fields are shared between the two routines without locking in the source; here each action and tick is atomic, and status checks have no effect.
- Room: a frame whose encoding is too long to be broadcast counts as built; marshalling and recording are not modelled.
- Room: the handlers' own checks before they queue an action; any action may be queued at any time, which only adds runs.
- Room ids: the global counter is read back without locking and may repeat.
- Matching: the matching type of a session and the messages sent back.
- Hall: the daily award switches on the wrong field and grants nothing useful; recycling and using items are empty in the source.
- Hall: heroes are their ids; of the player's properties only gold and soul.
- GameEnd: the messages to the players, saving, and the submission to the leaderboard.
- Write-back of player data by the save and offline routines.
- Ring.DbCluster.Exchange: does not promise an ascending table, because the source's loop does not make one.
- Framing.Receiver.Turn: the dispatch of a message to its handler is one opaque verdict, which may end the session at any message.
- Config.Config.Read: says nothing of the listing when a line cannot be read.
- Sessions.Service.SignIn: the unit of the expiry (days for a setting named in hours) is the caller's.
- ConfigVars.StringsFollowTokens: asks that no literal text before the next reference has begun a variable where the loop stops. When the loop yields a value this is also necessary (`ConfigVars.ExpandsInText`, `ConfigVars.UnfoldsExactly`, on all inputs); for the errors it is only sufficient, because the variable so begun may fail in the same way as the next reference (`ConfigStrings.ErrorAgreesAnyway`).
- ConfigVars.UnfoldsToMeaning: asks the same for the errors, and nothing for values.
- ConfigStrings.StringIsMeaning: asks the same of both passes; `ConfigStrings.StringExpandsExactly` asks nothing of the text.
- ConfigStrings.CrashesExactly: asks the same of the first pass.
- Hall.RunKeepsBooks: asks that no balance or total would pass 2^31-1, checked before each operation, because the source's 32-bit sums wrap around.
- GameEnd.GoldFollowsCounter: asks the same of gold and experience.
- Agents.AllocationsAreFair: asks that the 32-bit counter does not wrap during the run.
- Signup.LostExactlyWhenOvertaken: asks that checks can read the entry they look for; without that `Signup.FoundExactlyWhenLast` is the exact condition.
- Signup.FoundExactlyWhenLast: the lookup by name is taken at a moment when its reads succeed.
