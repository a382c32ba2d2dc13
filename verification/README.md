# boostcache, verified core

boostcache is an in-memory key-value server. This project models the part of it that decides what a
client gets to see, and proves properties of that model with Dafny 4.11:

| file | what it models |
|---|---|
| `ByteStrings.dfy`, `Numbers.dfy`, `Splitting.dfy` | byte strings, `toInt` and decimal printing, `split` |
| `Protocol.dfy` | the wire protocol as a one-shot parser, its grammar, its encoder |
| `InlineRequests.dfy`, `Streams.dfy`, `Refusals.dfy` | inline requests; streams of chunks and what they execute; exactly when a request is refused or undefined |
| `CommandHandler.dfy` | the resumable parser, a class with the fields of the original |
| `Stores.dfy` | what the two databases mean, and when they agree |
| `AvlTree.dfy`, `HashTable.dfy` | the two databases as classes; nodes, list positions and the tree are heap objects |
| `Commands.dfy`, `Replies.dfy` | the command table, arity check, dispatch, replies; the server as a function |
| `Answers.dfy` | what every command answers, in literal bytes |
| `Bodies.dfy`, `Locking.dfy`, `LockSteps.dfy`, `Linearizability.dfy` | any number of clients over both databases: the lock protocol as a transition system, its invariant, its runs |
| `Session.dfy`, `EndToEnd.dfy` | one connection; from the bytes sent to the replies read |
| `ManyClients.dfy` | many connections: from everybody's bytes to everybody's replies |
| `Pool.dfy` | round-robin choice of a service |

`dafny verify dfyconfig.toml` checks everything.

## How the pieces fit

* `Protocol.Parse` says what the bytes received since the last reset amount to: more needed (and where
  the parser stands), a command, a refusal, or undefined behaviour. `Protocol.ParseExact` ties it to a
  grammar that mentions no scanning: a number line is a marker, bytes without CR, CR, and possibly more
  that ends in CR (`Numbers.Denotes`); `Numbers.DenotesExact` ties that in turn to `toInt`. The invariant of the class `CommandHandler` is one equation: the
  fields are the position at which `Parse` of the buffer stops. `Protocol.ParseExtend` is what makes
  resuming sound; everything about fragmentation follows from it.
* `Stores.TreeApply` and `Stores.TableApply` are the operations of the two databases on values. The
  classes are proved equal to them; `TreeApply` is then shown to refine a map from hashes (no
  assumption on collisions) and to be indistinguishable from the table exactly where keys do not
  collide.
* `Answers.dfy` says for every command, state and argument which bytes go on the wire and what becomes of
  the databases, without naming a reply, a callback or the command table.
* `Dispatch.TaskOf` says what a command asks of which database; `Dispatch.Serve` is a server without
  concurrency: commands answered one after the other.
* `Bodies.dfy` cuts the operations into the steps between which another thread may run: between
  finding and reading, between pushing a node on the list and linking it into the tree, between
  unlinking it and erasing it, and one step per node of a foreach. `Locking.dfy` interleaves the commands
  of any number of clients under the locks of the two databases. Every state of every run is compared
  with `Serve` applied to the commands in the order in which access was granted
  (`Linearizability.Linearizable`), an order that respects real time (`Linearizability.RealTime`).
  Completion needs only that, while somebody can move, some later pick of the schedule can; picking
  every thread again and again is enough (`Linearizability.PickingAllIsFair`), and so is round robin.
* `ManyClients.ClientsServed` starts from the bytes of every connection; `ManyClients.Isolation` shows
  that a client whose keys nobody else uses cannot tell that it is not alone.
* `EndToEnd.ServerIsTwoMaps` puts parser, dispatch, session and databases together: the server answers as
  two plain maps may, each walked by a foreach in whatever order it likes. `EndToEnd.ServerRefinesMaps`
  says that up to and including the first foreach that fails only one answer is possible.
  `ManyClients.ClientsSeeTwoMaps` is the same with any number of clients interleaved.

Undefined behaviour is a verdict of its own (`Undefined`): an `int` overflow in a count, a length, or a
length plus two; and a chunk that begins with LF while nothing is buffered, for which the original looks
at the byte before its buffer. `FeedAndParseCommand` and `HandleRead` require that it does not arise;
`Refusals.UndefinedExact` and `InlineRequests.InlineOutcomes` say exactly when it does.
`Streams.ConversationExecutes` shows that a client that sends well-formed requests never causes it, and
`Refusals.ShortStreamsExact` that, whatever the bytes and however they are cut, if number lines hold at
most nine digits and nothing else up to the first CR, the only way to cause it is a chunk that begins with
LF and arrives while nothing is buffered.

The original's behaviour differs from its own documentation in a few places; the model follows the code:

* `commandhandler.h` says that true means the command has not ended. The code also returns true after
  refusing a request, so the client of a refused request gets no reply.
* The grammar speaks of numbers; the code takes any bytes up to the first CR for digits and ignores what
  lies between there and a CR at the end: `*:` CR LF is a request with ten arguments
  (`Numbers.LooseNumbers`). `ParseExact` therefore quantifies over all lines that denote the right number;
  `Numbers.DocumentedExact` says which of these the documentation allows.
* The grammar allows empty arguments; the code refuses them (`RoundTripExact`).
* Requests sent together are not all served: the first one to complete discards the rest
  (`PipelineExact`), and in several chunks the one that completes it loses what else it holds
  (`PipelineInChunks`).
* An inline request must arrive whole. Cutting one that would be executed always changes what is executed,
  and can execute a command that was never sent (`InlineCutLosesCommand`). Cutting one that would be
  refused is harmless exactly when its second part is a line that is refused as well
  (`InlineCutExact`): a second part that looks like a header stays buffered, and the next request is lost;
  a second part that is a bare LF is undefined (`InlineCutLosesNext`).
* `utils/test-js.sh` ends its requests with an extra LF. It is discarded if it arrives with the request;
  on its own it is the undefined case above (`InlineOutcomes`).

Assumed, as contracts: `std::list` keeps positions stable; `boost::intrusive::avltree` is a strictly
ordered sequence of node references; `std::unordered_map` is a map that may be walked in any order, a
different one each time (`Walk`); `boost::shared_mutex` grants shared access when nobody is exclusive,
upgrade when nobody holds upgrade or exclusive, and exclusive to the upgrade holder when nobody shares.
`std::hash` is an arbitrary function. A script is either rejected or a pure function from key and value
to a new value or a failure.

## Model

| member | source | states |
|---|---|---|
| Handlers.CommandHandler.FeedAndParseCommand | src/kernel/commandhandler.cpp:42-78 | from any reachable state and for any chunk: false is returned exactly when the bytes since the last reset form a command, and then the finish callback fired exactly once, with that command's reply; otherwise it did not fire; the fields afterwards are the one-shot parser's position |
| Handlers.CommandHandler.ParseInline | src/kernel/commandhandler.cpp:80-105 | succeeds exactly when the first line is a command, with its words as arguments |
| Handlers.CommandHandler.ParseNumberOfArguments | src/kernel/commandhandler.cpp:107-134 | header missing: nothing lost; not a positive number: reset; else parsing continues behind it with all arguments missing |
| Handlers.CommandHandler.ParseArguments | src/kernel/commandhandler.cpp:136-175 | wherever it starts, it ends at the one-shot verdict: all arguments, a reset, or the exact position for the next call |
| Handlers.CommandHandler.ReadArgument | src/kernel/commandhandler.cpp:142-172 | one turn of the argument loop leaves the one-shot verdict of the rest unchanged |
| Handlers.CommandHandler.ExecuteCommand | src/kernel/commandhandler.cpp:177-196 | the command's reply goes to the callback, the databases move accordingly, the buffer is dropped |
| Handlers.CommandHandler.Reset | src/kernel/commandhandler.cpp:214-224 | the idle state, callback history untouched |
| Handlers.CommandHandler.ReadInt | src/kernel/commandhandler.cpp:248-262 | stops before the LF, returns the base-10 value up to the first CR, -1 without a CR, never overflowing where the value is defined |
| Handlers.CommandHandler.SplitLine | src/kernel/commandhandler.cpp:226-246 | ends within the line and returns its tokens |
| Handlers.Resumed | src/kernel/commandhandler.cpp:42-74 | what a call inherits suffices: parsing the longer buffer from the saved position is parsing it from the start |
| Protocol.ParseExact | src/kernel/commandhandler.h:19-45 | a command is executed after `used` bytes if and only if those bytes are a request for it in the grammar |
| Protocol.ParseExtend | src/kernel/commandhandler.cpp:42-78 | more bytes never change a settled verdict, and an unsettled one is settled by carrying on from the recorded position |
| Protocol.ResumeInvariant | src/kernel/commandhandler.cpp:104-110 | every waiting position: saved + left = total, 1 <= left <= total, the bytes before the offset decode to exactly the saved arguments, and the length is known iff the length line is complete |
| Protocol.RoundTrip | utils/test-js.sh:50-62 | any encodable list of byte strings is decoded to itself, with the last byte of its encoding and no earlier |
| Protocol.RoundTripExact | src/kernel/commandhandler.cpp:117-158 | the round trip holds if and only if the list is not empty and no longer than the largest int, and every string has at least one byte and at most the largest int less two |
| Protocol.EncodeExample | src/kernel/commandhandler.h:28-36 | the description's own example, byte by byte |
| Numbers.ToIntOfDecimal | src/kernel/commandhandler.cpp:248-262 | reading a printed number gives it back if it fits an int, and overflows if not |
| Numbers.DecimalInverse | src/kernel/commandhandler.cpp:28-31 | accumulating printed digits is the inverse of printing, safe exactly up to the largest int, and nothing is printed with a leading zero |
| Numbers.DecimalCanonical | src/kernel/commandhandler.cpp:28-31 | of the texts of digits without a leading zero exactly the printed one denotes the number |
| Numbers.FoldBound | src/kernel/commandhandler.cpp:256-259 | k digits denote a number in [0, 10^k) |
| Numbers.NineDigitsAreSafe | src/kernel/commandhandler.cpp:250-261 | up to nine digits no step of toInt overflows |
| Numbers.FoldIsPositional | src/kernel/commandhandler.cpp:256-259 | the accumulated number is the sum of the bytes' codes as signed chars, less 48, each times its power of ten |
| Numbers.SafeIsPositional | src/kernel/commandhandler.cpp:256-259 | a step overflows exactly when a prefix, or ten times one that is not the whole, lies outside -2147483648 to 2147483647 |
| Numbers.ToIntIs | src/kernel/commandhandler.cpp:248-262 | both together, for a whole number line |
| Numbers.OneByte | src/kernel/commandhandler.cpp:256-259 | a single byte, whichever it is, reads as its signed code less 48 |
| Numbers.MinusLine | src/kernel/commandhandler.cpp:256-259 | a minus sign and digits never read as a positive number |
| Numbers.DenotesExact | src/kernel/commandhandler.cpp:248-262 | toInt reads a line as the positive number n if and only if the line is the marker, bytes without CR that accumulate to n without overflow, CR, and nothing or more that ends in CR |
| Numbers.NumberOutcomes | src/kernel/commandhandler.cpp:248-262 | toInt overflows, or gives no positive number, exactly for the lines so described without the scan |
| Numbers.DocumentedExact | src/kernel/commandhandler.h:19-24 | such a line is one the documentation allows if and only if there are only digits between marker and final CR |
| Numbers.LooseNumbers | src/kernel/commandhandler.cpp:248-262 | `*:` CR is ten and `*1` CR junk CR is one, though neither is documented |
| Splitting.SplitExact | src/kernel/commandhandler.cpp:226-246 | split returns a list of tokens if and only if the line is those tokens written with runs of delimiters between them |
| Splitting.SplitOfSpaced | src/kernel/commandhandler.cpp:226-246 | split inverts joining with runs of delimiters |
| Splitting.SplitIsSpaced | src/kernel/commandhandler.cpp:226-246 | every line is its tokens with gaps: tokens free of delimiters, only the first possibly empty |
| Splitting.SplitKeepsBytes | src/kernel/commandhandler.cpp:236-242 | the tokens' bytes are the line's bytes less the delimiters, in order |
| InlineRequests.InlineExact | src/kernel/commandhandler.cpp:58-105 | a line of words executes those words if and only if it does not start with `*` and the last word keeps its CR |
| InlineRequests.InlineLineExecutes | src/kernel/commandhandler.cpp:58-105 | every way of sending words as an inline request executes them |
| InlineRequests.InlineBulkEquivalence | src/kernel/commandhandler.h:39-41 | then the line and the bulk encoding of the words execute the same command |
| InlineRequests.LineVerdict | src/kernel/commandhandler.cpp:80-105 | what a line does in every case, refused first word included, whatever bytes follow it |
| InlineRequests.InlineOutcomes | src/kernel/commandhandler.cpp:58-105 | an inline request is undefined if and only if it begins with LF, and refused if and only if it has no LF, begins with a space or is an empty CR LF line; told from its first bytes, without the scan |
| Streams.ChunkInvariance | src/kernel/commandhandler.cpp:42-78 | however a stream starting with `*` is cut, well-formed or not, the handler asks for more exactly while the one-shot parser does and gives its verdict at the first chunk that settles it |
| Streams.CutsAgree | src/kernel/commandhandler.cpp:42-78 | two ways of cutting one stream settle the same verdict, or both none |
| Streams.OneCommand | src/kernel/commandhandler.cpp:42-78 | an encoded command in any chunks is executed once, by the chunk with its last byte |
| Streams.ConversationExecutes | src/kernel/commandhandler.cpp:42-105 | any commands, bulk requests cut at will and inline requests in one chunk mixed, each ending on a chunk boundary: all executed, once, in order, nothing undefined |
| Streams.PipelineExact | src/kernel/commandhandler.cpp:177-224 | of commands sent in one chunk exactly the first is executed, so all are if and only if there is at most one |
| Streams.PipelineInChunks | src/kernel/commandhandler.cpp:42-224 | commands sent together in any chunks: the first is executed by the chunk with its last byte, and the chunks after that one find nothing buffered, whatever else it held |
| Streams.UnalignedCutServesBoth | src/kernel/commandhandler.cpp:58-105 | cutting between commands is not necessary for all to be served: a word sent twice, the second time cut right before its data, is executed twice |
| Streams.InlineChunksStandAlone | src/kernel/commandhandler.cpp:58-64 | nothing of an inline chunk is kept: the next chunk executes what it would have executed on its own |
| Streams.InlineCutExact | src/kernel/commandhandler.cpp:58-134 | a one-line inline request cut in two leaves the handler as the whole does, in what it has executed, what it keeps and whether it is defined, if and only if nothing is cut off or the whole and the second part are both lines that are refused, told by their first bytes or the number in their header |
| Streams.InlineCutLosesCommand | src/kernel/commandhandler.cpp:58-105 | PING cut after PI executes NG, which was never sent; so does a line that is refused whole; no chunk of either is undefined |
| Streams.InlineCutLosesNext | src/kernel/commandhandler.cpp:58-134 | a refused line cut so that the second part looks like a header: any request sent next, correct by itself, is lost; and cut before its LF it becomes undefined |
| Streams.RefusedExact | src/kernel/commandhandler.cpp:58-134 | a line is refused if and only if it begins with a space, is an empty CR LF line, or announces a number of arguments that is not positive |
| Refusals.RejectExact | src/kernel/commandhandler.cpp:107-175 | a multi-bulk request is refused if and only if its header has no positive number, or well-formed arguments are followed by a line that is no length or by bytes that do not end in CR LF; no scan is mentioned |
| Refusals.UndefinedExact | src/kernel/commandhandler.cpp:107-175 | it overflows an int if and only if the number in its header does, or well-formed arguments are followed by a length that does, or does once two is added |
| Refusals.NegativeCount | src/kernel/commandhandler.cpp:117-122 | a header with a minus sign and digits is never a command and never waits; it is refused if there are at most eight digits |
| Refusals.NegativeLength | src/kernel/commandhandler.cpp:147-156 | the same of a length, that of the nil reply for one |
| Refusals.ShortNumbersAreDefined | src/kernel/commandhandler.cpp:107-175 | a request whose number lines hold at most nine digits and no other bytes up to their first CR overflows nothing |
| Refusals.ShortStreamsExact | src/kernel/commandhandler.cpp:42-175 | any bytes, well-formed or not, in any chunks, where every line that could be taken for a number line holds at most nine digits and no other bytes up to its first CR: the stream is defined if and only if no chunk that arrives with nothing buffered begins with LF |
| Refusals.ShortStreamsAreDefined | src/kernel/commandhandler.cpp:42-175 | so a client that never begins a chunk with LF is safe |
| Replies.ReplyIsArgument | src/kernel/commandhandler.cpp:28-31 | the argument parser reads a bulk reply back as its value, consuming all of it, if and only if the value is neither empty nor too long |
| Replies.ReplyInjective | src/kernel/commandhandler.cpp:28-31 | different values give different replies |
| Replies.NilIsNotAValue | src/kernel/commandhandler.cpp:22-31 | no value is printed as the nil reply |
| AvlTrees.AvlTree.constructor | src/db/avltree.cpp:20-25 | an empty tree satisfying the invariant |
| AvlTrees.AvlTree.Get | src/db/avltree.cpp:27-39 | the reply of the specification; nothing changes |
| AvlTrees.AvlTree.Set | src/db/avltree.cpp:41-60 | list and tree keep holding the same nodes; contents and reply are those of the specification; existing positions stay |
| AvlTrees.AvlTree.PushNode | src/db/avltree.cpp:54-57 | a new node is in both structures and knows its own list position |
| AvlTrees.AvlTree.Del | src/db/avltree.cpp:62-76 | exactly the node of that hash leaves both structures, no other does |
| AvlTrees.AvlTree.EraseAndDispose | src/db/avltree.cpp:73 | the node leaves the tree and its own place in the list, and nothing else moves |
| AvlTrees.AvlTree.DisposeNode | src/db/avltree.h:107-129 | the node's own iterator designates the list element that is erased |
| AvlTrees.AvlTree.ForEach | src/db/avltree.cpp:78-105 | values renewed up to the first refusal; list order, tree order and keys unchanged |
| AvlTrees.AvlTree.FoundAt | src/db/avltree.h:93-103 | searching the tree by internal key finds the list's entry of that hash, or both find none |
| AvlTrees.InsertUnique | src/db/avltree.cpp:57 | inserting a new key keeps the order strict and adds that node only |
| AvlTrees.EraseNode | src/db/avltree.cpp:73 | erasing keeps the order and removes that node only |
| HashTables.HashTable.Get | src/db/hashtable.cpp:25-35 | the reply of the specification |
| HashTables.HashTable.Set | src/db/hashtable.cpp:37-46 | the table and reply of the specification |
| HashTables.HashTable.Del | src/db/hashtable.cpp:48-61 | the table and reply of the specification |
| HashTables.HashTable.ForEach | src/db/hashtable.cpp:63-89 | for whatever walk the container takes: renewed up to the first refusal on that walk |
| HashTables.HashTable.RenewAll | src/db/hashtable.cpp:75-88 | the loop visits every key once and finds its old value there |
| Stores.TreeApplyKeeps | src/db/avltree.cpp:41-105 | every operation keeps one entry per hash, under the hash of its own key |
| Stores.TreeRefinesHashMap | src/db/avltree.cpp:27-105 | collisions or not, the tree is a map from hash to (first key since the last delete, latest value): the same reply for every operation and the same next state, or after a foreach that fails the same keys with each value old or renewed |
| Stores.TreeRunRefines | src/db/avltree.cpp:27-105 | collisions or not, every run of the tree is a run of the map from hashes, which after a foreach that fails may be renewed in part |
| Stores.SteadyTreeRun | src/db/avltree.cpp:27-105 | up to and including the first foreach that fails only one such run is possible |
| Stores.ForEachMeaning | src/db/avltree.cpp:91-104 | TRUE iff every entry was accepted; else exactly the entries before the first refusal are updated; keys and order never change |
| Stores.OrderIndependence | src/db/hashtable.cpp:75-88 | the table after a foreach is independent of the walk if and only if no callback fails or those that succeed change nothing |
| Stores.AgreeStep | src/db/hashtable.cpp:25-89 | over keys that do not collide one operation gives both databases the same reply, failing foreach included, and keeps their contents equal unless it fails |
| Stores.AgreeInListOrder | src/db/avltree.cpp:27-105 | if the map is walked in the order of the list, every operation, a failing foreach included, gives the same reply and keeps the contents equal |
| Stores.TreeIsMapRun | src/db/avltree.cpp:27-105 | over keys that do not collide every run of the tree database, whatever fails on the way, is a run of a plain map whose foreach walks it in some order |
| Stores.TableIsMapRun | src/db/hashtable.cpp:25-89 | and so is every run of the table |
| Stores.RepliesAgree | src/db/avltree.cpp:27-105 | so over any run the two cannot be told apart, up to and including the first foreach that fails |
| Stores.CollisionShows | src/db/avltree.h:95-103 | two different keys are told apart by a set and a get if and only if their hashes differ |
| Dispatch.FoundReadsInside | src/kernel/commands.cpp:22-39 | whichever callback is chosen reads only arguments that exist; the reporting callbacks are chosen exactly for an unknown name and for a count other than the table's, and report that count and the one received |
| Dispatch.CommandTableIs | src/kernel/commands.cpp:47-71 | the table knows exactly the eleven names, and each takes as many arguments as its callback reads, except VERSION, which takes any number |
| Dispatch.TaskMeaning | src/kernel/commands.cpp:22-97 | a command is one operation on one database, or an answer that depends on neither; a script that does not compile is such an answer |
| Dispatch.GoodWorldExists | src/kernel/commands.cpp:41-71 | what is assumed of the container's walks can be met, for every hash and every compiler of scripts |
| Dispatch.RefusedIsHarmless | src/kernel/commands.cpp:73-87 | an unknown command or wrong arity changes neither database and is answered by an error |
| Dispatch.RespondKeeps | src/kernel/commands.cpp:59-71 | no command touches both databases; all keep the tree's invariant |
| Dispatch.TableSetGetDel | src/kernel/commands.cpp:61-65 | HSET, HGET, HDEL in sequence: the value comes back, then nil; other keys are undisturbed |
| Dispatch.TreeSetGetDel | src/kernel/commands.cpp:66-70 | the same for ATSET, ATGET, ATDEL; a key of another hash is undisturbed, a key of the same hash is served by this entry |
| Dispatch.CommandsListsAll | src/kernel/commands.cpp:89-97 | COMMANDS lists every known command, in whatever order the table is walked |
| Dispatch.Commands.constructor | src/kernel/commands.cpp:41-45 | empty databases and the whole command table |
| Dispatch.Commands.ListCommands | src/kernel/commands.cpp:89-97 | the bulk reply of all names, one per line, in walking order |
| Dispatch.Commands.Execute | src/kernel/commandhandler.cpp:188-193 | lookup and call together move the databases and answer as the server function says |
| Dispatch.Commands.RunFound | src/kernel/commands.cpp:49-70 | each callback is bound to its own database and operation |
| Answers.HSet | src/db/hashtable.cpp:37-46 | HSET answers `+OK` CR LF and stores the value |
| Answers.HGet | src/db/hashtable.cpp:25-35 | HGET answers `$`, the length in decimal, CR LF, the value, CR LF, or `$-1` CR LF for a key that is absent |
| Answers.HDel | src/db/hashtable.cpp:48-61 | HDEL answers `:1` CR LF if the key was there and `:0` CR LF if not, and it is gone |
| Answers.HFor | src/db/hashtable.cpp:63-89 | HFOR answers `:1` CR LF if the script compiles and every callback succeeds, and then every value is renewed; else `-ERR` CR LF, and what precedes the first refusal on the walk is renewed |
| Answers.AtAbsent | src/db/avltree.cpp:27-76 | ATSET, ATGET, ATDEL for a hash that is not in the tree: `+OK` and a new last entry, `$-1`, `:0` |
| Answers.AtPresent | src/db/avltree.cpp:27-76 | for a hash that is: `+OK` and that entry's value replaced, its key kept; the value; `:1` and that entry removed |
| Answers.AtFor | src/db/avltree.cpp:78-105 | ATFOR answers `:1` or `-ERR` CR LF as HFOR does, renewing in order of insertion |
| Answers.Ping | src/kernel/commands.cpp:99-102 | PING answers `+PONG` CR LF |
| Answers.VersionAnswer | src/kernel/commands.cpp:104-112 | VERSION with any arguments answers `+`, the version text, CR LF; the verbose one for the one word VERBOSE alone |
| Answers.CommandsListsExactly | src/kernel/commands.cpp:89-97 | the lines of the answer to COMMANDS, each ended by LF, are the eleven names, each once, and no other |
| Answers.Unknown | src/kernel/commands.cpp:73-77 | any other name is answered `-ERR`, the name, `is not implemented`, CR LF |
| Answers.WrongArity | src/kernel/commands.cpp:79-87 | a wrong number of arguments is answered with the number received, `vs`, and the number expected, in this order |
| Bodies.BodyIsOperation | src/db/avltree.cpp:27-105 | a body run step by step without interruption is the operation, and leaves list and tree in agreement |
| Bodies.RankFalls | src/db/avltree.cpp:91-102 | every body ends: each step brings it nearer |
| Bodies.TornSet | src/db/avltree.cpp:54-57 | between its steps a set has the node on the list and not in the tree, which is what the lock hides |
| Bodies.TornDel | src/db/avltree.cpp:73 | and a del has it out of the tree and still on the list |
| Locking.ApplyIsRespond | src/kernel/commands.cpp:59-71 | an operation on one database is what the server answers to the command, and leaves the other database alone |
| LockSteps.Answered | src/db/avltree.cpp:80-83 | a command that needs no database, such as a script that does not compile, is answered without a lock even while another thread writes |
| LockSteps.GrantReader | src/db/avltree.cpp:31-32 | shared access, granted while nobody writes, appends the get to the sequential run |
| LockSteps.GrantWriter | src/db/avltree.cpp:44-45 | upgrading to exclusive, once the readers have left, appends the operation to the sequential run |
| LockSteps.WriteStep | src/db/avltree.cpp:47-57 | a step in the middle of a set, del or foreach disturbs nobody, for nobody else is inside |
| LockSteps.ReadStep | src/db/avltree.cpp:31-38 | a reader's step changes nothing for the other readers |
| LockSteps.Unlock | src/db/avltree.cpp:44-59 | leaving a body, by way of upgrade for a writer, finds the store where the sequential run has it |
| LockSteps.StepInv | src/db/avltree.cpp:31-104 | every step of every client, on either database, keeps the protocol's invariant |
| LockSteps.StepIsLockMove | src/db/avltree.cpp:31-89 | every step makes at most one call of boost::shared_mutex, on one of the two locks, when that call may return; exclusive access is only given up for upgrade |
| LockSteps.BlockedExact | src/db/avltree.cpp:31-89 | a client is held back exactly while a writer is inside, or, for anything but a get, somebody holds upgrade, or, holding it itself, readers are inside |
| Linearizability.MutualExclusion | src/db/avltree.cpp:31-89 | in every state of every run a writer is alone in its database and at most one thread holds its upgrade |
| Linearizability.Linearizable | src/db/avltree.cpp:27-105 | in every state of every run, all replies given and both databases are those of one sequential server that has the clients' commands, and no others, in grant order, each client's own order respected |
| Linearizability.LogGrows | src/db/avltree.cpp:31-89 | the order, once fixed, is only ever extended |
| Linearizability.LoggedThreads | src/db/avltree.cpp:31-89 | the order names existing clients only |
| Linearizability.RealTime | src/db/avltree.cpp:31-89 | if one client has been answered before another begins, the answered command comes first in the order of every later state |
| Linearizability.SomebodyMoves | src/db/hashtable.cpp:28-73 | no deadlock: while anybody has work left, somebody can move |
| Linearizability.WorkShrinks | src/db/hashtable.cpp:28-88 | every step brings a thread nearer to its end |
| Linearizability.RunEnds | src/db/hashtable.cpp:28-88 | every fair run comes to a state in which nobody can move |
| Linearizability.EveryRunCompletes | src/db/avltree.cpp:27-105 | under every fair schedule all commands of all clients are answered after finitely many moves, both locks are free, and the outcome is that of one sequential server that has these commands and no others |
| Linearizability.PickingAllIsFair | src/db/avltree.cpp:31-89 | a schedule that picks every thread again and again is fair, however often the locks hold back the one it picks |
| Linearizability.RoundRobinIsFair | src/db/avltree.cpp:31-89 | round robin is fair |
| Sessions.Session.constructor | src/kernel/net/session.cpp:19-30 | a started session waits for its first read |
| Sessions.Session.HandleRead | src/kernel/net/session.cpp:32-61 | exactly one operation stays pending: a write of the reply if the callback fired, else a read; none after an error |
| Sessions.Session.HandleWrite | src/kernel/net/session.cpp:32-72 | a finished write is followed by one read, a failed one by deletion |
| Sessions.SingleOutstanding | src/kernel/net/session.cpp:26-72 | over every run: one outstanding operation while alive, at most one deletion, no handler after it |
| EndToEnd.DriveServes | src/kernel/net/session.cpp:50-72 | a session sends the replies of the commands its bytes execute, no more, no fewer, in order |
| EndToEnd.ClientSees | src/kernel/commandhandler.cpp:42-105 | bulk requests in any chunks and whole inline requests, each ending on a chunk boundary, are answered once each and in order |
| EndToEnd.KvStep | src/kernel/commands.cpp:22-71 | one command: the server and the machine of two maps reply alike, and unless it is a failing foreach they stay in correspondence |
| EndToEnd.ServerRefinesMaps | src/kernel/commandhandler.cpp:42-196 | a client of a fresh server, over tree keys that do not collide, reads exactly the replies of two plain maps, up to and including the first foreach whose callback fails |
| EndToEnd.KvMayStep | src/kernel/commands.cpp:22-71 | any command, a failing foreach included: the server's reply is one that two maps may give, and they stay in correspondence |
| EndToEnd.ServerIsTwoMaps | src/kernel/commandhandler.cpp:42-196 | a client of a fresh server, over tree keys that do not collide, reads replies that two plain maps may give, over the whole run and whatever fails on the way |
| ManyClients.ClientsServed | src/kernel/net/session.cpp:50-72 | under every fair schedule, each client reads one reply to each command its bytes execute, and all of these are its part of one sequential run, in grant order, of everybody's commands and no others |
| ManyClients.ClientsSeeTwoMaps | src/kernel/net/session.cpp:50-72 | all clients together read what two plain maps may answer to their commands, and no others, in grant order |
| ManyClients.Undisturbed | src/kernel/commands.cpp:22-71 | in a sequential run a client whose keys nobody else uses is answered as if the others did not exist |
| ManyClients.Isolation | src/db/avltree.cpp:27-76 | at any moment of any interleaving such a client has read a beginning of what it would read from a server all its own |
| ManyClients.IsolatedClientServed | src/db/avltree.cpp:27-76 | and under every fair schedule it comes to read all of it |
| Pool.IoServicePool.constructor | src/kernel/net/ioservicepool.cpp:17-27 | as many services as asked for, none given out |
| Pool.IoServicePool.IoService | src/kernel/net/ioservicepool.cpp:58-68 | the k-th call returns service k mod n |
| Pool.RoundRobin | src/kernel/net/ioservicepool.cpp:58-68 | after k calls service i has been given floor(k/n) times, once more if i < k mod n |
| Pool.Fairness | src/kernel/net/ioservicepool.h:33-36 | no service is ever more than one ahead of another |
| Pool.GivenCount | src/kernel/net/ioservicepool.cpp:58-68 | that count is the number of times the pool really returned the service |

## Left out

- Sockets, acceptors, signals, threads (`commandserver.cpp`, `IoServicePool::start` and `stop`): I/O around the model.
- v8 (`jsvm.cpp`): a script is an arbitrary pure partial function; one that keeps state between calls, and the cut at NUL bytes, are not modelled.
- The insides of `boost::intrusive::avltree`, `std::list`, `std::unordered_map`, `boost::shared_mutex`: assumed by contract, so neither rebalancing nor starvation under a stream of readers is claimed.
- The classes run one operation at a time; interleaving is modelled on values in `Bodies.dfy` and `Locking.dfy`, and meets the classes in `TreeApply` and `TableApply`.
- A thread is a client here: which of a fixed number of threads runs which handler, and when bytes arrive, is part of the schedule.
- A `del` on the table is one step under the lock, its lookup included.
- Lifetime of the reply buffer handed to `async_write`, and memory exhaustion, for instance by `reserve` with a large count.
- Logging, `toString`, options, version strings (a parameter), stack traces, the singleton: no effect on behaviour.
- Handlers.CommandHandler.FeedAndParseCommand: says nothing of undefined behaviour, because the original has no defined meaning there; it is excluded by the precondition.
- Sessions.Session.HandleRead: the same.
- EndToEnd.ServerRefinesMaps: ends with the first foreach whose callback fails, its reply included: after that what the table holds depends on the order of the walk (`Stores.OrderIndependence`), so the whole run is `ServerIsTwoMaps`.
- Stores.RepliesAgree: the same; the whole run is `TreeIsMapRun` and `TableIsMapRun`.
- Stores.SteadyTreeRun: the same; the whole run is `TreeRunRefines`.
- ManyClients.Isolation: for clients that use no foreach, which sees everybody's keys.
