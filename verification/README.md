# A model of libubox

libubox is a C library of small runtime parts. This project models the ones that carry state or
arithmetic worth a proof, and proves what each of them promises over all inputs and all runs. Where
the source changes fields in place, the model is a class with those fields, and its methods are
proved against functions of the old state.

| files | what they model |
|---|---|
| `CircularList.dfy` | the circular doubly linked lists of `list.h` |
| `GhostTree.dfy`, `AvlLinks.dfy`, `AvlOrder.dfy`, `Avl.dfy` | the balanced tree of `avl.c`: parent, left and right pointers, stored balances, and a list that all nodes, duplicates included, are threaded on |
| `Vlist.dfy` | the versioned lists of `vlist.c`, on top of the contracts of the tree |
| `SafeLinks.dfy`, `SafeOrder.dfy`, `SafeLog.dfy`, `SafeList.dfy` | lists that may lose and get elements while they are walked (`safe_list.c`) |
| `RunQueue.dfy` | the scheduler of `runqueue.c` with callbacks that call back into it |
| `BlobBytes.dfy`, `Blobmsg.dfy`, `BlobFrames.dfy`, `BlobBuf.dfy`, `BlobParse.dfy` | nested messages in a growing buffer, and the parsers of untrusted bytes (`blob.c`, `blobmsg.c`) |
| `BufParts.dfy`, `Ustream.dfy` | the buffer lists of `ustream.c` as a queue of bytes |
| `Base64.dfy` | `base64.c`, after section 4 of RFC 4648 |
| `Md5Block.dfy`, `Md5.dfy` | hashing in pieces (`md5.c`), after RFC 1321 |
| `Timers.dfy` | the timer list of `uloop.c` |
| `JsonExpr.dfy`, `JsonScript.dfy` | the interpreter of `json_script.c` |
| `Sequences.dfy`, `Numbers.dfy` | what several of them say about sequences and numbers |

Callbacks are modelled as scripts: a sequence of steps that the callbacks of a run take as they are
called, each of which may call back into the library. A statement for all scripts is one for all
callbacks that use the library in the ways a step can. What comes from outside (memory that can be
had, what a transport takes, the clock) is a parameter too.

Invariants are sealed: `Valid` hides its parts behind a quantifier whose trigger is a predicate
`Open...`, and a proof that needs the parts asserts that predicate. What `Valid` means for a reader is
stated by lemmas of its own: `Structure` and `LeaderLinks` for the tree, `InOneChain` for iterators,
`InOneList` for tasks, `InBuffer` for streams.

## Model

| member | source | states |
|---|---|---|
| `CircularList.ListAdd` | list.h:158-162 | the new record stands right behind the given one in the ring, and all links of the ring are inverse to each other |
| `CircularList.ListAddTail` | list.h:164-168 | the new record stands right in front of the given one; in front of the sentinel is the end |
| `CircularList.ListDel` | list.h:95-100 | the ring is closed without the record, whose own links are cleared |
| `Avl.AvlTree.Structure` | avl.c:88-100 | between any two calls the pointers and balances on the heap are those of one tree, which is balanced, and whose in-order walk meets exactly the leaders of the threaded list, in list order; the list is a ring, the counter counts the list up to 32 bits |
| `Avl.AvlTree.LeaderLinks` | avl.c:376-571 | every leader stands at a place in that tree: child and parent links are inverse to each other, and the stored balance is the height of its right subtree minus that of its left one, and at most one either way |
| `Avl.AvlTree.InKeyOrder` | avl.c:219-299 | keys ascend along the list, a node leads exactly when its key is new, and without duplicates every node leads |
| `Avl.AvlTree.Insert` | avl.c:220-299 | returns -1, and no field of the tree, no pointer, balance or link has changed, exactly when duplicates are forbidden and the key is there; otherwise the list is the old one with the node behind all keys up to its own, the node leads exactly when its key is new, and the invariant is kept through every rotation |
| `Avl.AvlTree.Delete` | avl.c:307-350 | exactly the node leaves the list; when it led a run, the next node of the run leads, and no other row changes; the invariant is kept, also when the node had two children and its successor took its place |
| `Avl.AvlTree.DeleteWide` | avl.c:678-730 | the case of two children: the whole tree is balanced again, and a walk through it meets what was there, in order, without the deleted node |
| `Avl.AvlTree.PostInsert` | avl.c:443-488 | going up after a subtree became higher by one balances the whole tree again, and the walk through it stays the same |
| `Avl.AvlTree.PostDelete` | avl.c:512-571 | the same after a subtree became lower by one |
| `Avl.AvlTree.Find` | avl.c:115-126 | the first listed node with an equal key, or null when there is none; the number of calls of the recursive search is at most about twice the binary logarithm of the number of leaders |
| `Avl.AvlTree.FindLessEqual` | avl.c:137-170 | the last node, duplicates included, whose key is at most the given one, or null |
| `Avl.AvlTree.FindGreaterEqual` | avl.c:179-211 | the first node whose key is at least the given one, or null |
| `Avl.AvlTree.Search` | avl.c:354-376 | the recursive search ends at a leader with the key, or at one around which the key would have to stand, after logarithmically many calls |
| `Avl.AvlTree.Shallow` | avl.c:354-376 | in every reachable state a tree of height h has at least Fib(h+2)-1 leaders, so the depth of the search is logarithmic |
| `Vlist.VlistTree.Add` | vlist.c:36-59 | the node is reported with the one that has its key; it is inserted, takes that node's place, or leaves it there with the current version, as the flags say |
| `Vlist.VlistTree.Delete` | vlist.c:28-33 | the node is reported, and leaves unless deletion is off |
| `Vlist.VlistTree.Flush` | vlist.c:62-73 | exactly the nodes of other versions leave, in one walk that deletes as it goes, and each is reported once in list order |
| `Vlist.VlistTree.FlushAll` | vlist.c:76-80 | all nodes leave and are reported once, in list order |
| `Vlist.VlistTree.Generation` | vlist.h:62-65 | vlist_update, any number of vlist_add and vlist_flush: what is listed afterwards are exactly the nodes added last with their key; every add is reported in order, with the node that it replaced: the one added last before with an equal key, else the one listed before with such a key, else none; and every node that was listed or added is listed or was reported as replaced or gone, as often as it came in |
| `SafeList.SafeList.ForEach` | safe_list.c:62-81 | for any callbacks, which may take out any elements, add elements at both ends and start walks of their own: it ends; whom it visits is a function of what happens during each visit; an element is in the list when it is visited; unless a callback stops it, every element was visited or taken out; one that is not added again is not visited twice; without additions elements are visited in list order; and all other walks under way are carried along in the same way |
| `SafeLog.AddedBehind` | safe_list.c:62-87 | an element that is added at the end during a walk is visited, or taken out again, if and only if something is still ahead of the walk; during the visit of the last element nothing is, and the walk ends without it |
| `SafeLog.VisitedOnce` | safe_list.c:62-87 | elements that do not come in again are not visited twice, whatever is added and taken out |
| `SafeLog.VisitedOrGone` | safe_list.c:62-121 | a walk that comes to its end has visited every element it had ahead, but for those taken out |
| `SafeList.SafeList.Del` | safe_list.c:95-121 | exactly the element leaves; every iterator that was going to visit it goes on to its successor, all others stay |
| `SafeList.SafeList.Add` | safe_list.c:83-87 | the element becomes the last one and no iterator is moved |
| `SafeList.SafeList.AddFirst` | safe_list.c:89-93 | the element becomes the first one and no iterator is moved |
| `SafeList.SafeList.InOneChain` | safe_list.c:27-60 | `*i->head == i`, and every live iterator is in exactly one chain, that of the element it is going to visit |
| `SafeList.SafeList.MoveIterator` | safe_list.c:55-60 | the iterator leaves its chain and is going to visit what follows the given element |
| `RunQueue.RunQueue.InOneList` | runqueue.c:37-80 | in every state between calls a task is in one list exactly when it is queued, `running_tasks` is the length of the active list, a positive limit holds unless a task was added as running, a task was completed as often as it was added or is queued, and when something could be started the timer is armed for it |
| `RunQueue.RunQueue.Add` | runqueue.c:148-179 | a task is queued just when it was not and can be run, at the right end of the right list |
| `RunQueue.RunQueue.Complete` | runqueue.c:216-235 | whatever its callback does, the invariant holds again and nothing is lost; the task is not queued unless the callbacks added tasks |
| `RunQueue.RunQueue.Cancel` | runqueue.c:120-135 | the same for cancelling; unless the callbacks added tasks, a task that is still queued is one that runs and is being cancelled |
| `RunQueue.RunQueue.Kill` | runqueue.c:191-203 | the same for killing; unless the callbacks added tasks, the task is not queued afterwards |
| `RunQueue.RunQueue.TaskTimeout` | runqueue.c:138-146 | a timeout cancels a running task and kills a cancelled one, as far as the callbacks add nothing |
| `RunQueue.RunQueue.CancelAllPending` | runqueue.c:97-100 | with callbacks that add nothing, every waiting task is completed exactly once and none is left; in any case it ends and keeps the invariant |
| `RunQueue.RunQueue.KillAll` | runqueue.c:108-118 | with callbacks that add nothing both lists are empty afterwards, and with a stopped queue that they do not resume the invariant is kept; in general it fails afterwards exactly when a task was added that could be started, because the timer has been stopped |
| `RunQueue.LostWakeup` | runqueue.c:108-118 | that happens: a queue and a callback after which a task could be started and no timer is armed |
| `RunQueue.RunQueue.StartTasks` | runqueue.c:37-71 | afterwards nothing can be started, whatever the run callbacks do, and the queue knows when both lists are empty |
| `RunQueue.RunQueue.Expire` | runqueue.c:62-80 | the callback for an empty queue is called only while both lists are empty |
| `BlobBytes.LengthKept` | blob.c:124-129 | a length survives in the 24 bits of a header if and only if it is below 2^24, which becomes 0 |
| `BlobBytes.PadIsMask` | blob.h:118-124 | padding by what is missing is rounding up to a multiple of four |
| `BlobBuf.BlobBuf.Grow` | blob.c:22-68 | the buffer grows by whole blocks of 256 zero bytes behind its contents, exactly when the sizes and the memory allow it |
| `BlobBuf.BlobBuf.MakeRoom` | blob.c:71-88 | an attribute with its padding stays in the buffer, although the check leaves the padding out |
| `BlobBuf.BlobBuf.New` | blob.c:132-142 | there is room for the attribute behind the innermost container, whose length counts it, and all that was written stays |
| `BlobBuf.BlobBuf.AddField` | blobmsg.c:377-391 | the innermost container has this message more, and nothing else changes; on failure nothing does |
| `BlobBuf.BlobBuf.OpenNested` | blobmsg.c:266-282 | a new empty container is open inside the old one, with a cookie that stays good while the buffer grows |
| `BlobBuf.BlobBuf.CloseNested` | blob.c:185-190 | the container becomes a message of the one around it, whose length is right again |
| `BlobBuf.BlobBuf.AllocString` | blobmsg.c:326-340 | room for a string of this length behind the innermost container, which does not count it yet |
| `BlobBuf.BlobBuf.ReallocString` | blobmsg.c:343-358 | more room, and what was written stays |
| `BlobBuf.BlobBuf.AddString` | blobmsg.c:361-374 | the text up to its NUL becomes a string message of the innermost container |
| `BlobBuf.BlobBuf.Build` | blobmsg.c:227-282 | every tree of tables, arrays and values can be built by open, add and close, and is then the last message of the open container |
| `BlobBuf.BlobBuf.Walk` | blobmsg.h:364-369 | walking over a finished buffer gives back all messages, nested ones included, in order |
| `BlobBuf.BuildAndRead` | blobmsg.c:227-282 | the whole round trip from an empty buffer; the bytes are those of the messages and every attribute in them passes the check on untrusted bytes |
| `BlobFrames.BuiltReads` | blob.c:91-190 | the builder's invariant with all containers closed means that reading gives back what was built |
| `Blobmsg.BuiltPasses` | blobmsg.c:33-84 | what was built passes the check of an attribute, where names are demanded exactly when it has one, and holds the data that was put in |
| `Blobmsg.ReadBuilt` | blobmsg.h:78-95 | the header, name and data of an encoded message, with anything behind it, read as that message |
| `Blobmsg.ReadAllBuilt` | blobmsg.h:364-369 | decoding a sequence of encoded messages gives back the sequence |
| `BlobParse.CheckArray` | blobmsg.c:92-128 | for any bytes: the number of members exactly when all are in order, of the type, and named in a table; -1 otherwise |
| `BlobParse.ParseArray` | blobmsg.c:140-164 | for any bytes: 0 exactly when the attributes that are picked pass their check; then the slots hold the greedy choice and each passed |
| `BlobParse.GreedyIsLongest` | blobmsg.c:140-164 | the greedy choice assigns every prefix of the policy that can be assigned at all |
| `BlobParse.Parse` | blobmsg.c:166-223 | for any bytes: -EINVAL exactly for no bytes, -1 exactly when an attribute fails its check, and else every slot holds the first attribute its policy accepts |
| `BlobParse.AcceptsByName` | blobmsg.c:166-223 | a policy accepts exactly the attributes of an accepted type with its name, if the name has fewer than 256 bytes |
| `BlobParse.ParseUntrusted` | blob.c:224-292 | for any bytes: the result is the number of slots that are set, and each slot holds the last valid attribute with its id |
| `Ustream.BufList.InBuffer` | ustream.c:40-52 | `data_bytes` is what all buffers hold together, `buffers` the length of the list, and buffers behind `data_tail` are empty |
| `Ustream.BufList.Squeeze` | ustream.c:147-173 | moving data to the front of a buffer changes nothing that is held |
| `Ustream.BufList.FreeHead` | ustream.c:175-194 | the data of the first buffer leave, whether the buffer is freed or used again at the end |
| `Ustream.BufList.Prepare` | ustream.c:251-285 | nothing that is held changes; there is free space, unless all buffers are full and no other can be had |
| `Ustream.BufList.Consume` | ustream.c:215-241 | the bytes leave at the front, over as many buffers as it takes |
| `Ustream.BufList.FillRead` | ustream.c:302-332 | the bytes in the free space, over as many buffers as it takes, become the last data in order |
| `Ustream.BufList.WriteBuffered` | ustream.c:419-444 | a prefix is appended, and all of it unless no more buffers can be had |
| `Ustream.Writer.Write` | ustream.c:446-469 | what was sent, followed by what is held, is what was accepted, in order; the result is how much of the data was accepted, and less than all only when no buffer can be had |
| `Ustream.Writer.WritePending` | ustream.c:378-417 | the same, for partial writes and errors of the transport; true exactly when all that was accepted has been sent |
| `Ustream.Reader.Reserve` | ustream.c:287-300 | nothing that is held changes; the room is what data_tail has, and reading is blocked exactly when there is none |
| `Ustream.Reader.Arrive` | ustream.c:302-332 | what readers got, followed by what is held, is what arrived, in order |
| `Ustream.Reader.Read` | ustream.c:351-369 | exactly as many bytes as are wanted and there, the first ones, and they leave |
| `Base64.Encode` | base64.c:139-195 | succeeds if and only if the target has 4*ceil(n/3)+1 bytes, with the text and a NUL |
| `Base64.Decode` | base64.c:203-334 | succeeds if and only if the text without its whitespace is the encoding of data that the target has room for, and returns that data |
| `Base64.CanonicalText` | base64.c:139-334 | decoding and encoding are inverse to each other: exactly the canonical texts stand for data |
| `Base64.RoundTrip` | base64.c:139-334 | decoding what was encoded gives back the data |
| `Md5.Md5.Hash` | md5.c:225-257 | after any pieces the context stands for their concatenation: whole blocks are worked in, the rest is in the buffer, and the counters are its length modulo 2^61 |
| `Md5.Md5.End` | md5.c:259-309 | the 16 bytes of the digest of RFC 1321: padding as in sections 3.1 and 3.2, in both cases, with the length in bits modulo 2^64, the registers of section 3.3, the operations of section 3.4, the output of section 3.5; and the context is cleared |
| `Md5.HashAll` | md5.c:214-309 | however a message is cut into pieces, the digest is that of RFC 1321 of the whole message |
| `Md5.CountsLength` | md5.c:279-287 | the two counters, shifted, are the low 64 bits of the length in bits, least significant byte first |
| `Md5.OutputRead` | md5.c:291-306 | the output holds the four registers, low-order byte first, and they can be read in it |
| `Md5Block.Compress` | md5.c:104-212 | the 64 lines with their own macros work a block in as section 3.4 of RFC 1321 says, which is stated with four rounds, word order, shifts and rotating registers |
| `Md5Block.Step` | md5.c:75-78 | the statements of STEP store b + ((a + f(b, c, d) + x + t) <<< s), whichever macro computes f |
| `Md5Block.MixedIs` | md5.c:75-78 | that is what the operation means, with sums modulo 2^32 |
| `Md5Block.RotatedIs` | md5.c:77 | where rotating brings in on the right what is shifted out on the left |
| `Md5Block.FIsF` | md5.c:66 | the macro F, which does without an and-not, is F of section 3.4 |
| `Md5Block.GIsG` | md5.c:67 | the same for G |
| `Md5Block.CompressedIs` | md5.c:104-212 | what a block makes of the registers is their sum with what the 64 operations make of them |
| `Md5Block.WordSteps` | md5.c:130-197 | the words of a block are taken in steps of 1, 5, 3 and 7 |
| `Timers.StandsBehind` | uloop.c:291-317 | although the difference in milliseconds truncates and is no order, inserting by it keeps every pair in the order it allows |
| `Timers.AlmostInOrder` | uloop.c:291-317 | so timers that are out of order in the list are less than a millisecond apart |
| `Timers.NotInOrder` | uloop.c:291-317 | and such lists come about: of two timers that are less than a millisecond apart within a second, the later one stays in front when it is added first |
| `Timers.Timeouts.Add` | uloop.c:298-317 | the timer stands before the first one that is a millisecond later, and the order is kept; -1 exactly when it is pending already |
| `Timers.Timeouts.Set` | uloop.c:328-346 | the timer is due exactly so many milliseconds after the clock, or before it for a negative timeout, although the carry may leave a whole second in the microseconds |
| `Timers.Timeouts.Cancel` | uloop.c:348-357 | exactly this timer leaves the list; -1 exactly when it is not pending |
| `Timers.Timeouts.NextTimeout` | uloop.c:595-614 | never sleeps a millisecond or more past the first timer, and -1 exactly without timers |
| `Timers.Timeouts.Process` | uloop.c:616-635 | for any callbacks: what is fired is due less than a millisecond after the clock; what is left is strictly after it when no timer is set to the past, and in any case less than a millisecond in front of it |
| `Timers.NotAfter` | uloop.c:291-346 | with negative microseconds, as a negative timeout leaves them, a timer that is due may stand behind one that is not |
| `JsonExpr.PiecesSplit` | json_script.c:427-495 | a string is cut at its percent signs and nowhere else |
| `JsonExpr.EvalString` | json_script.c:427-495 | the loop replaces every variable, and fails exactly when a percent sign has no partner |
| `JsonExpr.ExpandJoined` | json_script.c:427-495 | strings can be put together before or after their variables are replaced |
| `JsonExpr.EscapeExpands` | json_script.c:427-495 | with its percent signs doubled any text comes out as it is |
| `JsonExpr.First` | json_script.c:231-304 | lists in `eq`, `regex` and `has`: 1 exactly when an element will do before any that is no string, 0 exactly when all are strings that will not do |
| `JsonExpr.DeMorganAnd` | json_script.c:306-351 | `not` of `and` is `or` of the `not`s, also where a part is an error; and the same callbacks are called in the same order when all parts are arrays |
| `JsonExpr.DeMorganOr` | json_script.c:306-351 | `not` of `or` is `and` of the `not`s, in the same way |
| `JsonScript.Block` | json_script.c:573-605 | every block ends, however files include each other; no file is entered twice in a run; and a command is called only for a block that was begun before a callback stopped the run, right behind the look-ups for its own strings |
| `JsonScript.WholeRun` | json_script.c:607-636 | the same over a whole run: each file is entered at most once, only files that exist are, and every command is called for a block that was begun before a callback stopped the run |
| `JsonScript.CommandAfterStop` | json_script.c:514-571 | json_script_abort does not stop everything: a command is called after a stop if and only if the stop came from a look-up for the command's own strings |
| `JsonScript.OneCommandAfterStop` | json_script.c:514-571 | nothing but look-ups comes between such a stop and its command, and no other command follows |
| `JsonScript.StopsWhenAsked` | json_script.c:573-605 | when the callback for variables never calls json_script_abort, no command follows a stop |
| `JsonScript.AbortIgnored` | json_script.c:514-571 | and when it does, for some variable, there is a script whose command is called all the same |
| `JsonScript.IncludedTwice` | json_script.c:75-92 | a second include of the same file only reports the mistake |
| `JsonScript.ReturnEnds` | json_script.c:573-605 | what stands behind a `return` in a block is dead |
| `JsonScript.Script.ProcessCmd` | json_script.c:573-605 | the interpreter, which keeps loaded files and marks them with the number of the run, refines the meaning of a block, which knows only the set of visited files |
| `JsonScript.Script.HandleInclude` | json_script.c:190-205 | the same for an include |
| `JsonScript.Script.Run` | json_script.c:607-636 | a run means the same whatever was loaded or run before, until the number of the run comes round after 2^32-1 runs; from then on the files that still carry its number are taken for visited, and no others |

## Left out

Of the parts that are modelled:

- The pointer that is handed to a comparison function; the keys of a tree are compared by a total preorder, as `avl_blobcmp` is not.
- The iteration and clearing macros of `avl.h`, except the deleting walk inside `vlist_flush`.
- The update callback of a vlist does not touch the tree, and its version counter does not wrap around; one generation is stated for versions that no listed node carries yet.
- Task flags of the run queue are values in a map keyed by the task, not fields of the task; its lists are sequences with walks that behave as `SafeList.SafeList.ForEach` says, not the linked lists themselves.
- `runqueue_kill` is not among the steps of a callback, and processes (`runqueue_process_add` and its callbacks) are not modelled.
- A blob buffer is a sequence that grows, not memory that moves; a cookie is an offset, as in the source. The total size stays below 2^24, above which a length does not fit its header (`BlobBytes.LengthKept`).
- `blob_nest_start`, `blob_put_raw`, `blob_parse`, `blob_memdup`, `blob_attr_equal`, and the printf functions.
- The two directions of a stream are two classes with a buffer list each. Left out are the NUL behind string data, notifications and `set_read_blocked` with their callbacks, `ustream_vprintf`, `ustream_free`, and the flag that more is to come.
- The constants of the 64 operations of MD5 are a table, as in the source; that they are integer parts of 2^32 times a sine is not proved. `md5sum` reads files and is left out.
- Files, processes, signals and the main loop of `uloop.c`.
- In `json_script.c` scripts are trees, not bytes; an expression that is an empty array, which the source reads past, is an error here. Loaded files are values in a map by name. Callbacks do not run scripts; they may call json_script_abort whenever they are told something, a look-up of a variable included, but what a variable holds does not change during a run; and what `handle_expr` returns is ignored, as the source does.
- Failed allocations are modelled as a failed call where the source has one, and not elsewhere.

Of the library:

- Sockets, `ustream-fd.c`, logging, memory-mapped buffers, the debug ring (`udebug.c`, `udebug-remote.c`).
- JSON texts, the shell and Lua bindings.
- `kvlist.c`, a thin map over the tree.
