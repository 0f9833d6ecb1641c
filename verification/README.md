# Chat server, verified model

This project models the hard parts of a C chat system and proves properties of them:

- **libfdr's red-black tree** (`RedBlackTree.dfy`, `JrbMemory.dfy`, `JrbOrder.dfy`, `Jrb.dfy`). Keys live in
  external nodes threaded on a circular doubly linked list through the head; internal nodes cache the neighbouring
  leaves. The pure part works on a tree with a zipper for the way up. The class `Jrb.Pool` is a pool of node records
  whose fields are rewritten one by one in the order of the C code; it is proved to represent the pure tree
  at every stage. `Pool.Valid` says everything at once: red-black (the root may be red only when
  there are exactly two leaves), list = in-order leaves with inverse links, caches exact, no stray node. Search and
  insertion are proved for every comparison function that is a total preorder.
- **The server's database and handlers** (`ChatModel.dfy`, `ChatProofs.dfy`, `ChatEffects.dfy`, `SqlSchema.dfy`,
  `SqlText.dfy`, `SqlInserts.dfy`, `ChatServer.dfy`). The tables as values, one step per request, and invariants over all runs, those included in which
  a transaction fails at any of its statements. Underneath, an engine of rows with INSERT, UPDATE and DELETE that
  enforces UNIQUE, foreign keys and ON DELETE CASCADE; the text of the INSERT statements, cut off by snprintf and read
  back with SQLite's rules for numbers and string literals; the functions of sql.c as sequences of statements with
  transactions and ROLLBACK; the handlers on top, proved to do what the step function says.
- **The wire codec** (`Bytes.dfy`, `Requests.dfy`, `Responses.dfy`), frames of 8192 bytes stated byte by byte, the
  codes of the dispatch table (`Protocol.dfy`), and the end-to-end journey of a text message (`TextTrip.dfy`).
- **The worker pool** (`Workers.dfy`): one-shot epoll ownership under any interleaving; and the descriptor set
  with its cached maximum (`FdSet.dfy`).
- **The string registry** (`StringRegistry.dfy`), shared by all workers, with the parsers and destroy functions that
  call it. `Collections.dfy` holds what several parts share.

`dafny verify dfyconfig.toml` checks the whole project.

## How the code differs from its promises

- `jrb_delete_node` may leave a red root (jrb.c:453-459): exactly when the leaf hung from the root beside an internal
  node (`DeleteRootRed`, `Pool.DeleteNode`); `RedRootRun` is such a run. The invariant that holds is "root black unless
  there are exactly two leaves", and every insertion leaves the root black (`Pool.InsertB`).
- An admin who removes somebody else removes itself (handler.c:313). `AdminLeaves` is such a run,
  `AdminStaysUnless` the exact condition.
- DELETED is not final: a later fetch writes DELIVERED (handler.c:548). `DeletedComesBack` is such a run,
  `DeletedUnlessFetched` the exact condition.
- Texts are pasted into statements between apostrophes and into buffers of 512 or 8192 bytes (sql.c:196-198, 271,
  739-742). SQLite reads back what was meant iff no text has an apostrophe and the statement fits, up to its semicolon
  (`Carried`, `TextCarried`). An odd number of apostrophes makes no INSERT (`OddRefused`), doubled ones lose one of each
  pair (`DoubledLost`), and a text of the 8116 bytes a request can carry never fits (`FullTextRefused`; `FitsExactly` is
  the bound). A statement that is cut off gives 500. The results about the server's methods and about the journey of a
  text are for texts without apostrophes.
- A worker can go on with a number it has closed, on two paths: a direct error write fails (handler.c:929-933,
  956-960), or the file of an upload cannot be created (handler.c:628-632). If the number has been reused meanwhile, the
  worker arms or closes somebody else's connection. `DirectFailureBreaksIt`, `DirectFailureTwoOwners` (in which the
  connection ends up with two owners), `UploadFailureBreaksIt` and `UploadFailureClosesAnothers` are such interleavings; `StepKeepsUnlessArming`, `StepKeepsUnlessHarmful` and
  `RunKeepsUnlessHarmful` are the exact conditions, and `RunSafe` holds when neither failure happens.
- An event without EPOLLIN is passed over (main.c:365), and since it has used up the one shot, its connection is never
  armed again: `StepServes` and `RunServes` say that an open connection is always armed or somebody's exactly unless
  that happens.
- The header of a join or quit request counts 4 of the 8 bytes of its body, that of a notify-deleted request none
  (request.c:364-383, 523-533, 668-688; `HeaderFacts`).
- `response_parse` gives NULL for the replies to logout and to conv drop, join and quit (response.c:150-152,
  178-180), and for no other reply the server encodes (`NullExactly`). Error replies parse for every action but (2, 4)
  and (4, 1), where a length underflows (response.c:172, 241; `ErrorReplies`); the server sends (2, 4) when it
  refuses a drop or a join (handler.c:260-262, 278-280).

## Model

| member | source | states |
|---|---|---|
| `RedBlackTree.RotateOrder` | server/lib/libfdr/jrb.c:387-430 | a rotation keeps the in-order sequences of leaves and of internal nodes |
| `RedBlackTree.InsertFixOrder` | server/lib/libfdr/jrb.c:342-385 | recolouring and rotating after an insertion keeps both in-order sequences, however far it climbs |
| `RedBlackTree.InsertFixRedBlack` | server/lib/libfdr/jrb.c:342-385 | from any tree whose only fault is the new red node (a red root included) the fix-up gives a red-black tree |
| `RedBlackTree.InsertTreeCorrect` | server/lib/libfdr/jrb.c:309-385 | replacing a leaf of a red-black tree by a pair and fixing up gives a red-black tree with exactly the new nodes added to the two sequences |
| `RedBlackTree.NewLeafTree` | server/lib/libfdr/jrb.c:321-339 | inserting beside a leaf: the leaf sequence gains the new leaf at that position, the internal nodes gain the new parent between the two leaves |
| `RedBlackTree.NewLastTree` | server/lib/libfdr/jrb.c:321-330 | inserting at the head: the new leaf comes last |
| `RedBlackTree.DeleteTurnOrder` | server/lib/libfdr/jrb.c:514-550 | the closing rotations of a deletion keep both sequences |
| `RedBlackTree.DeleteTurnRedBlack` | server/lib/libfdr/jrb.c:514-550 | they repair the missing black and never take an error exit |
| `RedBlackTree.DeleteFixOrder` | server/lib/libfdr/jrb.c:493-551 | the whole deletion fix-up keeps both sequences |
| `RedBlackTree.DeleteFixRedBlack` | server/lib/libfdr/jrb.c:493-551 | a subtree one black short is repaired to a red-black tree; the error exits are unreachable |
| `RedBlackTree.DeleteTreeCorrect` | server/lib/libfdr/jrb.c:432-551 | taking out any leaf with its parent gives a red-black tree with what remains in the same order |
| `RedBlackTree.DropLeafTree` | server/lib/libfdr/jrb.c:432-551 | exactly that leaf and that parent leave the two sequences |
| `RedBlackTree.DeleteRootRed` | server/lib/libfdr/jrb.c:432-551 | the root is red after a deletion iff the leaf hung from the root and its sibling is internal |
| `RedBlackTree.RedRootAfterDelete` | server/lib/libfdr/jrb.c:453-459 | the smallest tree for which it is |
| `RedBlackTree.ShortSibling` | server/lib/libfdr/jrb.c:474-489 | the sibling of a leaf is a leaf or a red node over two leaves, so the early exit at 480 cannot happen |
| `RedBlackTree.ManyLeaves` | server/lib/libfdr/jrb.c:606-620 | a tree of black height b has at least 2^(b-1) leaves |
| `RedBlackTree.LeafDepth` | server/lib/libfdr/jrb.c:606-636 | every leaf has the same black count and depth at most twice that count |
| `JrbMemory.CachedMeaning` | server/lib/libfdr/jrb.c:56-77 | caches stated by position equal caches stated by subtree: lext is the last leaf on the left, rext the first on the right |
| `JrbMemory.ListedInsert` | server/lib/libfdr/jrb.c:79-89 | four link writes put one element into the circular list |
| `JrbMemory.ListedRemove` | server/lib/libfdr/jrb.c:91-95 | two link writes take exactly one element out |
| `JrbMemory.RepPlug` | server/lib/libfdr/jrb.c:137-155 | a tree in memory seen from its root and seen from any inner place are the same |
| `Jrb.Pool.constructor` | server/lib/libfdr/jrb.c:157-168 | the new tree is valid and empty |
| `Jrb.Pool.LinkBefore` | server/lib/libfdr/jrb.c:79-89 | the list gains the item in front of the given element; tree links, colours and data stay |
| `Jrb.Pool.Unlink` | server/lib/libfdr/jrb.c:91-95 | the list loses exactly the item; everything else stays |
| `Jrb.Pool.LPrev` | server/lib/libfdr/jrb.c:137-145 | the climb ends at the internal node just before the subtree in order, or at the head; the head itself is answered at once |
| `Jrb.Pool.RPrev` | server/lib/libfdr/jrb.c:147-155 | the climb ends at the internal node just after the subtree in order, or at the head; the head itself is answered at once |
| `Jrb.Pool.MkNewInt` | server/lib/libfdr/jrb.c:106-134 | memory then holds the fixed-up tree with the pair in place of the leaf, and the fresh internal node caches its two leaves |
| `Jrb.Pool.SingleRotate` | server/lib/libfdr/jrb.c:387-430 | memory then holds the rotated tree in the same surroundings; list links of leaves and all data stay |
| `Jrb.Pool.Recolor` | server/lib/libfdr/jrb.c:342-385 | the climbing loop leaves in memory what the pure fix-up computes and terminates by climbing |
| `Jrb.Pool.InsertB` | server/lib/libfdr/jrb.c:309-340 | from any valid tree, at any position: valid again with a black root, list = old list with the fresh leaf there, its key and value set, all other data kept |
| `Jrb.Pool.FixDeficit` | server/lib/libfdr/jrb.c:493-551 | the in-place fix-up exits exactly when the pure one does and otherwise leaves its tree |
| `Jrb.Pool.CutOut` | server/lib/libfdr/jrb.c:452-472 | the leaf and its parent are freed and the sibling hangs in the parent's place |
| `Jrb.Pool.FixCaches` | server/lib/libfdr/jrb.c:474-489 | only the rext just before and the lext just after the sibling change, to its first and last leaf |
| `Jrb.Pool.DeleteNode` | server/lib/libfdr/jrb.c:432-551 | refused without change exactly for nodes that are not leaves; otherwise valid again, list = old list without that leaf, data kept, no error exit, and the root is red iff the leaf's parent was the root and its sibling internal |
| `Jrb.Pool.RedRootRun` | server/lib/libfdr/jrb.c:453-459 | from an empty tree: three insertions and a deletion after which the root is red |
| `Jrb.Pool.FreeTree` | server/lib/libfdr/jrb.c:638-649 | refused without change exactly for nodes other than the head; otherwise every allocated node is freed |
| `Jrb.Pool.FindGteGen` | server/lib/libfdr/jrb.c:272-298 | for every total preorder: refused exactly for nodes other than the head; found iff some leaf has an equal key; otherwise the first leaf with a greater key, or the head: the tree search is a linear scan |
| `Jrb.Pool.InsertGen` | server/lib/libfdr/jrb.c:688-694 | for every total preorder: the list stays sorted, duplicates included, and the list of (key, value) pairs gains exactly the new pair |
| `Jrb.Pool.FindGteInt` | server/lib/libfdr/jrb.c:206-228 | refused exactly for nodes other than the head; found iff some leaf has the key, otherwise the first leaf with a greater key, or the head |
| `Jrb.Pool.InsertInt` | server/lib/libfdr/jrb.c:670-677 | the list stays sorted, duplicates included, and gains exactly the new leaf |
| `Jrb.Pool.Nblack` | server/lib/libfdr/jrb.c:606-620 | the count is the black height, the same for all leaves, with at least 2^(nb-1) leaves; refused exactly for other nodes |
| `Jrb.Pool.Plength` | server/lib/libfdr/jrb.c:622-636 | the depth of the leaf, at most twice the black height; refused exactly for other nodes |
| `Jrb.Pool.Nth` | server/lib/libfdr/jrb.c:79-95 | following flink i times from the first leaf gives the i-th leaf in order, or the head |
| `Jrb.Pool.Replay` | server/lib/libfdr/jrb.c:309-551 | for every total preorder: after any run of inserts and deletes the tree is valid and its (key, value) pairs are what the same run makes of a plain list, each insertion at a place that keeps the list sorted at every moment |
| `JrbOrder.KeysOfRun` | server/lib/libfdr/jrb.c:309-551 | with integer keys such a run leaves exactly the keys it leaves of a plain sorted list, wherever equal keys went |
| `JrbOrder.FoundScan` | server/lib/libfdr/jrb.c:272-298 | what the descent finds is what a scan of the whole sorted list finds |
| `JrbOrder.InsAnywhere` | server/lib/libfdr/jrb.c:670-677 | wherever among equal keys a key goes, the key list is the sorted insertion |
| `Jrb.LinksInverse` | server/lib/libfdr/jrb.c:79-95 | in a valid tree, the empty one included, flink and blink undo each other at every list node |
| `Bytes.WriteU32` | server/src/request.c:22-26 | reading back big-endian gives the number; no other byte changes |
| `Bytes.NetworkOrder` | server/src/request.c:15-26 | the highest byte comes first |
| `Bytes.WordsRead` | server/src/response.c:28-40 | words laid out one after the other read back one after the other |
| `Bytes.FieldIsPart` | server/src/request.c:83-96 | the tokenizer's field is the first part of the delimiter split and the rest splits into the other parts |
| `Requests.RegisterAccepts` | server/src/request.c:98-142 | a NUL-free register body is accepted iff it has at least three delimiters; the fields are its first four parts |
| `Requests.LoginFields` | server/src/request.c:98-142 | a login body gives its first two parts, or its only part twice |
| `Requests.FieldTokenizer` | server/src/request.c:83-96 | in place: `rest` moves past the delimiter, which becomes NUL, or nothing changes |
| `Requests.RequestParseAuth` | server/src/request.c:98-142 | the in-place parser computes the specification on every body, the rejected ones included |
| `Requests.HeaderPlaces` | server/src/request.c:44-55 | whatever the frame, the parsed header is what stands at bytes 0-2, 4-12, 16-32 and 32-44 |
| `Requests.HeaderFacts` | server/src/request.c:342-693 | token and user, the page or -1, kind and lengths in the header: content length is the file's size for a file and the body length otherwise, which is the number of body bytes but for login, join, quit and notify-deleted |
| `Requests.MakeRequestHeader` | server/src/request.c:323-340 | every field stands at its place byte for byte, negative limit and offset and all 16 token bytes included, and parses back; unused header bytes are zero; the body is untouched |
| `Requests.MakeRequest` | server/src/request.c:342-693 | the frame is the request byte for byte, the rest zero (or, for the four calls without a body, as it was), and it parses back to the same header and fields |
| `Requests.RequestRoundTrip` | server/src/request.c:36-266 | any frame that holds a request's bytes (header fields, big-endian words, texts and delimiters at their offsets) parses to that request |
| `Requests.NoSharedEncoding` | server/src/request.c:342-693 | two different requests never share a frame |
| `Protocol.ReachesHandler` | server/src/handler.c:935-1055 | every encoded request is dispatched to the handler it is meant for |
| `Protocol.AskedIsTaken` | server/src/handler.c:935-1055 | for the requests that change tables: what the handler takes from the parsed frame, ids, text, kind and length, is what the client asked for, and the user is the one who asked |
| `Protocol.SameCodes` | server/src/response.c:401-637 | a reply carries the group and action of the request it answers |
| `Responses.ParseIdList` | server/src/response.c:28-40 | the array holds the big-endian words of the body in order |
| `Responses.NullExactly` | server/src/response.c:121-256 | of all replies the server encodes, NULL comes back for exactly those to logout, conv drop, conv join and conv quit |
| `Responses.MakeResponseHeader` | server/src/response.c:329-342 | the first 20 bytes are the header's bytes and parse back, the other 12 are zero; the body is untouched |
| `Responses.HeaderFacts` | server/src/response.c:344-637 | codes, kind, content length, body length, status and count in the header of every reply |
| `Responses.MakeResponse` | server/src/response.c:344-637 | the frame is the reply byte for byte, the rest zero or, for an empty body, as it was; kind and length in the header are the content's own for a message and a file; it parses back to the same header and fields, or to NULL for the four unread actions |
| `Responses.ResponseRoundTrip` | server/src/response.c:50-256 | any frame that holds a reply's bytes (big-endian words, texts, delimiters at their offsets) parses to that reply |
| `Responses.NoSharedReply` | server/src/response.c:344-637 | two different replies, or the same with different status, never share a frame |
| `Responses.MakeErrResponse` | server/src/response.c:320-327 | a header with status and no lengths; the body stays as it was |
| `Responses.WriteIds` | server/src/response.c:358-399 | id lists of any length up to the body's capacity become the big-endian words in order |
| `Responses.WriteDetail` | server/src/response.c:572-598 | the 30-byte message detail and its text are laid out byte for byte |
| `Responses.InfoText` | server/src/response.c:446-474 | three delimiter-free fields joined by the delimiter are tokenized back |
| `ChatModel.NextId` | server/src/sql.c:26-53 | a new rowid is positive, above all ids in use, and follows one in use unless it is 1 |
| `ChatProofs.CascadeClosed` | server/db/schema.up.sql:52-54 | the cascade holds the deleted rows and every reply to a row in it |
| `ChatProofs.CascadeLeast` | server/db/schema.up.sql:52-54 | it is the least such set |
| `ChatProofs.NoReplyCycle` | server/src/sql.c:713-742 | a reply chain that returns to its start is one self-reference |
| `ChatProofs.DeleteKeepsMsgs` | server/src/sql.c:363-410 | after a cascading delete of a room's messages every remaining message still resolves |
| `ChatProofs.ServeInv` | server/src/handler.c:935-1055 | every request, also one whose transaction fails at any statement, keeps all references resolved, ids positive, every message in a room, chat-only messages from a participant, replies not newer than themselves |
| `ChatProofs.RunInv` | server/src/handler.c:935-1055 | so does every run, with any transactions failing in it |
| `ChatProofs.ReachableInv` | server/db/schema.up.sql:17-66 | it holds in every state reachable from the empty database |
| `ChatProofs.RunUnique` | server/db/schema.up.sql:7-26 | over any run no two users share a name and no two chats the same ordered pair |
| `ChatProofs.ChainReaches` | server/db/schema.up.sql:52-54 | whoever has a reply chain into the deleted rows is in the cascade |
| `ChatProofs.ReachesChain` | server/db/schema.up.sql:52-54 | whoever is in the cascade has such a chain |
| `ChatProofs.ConvDropExact` | server/src/sql.c:363-410 | dropping a conversation removes exactly its messages and those whose reply chain reaches one, in any room, its members and itself |
| `ChatProofs.ChatDropExact` | server/src/sql.c:548-586 | the same for a chat |
| `ChatProofs.NotifyAgrees` | server/src/sql.c:797-808 | notify-new lists exactly the SENT messages whose detail request by that user would be answered |
| `ChatProofs.RefusedChangesNothing` | server/src/handler.c:139-759 | unless the status is 200 or 201 no table changes |
| `ChatProofs.MembershipStep` | server/src/handler.c:243-319 | exactly who becomes and ceases to be a member of which conversation, by whose request, for every request |
| `ChatProofs.MessageStep` | server/src/handler.c:583-737 | a message appears only for its sender, in a room of the sender, SENT, with the highest id; it disappears only with a room |
| `ChatEffects.UnknownRefused` | server/src/handler.c:952-961 | whoever is no user gets 403 and changes nothing |
| `ChatEffects.RegisterExact` | server/src/handler.c:139-168 | which status when; exactly one new user with the given columns, or no change |
| `ChatEffects.ConvCreateExact` | server/src/handler.c:243-252 | which status when; exactly one new conversation with that admin and name, whose only member is its creator, or no change |
| `ChatEffects.ConvJoinExact` | server/src/handler.c:272-288 | any member adds any user who is not one yet, and nobody else changes |
| `ChatEffects.ConvQuitExact` | server/src/handler.c:290-319 | a member leaves iff it names itself and is no admin or names somebody else and is; status of every case; nobody else changes |
| `ChatEffects.DropStatus` | server/src/handler.c:254-270 | a conversation is dropped iff its admin asks and no statement fails, a chat iff a participant asks and none fails |
| `ChatEffects.ChatCreateExact` | server/src/handler.c:390-408 | which status when; exactly one new chat of requester and partner, who are its two participants, or no change |
| `ChatEffects.MsgSendExact` | server/src/handler.c:583-705 | which status when, texts and files; exactly one new row with all its columns: a file keeps the announced length, a text loses 12 |
| `ChatEffects.MsgDeleteExact` | server/src/handler.c:707-737 | anybody in the message's room, nobody else, empties and marks exactly that row |
| `ChatEffects.MsgFetchExact` | server/src/handler.c:519-551 | anybody in the message's room, nobody else, marks exactly that row delivered |
| `ChatProofs.RowStep` | server/src/sql.c:758-782 | only content and type of a row ever change, only by fetch and delete, never back to SENT |
| `ChatProofs.SeenStaysSeen` | server/src/sql.c:758-808 | over any run in which the row lives: not SENT stays not SENT, empty content stays empty, the rest is constant |
| `ChatProofs.NeverNotifiedAgain` | server/src/sql.c:758-808 | once fetched or deleted, a message is never again in any user's notify-new list; once deleted its content stays empty |
| `ChatProofs.AdminStaysUnless` | server/src/handler.c:290-319 | "every admin is a member" survives a request iff it is not an admin removing somebody else |
| `ChatProofs.AdminsStayOverRun` | server/src/handler.c:290-319 | it holds at the end of every run without such a request |
| `ChatProofs.AdminLeaves` | server/src/handler.c:313 | a concrete run after which an admin is no member |
| `ChatProofs.DeletedUnlessFetched` | server/src/handler.c:519-551 | DELETED survives a request iff it is not a fetch by somebody who may read the message |
| `ChatProofs.DeletedComesBack` | server/src/handler.c:548 | a concrete run in which a deleted message becomes DELIVERED |
| `SqlSchema.MeansOne` | server/db/schema.up.sql:7-66 | the rows determine the database they mean |
| `SqlSchema.MessageCascade` | server/db/schema.up.sql:49-66 | from message rows the cascade over all tables is the cascade along reply_to, and no row blocks it |
| `ChatServer.Server.Insert` | server/src/sql.c:26-53 | the row is added under the next rowid iff no UNIQUE and, when enforced, no foreign key constraint fails; neither kind is ever broken by it |
| `ChatServer.Server.Delete` | server/db/schema.up.sql:17-66 | with foreign keys on exactly the least cascade goes, found by a terminating loop; nothing goes when a reference without cascade blocks it; references stay resolved |
| `ChatServer.Server.DeleteMessages` | server/db/schema.up.sql:49-66 | exactly the messages and the replies that chain to them go, in any room; no other table changes |
| `SqlText.Carried` | server/src/sql.c:739-745 | for any values, head and buffer: SQLite reads the values back as they were iff no text has an apostrophe and the statement fits, its semicolon aside |
| `SqlText.PlainCarried` | server/src/sql.c:192-200 | for texts without apostrophes it reads exactly the values, or nothing when the statement is cut off before its last parenthesis |
| `SqlText.DoubledLost` | server/src/sql.c:739-745 | a text that is another one with its apostrophes doubled is stored as that other one |
| `SqlText.OddRefused` | server/src/sql.c:739-745 | an odd number of apostrophes in the texts makes the statement no INSERT |
| `SqlText.DecTen` | server/src/sql.c:739-742 | numbers are printed in base ten, the highest digit first |
| `SqlInserts.MsgThere` | server/src/sql.c:739-742 | by the column names in the statement, the nine values make the row that was meant |
| `SqlInserts.HeadCounted` | server/src/sql.c:739-742 | the length of the statement's text before its values |
| `ChatServer.Server.Prepare` | server/src/sql.c:26-35 | the values SQLite gets are those that were printed, or none when the buffer is too small |
| `ChatServer.Server.UserCreate` | server/src/sql.c:192-201 | an error iff the statement does not fit its 512 bytes; otherwise the user is added under the next id iff the name is free |
| `ChatServer.Server.ConvCreate` | server/src/sql.c:259-301 | conversation and first member are added, or, when the statement does not fit, a constraint fails or any statement of the transaction fails, no row changes |
| `ChatServer.Server.ConvDrop` | server/src/sql.c:363-410 | the conversation, its members and the cascade of its messages go, the last statement's own cascade finding nothing; or, when any statement fails, no row changes |
| `ChatServer.Server.ConvJoin` | server/src/sql.c:412-419 | the pair becomes a member iff it is not one and, when enforced, conversation and user exist |
| `ChatServer.Server.ConvQuit` | server/src/sql.c:421-436 | exactly that pair's membership goes |
| `ChatServer.Server.ChatCreate` | server/src/sql.c:500-516 | the chat is added iff both users exist and the ordered pair has no chat |
| `ChatServer.Server.ChatDrop` | server/src/sql.c:548-586 | the chat and the cascade of its messages go; or, when any statement fails, no row changes |
| `ChatServer.Server.MsgSend` | server/src/sql.c:706-756 | 0 becomes NULL; for a text without apostrophes: an error iff the statement does not fit its 8192 bytes; otherwise a row with exactly that text and the next id is added iff every foreign key resolves, its own id included |
| `ChatServer.Server.UpdateMsg` | server/src/sql.c:758-782 | exactly the named message row is rewritten, none when it does not exist |
| `ChatServer.Server.SqlGetList` | server/src/sql.c:55-76 | the list is the query's rows in reverse order |
| `ChatServer.Server.Select` | server/src/sql.c:801-805 | each matching message id once |
| `ChatServer.Server.Union` | server/src/sql.c:802-804 | every value of the two selects once; the length is the sum less the values in both |
| `ChatServer.Server.MsgGetMsgSent` | server/src/sql.c:797-808 | the UNION of the two selects is the notify set, without duplicates; a message in a chat and a conversation of the user is in both selects and counted once |
| `ChatServer.Server.HandleRegister` | server/src/handler.c:139-168 | for texts without apostrophes: a statement that does not fit gives 500; a free name gives 201 and one new user, a taken one 409 and no change, by the UNIQUE constraint alone |
| `ChatServer.Server.HandleConvCreate` | server/src/handler.c:243-252 | for a name without apostrophes that fits, an existing user gets its conversation with itself as member, since the fresh id has no members; a failing or cut-off statement gives 500 and no row |
| `ChatServer.Server.HandleConvDrop` | server/src/handler.c:254-270 | only the admin's request changes anything, and then all three deletes or, with 500, none |
| `ChatServer.Server.HandleConvJoin` | server/src/handler.c:272-288 | only a member adds a user; primary key and foreign keys give 500 for a member, an unknown user or an unknown conversation |
| `ChatServer.Server.HandleConvQuit` | server/src/handler.c:290-319 | the DELETE removes the requester's row, whoever is named; an admin quitting itself gets 204 and stays |
| `ChatServer.Server.HandleChatCreate` | server/src/handler.c:390-408 | a self-chat gives 403; the constraints give 409 for an unknown partner or an existing pair; otherwise one new chat |
| `ChatServer.Server.HandleChatDrop` | server/src/handler.c:410-426 | only a participant's request changes anything, and then both deletes or, with 500, none |
| `ChatServer.Server.HandleMsgSend` | server/src/handler.c:583-705 | for a text without apostrophes: membership in one of the two rooms, then the statement and its foreign keys: tables, status (500 when it does not fit) and new id as specified, refusals included |
| `ChatServer.Server.HandleMsgDelete` | server/src/handler.c:707-737 | one UPDATE empties and marks the row, for whoever is in one of its rooms |
| `ChatServer.Server.HandleMsgFetch` | server/src/handler.c:519-551 | the reply is the row as it was; one UPDATE then marks it delivered |
| `ChatServer.Server.HandleNotifyNew` | server/src/handler.c:739-759 | the answer has no duplicates and lists exactly the unseen messages the user could fetch |
| `ChatServer.Server.Dispatch` | server/src/handler.c:935-1055 | any request by anybody, with texts without apostrophes and with its transaction failing anywhere or not, does what the specification says and keeps the invariant |
| `ChatServer.Server.ServeAll` | server/src/handler.c:935-1055 | any sequence of such requests leaves the state the specification's run leaves |
| `TextTrip.TextCarried` | server/src/sql.c:706-745 | what SQLite reads from the statement of a text message is the row that was meant iff the text has no apostrophe and the statement fits |
| `TextTrip.FitsExactly` | server/src/sql.c:739-742 | it fits iff 146 characters, the digits of the numbers and the text are together at most 8192 |
| `TextTrip.FullTextRefused` | server/src/handler.c:606-615 | a text of the full length a request can carry is refused with 500 |
| `TextTrip.TextSurvives` | server/src/sql.c:689-755 | a text without apostrophes is stored iff the sender may send and the statement fits; the stored row gives a reply that fits the frame with the same text, exact length and ids, 0 for NULL |
| `TextTrip.FileSurvives` | server/src/handler.c:688-690 | a file message is stored iff the sender may send and the statement fits; its detail carries kind 1, the announced size, the stored name and the ids |
| `TextTrip.TextLives` | server/src/sql.c:758-782 | over any run without a delete request for it, a message that lives keeps text, length and ids |
| `TextTrip.TextArrives` | server/src/handler.c:543-546 | any such run later the row of a text without apostrophes still gives a reply that fits and carries what was sent |
| `TextTrip.Travel` | server/src/handler.c:519-617 | a text without apostrophes, encoded, parsed, stored, then any requests of anybody while the row lives undeleted, fetched, encoded and parsed again: the reader gets exactly what was sent, with content type 0 and the text's length also in the header, iff the sender may send, the statement fits and the reader may then read |
| `Workers.StepKeepsUnlessArming` | server/src/main.c:332-373 | single ownership and nothing armed while owned survive a step iff it does not re-arm a closed number that has become somebody else's |
| `Workers.StepCloses` | server/src/main.c:219-225 | no owned connection is closed by a step iff it does not close a second time a number that has become somebody else's |
| `Workers.StepKeepsUnlessHarmful` | server/src/main.c:292-378 | the whole discipline survives a step iff it is neither of the two |
| `Workers.RunKeepsUnlessHarmful` | server/src/handler.c:1057-1070 | it holds in every state of a run iff no step of the run is one of the two |
| `Workers.RearmArms` | server/src/handler.c:1057-1070 | after a served request its connection is armed, open and nobody's |
| `Workers.StepServes` | server/src/main.c:362-372 | every open connection stays armed or somebody's iff the step does not pass over an event without EPOLLIN |
| `Workers.RunServes` | server/src/main.c:348-378 | so at every moment of a run iff no event of it is passed over |
| `Workers.InitServes` | server/src/main.c:348-378 | so from the start of the server, as long as neither failure happens |
| `Workers.RunSafe` | server/src/handler.c:881-1070 | for any number of workers and any interleaving in which the direct error writes succeed and every upload's file can be created: at most one owner, none armed while owned, none closed under its owner, at every moment |
| `Workers.InitSafe` | server/src/main.c:348-378 | so from the start of the server |
| `Workers.DirectFailureBreaksIt` | server/src/handler.c:929-960 | a concrete interleaving of two workers that arms an owned connection when such a write fails |
| `Workers.DirectFailureTwoOwners` | server/src/handler.c:929-960 | its continuation, after which the connection has two owners |
| `Workers.UploadFailureBreaksIt` | server/src/handler.c:628-632 | one in which all direct error writes succeed but an upload's file cannot be created |
| `Workers.UploadFailureClosesAnothers` | server/src/handler.c:628-632 | one in which that failure closes the connection another worker is handling |
| `FdSet.Descriptors.constructor` | server/src/main.c:171-174 | the set is the listening socket, which is its maximum |
| `FdSet.Descriptors.Add` | server/src/main.c:269-276 | the descriptor is added and maxfd is the maximum |
| `FdSet.Descriptors.Clr` | server/src/main.c:278-288 | exactly the descriptor goes, the scan terminates and maxfd is the maximum of what is left |
| `StringRegistry.Registry.StringNew` | server/src/utils/string.c:12-45 | a fresh block with the text is registered once, in front |
| `StringRegistry.Registry.FindNode` | server/src/utils/sll.c:28-45 | the first occurrence, or the end when there is none |
| `StringRegistry.Registry.StringRemove` | server/src/utils/string.c:70-77 | a registered string is unlinked and freed once; any other pointer changes nothing |
| `StringRegistry.Registry.StringClean` | server/src/utils/string.c:79-86 | every live string is freed, each once |
| `StringRegistry.Registry.Replay` | server/src/utils/string.c:12-86 | under any sequence of calls the list holds exactly the live strings, each once, nothing is freed twice, and the list is what the calls leave |
| `StringRegistry.Registry.RequestParse` | server/src/request.c:36-266 | exactly the header token and the texts of the parsed request are registered, all fresh; the parser's NULL leaves only the token |
| `StringRegistry.Registry.RequestBodyDestroy` | server/src/request.c:268-311 | wherever in the list they stand: exactly the body's strings leave it, the rest keeps its order, each freed once |
| `StringRegistry.Registry.RequestParseDestroy` | server/src/request.c:313-319 | for every frame, accepted or refused, exactly the header token stays behind |
| `StringRegistry.Registry.ResponseParse` | server/src/response.c:50-256 | exactly the texts of the parsed reply are registered, all fresh |
| `StringRegistry.Registry.ResponseBodyDestroy` | server/src/response.c:258-308 | wherever in the list they stand: exactly the body's strings leave it, the rest keeps its order, each freed once |
| `StringRegistry.Registry.ResponseParseDestroy` | server/src/response.c:310-316 | for every frame the registry is as it was |
| `StringRegistry.Interleaved` | server/src/utils/string.c:9-45 | one worker's calls interleaved in any way with others' calls: as long as malloc answers with free addresses and each side removes none of the other's live strings, both sides find their strings as they would alone, addresses freed by one and given to the other included |
| `StringRegistry.RequestAmongOthers` | server/src/handler.c:925-1072 | a request's life among any calls of others that leave its live strings alone: the header token stays, and otherwise the list is what the others alone leave, also when an address it frees is given out again before its last one is freed |
| `StringRegistry.ResponseAmongOthers` | server/src/response.c:310-316 | a reply's life among any such calls leaves exactly what the others leave |

## Left out

Tree:

- The string and double variants of search and insertion are instances of the comparison-function variant in all but
  their code; they are not written out. A key that is not an integer counts as 0 for the integer order.
- C pointers are keys of a node pool, malloc answers with any key not in use, fresh nodes are zero-initialised
  (make_jrb ORs into its flag byte); the key/val union is a datatype with an integer and a pointer case.
- Printing, jrb_insert_a, the other libfdr modules (dllist, jval).

Server:

- Tokens, MD5 and Blowfish: a request comes from a claimed user id, and an authenticated one is an existing user.
- What a statement does whose texts have apostrophes, beyond whether its values are the ones that were meant; the
  server's methods ask for texts without them. SQLite itself. Each handler is one atomic step on one connection; the
  mutex that stays locked on some error paths (sql.c:276-280, 747-751) is outside the model.
- Statements without text (chats, members, UPDATE, DELETE, SELECT) always fit and are not printed.
- A new rowid is one more than the largest in use; ids are unbounded in the database model, and TextTrip asks
  that those it sends fit 32 bits.
- The clock is a parameter. SELECT and UNION yield their rows in no particular order.
- Errors of SQLite other than constraints are a parameter of the three transactions (which statement fails); for the
  single-statement functions they are left out.
- Login, logout and the read-only list, info, search and notify-deleted requests, which change no table.
- File contents: a file message stores the name and length it is given; upload, download, poll and stat loops.

Codec:

- The parsers trust the lengths in the header; frames with lengths beyond the body, and replies shorter than the
  4 or 30 bytes the parser subtracts, are outside (`LengthsOk`).
- Requests.MakeRequest: the login encoder writes a delimiter behind the password, so a login text must leave one
  byte more than body_len counts.
- request_parse and response_parse as a whole are functions of the frame; the tokenizer, the register and login
  parser, the id list and all writers are in place.

Workers and registry:

- The EPOLL_CTL_DEL and the close of close_sock are one step (in between the number is still open and owned).
- The number of a closed socket stays in the descriptor set until fdset_clr; that race and FD_SETSIZE are left out.
- The registry's list is a sequence; the list nodes' own allocation and the id lists of replies are not modelled.

Not modelled at all: the Java client, JNI and JNR bindings, client-lib, seed programs, type-mapping, random.c.
