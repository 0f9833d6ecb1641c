/** What holds in every state the server can reach, and over every run. */
module ChatProofs {
  import opened Bytes
  import opened ChatModel

  // ---- Referential integrity ----

  ghost predicate RoomsOk(db: Db) {
    && (forall m :: m in db.members ==> m.0 in db.convs && m.1 in db.users)
    && (forall c :: c in db.convs ==> db.convs[c].admin in db.users)
    && (forall c :: c in db.chats ==>
          && db.chats[c].member1 in db.users && db.chats[c].member2 in db.users
          && db.chats[c].member1 != db.chats[c].member2)
  }

  ghost predicate IdsPositive(db: Db) {
    0 !in db.users && 0 !in db.convs && 0 !in db.chats && 0 !in db.msgs
  }

  /** Every reference of message `i` resolves, it lives in some room, and a
      message outside conversations was sent by a participant of its chat. */
  ghost predicate MsgOk(db: Db, i: nat)
    requires i in db.msgs
  {
    var m := db.msgs[i];
    && m.from in db.users
    && (m.conv.Id? || m.chat.Id?)
    && (m.conv.Id? ==> m.conv.id in db.convs)
    && (m.chat.Id? ==> m.chat.id in db.chats)
    && (m.reply.Id? ==> m.reply.id in db.msgs && m.reply.id <= i)
    && (m.conv.Null? ==> ChatIsMember(db, m.chat.id, m.from))
  }

  ghost predicate MsgsOk(db: Db) {
    forall i :: i in db.msgs ==> MsgOk(db, i)
  }

  /** Foreign keys are enforced as soon as there is a row that needs them. */
  ghost predicate Enforced(db: Db) {
    db.fk || (db.convs == map[] && db.chats == map[] && db.members == {} && db.msgs == map[])
  }

  ghost predicate Inv(db: Db) {
    IdsPositive(db) && RoomsOk(db) && MsgsOk(db) && Enforced(db)
  }

  // ---- The delete cascade ----

  ghost predicate Closed(msgs: map<nat, Msg>, s: set<nat>) {
    forall i :: i in msgs && msgs[i].reply.Id? && msgs[i].reply.id in s ==> i in s
  }

  /** Cascade is the least set of rows that holds the seed and every reply to
      one of its rows. */
  lemma {:induction false} CascadeClosed(msgs: map<nat, Msg>, seed: set<nat>)
    requires RepliesBack(msgs) && seed <= msgs.Keys
    ensures seed <= Cascade(msgs, seed) && Closed(msgs, Cascade(msgs, seed))
  {
  }

  lemma {:induction false} CascadeLeast(msgs: map<nat, Msg>, seed: set<nat>, s: set<nat>, i: nat)
    requires seed <= s && Closed(msgs, s) && Reaches(msgs, i, seed)
    ensures i in s
    decreases i
  {
    if i !in seed {
      CascadeLeast(msgs, seed, s, msgs[i].reply.id);
    }
  }

  /** Following replies never comes back, unless a message answers itself. */
  lemma {:induction false} NoReplyCycle(msgs: map<nat, Msg>, path: seq<nat>)
    requires RepliesBack(msgs) && |path| >= 2
    requires forall i :: 0 <= i < |path| - 1 ==> path[i] in msgs && msgs[path[i]].reply == Id(path[i + 1])
    ensures path[|path| - 1] <= path[1] <= path[0]
    ensures path[|path| - 1] == path[0] ==> forall i :: 0 <= i < |path| ==> path[i] == path[0]
  {
    if |path| > 2 {
      NoReplyCycle(msgs, path[1..]);
      assert forall i :: 1 <= i < |path| ==> path[i] == path[1..][i - 1];
    }
  }

  lemma {:induction false} DeleteKeepsMsgs(db: Db, db': Db, seed: set<nat>)
    requires Inv(db) && db.fk && seed <= db.msgs.Keys
    requires db'.msgs == Delete(db, seed) && db'.users == db.users
    requires forall c :: c in db.convs ==> c in db'.convs || InConv(db.msgs, c) <= seed
    requires forall c :: c in db.chats ==> (c in db'.chats && db'.chats[c] == db.chats[c]) || InChat(db.msgs, c) <= seed
    ensures MsgsOk(db')
  {
    CascadeClosed(db.msgs, seed);
    forall i | i in db'.msgs ensures MsgOk(db', i) {
      var m := db.msgs[i];
      assert MsgOk(db, i) && db'.msgs[i] == m;
      if m.conv.Id? {
        assert i in InConv(db.msgs, m.conv.id);
      }
      if m.chat.Id? {
        assert i in InChat(db.msgs, m.chat.id);
      }
    }
  }

  // ---- Every step keeps the invariant ----

  lemma {:induction false} RegisterInv(db: Db, info: User)
    requires Inv(db)
    ensures Inv(DoRegister(db, info).db)
  {
    var db' := DoRegister(db, info).db;
    forall i | i in db'.msgs ensures MsgOk(db', i) {
      assert MsgOk(db, i);
    }
  }

  lemma {:induction false} ConvCreateInv(db: Db, u: nat, name: Str, fail: nat)
    requires Inv(db) && u in db.users
    ensures Inv(DoConvCreate(db, u, name, fail).db)
  {
    var db' := DoConvCreate(db, u, name, fail).db;
    forall i | i in db'.msgs ensures MsgOk(db', i) {
      assert MsgOk(db, i);
    }
  }

  lemma {:induction false} ConvDropInv(db: Db, u: nat, conv: nat, fail: nat)
    requires Inv(db)
    ensures Inv(DoConvDrop(db, u, conv, fail).db)
  {
    if DoConvDrop(db, u, conv, fail).status == 200 {
      DeleteKeepsMsgs(db, DoConvDrop(db, u, conv, fail).db, InConv(db.msgs, conv));
    }
  }

  lemma {:induction false} MembersInv(db: Db, members: set<(nat, nat)>)
    requires Inv(db) && (db.fk || members == {})
    requires forall m :: m in members ==> m.0 in db.convs && m.1 in db.users
    ensures Inv(db.(members := members))
  {
    var db' := db.(members := members);
    forall i | i in db'.msgs ensures MsgOk(db', i) {
      assert MsgOk(db, i);
    }
  }

  lemma {:induction false} ChatCreateInv(db: Db, u: nat, user2: nat)
    requires Inv(db) && u in db.users
    ensures Inv(DoChatCreate(db, u, user2).db)
  {
    var db' := DoChatCreate(db, u, user2).db;
    forall i | i in db'.msgs ensures MsgOk(db', i) {
      assert MsgOk(db, i);
    }
  }

  lemma {:induction false} ChatDropInv(db: Db, u: nat, chat: nat, fail: nat)
    requires Inv(db)
    ensures Inv(DoChatDrop(db, u, chat, fail).db)
  {
    if DoChatDrop(db, u, chat, fail).status == 200 {
      DeleteKeepsMsgs(db, DoChatDrop(db, u, chat, fail).db, InChat(db.msgs, chat));
    }
  }

  lemma {:induction false} MsgSendInv(db: Db, u: nat, r: Req)
    requires Inv(db) && u in db.users && r.MsgSend?
    ensures Inv(DoMsgSend(db, u, r).db)
  {
    var db' := DoMsgSend(db, u, r).db;
    forall i | i in db'.msgs ensures MsgOk(db', i) {
      if i in db.msgs {
        assert MsgOk(db, i);
      }
    }
  }

  lemma {:induction false} MsgUpdateInv(db: Db, msg: nat, m: Msg)
    requires Inv(db) && msg in db.msgs
    requires var o := db.msgs[msg]; m == o.(content := m.content, kind := m.kind)
    ensures Inv(db.(msgs := db.msgs[msg := m]))
  {
    var db' := db.(msgs := db.msgs[msg := m]);
    forall i | i in db'.msgs ensures MsgOk(db', i) {
      assert MsgOk(db, i);
    }
  }

  lemma {:induction false} ServeInv(db: Db, u: nat, r: Req)
    requires Inv(db)
    ensures Inv(Serve(db, u, r).db)
  {
    if r.Register? {
      RegisterInv(db, r.info);
    } else if u in db.users {
      match r
      case ConvCreate(name, fail) => ConvCreateInv(db, u, name, fail);
      case ConvDrop(conv, fail) => ConvDropInv(db, u, conv, fail);
      case ConvJoin(conv, user) => MembersInv(db, DoConvJoin(db, u, conv, user).db.members);
      case ConvQuit(conv, user) => MembersInv(db, DoConvQuit(db, u, conv, user).db.members);
      case ChatCreate(user2) => ChatCreateInv(db, u, user2);
      case ChatDrop(chat, fail) => ChatDropInv(db, u, chat, fail);
      case MsgSend(_, _, _, _, _, _, _) => MsgSendInv(db, u, r);
      case MsgDelete(msg) =>
        if msg in db.msgs {
          MsgUpdateInv(db, msg, db.msgs[msg].(content := [], kind := Deleted));
        }
      case MsgFetch(msg) =>
        if msg in db.msgs {
          MsgUpdateInv(db, msg, db.msgs[msg].(kind := Delivered));
        }
    }
  }

  /** All references resolve in every state reachable from any good state, and
      so from the empty database. */
  lemma {:induction false} RunInv(db: Db, rs: seq<(nat, Req)>)
    requires Inv(db)
    ensures Inv(Run(db, rs))
    decreases |rs|
  {
    if rs != [] {
      ServeInv(db, rs[0].0, rs[0].1);
      RunInv(Serve(db, rs[0].0, rs[0].1).db, rs[1..]);
    }
  }

  lemma {:induction false} ReachableInv(rs: seq<(nat, Req)>)
    ensures Inv(Run(EMPTY, rs)) && RepliesBack(Run(EMPTY, rs).msgs)
  {
    RunInv(EMPTY, rs);
    BackFromInv(Run(EMPTY, rs));
  }

  /** The UNIQUE constraints on user names and on the pairs of a chat. */
  ghost predicate UniqueNames(users: map<nat, User>) {
    forall i, j :: i in users && j in users && users[i].uname == users[j].uname ==> i == j
  }

  ghost predicate UniqueChats(chats: map<nat, Chat>) {
    forall c, d :: c in chats && d in chats && chats[c] == chats[d] ==> c == d
  }

  lemma {:induction false} ServeUnique(db: Db, u: nat, r: Req)
    requires UniqueNames(db.users) && UniqueChats(db.chats)
    ensures UniqueNames(Serve(db, u, r).db.users) && UniqueChats(Serve(db, u, r).db.chats)
  {
  }

  /** Over any run no two users share a name and no two chats a pair. */
  lemma {:induction false} RunUnique(db: Db, rs: seq<(nat, Req)>)
    requires UniqueNames(db.users) && UniqueChats(db.chats)
    ensures UniqueNames(Run(db, rs).users) && UniqueChats(Run(db, rs).chats)
    decreases |rs|
  {
    if rs != [] {
      ServeUnique(db, rs[0].0, rs[0].1);
      RunUnique(Serve(db, rs[0].0, rs[0].1).db, rs[1..]);
    }
  }

  lemma {:induction false} BackFromInv(db: Db)
    requires Inv(db)
    ensures RepliesBack(db.msgs)
  {
    forall i | i in db.msgs && db.msgs[i].reply.Id? ensures db.msgs[i].reply.id <= i {
      assert MsgOk(db, i);
    }
  }

  // ---- What dropping a room removes ----

  /** A chain of replies: each message answers the next one. */
  ghost predicate IsChain(msgs: map<nat, Msg>, path: seq<nat>) {
    forall k :: 0 <= k < |path| - 1 ==> path[k] in msgs && msgs[path[k]].reply == Id(path[k + 1])
  }

  ghost predicate ChainInto(msgs: map<nat, Msg>, i: nat, seed: set<nat>, path: seq<nat>) {
    |path| > 0 && path[0] == i && path[|path| - 1] in seed && IsChain(msgs, path)
  }

  lemma {:induction false} ChainReaches(msgs: map<nat, Msg>, i: nat, seed: set<nat>, path: seq<nat>)
    requires RepliesBack(msgs) && ChainInto(msgs, i, seed, path)
    ensures Reaches(msgs, i, seed)
    decreases |path|
  {
    if |path| > 1 {
      var rest := path[1..];
      assert forall k :: 0 <= k < |rest| ==> rest[k] == path[k + 1];
      ChainReaches(msgs, path[1], seed, rest);
    }
  }

  lemma {:induction false} ReachesChain(msgs: map<nat, Msg>, i: nat, seed: set<nat>) returns (path: seq<nat>)
    requires Reaches(msgs, i, seed)
    ensures ChainInto(msgs, i, seed, path)
    decreases i
  {
    if i in seed {
      path := [i];
    } else {
      var rest := ReachesChain(msgs, msgs[i].reply.id, seed);
      path := [i] + rest;
    }
  }

  /** Rows that survive are untouched; row `i` goes exactly when a chain of
      replies leads from it to a message of the room. */
  ghost predicate DropsExactly(db: Db, db': Db, room: set<nat>) {
    && (forall i :: i in db'.msgs ==> i in db.msgs && db'.msgs[i] == db.msgs[i])
    && (forall i :: i in db.msgs ==> (i !in db'.msgs <==> exists path :: ChainInto(db.msgs, i, room, path)))
  }

  lemma {:induction false} DeleteExact(db: Db, db': Db, room: set<nat>)
    requires Inv(db) && db.fk && db'.msgs == Delete(db, room)
    ensures DropsExactly(db, db', room)
  {
    BackFromInv(db);
    forall i | i in db.msgs ensures i !in db'.msgs <==> exists path :: ChainInto(db.msgs, i, room, path) {
      if Reaches(db.msgs, i, room) {
        var path := ReachesChain(db.msgs, i, room);
      }
      forall path | ChainInto(db.msgs, i, room, path) ensures Reaches(db.msgs, i, room) {
        ChainReaches(db.msgs, i, room, path);
      }
    }
  }

  lemma {:induction false} ConvDropExact(db: Db, u: nat, conv: nat, fail: nat)
    requires Inv(db) && u in db.users && Serve(db, u, ConvDrop(conv, fail)).status == 200
    ensures var db' := Serve(db, u, ConvDrop(conv, fail)).db;
            && DropsExactly(db, db', InConv(db.msgs, conv))
            && conv !in db'.convs && InConv(db'.msgs, conv) == {}
            && (forall m :: m in db'.members <==> m in db.members && m.0 != conv)
            && db'.chats == db.chats && db'.users == db.users
  {
    var db' := Serve(db, u, ConvDrop(conv, fail)).db;
    DeleteExact(db, db', InConv(db.msgs, conv));
  }

  lemma {:induction false} ChatDropExact(db: Db, u: nat, chat: nat, fail: nat)
    requires Inv(db) && u in db.users && Serve(db, u, ChatDrop(chat, fail)).status == 200
    ensures var db' := Serve(db, u, ChatDrop(chat, fail)).db;
            && DropsExactly(db, db', InChat(db.msgs, chat))
            && chat !in db'.chats && InChat(db'.msgs, chat) == {}
            && db'.convs == db.convs && db'.members == db.members && db'.users == db.users
  {
    var db' := Serve(db, u, ChatDrop(chat, fail)).db;
    DeleteExact(db, db', InChat(db.msgs, chat));
  }

  // ---- Two definitions of access agree ----

  /** notify-new lists exactly the SENT messages whose detail the same user
      could fetch. */
  lemma {:induction false} NotifyAgrees(db: Db, u: nat, i: nat)
    requires Inv(db) && u in db.users
    ensures i in NotifyNew(db, u)
       <==> i in db.msgs && db.msgs[i].kind == Sent && Serve(db, u, MsgFetch(i)).status == 200
  {
    if i in db.msgs {
      assert MsgOk(db, i);
    }
  }

  /** When a text is accepted: the sender is in one of the two rooms and every
      reference resolves. */
  predicate MaySend(db: Db, u: nat, conv: nat, chat: nat, reply: nat) {
    && (ConvIsMember(db, conv, u) || ChatIsMember(db, chat, u))
    && (reply == 0 || reply in db.msgs || reply == NextId(db.msgs.Keys))
    && (chat == 0 || chat in db.chats) && (conv == 0 || conv in db.convs)
  }

  predicate MayReadRooms(db: Db, conv: nat, chat: nat, v: nat) {
    ConvIsMember(db, conv, v) || ChatIsMember(db, chat, v)
  }

  // ---- Who may change what ----

  /** A refused request leaves every table alone. */
  lemma {:induction false} RefusedChangesNothing(db: Db, u: nat, r: Req)
    ensures var a := Serve(db, u, r);
            && (a.status in {200, 201} || a.db == db.(fk := a.db.fk))
            && a.status in {200, 201, 204, 400, 403, 404, 409, 500}
  {
  }

  /** One becomes a member exactly by creating the conversation or through a
      member, and stops being one exactly by one's own quit, which an admin can
      only bring about by naming somebody else, or through the admin's drop. */
  lemma {:induction false} MembershipStep(db: Db, u: nat, r: Req, c: nat, x: nat)
    requires Inv(db)
    ensures var db' := Serve(db, u, r).db;
            && (ConvIsMember(db', c, x) && !ConvIsMember(db, c, x) <==>
                  && u in db.users && !ConvIsMember(db, c, x)
                  && (|| (r.ConvCreate? && x == u && c == NextId(db.convs.Keys)
                          && ConvFits(Conv(u, r.name)) && r.fail !in {1, 2, 3})
                      || (r == ConvJoin(c, x) && ConvIsMember(db, c, u) && x in db.users)))
            && (ConvIsMember(db, c, x) && !ConvIsMember(db', c, x) <==>
                  && u in db.users && ConvIsMember(db, c, x)
                  && (|| (r.ConvQuit? && r.conv == c && x == u && (r.user == u <==> !ConvIsAdmin(db, c, u)))
                      || (r.ConvDrop? && r.conv == c && ConvIsAdmin(db, c, u) && r.fail !in {1, 2, 3, 4, 5})))
  {
    match r
    case ConvCreate(_, _) =>
    case ConvDrop(_, _) =>
    case ConvJoin(_, _) =>
    case ConvQuit(_, _) =>
    case _ => OtherMembers(db, u, r);
  }

  lemma {:induction false} OtherMembers(db: Db, u: nat, r: Req)
    requires !r.ConvCreate? && !r.ConvDrop? && !r.ConvJoin? && !r.ConvQuit?
    ensures Serve(db, u, r).db.members == db.members
  {
  }

  /** A message row appears only for the requester, in a room it belongs to,
      SENT and with the highest id; it disappears only when a room is dropped. */
  lemma {:induction false} MessageStep(db: Db, u: nat, r: Req, i: nat)
    requires Inv(db)
    ensures var db' := Serve(db, u, r).db;
            && (i in db'.msgs && i !in db.msgs ==>
                  && r.MsgSend? && db'.msgs[i].from == u && db'.msgs[i].kind == Sent
                  && MayRead(db', db'.msgs[i], u) && (forall j :: j in db.msgs ==> j < i))
            && (i in db.msgs && i !in db'.msgs ==> r.ConvDrop? || r.ChatDrop?)
  {
    if r.MsgSend? {
      SentStep(db, u, r, i);
    }
  }

  lemma {:induction false} SentStep(db: Db, u: nat, r: Req, i: nat)
    requires Inv(db) && r.MsgSend?
    ensures var db' := Serve(db, u, r).db;
            && (i in db'.msgs && i !in db.msgs ==>
                  && db'.msgs[i].from == u && db'.msgs[i].kind == Sent
                  && MayRead(db', db'.msgs[i], u) && (forall j :: j in db.msgs ==> j < i))
            && (i in db.msgs ==> i in db'.msgs)
  {
  }

  // ---- Over runs: a seen message stays seen ----

  /** Row `i` is there before, between and after all requests of the run. */
  ghost predicate Lives(db: Db, rs: seq<(nat, Req)>, i: nat)
    decreases |rs|
  {
    i in db.msgs && (rs != [] ==> Lives(Serve(db, rs[0].0, rs[0].1).db, rs[1..], i))
  }

  /** What one request may do to a row that survives it. */
  lemma {:induction false} RowStep(db: Db, u: nat, r: Req, i: nat)
    requires i in db.msgs && i in Serve(db, u, r).db.msgs
    ensures var m, m' := db.msgs[i], Serve(db, u, r).db.msgs[i];
            && (m.kind != Sent ==> m'.kind != Sent)
            && (m'.content == m.content || (r == MsgDelete(i) && m'.content == [] && m'.kind == Deleted))
            && m' == m.(content := m'.content, kind := m'.kind)
            && (m'.kind == m.kind || r == MsgFetch(i) || r == MsgDelete(i))
  {
  }

  lemma {:induction false} SeenStaysSeen(db: Db, rs: seq<(nat, Req)>, i: nat)
    requires Lives(db, rs, i)
    ensures var m, m' := db.msgs[i], Run(db, rs).msgs;
            && i in m'
            && (m.kind != Sent ==> m'[i].kind != Sent)
            && (m.content == [] ==> m'[i].content == [])
            && m'[i] == m.(content := m'[i].content, kind := m'[i].kind)
    decreases |rs|
  {
    if rs != [] {
      RowStep(db, rs[0].0, rs[0].1, i);
      SeenStaysSeen(Serve(db, rs[0].0, rs[0].1).db, rs[1..], i);
    }
  }

  /** After a successful fetch or delete, for as long as the row lives, no
      user is ever notified of the message again; a deleted one stays empty. */
  lemma {:induction false} NeverNotifiedAgain(db: Db, u: nat, r: Req, i: nat, rs: seq<(nat, Req)>, v: nat)
    requires r == MsgFetch(i) || r == MsgDelete(i)
    requires Serve(db, u, r).status == 200 && Lives(Serve(db, u, r).db, rs, i)
    ensures i !in NotifyNew(Run(Serve(db, u, r).db, rs), v)
    ensures var msgs := Run(Serve(db, u, r).db, rs).msgs;
            i in msgs && (r.MsgDelete? ==> msgs[i].content == [])
  {
    SeenStaysSeen(Serve(db, u, r).db, rs, i);
  }

  // ---- Two promises the code does not keep, and when it does ----

  ghost predicate AdminsAreMembers(db: Db) {
    forall c :: c in db.convs ==> ConvIsMember(db, c, db.convs[c].admin)
  }

  /** An admin who removes somebody else from the conversation removes itself. */
  predicate AdminRemovesOther(db: Db, u: nat, r: Req) {
    r.ConvQuit? && u in db.users && r.user != u && ConvIsAdmin(db, r.conv, u)
  }

  lemma {:induction false} AdminStaysUnless(db: Db, u: nat, r: Req)
    requires Inv(db) && AdminsAreMembers(db)
    ensures AdminsAreMembers(Serve(db, u, r).db) <==> !AdminRemovesOther(db, u, r)
  {
    var db' := Serve(db, u, r).db;
    if AdminRemovesOther(db, u, r) {
      assert r.conv in db'.convs && !ConvIsMember(db', r.conv, db'.convs[r.conv].admin);
    } else {
      forall c | c in db'.convs ensures ConvIsMember(db', c, db'.convs[c].admin) {
        assert c in db.convs ==> ConvIsMember(db, c, db.convs[c].admin);
      }
    }
  }

  /** Over a whole run: as long as no admin removes somebody else, every
      conversation's admin is one of its members. */
  ghost predicate NoAdminRemoves(db: Db, rs: seq<(nat, Req)>)
    decreases |rs|
  {
    rs != [] ==> !AdminRemovesOther(db, rs[0].0, rs[0].1)
                 && NoAdminRemoves(Serve(db, rs[0].0, rs[0].1).db, rs[1..])
  }

  lemma {:induction false} AdminsStayOverRun(db: Db, rs: seq<(nat, Req)>)
    requires Inv(db) && AdminsAreMembers(db) && NoAdminRemoves(db, rs)
    ensures AdminsAreMembers(Run(db, rs))
    decreases |rs|
  {
    if rs != [] {
      ServeInv(db, rs[0].0, rs[0].1);
      AdminStaysUnless(db, rs[0].0, rs[0].1);
      AdminsStayOverRun(Serve(db, rs[0].0, rs[0].1).db, rs[1..]);
    }
  }

  lemma {:induction false} RunFront(db: Db, u: nat, r: Req, rs: seq<(nat, Req)>)
    ensures Run(db, [(u, r)] + rs) == Run(Serve(db, u, r).db, rs)
  {
    assert ([(u, r)] + rs)[1..] == rs;
  }

  /** Two users register, the first opens a conversation. */
  lemma {:induction false} Opened(rs: seq<(nat, Req)>) returns (db: Db)
    ensures Run(EMPTY, [(0, Register(ANN))] + ([(0, Register(BOB))] + ([(1, ConvCreate([], 0))] + rs))) == Run(db, rs)
    ensures db == Db(map[1 := ANN, 2 := BOB], map[], map[1 := Conv(1, [])], {(1, 1)}, map[], true)
  {
    var r2 := [(1, ConvCreate([], 0))] + rs;
    var r1 := [(0, Register(BOB))] + r2;
    var db1 := Serve(EMPTY, 0, Register(ANN)).db;
    assert db1.users == map[1 := ANN];
    var db2 := Serve(db1, 0, Register(BOB)).db;
    assert db1.users.Keys == {1} && ANN.uname != BOB.uname;
    assert db1.users[1].uname != BOB.uname;
    assert db2.users == map[1 := ANN, 2 := BOB];
    db := Serve(db2, 1, ConvCreate([], 0)).db;
    RunFront(EMPTY, 0, Register(ANN), r1);
    RunFront(db1, 0, Register(BOB), r2);
    RunFront(db2, 1, ConvCreate([], 0), rs);
  }

  const ANN := User([97], [], [], [])
  const BOB := User([98], [], [], [])

  /** A run at whose end an admin is not a member: user 1 removes user 2. */
  lemma {:induction false} AdminLeaves() returns (rs: seq<(nat, Req)>)
    ensures !AdminsAreMembers(Run(EMPTY, rs))
  {
    var end := [(1, ConvQuit(1, 2))];
    var db := Opened(end);
    rs := [(0, Register(ANN))] + ([(0, Register(BOB))] + ([(1, ConvCreate([], 0))] + end));
    RunFront(db, 1, ConvQuit(1, 2), []);
    assert end == end + [];
    var db' := Serve(db, 1, ConvQuit(1, 2)).db;
    assert db'.members == {} && 1 in db'.convs;
    assert !ConvIsMember(db', 1, db'.convs[1].admin);
  }

  /** A run in which a deleted message counts as delivered again. */
  lemma {:induction false} DeletedComesBack() returns (before: seq<(nat, Req)>, fetch: (nat, Req))
    ensures 1 in Run(EMPTY, before).msgs && Run(EMPTY, before).msgs[1].kind == Deleted
    ensures var db := Serve(Run(EMPTY, before), fetch.0, fetch.1).db; 1 in db.msgs && db.msgs[1].kind == Delivered
  {
    var end := [(1, EMPTY_TEXT)] + [(1, MsgDelete(1))];
    var db := Opened(end);
    before := [(0, Register(ANN))] + ([(0, Register(BOB))] + ([(1, ConvCreate([], 0))] + end));
    fetch := (1, MsgFetch(1));
    SentThenDeleted(db);
  }

  const EMPTY_TEXT := MsgSend(1, 0, 0, MSG_TEXT, 12, [], 0)

  lemma {:induction false} EmptyTextFits()
    ensures MsgFits(NewMsg(1, EMPTY_TEXT))
  {
  }

  lemma {:induction false} EmptyTextSent(db: Db)
    requires 1 in db.users && (1, 1) in db.members && 1 in db.convs && db.msgs == map[]
    ensures var db' := Serve(db, 1, EMPTY_TEXT).db;
            && 1 in db'.msgs && db'.msgs[1].conv == Id(1) && db'.users == db.users && db'.members == db.members
  {
    EmptyTextFits();
    assert NextId({}) == 1;
  }

  lemma {:induction false} SentThenDeleted(db: Db)
    requires db == Db(map[1 := ANN, 2 := BOB], map[], map[1 := Conv(1, [])], {(1, 1)}, map[], true)
    ensures var db' := Run(db, [(1, EMPTY_TEXT)] + [(1, MsgDelete(1))]);
            && 1 in db'.users && (1, 1) in db'.members
            && 1 in db'.msgs && db'.msgs[1].kind == Deleted && db'.msgs[1].conv == Id(1)
  {
    RunFront(db, 1, EMPTY_TEXT, [(1, MsgDelete(1))]);
    EmptyTextSent(db);
    var db1 := Serve(db, 1, EMPTY_TEXT).db;
    RunFront(db1, 1, MsgDelete(1), []);
    assert [(1, MsgDelete(1))] == [(1, MsgDelete(1))] + [];
  }

  /** DELETED is final for every request but a fetch by somebody who may read. */
  lemma {:induction false} DeletedUnlessFetched(db: Db, u: nat, r: Req, i: nat)
    requires i in db.msgs && db.msgs[i].kind == Deleted && i in Serve(db, u, r).db.msgs
    ensures Serve(db, u, r).db.msgs[i].kind == Deleted
       <==> !(r == MsgFetch(i) && u in db.users && MayRead(db, db.msgs[i], u))
  {
  }
}
