/** sql.c and handler.c as they run: one object holds SQLite's rows. INSERT,
    UPDATE and DELETE enforce what schema.up.sql declares; the functions of
    sql.c are sequences of statements, some in a transaction that is rolled
    back on an error; each handler makes its checks and then calls them. Every
    handler is proved to do what ChatModel.Serve says. */
module ChatServer {
  import opened Bytes
  import opened Collections
  import opened ChatModel
  import opened ChatProofs
  import opened SqlSchema
  import opened SqlInserts
  import T = SqlText

  /** An INSERT of `r` as row `k` violates no constraint. A row may refer to
      itself. */
  predicate Accepts(rows: Rows, fk: bool, k: Key, r: Row) {
    && (forall l :: l in rows ==> !Clash(rows[l], r))
    && (fk ==> forall f :: f in Refs(r) ==> f.target in rows || f.target == k)
  }

  /** What a statement comes back with: done, a constraint, any other error. */
  datatype Rc = Okay | Constraint | Error

  class Server {
    var rows: Rows
    var fk: bool
    var saved: Rows      // what ROLLBACK returns to
    ghost var db: Db

    /** `db` is what the rows mean. */
    ghost predicate Valid()
      reads this
    {
      Means(rows, db) && db.fk == fk
    }

    constructor ()
      ensures Valid() && db == EMPTY && Inv(db)
    {
      rows, saved, fk, db := map[], map[], false, EMPTY;
    }

    // ---- Statements ----

    /** INSERT: the new row gets the next rowid of its table, unless a UNIQUE or
        foreign key constraint fails. What is inserted breaks neither. */
    method Insert(r: Row) returns (ok: bool, id: nat)
      modifies this`rows
      ensures id == NextId(Ids(old(rows), TableOf(r))) && Key(TableOf(r), id) !in old(rows)
      ensures ok <==> Accepts(old(rows), fk, Key(TableOf(r), id), r)
      ensures rows == if ok then old(rows)[Key(TableOf(r), id) := r] else old(rows)
      ensures fk && Consistent(old(rows)) ==> Consistent(rows)
      ensures ClashFree(old(rows)) ==> ClashFree(rows)
    {
      InIds(rows, TableOf(r));
      id := NextId(Ids(rows, TableOf(r)));
      var k := Key(TableOf(r), id);
      ok := Accepts(rows, fk, k, r);
      if ok {
        rows := rows[k := r];
      }
    }

    /** DELETE: with foreign keys on, ON DELETE CASCADE takes along whatever
        refers to a row that goes, until nothing more does. */
    method Delete(seed: set<Key>) returns (ok: bool, ghost dead: set<Key>)
      requires seed <= rows.Keys
      modifies this`rows
      ensures if fk then IsCascade(old(rows), seed, dead) else dead == seed
      ensures ok <==> !fk || !Blocked(old(rows), dead)
      ensures rows == if ok then old(rows) - dead else old(rows)
      ensures fk && Consistent(old(rows)) ==> Consistent(rows)
    {
      if !fk {
        rows := rows - seed;
        return true, seed;
      }
      var doomed := seed;
      var next := Followers(rows, doomed);
      while next != {}
        invariant rows == old(rows) && seed <= doomed <= rows.Keys && next == Followers(rows, doomed)
        invariant forall s: set<Key> :: seed <= s && SqlSchema.CascadeClosed(rows, s) ==> doomed <= s
        decreases rows.Keys - doomed
      {
        forall s: set<Key> | seed <= s && SqlSchema.CascadeClosed(rows, s) ensures doomed + next <= s {
          FollowersStay(rows, doomed, s);
        }
        assert next <= rows.Keys - doomed;
        doomed := doomed + next;
        next := Followers(rows, doomed);
      }
      NoFollowers(rows, doomed);
      dead := doomed;
      ok := !Blocked(rows, doomed);
      if ok {
        if Consistent(rows) {
          DeleteConsistent(rows, doomed);
        }
        rows := rows - doomed;
      }
    }

    /** SELECT id FROM messages WHERE p, in no particular order. */
    method Select(p: Msg -> bool) returns (ids: seq<nat>)
      requires Valid()
      ensures NoDup(ids) && forall i :: i in ids <==> i in db.msgs && p(db.msgs[i])
    {
      ids := [];
      var todo := rows.Keys;
      while todo != {}
        invariant todo <= rows.Keys && NoDup(ids)
        invariant forall i :: i in ids <==> i in db.msgs && p(db.msgs[i]) && Key(Messages, i) !in todo
        decreases todo
      {
        var k :| k in todo;
        todo := todo - {k};
        if k.table == Messages && rows[k].MsgRow? && p(rows[k].m) {
          assert k == Key(Messages, k.id);
          ids := ids + [k.id];
        } else {
          MeansTyped(rows, db);
        }
      }
    }

    // ---- sql.c ----

    /** snprintf and then sqlite3_prepare: SQLite reads the values back from the
        text, or finds the statement cut off. */
    method Prepare(t: Table, values: seq<T.Value>, size: nat) returns (read: Option<seq<T.Value>>)
      requires values != [] && size > 0 && T.AllQuoteFree(values) && (t == Users || t == Convs || t == Messages)
      ensures read == if T.Fits(HeadLength(t), values, size) then Some(values) else None
    {
      HeadCounted(t);
      var query := T.Printed(T.Statement(Head(t), values), size);
      T.PlainCarried(Head(t), values, size);
      read := T.ReadInsert(Head(t), query);
    }

    method PrepareUser(info: User) returns (whole: bool, row: User)
      requires TextsOk(Register(info))
      ensures (whole <==> UserFits(info)) && (whole ==> row == info)
    {
      UserThere(info);
      var read := Prepare(Users, UserValues(info), T.QUERY_SMALL);
      whole, row := read.Some?, info;
      if whole {
        row := UserOf(read.value);
      }
    }

    method PrepareConv(conv: Conv) returns (whole: bool, row: Conv)
      requires T.QuoteFree(conv.name)
      ensures (whole <==> ConvFits(conv)) && (whole ==> row == conv)
    {
      ConvThere(conv);
      var read := Prepare(Convs, ConvValues(conv), T.QUERY_SMALL);
      whole, row := read.Some?, conv;
      if whole {
        row := ConvOf(read.value);
      }
    }

    method PrepareMsg(m: Msg) returns (whole: bool, row: Msg)
      requires T.QuoteFree(m.content) && m.kind == Sent
      ensures (whole <==> MsgFits(m)) && (whole ==> row == m)
    {
      MsgThere(m);
      var read := Prepare(Messages, MsgValues(m), T.QUERY_LARGE);
      whole, row := read.Some?, m;
      if whole {
        row := MsgOf(read.value);
      }
    }

    method UserCreate(info: User) returns (rc: Rc, id: nat)
      requires Valid() && TextsOk(Register(info))
      modifies this
      ensures Valid() && (rc.Okay? ==> id == NextId(old(db).users.Keys))
      ensures rc.Error? <==> !UserFits(info)
      ensures rc.Constraint? <==> UserFits(info) && exists i :: i in old(db).users && old(db).users[i].uname == info.uname
      ensures db == if rc.Okay? then old(db).(users := old(db).users[id := info]) else old(db)
    {
      var whole, row := PrepareUser(info);
      if !whole {
        return Error, 0;
      }
      var ok;
      ok, id := AddUser(row);
      rc := if ok then Okay else Constraint;
    }

    method AddUser(info: User) returns (ok: bool, id: nat)
      requires Valid()
      modifies this
      ensures Valid() && id == NextId(old(db).users.Keys)
      ensures ok <==> forall i :: i in old(db).users ==> old(db).users[i].uname != info.uname
      ensures db == if ok then old(db).(users := old(db).users[id := info]) else old(db)
    {
      ghost var was := rows;
      TableIds(rows, db);
      AcceptsUser(rows, fk, db, info);
      ok, id := Insert(UserRow(info));
      if ok {
        PutUser(was, db, id, info);
        db := db.(users := db.users[id := info]);
      }
    }

    /** conv_create: the conversation and its first member, or neither. `fail`
        is the statement SQLite itself reports an error for: 1 the first
        INSERT, 2 the second, 3 COMMIT; 0 is none of them. */
    method ConvCreate(u: nat, name: Str, fail: nat) returns (ok: bool, id: nat)
      requires Valid() && T.QuoteFree(name)
      modifies this
      ensures Valid() && (ok ==> id == NextId(old(db).convs.Keys))
      ensures ok <==> u in old(db).users && (NextId(old(db).convs.Keys), u) !in old(db).members
                      && ConvFits(Conv(u, name)) && fail !in {1, 2, 3}
      ensures ok ==> db == old(db).(convs := old(db).convs[id := Conv(u, name)],
                                    members := old(db).members + {(id, u)}, fk := true)
      ensures !ok ==> rows == old(rows) && db == old(db).(fk := true)
    {
      fk := true;
      db := db.(fk := true);
      saved := rows;
      var whole, row := PrepareConv(Conv(u, name));
      if !whole || fail == 1 {
        rows := saved;
        return false, 0;
      }
      ghost var was := rows;
      TableIds(rows, db);
      AcceptsConv(rows, db, NextId(db.convs.Keys), Conv(u, name));
      ok, id := Insert(ConvRow(row));
      if !ok {
        rows := saved;
        return;
      }
      PutConv(was, db, id, Conv(u, name));
      ghost var mid := db.(convs := db.convs[id := Conv(u, name)]);
      ok := FirstMember(id, u, mid);
      if !ok || fail == 2 || fail == 3 {
        rows := saved;
        return false, 0;
      }
      db := mid.(members := mid.members + {(id, u)});
    }

    /** The second INSERT of conv_create; `mid` is what the rows mean then. */
    method FirstMember(id: nat, u: nat, ghost mid: Db) returns (ok: bool)
      requires Means(rows, mid) && mid.fk == fk
      modifies this`rows
      ensures ok <==> (id, u) !in mid.members && (fk ==> id in mid.convs && u in mid.users)
      ensures ok ==> Means(rows, mid.(members := mid.members + {(id, u)}))
    {
      AcceptsMember(rows, fk, mid, id, u);
      ghost var was := rows;
      var rowid;
      ok, rowid := Insert(MemberRow(id, u));
      if ok {
        PutMember(was, mid, rowid, id, u);
      }
    }

    method ConvJoin(user: nat, conv: nat) returns (ok: bool)
      requires Valid()
      modifies this
      ensures Valid()
      ensures ok <==> (conv, user) !in old(db).members
                      && (fk ==> conv in old(db).convs && user in old(db).users)
      ensures db == if ok then old(db).(members := old(db).members + {(conv, user)}) else old(db)
    {
      ghost var was := rows;
      AcceptsMember(rows, fk, db, conv, user);
      var rowid;
      ok, rowid := Insert(MemberRow(conv, user));
      if ok {
        PutMember(was, db, rowid, conv, user);
        db := db.(members := db.members + {(conv, user)});
      }
    }

    /** DELETE FROM members: nothing refers to a member, so only the rows that
        match go. */
    method DeleteMembers(dead: set<Key>, ghost kept: set<(nat, nat)>)
      requires Valid() && kept <= db.members
      requires forall k :: k in dead ==> k in rows && k.table == Members
      requires forall i :: Key(Members, i) in rows && rows[Key(Members, i)].MemberRow? ==>
                 var r := rows[Key(Members, i)]; Key(Members, i) in dead <==> (r.convId, r.userId) !in kept
      modifies this
      ensures Valid() && db == old(db).(members := kept) && fk == old(fk) && saved == old(saved)
    {
      ghost var was := rows;
      NothingFollows(rows, dead);
      var ok;
      ghost var gone;
      ok, gone := Delete(dead);
      if fk {
        CascadeUnique(was, dead, dead, gone);
      }
      CutMembers(was, db, dead, kept);
      db := db.(members := kept);
    }

    method ConvQuit(user: nat, conv: nat)
      requires Valid()
      modifies this
      ensures Valid() && db == old(db).(members := old(db).members - {(conv, user)})
    {
      var dead := set k | k in rows && k.table == Members && rows[k] == MemberRow(conv, user);
      DeleteMembers(dead, db.members - {(conv, user)});
    }

    /** DELETE FROM messages: replies to a deleted row go too, and replies to
        those, in any room; no other table is touched. */
    method DeleteMessages(seed: set<nat>)
      requires Valid() && RepliesBack(db.msgs) && seed <= db.msgs.Keys
      modifies this
      ensures Valid() && db == old(db).(msgs := ChatModel.Delete(old(db), seed)) && saved == old(saved)
      ensures forall i :: i in seed ==> i !in db.msgs
    {
      ghost var was := rows;
      ghost var ids := if fk then Cascade(db.msgs, seed) else seed;
      MessageCascade(rows, db, seed);
      var keys := set i | i in seed :: Key(Messages, i);
      assert keys == MsgKeys(seed);
      var ok;
      ghost var gone;
      ok, gone := Delete(keys);
      if fk {
        CascadeUnique(was, keys, gone, MsgKeys(ids));
      }
      ChatProofs.CascadeClosed(db.msgs, seed);
      CutMsgs(was, db, ids);
      assert rows == was - MsgKeys(ids);
      db := db.(msgs := db.msgs - ids);
    }

    /** DELETE FROM conversations or chats, once nothing refers to the row: its
        ON DELETE CASCADE finds nothing left to take. */
    method DeleteRoom(k: Key)
      requires Valid() && (k.table == Convs || k.table == Chats)
      requires forall l, f :: l in rows && f in Refs(rows[l]) ==> f.target != k
      modifies this
      ensures Valid() && saved == old(saved)
      ensures db == if k.table == Convs then old(db).(convs := old(db).convs - {k.id})
                    else old(db).(chats := old(db).chats - {k.id})
    {
      ghost var was := rows;
      var seed := if k in rows then {k} else {};
      NothingFollows(rows, seed);
      var ok;
      ghost var gone;
      ok, gone := Delete(seed);
      if fk {
        CascadeUnique(was, seed, gone, seed);
      }
      assert rows == was - {k};
      if k.table == Convs {
        CutConv(was, db, k.id);
        db := db.(convs := db.convs - {k.id});
      } else {
        CutChat(was, db, k.id);
        db := db.(chats := db.chats - {k.id});
      }
    }

    /** conv_drop: three statements in one transaction; all of them, or, when
        SQLite reports an error for BEGIN (1), one of them (2, 3, 4) or COMMIT
        (5), none. */
    method ConvDrop(conv: nat, fail: nat) returns (ok: bool)
      requires Valid() && RepliesBack(db.msgs)
      modifies this
      ensures Valid() && (ok <==> fail !in {1, 2, 3, 4, 5})
      ensures ok ==> db == old(db).(msgs := ChatModel.Delete(old(db), InConv(old(db).msgs, conv)),
                                    members := (set m | m in old(db).members && m.0 != conv),
                                    convs := old(db).convs - {conv})
      ensures !ok ==> rows == old(rows) && db == old(db)
    {
      saved := rows;
      ghost var start := db;
      if fail == 1 || fail == 2 {
        rows := saved;
        return false;
      }
      DropMessagesOf(conv);
      if fail == 3 {
        rows, db := saved, start;
        return false;
      }
      DropMembersOf(conv);
      if fail == 4 {
        rows, db := saved, start;
        return false;
      }
      NobodyInConv(rows, db, conv);
      DeleteRoom(Key(Convs, conv));
      if fail == 5 {
        rows, db := saved, start;
        return false;
      }
      ok := true;
    }

    method DropMessagesOf(conv: nat)
      requires Valid() && RepliesBack(db.msgs)
      modifies this
      ensures Valid() && saved == old(saved)
      ensures db == old(db).(msgs := ChatModel.Delete(old(db), InConv(old(db).msgs, conv)))
      ensures InConv(db.msgs, conv) == {}
    {
      var ids := set k | k in rows && k.table == Messages && rows[k].MsgRow? && rows[k].m.conv == Id(conv) :: k.id;
      RowsInConv(rows, db, conv, ids);
      DeleteMessages(ids);
    }

    method DropMembersOf(conv: nat)
      requires Valid()
      modifies this
      ensures Valid() && saved == old(saved)
      ensures db == old(db).(members := (set m | m in old(db).members && m.0 != conv))
    {
      var dead := set k | k in rows && k.table == Members && rows[k].MemberRow? && rows[k].convId == conv;
      ghost var kept := set m | m in db.members && m.0 != conv;
      MatchingMembers(rows, db, conv, dead, kept);
      DeleteMembers(dead, kept);
    }

    method ChatCreate(member1: nat, member2: nat) returns (ok: bool, id: nat)
      requires Valid()
      modifies this
      ensures Valid() && id == NextId(old(db).chats.Keys)
      ensures ok <==> member1 in old(db).users && member2 in old(db).users
                      && forall c :: c in old(db).chats ==> old(db).chats[c] != Chat(member1, member2)
      ensures db == if ok then old(db).(chats := old(db).chats[id := Chat(member1, member2)], fk := true)
                    else old(db).(fk := true)
    {
      fk := true;
      db := db.(fk := true);
      ghost var was := rows;
      TableIds(rows, db);
      AcceptsChat(rows, db, NextId(db.chats.Keys), Chat(member1, member2));
      ok, id := Insert(ChatRow(Chat(member1, member2)));
      if ok {
        PutChat(was, db, id, Chat(member1, member2));
        db := db.(chats := db.chats[id := Chat(member1, member2)]);
      }
    }

    /** chat_drop: both statements, or, when SQLite reports an error for BEGIN
        (1), one of them (2, 3) or COMMIT (4), none. */
    method ChatDrop(chat: nat, fail: nat) returns (ok: bool)
      requires Valid() && RepliesBack(db.msgs)
      modifies this
      ensures Valid() && (ok <==> fail !in {1, 2, 3, 4})
      ensures ok ==> db == old(db).(msgs := ChatModel.Delete(old(db), InChat(old(db).msgs, chat)),
                                    chats := old(db).chats - {chat})
      ensures !ok ==> rows == old(rows) && db == old(db)
    {
      saved := rows;
      ghost var start := db;
      if fail == 1 || fail == 2 {
        rows := saved;
        return false;
      }
      DropMessagesOfChat(chat);
      if fail == 3 {
        rows, db := saved, start;
        return false;
      }
      NobodyInChat(rows, db, chat);
      DeleteRoom(Key(Chats, chat));
      if fail == 4 {
        rows, db := saved, start;
        return false;
      }
      ok := true;
    }

    method DropMessagesOfChat(chat: nat)
      requires Valid() && RepliesBack(db.msgs)
      modifies this
      ensures Valid() && saved == old(saved)
      ensures db == old(db).(msgs := ChatModel.Delete(old(db), InChat(old(db).msgs, chat)))
      ensures InChat(db.msgs, chat) == {}
    {
      var ids := set k | k in rows && k.table == Messages && rows[k].MsgRow? && rows[k].m.chat == Id(chat) :: k.id;
      RowsInChat(rows, db, chat, ids);
      DeleteMessages(ids);
    }

    /** msg_send: NULL for 0, then the insert with its foreign keys. */
    method MsgSend(u: nat, reply: nat, contentType: nat, length: nat, content: Str,
                   now: nat, chat: nat, conv: nat) returns (rc: Rc, id: nat)
      requires Valid() && T.QuoteFree(content)
      modifies this
      ensures Valid() && (rc.Okay? ==> id == NextId(old(db).msgs.Keys))
      ensures var m := Msg(u, ToRef(reply), contentType, length, content, now, ToRef(chat), ToRef(conv), Sent);
              && (rc.Error? <==> !MsgFits(m))
              && (rc.Constraint? <==> MsgFits(m) && !MsgRefsOk(old(db), NextId(old(db).msgs.Keys), m))
              && db == if rc.Okay? then old(db).(msgs := old(db).msgs[id := m], fk := true) else old(db).(fk := true)
    {
      var replyTo := if reply == 0 then Null else Id(reply);
      var convId := if conv == 0 then Null else Id(conv);
      var chatId := if chat == 0 then Null else Id(chat);
      fk := true;
      db := db.(fk := true);
      rc, id := ExecMsg(Msg(u, replyTo, contentType, length, content, now, chatId, convId, Sent));
    }

    /** The text of the statement, and what SQLite makes of it. */
    method ExecMsg(m: Msg) returns (rc: Rc, id: nat)
      requires Valid() && fk && T.QuoteFree(m.content) && m.kind == Sent
      modifies this
      ensures Valid() && (rc.Okay? ==> id == NextId(old(db).msgs.Keys))
      ensures rc.Error? <==> !MsgFits(m)
      ensures rc.Constraint? <==> MsgFits(m) && !MsgRefsOk(old(db), NextId(old(db).msgs.Keys), m)
      ensures db == if rc.Okay? then old(db).(msgs := old(db).msgs[id := m]) else old(db)
    {
      var whole, row := PrepareMsg(m);
      if !whole {
        return Error, 0;
      }
      var ok;
      ok, id := AddMsg(row);
      rc := if ok then Okay else Constraint;
    }

    method AddMsg(m: Msg) returns (ok: bool, id: nat)
      requires Valid() && fk
      modifies this
      ensures Valid() && id == NextId(old(db).msgs.Keys)
      ensures ok <==> MsgRefsOk(old(db), id, m)
      ensures db == if ok then old(db).(msgs := old(db).msgs[id := m]) else old(db)
    {
      ghost var was := rows;
      TableIds(rows, db);
      AcceptsMsg(rows, db, NextId(db.msgs.Keys), m);
      ok, id := Insert(MsgRow(m));
      if ok {
        PutMsg(was, db, id, m);
        db := db.(msgs := db.msgs[id := m]);
      }
    }

    /** UPDATE messages SET ... WHERE id = msg; no row, no change. */
    method UpdateMsg(msg: nat, change: Msg -> Msg)
      requires Valid()
      modifies this
      ensures Valid()
      ensures db == if msg in old(db).msgs then old(db).(msgs := old(db).msgs[msg := change(old(db).msgs[msg])]) else old(db)
    {
      var k := Key(Messages, msg);
      if k in rows {
        PutMsg(rows, db, msg, change(rows[k].m));
        db := db.(msgs := db.msgs[msg := change(rows[k].m)]);
        rows := rows[k := MsgRow(change(rows[k].m))];
      }
    }

    // ---- Queries ----

    method IsConvMember(conv: nat, u: nat) returns (yes: bool)
      requires Valid()
      ensures yes == ConvIsMember(db, conv, u)
    {
      yes := exists k :: k in rows && k.table == Members && rows[k] == MemberRow(conv, u);
      assert (conv, u) in db.members <==> HasMember(rows, conv, u);
      if k :| k in rows && k.table == Members && rows[k] == MemberRow(conv, u) {
        assert k == Key(Members, k.id);
      }
    }

    method IsConvAdmin(conv: nat, u: nat) returns (yes: bool)
      requires Valid()
      ensures yes == ConvIsAdmin(db, conv, u)
    {
      var k := Key(Convs, conv);
      yes := k in rows && rows[k].v.admin == u;
    }

    method IsChatMember(chat: nat, u: nat) returns (yes: bool)
      requires Valid()
      ensures yes == ChatIsMember(db, chat, u)
    {
      var k := Key(Chats, chat);
      yes := k in rows && (rows[k].c.member1 == u || rows[k].c.member2 == u);
    }

    method UserExists(u: nat) returns (yes: bool)
      requires Valid()
      ensures yes <==> u in db.users
    {
      yes := Key(Users, u) in rows;
    }

    method MsgGetDetail(msg: nat) returns (found: bool, m: Msg)
      requires Valid()
      ensures found <==> msg in db.msgs
      ensures found ==> m == db.msgs[msg]
    {
      found := Key(Messages, msg) in rows;
      m := if found then rows[Key(Messages, msg)].m else Msg(0, Null, 0, 0, [], 0, Null, Null, Sent);
    }

    /** sql_get_list: every row is put in front of the list. */
    method SqlGetList(ids: seq<nat>) returns (list: seq<nat>)
      ensures |list| == |ids| && forall k :: 0 <= k < |ids| ==> list[k] == ids[|ids| - 1 - k]
    {
      list := [];
      var i := 0;
      while i < |ids|
        invariant 0 <= i <= |ids| && |list| == i
        invariant forall k :: 0 <= k < i ==> list[k] == ids[i - 1 - k]
      {
        list := [ids[i]] + list;
        i := i + 1;
      }
    }

    /** The first SELECT of msg_get_msg_sent. */
    method SentInChats(u: nat) returns (ids: seq<nat>)
      requires Valid()
      ensures NoDup(ids) && forall i :: i in ids <==> NewInChat(db, u, i)
    {
      var chats := set k | k in rows && rows[k].ChatRow? && (rows[k].c.member1 == u || rows[k].c.member2 == u) :: k.id;
      ChatsOfUser(rows, db, u, chats);
      ids := Select((m: Msg) => m.chat.Id? && m.chat.id in chats && m.kind == Sent);
    }

    /** The second one. */
    method SentInConvs(u: nat) returns (ids: seq<nat>)
      requires Valid()
      ensures NoDup(ids) && forall i :: i in ids <==> NewInConv(db, u, i)
    {
      var convs := set k | k in rows && rows[k].MemberRow? && rows[k].userId == u :: rows[k].convId;
      ConvsOfUser(rows, db, u, convs);
      ids := Select((m: Msg) => m.conv.Id? && m.conv.id in convs && m.kind == Sent);
    }

    /** msg_get_msg_sent: the SENT messages of the user's chats UNION those of
        the user's conversations. A message of both is counted once. */
    method MsgGetMsgSent(u: nat) returns (list: seq<nat>, ghost inChats: seq<nat>, ghost inConvs: seq<nat>)
      requires Valid()
      ensures NoDup(list) && forall i :: i in list <==> i in NotifyNew(db, u)
      ensures NoDup(inChats) && forall i :: i in inChats <==> NewInChat(db, u, i)
      ensures NoDup(inConvs) && forall i :: i in inConvs <==> NewInConv(db, u, i)
      ensures |list| == |inChats| + |inConvs| - |Elems(inChats) * Elems(inConvs)|
    {
      var a := SentInChats(u);
      var b := SentInConvs(u);
      inChats, inConvs := a, b;
      var all := Union(a, b);
      list := SqlGetList(all);
      SameElems(all, list);
      forall i ensures i in list <==> i in NotifyNew(db, u) {
        assert i in list <==> i in Elems(list);
        assert i in Elems(a) + Elems(b) <==> i in a || i in b;
        NotifyParts(db, u, i);
      }
    }

    /** UNION of two selects: every value once. */
    method Union(a: seq<nat>, b: seq<nat>) returns (r: seq<nat>)
      requires NoDup(a) && NoDup(b)
      ensures NoDup(r) && Elems(r) == Elems(a) + Elems(b)
      ensures |r| == |a| + |b| - |Elems(a) * Elems(b)|
    {
      r := a;
      var i := 0;
      while i < |b|
        invariant 0 <= i <= |b| && NoDup(r) && Elems(r) == Elems(a) + Elems(b[..i])
      {
        if b[i] !in r {
          AppendElem(r, b[i]);
          r := r + [b[i]];
        }
        AppendElem(b[..i], b[i]);
        assert b[..i + 1] == b[..i] + [b[i]];
        i := i + 1;
      }
      assert b[..i] == b;
      NoDupSize(r);
      NoDupSize(a);
      NoDupSize(b);
    }

    // ---- Handlers (handler.c) ----

    method HandleRegister(info: User) returns (status: nat)
      requires Valid() && TextsOk(Register(info))
      modifies this
      ensures Valid() && Reply(db, status) == Serve(old(db), 0, Register(info))
    {
      var rc, _ := UserCreate(info);
      status := if rc.Okay? then 201 else if rc.Constraint? then 409 else 500;
    }

    method HandleConvCreate(u: nat, name: Str, fail: nat) returns (status: nat)
      requires Valid() && Inv(db) && u in db.users && T.QuoteFree(name)
      modifies this
      ensures Valid() && Reply(db, status) == Serve(old(db), u, ChatModel.ConvCreate(name, fail))
    {
      assert (NextId(db.convs.Keys), u) !in db.members;
      var ok, id := ConvCreate(u, name, fail);
      status := if ok then 201 else 500;
    }

    method HandleConvDrop(u: nat, conv: nat, fail: nat) returns (status: nat)
      requires Valid() && Inv(db) && u in db.users
      modifies this
      ensures Valid() && Reply(db, status) == Serve(old(db), u, ChatModel.ConvDrop(conv, fail))
    {
      var isAdmin := IsConvAdmin(conv, u);
      if !isAdmin {
        return 403;
      }
      BackFromInv(db);
      var ok := ConvDrop(conv, fail);
      status := if ok then 200 else 500;
    }

    method HandleConvJoin(u: nat, conv: nat, user: nat) returns (status: nat)
      requires Valid() && u in db.users
      modifies this
      ensures Valid() && Reply(db, status) == Serve(old(db), u, ChatModel.ConvJoin(conv, user))
    {
      var isMember := IsConvMember(conv, u);
      if !isMember {
        return 403;
      }
      var ok := ConvJoin(user, conv);
      status := if ok then 200 else 500;
    }

    method HandleConvQuit(u: nat, conv: nat, user: nat) returns (status: nat)
      requires Valid() && u in db.users
      modifies this
      ensures Valid() && Reply(db, status) == Serve(old(db), u, ChatModel.ConvQuit(conv, user))
    {
      var isMember := IsConvMember(conv, u);
      if !isMember {
        return 403;
      }
      var isAdmin := IsConvAdmin(conv, u);
      if user != u {
        if !isAdmin {
          return 403;
        }
      } else if isAdmin {
        return 204;
      }
      ConvQuit(u, conv);
      status := 200;
    }

    method HandleChatCreate(u: nat, user2: nat) returns (status: nat)
      requires Valid() && u in db.users
      modifies this
      ensures Valid() && Reply(db, status) == Serve(old(db), u, ChatModel.ChatCreate(user2))
    {
      if u == user2 {
        return 403;
      }
      var ok, _ := ChatCreate(u, user2);
      status := if ok then 201 else 409;
    }

    method HandleChatDrop(u: nat, chat: nat, fail: nat) returns (status: nat)
      requires Valid() && Inv(db) && u in db.users
      modifies this
      ensures Valid() && Reply(db, status) == Serve(old(db), u, ChatModel.ChatDrop(chat, fail))
    {
      var isMember := IsChatMember(chat, u);
      if !isMember {
        return 403;
      }
      BackFromInv(db);
      var ok := ChatDrop(chat, fail);
      status := if ok then 200 else 500;
    }

    method HandleMsgSend(u: nat, conv: nat, chat: nat, reply: nat, contentType: nat, contentLen: nat,
                         content: Str, now: nat) returns (status: nat, id: nat)
      requires Valid() && u in db.users && T.QuoteFree(content)
      modifies this
      ensures Valid()
      ensures Reply(db, status)
           == Serve(old(db), u, ChatModel.MsgSend(conv, chat, reply, contentType, contentLen, content, now))
      ensures status == 201 ==> id == NextId(old(db).msgs.Keys)
    {
      id := 0;
      var isMember := IsConvMember(conv, u);
      if !isMember {
        isMember := IsChatMember(chat, u);
        if !isMember {
          return 403, 0;
        }
      }
      var length := contentLen;
      if contentType == MSG_TEXT {
        length := (contentLen - 12) % UINT32;
      } else if contentType != MSG_FILE {
        return 400, 0;
      }
      SendSpec(db, u, ChatModel.MsgSend(conv, chat, reply, contentType, contentLen, content, now),
               Msg(u, ToRef(reply), contentType, length, content, now, ToRef(chat), ToRef(conv), Sent));
      var rc;
      rc, id := MsgSend(u, reply, contentType, length, content, now, chat, conv);
      status := if rc.Okay? then 201 else if rc.Constraint? then 409 else 500;
    }

    /** The membership check of the detail and delete handlers. */
    method ReadCheck(m: Msg, u: nat) returns (yes: bool)
      requires Valid()
      ensures yes == MayRead(db, m, u)
    {
      yes := IsConvMember(FromRef(m.conv), u);
      if !yes {
        yes := IsChatMember(FromRef(m.chat), u);
      }
    }

    method HandleMsgDelete(u: nat, msg: nat) returns (status: nat)
      requires Valid() && u in db.users
      modifies this
      ensures Valid() && Reply(db, status) == Serve(old(db), u, MsgDelete(msg))
    {
      var found, m := MsgGetDetail(msg);
      if !found {
        return 404;
      }
      var mayRead := ReadCheck(m, u);
      if !mayRead {
        return 403;
      }
      UpdateMsg(msg, (row: Msg) => row.(content := [], kind := Kind.Deleted));
      return 200;
    }

    /** handle_msg_get_detail: the row as it was goes out, then it counts as
        delivered. */
    method HandleMsgFetch(u: nat, msg: nat) returns (status: nat, detail: Msg)
      requires Valid() && u in db.users
      modifies this
      ensures Valid() && Reply(db, status) == Serve(old(db), u, MsgFetch(msg))
      ensures status == 200 ==> msg in old(db).msgs && detail == old(db).msgs[msg]
    {
      var found;
      found, detail := MsgGetDetail(msg);
      if !found {
        return 404, detail;
      }
      var mayRead := ReadCheck(detail, u);
      if !mayRead {
        return 403, detail;
      }
      UpdateMsg(msg, (row: Msg) => row.(kind := Delivered));
      return 200, detail;
    }

    /** handle_notify_new_msg: each message once, and exactly those that nobody
        has fetched and the user could fetch. */
    method HandleNotifyNew(u: nat) returns (idls: seq<nat>)
      requires Valid() && Inv(db) && u in db.users
      ensures NoDup(idls)
      ensures forall i :: i in idls
                <==> i in db.msgs && db.msgs[i].kind == Sent && Serve(db, u, MsgFetch(i)).status == 200
    {
      var list, _, _ := MsgGetMsgSent(u);
      idls := [];
      var i := 0;
      while i < |list|
        invariant 0 <= i <= |list| && idls == list[..i]
      {
        idls := idls + [list[i]];
        i := i + 1;
      }
      forall x ensures x in idls
          <==> x in db.msgs && db.msgs[x].kind == Sent && Serve(db, u, MsgFetch(x)).status == 200 {
        NotifyAgrees(db, u, x);
      }
    }

    // ---- The request loop ----

    /** Any sequence of requests, from any users, leaves what Run says. */
    method ServeAll(rs: seq<(nat, Req)>)
      requires Valid() && Inv(db) && forall i :: 0 <= i < |rs| ==> TextsOk(rs[i].1)
      modifies this
      ensures Valid() && Inv(db) && db == Run(old(db), rs)
    {
      var i := 0;
      assert rs[0..] == rs;
      while i < |rs|
        invariant 0 <= i <= |rs| && Valid() && Inv(db)
        invariant Run(db, rs[i..]) == Run(old(db), rs)
      {
        var status := Dispatch(rs[i].0, rs[i].1);
        assert rs[i..][1..] == rs[i + 1..];
        i := i + 1;
      }
    }

    method Dispatch(u: nat, r: Req) returns (status: nat)
      requires Valid() && Inv(db) && TextsOk(r)
      modifies this
      ensures Valid() && Reply(db, status) == Serve(old(db), u, r)
      ensures Inv(db)
    {
      ServeInv(db, u, r);
      if r.Register? {
        status := HandleRegister(r.info);
        return;
      }
      var known := UserExists(u);
      if !known {
        return 403;
      }
      match r
      case ConvCreate(name, fail) => status := HandleConvCreate(u, name, fail);
      case ConvDrop(conv, fail) => status := HandleConvDrop(u, conv, fail);
      case ConvJoin(conv, user) => status := HandleConvJoin(u, conv, user);
      case ConvQuit(conv, user) => status := HandleConvQuit(u, conv, user);
      case ChatCreate(user2) => status := HandleChatCreate(u, user2);
      case ChatDrop(chat, fail) => status := HandleChatDrop(u, chat, fail);
      case MsgSend(conv, chat, reply, ct, cl, content, now) =>
        var id;
        status, id := HandleMsgSend(u, conv, chat, reply, ct, cl, content, now);
      case MsgDelete(msg) => status := HandleMsgDelete(u, msg);
      case MsgFetch(msg) =>
        var detail;
        status, detail := HandleMsgFetch(u, msg);
    }
  }

  /** What the specification says once the checks have passed. */
  lemma {:induction false} SendSpec(db: Db, u: nat, r: Req, m: Msg)
    requires r.MsgSend? && u in db.users && (ConvIsMember(db, r.conv, u) || ChatIsMember(db, r.chat, u))
    requires (r.contentType == MSG_TEXT || r.contentType == MSG_FILE) && m == NewMsg(u, r)
    ensures var id := NextId(db.msgs.Keys);
            Serve(db, u, r) == if !MsgFits(m) then Reply(db.(fk := true), 500)
                               else if !MsgRefsOk(db, id, m) then Reply(db.(fk := true), 409)
                               else Reply(db.(msgs := db.msgs[id := m], fk := true), 201)
  {
  }

  // ---- Following references ----

  /** Rows not yet doomed that refer, with ON DELETE CASCADE, to a doomed one. */
  function Followers(rows: Rows, doomed: set<Key>): set<Key> {
    set k | k in rows && k !in doomed && exists f :: f in Refs(rows[k]) && f.cascades && f.target in doomed
  }

  lemma {:induction false} FollowersStay(rows: Rows, doomed: set<Key>, s: set<Key>)
    requires doomed <= s && SqlSchema.CascadeClosed(rows, s)
    ensures doomed + Followers(rows, doomed) <= s
  {
  }

  lemma {:induction false} NoFollowers(rows: Rows, doomed: set<Key>)
    requires Followers(rows, doomed) == {}
    ensures SqlSchema.CascadeClosed(rows, doomed)
  {
    forall k, f | k in rows && f in Refs(rows[k]) && f.cascades && f.target in doomed ensures k in doomed {
      assert k !in Followers(rows, doomed);
    }
  }

  // ---- What the constraints mean ----

  lemma {:induction false} TableIds(rows: Rows, db: Db)
    requires Means(rows, db)
    ensures Ids(rows, Users) == db.users.Keys && Ids(rows, Chats) == db.chats.Keys
    ensures Ids(rows, Convs) == db.convs.Keys && Ids(rows, Messages) == db.msgs.Keys
  {
    InIds(rows, Users);
    InIds(rows, Chats);
    InIds(rows, Convs);
    InIds(rows, Messages);
  }

  lemma {:induction false} AcceptsUser(rows: Rows, fk: bool, db: Db, x: User)
    requires Means(rows, db)
    ensures forall k :: (Accepts(rows, fk, k, UserRow(x)) <==> forall i :: i in db.users ==> db.users[i].uname != x.uname)
  {
    MeansTyped(rows, db);
    forall l | l in rows && Clash(rows[l], UserRow(x)) ensures l.id in db.users && db.users[l.id].uname == x.uname {
      assert l == Key(Users, l.id);
    }
    forall i | i in db.users && db.users[i].uname == x.uname ensures Clash(rows[Key(Users, i)], UserRow(x)) {
    }
  }

  lemma {:induction false} AcceptsConv(rows: Rows, db: Db, id: nat, x: Conv)
    requires Means(rows, db)
    ensures Accepts(rows, true, Key(Convs, id), ConvRow(x)) <==> x.admin in db.users
  {
    var f := Fk(Key(Users, x.admin), true);
    assert f in Refs(ConvRow(x));
  }

  lemma {:induction false} AcceptsChat(rows: Rows, db: Db, id: nat, x: Chat)
    requires Means(rows, db)
    ensures Accepts(rows, true, Key(Chats, id), ChatRow(x))
       <==> x.member1 in db.users && x.member2 in db.users && forall c :: c in db.chats ==> db.chats[c] != x
  {
    MeansTyped(rows, db);
    assert Fk(Key(Users, x.member1), true) in Refs(ChatRow(x)) && Fk(Key(Users, x.member2), true) in Refs(ChatRow(x));
    forall l | l in rows && Clash(rows[l], ChatRow(x)) ensures l.id in db.chats && db.chats[l.id] == x {
      assert l == Key(Chats, l.id);
    }
    forall c | c in db.chats && db.chats[c] == x ensures Clash(rows[Key(Chats, c)], ChatRow(x)) {
    }
  }

  lemma {:induction false} AcceptsMember(rows: Rows, fk: bool, db: Db, c: nat, u: nat)
    requires Means(rows, db)
    ensures forall i :: (Accepts(rows, fk, Key(Members, i), MemberRow(c, u))
                         <==> (c, u) !in db.members && (fk ==> c in db.convs && u in db.users))
  {
    MeansTyped(rows, db);
    assert Fk(Key(Convs, c), true) in Refs(MemberRow(c, u)) && Fk(Key(Users, u), true) in Refs(MemberRow(c, u));
    assert (c, u) in db.members <==> HasMember(rows, c, u);
    forall l | l in rows && Clash(rows[l], MemberRow(c, u)) ensures HasMember(rows, c, u) {
      assert l == Key(Members, l.id);
    }
    if HasMember(rows, c, u) {
      var i :| Key(Members, i) in rows && rows[Key(Members, i)] == MemberRow(c, u);
      assert Clash(rows[Key(Members, i)], MemberRow(c, u));
    }
  }

  lemma {:induction false} AcceptsMsg(rows: Rows, db: Db, id: nat, m: Msg)
    requires Means(rows, db)
    ensures Accepts(rows, true, Key(Messages, id), MsgRow(m)) <==> MsgRefsOk(db, id, m)
  {
    assert Fk(Key(Users, m.from), false) in Refs(MsgRow(m));
    if m.reply.Id? {
      assert Fk(Key(Messages, m.reply.id), true) in Refs(MsgRow(m));
    }
    if m.chat.Id? {
      assert Fk(Key(Chats, m.chat.id), true) in Refs(MsgRow(m));
    }
    if m.conv.Id? {
      assert Fk(Key(Convs, m.conv.id), true) in Refs(MsgRow(m));
    }
  }

  // ---- Rooms ----

  lemma {:induction false} RowsInConv(rows: Rows, db: Db, conv: nat, ids: set<nat>)
    requires Means(rows, db)
    requires ids == set k | k in rows && k.table == Messages && rows[k].MsgRow? && rows[k].m.conv == Id(conv) :: k.id
    ensures ids == InConv(db.msgs, conv)
  {
    forall i | i in InConv(db.msgs, conv) ensures i in ids {
      assert Key(Messages, i).id in ids;
    }
    forall i | i in ids ensures i in InConv(db.msgs, conv) {
      var k :| k in rows && k.table == Messages && rows[k].MsgRow? && rows[k].m.conv == Id(conv) && k.id == i;
      assert k == Key(Messages, i);
    }
  }

  lemma {:induction false} RowsInChat(rows: Rows, db: Db, chat: nat, ids: set<nat>)
    requires Means(rows, db)
    requires ids == set k | k in rows && k.table == Messages && rows[k].MsgRow? && rows[k].m.chat == Id(chat) :: k.id
    ensures ids == InChat(db.msgs, chat)
  {
    forall i | i in InChat(db.msgs, chat) ensures i in ids {
      assert Key(Messages, i).id in ids;
    }
    forall i | i in ids ensures i in InChat(db.msgs, chat) {
      var k :| k in rows && k.table == Messages && rows[k].MsgRow? && rows[k].m.chat == Id(chat) && k.id == i;
      assert k == Key(Messages, i);
    }
  }

  lemma {:induction false} MatchingMembers(rows: Rows, db: Db, conv: nat, dead: set<Key>, kept: set<(nat, nat)>)
    requires Means(rows, db) && kept == set m | m in db.members && m.0 != conv
    requires dead == set k | k in rows && k.table == Members && rows[k].MemberRow? && rows[k].convId == conv
    ensures forall i :: Key(Members, i) in rows && rows[Key(Members, i)].MemberRow? ==>
              var r := rows[Key(Members, i)]; Key(Members, i) in dead <==> (r.convId, r.userId) !in kept
  {
    forall i | Key(Members, i) in rows && rows[Key(Members, i)].MemberRow?
      ensures var r := rows[Key(Members, i)]; (r.convId, r.userId) in db.members
    {
      assert HasMember(rows, rows[Key(Members, i)].convId, rows[Key(Members, i)].userId);
    }
  }

  /** Without members and messages nothing refers to a conversation. */
  lemma {:induction false} NobodyInConv(rows: Rows, db: Db, conv: nat)
    requires Means(rows, db) && InConv(db.msgs, conv) == {} && forall m :: m in db.members ==> m.0 != conv
    ensures forall l, f :: l in rows && f in Refs(rows[l]) ==> f.target != Key(Convs, conv)
  {
    MeansTyped(rows, db);
    forall l, f | l in rows && f in Refs(rows[l]) ensures f.target != Key(Convs, conv) {
      if rows[l].MsgRow? {
        assert l == Key(Messages, l.id) && l.id !in InConv(db.msgs, conv);
      } else if rows[l].MemberRow? {
        assert l == Key(Members, l.id) && HasMember(rows, rows[l].convId, rows[l].userId);
        assert (rows[l].convId, rows[l].userId) in db.members;
      }
    }
  }

  lemma {:induction false} NobodyInChat(rows: Rows, db: Db, chat: nat)
    requires Means(rows, db) && InChat(db.msgs, chat) == {}
    ensures forall l, f :: l in rows && f in Refs(rows[l]) ==> f.target != Key(Chats, chat)
  {
    MeansTyped(rows, db);
    forall l, f | l in rows && f in Refs(rows[l]) ensures f.target != Key(Chats, chat) {
      if rows[l].MsgRow? {
        assert l == Key(Messages, l.id) && l.id !in InChat(db.msgs, chat);
      }
    }
  }

  /** The two subselects of the notify query. */
  lemma {:induction false} ChatsOfUser(rows: Rows, db: Db, u: nat, chats: set<nat>)
    requires Means(rows, db)
    requires chats == set k | k in rows && rows[k].ChatRow? && (rows[k].c.member1 == u || rows[k].c.member2 == u) :: k.id
    ensures forall c :: c in chats <==> ChatIsMember(db, c, u)
  {
    MeansTyped(rows, db);
    forall c ensures c in chats <==> ChatIsMember(db, c, u) {
      if ChatIsMember(db, c, u) {
        assert Key(Chats, c).id in chats;
      }
      if c in chats {
        var k :| k in rows && rows[k].ChatRow? && (rows[k].c.member1 == u || rows[k].c.member2 == u) && k.id == c;
        assert k == Key(Chats, c);
      }
    }
  }

  lemma {:induction false} ConvsOfUser(rows: Rows, db: Db, u: nat, convs: set<nat>)
    requires Means(rows, db)
    requires convs == set k | k in rows && rows[k].MemberRow? && rows[k].userId == u :: rows[k].convId
    ensures forall c: nat :: c in convs <==> ConvIsMember(db, c, u)
  {
    MeansTyped(rows, db);
    forall c: nat ensures c in convs <==> ConvIsMember(db, c, u) {
      assert (c, u) in db.members <==> HasMember(rows, c, u);
      if c in convs {
        var k :| k in rows && rows[k].MemberRow? && rows[k].userId == u && rows[k].convId == c;
        assert k == Key(Members, k.id);
      }
    }
  }

  predicate NewInChat(db: Db, u: nat, i: nat) {
    i in db.msgs && db.msgs[i].kind == Sent && db.msgs[i].chat.Id? && ChatIsMember(db, db.msgs[i].chat.id, u)
  }

  predicate NewInConv(db: Db, u: nat, i: nat) {
    i in db.msgs && db.msgs[i].kind == Sent && db.msgs[i].conv.Id? && ConvIsMember(db, db.msgs[i].conv.id, u)
  }

  lemma {:induction false} NotifyParts(db: Db, u: nat, i: nat)
    ensures i in NotifyNew(db, u) <==> NewInChat(db, u, i) || NewInConv(db, u, i)
  {
  }

  // ---- Lists ----

  lemma {:induction false} AppendElem(s: seq<nat>, x: nat)
    ensures Elems(s + [x]) == Elems(s) + {x}
  {
  }

  lemma {:induction false} NoDupSize(s: seq<nat>)
    requires NoDup(s)
    ensures |Elems(s)| == |s|
  {
    if s != [] {
      var n := |s| - 1;
      NoDupSize(s[..n]);
      assert s == s[..n] + [s[n]];
      AppendElem(s[..n], s[n]);
    }
  }

  /** A reversed list has the same elements. */
  lemma {:induction false} SameElems(s: seq<nat>, t: seq<nat>)
    requires |t| == |s| && forall k :: 0 <= k < |s| ==> t[k] == s[|s| - 1 - k]
    ensures Elems(t) == Elems(s) && (NoDup(s) ==> NoDup(t))
  {
    forall x | x in s ensures x in t {
      var k :| 0 <= k < |s| && s[k] == x;
      assert t[|s| - 1 - k] == x;
    }
  }
}
