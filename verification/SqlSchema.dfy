/** The tables as SQLite keeps them: rows under rowids, and for every row the
    foreign keys and UNIQUE columns that schema.up.sql declares. What the
    server means by them is a ChatModel.Db. */
module SqlSchema {
  import opened ChatModel
  import opened ChatProofs

  datatype Table = Users | Chats | Convs | Members | Messages

  datatype Key = Key(table: Table, id: nat)

  datatype Row =
    | UserRow(u: User)
    | ChatRow(c: Chat)
    | ConvRow(v: Conv)
    | MemberRow(convId: nat, userId: nat)
    | MsgRow(m: Msg)

  type Rows = map<Key, Row>

  function TableOf(r: Row): Table {
    match r
    case UserRow(_) => Users
    case ChatRow(_) => Chats
    case ConvRow(_) => Convs
    case MemberRow(_, _) => Members
    case MsgRow(_) => Messages
  }

  ghost predicate Typed(rows: Rows) {
    forall k :: k in rows ==> TableOf(rows[k]) == k.table
  }

  // ---- Constraints ----

  /** REFERENCES target, with ON DELETE CASCADE or without. */
  datatype Fk = Fk(target: Key, cascades: bool)

  function Optional(t: Table, r: Ref): set<Fk> {
    if r.Null? then {} else {Fk(Key(t, r.id), true)}
  }

  function Refs(r: Row): set<Fk> {
    match r
    case UserRow(_) => {}
    case ChatRow(c) => {Fk(Key(Users, c.member1), true), Fk(Key(Users, c.member2), true)}
    case ConvRow(v) => {Fk(Key(Users, v.admin), true)}
    case MemberRow(c, u) => {Fk(Key(Convs, c), true), Fk(Key(Users, u), true)}
    case MsgRow(m) =>
      {Fk(Key(Users, m.from), false)} + Optional(Messages, m.reply) + Optional(Chats, m.chat) + Optional(Convs, m.conv)
  }

  /** Two rows agree on the columns of a UNIQUE or PRIMARY KEY constraint. */
  predicate Clash(r: Row, q: Row) {
    || (r.UserRow? && q.UserRow? && r.u.uname == q.u.uname)
    || (r.ChatRow? && r == q)
    || (r.MemberRow? && r == q)
  }

  /** Every foreign key of every row leads to a row. */
  ghost predicate Consistent(rows: Rows) {
    forall k, f :: k in rows && f in Refs(rows[k]) ==> f.target in rows
  }

  ghost predicate ClashFree(rows: Rows) {
    forall k, l :: k in rows && l in rows && Clash(rows[k], rows[l]) ==> k == l
  }

  function Ids(rows: Rows, t: Table): set<nat> {
    set k | k in rows && k.table == t :: k.id
  }

  lemma {:induction false} InIds(rows: Rows, t: Table)
    ensures forall i :: i in Ids(rows, t) <==> Key(t, i) in rows
  {
    forall i ensures i in Ids(rows, t) <==> Key(t, i) in rows {
      if Key(t, i) in rows {
        assert Key(t, i).id in Ids(rows, t);
      }
    }
  }

  // ---- ON DELETE CASCADE ----

  /** Whatever refers with ON DELETE CASCADE to a row of `s` is in `s`. */
  ghost predicate CascadeClosed(rows: Rows, s: set<Key>) {
    forall k, f :: k in rows && f in Refs(rows[k]) && f.cascades && f.target in s ==> k in s
  }

  /** `dead` is the least set of rows that holds `seed` and is closed. */
  ghost predicate IsCascade(rows: Rows, seed: set<Key>, dead: set<Key>) {
    && seed <= dead <= rows.Keys && CascadeClosed(rows, dead)
    && forall s: set<Key> :: seed <= s && CascadeClosed(rows, s) ==> dead <= s
  }

  lemma {:induction false} CascadeUnique(rows: Rows, seed: set<Key>, d: set<Key>, e: set<Key>)
    requires IsCascade(rows, seed, d) && IsCascade(rows, seed, e)
    ensures d == e
  {
    assert d <= e && e <= d;
  }

  /** A survivor refers without ON DELETE CASCADE to a row that would go. */
  predicate Blocked(rows: Rows, dead: set<Key>) {
    exists k, f :: k in rows && k !in dead && f in Refs(rows[k]) && f.target in dead
  }

  /** A delete that is not blocked leaves no dangling reference. */
  lemma {:induction false} DeleteConsistent(rows: Rows, dead: set<Key>)
    requires Consistent(rows) && !Blocked(rows, dead)
    ensures Consistent(rows - dead)
  {
    forall k, f | k in rows - dead && f in Refs((rows - dead)[k]) ensures f.target in rows - dead {
      assert k in rows && f in Refs(rows[k]);
    }
  }

  // ---- What the tables mean ----

  ghost predicate UsersMean(rows: Rows, users: map<nat, User>) {
    forall i :: if i in users then Key(Users, i) in rows && rows[Key(Users, i)] == UserRow(users[i])
                else Key(Users, i) !in rows
  }

  ghost predicate ChatsMean(rows: Rows, chats: map<nat, Chat>) {
    forall i :: if i in chats then Key(Chats, i) in rows && rows[Key(Chats, i)] == ChatRow(chats[i])
                else Key(Chats, i) !in rows
  }

  ghost predicate ConvsMean(rows: Rows, convs: map<nat, Conv>) {
    forall i :: if i in convs then Key(Convs, i) in rows && rows[Key(Convs, i)] == ConvRow(convs[i])
                else Key(Convs, i) !in rows
  }

  ghost predicate MsgsMean(rows: Rows, msgs: map<nat, Msg>) {
    forall i :: if i in msgs then Key(Messages, i) in rows && rows[Key(Messages, i)] == MsgRow(msgs[i])
                else Key(Messages, i) !in rows
  }

  /** A pair is a member when some row says so. */
  ghost predicate HasMember(rows: Rows, c: nat, u: nat) {
    exists i :: Key(Members, i) in rows && rows[Key(Members, i)] == MemberRow(c, u)
  }

  ghost predicate MembersMean(rows: Rows, members: set<(nat, nat)>) {
    && (forall i :: Key(Members, i) in rows ==> rows[Key(Members, i)].MemberRow?)
    && (forall c: nat, u: nat :: (c, u) in members <==> HasMember(rows, c, u))
  }

  /** The rows are a picture of `db`. */
  ghost predicate Means(rows: Rows, db: Db) {
    && UsersMean(rows, db.users) && ChatsMean(rows, db.chats) && ConvsMean(rows, db.convs)
    && MembersMean(rows, db.members) && MsgsMean(rows, db.msgs)
  }

  lemma {:induction false} MeansTyped(rows: Rows, db: Db)
    requires Means(rows, db)
    ensures Typed(rows)
  {
    forall k | k in rows ensures TableOf(rows[k]) == k.table {
      assert k == Key(k.table, k.id);
    }
  }

  /** At most one database has that picture. */
  lemma {:induction false} MeansOne(rows: Rows, db: Db, db': Db)
    requires Means(rows, db) && Means(rows, db') && db.fk == db'.fk
    ensures db == db'
  {
    forall x: (nat, nat) ensures x in db.members <==> x in db'.members {
      assert (x.0, x.1) in db.members <==> HasMember(rows, x.0, x.1);
    }
    assert db.users == db'.users && db.chats == db'.chats && db.convs == db'.convs && db.msgs == db'.msgs;
  }

  // ---- Statements and their meaning ----

  /** Two states agree on a table. */
  ghost predicate SameTable(rows: Rows, rows': Rows, t: Table) {
    forall i :: if Key(t, i) in rows then Key(t, i) in rows' && rows'[Key(t, i)] == rows[Key(t, i)]
                else Key(t, i) !in rows'
  }

  /** What the tables other than `t` mean does not change. */
  lemma {:induction false} Frame(rows: Rows, rows': Rows, db: Db, t: Table)
    requires Means(rows, db) && forall o :: o != t ==> SameTable(rows, rows', o)
    ensures t != Users ==> UsersMean(rows', db.users)
    ensures t != Chats ==> ChatsMean(rows', db.chats)
    ensures t != Convs ==> ConvsMean(rows', db.convs)
    ensures t != Messages ==> MsgsMean(rows', db.msgs)
    ensures t != Members ==> MembersMean(rows', db.members)
  {
    assert t != Users ==> SameTable(rows, rows', Users);
    assert t != Chats ==> SameTable(rows, rows', Chats);
    assert t != Convs ==> SameTable(rows, rows', Convs);
    assert t != Messages ==> SameTable(rows, rows', Messages);
    if t != Members {
      assert SameTable(rows, rows', Members);
      forall c: nat, u: nat ensures HasMember(rows', c, u) <==> HasMember(rows, c, u) {
      }
    }
  }

  lemma {:induction false} PutFrame(rows: Rows, k: Key, r: Row, rows': Rows, db: Db)
    requires Means(rows, db) && rows' == rows[k := r]
    ensures k.table != Users ==> UsersMean(rows', db.users)
    ensures k.table != Chats ==> ChatsMean(rows', db.chats)
    ensures k.table != Convs ==> ConvsMean(rows', db.convs)
    ensures k.table != Messages ==> MsgsMean(rows', db.msgs)
    ensures k.table != Members ==> MembersMean(rows', db.members)
  {
    Frame(rows, rows', db, k.table);
  }

  lemma {:induction false} PutUser(rows: Rows, db: Db, i: nat, x: User)
    requires Means(rows, db)
    ensures Means(rows[Key(Users, i) := UserRow(x)], db.(users := db.users[i := x]))
  {
    PutFrame(rows, Key(Users, i), UserRow(x), rows[Key(Users, i) := UserRow(x)], db);
  }

  lemma {:induction false} PutChat(rows: Rows, db: Db, i: nat, x: Chat)
    requires Means(rows, db)
    ensures Means(rows[Key(Chats, i) := ChatRow(x)], db.(chats := db.chats[i := x]))
  {
    PutFrame(rows, Key(Chats, i), ChatRow(x), rows[Key(Chats, i) := ChatRow(x)], db);
  }

  lemma {:induction false} PutConv(rows: Rows, db: Db, i: nat, x: Conv)
    requires Means(rows, db)
    ensures Means(rows[Key(Convs, i) := ConvRow(x)], db.(convs := db.convs[i := x]))
  {
    PutFrame(rows, Key(Convs, i), ConvRow(x), rows[Key(Convs, i) := ConvRow(x)], db);
  }

  lemma {:induction false} PutMsg(rows: Rows, db: Db, i: nat, x: Msg)
    requires Means(rows, db)
    ensures Means(rows[Key(Messages, i) := MsgRow(x)], db.(msgs := db.msgs[i := x]))
  {
    PutFrame(rows, Key(Messages, i), MsgRow(x), rows[Key(Messages, i) := MsgRow(x)], db);
  }

  lemma {:induction false} PutMember(rows: Rows, db: Db, i: nat, c: nat, u: nat)
    requires Means(rows, db) && Key(Members, i) !in rows
    ensures Means(rows[Key(Members, i) := MemberRow(c, u)], db.(members := db.members + {(c, u)}))
  {
    var rows' := rows[Key(Members, i) := MemberRow(c, u)];
    PutFrame(rows, Key(Members, i), MemberRow(c, u), rows', db);
    forall d: nat, v: nat ensures (d, v) in db.members + {(c, u)} <==> HasMember(rows', d, v) {
      if (d, v) in db.members {
        var j :| Key(Members, j) in rows && rows[Key(Members, j)] == MemberRow(d, v);
        assert rows'[Key(Members, j)] == MemberRow(d, v);
      }
      assert rows'[Key(Members, i)] == MemberRow(c, u);
      if HasMember(rows', d, v) && (d, v) != (c, u) {
        var j :| Key(Members, j) in rows' && rows'[Key(Members, j)] == MemberRow(d, v);
        assert rows[Key(Members, j)] == MemberRow(d, v);
      }
    }
  }

  lemma {:induction false} CutFrame(rows: Rows, dead: set<Key>, t: Table, rows': Rows, db: Db)
    requires Means(rows, db) && rows' == rows - dead && forall k :: k in dead ==> k.table == t
    ensures t != Users ==> UsersMean(rows', db.users)
    ensures t != Chats ==> ChatsMean(rows', db.chats)
    ensures t != Convs ==> ConvsMean(rows', db.convs)
    ensures t != Messages ==> MsgsMean(rows', db.msgs)
    ensures t != Members ==> MembersMean(rows', db.members)
  {
    Frame(rows, rows', db, t);
  }

  lemma {:induction false} CutMsgs(rows: Rows, db: Db, ids: set<nat>)
    requires Means(rows, db)
    ensures Means(rows - MsgKeys(ids), db.(msgs := db.msgs - ids))
  {
    CutFrame(rows, MsgKeys(ids), Messages, rows - MsgKeys(ids), db);
  }

  lemma {:induction false} CutConv(rows: Rows, db: Db, conv: nat)
    requires Means(rows, db)
    ensures Means(rows - {Key(Convs, conv)}, db.(convs := db.convs - {conv}))
  {
    CutFrame(rows, {Key(Convs, conv)}, Convs, rows - {Key(Convs, conv)}, db);
  }

  lemma {:induction false} CutChat(rows: Rows, db: Db, chat: nat)
    requires Means(rows, db)
    ensures Means(rows - {Key(Chats, chat)}, db.(chats := db.chats - {chat}))
  {
    CutFrame(rows, {Key(Chats, chat)}, Chats, rows - {Key(Chats, chat)}, db);
  }

  /** DELETE FROM members WHERE ...: `kept` are the pairs that do not match. */
  lemma {:induction false} CutMembers(rows: Rows, db: Db, dead: set<Key>, kept: set<(nat, nat)>)
    requires Means(rows, db) && kept <= db.members && forall k :: k in dead ==> k.table == Members
    requires forall i :: Key(Members, i) in rows && rows[Key(Members, i)].MemberRow? ==>
               var r := rows[Key(Members, i)]; Key(Members, i) in dead <==> (r.convId, r.userId) !in kept
    ensures Means(rows - dead, db.(members := kept))
  {
    var rows' := rows - dead;
    CutFrame(rows, dead, Members, rows', db);
    forall c: nat, u: nat ensures (c, u) in kept <==> HasMember(rows', c, u) {
      if (c, u) in kept {
        var j :| Key(Members, j) in rows && rows[Key(Members, j)] == MemberRow(c, u);
        assert rows'[Key(Members, j)] == MemberRow(c, u);
      }
      if HasMember(rows', c, u) {
        var j :| Key(Members, j) in rows' && rows'[Key(Members, j)] == MemberRow(c, u);
        assert rows[Key(Members, j)] == MemberRow(c, u);
      }
    }
  }

  function MsgKeys(ids: set<nat>): set<Key> {
    set i | i in ids :: Key(Messages, i)
  }

  /** The cascade over all tables, from rows of the message table, is the
      cascade along reply_to: nothing else refers to a message. */
  lemma {:induction false} MessageCascade(rows: Rows, db: Db, seed: set<nat>)
    requires Means(rows, db) && RepliesBack(db.msgs) && seed <= db.msgs.Keys
    ensures IsCascade(rows, MsgKeys(seed), MsgKeys(Cascade(db.msgs, seed)))
    ensures !Blocked(rows, MsgKeys(Cascade(db.msgs, seed)))
  {
    var msgs, dead := db.msgs, Cascade(db.msgs, seed);
    ChatProofs.CascadeClosed(msgs, seed);
    MeansTyped(rows, db);
    forall k, f | k in rows && f in Refs(rows[k]) && f.target in MsgKeys(dead) ensures k in MsgKeys(dead) {
      assert k == Key(Messages, k.id) && k.id in msgs && msgs[k.id].reply == Id(f.target.id);
    }
    forall s: set<Key> | MsgKeys(seed) <= s && CascadeClosed(rows, s) ensures MsgKeys(dead) <= s {
      MessageCascadeLeast(rows, db, seed, s);
    }
  }

  lemma {:induction false} MessageCascadeLeast(rows: Rows, db: Db, seed: set<nat>, s: set<Key>)
    requires MsgsMean(rows, db.msgs) && MsgKeys(seed) <= s && CascadeClosed(rows, s)
    ensures MsgKeys(Cascade(db.msgs, seed)) <= s
  {
    var msgs := db.msgs;
    var ids := set k | k in s && k.table == Messages :: k.id;
    forall i | Key(Messages, i) in s ensures i in ids {
      assert Key(Messages, i).id in ids;
    }
    forall i | i in seed ensures i in ids {
      assert Key(Messages, i) in MsgKeys(seed);
    }
    forall i | i in msgs && msgs[i].reply.Id? && msgs[i].reply.id in ids ensures i in ids {
      var f := Fk(Key(Messages, msgs[i].reply.id), true);
      assert f in Refs(rows[Key(Messages, i)]);
    }
    forall i | i in Cascade(msgs, seed) ensures Key(Messages, i) in s {
      CascadeLeast(msgs, seed, ids, i);
    }
  }

  /** Rows nobody refers to go alone. */
  lemma {:induction false} NothingFollows(rows: Rows, seed: set<Key>)
    requires seed <= rows.Keys
    requires forall k, f :: k in rows && f in Refs(rows[k]) ==> f.target !in seed
    ensures IsCascade(rows, seed, seed) && !Blocked(rows, seed)
  {
  }
}
