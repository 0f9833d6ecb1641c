/** The chat server's database and what each request does to it, as values:
    the tables with their constraints (schema.up.sql), the statements of sql.c
    and the checks the handlers make before running them. */
module ChatModel {
  import opened Bytes
  import T = SqlText

  /** A nullable column; on the wire and in the C structs NULL is 0. */
  datatype Ref = Null | Id(id: nat)

  function ToRef(n: nat): Ref {
    if n == 0 then Null else Id(n)
  }

  function FromRef(r: Ref): nat {
    if r.Null? then 0 else r.id
  }

  datatype Kind = Sent | Delivered | Deleted

  datatype User = User(uname: Str, password: Str, phone: Str, email: Str)

  datatype Chat = Chat(member1: nat, member2: nat)

  datatype Conv = Conv(admin: nat, name: Str)

  datatype Msg = Msg(from: nat, reply: Ref, contentType: nat, contentLength: nat, content: Str,
                     createdAt: nat, chat: Ref, conv: Ref, kind: Kind)

  /** `fk` is the connection's foreign_keys pragma. A member is (conv, user). */
  datatype Db = Db(users: map<nat, User>, chats: map<nat, Chat>, convs: map<nat, Conv>,
                   members: set<(nat, nat)>, msgs: map<nat, Msg>, fk: bool)

  const EMPTY := Db(map[], map[], map[], {}, map[], false)

  /** `fail` is the statement of the transaction that SQLite itself reports an
      error for, if any; `now` is the clock. */
  datatype Req =
    | Register(info: User)
    | ConvCreate(name: Str, fail: nat)
    | ConvDrop(conv: nat, fail: nat)
    | ConvJoin(conv: nat, user: nat)
    | ConvQuit(conv: nat, user: nat)
    | ChatCreate(user2: nat)
    | ChatDrop(chat: nat, fail: nat)
    | MsgSend(conv: nat, chat: nat, reply: nat, contentType: nat, contentLen: nat, content: Str, now: nat)
    | MsgDelete(msg: nat)
    | MsgFetch(msg: nat)

  const MSG_TEXT := 0
  const MSG_FILE := 1

  // ---- Queries ----

  predicate ConvIsMember(db: Db, conv: nat, u: nat) {
    (conv, u) in db.members
  }

  predicate ConvIsAdmin(db: Db, conv: nat, u: nat) {
    conv in db.convs && db.convs[conv].admin == u
  }

  predicate ChatIsMember(db: Db, chat: nat, u: nat) {
    chat in db.chats && (db.chats[chat].member1 == u || db.chats[chat].member2 == u)
  }

  /** The check made by the detail, delete and download handlers. */
  predicate MayRead(db: Db, m: Msg, u: nat) {
    ConvIsMember(db, FromRef(m.conv), u) || ChatIsMember(db, FromRef(m.chat), u)
  }

  /** msg_get_msg_sent: SENT messages of the user's chats and conversations. */
  function NotifyNew(db: Db, u: nat): set<nat> {
    var mine := set c | c in db.chats && (db.chats[c].member1 == u || db.chats[c].member2 == u);
    (set i | i in db.msgs && db.msgs[i].kind == Sent && db.msgs[i].chat.Id? && db.msgs[i].chat.id in mine)
    + (set i | i in db.msgs && db.msgs[i].kind == Sent && db.msgs[i].conv.Id? && (db.msgs[i].conv.id, u) in db.members)
  }

  /** The rowid SQLite gives a new row of a table. */
  function NextId(keys: set<nat>): (n: nat)
    ensures n > 0 && forall k :: k in keys ==> k < n
    ensures n > 1 ==> n - 1 in keys
  {
    if keys == {} then 1 else MaxFacts(keys); Max(keys) + 1
  }

  ghost predicate IsMax(keys: set<nat>, x: nat) {
    x in keys && forall k :: k in keys ==> k <= x
  }

  function Max(keys: set<nat>): (x: nat)
    requires keys != {}
    ensures IsMax(keys, x)
  {
    MaxFacts(keys);
    var x :| x in keys && forall k :: k in keys ==> k <= x;
    x
  }

  lemma {:induction false} MaxFacts(keys: set<nat>)
    requires keys != {}
    ensures exists x :: IsMax(keys, x)
    decreases keys
  {
    var y :| y in keys;
    var rest := keys - {y};
    if rest == {} {
      assert keys == {y};
      assert IsMax(keys, y);
    } else {
      MaxFacts(rest);
      var z :| IsMax(rest, z);
      assert forall k :: k in keys ==> k == y || k in rest;
      assert IsMax(keys, if y <= z then z else y);
    }
  }

  // ---- Deletion with cascades ----

  /** Replies point to older messages, or to the message itself. */
  ghost predicate RepliesBack(msgs: map<nat, Msg>) {
    forall i :: i in msgs && msgs[i].reply.Id? ==> msgs[i].reply.id <= i
  }

  /** The reply chain of message `i` meets `seed`. The chain is followed while
      it goes to older messages, which in every reachable state is to its end. */
  predicate Reaches(msgs: map<nat, Msg>, i: nat, seed: set<nat>)
    decreases i
  {
    i in seed
    || (i in msgs && msgs[i].reply.Id? && msgs[i].reply.id < i && Reaches(msgs, msgs[i].reply.id, seed))
  }

  /** The rows that go when the rows `seed` are deleted and deletion cascades
      along reply_to. */
  function Cascade(msgs: map<nat, Msg>, seed: set<nat>): set<nat> {
    set i | i in msgs && Reaches(msgs, i, seed)
  }

  function InConv(msgs: map<nat, Msg>, conv: nat): set<nat> {
    set i | i in msgs && msgs[i].conv == Id(conv)
  }

  function InChat(msgs: map<nat, Msg>, chat: nat): set<nat> {
    set i | i in msgs && msgs[i].chat == Id(chat)
  }

  function Delete(db: Db, seed: set<nat>): map<nat, Msg> {
    if db.fk then db.msgs - Cascade(db.msgs, seed) else db.msgs - seed
  }

  // ---- The text of the INSERT statements ----

  /** The lengths of what precedes the values, e.g. of
      INSERT INTO conversations(admin_id,name) VALUES( */
  const USER_HEAD := 57
  const CONV_HEAD := 48
  const MSG_HEAD := 124

  function RefValue(r: Ref): T.Value {
    if r.Null? then T.Null else T.Num(r.id)
  }

  function UserValues(x: User): seq<T.Value> {
    [T.Text(x.uname), T.Text(x.password), T.Text(x.phone), T.Text(x.email)]
  }

  function ConvValues(x: Conv): seq<T.Value> {
    [T.Num(x.admin), T.Text(x.name)]
  }

  function MsgValues(m: Msg): seq<T.Value> {
    [T.Num(m.from), RefValue(m.reply), T.Num(m.contentType), T.Num(m.contentLength), T.Text(m.content),
     T.Num(m.createdAt), RefValue(m.chat), RefValue(m.conv), T.Num(0)]
  }

  /** The statement is not cut off by its buffer. */
  predicate UserFits(x: User) {
    T.Fits(USER_HEAD, UserValues(x), T.QUERY_SMALL)
  }

  predicate ConvFits(x: Conv) {
    T.Fits(CONV_HEAD, ConvValues(x), T.QUERY_SMALL)
  }

  predicate MsgFits(m: Msg) {
    T.Fits(MSG_HEAD, MsgValues(m), T.QUERY_LARGE)
  }

  /** The texts a request puts into a statement have no apostrophe, so that the
      statement is the one INSERT it is meant to be. */
  predicate TextsOk(r: Req) {
    match r
    case Register(x) =>
      T.QuoteFree(x.uname) && T.QuoteFree(x.password) && T.QuoteFree(x.phone) && T.QuoteFree(x.email)
    case ConvCreate(name, _) => T.QuoteFree(name)
    case MsgSend(_, _, _, _, _, content, _) => T.QuoteFree(content)
    case _ => true
  }

  // ---- Requests ----

  datatype Reply = Reply(db: Db, status: nat)

  function Serve(db: Db, u: nat, r: Req): Reply {
    if r.Register? then DoRegister(db, r.info)
    else if u !in db.users then Reply(db, 403)
    else match r
      case ConvCreate(name, fail) => DoConvCreate(db, u, name, fail)
      case ConvDrop(conv, fail) => DoConvDrop(db, u, conv, fail)
      case ConvJoin(conv, user) => DoConvJoin(db, u, conv, user)
      case ConvQuit(conv, user) => DoConvQuit(db, u, conv, user)
      case ChatCreate(user2) => DoChatCreate(db, u, user2)
      case ChatDrop(chat, fail) => DoChatDrop(db, u, chat, fail)
      case MsgSend(_, _, _, _, _, _, _) => DoMsgSend(db, u, r)
      case MsgDelete(msg) => DoMsgDelete(db, u, msg)
      case MsgFetch(msg) => DoMsgFetch(db, u, msg)
  }

  function DoRegister(db: Db, info: User): Reply {
    if !UserFits(info) then Reply(db, 500)
    else if exists i :: i in db.users && db.users[i].uname == info.uname then Reply(db, 409)
    else Reply(db.(users := db.users[NextId(db.users.Keys) := info]), 201)
  }

  function DoConvCreate(db: Db, u: nat, name: Str, fail: nat): Reply {
    var id := NextId(db.convs.Keys);
    if fail in {1, 2, 3} || !ConvFits(Conv(u, name)) then Reply(db.(fk := true), 500)
    else Reply(db.(convs := db.convs[id := Conv(u, name)], members := db.members + {(id, u)}, fk := true), 201)
  }

  function DoConvDrop(db: Db, u: nat, conv: nat, fail: nat): Reply {
    if !ConvIsAdmin(db, conv, u) then Reply(db, 403)
    else if fail in {1, 2, 3, 4, 5} then Reply(db, 500)
    else Reply(db.(msgs := Delete(db, InConv(db.msgs, conv)),
                   members := (set m | m in db.members && m.0 != conv),
                   convs := db.convs - {conv}), 200)
  }

  function DoConvJoin(db: Db, u: nat, conv: nat, user: nat): Reply {
    if !ConvIsMember(db, conv, u) then Reply(db, 403)
    else if (conv, user) in db.members || (db.fk && (conv !in db.convs || user !in db.users)) then Reply(db, 500)
    else Reply(db.(members := db.members + {(conv, user)}), 200)
  }

  /** The row removed is always the requester's own, whoever is named. */
  function DoConvQuit(db: Db, u: nat, conv: nat, user: nat): Reply {
    if !ConvIsMember(db, conv, u) then Reply(db, 403)
    else if user != u && !ConvIsAdmin(db, conv, u) then Reply(db, 403)
    else if user == u && ConvIsAdmin(db, conv, u) then Reply(db, 204)
    else Reply(db.(members := db.members - {(conv, u)}), 200)
  }

  function DoChatCreate(db: Db, u: nat, user2: nat): Reply {
    if u == user2 then Reply(db, 403)
    else if user2 !in db.users || exists c :: c in db.chats && db.chats[c] == Chat(u, user2) then
      Reply(db.(fk := true), 409)
    else Reply(db.(chats := db.chats[NextId(db.chats.Keys) := Chat(u, user2)], fk := true), 201)
  }

  function DoChatDrop(db: Db, u: nat, chat: nat, fail: nat): Reply {
    if !ChatIsMember(db, chat, u) then Reply(db, 403)
    else if fail in {1, 2, 3, 4} then Reply(db, 500)
    else Reply(db.(msgs := Delete(db, InChat(db.msgs, chat)), chats := db.chats - {chat}), 200)
  }

  function NewMsg(u: nat, r: Req): Msg
    requires r.MsgSend?
  {
    var length := if r.contentType == MSG_TEXT then (r.contentLen - 12) % UINT32 else r.contentLen;
    Msg(u, ToRef(r.reply), r.contentType, length, r.content, r.now, ToRef(r.chat), ToRef(r.conv), Sent)
  }

  /** The foreign keys of a message about to become row `id`. */
  predicate MsgRefsOk(db: Db, id: nat, m: Msg) {
    && m.from in db.users
    && (m.reply.Id? ==> m.reply.id in db.msgs || m.reply.id == id)
    && (m.chat.Id? ==> m.chat.id in db.chats)
    && (m.conv.Id? ==> m.conv.id in db.convs)
  }

  function DoMsgSend(db: Db, u: nat, r: Req): Reply
    requires r.MsgSend?
  {
    if !ConvIsMember(db, r.conv, u) && !ChatIsMember(db, r.chat, u) then Reply(db, 403)
    else if r.contentType != MSG_TEXT && r.contentType != MSG_FILE then Reply(db, 400)
    else if !MsgFits(NewMsg(u, r)) then Reply(db.(fk := true), 500)
    else
      var id := NextId(db.msgs.Keys);
      if !MsgRefsOk(db, id, NewMsg(u, r)) then Reply(db.(fk := true), 409)
      else Reply(db.(msgs := db.msgs[id := NewMsg(u, r)], fk := true), 201)
  }

  function DoMsgDelete(db: Db, u: nat, msg: nat): Reply {
    if msg !in db.msgs then Reply(db, 404)
    else if !MayRead(db, db.msgs[msg], u) then Reply(db, 403)
    else Reply(db.(msgs := db.msgs[msg := db.msgs[msg].(content := [], kind := Deleted)]), 200)
  }

  /** The reply carries the row as it was; afterwards it counts as delivered. */
  function DoMsgFetch(db: Db, u: nat, msg: nat): Reply {
    if msg !in db.msgs then Reply(db, 404)
    else if !MayRead(db, db.msgs[msg], u) then Reply(db, 403)
    else Reply(db.(msgs := db.msgs[msg := db.msgs[msg].(kind := Delivered)]), 200)
  }

  function Run(db: Db, rs: seq<(nat, Req)>): Db
    decreases |rs|
  {
    if rs == [] then db else Run(Serve(db, rs[0].0, rs[0].1).db, rs[1..])
  }
}
