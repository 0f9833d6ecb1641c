/** What each request does to the tables, said in terms of rows: who may, with
    which status, what appears or goes, and that everything else stays. */
module ChatEffects {
  import opened Bytes
  import opened ChatModel
  import opened ChatProofs

  /** A table gains row `id` and is otherwise the same. */
  ghost predicate Gains<T>(before: map<nat, T>, after: map<nat, T>, id: nat) {
    && id !in before && id in after
    && forall i :: i != id ==> (i in after <==> i in before) && (i in before && i in after ==> after[i] == before[i])
  }

  /** Row `id` changes and nothing else does. */
  ghost predicate Rewrites<T>(before: map<nat, T>, after: map<nat, T>, id: nat) {
    && id in before && id in after
    && forall i :: i != id ==> (i in after <==> i in before) && (i in before && i in after ==> after[i] == before[i])
  }

  lemma {:induction false} UnknownRefused(db: Db, u: nat, r: Req)
    requires u !in db.users && !r.Register?
    ensures Serve(db, u, r) == Reply(db, 403)
  {
  }

  lemma {:induction false} RegisterExact(db: Db, u: nat, info: User)
    ensures var a, id := Serve(db, u, Register(info)), NextId(db.users.Keys);
            var taken := exists i :: i in db.users && db.users[i].uname == info.uname;
            && a.status == (if !UserFits(info) then 500 else if taken then 409 else 201)
            && a.db == db.(users := a.db.users)
            && (a.status != 201 ==> a.db.users == db.users)
            && (a.status == 201 ==>
                  && Gains(db.users, a.db.users, id)
                  && a.db.users[id].uname == info.uname && a.db.users[id].password == info.password
                  && a.db.users[id].phone == info.phone && a.db.users[id].email == info.email)
  {
  }

  /** The creator is admin and only member. */
  lemma {:induction false} ConvCreateExact(db: Db, u: nat, name: Str, fail: nat)
    requires Inv(db) && u in db.users
    ensures var a, id := Serve(db, u, ConvCreate(name, fail)), NextId(db.convs.Keys);
            && a.status == (if ConvFits(Conv(u, name)) && fail !in {1, 2, 3} then 201 else 500)
            && a.db == db.(convs := a.db.convs, members := a.db.members, fk := true)
            && (a.status != 201 ==> a.db.convs == db.convs && a.db.members == db.members)
            && (a.status == 201 ==>
                  && Gains(db.convs, a.db.convs, id) && a.db.convs[id].admin == u && a.db.convs[id].name == name
                  && forall c, x :: ConvIsMember(a.db, c, x) <==> if c == id then x == u else ConvIsMember(db, c, x))
  {
  }

  /** Any member adds any user who is not one yet. */
  lemma {:induction false} ConvJoinExact(db: Db, u: nat, c: nat, x: nat)
    requires Inv(db) && u in db.users
    ensures var a := Serve(db, u, ConvJoin(c, x));
            && a.status == (if !ConvIsMember(db, c, u) then 403
                            else if x in db.users && !ConvIsMember(db, c, x) then 200 else 500)
            && a.db == db.(members := a.db.members)
            && forall d, y :: ConvIsMember(a.db, d, y)
                 <==> ConvIsMember(db, d, y) || (a.status == 200 && d == c && y == x)
  {
  }

  /** A member who is no admin leaves by naming itself, an admin by naming
      somebody else; nobody else leaves, ever. */
  lemma {:induction false} ConvQuitExact(db: Db, u: nat, c: nat, x: nat)
    requires u in db.users
    ensures var a := Serve(db, u, ConvQuit(c, x));
            && a.status == (if !ConvIsMember(db, c, u) then 403
                            else if x == u <==> !ConvIsAdmin(db, c, u) then 200
                            else if x == u then 204 else 403)
            && a.db == db.(members := a.db.members)
            && forall d, y :: ConvIsMember(a.db, d, y)
                 <==> ConvIsMember(db, d, y) && !(a.status == 200 && d == c && y == u)
  {
  }

  /** Only the admin drops a conversation, only a participant a chat. */
  lemma {:induction false} DropStatus(db: Db, u: nat, k: nat, fail: nat)
    requires u in db.users
    ensures var a := Serve(db, u, ConvDrop(k, fail));
            && a.status == (if !ConvIsAdmin(db, k, u) then 403 else if 1 <= fail <= 5 then 500 else 200)
            && (a.status != 200 ==> a.db == db)
    ensures var a := Serve(db, u, ChatDrop(k, fail));
            && a.status == (if !ChatIsMember(db, k, u) then 403 else if 1 <= fail <= 4 then 500 else 200)
            && (a.status != 200 ==> a.db == db)
  {
  }

  /** The new chat is the requester's and its partner's. */
  lemma {:induction false} ChatCreateExact(db: Db, u: nat, x: nat)
    requires u in db.users
    ensures var a, id := Serve(db, u, ChatCreate(x)), NextId(db.chats.Keys);
            var taken := exists c :: c in db.chats && db.chats[c].member1 == u && db.chats[c].member2 == x;
            && a.status == (if x == u then 403 else if x !in db.users || taken then 409 else 201)
            && a.db == db.(chats := a.db.chats, fk := a.db.fk)
            && (a.status != 201 ==> a.db.chats == db.chats)
            && (a.status == 201 ==>
                  && Gains(db.chats, a.db.chats, id) && a.db.chats[id].member1 == u && a.db.chats[id].member2 == x
                  && a.db.fk && forall y :: ChatIsMember(a.db, id, y) <==> y == u || y == x)
  {
    var taken := exists c :: c in db.chats && db.chats[c].member1 == u && db.chats[c].member2 == x;
    assert taken <==> exists c :: c in db.chats && db.chats[c] == Chat(u, x);
  }

  /** Texts lose the 12 bytes of ids that content_len counts; a file's length is
      what the client announced. */
  function StoredLength(contentType: nat, n: nat): nat {
    if contentType == MSG_FILE then n else if n >= 12 then n - 12 else n + UINT32 - 12
  }

  lemma {:induction false} MsgSendExact(db: Db, u: nat, conv: nat, chat: nat, reply: nat, ct: nat, n: nat, content: Str, now: nat)
    requires u in db.users && IsU32(n)
    ensures var a, id := Serve(db, u, MsgSend(conv, chat, reply, ct, n, content, now)), NextId(db.msgs.Keys);
            var row := Msg(u, ToRef(reply), ct, StoredLength(ct, n), content, now, ToRef(chat), ToRef(conv), Sent);
            && a.status == (if !ConvIsMember(db, conv, u) && !ChatIsMember(db, chat, u) then 403
                            else if ct != 0 && ct != 1 then 400
                            else if !MsgFits(row) then 500
                            else if MaySend(db, u, conv, chat, reply) then 201 else 409)
            && a.db == db.(msgs := a.db.msgs, fk := a.db.fk)
            && (a.status != 201 ==> a.db.msgs == db.msgs)
            && (a.status == 201 ==> Gains(db.msgs, a.db.msgs, id) && a.db.msgs[id] == row && a.db.fk)
  {
    var r := MsgSend(conv, chat, reply, ct, n, content, now);
    if ct == 0 || ct == 1 {
      LengthStored(u, r);
    }
  }

  lemma {:induction false} LengthStored(u: nat, r: Req)
    requires r.MsgSend? && IsU32(r.contentLen) && (r.contentType == 0 || r.contentType == 1)
    ensures NewMsg(u, r) == Msg(u, ToRef(r.reply), r.contentType, StoredLength(r.contentType, r.contentLen), r.content, r.now,
                                ToRef(r.chat), ToRef(r.conv), Sent)
  {
    if r.contentType == 0 && r.contentLen < 12 {
      assert (r.contentLen - 12) % UINT32 == r.contentLen - 12 + UINT32;
    }
  }

  /** Whoever is in the message's conversation or chat. */
  predicate InRoom(db: Db, m: Msg, u: nat) {
    || (m.conv.Id? && (m.conv.id, u) in db.members)
    || (m.chat.Id? && m.chat.id in db.chats && (db.chats[m.chat.id].member1 == u || db.chats[m.chat.id].member2 == u))
  }

  lemma {:induction false} InRoomReads(db: Db, u: nat, i: nat)
    requires Inv(db) && i in db.msgs
    ensures MayRead(db, db.msgs[i], u) <==> InRoom(db, db.msgs[i], u)
  {
    assert MsgOk(db, i);
  }

  /** Anybody in its room may delete a message, not only its sender. */
  lemma {:induction false} MsgDeleteExact(db: Db, u: nat, i: nat)
    requires Inv(db) && u in db.users
    ensures var a := Serve(db, u, MsgDelete(i));
            && a.status == (if i !in db.msgs then 404 else if !InRoom(db, db.msgs[i], u) then 403 else 200)
            && a.db == db.(msgs := a.db.msgs) && (a.status != 200 ==> a.db.msgs == db.msgs)
            && (a.status == 200 ==>
                  && Rewrites(db.msgs, a.db.msgs, i) && a.db.msgs[i].content == [] && a.db.msgs[i].kind == Deleted
                  && a.db.msgs[i] == db.msgs[i].(content := [], kind := Deleted))
  {
    if i in db.msgs {
      InRoomReads(db, u, i);
    }
  }

  lemma {:induction false} MsgFetchExact(db: Db, u: nat, i: nat)
    requires Inv(db) && u in db.users
    ensures var a := Serve(db, u, MsgFetch(i));
            && a.status == (if i !in db.msgs then 404 else if !InRoom(db, db.msgs[i], u) then 403 else 200)
            && a.db == db.(msgs := a.db.msgs) && (a.status != 200 ==> a.db.msgs == db.msgs)
            && (a.status == 200 ==>
                  Rewrites(db.msgs, a.db.msgs, i) && a.db.msgs[i] == db.msgs[i].(kind := Delivered))
  {
    if i in db.msgs {
      InRoomReads(db, u, i);
    }
  }
}
