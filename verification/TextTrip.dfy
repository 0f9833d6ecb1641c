/** A text message from the sender's buffer to the reader's: encoded, parsed,
    stored, fetched, encoded again and parsed again. */
module TextTrip {
  import opened Bytes
  import opened Collections
  import Q = Requests
  import R = Responses
  import M = ChatModel
  import P = ChatProofs
  import E = ChatEffects
  import S = ChatServer
  import T = SqlText
  import L = SqlSchema
  import I = SqlInserts

  const MAX_TEXT := Q.BODY_LEN - 12

  function KindByte(k: M.Kind): byte {
    match k
    case Sent => 0
    case Delivered => 1
    case Deleted => 2
  }

  /** What handle_msg_get_detail copies from the row into the reply. */
  function DetailOf(id: nat, m: M.Msg): R.Detail
    requires m.contentType < 256
  {
    R.Detail(id, m.from, M.FromRef(m.reply), M.FromRef(m.conv), M.FromRef(m.chat), m.createdAt,
             KindByte(m.kind), m.contentType, m.contentLength, m.content)
  }

  function SendReq(p: Q.Parsed, now: nat): M.Req
    requires p.body.Msg? && p.body.content.Some?
  {
    M.MsgSend(p.body.conv, p.body.chat, p.body.replyId, p.header.contentType, p.header.contentLen,
              p.body.content.value, now)
  }

  /** What Serve makes of the parsed form of a text message. */
  function SendTextReq(conv: nat, chat: nat, reply: nat, text: Str, now: nat): M.Req {
    M.MsgSend(conv, chat, reply, 0, 12 + |text|, text, now)
  }

  /** The row that a text message becomes. */
  function TextRow(u: nat, conv: nat, chat: nat, reply: nat, text: Str, now: nat): M.Msg {
    M.Msg(u, M.ToRef(reply), 0, |text|, text, now, M.ToRef(chat), M.ToRef(conv), M.Sent)
  }

  function RefDigits(n: nat): nat {
    if n == 0 then 4 else |T.Dec(n)|
  }

  /** How long a text may be: the fixed part of the INSERT is 146 characters,
      the digits of its numbers come on top, and the whole must fit 8192. */
  lemma {:induction false} FitsExactly(u: nat, conv: nat, chat: nat, reply: nat, text: Str, now: nat)
    ensures M.MsgFits(TextRow(u, conv, chat, reply, text, now))
       <==> 146 + |T.Dec(u)| + RefDigits(reply) + |T.Dec(|text|)| + |text| + |T.Dec(now)|
            + RefDigits(chat) + RefDigits(conv) <= BUFSIZ
  {
    var v := M.MsgValues(TextRow(u, conv, chat, reply, text, now));
    ShowNine(v);
  }

  lemma {:induction false} ShowNine(v: seq<T.Value>)
    requires |v| == 9
    ensures |T.ShowAll(v)| == 16 + |T.Show(v[0])| + |T.Show(v[1])| + |T.Show(v[2])| + |T.Show(v[3])| + |T.Show(v[4])|
                              + |T.Show(v[5])| + |T.Show(v[6])| + |T.Show(v[7])| + |T.Show(v[8])|
  {
    ShowSplit(v);
    ShowSplit(v[1..]);
    ShowSplit(v[2..]);
    ShowSplit(v[3..]);
    ShowSplit(v[4..]);
    ShowSplit(v[5..]);
    ShowSplit(v[6..]);
    ShowSplit(v[7..]);
    assert v[8..] == [v[8]];
  }

  lemma {:induction false} ShowSplit(v: seq<T.Value>)
    requires |v| > 1
    ensures |T.ShowAll(v)| == |T.Show(v[0])| + 2 + |T.ShowAll(v[1..])|
  {
  }

  /** A text of the full length a request can carry is always too long for the
      statement: the reply is 500. */
  lemma {:induction false} FullTextRefused(db: M.Db, u: nat, conv: nat, chat: nat, reply: nat, text: Str, now: nat)
    requires u in db.users && |text| == MAX_TEXT
    requires M.ConvIsMember(db, conv, u) || M.ChatIsMember(db, chat, u)
    ensures M.Serve(db, u, SendTextReq(conv, chat, reply, text, now)).status == 500
  {
    FitsExactly(u, conv, chat, reply, text, now);
    SentRow(u, conv, chat, reply, text, now);
  }

  lemma {:induction false} SentRow(u: nat, conv: nat, chat: nat, reply: nat, text: Str, now: nat)
    requires |text| <= MAX_TEXT
    ensures M.NewMsg(u, SendTextReq(conv, chat, reply, text, now)) == TextRow(u, conv, chat, reply, text, now)
  {
    assert (12 + |text| - 12) % UINT32 == |text|;
  }

  /** What SQLite reads from the statement is the row that was meant, iff the
      text has no apostrophe and the statement fits. */
  lemma {:induction false} TextCarried(u: nat, conv: nat, chat: nat, reply: nat, text: Str, now: nat)
    ensures var v := M.MsgValues(TextRow(u, conv, chat, reply, text, now));
            var head := I.Head(L.Messages);
            T.ReadInsert(head, T.Printed(T.Statement(head, v), T.QUERY_LARGE)) == Some(v)
            <==> T.QuoteFree(text) && M.MsgFits(TextRow(u, conv, chat, reply, text, now))
  {
    var v := M.MsgValues(TextRow(u, conv, chat, reply, text, now));
    T.Carried(I.Head(L.Messages), v, T.QUERY_LARGE);
    I.HeadCounted(L.Messages);
    OneText(u, conv, chat, reply, text, now);
  }

  lemma {:induction false} OneText(u: nat, conv: nat, chat: nat, reply: nat, text: Str, now: nat)
    ensures T.AllQuoteFree(M.MsgValues(TextRow(u, conv, chat, reply, text, now))) <==> T.QuoteFree(text)
  {
    var v := M.MsgValues(TextRow(u, conv, chat, reply, text, now));
    assert v[4] == T.Text(text);
  }

  /** A stored text gives a reply that fits the frame and carries the same
      text, its exact length, and the ids as they were sent, with 0 for NULL;
      it is stored when the sender may send and the statement fits, and readable
      for whoever is in one of its rooms. */
  lemma {:induction false} TextSurvives(db: M.Db, u: nat, conv: nat, chat: nat, reply: nat, text: Str, now: nat, v: nat)
    requires u in db.users && NulFree(text) && |text| <= MAX_TEXT && T.QuoteFree(text)
    requires IsU32(u) && IsU32(conv) && IsU32(chat) && IsU32(reply) && IsU32(now)
    requires IsU32(M.NextId(db.msgs.Keys))
    ensures var sent := M.Serve(db, u, SendTextReq(conv, chat, reply, text, now));
            var id := M.NextId(db.msgs.Keys);
            && (sent.status == 201 <==>
                  P.MaySend(db, u, conv, chat, reply) && M.MsgFits(TextRow(u, conv, chat, reply, text, now)))
            && (sent.status == 201 ==>
                  && id in sent.db.msgs && sent.db.msgs[id].contentType < 256
                  && DetailOf(id, sent.db.msgs[id]) == R.Detail(id, u, reply, conv, chat, now, 0, 0, |text|, text)
                  && R.DetailFits(DetailOf(id, sent.db.msgs[id]))
                  && (M.MayRead(sent.db, sent.db.msgs[id], v) <==> P.MayReadRooms(db, conv, chat, v)))
  {
    SentRow(u, conv, chat, reply, text, now);
  }

  /** The row that a file message becomes: its stored name and the size the
      client announced. */
  function FileRow(u: nat, conv: nat, chat: nat, reply: nat, fsize: nat, fname: Str, now: nat): M.Msg {
    M.Msg(u, M.ToRef(reply), 1, fsize, fname, now, M.ToRef(chat), M.ToRef(conv), M.Sent)
  }

  /** A file message is stored when its sender may send and the statement fits;
      its detail then carries kind, size, name and ids as they were sent. */
  lemma {:induction false} FileSurvives(db: M.Db, u: nat, conv: nat, chat: nat, reply: nat, fsize: nat, fname: Str, now: nat)
    requires u in db.users && NulFree(fname) && T.QuoteFree(fname) && 30 + |fname| <= R.BODY_LEN
    requires IsU32(u) && IsU32(conv) && IsU32(chat) && IsU32(reply) && IsU32(fsize) && IsU32(now)
    requires IsU32(M.NextId(db.msgs.Keys))
    ensures var sent := M.Serve(db, u, M.MsgSend(conv, chat, reply, 1, fsize, fname, now));
            var id := M.NextId(db.msgs.Keys);
            && (sent.status == 201 <==>
                  P.MaySend(db, u, conv, chat, reply) && M.MsgFits(FileRow(u, conv, chat, reply, fsize, fname, now)))
            && (sent.status == 201 ==>
                  && id in sent.db.msgs && sent.db.msgs[id] == FileRow(u, conv, chat, reply, fsize, fname, now)
                  && DetailOf(id, sent.db.msgs[id]) == R.Detail(id, u, reply, conv, chat, now, 0, 1, fsize, fname)
                  && R.DetailFits(DetailOf(id, sent.db.msgs[id])))
  {
    E.MsgSendExact(db, u, conv, chat, reply, 1, fsize, fname, now);
  }

  /** As long as nobody asks to delete it, a message keeps its text, and it
      never becomes deleted. */
  lemma {:induction false} TextLives(db: M.Db, rs: seq<(nat, M.Req)>, i: nat)
    requires P.Lives(db, rs, i) && db.msgs[i].kind != M.Deleted
    requires forall k :: 0 <= k < |rs| ==> rs[k].1 != M.MsgDelete(i)
    ensures var msgs := M.Run(db, rs).msgs;
            && i in msgs && msgs[i].kind != M.Deleted
            && msgs[i] == db.msgs[i].(kind := msgs[i].kind)
    decreases |rs|
  {
    if rs != [] {
      assert rs[0].1 != M.MsgDelete(i);
      P.RowStep(db, rs[0].0, rs[0].1, i);
      TextLives(M.Serve(db, rs[0].0, rs[0].1).db, rs[1..], i);
    }
  }

  /** The message sent from `db` as row `id` is still there and undeleted after
      the requests `rs` of any users. */
  ghost predicate Survives(db: M.Db, u: nat, r: M.Req, id: nat, rs: seq<(nat, M.Req)>) {
    && M.Serve(db, u, r).status == 201 && P.Lives(M.Serve(db, u, r).db, rs, id)
    && forall k :: 0 <= k < |rs| ==> rs[k].1 != M.MsgDelete(id)
  }

  /** What the reader gets, any number of requests later. */
  lemma {:induction false} TextArrives(db: M.Db, u: nat, conv: nat, chat: nat, reply: nat, text: Str, now: nat,
                                       rs: seq<(nat, M.Req)>)
    requires u in db.users && NulFree(text) && |text| <= MAX_TEXT && T.QuoteFree(text)
    requires IsU32(u) && IsU32(conv) && IsU32(chat) && IsU32(reply) && IsU32(now)
    requires IsU32(M.NextId(db.msgs.Keys))
    requires Survives(db, u, SendTextReq(conv, chat, reply, text, now), M.NextId(db.msgs.Keys), rs)
    ensures var id := M.NextId(db.msgs.Keys);
            var later := M.Run(M.Serve(db, u, SendTextReq(conv, chat, reply, text, now)).db, rs);
            && id in later.msgs && later.msgs[id].contentType < 256 && later.msgs[id].kind != M.Deleted
            && DetailOf(id, later.msgs[id])
               == R.Detail(id, u, reply, conv, chat, now, KindByte(later.msgs[id].kind), 0, |text|, text)
            && R.DetailFits(DetailOf(id, later.msgs[id]))
            && DetailOf(id, later.msgs[id]).msgType == (if later.msgs[id].kind == M.Sent then 0 else 1)
  {
    TextSurvives(db, u, conv, chat, reply, text, now, u);
    TextLives(M.Serve(db, u, SendTextReq(conv, chat, reply, text, now)).db, rs, M.NextId(db.msgs.Keys));
  }

  /** Sent by `u`, then any requests of anybody, then fetched by `v`. */
  method Travel(server: S.Server, out: array<byte>, back: array<byte>, token: Str, u: nat, conv: nat, chat: nat,
                reply: nat, text: Str, now: nat, rs: seq<(nat, M.Req)>, v: nat) returns (got: Option<R.Parsed>)
    requires out.Length == BUFSIZ && back.Length == BUFSIZ && out != back
    requires server.Valid() && P.Inv(server.db) && u in server.db.users
    requires |token| == Q.TOKEN_LEN && NulFree(text) && |text| <= MAX_TEXT && T.QuoteFree(text)
    requires IsU32(u) && IsU32(conv) && IsU32(chat) && IsU32(reply) && IsU32(now)
    requires IsU32(M.NextId(server.db.msgs.Keys))
    requires forall k :: 0 <= k < |rs| ==> M.TextsOk(rs[k].1)
    requires P.MaySend(server.db, u, conv, chat, reply) && M.MsgFits(TextRow(u, conv, chat, reply, text, now)) ==>
               Survives(server.db, u, SendTextReq(conv, chat, reply, text, now), M.NextId(server.db.msgs.Keys), rs)
    modifies server, out, back
    ensures server.Valid() && P.Inv(server.db)
    ensures var id := M.NextId(old(server.db).msgs.Keys);
            var later := M.Run(M.Serve(old(server.db), u, SendTextReq(conv, chat, reply, text, now)).db, rs);
            && (got.Some? <==>
                  && P.MaySend(old(server.db), u, conv, chat, reply)
                  && M.MsgFits(TextRow(u, conv, chat, reply, text, now)) && id in later.msgs
                  && v in later.users && M.MayRead(later, later.msgs[id], v))
            && (got.Some? ==>
                  && got.value.header.status == 200 && got.value.body.Msg?
                  && got.value.header.contentType == 0 && got.value.header.contentLen == |text|
                  && got.value.body.detail
                     == R.Detail(id, u, reply, conv, chat, now, if later.msgs[id].kind == M.Sent then 0 else 1,
                                 0, |text|, text))
  {
    got := None;
    ghost var db := server.db;
    TextSurvives(db, u, conv, chat, reply, text, now, v);
    var status, id := Send(server, out, token, u, conv, chat, reply, text, now);
    if status != 201 {
      return;
    }
    TextArrives(db, u, conv, chat, reply, text, now, rs);
    server.ServeAll(rs);
    var known := server.UserExists(v);
    if !known {
      return;
    }
    var fetched, row := Fetch(server, v, id);
    if fetched != 200 {
      return;
    }
    got := Answer(id, row, back);
  }

  /** The server's reply, and the client's half of it. */
  method Answer(id: nat, row: M.Msg, back: array<byte>) returns (got: Option<R.Parsed>)
    requires back.Length == BUFSIZ && row.contentType < 256 && R.DetailFits(DetailOf(id, row))
    modifies back
    ensures got.Some? && got.value.header.status == 200 && got.value.body == R.Msg(DetailOf(id, row))
    ensures got.value.header.contentType == row.contentType && got.value.header.contentLen == row.contentLength
  {
    R.MakeResponse(200, R.MsgDetail(DetailOf(id, row)), back);
    got := R.ParseResponse(back[..]);
  }

  /** The client's half and the send handler. */
  method Send(server: S.Server, out: array<byte>, token: Str, u: nat, conv: nat, chat: nat,
              reply: nat, text: Str, now: nat) returns (status: nat, id: nat)
    requires out.Length == BUFSIZ && server.Valid() && P.Inv(server.db) && u in server.db.users
    requires |token| == Q.TOKEN_LEN && NulFree(text) && |text| <= MAX_TEXT && T.QuoteFree(text)
    requires IsU32(u) && IsU32(conv) && IsU32(chat) && IsU32(reply)
    modifies server, out
    ensures server.Valid() && P.Inv(server.db)
    ensures M.Reply(server.db, status)
         == M.Serve(old(server.db), u, SendTextReq(conv, chat, reply, text, now))
    ensures status == 201 ==> id == M.NextId(old(server.db).msgs.Keys)
  {
    Q.MakeRequest(Q.As(token, u, Q.SendText(conv, chat, reply, text)), out);
    var p := Q.ParseRequest(out[..]).value;
    P.ServeInv(server.db, u, SendReq(p, now));
    status, id := server.HandleMsgSend(p.header.userId, p.body.conv, p.body.chat, p.body.replyId,
                                       p.header.contentType, p.header.contentLen, p.body.content.value, now);
  }

  method Fetch(server: S.Server, v: nat, id: nat) returns (status: nat, row: M.Msg)
    requires server.Valid() && P.Inv(server.db) && v in server.db.users
    modifies server
    ensures server.Valid() && P.Inv(server.db)
    ensures status == 200 <==> id in old(server.db).msgs && M.MayRead(old(server.db), old(server.db).msgs[id], v)
    ensures status == 200 ==> row == old(server.db).msgs[id]
  {
    FetchFacts(server.db, v, id);
    status, row := server.HandleMsgFetch(v, id);
  }

  lemma {:induction false} FetchFacts(db: M.Db, v: nat, id: nat)
    requires P.Inv(db) && v in db.users
    ensures P.Inv(M.Serve(db, v, M.MsgFetch(id)).db)
    ensures M.Serve(db, v, M.MsgFetch(id)).status == 200 <==> id in db.msgs && M.MayRead(db, db.msgs[id], v)
  {
    P.ServeInv(db, v, M.MsgFetch(id));
  }
}
