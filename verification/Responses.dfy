/** response.c: frames of BUFSIZ bytes with a 32-byte header. */
module Responses {
  import opened Bytes
  import opened Collections

  const HEADER_LEN := 32
  const BODY_LEN := BUFSIZ - HEADER_LEN
  const TOKEN_LEN := 16

  datatype Header = Header(group: byte, action: byte, contentType: byte, contentLen: nat, bodyLen: nat,
                           status: nat, count: nat)

  /** The 30 bytes of a message detail and its text. */
  datatype Detail = Detail(msgId: nat, from: nat, replyTo: nat, conv: nat, chat: nat, createdAt: nat,
                           msgType: byte, contentType: byte, contentLength: nat, content: Str)

  /** The parsed body; fields a reply does not carry are zero or None. */
  datatype Body =
    | Auth(token: Str, userId: nat)
    | UserFields(uname: Str, phone: Str, email: Str)
    | Ids(ids: seq<nat>)
    | Single(id: nat)
    | Conv(admin: nat, gname: Str)
    | Chat(member1: nat, member2: nat)
    | Msg(detail: Detail)
    | Nothing
    | File(fname: Str)

  datatype Parsed = Parsed(header: Header, body: Body)

  predicate IsList(g: int, a: int) {
    (g, a) in {(1, 2), (2, 5), (2, 6), (3, 2), (4, 0), (4, 4), (4, 5)}
  }

  predicate IsWord(g: int, a: int) {
    (g, a) in {(2, 0), (3, 0), (4, 2)}
  }

  predicate IsEmpty(g: int, a: int) {
    (g, a) in {(3, 1), (4, 3)}
  }

  /** The actions response_parse knows; all others, among them logout and the
      replies to conv drop, join and quit, make it return NULL. */
  predicate Handled(g: int, a: int) {
    g == 0 || IsList(g, a) || IsWord(g, a) || IsEmpty(g, a) || (g, a) in {(1, 1), (2, 4), (3, 3), (4, 1), (4, 6)}
  }

  // ---- response_parse ----

  function ParseHeader(b: seq<byte>): Header
    requires |b| == BUFSIZ
  {
    Header(b[0], b[1], b[2], ReadU32(b, 4), ReadU32(b, 8), ReadU32(b, 12), ReadU32(b, 16))
  }

  predicate LengthsOk(b: seq<byte>)
    requires |b| == BUFSIZ
  {
    var h := ParseHeader(b);
    && (IsList(h.group, h.action) ==> 4 * h.count <= BODY_LEN)
    && ((h.group as int, h.action as int) in {(1, 1), (2, 4), (4, 1), (4, 6)} ==> h.bodyLen <= BODY_LEN)
    && (h.group == 2 && h.action == 4 ==> h.bodyLen >= 4)
    && (h.group == 4 && h.action == 1 ==> h.bodyLen >= 30)
  }

  /** parse_uint32_list as a value. */
  function ReadIds(b: seq<byte>, off: nat, count: nat): (ids: seq<nat>)
    requires off + 4 * count <= |b|
    ensures |ids| == count
  {
    seq(count, i requires 0 <= i < count => ReadU32(b, off + 4 * i))
  }

  function ReadDetail(b: seq<byte>, bodyLen: nat): Detail
    requires |b| == BUFSIZ && 30 <= bodyLen <= BODY_LEN
  {
    var o := HEADER_LEN;
    Detail(ReadU32(b, o), ReadU32(b, o + 4), ReadU32(b, o + 8), ReadU32(b, o + 12), ReadU32(b, o + 16),
           ReadU32(b, o + 20), b[o + 24], b[o + 25], ReadU32(b, o + 26), CStr(b[o + 30..o + bodyLen]))
  }

  function ReadUserFields(b: seq<byte>): Body {
    var i1 := NextField(b, 0);
    var i2 := NextField(b, i1);
    UserFields(Field(b, 0), Field(b, i1), Field(b, i2))
  }

  function ParseResponse(b: seq<byte>): Option<Parsed>
    requires |b| == BUFSIZ && LengthsOk(b)
  {
    var h := ParseHeader(b);
    var o := HEADER_LEN;
    if h.group == 0 then Some(Parsed(h, Auth(b[o..o + TOKEN_LEN], ReadU32(b, o + TOKEN_LEN))))
    else if IsList(h.group, h.action) then Some(Parsed(h, Ids(ReadIds(b, o, h.count))))
    else if IsWord(h.group, h.action) then Some(Parsed(h, Single(ReadU32(b, o))))
    else if IsEmpty(h.group, h.action) then Some(Parsed(h, Nothing))
    else if h.group == 1 && h.action == 1 then Some(Parsed(h, ReadUserFields(b[o..o + h.bodyLen])))
    else if h.group == 2 && h.action == 4 then Some(Parsed(h, Conv(ReadU32(b, o), CStr(b[o + 4..o + h.bodyLen]))))
    else if h.group == 3 && h.action == 3 then Some(Parsed(h, Chat(ReadU32(b, o), ReadU32(b, o + 4))))
    else if h.group == 4 && h.action == 1 then Some(Parsed(h, Msg(ReadDetail(b, h.bodyLen))))
    else if h.group == 4 && h.action == 6 then Some(Parsed(h, File(CStr(b[o..o + h.bodyLen]))))
    else None
  }

  /** parse_uint32_list */
  method ParseIdList(b: seq<byte>, off: nat, count: nat) returns (ids: array<int>)
    requires off + 4 * count <= |b|
    ensures fresh(ids) && ids[..] == ReadIds(b, off, count)
  {
    ids := new int[count];
    var i := 0;
    while i < count
      invariant 0 <= i <= count
      invariant forall k :: 0 <= k < i ==> ids[k] == ReadU32(b, off + 4 * k)
    {
      ids[i] := ReadU32(b, off + 4 * i);
      i := i + 1;
    }
  }

  // ---- make_response_* ----

  datatype Answer =
    | Session(action: byte, token: Str, uid: nat)
    | Info(uname: Str, phone: Str, email: Str)
    | List(group: byte, action: byte, ids: seq<nat>)
    | One(group: byte, action: byte, id: nat)
    | Bare(group: byte, action: byte)
    | ConvInfo(admin: nat, gname: Str)
    | ChatInfo(m1: nat, m2: nat)
    | MsgDetail(detail: Detail)
    | FileInfo(fsize: nat, fname: Str)

  function HeaderOf(status: nat, r: Answer): Header {
    match r
    case Session(a, _, _) => Header(0, a, 0, TOKEN_LEN + 4, TOKEN_LEN + 4, status, 0)
    case Info(u, p, e) => Header(1, 1, 0, |u| + |p| + |e| + 2, |u| + |p| + |e| + 2, status, 0)
    case List(g, a, ids) => Header(g, a, 0, 4 * |ids|, 4 * |ids|, status, |ids|)
    case One(g, a, _) => Header(g, a, 0, 4, 4, status, 0)
    case Bare(g, a) => Header(g, a, 0, 0, 0, status, 0)
    case ConvInfo(_, s) => Header(2, 4, 0, 4 + |s|, 4 + |s|, status, 0)
    case ChatInfo(_, _) => Header(3, 3, 0, 8, 8, status, 0)
    case MsgDetail(d) => Header(4, 1, d.contentType, d.contentLength, 30 + |d.content|, status, 0)
    case FileInfo(n, s) => Header(4, 6, 1, n, |s|, status, 0)
  }

  /** What the client is meant to get out of the frame. */
  function BodyOf(r: Answer): Body {
    match r
    case Session(_, t, n) => Auth(t, n)
    case Info(u, p, e) => UserFields(u, p, e)
    case List(_, _, ids) => Ids(ids)
    case One(_, _, n) => Single(n)
    case Bare(_, _) => Nothing
    case ConvInfo(n, s) => Conv(n, s)
    case ChatInfo(n, k) => Chat(n, k)
    case MsgDetail(d) => Msg(d)
    case FileInfo(_, s) => File(s)
  }

  predicate DetailFits(d: Detail) {
    && IsU32(d.msgId) && IsU32(d.from) && IsU32(d.replyTo) && IsU32(d.conv) && IsU32(d.chat)
    && IsU32(d.createdAt) && IsU32(d.contentLength) && NulFree(d.content) && 30 + |d.content| <= BODY_LEN
  }

  predicate Fits(status: nat, r: Answer) {
    && IsU32(status)
    && match r
       case Session(a, t, n) => a <= 1 && |t| == TOKEN_LEN && IsU32(n)
       case Info(u, p, e) => Plain(u) && Plain(p) && Plain(e) && |u| + |p| + |e| + 2 <= BODY_LEN
       case List(g, a, ids) => IsList(g, a) && 4 * |ids| <= BODY_LEN && forall i :: 0 <= i < |ids| ==> IsU32(ids[i])
       case One(g, a, n) => IsWord(g, a) && IsU32(n)
       case Bare(g, a) => (g as int, a as int) in {(1, 0), (2, 1), (2, 2), (2, 3), (3, 1), (4, 3)}
       case ConvInfo(n, s) => IsU32(n) && NulFree(s) && 4 + |s| <= BODY_LEN
       case ChatInfo(n, k) => IsU32(n) && IsU32(k)
       case MsgDetail(d) => DetailFits(d)
       case FileInfo(n, s) => IsU32(n) && NulFree(s) && |s| <= BODY_LEN
  }

  // ---- What a reply looks like on the wire ----

  /** The bytes of the body, field by field. */
  function BodyBytes(r: Answer): seq<byte>
    requires Fits(0, r)
  {
    match r
    case Session(_, t, n) => t + Words([n])
    case Info(u, p, e) => u + [DELIM] + (p + [DELIM] + e)
    case List(_, _, ids) => Words(ids)
    case One(_, _, n) => Words([n])
    case Bare(_, _) => []
    case ConvInfo(n, s) => Words([n]) + s
    case ChatInfo(n, k) => Words([n, k])
    case MsgDetail(d) =>
      Words([d.msgId, d.from, d.replyTo, d.conv, d.chat, d.createdAt])
      + ([d.msgType, d.contentType] + (Word(d.contentLength) + d.content))
    case FileInfo(_, s) => s
  }

  ghost predicate BodyAt(b: seq<byte>, r: Answer)
    requires |b| == BUFSIZ && Fits(0, r)
  {
    HEADER_LEN + |BodyBytes(r)| <= |b| && b[HEADER_LEN..HEADER_LEN + |BodyBytes(r)|] == BodyBytes(r)
  }

  /** The first 20 bytes of the header. */
  function HeaderBytes(h: Header): seq<byte>
    requires IsU32(h.contentLen) && IsU32(h.bodyLen) && IsU32(h.status) && IsU32(h.count)
  {
    [h.group, h.action, h.contentType, 0] + Words([h.contentLen, h.bodyLen, h.status, h.count])
  }

  lemma {:induction false} HeaderFits(status: nat, r: Answer)
    requires Fits(status, r)
    ensures var h := HeaderOf(status, r); IsU32(h.contentLen) && IsU32(h.bodyLen) && IsU32(h.status) && IsU32(h.count)
    ensures Fits(0, r) && |BodyBytes(r)| == HeaderOf(status, r).bodyLen <= BODY_LEN
  {
  }

  /** What the source puts into the header: the content's own kind and length
      for a message and a file, the body's length otherwise. */
  function ContentType(r: Answer): byte {
    match r
    case MsgDetail(d) => d.contentType
    case FileInfo(_, _) => 1
    case _ => 0
  }

  function ContentLength(r: Answer): nat
    requires Fits(0, r)
  {
    match r
    case MsgDetail(d) => d.contentLength
    case FileInfo(fsize, _) => fsize
    case _ => |BodyBytes(r)|
  }

  function Code(r: Answer): (int, int) {
    match r
    case Session(a, _, _) => (0, a)
    case Info(_, _, _) => (1, 1)
    case List(g, a, _) => (g, a)
    case One(g, a, _) => (g, a)
    case Bare(g, a) => (g, a)
    case ConvInfo(_, _) => (2, 4)
    case ChatInfo(_, _) => (3, 3)
    case MsgDetail(_) => (4, 1)
    case FileInfo(_, _) => (4, 6)
  }

  lemma {:induction false} HeaderFacts(status: nat, r: Answer)
    requires Fits(status, r)
    ensures var h := HeaderOf(status, r);
            && Fits(0, r) && (h.group as int, h.action as int) == Code(r)
            && h.contentType == ContentType(r) && h.contentLen == ContentLength(r) && h.bodyLen == |BodyBytes(r)|
            && h.status == status && h.count == (if r.List? then |r.ids| else 0)
  {
  }

  /** The frame `b` is the reply `r`, byte for byte. */
  ghost predicate Laid(b: seq<byte>, status: nat, r: Answer) {
    && |b| == BUFSIZ && Fits(status, r) && BodyAt(b, r)
    && (HeaderFits(status, r); b[..20] == HeaderBytes(HeaderOf(status, r)))
  }

  lemma {:induction false} HeaderBack(b: seq<byte>, h: Header)
    requires |b| == BUFSIZ && IsU32(h.contentLen) && IsU32(h.bodyLen) && IsU32(h.status) && IsU32(h.count)
    requires b[..20] == HeaderBytes(h)
    ensures ParseHeader(b) == h
  {
    var ws := [h.contentLen, h.bodyLen, h.status, h.count];
    assert b[0..20] == b[..20];
    Chunks(b, 0, [h.group, h.action, h.contentType, 0], Words(ws));
    WordsRead(b, 4, ws);
    assert ReadU32(b, 4 + 4 * 0) == ws[0] && ReadU32(b, 4 + 4 * 1) == ws[1];
    assert ReadU32(b, 4 + 4 * 2) == ws[2] && ReadU32(b, 4 + 4 * 3) == ws[3];
    assert b[0..4][0] == h.group && b[0..4][1] == h.action && b[0..4][2] == h.contentType;
  }

  lemma {:induction false} HeaderWritten(b: seq<byte>, h: Header)
    requires |b| == BUFSIZ && IsU32(h.contentLen) && IsU32(h.bodyLen) && IsU32(h.status) && IsU32(h.count)
    requires ParseHeader(b) == h && b[3] == 0
    ensures b[..20] == HeaderBytes(h)
  {
    var ws := [h.contentLen, h.bodyLen, h.status, h.count];
    WordsWritten(b, 4, ws);
    assert b[0..4] == [h.group, h.action, h.contentType, 0];
    Chunks(b, 0, [h.group, h.action, h.contentType, 0], Words(ws));
    assert b[0..20] == b[..20];
  }

  // ---- Reading it back ----

  /** One word, then a text. */
  lemma {:induction false} WordText(b: seq<byte>, o: nat, n: nat, s: Str)
    requires IsU32(n) && o + 4 + |s| <= |b| && NulFree(s) && b[o..o + |Words([n]) + s|] == Words([n]) + s
    ensures ReadU32(b, o) == n && CStr(b[o + 4..o + (4 + |s|)]) == s
  {
    Chunks(b, o, Words([n]), s);
    WordsRead(b, o, [n]);
    assert ReadU32(b, o + 4 * 0) == n;
    StringBack(b, o + 4, s);
  }

  lemma {:induction false} SessionBack(b: seq<byte>, o: nat, t: Str, n: nat)
    requires IsU32(n) && o + |t| + 4 <= |b| && b[o..o + |t + Words([n])|] == t + Words([n])
    ensures b[o..o + |t|] == t && ReadU32(b, o + |t|) == n
  {
    Chunks(b, o, t, Words([n]));
    WordsRead(b, o + |t|, [n]);
    assert ReadU32(b, o + |t| + 4 * 0) == n;
  }

  lemma {:induction false} DetailBack(b: seq<byte>, d: Detail)
    requires |b| == BUFSIZ && DetailFits(d) && BodyAt(b, MsgDetail(d))
    ensures ReadDetail(b, 30 + |d.content|) == d
  {
    var o, ws := HEADER_LEN, [d.msgId, d.from, d.replyTo, d.conv, d.chat, d.createdAt];
    var tail := Word(d.contentLength) + d.content;
    Chunks(b, o, Words(ws), [d.msgType, d.contentType] + tail);
    Chunks(b, o + 24, [d.msgType, d.contentType], tail);
    Chunks(b, o + 26, Word(d.contentLength), d.content);
    DetailWords(b, ws);
    assert b[o + 24..o + 26][0] == d.msgType && b[o + 24..o + 26][1] == d.contentType;
    WordRead(b, o + 26, d.contentLength);
    StringBack(b, o + 30, d.content);
    assert b[o + 30..o + (30 + |d.content|)] == b[o + 30..o + 30 + |d.content|];
  }

  lemma {:induction false} DetailWords(b: seq<byte>, ws: seq<nat>)
    requires |b| == BUFSIZ && |ws| == 6 && forall i :: 0 <= i < |ws| ==> IsU32(ws[i])
    requires b[HEADER_LEN..HEADER_LEN + 24] == Words(ws)
    ensures var o := HEADER_LEN;
            && ReadU32(b, o) == ws[0] && ReadU32(b, o + 4) == ws[1] && ReadU32(b, o + 8) == ws[2]
            && ReadU32(b, o + 12) == ws[3] && ReadU32(b, o + 16) == ws[4] && ReadU32(b, o + 20) == ws[5]
  {
    var o := HEADER_LEN;
    WordsRead(b, o, ws);
    assert ReadU32(b, o + 4 * 0) == ws[0] && ReadU32(b, o + 4 * 1) == ws[1] && ReadU32(b, o + 4 * 2) == ws[2];
    assert ReadU32(b, o + 4 * 3) == ws[3] && ReadU32(b, o + 4 * 4) == ws[4] && ReadU32(b, o + 4 * 5) == ws[5];
  }

  lemma {:induction false} WordsBack(b: seq<byte>, ws: seq<nat>)
    requires |b| == BUFSIZ && 4 * |ws| <= BODY_LEN && forall i :: 0 <= i < |ws| ==> IsU32(ws[i])
    requires b[HEADER_LEN..HEADER_LEN + 4 * |ws|] == Words(ws)
    ensures ReadIds(b, HEADER_LEN, |ws|) == ws
    ensures |ws| > 0 ==> ReadU32(b, HEADER_LEN) == ws[0]
    ensures |ws| > 1 ==> ReadU32(b, HEADER_LEN + 4) == ws[1]
  {
    WordsRead(b, HEADER_LEN, ws);
    assert |ws| > 0 ==> ReadU32(b, HEADER_LEN + 4 * 0) == ws[0];
    assert |ws| > 1 ==> ReadU32(b, HEADER_LEN + 4 * 1) == ws[1];
  }

  lemma {:induction false} StringBack(b: seq<byte>, k: nat, s: Str)
    requires k + |s| <= |b| && b[k..k + |s|] == s && NulFree(s)
    ensures CStr(b[k..k + |s|]) == s
  {
    CStrWhole(s, []);
    assert s + [] == s;
  }

  lemma {:induction false} InfoText(u: Str, p: Str, e: Str)
    requires Plain(u) && Plain(p) && Plain(e)
    ensures ReadUserFields(u + [DELIM] + (p + [DELIM] + e)) == UserFields(u, p, e)
  {
    var b := u + [DELIM] + (p + [DELIM] + e);
    SplitField(u, p + [DELIM] + e);
    SplitField(p, e);
    SplitPlain(e);
    assert Split(b) == [u, p, e];
    assert NulFree(b) && b[0..] == b;
    FieldIsPart(b, 0);
    FieldIsPart(b, NextField(b, 0));
    FieldIsPart(b, NextField(b, NextField(b, 0)));
  }

  /** The body of a reply read by the parser's branch for its action. */
  ghost predicate BodyReads(b: seq<byte>, r: Answer)
    requires |b| == BUFSIZ && Fits(0, r)
  {
    var o := HEADER_LEN;
    match r
    case Session(_, t, n) => b[o..o + TOKEN_LEN] == t && ReadU32(b, o + TOKEN_LEN) == n
    case Info(u, p, e) => ReadUserFields(b[o..o + (|u| + |p| + |e| + 2)]) == UserFields(u, p, e)
    case List(_, _, ids) => ReadIds(b, o, |ids|) == ids
    case One(_, _, n) => ReadU32(b, o) == n
    case Bare(_, _) => true
    case ConvInfo(n, s) => ReadU32(b, o) == n && CStr(b[o + 4..o + (4 + |s|)]) == s
    case ChatInfo(n, k) => ReadU32(b, o) == n && ReadU32(b, o + 4) == k
    case MsgDetail(d) => ReadDetail(b, 30 + |d.content|) == d
    case FileInfo(_, s) => CStr(b[o..o + |s|]) == s
  }

  lemma {:induction false} BodyBack(b: seq<byte>, r: Answer)
    requires |b| == BUFSIZ && Fits(0, r) && BodyAt(b, r)
    ensures BodyReads(b, r)
  {
    var o := HEADER_LEN;
    match r
    case Session(_, t, n) => SessionBack(b, o, t, n);
    case Info(u, p, e) => InfoText(u, p, e);
    case List(_, _, ids) => WordsBack(b, ids);
    case One(_, _, n) => WordsBack(b, [n]);
    case Bare(_, _) =>
    case ConvInfo(n, s) => WordText(b, o, n, s);
    case ChatInfo(n, k) => WordsBack(b, [n, k]);
    case MsgDetail(d) => DetailBack(b, d);
    case FileInfo(_, s) => StringBack(b, o, s);
  }

  /** Whatever the server encodes, the client parses back: status, count and
      fields, for every action the parser knows. */
  lemma {:induction false} ResponseRoundTrip(b: seq<byte>, status: nat, r: Answer)
    requires Laid(b, status, r)
    ensures LengthsOk(b) && ParseHeader(b) == HeaderOf(status, r)
    ensures ParseResponse(b) == if Unread(r) then None else Some(Parsed(HeaderOf(status, r), BodyOf(r)))
  {
    HeaderFits(status, r);
    HeaderBack(b, HeaderOf(status, r));
    BodyBack(b, r);
    AnswerKind(status, r);
    AnswerLengths(b, status, r);
    AnswerParsed(b, status, r);
  }

  lemma {:induction false} AnswerLengths(b: seq<byte>, status: nat, r: Answer)
    requires |b| == BUFSIZ && Fits(status, r) && ParseHeader(b) == HeaderOf(status, r)
    ensures LengthsOk(b)
  {
    AnswerKind(status, r);
  }

  lemma {:induction false} AnswerParsed(b: seq<byte>, status: nat, r: Answer)
    requires |b| == BUFSIZ && Fits(status, r) && Fits(0, r) && LengthsOk(b)
    requires ParseHeader(b) == HeaderOf(status, r) && BodyReads(b, r)
    ensures ParseResponse(b) == if Unread(r) then None else Some(Parsed(HeaderOf(status, r), BodyOf(r)))
  {
    AnswerKind(status, r);
    match r
    case Session(_, _, _) =>
    case Info(_, _, _) =>
    case List(_, _, _) =>
    case One(_, _, _) =>
    case Bare(_, _) =>
    case ConvInfo(_, _) =>
    case ChatInfo(_, _) =>
    case MsgDetail(_) =>
    case FileInfo(_, _) =>
  }

  /** The replies to logout and to conv drop, join and quit. */
  predicate Unread(r: Answer) {
    r.Bare? && (r.group as int, r.action as int) in {(1, 0), (2, 1), (2, 2), (2, 3)}
  }

  /** Of all replies the server encodes, NULL comes back for exactly four. */
  lemma {:induction false} NullExactly(b: seq<byte>, status: nat, r: Answer)
    requires Laid(b, status, r)
    ensures LengthsOk(b) && (ParseResponse(b).None? <==> Unread(r))
  {
    ResponseRoundTrip(b, status, r);
  }

  lemma {:induction false} AnswerKind(status: nat, r: Answer)
    requires Fits(status, r)
    ensures var h := HeaderOf(status, r);
            && (IsList(h.group, h.action) <==> r.List?) && (IsWord(h.group, h.action) <==> r.One?)
            && (IsEmpty(h.group, h.action) <==> r.Bare? && !Unread(r))
            && (Handled(h.group, h.action) <==> !Unread(r))
  {
  }

  /** Reads a reply back off what the client parses and the frame's header. */
  function Recover(h: Header, p: Option<Parsed>): Answer {
    if p.None? then Bare(h.group, h.action)
    else match p.value.body
      case Auth(t, n) => Session(h.action, t, n)
      case UserFields(u, ph, e) => Info(u, ph, e)
      case Ids(ids) => List(h.group, h.action, ids)
      case Single(n) => One(h.group, h.action, n)
      case Conv(n, s) => ConvInfo(n, s)
      case Chat(n, k) => ChatInfo(n, k)
      case Msg(d) => MsgDetail(d)
      case Nothing => Bare(h.group, h.action)
      case File(s) => FileInfo(h.contentLen, s)
  }

  /** Two different replies never share a frame. */
  lemma {:induction false} NoSharedReply(b: seq<byte>, status: nat, r: Answer, status': nat, q: Answer)
    requires Laid(b, status, r) && Laid(b, status', q)
    ensures status == status' && r == q
  {
    ResponseRoundTrip(b, status, r);
    ResponseRoundTrip(b, status', q);
    RecoverAnswer(b, status, r);
    RecoverAnswer(b, status', q);
    assert HeaderOf(status, r).status == HeaderOf(status', q).status;
  }

  lemma {:induction false} RecoverAnswer(b: seq<byte>, status: nat, r: Answer)
    requires Laid(b, status, r) && LengthsOk(b) && ParseHeader(b) == HeaderOf(status, r)
    requires ParseResponse(b) == if Unread(r) then None else Some(Parsed(HeaderOf(status, r), BodyOf(r)))
    ensures Recover(ParseHeader(b), ParseResponse(b)) == r
  {
  }

  // ---- Writing it ----

  /** make_response_header */
  method MakeResponseHeader(h: Header, res: array<byte>)
    requires res.Length == BUFSIZ && IsU32(h.contentLen) && IsU32(h.bodyLen) && IsU32(h.status) && IsU32(h.count)
    modifies res
    ensures res[..20] == HeaderBytes(h) && ParseHeader(res[..]) == h && forall i :: 20 <= i < HEADER_LEN ==> res[i] == 0
    ensures forall i :: HEADER_LEN <= i < res.Length ==> res[i] == old(res[i])
  {
    Clear(res, 0, HEADER_LEN);
    res[0] := h.group;
    res[1] := h.action;
    res[2] := h.contentType;
    WriteU32(res, 4, h.contentLen);
    WriteU32(res, 8, h.bodyLen);
    WriteU32(res, 12, h.status);
    WriteU32(res, 16, h.count);
    HeaderWritten(res[..], h);
    assert res[..][..20] == res[..20];
  }

  /** Every make_response function: the frame is the reply, so what was put in
      comes back out, unless the parser does not know the action. */
  method MakeResponse(status: nat, r: Answer, res: array<byte>)
    requires res.Length == BUFSIZ && Fits(status, r)
    modifies res
    ensures Laid(res[..], status, r) && LengthsOk(res[..])
    ensures Fits(0, r) && (res[0] as int, res[1] as int) == Code(r) && res[2] == ContentType(r)
    ensures ReadU32(res[..], 4) == ContentLength(r) && ReadU32(res[..], 8) == |BodyBytes(r)|
    ensures ReadU32(res[..], 12) == status && ReadU32(res[..], 16) == (if r.List? then |r.ids| else 0)
    ensures forall i :: 20 <= i < HEADER_LEN ==> res[i] == 0
    ensures forall i :: HEADER_LEN + |BodyBytes(r)| <= i < BUFSIZ ==> res[i] == if r.Bare? then old(res[i]) else 0
    ensures ParseResponse(res[..]) == if Unread(r) then None else Some(Parsed(HeaderOf(status, r), BodyOf(r)))
  {
    HeaderFits(status, r);
    MakeResponseHeader(HeaderOf(status, r), res);
    ghost var b := res[..20];
    if !r.Bare? {
      WriteCleared(r, res);
    }
    assert res[..][..20] == b;
    ResponseRoundTrip(res[..], status, r);
    LaidHeader(res[..], status, r);
  }

  /** What stands in the header of a reply. */
  lemma {:induction false} LaidHeader(b: seq<byte>, status: nat, r: Answer)
    requires Laid(b, status, r) && ParseHeader(b) == HeaderOf(status, r)
    ensures Fits(0, r) && (b[0] as int, b[1] as int) == Code(r) && b[2] == ContentType(r)
    ensures ReadU32(b, 4) == ContentLength(r) && ReadU32(b, 8) == |BodyBytes(r)|
    ensures ReadU32(b, 12) == status && ReadU32(b, 16) == (if r.List? then |r.ids| else 0)
  {
    HeaderFacts(status, r);
  }

  method WriteCleared(r: Answer, res: array<byte>)
    requires res.Length == BUFSIZ && Fits(0, r) && !r.Bare?
    modifies res
    ensures BodyAt(res[..], r) && forall i :: 0 <= i < HEADER_LEN ==> res[i] == old(res[i])
    ensures forall i :: HEADER_LEN + |BodyBytes(r)| <= i < BUFSIZ ==> res[i] == 0
  {
    Clear(res, HEADER_LEN, BUFSIZ);
    WriteAnswer(r, res);
  }

  method WriteAnswer(r: Answer, res: array<byte>)
    requires res.Length == BUFSIZ && Fits(0, r) && !r.Bare?
    modifies res
    ensures BodyAt(res[..], r)
    ensures forall i :: 0 <= i < BUFSIZ && !(HEADER_LEN <= i < HEADER_LEN + |BodyBytes(r)|) ==> res[i] == old(res[i])
  {
    var o := HEADER_LEN;
    match r
    case Session(_, t, n) =>
      WriteSession(t, n, res);
    case Info(u, p, e) =>
      CopyTo(res, o, u + [DELIM] + (p + [DELIM] + e));
    case List(_, _, ids) =>
      WriteIds(ids, res);
    case One(_, _, n) =>
      WriteIds([n], res);
    case ConvInfo(n, s) =>
      WriteWordText(n, s, res);
    case ChatInfo(n, k) =>
      WriteIds([n, k], res);
    case MsgDetail(d) =>
      WriteDetail(d, res);
    case FileInfo(_, s) =>
      CopyTo(res, o, s);
    case Bare(_, _) =>
  }

  method WriteSession(t: Str, n: nat, res: array<byte>)
    requires res.Length == BUFSIZ && |t| == TOKEN_LEN && IsU32(n)
    modifies res
    ensures res[HEADER_LEN..HEADER_LEN + |t + Words([n])|] == t + Words([n])
    ensures forall i :: 0 <= i < BUFSIZ && !(HEADER_LEN <= i < HEADER_LEN + |t| + 4) ==> res[i] == old(res[i])
  {
    var o := HEADER_LEN;
    CopyTo(res, o, t);
    ghost var first := res[o..o + |t|];
    WriteU32(res, o + TOKEN_LEN, n);
    assert res[..][o..o + |t|] == first;
    WordsWritten(res[..], o + TOKEN_LEN, [n]);
    Chunks(res[..], o, t, Words([n]));
    assert res[..][o..o + |t + Words([n])|] == res[o..o + |t + Words([n])|];
  }

  method WriteWordText(n: nat, s: Str, res: array<byte>)
    requires res.Length == BUFSIZ && IsU32(n) && 4 + |s| <= BODY_LEN
    modifies res
    ensures res[HEADER_LEN..HEADER_LEN + |Words([n]) + s|] == Words([n]) + s
    ensures forall i :: 0 <= i < BUFSIZ && !(HEADER_LEN <= i < HEADER_LEN + 4 + |s|) ==> res[i] == old(res[i])
  {
    var o := HEADER_LEN;
    WriteU32(res, o, n);
    CopyTo(res, o + 4, s);
    WordsWritten(res[..], o, [n]);
    assert res[..][o + 4..o + 4 + |s|] == s;
    Chunks(res[..], o, Words([n]), s);
    assert res[..][o..o + |Words([n]) + s|] == res[o..o + |Words([n]) + s|];
  }

  /** make_response_id_list, and the replies of one or two words */
  method WriteIds(ids: seq<nat>, res: array<byte>)
    requires res.Length == BUFSIZ && 4 * |ids| <= BODY_LEN && forall i :: 0 <= i < |ids| ==> IsU32(ids[i])
    modifies res
    ensures res[HEADER_LEN..HEADER_LEN + 4 * |ids|] == Words(ids)
    ensures forall i :: 0 <= i < BUFSIZ && !(HEADER_LEN <= i < HEADER_LEN + 4 * |ids|) ==> res[i] == old(res[i])
  {
    var i := 0;
    while i < |ids|
      invariant 0 <= i <= |ids|
      invariant forall k :: 0 <= k < BUFSIZ && !(HEADER_LEN <= k < HEADER_LEN + 4 * i) ==> res[k] == old(res[k])
      invariant forall k :: 0 <= k < i ==> ReadU32(res[..], HEADER_LEN + 4 * k) == ids[k]
    {
      WriteU32(res, HEADER_LEN + 4 * i, ids[i]);
      i := i + 1;
    }
    WordsWritten(res[..], HEADER_LEN, ids);
    assert res[..][HEADER_LEN..HEADER_LEN + 4 * |ids|] == res[HEADER_LEN..HEADER_LEN + 4 * |ids|];
  }

  /** make_response_msg_get_detail: six words, two bytes, a word, the text. */
  method WriteDetail(d: Detail, res: array<byte>)
    requires res.Length == BUFSIZ && DetailFits(d)
    modifies res
    ensures BodyAt(res[..], MsgDetail(d))
    ensures forall i :: 0 <= i < BUFSIZ && !(HEADER_LEN <= i < HEADER_LEN + 30 + |d.content|) ==> res[i] == old(res[i])
  {
    var o := HEADER_LEN;
    WriteDetailIds(d, res);
    ghost var ws := res[o..o + 24];
    res[o + 24] := d.msgType;
    res[o + 25] := d.contentType;
    WriteU32(res, o + 26, d.contentLength);
    CopyTo(res, o + 30, d.content);
    assert res[o..o + 24] == ws;
    DetailLaid(res[..], d);
  }

  lemma {:induction false} DetailLaid(b: seq<byte>, d: Detail)
    requires |b| == BUFSIZ && DetailFits(d)
    requires var o := HEADER_LEN;
             && b[o..o + 24] == Words([d.msgId, d.from, d.replyTo, d.conv, d.chat, d.createdAt])
             && b[o + 24] == d.msgType && b[o + 25] == d.contentType && ReadU32(b, o + 26) == d.contentLength
             && b[o + 30..o + 30 + |d.content|] == d.content
    ensures BodyAt(b, MsgDetail(d))
  {
    var o, ws := HEADER_LEN, Words([d.msgId, d.from, d.replyTo, d.conv, d.chat, d.createdAt]);
    var tail := Word(d.contentLength) + d.content;
    WordRead(b, o + 26, d.contentLength);
    Chunks(b, o + 26, Word(d.contentLength), d.content);
    assert b[o + 24..o + 26] == [d.msgType, d.contentType];
    ThreeChunks(b, o, ws, [d.msgType, d.contentType], tail);
  }

  lemma {:induction false} ThreeChunks(b: seq<byte>, o: nat, x: seq<byte>, y: seq<byte>, z: seq<byte>)
    requires o + |x| + |y| + |z| <= |b| && b[o..o + |x|] == x
    requires b[o + |x|..o + |x| + |y|] == y && b[o + |x| + |y|..o + |x| + |y| + |z|] == z
    ensures b[o..o + |x + (y + z)|] == x + (y + z)
  {
    Chunks(b, o + |x|, y, z);
    Chunks(b, o, x, y + z);
  }

  method WriteDetailIds(d: Detail, res: array<byte>)
    requires res.Length == BUFSIZ && DetailFits(d)
    modifies res
    ensures res[HEADER_LEN..HEADER_LEN + 24] == Words([d.msgId, d.from, d.replyTo, d.conv, d.chat, d.createdAt])
    ensures forall i :: 0 <= i < BUFSIZ && !(HEADER_LEN <= i < HEADER_LEN + 24) ==> res[i] == old(res[i])
  {
    var o := HEADER_LEN;
    WriteU32(res, o, d.msgId);
    WriteU32(res, o + 4, d.from);
    WriteU32(res, o + 8, d.replyTo);
    WriteU32(res, o + 12, d.conv);
    WriteU32(res, o + 16, d.chat);
    WriteU32(res, o + 20, d.createdAt);
    WordsWritten(res[..], o, [d.msgId, d.from, d.replyTo, d.conv, d.chat, d.createdAt]);
    assert res[..][o..o + 24] == res[o..o + 24];
  }

  // ---- Error replies ----

  /** make_err_response: a header without lengths; the body is left as it was. */
  method MakeErrResponse(status: nat, group: byte, action: byte, res: array<byte>)
    requires res.Length == BUFSIZ && IsU32(status)
    modifies res
    ensures ParseHeader(res[..]) == Header(group, action, 0, 0, 0, status, 0)
    ensures forall i :: HEADER_LEN <= i < res.Length ==> res[i] == old(res[i])
  {
    Clear(res, 0, HEADER_LEN);
    res[0] := group;
    res[1] := action;
    WriteU32(res, 12, status);
  }

  /** An error reply can be parsed for every action but two, for which the
      parser would subtract 4 or 30 from a body length of 0. Where the action is
      known the client gets the status, and no ids or text. */
  lemma {:induction false} ErrorReplies(b: seq<byte>, status: nat, group: byte, action: byte)
    requires |b| == BUFSIZ && ParseHeader(b) == Header(group, action, 0, 0, 0, status, 0)
    ensures LengthsOk(b) <==> (group as int, action as int) !in {(2, 4), (4, 1)}
    ensures LengthsOk(b) ==>
              && (ParseResponse(b).Some? <==> Handled(group, action))
              && (ParseResponse(b).Some? ==>
                    var p := ParseResponse(b).value;
                    && p.header.status == status && p.header.count == 0
                    && (p.body.Ids? ==> p.body.ids == [])
                    && (p.body.UserFields? ==> p.body == UserFields([], [], []))
                    && (p.body.File? ==> p.body.fname == []))
  {
    assert b[HEADER_LEN..HEADER_LEN] == [];
  }
}
