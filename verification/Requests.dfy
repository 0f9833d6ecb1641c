/** request.c: fixed frames of BUFSIZ bytes, a 64-byte header and a body whose
    layout depends on the action. */
module Requests {
  import opened Bytes
  import opened Collections

  const HEADER_LEN := 64
  const BODY_LEN := BUFSIZ - HEADER_LEN
  const TOKEN_LEN := 16

  datatype Header = Header(group: byte, action: byte, contentType: byte, contentLen: nat, bodyLen: nat,
                           token: Str, userId: nat, limit: int, offset: int)

  /** The parsed body; the union's unset fields are zero or None. */
  datatype Body =
    | Auth(uname: Str, password: Str, phone: Option<Str>, email: Option<Str>)
    | User(userId: nat, name: Option<Str>)
    | Conv(convId: nat, memberId: nat, gname: Option<Str>)
    | Chat(chatId: nat, userId2: nat)
    | Msg(conv: nat, chat: nat, msgId: nat, replyId: nat, content: Option<Str>)

  datatype Parsed = Parsed(header: Header, body: Body)

  // ---- request_parse ----

  function ParseHeader(b: seq<byte>): Header
    requires |b| == BUFSIZ
  {
    Header(b[0], b[1], b[2], ReadU32(b, 4), ReadU32(b, 8), b[16..32],
           ReadU32(b, 32), Signed(ReadU32(b, 36)), Signed(ReadU32(b, 40)))
  }

  /** The lengths the parser trusts: it copies body_len bytes without a check,
      and for a message body_len - 12. */
  predicate LengthsOk(b: seq<byte>)
    requires |b| == BUFSIZ
  {
    var h := ParseHeader(b);
    h.bodyLen <= BODY_LEN && (h.group == 4 && h.action == 2 ==> h.bodyLen >= 12)
  }

  function ParseRequest(b: seq<byte>): Option<Parsed>
    requires |b| == BUFSIZ && LengthsOk(b)
  {
    var h := ParseHeader(b);
    var body := ParseBody(h, b[HEADER_LEN..]);
    if body.None? then None else Some(Parsed(h, body.value))
  }

  function ParseBody(h: Header, body: seq<byte>): Option<Body>
    requires |body| == BODY_LEN && h.bodyLen <= BODY_LEN
    requires h.group == 4 && h.action == 2 ==> h.bodyLen >= 12
  {
    if h.group == 0 then ParseAuth(h.action, body[..h.bodyLen])
    else if h.group == 1 then
      if h.action == 0 then Some(User(0, None))
      else if h.action == 1 then Some(User(ReadU32(body, 0), None))
      else if h.action == 2 then Some(User(0, Some(CStr(body[..h.bodyLen]))))
      else None
    else if h.group == 2 then
      if h.action == 0 then Some(Conv(0, 0, Some(CStr(body[..h.bodyLen]))))
      else if h.action in {1, 4, 5} then Some(Conv(ReadU32(body, 0), 0, None))
      else if h.action in {2, 3} then Some(Conv(ReadU32(body, 0), ReadU32(body, 4), None))
      else if h.action == 6 then Some(Conv(0, 0, None))
      else None
    else if h.group == 3 then
      if h.action == 0 then Some(Chat(0, ReadU32(body, 0)))
      else if h.action in {1, 3} then Some(Chat(ReadU32(body, 0), 0))
      else if h.action == 2 then Some(Chat(0, 0))
      else None
    else if h.group == 4 then
      if h.action in {0, 5} then Some(Msg(ReadU32(body, 0), ReadU32(body, 4), 0, 0, None))
      else if h.action in {1, 3, 6} then Some(Msg(0, 0, ReadU32(body, 0), 0, None))
      else if h.action == 2 then
        Some(Msg(ReadU32(body, 0), ReadU32(body, 4), 0, ReadU32(body, 8), Some(CStr(body[12..h.bodyLen]))))
      else if h.action == 4 then Some(Msg(0, 0, 0, 0, None))
      else None
    else None
  }

  /** What request_parse_auth makes of a body (its bytes up to body_len). */
  function ParseAuth(action: byte, b: seq<byte>): Option<Body> {
    var i1 := NextField(b, 0);
    var i2 := NextField(b, i1);
    if action == 1 then Some(Auth(Field(b, 0), Field(b, i1), None, None))
    else if action != 0 then None
    else
      var i3 := NextField(b, i2);
      var emailLen := |b| - |Field(b, 0)| - |Field(b, i1)| - |Field(b, i2)| - 3;
      if emailLen < 0 then None
      else
        // the NUL written behind the email also ends a phone that shares its start
        var phone := if i3 == i2 then Cut(Field(b, i2), emailLen) else Field(b, i2);
        Some(Auth(Field(b, 0), Field(b, i1), Some(phone), Some(Cut(Field(b, i3), emailLen))))
  }

  function Cut(s: Str, n: nat): Str {
    if n < |s| then s[..n] else s
  }

  /** A register body without NUL is accepted iff it has three delimiters; its
      fields are then its parts, the email ending at a fourth delimiter. */
  lemma {:induction false} RegisterAccepts(b: seq<byte>)
    requires NulFree(b)
    ensures ParseAuth(0, b).Some? <==> Count(b) >= 3
    ensures Count(b) >= 3 ==>
              var p := Split(b);
              |p| >= 4 && ParseAuth(0, b) == Some(Auth(p[0], p[1], Some(p[2]), Some(p[3])))
  {
    var i1 := NextField(b, 0);
    var i2 := NextField(b, i1);
    var i3 := NextField(b, i2);
    SplitCount(b);
    assert b[0..] == b;
    FieldIsPart(b, 0);
    FieldIsPart(b, i1);
    FieldIsPart(b, i2);
    FieldIsPart(b, i3);
  }

  /** A login body: two parts, or the same one twice. */
  lemma {:induction false} LoginFields(b: seq<byte>)
    requires NulFree(b)
    ensures var p := Split(b);
            ParseAuth(1, b) == Some(Auth(p[0], if |p| > 1 then p[1] else p[0], None, None))
  {
    assert b[0..] == b;
    FieldIsPart(b, 0);
    FieldIsPart(b, NextField(b, 0));
  }

  /** The C string `s` stands at position `i` of the buffer. */
  ghost predicate StrAt(a: seq<byte>, i: nat, s: Str) {
    && i + |s| < |a| && a[i + |s|] == 0 && NulFree(s)
    && forall k :: 0 <= k < |s| ==> a[i + k] == s[k]
  }

  lemma {:induction false} StrAtCStr(a: seq<byte>, i: nat, s: Str)
    requires StrAt(a, i, s)
    ensures CStr(a[i..]) == s
  {
    assert a[i..] == s + a[i + |s|..];
    CStrWhole(s, a[i + |s|..]);
  }

  /** field_tokenizer: `rest` moves past the next delimiter, which becomes NUL;
      without one nothing changes. `a` holds the body `b` and its final NUL. */
  method FieldTokenizer(a: array<byte>, start: nat, ghost b: seq<byte>) returns (rest: nat)
    requires start < a.Length == |b| + 1 && |b| <= BODY_LEN && a[|b|] == 0
    requires forall i :: start <= i < |b| ==> a[i] == b[i]
    modifies a
    ensures rest == NextField(b, start) && rest < a.Length && a[|b|] == 0
    ensures forall i :: rest <= i < |b| ==> a[i] == b[i]
    ensures forall i :: 0 <= i < start ==> a[i] == old(a[i])
    ensures StrAt(a[..], start, Field(b, start))
  {
    rest := start;
    var p := start;
    while a[p] != 0 && p - start <= BODY_LEN
      invariant start <= p <= |b| && FieldEnd(b, start) == FieldEnd(b, p)
      invariant rest == start && a[..] == old(a[..])
      decreases |b| - p
    {
      if a[p] == DELIM {
        rest := p + 1;
        a[p] := 0;
        break;
      }
      p := p + 1;
    }
    assert p == FieldEnd(b, start) && Field(b, start) == b[start..p];
  }

  /** request_parse_auth, tokenizing a private copy of the body in place. */
  method RequestParseAuth(action: byte, body: seq<byte>) returns (r: Option<Body>)
    requires |body| <= BODY_LEN
    ensures r == ParseAuth(action, body)
  {
    var a := new byte[|body| + 1];
    CopyTo(a, 0, body);
    a[|body|] := 0;
    assert forall i :: 0 <= i < |body| ==> a[i] == a[0..|body|][i] == body[i];
    var rest := FieldTokenizer(a, 0, body);
    var password := rest;
    rest := FieldTokenizer(a, rest, body);
    TwoFields(a[..], body);
    var unameStr, passwordStr := CStr(a[0..]), CStr(a[password..]);
    if action == 0 {
      r := ParsePhoneEmail(a, rest, unameStr, passwordStr, body);
    } else if action != 1 {
      return None;
    } else {
      r := Some(Auth(unameStr, passwordStr, None, None));
    }
  }

  lemma {:induction false} TwoFields(a: seq<byte>, b: seq<byte>)
    requires |a| == |b| + 1
    requires var i1 := NextField(b, 0);
             StrAt(a, i1, Field(b, i1)) && (i1 > 0 ==> StrAt(a, 0, Field(b, 0)))
    ensures CStr(a[0..]) == Field(b, 0) && CStr(a[NextField(b, 0)..]) == Field(b, NextField(b, 0))
  {
    StrAtCStr(a, 0, Field(b, 0));
    StrAtCStr(a, NextField(b, 0), Field(b, NextField(b, 0)));
  }

  method ParsePhoneEmail(a: array<byte>, start: nat, uname: Str, password: Str, ghost b: seq<byte>)
      returns (r: Option<Body>)
    requires |b| <= BODY_LEN && a.Length == |b| + 1 && a[|b|] == 0
    requires start == NextField(b, NextField(b, 0)) && forall i :: start <= i < |b| ==> a[i] == b[i]
    requires uname == Field(b, 0) && password == Field(b, NextField(b, 0))
    modifies a
    ensures r == ParseAuth(0, b)
  {
    var phone := start;
    var email := TokenizeTwo(a, phone, b);
    ghost var phoneStr, emailStr := Field(b, phone), Field(b, email);
    StrAtCStr(a[..], phone, phoneStr);
    var emailLen := (a.Length - 1) - |uname| - |password| - |CStr(a[phone..])| - 3;
    if emailLen < 0 {
      return None;
    }
    var phoneText, emailText := CutEmail(a, phone, email, emailLen, phoneStr, emailStr);
    r := Some(Auth(uname, password, Some(phoneText), Some(emailText)));
  }

  /** The NUL behind the email, and then the two strings. */
  method CutEmail(a: array<byte>, phone: nat, email: nat, n: nat, ghost phoneStr: Str, ghost emailStr: Str)
      returns (phoneText: Str, emailText: Str)
    requires StrAt(a[..], phone, phoneStr) && StrAt(a[..], email, emailStr) && email + n < a.Length
    requires if email == phone then phoneStr == emailStr else phone + |phoneStr| < email
    modifies a
    ensures phoneText == (if email == phone then Cut(phoneStr, n) else phoneStr) && emailText == Cut(emailStr, n)
  {
    ghost var s := a[..];
    a[email + n] := 0;
    PhoneEmailStrings(s, a[..], phone, email, phoneStr, emailStr, n);
    phoneText, emailText := CStr(a[phone..]), CStr(a[email..]);
  }

  /** Phone and email in place: the second call may leave `rest` unmoved. */
  method TokenizeTwo(a: array<byte>, phone: nat, ghost b: seq<byte>) returns (email: nat)
    requires phone < a.Length == |b| + 1 && |b| <= BODY_LEN && a[|b|] == 0
    requires forall i :: phone <= i < |b| ==> a[i] == b[i]
    modifies a
    ensures email == NextField(b, phone) && email < a.Length
    ensures StrAt(a[..], phone, Field(b, phone)) && StrAt(a[..], email, Field(b, email))
    ensures if email == phone then Field(b, phone) == Field(b, email) else phone + |Field(b, phone)| < email
  {
    email := FieldTokenizer(a, phone, b);
    var rest := FieldTokenizer(a, email, b);
  }

  lemma {:induction false} PhoneEmailStrings(s: seq<byte>, s': seq<byte>, phone: nat, email: nat, phoneStr: Str, emailStr: Str, n: nat)
    requires StrAt(s, phone, phoneStr) && StrAt(s, email, emailStr)
    requires email + n < |s| && s' == s[email + n := 0]
    requires if email == phone then phoneStr == emailStr else phone + |phoneStr| < email
    ensures CStr(s'[phone..]) == if email == phone then Cut(phoneStr, n) else phoneStr
    ensures CStr(s'[email..]) == Cut(emailStr, n)
  {
    StrAtCStr(s', email, Cut(emailStr, n));
    if email != phone {
      StrAtCStr(s', phone, phoneStr);
    }
  }

  // ---- make_request_* ----

  /** One constructor for each make_request function. */
  datatype Cmd =
    | Logout
    | GetUser(user2: nat)
    | SearchUser(uname: Str, limit: int, offset: int)
    | ConvCreate(gname: Str)
    | ConvDrop(conv: nat)
    | ConvJoin(conv: nat, user2: nat)
    | ConvQuit(conv: nat, user2: nat)
    | ConvInfo(conv: nat)
    | ConvMembers(conv: nat)
    | ConvList(limit: int, offset: int)
    | ChatCreate(user2: nat)
    | ChatDelete(chat: nat)
    | ChatList(limit: int, offset: int)
    | ChatInfo(chat: nat)
    | MsgAll(limit: int, offset: int, conv: nat, chat: nat)
    | MsgDetail(msg: nat)
    | SendText(conv: nat, chat: nat, reply: nat, text: Str)
    | SendFile(conv: nat, chat: nat, reply: nat, fsize: nat, fname: Str)
    | MsgDelete(msg: nat)
    | NotifyNew
    | NotifyDel(conv: nat, chat: nat)
    | Download(msg: nat)

  datatype Call =
    | Register(uname: Str, password: Str, phone: Str, email: Str)
    | Login(uname: Str, password: Str)
    | As(token: Str, uid: nat, cmd: Cmd)

  const EMPTY_TOKEN: Str := [6, 6, 6, 6, 6, 6, 6, 6, 6, 6, 6, 6, 6, 6, 6, 6]

  function JoinTwo(a: Str, b: Str): Str {
    a + [DELIM] + b
  }

  function HeaderOf(r: Call): Header {
    match r
    case Register(u, p, ph, e) =>
      var n := |u| + |p| + |ph| + |e| + 3;
      Header(0, 0, 0, n, n, EMPTY_TOKEN, 0, -1, -1)
    case Login(u, p) => Header(0, 1, 0, |u| + |p| + 1, |u| + |p| + 1, EMPTY_TOKEN, 0, -1, -1)
    case As(token, uid, cmd) =>
      match cmd
      case Logout => Header(1, 0, 0, 0, 0, token, uid, -1, -1)
      case GetUser(_) => Header(1, 1, 0, 4, 4, token, uid, -1, -1)
      case SearchUser(s, limit, offset) => Header(1, 2, 0, |s|, |s|, token, uid, limit, offset)
      case ConvCreate(s) => Header(2, 0, 0, |s|, |s|, token, uid, -1, -1)
      case ConvDrop(_) => Header(2, 1, 0, 4, 4, token, uid, -1, -1)
      case ConvJoin(_, _) => Header(2, 2, 0, 4, 4, token, uid, -1, -1)
      case ConvQuit(_, _) => Header(2, 3, 0, 4, 4, token, uid, -1, -1)
      case ConvInfo(_) => Header(2, 4, 0, 4, 4, token, uid, -1, -1)
      case ConvMembers(_) => Header(2, 5, 0, 4, 4, token, uid, -1, -1)
      case ConvList(limit, offset) => Header(2, 6, 0, 0, 0, token, uid, limit, offset)
      case ChatCreate(_) => Header(3, 0, 0, 4, 4, token, uid, -1, -1)
      case ChatDelete(_) => Header(3, 1, 0, 4, 4, token, uid, -1, -1)
      case ChatList(limit, offset) => Header(3, 2, 0, 0, 0, token, uid, limit, offset)
      case ChatInfo(_) => Header(3, 3, 0, 4, 4, token, uid, -1, -1)
      case MsgAll(limit, offset, _, _) => Header(4, 0, 0, 8, 8, token, uid, limit, offset)
      case MsgDetail(_) => Header(4, 1, 0, 4, 4, token, uid, -1, -1)
      case SendText(_, _, _, s) => Header(4, 2, 0, 12 + |s|, 12 + |s|, token, uid, -1, -1)
      case SendFile(_, _, _, fsize, s) => Header(4, 2, 1, fsize, 12 + |s|, token, uid, -1, -1)
      case MsgDelete(_) => Header(4, 3, 0, 4, 4, token, uid, -1, -1)
      case NotifyNew => Header(4, 4, 0, 0, 0, token, uid, -1, -1)
      case NotifyDel(_, _) => Header(4, 5, 0, 0, 0, token, uid, -1, -1)
      case Download(_) => Header(4, 6, 0, 4, 4, token, uid, -1, -1)
  }

  /** What the body holds: some words, then some bytes. */
  datatype Layout = Layout(clear: bool, words: seq<nat>, text: Str)

  function LayoutOf(r: Call): Layout {
    match r
    case Register(u, p, ph, e) => Layout(true, [], JoinTwo(u, JoinTwo(p, JoinTwo(ph, e))))
    case Login(u, p) => Layout(true, [], JoinTwo(u, p) + [DELIM])
    case As(_, _, cmd) =>
      match cmd
      case Logout => Layout(false, [], [])
      case GetUser(n) => Layout(true, [n], [])
      case SearchUser(s, _, _) => Layout(true, [], s)
      case ConvCreate(s) => Layout(true, [], s)
      case ConvDrop(n) => Layout(true, [n], [])
      case ConvJoin(n, k) => Layout(true, [n, k], [])
      case ConvQuit(n, k) => Layout(true, [n, k], [])
      case ConvInfo(n) => Layout(true, [n], [])
      case ConvMembers(n) => Layout(true, [n], [])
      case ConvList(_, _) => Layout(false, [], [])
      case ChatCreate(n) => Layout(true, [n], [])
      case ChatDelete(n) => Layout(true, [n], [])
      case ChatList(_, _) => Layout(false, [], [])
      case ChatInfo(n) => Layout(true, [n], [])
      case MsgAll(_, _, n, k) => Layout(true, [n, k], [])
      case MsgDetail(n) => Layout(true, [n], [])
      case SendText(n, k, j, s) => Layout(true, [n, k, j], s)
      case SendFile(n, k, j, _, s) => Layout(true, [n, k, j], s)
      case MsgDelete(n) => Layout(true, [n], [])
      case NotifyNew => Layout(false, [], [])
      case NotifyDel(n, k) => Layout(true, [n, k], [])
      case Download(n) => Layout(true, [n], [])
  }

  /** What the server is meant to get out of the frame. */
  function BodyOf(r: Call): Body {
    match r
    case Register(u, p, ph, e) => Auth(u, p, Some(ph), Some(e))
    case Login(u, p) => Auth(u, p, None, None)
    case As(_, _, cmd) =>
      match cmd
      case Logout => User(0, None)
      case GetUser(n) => User(n, None)
      case SearchUser(s, _, _) => User(0, Some(s))
      case ConvCreate(s) => Conv(0, 0, Some(s))
      case ConvDrop(n) => Conv(n, 0, None)
      case ConvJoin(n, k) => Conv(n, k, None)
      case ConvQuit(n, k) => Conv(n, k, None)
      case ConvInfo(n) => Conv(n, 0, None)
      case ConvMembers(n) => Conv(n, 0, None)
      case ConvList(_, _) => Conv(0, 0, None)
      case ChatCreate(n) => Chat(0, n)
      case ChatDelete(n) => Chat(n, 0)
      case ChatList(_, _) => Chat(0, 0)
      case ChatInfo(n) => Chat(n, 0)
      case MsgAll(_, _, n, k) => Msg(n, k, 0, 0, None)
      case MsgDetail(n) => Msg(0, 0, n, 0, None)
      case SendText(n, k, j, s) => Msg(n, k, 0, j, Some(s))
      case SendFile(n, k, j, _, s) => Msg(n, k, 0, j, Some(s))
      case MsgDelete(n) => Msg(0, 0, n, 0, None)
      case NotifyNew => Msg(0, 0, 0, 0, None)
      case NotifyDel(n, k) => Msg(n, k, 0, 0, None)
      case Download(n) => Msg(0, 0, n, 0, None)
  }

  /** Arguments that fit their C types and the frame. */
  predicate Fits(r: Call) {
    && HeaderFits(HeaderOf(r))
    && (forall i :: 0 <= i < |LayoutOf(r).words| ==> IsU32(LayoutOf(r).words[i]))
    && 4 * |LayoutOf(r).words| + |LayoutOf(r).text| <= BODY_LEN
    && match r
       case Register(u, p, ph, e) => Plain(u) && Plain(p) && Plain(ph) && Plain(e)
       case Login(u, p) => Plain(u) && Plain(p)
       case As(_, _, _) => NulFree(LayoutOf(r).text)
  }

  predicate HeaderFits(h: Header) {
    && IsU32(h.contentLen) && IsU32(h.bodyLen) && IsU32(h.userId) && |h.token| == TOKEN_LEN
    && IsI32(h.limit) && IsI32(h.offset)
  }

  // ---- What a request looks like on the wire ----

  /** Every header field at its place in the frame, byte for byte. */
  ghost predicate HeaderAt(b: seq<byte>, h: Header)
    requires |b| == BUFSIZ && HeaderFits(h)
  {
    && b[0] == h.group && b[1] == h.action && b[2] == h.contentType
    && b[4..8] == Word(h.contentLen) && b[8..12] == Word(h.bodyLen) && b[16..32] == h.token
    && b[32..36] == Word(h.userId) && b[36..40] == Word(Unsigned(h.limit)) && b[40..44] == Word(Unsigned(h.offset))
  }

  /** The bytes of the header that no field uses are zero. */
  ghost predicate Unused(b: seq<byte>)
    requires |b| == BUFSIZ
  {
    b[3] == 0 && (forall i :: 12 <= i < 16 ==> b[i] == 0) && forall i :: 44 <= i < HEADER_LEN ==> b[i] == 0
  }

  /** The calls without a body leave that part of the buffer as it was. */
  predicate Bodyless(r: Call) {
    r.As? && (r.cmd.Logout? || r.cmd.ConvList? || r.cmd.ChatList? || r.cmd.NotifyNew?)
  }

  /** Whatever the frame, the parser's header is what stands at those places. */
  lemma {:induction false} HeaderPlaces(b: seq<byte>)
    requires |b| == BUFSIZ
    ensures HeaderFits(ParseHeader(b)) && HeaderAt(b, ParseHeader(b))
  {
    var h := ParseHeader(b);
    SignedBack(ReadU32(b, 36));
    SignedBack(ReadU32(b, 40));
    WordRead(b, 4, h.contentLen);
    WordRead(b, 8, h.bodyLen);
    WordRead(b, 32, h.userId);
    WordRead(b, 36, Unsigned(h.limit));
    WordRead(b, 40, Unsigned(h.offset));
  }

  lemma {:induction false} SignedBack(n: nat)
    requires IsU32(n)
    ensures IsI32(Signed(n)) && Unsigned(Signed(n)) == n
  {
  }

  lemma {:induction false} HeaderBack(b: seq<byte>, h: Header)
    requires |b| == BUFSIZ && HeaderFits(h) && HeaderAt(b, h)
    ensures ParseHeader(b) == h
  {
    SignedUnsigned(h.limit);
    SignedUnsigned(h.offset);
    WordRead(b, 4, h.contentLen);
    WordRead(b, 8, h.bodyLen);
    WordRead(b, 32, h.userId);
    WordRead(b, 36, Unsigned(h.limit));
    WordRead(b, 40, Unsigned(h.offset));
  }

  /** The body's bytes, field by field. */
  function BodyBytes(r: Call): seq<byte>
    requires Fits(r)
  {
    WordsFit(r);
    match r
    case Register(u, p, ph, e) => u + [DELIM] + (p + [DELIM] + (ph + [DELIM] + e))
    case Login(u, p) => u + [DELIM] + p + [DELIM]
    case As(_, _, cmd) =>
      match cmd
      case Logout => []
      case GetUser(user2) => Word(user2)
      case SearchUser(uname, _, _) => uname
      case ConvCreate(gname) => gname
      case ConvDrop(conv) => Word(conv)
      case ConvJoin(conv, user2) => Word(conv) + Word(user2)
      case ConvQuit(conv, user2) => Word(conv) + Word(user2)
      case ConvInfo(conv) => Word(conv)
      case ConvMembers(conv) => Word(conv)
      case ConvList(_, _) => []
      case ChatCreate(user2) => Word(user2)
      case ChatDelete(chat) => Word(chat)
      case ChatList(_, _) => []
      case ChatInfo(chat) => Word(chat)
      case MsgAll(_, _, conv, chat) => Word(conv) + Word(chat)
      case MsgDetail(msg) => Word(msg)
      case SendText(conv, chat, reply, text) => Word(conv) + Word(chat) + Word(reply) + text
      case SendFile(conv, chat, reply, _, fname) => Word(conv) + Word(chat) + Word(reply) + fname
      case MsgDelete(msg) => Word(msg)
      case NotifyNew => []
      case NotifyDel(conv, chat) => Word(conv) + Word(chat)
      case Download(msg) => Word(msg)
  }

  /** The ids a call carries are 32-bit words. */
  lemma {:induction false} WordsFit(r: Call)
    requires Fits(r)
    ensures |LayoutOf(r).words| > 0 ==> IsU32(LayoutOf(r).words[0])
    ensures |LayoutOf(r).words| > 1 ==> IsU32(LayoutOf(r).words[1])
    ensures |LayoutOf(r).words| > 2 ==> IsU32(LayoutOf(r).words[2])
  {
  }

  /** The frame `b` is the request `r`, byte for byte. */
  ghost predicate Laid(b: seq<byte>, r: Call) {
    && |b| == BUFSIZ && Fits(r) && HeaderAt(b, HeaderOf(r))
    && HEADER_LEN + |BodyBytes(r)| <= |b| && b[HEADER_LEN..HEADER_LEN + |BodyBytes(r)|] == BodyBytes(r)
  }

  lemma {:induction false} LayoutBytes(r: Call)
    requires Fits(r)
    ensures Words(LayoutOf(r).words) + LayoutOf(r).text == BodyBytes(r)
  {
    var ws, text := LayoutOf(r).words, LayoutOf(r).text;
    LayoutParts(r);
    if |ws| == 1 {
      OneWord(ws[0]);
      assert ws == [ws[0]] && Words(ws) + [] == Words(ws);
    } else if |ws| == 2 {
      TwoWords(ws[0], ws[1]);
      assert ws == [ws[0], ws[1]] && Words(ws) + [] == Words(ws);
    } else if |ws| == 3 {
      ThreeWords(ws[0], ws[1], ws[2]);
      assert ws == [ws[0], ws[1], ws[2]];
    } else {
      assert Words(ws) + text == text;
    }
  }

  /** The words and the text, side by side, are the bytes. */
  lemma {:induction false} LayoutParts(r: Call)
    requires Fits(r)
    ensures var ws, text := LayoutOf(r).words, LayoutOf(r).text;
            && |ws| <= 3 && (1 <= |ws| <= 2 ==> text == [])
            && (|ws| == 0 ==> BodyBytes(r) == text) && (|ws| == 1 ==> BodyBytes(r) == Word(ws[0]))
            && (|ws| == 2 ==> BodyBytes(r) == Word(ws[0]) + Word(ws[1]))
            && (|ws| == 3 ==> BodyBytes(r) == Word(ws[0]) + Word(ws[1]) + Word(ws[2]) + text)
  {
  }

  lemma {:induction false} OneWord(a: nat)
    requires IsU32(a)
    ensures Words([a]) == Word(a)
  {
    assert Word(a) + [] == Word(a) && [a][1..] == [];
  }

  lemma {:induction false} TwoWords(a: nat, b: nat)
    requires IsU32(a) && IsU32(b)
    ensures Words([a, b]) == Word(a) + Word(b)
  {
    OneWord(b);
    assert [a, b][1..] == [b];
  }

  lemma {:induction false} ThreeWords(a: nat, b: nat, c: nat)
    requires IsU32(a) && IsU32(b) && IsU32(c)
    ensures Words([a, b, c]) == Word(a) + Word(b) + Word(c)
  {
    TwoWords(b, c);
    assert [a, b, c][1..] == [b, c];
    assert Word(a) + (Word(b) + Word(c)) == Word(a) + Word(b) + Word(c);
  }

  /** What the lengths, the page and the kind in the header are. Joins, quits
      and notify-deleted count fewer bytes than they write. */
  lemma {:induction false} HeaderFacts(r: Call)
    requires Fits(r)
    ensures var h := HeaderOf(r);
            && (if r.As? then h.token == r.token && h.userId == r.uid else h.token == EMPTY_TOKEN && h.userId == 0)
            && (h.contentType == 1 <==> r.As? && r.cmd.SendFile?) && h.contentType <= 1
            && h.contentLen == (if h.contentType == 1 then r.cmd.fsize else h.bodyLen)
            && h.bodyLen == (if r.Login? then |BodyBytes(r)| - 1
                             else if r.As? && (r.cmd.ConvJoin? || r.cmd.ConvQuit?) then 4
                             else if r.As? && r.cmd.NotifyDel? then 0 else |BodyBytes(r)|)
            && (if r.As? && (r.cmd.SearchUser? || r.cmd.ConvList? || r.cmd.ChatList? || r.cmd.MsgAll?)
                then h.limit == r.cmd.limit && h.offset == r.cmd.offset else h.limit == -1 && h.offset == -1)
  {
  }

  /** The header and the body as the parser's branches read them. */
  ghost predicate Placed(b: seq<byte>, h: Header, words: seq<nat>, text: Str) {
    && |b| == BUFSIZ && ParseHeader(b) == h
    && 4 * |words| + |text| <= BODY_LEN
    && (forall i :: 0 <= i < |words| ==> ReadU32(b, HEADER_LEN + 4 * i) == words[i])
    && b[HEADER_LEN + 4 * |words|..HEADER_LEN + 4 * |words| + |text|] == text
  }

  /** The same facts about the body alone. */
  ghost predicate BodyLaid(body: seq<byte>, words: seq<nat>, text: Str) {
    && |body| == BODY_LEN && 4 * |words| + |text| <= BODY_LEN
    && (|words| > 0 ==> ReadU32(body, 0) == words[0])
    && (|words| > 1 ==> ReadU32(body, 4) == words[1])
    && (|words| > 2 ==> ReadU32(body, 8) == words[2])
    && body[4 * |words|..4 * |words| + |text|] == text
  }

  lemma {:induction false} LaidBody(b: seq<byte>, h: Header, words: seq<nat>, text: Str)
    requires Placed(b, h, words, text)
    ensures BodyLaid(b[HEADER_LEN..], words, text)
  {
    var body, k := b[HEADER_LEN..], 4 * |words|;
    assert body[k..k + |text|] == b[HEADER_LEN + k..HEADER_LEN + k + |text|];
    assert |words| > 0 ==> ReadU32(b, HEADER_LEN + 4 * 0) == words[0];
    assert |words| > 1 ==> ReadU32(b, HEADER_LEN + 4 * 1) == words[1];
    assert |words| > 2 ==> ReadU32(b, HEADER_LEN + 4 * 2) == words[2];
    ReadShift(b, HEADER_LEN, 0);
    ReadShift(b, HEADER_LEN, 4);
    ReadShift(b, HEADER_LEN, 8);
  }

  lemma {:induction false} RegisterRoundTrip(body: seq<byte>, u: Str, p: Str, ph: Str, e: Str)
    requires Fits(Register(u, p, ph, e)) && BodyLaid(body, [], LayoutOf(Register(u, p, ph, e)).text)
    ensures ParseBody(HeaderOf(Register(u, p, ph, e)), body) == Some(Auth(u, p, Some(ph), Some(e)))
  {
    WholeBody(body, LayoutOf(Register(u, p, ph, e)).text, HeaderOf(Register(u, p, ph, e)));
    RegisterText(u, p, ph, e);
  }

  lemma {:induction false} WholeBody(body: seq<byte>, text: Str, h: Header)
    requires BodyLaid(body, [], text) && h.group == 0 && h.bodyLen == |text|
    ensures ParseBody(h, body) == ParseAuth(h.action, text)
  {
    assert body[..|text|] == text;
  }

  lemma {:induction false} LoginRoundTrip(body: seq<byte>, u: Str, p: Str)
    requires Fits(Login(u, p)) && BodyLaid(body, [], LayoutOf(Login(u, p)).text)
    ensures ParseBody(HeaderOf(Login(u, p)), body) == Some(Auth(u, p, None, None))
  {
    var text := JoinTwo(u, p);
    assert body[..|text| + 1] == text + [DELIM];
    assert body[..|text|] == body[..|text| + 1][..|text|] == text;
    LoginText(u, p);
  }

  lemma {:induction false} CmdRoundTrip(body: seq<byte>, token: Str, uid: nat, cmd: Cmd)
    requires Fits(As(token, uid, cmd))
    requires var lay := LayoutOf(As(token, uid, cmd)); BodyLaid(body, lay.words, lay.text)
    ensures ParseBody(HeaderOf(As(token, uid, cmd)), body) == Some(BodyOf(As(token, uid, cmd)))
  {
    var lay := LayoutOf(As(token, uid, cmd));
    if cmd.SearchUser? || cmd.ConvCreate? || cmd.SendText? || cmd.SendFile? {
      TextCStr(body, 4 * |lay.words|, lay.text);
      TextCmdRoundTrip(body, token, uid, cmd);
    } else {
      WordCmdRoundTrip(body, token, uid, cmd);
    }
  }

  lemma {:induction false} TextCmdRoundTrip(body: seq<byte>, token: Str, uid: nat, cmd: Cmd)
    requires Fits(As(token, uid, cmd)) && (cmd.SearchUser? || cmd.ConvCreate? || cmd.SendText? || cmd.SendFile?)
    requires var lay := LayoutOf(As(token, uid, cmd));
             && BodyLaid(body, lay.words, lay.text)
             && CStr(body[4 * |lay.words|..4 * |lay.words| + |lay.text|]) == lay.text
             && (lay.words == [] ==> CStr(body[..|lay.text|]) == lay.text)
    ensures ParseBody(HeaderOf(As(token, uid, cmd)), body) == Some(BodyOf(As(token, uid, cmd)))
  {
  }

  lemma {:induction false} WordCmdRoundTrip(body: seq<byte>, token: Str, uid: nat, cmd: Cmd)
    requires Fits(As(token, uid, cmd)) && !(cmd.SearchUser? || cmd.ConvCreate? || cmd.SendText? || cmd.SendFile?)
    requires var lay := LayoutOf(As(token, uid, cmd)); BodyLaid(body, lay.words, lay.text)
    ensures ParseBody(HeaderOf(As(token, uid, cmd)), body) == Some(BodyOf(As(token, uid, cmd)))
  {
    match cmd
    case _ =>
  }

  lemma {:induction false} TextCStr(body: seq<byte>, k: nat, s: Str)
    requires k + |s| <= |body| && body[k..k + |s|] == s && NulFree(s)
    ensures CStr(body[k..k + |s|]) == s && (k == 0 ==> CStr(body[..|s|]) == s)
  {
    CStrWhole(s, []);
    assert s + [] == s;
    assert k == 0 ==> body[..|s|] == body[k..k + |s|];
  }

  /** Whatever the client encodes, the server parses back: header and fields. */
  lemma {:induction false} RequestRoundTrip(b: seq<byte>, r: Call)
    requires Laid(b, r)
    ensures LengthsOk(b) && ParseRequest(b) == Some(Parsed(HeaderOf(r), BodyOf(r)))
  {
    LaidPlaced(b, r);
    assert BodyLaid(b[HEADER_LEN..], LayoutOf(r).words, LayoutOf(r).text) by {
      LaidBody(b, HeaderOf(r), LayoutOf(r).words, LayoutOf(r).text);
    }
    LengthsFit(r);
    assert ParseBody(HeaderOf(r), b[HEADER_LEN..]) == Some(BodyOf(r)) by {
      match r
      case Register(u, p, ph, e) => RegisterRoundTrip(b[HEADER_LEN..], u, p, ph, e);
      case Login(u, p) => LoginRoundTrip(b[HEADER_LEN..], u, p);
      case As(token, uid, cmd) => CmdRoundTrip(b[HEADER_LEN..], token, uid, cmd);
    }
  }

  lemma {:induction false} LaidPlaced(b: seq<byte>, r: Call)
    requires Laid(b, r)
    ensures Placed(b, HeaderOf(r), LayoutOf(r).words, LayoutOf(r).text)
  {
    HeaderBack(b, HeaderOf(r));
    LayoutBytes(r);
    BytesPlaced(b, LayoutOf(r).words, LayoutOf(r).text);
  }

  lemma {:induction false} BytesPlaced(b: seq<byte>, ws: seq<nat>, text: Str)
    requires |b| == BUFSIZ && 4 * |ws| + |text| <= BODY_LEN && forall i :: 0 <= i < |ws| ==> IsU32(ws[i])
    requires b[HEADER_LEN..HEADER_LEN + |Words(ws) + text|] == Words(ws) + text
    ensures forall i :: 0 <= i < |ws| ==> ReadU32(b, HEADER_LEN + 4 * i) == ws[i]
    ensures b[HEADER_LEN + 4 * |ws|..HEADER_LEN + 4 * |ws| + |text|] == text
  {
    Chunks(b, HEADER_LEN, Words(ws), text);
    WordsRead(b, HEADER_LEN, ws);
  }

  lemma {:induction false} LengthsFit(r: Call)
    requires Fits(r)
    ensures var h := HeaderOf(r);
            h.bodyLen <= BODY_LEN && (h.group == 4 && h.action == 2 ==> h.bodyLen >= 12)
  {
  }

  lemma {:induction false} RegisterText(u: Str, p: Str, ph: Str, e: Str)
    requires Plain(u) && Plain(p) && Plain(ph) && Plain(e)
    ensures ParseAuth(0, JoinTwo(u, JoinTwo(p, JoinTwo(ph, e)))) == Some(Auth(u, p, Some(ph), Some(e)))
  {
    var b := JoinTwo(u, JoinTwo(p, JoinTwo(ph, e)));
    FourParts(u, p, ph, e);
    SplitCount(b);
    RegisterAccepts(b);
  }

  lemma {:induction false} FourParts(u: Str, p: Str, ph: Str, e: Str)
    requires Plain(u) && Plain(p) && Plain(ph) && Plain(e)
    ensures var b := JoinTwo(u, JoinTwo(p, JoinTwo(ph, e))); NulFree(b) && Split(b) == [u, p, ph, e]
  {
    SplitField(u, JoinTwo(p, JoinTwo(ph, e)));
    SplitField(p, JoinTwo(ph, e));
    SplitField(ph, e);
    SplitPlain(e);
  }

  lemma {:induction false} LoginText(u: Str, p: Str)
    requires Plain(u) && Plain(p)
    ensures ParseAuth(1, JoinTwo(u, p)) == Some(Auth(u, p, None, None))
  {
    SplitField(u, p);
    SplitPlain(p);
    assert Split(JoinTwo(u, p)) == [u, p];
    LoginFields(JoinTwo(u, p));
  }

  /** Reads a call back off a parsed request. */
  function Recover(p: Parsed): Call {
    var h, b := p.header, p.body;
    match b
    case Auth(u, pw, Some(ph), Some(e)) => Register(u, pw, ph, e)
    case Auth(u, pw, _, _) => Login(u, pw)
    case User(n, s) =>
      As(h.token, h.userId,
         if h.action == 0 then Logout
         else if s.Some? then SearchUser(s.value, h.limit, h.offset) else GetUser(n))
    case Conv(n, k, s) =>
      As(h.token, h.userId,
         if s.Some? then ConvCreate(s.value)
         else if h.action == 1 then ConvDrop(n)
         else if h.action == 2 then ConvJoin(n, k)
         else if h.action == 3 then ConvQuit(n, k)
         else if h.action == 4 then ConvInfo(n)
         else if h.action == 5 then ConvMembers(n)
         else ConvList(h.limit, h.offset))
    case Chat(n, k) =>
      As(h.token, h.userId,
         if h.action == 0 then ChatCreate(k)
         else if h.action == 1 then ChatDelete(n)
         else if h.action == 2 then ChatList(h.limit, h.offset)
         else ChatInfo(n))
    case Msg(n, k, m, j, s) =>
      As(h.token, h.userId,
         if s.Some? && h.contentType == 0 then SendText(n, k, j, s.value)
         else if s.Some? then SendFile(n, k, j, h.contentLen, s.value)
         else if h.action == 0 then MsgAll(h.limit, h.offset, n, k)
         else if h.action == 1 then MsgDetail(m)
         else if h.action == 3 then MsgDelete(m)
         else if h.action == 4 then NotifyNew
         else if h.action == 5 then NotifyDel(n, k)
         else Download(m))
  }

  lemma {:induction false} RecoverCall(r: Call)
    ensures Recover(Parsed(HeaderOf(r), BodyOf(r))) == r
  {
  }

  /** Two different requests never share a frame. */
  lemma {:induction false} NoSharedEncoding(b: seq<byte>, r: Call, q: Call)
    requires Laid(b, r) && Laid(b, q)
    ensures r == q
  {
    assert Parsed(HeaderOf(r), BodyOf(r)) == Parsed(HeaderOf(q), BodyOf(q)) by {
      RequestRoundTrip(b, r);
      RequestRoundTrip(b, q);
    }
    RecoverCall(r);
    RecoverCall(q);
  }

  /** make_request_header */
  method MakeRequestHeader(h: Header, res: array<byte>)
    requires res.Length == BUFSIZ && HeaderFits(h)
    modifies res
    ensures HeaderAt(res[..], h) && ParseHeader(res[..]) == h && Unused(res[..])
    ensures forall i :: HEADER_LEN <= i < res.Length ==> res[i] == old(res[i])
  {
    PutHeader(h, res);
    HeaderPlaces(res[..]);
  }

  method PutHeader(h: Header, res: array<byte>)
    requires res.Length == BUFSIZ && HeaderFits(h)
    modifies res
    ensures ParseHeader(res[..]) == h && Unused(res[..])
    ensures forall i :: HEADER_LEN <= i < res.Length ==> res[i] == old(res[i])
  {
    SignedUnsigned(h.limit);
    SignedUnsigned(h.offset);
    Clear(res, 0, HEADER_LEN);
    res[0] := h.group;
    res[1] := h.action;
    res[2] := h.contentType;
    WriteU32(res, 4, h.contentLen);
    WriteU32(res, 8, h.bodyLen);
    CopyTo(res, 16, h.token);
    WriteU32(res, 32, h.userId);
    WriteU32(res, 36, Unsigned(h.limit));
    WriteU32(res, 40, Unsigned(h.offset));
    assert res[..][16..32] == res[16..32] == h.token;
  }

  lemma {:induction false} HeaderFrame(b: seq<byte>, c: seq<byte>, h: Header)
    requires |b| == |c| == BUFSIZ && HeaderFits(h) && HeaderAt(b, h)
    requires forall i :: 0 <= i < HEADER_LEN ==> b[i] == c[i]
    ensures HeaderAt(c, h) && (Unused(b) ==> Unused(c))
  {
    assert b[4..8] == c[4..8] && b[8..12] == c[8..12] && b[16..32] == c[16..32];
    assert b[32..36] == c[32..36] && b[36..40] == c[36..40] && b[40..44] == c[40..44];
  }

  /** Header, cleared body, words, bytes: every make_request function. The frame
      is the request byte for byte, and so it parses back. */
  method MakeRequest(r: Call, res: array<byte>)
    requires res.Length == BUFSIZ && Fits(r)
    modifies res
    ensures Laid(res[..], r) && Unused(res[..])
    ensures forall i :: HEADER_LEN + |BodyBytes(r)| <= i < BUFSIZ ==> res[i] == if Bodyless(r) then old(res[i]) else 0
    ensures LengthsOk(res[..]) && ParseRequest(res[..]) == Some(Parsed(HeaderOf(r), BodyOf(r)))
  {
    MakeRequestHeader(HeaderOf(r), res);
    ghost var b := res[..];
    WriteBody(LayoutOf(r), res);
    HeaderFrame(b, res[..], HeaderOf(r));
    LayoutBytes(r);
    ClearsUnlessBodyless(r);
    RequestRoundTrip(res[..], r);
  }

  lemma {:induction false} ClearsUnlessBodyless(r: Call)
    ensures LayoutOf(r).clear <==> !Bodyless(r)
  {
  }

  method WriteBody(lay: Layout, res: array<byte>)
    requires res.Length == BUFSIZ && 4 * |lay.words| + |lay.text| <= BODY_LEN
    requires forall i :: 0 <= i < |lay.words| ==> IsU32(lay.words[i])
    modifies res
    ensures forall k :: 0 <= k < HEADER_LEN ==> res[k] == old(res[k])
    ensures var body := Words(lay.words) + lay.text;
            && res[..][HEADER_LEN..HEADER_LEN + |body|] == body
            && forall i :: HEADER_LEN + |body| <= i < BUFSIZ ==> res[i] == if lay.clear then 0 else old(res[i])
  {
    if lay.clear {
      Clear(res, HEADER_LEN, BUFSIZ);
    }
    WriteWords(lay.words, res);
    var o := HEADER_LEN + 4 * |lay.words|;
    ghost var words := res[..][HEADER_LEN..o];
    CopyTo(res, o, lay.text);
    assert res[..][HEADER_LEN..o] == words && res[..][o..o + |lay.text|] == lay.text;
    Chunks(res[..], HEADER_LEN, Words(lay.words), lay.text);
  }

  method WriteWords(words: seq<nat>, res: array<byte>)
    requires res.Length == BUFSIZ && 4 * |words| <= BODY_LEN && forall i :: 0 <= i < |words| ==> IsU32(words[i])
    modifies res
    ensures res[..][HEADER_LEN..HEADER_LEN + 4 * |words|] == Words(words)
    ensures forall k :: 0 <= k < BUFSIZ && !(HEADER_LEN <= k < HEADER_LEN + 4 * |words|) ==> res[k] == old(res[k])
  {
    var i := 0;
    while i < |words|
      invariant 0 <= i <= |words|
      invariant forall k :: 0 <= k < BUFSIZ && !(HEADER_LEN <= k < HEADER_LEN + 4 * i) ==> res[k] == old(res[k])
      invariant forall k :: 0 <= k < i ==> ReadU32(res[..], HEADER_LEN + 4 * k) == words[k]
    {
      WriteU32(res, HEADER_LEN + 4 * i, words[i]);
      i := i + 1;
    }
    WordsWritten(res[..], HEADER_LEN, words);
  }
}
