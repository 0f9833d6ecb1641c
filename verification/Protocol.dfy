/** The codes on the wire: handle_req's dispatch table against the encoders of
    request.c and response.c. */
module Protocol {
  import opened Bytes
  import opened Collections
  import Q = Requests
  import R = Responses
  import M = ChatModel

  /** The handlers of handle_req. */
  datatype Handler =
    | AuthRegister | AuthLogin
    | UserLogout | UserGetInfo | UserSearch
    | ConvCreate | ConvDrop | ConvJoin | ConvQuit | ConvGetInfo | ConvGetMembers | ConvGetList
    | ChatCreate | ChatDrop | ChatGetList | ChatGetInfo
    | MsgGetAll | MsgGetDetail | MsgSend | MsgDelete | NotifyNewMsg | NotifyDelMsg | MsgDownloadFile

  function Dispatched(group: int, action: int): Option<Handler> {
    match group
    case 0 =>
      (match action case 0 => Some(AuthRegister) case 1 => Some(AuthLogin) case _ => None)
    case 1 =>
      (match action
       case 0 => Some(UserLogout) case 1 => Some(UserGetInfo) case 2 => Some(UserSearch) case _ => None)
    case 2 =>
      (match action
       case 0 => Some(ConvCreate) case 1 => Some(ConvDrop) case 2 => Some(ConvJoin) case 3 => Some(ConvQuit)
       case 4 => Some(ConvGetInfo) case 5 => Some(ConvGetMembers) case 6 => Some(ConvGetList) case _ => None)
    case 3 =>
      (match action
       case 0 => Some(ChatCreate) case 1 => Some(ChatDrop) case 2 => Some(ChatGetList) case 3 => Some(ChatGetInfo)
       case _ => None)
    case 4 =>
      (match action
       case 0 => Some(MsgGetAll) case 1 => Some(MsgGetDetail) case 2 => Some(MsgSend) case 3 => Some(MsgDelete)
       case 4 => Some(NotifyNewMsg) case 5 => Some(NotifyDelMsg) case 6 => Some(MsgDownloadFile) case _ => None)
    case _ => None
  }

  /** The handler a call is meant for. */
  function Meant(r: Q.Call): Handler {
    match r
    case Register(_, _, _, _) => AuthRegister
    case Login(_, _) => AuthLogin
    case As(_, _, cmd) =>
      match cmd
      case Logout => UserLogout
      case GetUser(_) => UserGetInfo
      case SearchUser(_, _, _) => UserSearch
      case ConvCreate(_) => ConvCreate
      case ConvDrop(_) => ConvDrop
      case ConvJoin(_, _) => ConvJoin
      case ConvQuit(_, _) => ConvQuit
      case ConvInfo(_) => ConvGetInfo
      case ConvMembers(_) => ConvGetMembers
      case ConvList(_, _) => ConvGetList
      case ChatCreate(_) => ChatCreate
      case ChatDelete(_) => ChatDrop
      case ChatList(_, _) => ChatGetList
      case ChatInfo(_) => ChatGetInfo
      case MsgAll(_, _, _, _) => MsgGetAll
      case MsgDetail(_) => MsgGetDetail
      case SendText(_, _, _, _) => MsgSend
      case SendFile(_, _, _, _, _) => MsgSend
      case MsgDelete(_) => MsgDelete
      case NotifyNew => NotifyNewMsg
      case NotifyDel(_, _) => NotifyDelMsg
      case Download(_) => MsgDownloadFile
  }

  /** Every encoded request reaches the handler it is meant for. */
  lemma {:induction false} ReachesHandler(b: seq<byte>, r: Q.Call)
    requires Q.Laid(b, r)
    ensures Dispatched(b[0], b[1]) == Some(Meant(r))
  {
    Coded(r);
  }

  lemma {:induction false} Coded(r: Q.Call)
    ensures Dispatched(Q.HeaderOf(r).group, Q.HeaderOf(r).action) == Some(Meant(r))
  {
  }

  /** What the handlers that change the tables take from a parsed request. */
  function Taken(p: Q.Parsed, now: nat, fail: nat): Option<M.Req> {
    var h, b := p.header, p.body;
    match Dispatched(h.group, h.action)
    case Some(ConvCreate) => if b.Conv? && b.gname.Some? then Some(M.ConvCreate(b.gname.value, fail)) else None
    case Some(ConvDrop) => if b.Conv? then Some(M.ConvDrop(b.convId, fail)) else None
    case Some(ConvJoin) => if b.Conv? then Some(M.ConvJoin(b.convId, b.memberId)) else None
    case Some(ConvQuit) => if b.Conv? then Some(M.ConvQuit(b.convId, b.memberId)) else None
    case Some(ChatCreate) => if b.Chat? then Some(M.ChatCreate(b.userId2)) else None
    case Some(ChatDrop) => if b.Chat? then Some(M.ChatDrop(b.chatId, fail)) else None
    case Some(MsgSend) =>
      if b.Msg? && b.content.Some?
      then Some(M.MsgSend(b.conv, b.chat, b.replyId, h.contentType, h.contentLen, b.content.value, now)) else None
    case Some(MsgDelete) => if b.Msg? then Some(M.MsgDelete(b.msgId)) else None
    case Some(MsgGetDetail) => if b.Msg? then Some(M.MsgFetch(b.msgId)) else None
    case _ => None
  }

  /** What the client asked for. */
  function Asked(cmd: Q.Cmd, now: nat, fail: nat): Option<M.Req> {
    match cmd
    case ConvCreate(gname) => Some(M.ConvCreate(gname, fail))
    case ConvDrop(conv) => Some(M.ConvDrop(conv, fail))
    case ConvJoin(conv, user2) => Some(M.ConvJoin(conv, user2))
    case ConvQuit(conv, user2) => Some(M.ConvQuit(conv, user2))
    case ChatCreate(user2) => Some(M.ChatCreate(user2))
    case ChatDelete(chat) => Some(M.ChatDrop(chat, fail))
    case SendText(conv, chat, reply, text) => Some(M.MsgSend(conv, chat, reply, M.MSG_TEXT, 12 + |text|, text, now))
    case SendFile(conv, chat, reply, fsize, fname) => Some(M.MsgSend(conv, chat, reply, M.MSG_FILE, fsize, fname, now))
    case MsgDelete(msg) => Some(M.MsgDelete(msg))
    case MsgDetail(msg) => Some(M.MsgFetch(msg))
    case _ => None
  }

  /** From the client's call to the server's step: what is asked for is what is
      done, for the user who asks. */
  lemma {:induction false} AskedIsTaken(b: seq<byte>, token: Str, u: nat, cmd: Q.Cmd, now: nat, fail: nat)
    requires Q.Laid(b, Q.As(token, u, cmd))
    ensures Q.LengthsOk(b) && Q.ParseRequest(b).Some?
    ensures var p := Q.ParseRequest(b).value;
            p.header.userId == u && p.header.token == token && Taken(p, now, fail) == Asked(cmd, now, fail)
  {
    Q.RequestRoundTrip(b, Q.As(token, u, cmd));
    Coded(Q.As(token, u, cmd));
  }

  /** The reply a handler makes when all goes well. */
  predicate Replies(h: Handler, a: R.Answer) {
    match h
    case AuthRegister => a.Session? && a.action == 0
    case AuthLogin => a.Session? && a.action == 1
    case UserLogout => a == R.Bare(1, 0)
    case UserGetInfo => a.Info?
    case UserSearch => a.List? && a.group == 1 && a.action == 2
    case ConvCreate => a.One? && a.group == 2 && a.action == 0
    case ConvDrop => a == R.Bare(2, 1)
    case ConvJoin => a == R.Bare(2, 2)
    case ConvQuit => a == R.Bare(2, 3)
    case ConvGetInfo => a.ConvInfo?
    case ConvGetMembers => a.List? && a.group == 2 && a.action == 5
    case ConvGetList => a.List? && a.group == 2 && a.action == 6
    case ChatCreate => a.One? && a.group == 3 && a.action == 0
    case ChatDrop => a == R.Bare(3, 1)
    case ChatGetList => a.List? && a.group == 3 && a.action == 2
    case ChatGetInfo => a.ChatInfo?
    case MsgGetAll => a.List? && a.group == 4 && a.action == 0
    case MsgGetDetail => a.MsgDetail?
    case MsgSend => a.One? && a.group == 4 && a.action == 2
    case MsgDelete => a == R.Bare(4, 3)
    case NotifyNewMsg => a.List? && a.group == 4 && a.action == 4
    case NotifyDelMsg => a.List? && a.group == 4 && a.action == 5
    case MsgDownloadFile => a.FileInfo?
  }

  /** A reply carries the codes of the request it answers. */
  lemma {:induction false} SameCodes(r: Q.Call, status: nat, a: R.Answer)
    requires R.Fits(status, a) && Replies(Meant(r), a)
    ensures R.HeaderOf(status, a).group == Q.HeaderOf(r).group && R.HeaderOf(status, a).action == Q.HeaderOf(r).action
  {
    Coded(r);
  }
}
