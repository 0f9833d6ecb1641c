/** The INSERT statements whose texts come from clients: the columns they name,
    their text up to the values, and the rows the values make. */
module SqlInserts {
  import opened Bytes
  import opened ChatModel
  import opened SqlSchema
  import T = SqlText

  /** The columns an INSERT names, in its order. */
  function Columns(t: Table): seq<string>
    requires t == Users || t == Convs || t == Messages
  {
    match t
    case Users => ["uname", "password", "phone", "email"]
    case Convs => ["admin_id", "name"]
    case Messages =>
      ["from_uid", "reply_to", "content_type", "content_length", "content", "created_at", "chat_id", "conv_id", "type"]
  }

  function Joined(names: seq<string>, sep: string): string
    requires names != []
  {
    if |names| == 1 then names[0] else names[0] + sep + Joined(names[1..], sep)
  }

  /** What precedes the values in the INSERT into a table. */
  function Head(t: Table): Str
    requires t == Users || t == Convs || t == Messages
  {
    match t
    case Users => T.Ascii("INSERT INTO users(" + Joined(Columns(t), ", ") + ") VALUES (")
    case Convs => T.Ascii("INSERT INTO conversations(" + Joined(Columns(t), ",") + ") VALUES(")
    case Messages => T.Ascii("INSERT INTO messages(" + Joined(Columns(t), ", ") + ") VALUES (")
  }

  function HeadLength(t: Table): nat {
    if t == Users then USER_HEAD else if t == Convs then CONV_HEAD else MSG_HEAD
  }

  lemma {:induction false} HeadCounted(t: Table)
    requires t == Users || t == Convs || t == Messages
    ensures |Head(t)| == HeadLength(t)
  {
    match t
    case Users => FourNames(Columns(t), ", ");
    case Convs => assert Columns(t)[1..] == ["name"];
    case Messages =>
      assert Columns(t)[5..] == ["created_at", "chat_id", "conv_id", "type"];
      FourNames(Columns(t)[5..], ", ");
      NineNames(Columns(t), ", ");
  }

  lemma {:induction false} FourNames(names: seq<string>, sep: string)
    requires |names| == 4
    ensures |Joined(names, sep)| == |names[0]| + |names[1]| + |names[2]| + |names[3]| + 3 * |sep|
  {
    assert |Joined(names[3..], sep)| == |names[3]|;
    assert |Joined(names[2..], sep)| == |names[2]| + |sep| + |Joined(names[3..], sep)|;
    assert |Joined(names[1..], sep)| == |names[1]| + |sep| + |Joined(names[2..], sep)|;
  }

  lemma {:induction false} NineNames(names: seq<string>, sep: string)
    requires |names| == 9
    ensures |Joined(names, sep)| == |names[0]| + |names[1]| + |names[2]| + |names[3]| + |names[4]| + 5 * |sep|
                                    + |Joined(names[5..], sep)|
  {
    assert |Joined(names[4..], sep)| == |names[4]| + |sep| + |Joined(names[5..], sep)|;
    assert |Joined(names[3..], sep)| == |names[3]| + |sep| + |Joined(names[4..], sep)|;
    assert |Joined(names[2..], sep)| == |names[2]| + |sep| + |Joined(names[3..], sep)|;
    assert |Joined(names[1..], sep)| == |names[1]| + |sep| + |Joined(names[2..], sep)|;
  }

  // ---- From values to rows ----

  /** The value an INSERT gives a column. */
  function ValueOf(names: seq<string>, x: seq<T.Value>, name: string): T.Value
    requires |x| == |names|
  {
    if names == [] then T.Null else if names[0] == name then x[0] else ValueOf(names[1..], x[1..], name)
  }

  function TextOf(v: T.Value): Str {
    if v.Text? then v.s else []
  }

  function NumOf(v: T.Value): nat {
    if v.Num? then v.n else 0
  }

  function RefOf(v: T.Value): Ref {
    if v.Num? then Id(v.n) else Null
  }

  function UserOf(x: seq<T.Value>): User
    requires |x| == 4
  {
    var c := Columns(Users);
    User(TextOf(ValueOf(c, x, "uname")), TextOf(ValueOf(c, x, "password")),
         TextOf(ValueOf(c, x, "phone")), TextOf(ValueOf(c, x, "email")))
  }

  function ConvOf(x: seq<T.Value>): Conv
    requires |x| == 2
  {
    var c := Columns(Convs);
    Conv(NumOf(ValueOf(c, x, "admin_id")), TextOf(ValueOf(c, x, "name")))
  }

  function MsgOf(x: seq<T.Value>): Msg
    requires |x| == 9
  {
    var c := Columns(Messages);
    Msg(NumOf(ValueOf(c, x, "from_uid")), RefOf(ValueOf(c, x, "reply_to")), NumOf(ValueOf(c, x, "content_type")),
        NumOf(ValueOf(c, x, "content_length")), TextOf(ValueOf(c, x, "content")), NumOf(ValueOf(c, x, "created_at")),
        RefOf(ValueOf(c, x, "chat_id")), RefOf(ValueOf(c, x, "conv_id")),
        if ValueOf(c, x, "type") == T.Num(0) then Sent else if ValueOf(c, x, "type") == T.Num(1) then Delivered else Deleted)
  }

  lemma {:induction false} ValueAt(names: seq<string>, x: seq<T.Value>, k: nat)
    requires |x| == |names| && k < |names| && forall i :: 0 <= i < k ==> names[i] != names[k]
    ensures ValueOf(names, x, names[k]) == x[k]
  {
    if k > 0 {
      assert names[0] != names[k];
      ValueAt(names[1..], x[1..], k - 1);
    }
  }

  lemma {:induction false} Apart(a: string, b: string, i: nat)
    requires i < |a| && i < |b| && a[i] != b[i]
    ensures a != b
  {
  }

  lemma {:induction false} UserThere(x: User)
    ensures UserOf(UserValues(x)) == x && |UserValues(x)| == 4
  {
    var c, v := Columns(Users), UserValues(x);
    Apart("phone", "email", 0);
    Apart("uname", "phone", 0);
    Apart("uname", "email", 0);
    ValueAt(c, v, 0);
    ValueAt(c, v, 1);
    ValueAt(c, v, 2);
    ValueAt(c, v, 3);
  }

  lemma {:induction false} ConvThere(x: Conv)
    ensures ConvOf(ConvValues(x)) == x && |ConvValues(x)| == 2
  {
    var c, v := Columns(Convs), ConvValues(x);
    ValueAt(c, v, 0);
    ValueAt(c, v, 1);
  }

  /** Columns of the same length differ in some character. */
  lemma {:induction false} MsgColumns()
    ensures var c := Columns(Messages); forall i, j :: 0 <= i < j < 9 ==> c[i] != c[j]
  {
    Apart("from_uid", "reply_to", 0);
    Apart("content", "chat_id", 1);
    Apart("content", "conv_id", 3);
    Apart("chat_id", "conv_id", 1);
  }

  lemma {:induction false} MsgThere(m: Msg)
    requires T.QuoteFree(m.content) && m.kind == Sent
    ensures T.AllQuoteFree(MsgValues(m)) && |MsgValues(m)| == 9 && MsgOf(MsgValues(m)) == m
  {
    var c, v := Columns(Messages), MsgValues(m);
    MsgColumns();
    ValueAt(c, v, 0);
    ValueAt(c, v, 1);
    ValueAt(c, v, 2);
    ValueAt(c, v, 3);
    ValueAt(c, v, 4);
    ValueAt(c, v, 5);
    ValueAt(c, v, 6);
    ValueAt(c, v, 7);
    ValueAt(c, v, 8);
  }
}
