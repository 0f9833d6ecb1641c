/** The text of sql.c's INSERT statements: snprintf writes the values into a
    buffer of fixed size, SQLite reads the text back. Numbers are decimal, 0
    stands for NULL where a column may be NULL, and strings are pasted between
    apostrophes as they are. */
module SqlText {
  import opened Bytes
  import opened Collections

  const QUERY_SMALL := 512
  const QUERY_LARGE := BUFSIZ

  const QUOTE: byte := 0x27
  const COMMA: byte := 0x2C
  const SPACE: byte := 0x20
  const CLOSE: byte := 0x29
  const SEMICOLON: byte := 0x3B
  const NULL_WORD: Str := [0x4E, 0x55, 0x4C, 0x4C]

  function Ascii(s: string): Str {
    seq(|s|, i requires 0 <= i < |s| => (s[i] as int) % 256)
  }

  datatype Value = Null | Num(n: nat) | Text(s: Str)

  predicate QuoteFree(s: Str) {
    QUOTE !in s
  }

  predicate AllQuoteFree(vs: seq<Value>) {
    forall i :: 0 <= i < |vs| && vs[i].Text? ==> QuoteFree(vs[i].s)
  }

  // ---- Writing ----

  function Dec(n: nat): (d: Str)
    ensures |d| > 0
  {
    if n < 10 then [0x30 + n] else Dec(n / 10) + [0x30 + n % 10]
  }

  /** Base ten, the highest digit first. */
  lemma {:induction false} DecTen()
    ensures Dec(1204) == Ascii("1204")
  {
    assert Dec(1) == [0x31] && Dec(12) == Dec(1) + [0x32] && Dec(120) == Dec(12) + [0x30];
  }

  function Show(v: Value): Str {
    match v
    case Null => NULL_WORD
    case Num(n) => Dec(n)
    case Text(s) => [QUOTE] + s + [QUOTE]
  }

  /** The values with ", " between them. */
  function ShowAll(vs: seq<Value>): Str
    requires vs != []
  {
    if |vs| == 1 then Show(vs[0]) else Show(vs[0]) + ([COMMA, SPACE] + ShowAll(vs[1..]))
  }

  function Statement(head: Str, vs: seq<Value>): Str
    requires vs != []
  {
    head + (ShowAll(vs) + [CLOSE, SEMICOLON])
  }

  /** snprintf into `size` bytes: the last one is for the NUL. */
  function Printed(s: Str, size: nat): Str
    requires size > 0
  {
    if |s| < size then s else s[..size - 1]
  }

  // ---- Reading ----

  predicate IsDigit(b: byte) {
    0x30 <= b <= 0x39
  }

  /** A maximal run of digits, read on after the value `acc`. */
  function ReadDec(acc: nat, s: Str): (nat, Str)
    decreases |s|
  {
    if s != [] && IsDigit(s[0]) then ReadDec(10 * acc + (s[0] - 0x30), s[1..]) else (acc, s)
  }

  /** The rest of a string literal: an apostrophe ends it, two stand for one. */
  function ReadLiteral(s: Str): Option<(Str, Str)> {
    if s == [] then None
    else if s[0] != QUOTE then
      match ReadLiteral(s[1..])
      case None => None
      case Some((v, rest)) => Some(([s[0]] + v, rest))
    else if |s| > 1 && s[1] == QUOTE then
      match ReadLiteral(s[2..])
      case None => None
      case Some((v, rest)) => Some(([QUOTE] + v, rest))
    else Some(([], s[1..]))
  }

  function ReadValue(s: Str): Option<(Value, Str)> {
    if s == [] then None
    else if s[0] == QUOTE then
      match ReadLiteral(s[1..])
      case None => None
      case Some((v, rest)) => Some((Text(v), rest))
    else if IsDigit(s[0]) then
      var r := ReadDec(0, s);
      Some((Num(r.0), r.1))
    else if NULL_WORD <= s then Some((Null, s[4..]))
    else None
  }

  /** Values up to the closing parenthesis; the semicolon may be missing. */
  function ReadValues(s: Str): Option<seq<Value>>
    decreases |s|
  {
    match ReadValue(s)
    case None => None
    case Some((v, rest)) =>
      ReadShorter(s);
      if rest == [CLOSE] || rest == [CLOSE, SEMICOLON] then Some([v])
      else if |rest| >= 2 && rest[..2] == [COMMA, SPACE] then
        match ReadValues(rest[2..])
        case None => None
        case Some(vs) => Some([v] + vs)
      else None
  }

  function ReadInsert(head: Str, s: Str): Option<seq<Value>> {
    if head <= s then ReadValues(s[|head|..]) else None
  }

  lemma {:induction false} LiteralShorter(s: Str)
    ensures ReadLiteral(s).Some? ==> |ReadLiteral(s).value.1| < |s|
  {
    if s != [] && s[0] != QUOTE {
      LiteralShorter(s[1..]);
    } else if |s| > 1 && s[1] == QUOTE {
      LiteralShorter(s[2..]);
    }
  }

  lemma {:induction false} DecShorter(acc: nat, s: Str)
    ensures |ReadDec(acc, s).1| <= |s|
    decreases |s|
  {
    if s != [] && IsDigit(s[0]) {
      DecShorter(10 * acc + (s[0] - 0x30), s[1..]);
    }
  }

  lemma {:induction false} ReadShorter(s: Str)
    ensures ReadValue(s).Some? ==> |ReadValue(s).value.1| <= |s|
  {
    if s != [] && s[0] == QUOTE {
      LiteralShorter(s[1..]);
    } else if s != [] && IsDigit(s[0]) {
      DecShorter(0, s);
    }
  }

  // ---- What is written is read back ----

  /** Nothing that would go on with a number or a literal. */
  predicate Stops(s: Str) {
    s == [] || (!IsDigit(s[0]) && s[0] != QUOTE)
  }

  function Pow10(k: nat): nat {
    if k == 0 then 1 else 10 * Pow10(k - 1)
  }

  lemma {:induction false} DecRead(acc: nat, n: nat, rest: Str)
    requires Stops(rest)
    ensures ReadDec(acc, Dec(n) + rest) == (acc * Pow10(|Dec(n)|) + n, rest)
    decreases n
  {
    DecReadMore(acc, n, rest);
  }

  /** Reading the digits of `n` and going on with what follows. */
  lemma {:induction false} DecReadMore(acc: nat, n: nat, rest: Str)
    ensures ReadDec(acc, Dec(n) + rest) == ReadDec(acc * Pow10(|Dec(n)|) + n, rest)
    decreases n
  {
    if n < 10 {
      assert (Dec(n) + rest)[1..] == rest;
      assert Pow10(1) == 10 * Pow10(0);
    } else {
      var d: byte := 0x30 + n % 10;
      var a := acc * Pow10(|Dec(n / 10)|) + n / 10;
      assert Dec(n) + rest == Dec(n / 10) + ([d] + rest);
      DecReadMore(acc, n / 10, [d] + rest);
      DigitRead(a, n % 10, rest);
      Shifted(acc, Pow10(|Dec(n / 10)|), n);
    }
  }

  lemma {:induction false} DigitRead(a: nat, d: nat, rest: Str)
    requires d < 10
    ensures ReadDec(a, [0x30 + d] + rest) == ReadDec(10 * a + d, rest)
  {
    assert ([0x30 + d] + rest)[1..] == rest;
  }

  lemma {:induction false} Shifted(acc: nat, p: nat, n: nat)
    ensures 10 * (acc * p + n / 10) + n % 10 == acc * (10 * p) + n
  {
    assert acc * (10 * p) == 10 * (acc * p);
  }

  lemma {:induction false} DecStarts(n: nat)
    ensures IsDigit(Dec(n)[0])
    decreases n
  {
    if n >= 10 {
      DecStarts(n / 10);
    }
  }

  /** A string with every apostrophe doubled. */
  function Escape(s: Str): Str {
    if s == [] then [] else (if s[0] == QUOTE then [QUOTE, QUOTE] else [s[0]]) + Escape(s[1..])
  }

  lemma {:induction false} EscapePlain(s: Str)
    requires QuoteFree(s)
    ensures Escape(s) == s
  {
    if s != [] {
      EscapePlain(s[1..]);
    }
  }

  lemma {:induction false} LiteralRead(s: Str, rest: Str)
    requires rest == [] || rest[0] != QUOTE
    ensures ReadLiteral(Escape(s) + ([QUOTE] + rest)) == Some((s, rest))
  {
    var t := Escape(s) + ([QUOTE] + rest);
    if s == [] {
      assert t == [QUOTE] + rest && t[1..] == rest;
    } else {
      LiteralRead(s[1..], rest);
      var tail := Escape(s[1..]) + ([QUOTE] + rest);
      if s[0] == QUOTE {
        assert t == [QUOTE, QUOTE] + tail && t[2..] == tail;
      } else {
        assert t == [s[0]] + tail && t[1..] == tail;
      }
      assert [s[0]] + s[1..] == s;
    }
  }

  /** The value to write so that `v` is read. */
  function Raw(v: Value): Value {
    if v.Text? then Text(Escape(v.s)) else v
  }

  function RawAll(vs: seq<Value>): seq<Value> {
    seq(|vs|, i requires 0 <= i < |vs| => Raw(vs[i]))
  }

  lemma {:induction false} ValueRead(v: Value, rest: Str)
    requires Stops(rest)
    ensures ReadValue(Show(Raw(v)) + rest) == Some((v, rest))
  {
    match v
    case Null => NullRead(rest);
    case Num(n) => NumRead(n, rest);
    case Text(s) => TextRead(s, rest);
  }

  lemma {:induction false} NullRead(rest: Str)
    ensures ReadValue(NULL_WORD + rest) == Some((Null, rest))
  {
    var t := NULL_WORD + rest;
    assert t[0] == 0x4E && t[4..] == rest && NULL_WORD <= t;
  }

  lemma {:induction false} NumRead(n: nat, rest: Str)
    requires Stops(rest)
    ensures ReadValue(Dec(n) + rest) == Some((Num(n), rest))
  {
    DecStarts(n);
    DecRead(0, n, rest);
    assert (Dec(n) + rest)[0] == Dec(n)[0];
  }

  lemma {:induction false} TextRead(s: Str, rest: Str)
    requires rest == [] || rest[0] != QUOTE
    ensures ReadValue([QUOTE] + Escape(s) + [QUOTE] + rest) == Some((Text(s), rest))
  {
    var t := [QUOTE] + Escape(s) + [QUOTE] + rest;
    LiteralRead(s, rest);
    assert t[0] == QUOTE && t[1..] == Escape(s) + ([QUOTE] + rest);
  }

  lemma {:induction false} ValuesRead(vs: seq<Value>, tail: Str)
    requires vs != [] && (tail == [CLOSE] || tail == [CLOSE, SEMICOLON])
    ensures ReadValues(ShowAll(RawAll(vs)) + tail) == Some(vs)
    decreases |vs|
  {
    var raw := RawAll(vs);
    if |vs| == 1 {
      ValueRead(vs[0], tail);
      assert vs == [vs[0]] && ShowAll(raw) == Show(raw[0]);
    } else {
      var more := ShowAll(raw[1..]) + tail;
      assert raw[1..] == RawAll(vs[1..]);
      ValuesRead(vs[1..], tail);
      assert ShowAll(raw) + tail == Show(raw[0]) + ([COMMA, SPACE] + more);
      ValueRead(vs[0], [COMMA, SPACE] + more);
      ReadOn(ShowAll(raw) + tail, vs[0], more, vs[1..]);
      assert [vs[0]] + vs[1..] == vs;
    }
  }

  /** A value, a separator, and more values. */
  lemma {:induction false} ReadOn(s: Str, v: Value, more: Str, vs: seq<Value>)
    requires ReadValue(s) == Some((v, [COMMA, SPACE] + more)) && ReadValues(more) == Some(vs)
    ensures ReadValues(s) == Some([v] + vs)
  {
    ReadShorter(s);
    assert ([COMMA, SPACE] + more)[..2] == [COMMA, SPACE] && ([COMMA, SPACE] + more)[2..] == more;
  }

  lemma {:induction false} RawPlain(vs: seq<Value>)
    requires AllQuoteFree(vs)
    ensures RawAll(vs) == vs
  {
    forall i | 0 <= i < |vs| ensures Raw(vs[i]) == vs[i] {
      if vs[i].Text? {
        EscapePlain(vs[i].s);
      }
    }
  }

  // ---- A statement that is cut off is no statement ----

  lemma {:induction false} NoEnd(s: Str)
    requires QuoteFree(s)
    ensures ReadLiteral(s) == None
  {
    if s != [] {
      NoEnd(s[1..]);
    }
  }

  /** All of the text is digits: the number ends with it. */
  lemma {:induction false} DigitsOnly(acc: nat, s: Str)
    requires forall i :: 0 <= i < |s| ==> IsDigit(s[i])
    ensures ReadDec(acc, s).1 == []
    decreases |s|
  {
    if s != [] {
      DigitsOnly(10 * acc + (s[0] - 0x30), s[1..]);
    }
  }

  lemma {:induction false} DecDigits(n: nat)
    ensures forall i :: 0 <= i < |Dec(n)| ==> IsDigit(Dec(n)[i])
    decreases n
  {
    if n >= 10 {
      DecDigits(n / 10);
    }
  }

  /** A beginning of a value is no value, or one with nothing behind it. */
  lemma {:induction false} ValueCut(v: Value, p: Str)
    requires p <= Show(v) && (v.Text? ==> QuoteFree(v.s)) && p != Show(v)
    ensures ReadValue(p).None? || ReadValue(p).value.1 == []
  {
    match v
    case Null =>
    case Num(n) =>
      DecDigits(n);
      assert forall i :: 0 <= i < |p| ==> p[i] == Dec(n)[i];
      DigitsOnly(0, p);
    case Text(s) =>
      if p != [] {
        assert forall i :: 0 <= i < |p| ==> p[i] == Show(v)[i];
        assert p[1..] == s[..|p| - 1];
        NoEnd(p[1..]);
      }
  }

  lemma {:induction false} ValuesCut(vs: seq<Value>, p: Str)
    requires vs != [] && AllQuoteFree(vs) && p <= ShowAll(vs)
    ensures ReadValues(p) == None
    decreases |vs|
  {
    var first := Show(vs[0]);
    if |p| < |first| {
      assert p == first[..|p|];
      ValueCut(vs[0], p);
    } else {
      var q := p[|first|..];
      assert p == first + q;
      if |vs| > 1 {
        var more := ShowAll(vs[1..]);
        assert q <= [COMMA, SPACE] + more;
        if |q| >= 2 {
          assert q[2..] <= more;
          ValuesCut(vs[1..], q[2..]);
        }
      }
      if vs[0].Text? {
        EscapePlain(vs[0].s);
      }
      ValueRead(vs[0], q);
    }
  }

  // ---- Counting apostrophes ----

  function Quotes(s: Str): nat {
    if s == [] then 0 else (if s[0] == QUOTE then 1 else 0) + Quotes(s[1..])
  }

  lemma {:induction false} QuotesConcat(s: Str, t: Str)
    ensures Quotes(s + t) == Quotes(s) + Quotes(t)
  {
    if s == [] {
      assert s + t == t;
    } else {
      assert (s + t)[1..] == s[1..] + t;
      QuotesConcat(s[1..], t);
    }
  }

  lemma {:induction false} NoQuotes(s: Str)
    ensures Quotes(s) == 0 <==> QuoteFree(s)
  {
    if s != [] {
      NoQuotes(s[1..]);
      assert s == [s[0]] + s[1..];
    }
  }

  /** Apostrophes in the texts among the values. */
  function Inside(vs: seq<Value>): nat {
    if vs == [] then 0 else (if vs[0].Text? then Quotes(vs[0].s) else 0) + Inside(vs[1..])
  }

  function Texts(vs: seq<Value>): nat {
    if vs == [] then 0 else (if vs[0].Text? then 1 else 0) + Texts(vs[1..])
  }

  lemma {:induction false} InsideNone(vs: seq<Value>)
    ensures Inside(vs) == 0 <==> AllQuoteFree(vs)
  {
    if vs != [] {
      InsideNone(vs[1..]);
      if vs[0].Text? {
        NoQuotes(vs[0].s);
      }
      assert AllQuoteFree(vs) ==> forall i :: 0 <= i < |vs| - 1 && vs[1..][i].Text? ==> QuoteFree(vs[i + 1].s);
      assert AllQuoteFree(vs[1..]) ==> forall i :: 1 <= i < |vs| ==> vs[i] == vs[1..][i - 1];
    }
  }

  lemma {:induction false} DecQuotes(n: nat)
    ensures Quotes(Dec(n)) == 0
  {
    DecDigits(n);
    NoQuotes(Dec(n));
  }

  lemma {:induction false} ShowQuotes(v: Value)
    ensures Quotes(Show(v)) == if v.Text? then Quotes(v.s) + 2 else 0
  {
    match v
    case Null => NoQuotes(NULL_WORD);
    case Num(n) => DecQuotes(n);
    case Text(s) =>
      QuotesConcat([QUOTE] + s, [QUOTE]);
      QuotesConcat([QUOTE], s);
      OneQuote();
  }

  lemma {:induction false} OneQuote()
    ensures Quotes([QUOTE]) == 1 && Quotes([COMMA, SPACE]) == 0 && Quotes([CLOSE]) == 0 && Quotes([CLOSE, SEMICOLON]) == 0
  {
    assert [QUOTE][1..] == [];
    NoQuotes([COMMA, SPACE]);
    NoQuotes([CLOSE]);
    NoQuotes([CLOSE, SEMICOLON]);
  }

  /** Every text is written between two apostrophes. */
  lemma {:induction false} WrittenQuotes(vs: seq<Value>)
    requires vs != []
    ensures Quotes(ShowAll(vs)) == Inside(vs) + 2 * Texts(vs)
    decreases |vs|
  {
    ShowQuotes(vs[0]);
    if |vs| == 1 {
      assert vs[1..] == [];
    } else {
      WrittenQuotes(vs[1..]);
      QuotesConcat(Show(vs[0]), [COMMA, SPACE] + ShowAll(vs[1..]));
      QuotesConcat([COMMA, SPACE], ShowAll(vs[1..]));
      OneQuote();
    }
  }

  /** Reading uses up two apostrophes for each one inside, and one at the end. */
  lemma {:induction false} LiteralQuotes(s: Str)
    requires ReadLiteral(s).Some?
    ensures Quotes(s) == 2 * Quotes(ReadLiteral(s).value.0) + 1 + Quotes(ReadLiteral(s).value.1)
  {
    if s[0] != QUOTE {
      LiteralQuotes(s[1..]);
      QuotesConcat([s[0]], ReadLiteral(s[1..]).value.0);
      NoQuotes([s[0]]);
    } else if |s| > 1 && s[1] == QUOTE {
      LiteralQuotes(s[2..]);
      QuotesConcat([QUOTE], ReadLiteral(s[2..]).value.0);
      OneQuote();
      assert s[1..][1..] == s[2..];
    }
  }

  lemma {:induction false} DecSkips(acc: nat, s: Str)
    ensures Quotes(ReadDec(acc, s).1) == Quotes(s)
    decreases |s|
  {
    if s != [] && IsDigit(s[0]) {
      DecSkips(10 * acc + (s[0] - 0x30), s[1..]);
    }
  }

  lemma {:induction false} ValueQuotes(s: Str)
    requires ReadValue(s).Some?
    ensures var r := ReadValue(s).value;
            Quotes(s) == (if r.0.Text? then 2 * Quotes(r.0.s) + 2 else 0) + Quotes(r.1)
  {
    if s[0] == QUOTE {
      LiteralQuotes(s[1..]);
    } else if IsDigit(s[0]) {
      DecSkips(0, s);
    } else {
      assert s == NULL_WORD + s[4..];
      QuotesConcat(NULL_WORD, s[4..]);
      NoQuotes(NULL_WORD);
    }
  }

  lemma {:induction false} ReadQuotes(s: Str)
    requires ReadValues(s).Some?
    ensures Quotes(s) == 2 * Inside(ReadValues(s).value) + 2 * Texts(ReadValues(s).value)
    decreases |s|
  {
    var (v, rest) := ReadValue(s).value;
    ReadShorter(s);
    ValueQuotes(s);
    OneQuote();
    if rest != [CLOSE] && rest != [CLOSE, SEMICOLON] {
      ReadQuotes(rest[2..]);
      assert rest == [COMMA, SPACE] + rest[2..];
      QuotesConcat([COMMA, SPACE], rest[2..]);
      var vs := ReadValues(rest[2..]).value;
      assert ([v] + vs)[1..] == vs;
    } else {
      assert [v][1..] == [];
    }
  }

  lemma {:induction false} PrefixQuotes(p: Str, s: Str)
    requires p <= s
    ensures Quotes(p) <= Quotes(s)
  {
    assert s == p + s[|p|..];
    QuotesConcat(p, s[|p|..]);
  }

  // ---- The statement as SQLite gets it ----

  /** A statement with a head of that length fits, but for its semicolon. */
  predicate Fits(head: nat, vs: seq<Value>, size: nat)
    requires vs != []
  {
    head + |ShowAll(vs)| + 2 <= size
  }

  /** What SQLite reads after snprintf: for texts without apostrophes exactly
      the values, as long as at most the semicolon is cut off. */
  lemma {:induction false} PlainCarried(head: Str, vs: seq<Value>, size: nat)
    requires vs != [] && size > 0 && AllQuoteFree(vs)
    ensures ReadInsert(head, Printed(Statement(head, vs), size)) == if Fits(|head|, vs, size) then Some(vs) else None
  {
    var stmt, body := Statement(head, vs), ShowAll(vs);
    var got := Printed(stmt, size);
    if head <= got {
      var rest := got[|head|..];
      if Fits(|head|, vs, size) {
        RawPlain(vs);
        ValuesRead(vs, if |stmt| < size then [CLOSE, SEMICOLON] else [CLOSE]);
        if |stmt| == size {
          assert rest == body + [CLOSE];
        } else {
          assert rest == body + [CLOSE, SEMICOLON];
        }
      } else {
        assert rest <= body;
        ValuesCut(vs, rest);
      }
    } else {
      assert size - 1 < |head|;
    }
  }

  /** The values are read back as they were iff no text has an apostrophe and
      the statement fits, up to its semicolon. */
  lemma {:induction false} Carried(head: Str, vs: seq<Value>, size: nat)
    requires vs != [] && size > 0
    ensures ReadInsert(head, Printed(Statement(head, vs), size)) == Some(vs)
       <==> AllQuoteFree(vs) && Fits(|head|, vs, size)
  {
    if AllQuoteFree(vs) {
      PlainCarried(head, vs, size);
    } else if ReadInsert(head, Printed(Statement(head, vs), size)) == Some(vs) {
      var rest := Printed(Statement(head, vs), size)[|head|..];
      ReadQuotes(rest);
      PrefixQuotes(rest, ShowAll(vs) + [CLOSE, SEMICOLON]);
      QuotesConcat(ShowAll(vs), [CLOSE, SEMICOLON]);
      OneQuote();
      WrittenQuotes(vs);
      InsideNone(vs);
    }
  }

  /** A text that is some other text with its apostrophes doubled is taken for
      that other text. */
  lemma {:induction false} DoubledLost(head: Str, vs: seq<Value>, size: nat)
    requires vs != [] && |Statement(head, RawAll(vs))| < size
    ensures ReadInsert(head, Printed(Statement(head, RawAll(vs)), size)) == Some(vs)
  {
    ValuesRead(vs, [CLOSE, SEMICOLON]);
    assert Statement(head, RawAll(vs))[|head|..] == ShowAll(RawAll(vs)) + [CLOSE, SEMICOLON];
  }

  /** An odd number of apostrophes in the texts makes no INSERT at all. */
  lemma {:induction false} OddRefused(head: Str, vs: seq<Value>, size: nat)
    requires vs != [] && |Statement(head, vs)| < size && Inside(vs) % 2 == 1
    ensures ReadInsert(head, Printed(Statement(head, vs), size)) == None
  {
    var stmt := Statement(head, vs);
    var rest := stmt[|head|..];
    assert rest == ShowAll(vs) + [CLOSE, SEMICOLON];
    QuotesConcat(ShowAll(vs), [CLOSE, SEMICOLON]);
    OneQuote();
    WrittenQuotes(vs);
    if ReadValues(rest).Some? {
      ReadQuotes(rest);
      OddIsNotEven(Inside(vs), Inside(ReadValues(rest).value), Texts(vs), Texts(ReadValues(rest).value));
    }
  }

  lemma {:induction false} OddIsNotEven(a: nat, b: nat, c: nat, d: nat)
    requires a % 2 == 1
    ensures a + 2 * c != 2 * b + 2 * d
  {
  }
}
