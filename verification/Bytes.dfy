/** Byte buffers: network-order integers, C strings, and the split of a body
    at its delimiters. */
module Bytes {

  type byte = x: int | 0 <= x < 256

  type Str = seq<byte>

  const UINT32 := 0x1_0000_0000
  const BUFSIZ := 8192
  const DELIM: byte := 0x1D

  predicate IsU32(n: int) {
    0 <= n < UINT32
  }

  predicate IsI32(n: int) {
    -0x8000_0000 <= n < 0x8000_0000
  }

  /** parse_uint32_from_buf: ntohl of the four bytes at `off`. */
  function ReadU32(b: seq<byte>, off: nat): (n: nat)
    requires off + 4 <= |b|
    ensures IsU32(n)
  {
    var b0: int, b1: int, b2: int, b3: int := b[off], b[off + 1], b[off + 2], b[off + 3];
    b0 * 0x100_0000 + b1 * 0x1_0000 + b2 * 0x100 + b3
  }

  /** The four bytes of a word, the highest first. */
  function Word(n: nat): (w: seq<byte>)
    requires IsU32(n)
    ensures |w| == 4
  {
    U32Digits(n);
    [n / 0x100_0000, n / 0x1_0000 % 0x100, n / 0x100 % 0x100, n % 0x100]
  }

  /** The highest byte comes first. */
  lemma {:induction false} NetworkOrder()
    ensures Word(0x0102_0304) == [1, 2, 3, 4] && ReadU32([1, 2, 3, 4], 0) == 0x0102_0304
  {
  }

  lemma {:induction false} WordRead(b: seq<byte>, off: nat, n: nat)
    requires off + 4 <= |b| && IsU32(n)
    ensures ReadU32(b, off) == n <==> b[off..off + 4] == Word(n)
  {
    U32Digits(n);
    if ReadU32(b, off) == n {
      Digits(b[off], b[off + 1], b[off + 2], b[off + 3]);
    }
  }

  lemma {:induction false} Digits(b0: int, b1: int, b2: int, b3: int)
    requires 0 <= b0 < 0x100 && 0 <= b1 < 0x100 && 0 <= b2 < 0x100 && 0 <= b3 < 0x100
    ensures var n := b0 * 0x100_0000 + b1 * 0x1_0000 + b2 * 0x100 + b3;
            n / 0x100_0000 == b0 && n / 0x1_0000 % 0x100 == b1 && n / 0x100 % 0x100 == b2 && n % 0x100 == b3
  {
    var n := b0 * 0x100_0000 + b1 * 0x1_0000 + b2 * 0x100 + b3;
    assert n / 0x100 == b0 * 0x1_0000 + b1 * 0x100 + b2;
    assert n / 0x1_0000 == b0 * 0x100 + b1;
    assert n / 0x100_0000 == b0;
  }

  /** Words one after the other. */
  function Words(ws: seq<nat>): (b: seq<byte>)
    requires forall i :: 0 <= i < |ws| ==> IsU32(ws[i])
    ensures |b| == 4 * |ws|
  {
    if ws == [] then [] else Word(ws[0]) + Words(ws[1..])
  }

  lemma {:induction false} WordsRead(b: seq<byte>, off: nat, ws: seq<nat>)
    requires forall i :: 0 <= i < |ws| ==> IsU32(ws[i])
    requires off + 4 * |ws| <= |b| && b[off..off + 4 * |ws|] == Words(ws)
    ensures forall i :: 0 <= i < |ws| ==> ReadU32(b, off + 4 * i) == ws[i]
    decreases |ws|
  {
    if ws != [] {
      Chunks(b, off, Word(ws[0]), Words(ws[1..]));
      WordRead(b, off, ws[0]);
      WordsRead(b, off + 4, ws[1..]);
      WordFirst(b, off, ws);
    }
  }

  /** The first word and the others are all of them. */
  lemma {:induction false} WordFirst(b: seq<byte>, off: nat, ws: seq<nat>)
    requires ws != [] && off + 4 * |ws| <= |b| && ReadU32(b, off) == ws[0]
    requires forall i :: 0 <= i < |ws[1..]| ==> ReadU32(b, off + 4 + 4 * i) == ws[1..][i]
    ensures forall i :: 0 <= i < |ws| ==> ReadU32(b, off + 4 * i) == ws[i]
  {
    forall i | 0 <= i < |ws| ensures ReadU32(b, off + 4 * i) == ws[i] {
      if i > 0 {
        assert ReadU32(b, off + 4 + 4 * (i - 1)) == ws[1..][i - 1];
      }
    }
  }

  lemma {:induction false} WordsWritten(b: seq<byte>, off: nat, ws: seq<nat>)
    requires forall i :: 0 <= i < |ws| ==> IsU32(ws[i])
    requires off + 4 * |ws| <= |b| && forall i :: 0 <= i < |ws| ==> ReadU32(b, off + 4 * i) == ws[i]
    ensures b[off..off + 4 * |ws|] == Words(ws)
    decreases |ws|
  {
    if ws != [] {
      WordRest(b, off, ws);
      WordRead(b, off, ws[0]);
      WordsWritten(b, off + 4, ws[1..]);
      var first, more := Word(ws[0]), Words(ws[1..]);
      Chunks(b, off, first, more);
      assert |first + more| == 4 * |ws| && Words(ws) == first + more;
    }
  }

  lemma {:induction false} WordRest(b: seq<byte>, off: nat, ws: seq<nat>)
    requires ws != [] && off + 4 * |ws| <= |b| && forall i :: 0 <= i < |ws| ==> ReadU32(b, off + 4 * i) == ws[i]
    ensures ReadU32(b, off) == ws[0] && forall i :: 0 <= i < |ws[1..]| ==> ReadU32(b, off + 4 + 4 * i) == ws[1..][i]
  {
    assert ReadU32(b, off + 4 * 0) == ws[0];
    forall i | 0 <= i < |ws[1..]| ensures ReadU32(b, off + 4 + 4 * i) == ws[1..][i] {
      assert ReadU32(b, off + 4 * (i + 1)) == ws[i + 1];
    }
  }

  /** Two chunks side by side. */
  lemma {:induction false} Chunks(b: seq<byte>, o: nat, x: seq<byte>, y: seq<byte>)
    requires o + |x| + |y| <= |b|
    ensures b[o..o + |x + y|] == x + y <==> b[o..o + |x|] == x && b[o + |x|..o + |x| + |y|] == y
  {
    var m := b[o..o + |x + y|];
    assert m[..|x|] == b[o..o + |x|] && m[|x|..] == b[o + |x|..o + |x| + |y|];
    assert m == m[..|x|] + m[|x|..];
    assert (x + y)[..|x|] == x && (x + y)[|x|..] == y;
  }

  /** An unsigned word read into an int32_t. */
  function Signed(n: nat): int {
    if n < 0x8000_0000 then n else n - UINT32
  }

  /** An int32_t passed where an unsigned word is expected. */
  function Unsigned(n: int): int {
    if n < 0 then n + UINT32 else n
  }

  /** write_uint32_to_buf */
  method WriteU32(a: array<byte>, off: nat, n: int)
    requires off + 4 <= a.Length && IsU32(n)
    modifies a
    ensures ReadU32(a[..], off) == n
    ensures forall i :: 0 <= i < a.Length && !(off <= i < off + 4) ==> a[i] == old(a[i])
  {
    U32Digits(n);
    a[off] := n / 0x100_0000;
    a[off + 1] := n / 0x1_0000 % 0x100;
    a[off + 2] := n / 0x100 % 0x100;
    a[off + 3] := n % 0x100;
  }

  lemma {:induction false} U32Digits(n: int)
    requires IsU32(n)
    ensures 0 <= n / 0x100_0000 < 0x100
    ensures n / 0x100_0000 * 0x100_0000 + n / 0x1_0000 % 0x100 * 0x1_0000 + n / 0x100 % 0x100 * 0x100 + n % 0x100 == n
  {
    var q, r := n / 0x100, n / 0x1_0000;
    assert n == q * 0x100 + n % 0x100;
    assert r == q / 0x100 && q == r * 0x100 + q % 0x100;
    assert n / 0x100_0000 == r / 0x100 && r == r / 0x100 * 0x100 + r % 0x100;
  }

  /** memcpy of a whole string. */
  method CopyTo(a: array<byte>, off: nat, s: seq<byte>)
    requires off + |s| <= a.Length
    modifies a
    ensures a[off..off + |s|] == s
    ensures forall i :: 0 <= i < a.Length && !(off <= i < off + |s|) ==> a[i] == old(a[i])
  {
    var k := 0;
    while k < |s|
      invariant 0 <= k <= |s|
      invariant forall i :: 0 <= i < k ==> a[off + i] == s[i]
      invariant forall i :: 0 <= i < a.Length && !(off <= i < off + k) ==> a[i] == old(a[i])
    {
      a[off + k] := s[k];
      k := k + 1;
    }
  }

  /** memset to zero. */
  method Clear(a: array<byte>, from: nat, to: nat)
    requires from <= to <= a.Length
    modifies a
    ensures forall i :: from <= i < to ==> a[i] == 0
    ensures forall i :: 0 <= i < a.Length && !(from <= i < to) ==> a[i] == old(a[i])
  {
    var k := from;
    while k < to
      invariant from <= k <= to
      invariant forall i :: from <= i < k ==> a[i] == 0
      invariant forall i :: 0 <= i < a.Length && !(from <= i < k) ==> a[i] == old(a[i])
    {
      a[k] := 0;
      k := k + 1;
    }
  }

  // ---- C strings ----

  predicate NulFree(s: Str) {
    forall i :: 0 <= i < |s| ==> s[i] != 0
  }

  predicate Plain(s: Str) {
    forall i :: 0 <= i < |s| ==> s[i] != 0 && s[i] != DELIM
  }

  /** The C string in a buffer: what precedes the first NUL. */
  function CStr(s: seq<byte>): (r: Str)
    ensures NulFree(r) && r <= s
  {
    if s == [] || s[0] == 0 then [] else [s[0]] + CStr(s[1..])
  }

  lemma {:induction false} CStrWhole(s: Str, rest: seq<byte>)
    requires NulFree(s) && (rest == [] || rest[0] == 0)
    ensures CStr(s + rest) == s
  {
    if s == [] {
      assert s + rest == rest;
    } else {
      assert (s + rest)[1..] == s[1..] + rest;
      CStrWhole(s[1..], rest);
    }
  }

  // ---- Fields ----

  /** Where the field that starts at `i` ends: a NUL, a delimiter or the end. */
  function FieldEnd(b: seq<byte>, i: nat): (e: nat)
    requires i <= |b|
    ensures i <= e <= |b|
    ensures forall k :: i <= k < e ==> b[k] != 0 && b[k] != DELIM
    ensures e < |b| ==> b[e] == 0 || b[e] == DELIM
    decreases |b| - i
  {
    if i == |b| || b[i] == 0 || b[i] == DELIM then i else FieldEnd(b, i + 1)
  }

  /** field_tokenizer's new `rest`: past the delimiter, or not moved at all. */
  function NextField(b: seq<byte>, i: nat): (n: nat)
    requires i <= |b|
    ensures i <= n <= |b|
  {
    var e := FieldEnd(b, i);
    if e < |b| && b[e] == DELIM then e + 1 else i
  }

  function Field(b: seq<byte>, i: nat): Str
    requires i <= |b|
  {
    b[i..FieldEnd(b, i)]
  }

  /** A body cut at every delimiter. */
  function Split(b: seq<byte>): (parts: seq<Str>)
    ensures |parts| > 0
  {
    if b == [] then [[]]
    else if b[0] == DELIM then [[]] + Split(b[1..])
    else
      var rest := Split(b[1..]);
      [[b[0]] + rest[0]] + rest[1..]
  }

  function Count(b: seq<byte>): (n: nat) {
    if b == [] then 0 else (if b[0] == DELIM then 1 else 0) + Count(b[1..])
  }

  lemma {:induction false} SplitCount(b: seq<byte>)
    ensures |Split(b)| == Count(b) + 1
  {
    if b != [] {
      SplitCount(b[1..]);
    }
  }

  /** The field at `i` is the first part of what is left, and after its
      delimiter come the other parts. */
  lemma {:induction false} FieldIsPart(b: seq<byte>, i: nat)
    requires i <= |b| && NulFree(b)
    ensures Field(b, i) == Split(b[i..])[0]
    ensures NextField(b, i) > i <==> |Split(b[i..])| > 1
    ensures NextField(b, i) > i ==> Split(b[NextField(b, i)..]) == Split(b[i..])[1..]
    ensures NextField(b, i) > i ==> NextField(b, i) == i + |Field(b, i)| + 1
    ensures NextField(b, i) == i ==> i + |Field(b, i)| == |b|
    decreases |b| - i
  {
    if i < |b| && b[i] != DELIM {
      FieldIsPart(b, i + 1);
      var e := FieldEnd(b, i + 1);
      assert b[i..][1..] == b[i + 1..];
      assert b[i..e] == [b[i]] + b[i + 1..e];
    } else if i < |b| {
      assert b[i..][1..] == b[i + 1..];
    }
  }

  lemma {:induction false} SplitPlain(s: Str)
    requires Plain(s)
    ensures Split(s) == [s] && NulFree(s)
  {
    if s != [] {
      SplitPlain(s[1..]);
      assert [s[0]] + s[1..] == s;
    }
  }

  lemma {:induction false} SplitField(s: Str, rest: seq<byte>)
    requires Plain(s)
    ensures Split(s + [DELIM] + rest) == [s] + Split(rest)
  {
    if s == [] {
      assert (s + [DELIM] + rest)[1..] == rest;
    } else {
      assert (s + [DELIM] + rest)[1..] == s[1..] + [DELIM] + rest;
      SplitField(s[1..], rest);
      assert [s[0]] + s[1..] == s;
    }
  }

  lemma {:induction false} ReadShift(b: seq<byte>, k: nat, off: nat)
    requires k + off + 4 <= |b|
    ensures ReadU32(b[k..], off) == ReadU32(b, k + off)
  {
  }

  /** Two's complement: the word is the number modulo 2^32. */
  lemma {:induction false} SignedUnsigned(n: int)
    requires IsI32(n)
    ensures IsU32(Unsigned(n)) && Signed(Unsigned(n)) == n && Unsigned(n) == n % UINT32
  {
  }
}
