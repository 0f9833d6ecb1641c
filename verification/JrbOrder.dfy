/** The order of the leaves: what it means for the list to be sorted by a
    comparison function, the search along the caches, and what a whole run of
    inserts and deletes leaves of the list of (key, value) pairs. */
module JrbOrder {
  import opened RedBlackTree
  import opened JrbMemory

  type Cmp = (Jval, Jval) -> int

  /** The comparison orders keys by the sign of its answer: a total preorder. */
  ghost predicate Orders(cmp: Cmp) {
    && (forall a, b :: cmp(a, b) < 0 <==> cmp(b, a) > 0)
    && (forall a, b, c :: cmp(a, b) <= 0 && cmp(b, c) <= 0 ==> cmp(a, c) <= 0)
  }

  lemma {:induction false} NotBefore(cmp: Cmp, key: Jval, x: Jval, y: Jval)
    requires Orders(cmp) && cmp(x, y) <= 0
    ensures cmp(key, y) > 0 ==> cmp(key, x) > 0
    ensures cmp(key, y) >= 0 ==> cmp(key, x) >= 0
    ensures cmp(key, x) < 0 ==> cmp(key, y) < 0
    ensures cmp(key, x) <= 0 ==> cmp(key, y) <= 0
  {
  }

  function Rank(a: Jval): int {
    if a.I? then a.i else 0
  }

  /** The order of jrb_find_gte_int. */
  function IntCmp(a: Jval, b: Jval): int {
    Rank(a) - Rank(b)
  }

  lemma {:induction false} IntOrders()
    ensures Orders(IntCmp)
  {
  }

  function KeyAt(m: Mem, x: Ptr): Jval {
    if x in m then m[x].key else I(0)
  }

  ghost predicate Ascending(m: Mem, ls: seq<Ptr>, cmp: Cmp) {
    forall i, j :: 0 <= i < j < |ls| ==> cmp(KeyAt(m, ls[i]), KeyAt(m, ls[j])) <= 0
  }

  /** Leaves keep their keys and values. */
  ghost predicate KeptData(m: Mem, m': Mem, ls: seq<Ptr>) {
    forall x :: x in ls ==> x in m && x in m' && m'[x].key == m[x].key && m'[x].val == m[x].val
  }

  // ---- Search ----

  ghost predicate AllBelow(m: Mem, ls: seq<Ptr>, key: Jval, cmp: Cmp) {
    forall i :: 0 <= i < |ls| ==> cmp(key, KeyAt(m, ls[i])) > 0
  }

  /** What a search must answer with when the last key is greater. */
  ghost predicate Found(m: Mem, ls: seq<Ptr>, key: Jval, cmp: Cmp, k: nat, fnd: bool)
    requires k < |ls|
  {
    if fnd then cmp(key, KeyAt(m, ls[k])) == 0
    else AllBelow(m, ls[..k], key, cmp) && cmp(key, KeyAt(m, ls[k])) < 0
  }

  ghost predicate Landed(m: Mem, ls: seq<Ptr>, key: Jval, cmp: Cmp, k: nat, n: Ptr, fnd: bool) {
    k < |ls| && ls[k] == n && Found(m, ls, key, cmp, k, fnd)
  }

  /** The state of the search: everything before the subtree is smaller, the
      last leaf of the subtree is greater. */
  ghost predicate Searching(m: Mem, h: Ptr, c: Path, t: Tree, whole: Tree, key: Jval, cmp: Cmp) {
    && Rep(m, h, c, t) && Plug(c, t) == whole && CachesAgree(m, t)
    && AllBelow(m, LeavesBefore(c), key, cmp) && cmp(key, KeyAt(m, Last(t))) < 0
  }

  lemma {:induction false} Rises(m: Mem, ls: seq<Ptr>, key: Jval, cmp: Cmp, i: nat, j: nat)
    requires Orders(cmp) && Ascending(m, ls, cmp) && i <= j < |ls|
    ensures var x, y := KeyAt(m, ls[i]), KeyAt(m, ls[j]);
            && (cmp(key, y) > 0 ==> cmp(key, x) > 0) && (cmp(key, y) >= 0 ==> cmp(key, x) >= 0)
            && (cmp(key, x) < 0 ==> cmp(key, y) < 0) && (cmp(key, x) <= 0 ==> cmp(key, y) <= 0)
  {
    if i < j {
      NotBefore(cmp, key, KeyAt(m, ls[i]), KeyAt(m, ls[j]));
    }
  }

  /** The search answers like a scan of the whole list. */
  lemma {:induction false} FoundScan(m: Mem, ls: seq<Ptr>, key: Jval, cmp: Cmp, k: nat, fnd: bool)
    requires Orders(cmp) && Ascending(m, ls, cmp) && k < |ls| && Found(m, ls, key, cmp, k, fnd)
    ensures fnd <==> exists i :: 0 <= i < |ls| && cmp(key, KeyAt(m, ls[i])) == 0
    ensures !fnd ==> forall i :: 0 <= i < k ==> cmp(key, KeyAt(m, ls[i])) > 0
    ensures !fnd ==> forall i :: k <= i < |ls| ==> cmp(key, KeyAt(m, ls[i])) < 0
  {
    if !fnd {
      forall i | 0 <= i < |ls| ensures if i < k then cmp(key, KeyAt(m, ls[i])) > 0 else cmp(key, KeyAt(m, ls[i])) < 0 {
        if i < k {
          assert ls[..k][i] == ls[i];
        } else {
          Rises(m, ls, key, cmp, k, i);
        }
      }
    }
  }

  lemma {:induction false} BeyondLast(m: Mem, ls: seq<Ptr>, key: Jval, cmp: Cmp)
    requires Orders(cmp) && Ascending(m, ls, cmp) && ls != [] && cmp(key, KeyAt(m, ls[|ls| - 1])) > 0
    ensures forall i :: 0 <= i < |ls| ==> cmp(key, KeyAt(m, ls[i])) > 0
  {
    forall i | 0 <= i < |ls| ensures cmp(key, KeyAt(m, ls[i])) > 0 {
      Rises(m, ls, key, cmp, i, |ls| - 1);
    }
  }

  /** lext of the current node is the leaf just before its right subtree. */
  lemma {:induction false} LextPlace(c: Path, t: Tree, whole: Tree)
    requires Plug(c, t) == whole && t.Int?
    ensures var k := |LeavesBefore(c)| + |Leaves(t.l)| - 1;
            k < |Leaves(whole)| && Leaves(whole)[k] == Last(t.l) && Last(t.l) in Leaves(whole)
  {
    PlugOrder(c, t);
    MidIndex(LeavesBefore(c), Leaves(t.l), Leaves(t.r), LeavesAfter(c));
  }

  lemma {:induction false} LextSeen(m: Mem, h: Ptr, c: Path, t: Tree, whole: Tree, key: Jval, cmp: Cmp)
    requires Searching(m, h, c, t, whole, key, cmp) && t.Int? && forall x :: x in Leaves(whole) ==> x in m
    ensures t.id in m && m[t.id].key == V(Last(t.l)) && Last(t.l) in m
  {
    LextPlace(c, t, whole);
  }

  lemma {:induction false} LastRight(t: Tree)
    requires t.Int?
    ensures Last(t.r) == Last(t)
  {
  }

  lemma {:induction false} GoLeft(m: Mem, h: Ptr, c: Path, t: Tree, whole: Tree, key: Jval, cmp: Cmp)
    requires Searching(m, h, c, t, whole, key, cmp) && t.Int? && cmp(key, KeyAt(m, Last(t.l))) < 0
    ensures Searching(m, h, In(c, true, t.id, t.red, t.r), t.l, whole, key, cmp)
    ensures m[t.id].flink == t.l.id && t.l.id in m && m[t.l.id].internal == t.l.Int?
  {
    Look(m, t);
    Look(m, t.l);
    Zip(m, h, c, true, t.id, t.red, t.l, t.r);
  }

  lemma {:induction false} GoRight(m: Mem, h: Ptr, c: Path, t: Tree, whole: Tree, key: Jval, cmp: Cmp)
    requires Searching(m, h, c, t, whole, key, cmp) && t.Int? && cmp(key, KeyAt(m, Last(t.l))) > 0
    requires Orders(cmp) && Ascending(m, Leaves(whole), cmp)
    ensures Searching(m, h, In(c, false, t.id, t.red, t.l), t.r, whole, key, cmp)
    ensures m[t.id].blink == t.r.id && t.r.id in m && m[t.r.id].internal == t.r.Int?
  {
    Look(m, t);
    Look(m, t.r);
    LastRight(t);
    PlugOrder(c, t);
    BlockSmall(m, LeavesBefore(c), Leaves(t.l), Leaves(t.r), LeavesAfter(c), key, cmp);
    BelowConcat(m, LeavesBefore(c), Leaves(t.l), key, cmp);
    Zip(m, h, c, false, t.id, t.red, t.r, t.l);
  }

  lemma {:induction false} BelowConcat(m: Mem, a: seq<Ptr>, b: seq<Ptr>, key: Jval, cmp: Cmp)
    requires AllBelow(m, a, key, cmp) && AllBelow(m, b, key, cmp)
    ensures AllBelow(m, a + b, key, cmp)
  {
  }

  lemma {:induction false} BlockSmall(m: Mem, a: seq<Ptr>, b: seq<Ptr>, c: seq<Ptr>, d: seq<Ptr>, key: Jval, cmp: Cmp)
    requires Orders(cmp) && Ascending(m, a + (b + c) + d, cmp) && |b| > 0 && cmp(key, KeyAt(m, b[|b| - 1])) > 0
    ensures AllBelow(m, b, key, cmp)
  {
    forall i | 0 <= i < |b| ensures cmp(key, KeyAt(m, b[i])) > 0 {
      InMid(a, b, c, d, i);
      InMid(a, b, c, d, |b| - 1);
      Rises(m, a + (b + c) + d, key, cmp, |a| + i, |a| + (|b| - 1));
    }
  }

  lemma {:induction false} ScanEnd(m: Mem, c: Path, n: Ptr, key: Jval, cmp: Cmp)
    requires AllBelow(m, LeavesBefore(c), key, cmp) && cmp(key, KeyAt(m, n)) < 0
    ensures var ls, k := Leaves(Plug(c, Ext(n))), |LeavesBefore(c)|;
            k < |ls| && ls[k] == n && Found(m, ls, key, cmp, k, false)
  {
    PlugOrder(c, Ext(n));
    assert Leaves(Plug(c, Ext(n)))[..|LeavesBefore(c)|] == LeavesBefore(c);
  }

  /** The search ends at an external node. */
  lemma {:induction false} EndOfSearch(m: Mem, h: Ptr, c: Path, t: Tree, whole: Tree, key: Jval, cmp: Cmp)
    requires Searching(m, h, c, t, whole, key, cmp) && t.Ext?
    ensures Landed(m, Leaves(whole), key, cmp, |LeavesBefore(c)|, t.id, false)
  {
    ScanEnd(m, c, t.id, key, cmp);
  }

  /** The search ends at a lext with the key. */
  lemma {:induction false} LextFound(m: Mem, c: Path, t: Tree, whole: Tree, key: Jval, cmp: Cmp)
    requires Plug(c, t) == whole && t.Int? && cmp(key, KeyAt(m, Last(t.l))) == 0
    ensures Landed(m, Leaves(whole), key, cmp, |LeavesBefore(c)| + |Leaves(t.l)| - 1, Last(t.l), true)
  {
    LextPlace(c, t, whole);
  }

  // ---- The list of pairs ----

  type Item = (Jval, Jval)

  ghost function ItemOf(m: Mem, x: Ptr): Item {
    if x in m then (m[x].key, m[x].val) else (I(0), I(0))
  }

  /** The (key, value) pairs in list order. */
  ghost function Items(m: Mem, ls: seq<Ptr>): seq<Item> {
    seq(|ls|, i requires 0 <= i < |ls| => ItemOf(m, ls[i]))
  }

  ghost predicate Ordered(s: seq<Item>, cmp: Cmp) {
    forall i, j :: 0 <= i < j < |s| ==> cmp(s[i].0, s[j].0) <= 0
  }

  lemma {:induction false} AscendingItems(m: Mem, ls: seq<Ptr>, cmp: Cmp)
    ensures Ascending(m, ls, cmp) <==> Ordered(Items(m, ls), cmp)
  {
    var s := Items(m, ls);
    assert forall i :: 0 <= i < |ls| ==> s[i].0 == KeyAt(m, ls[i]);
    if Ordered(s, cmp) {
      forall i, j | 0 <= i < j < |ls| ensures cmp(KeyAt(m, ls[i]), KeyAt(m, ls[j])) <= 0 {
        assert cmp(s[i].0, s[j].0) <= 0;
      }
    }
    if Ascending(m, ls, cmp) {
      forall i, j | 0 <= i < j < |s| ensures cmp(s[i].0, s[j].0) <= 0 {
        assert cmp(KeyAt(m, ls[i]), KeyAt(m, ls[j])) <= 0;
      }
    }
  }

  /** What a client may do: insert a pair, delete the element at a position. */
  datatype Op = Ins(key: Jval, val: Jval) | Del(at: nat)

  /** One operation on the list of pairs; an insertion goes to position k. */
  function Place(s: seq<Item>, op: Op, k: nat): seq<Item> {
    match op
    case Ins(key, val) => if k <= |s| then s[..k] + [(key, val)] + s[k..] else s
    case Del(at) => if at < |s| then s[..at] + s[at + 1..] else s
  }

  function PlaceAll(s: seq<Item>, ops: seq<Op>, ks: seq<nat>): seq<Item>
    requires |ks| == |ops|
  {
    if ops == [] then s
    else Place(PlaceAll(s, ops[..|ops| - 1], ks[..|ops| - 1]), ops[|ops| - 1], ks[|ops| - 1])
  }

  /** After every operation of the run the list is sorted. */
  ghost predicate OrderedAll(s: seq<Item>, ops: seq<Op>, ks: seq<nat>, cmp: Cmp)
    requires |ks| == |ops|
    decreases |ops|
  {
    Ordered(PlaceAll(s, ops, ks), cmp) && (ops != [] ==> OrderedAll(s, ops[..|ops| - 1], ks[..|ops| - 1], cmp))
  }

  lemma {:induction false} PlaceSnoc(s: seq<Item>, ops: seq<Op>, ks: seq<nat>, op: Op, k: nat, cmp: Cmp)
    requires |ks| == |ops| && OrderedAll(s, ops, ks, cmp) && Ordered(Place(PlaceAll(s, ops, ks), op, k), cmp)
    ensures PlaceAll(s, ops + [op], ks + [k]) == Place(PlaceAll(s, ops, ks), op, k)
    ensures OrderedAll(s, ops + [op], ks + [k], cmp)
  {
    assert (ops + [op])[..|ops|] == ops && (ks + [k])[..|ops|] == ks;
  }

  lemma {:induction false} InsertAt(ls: seq<Ptr>, k: nat, w: Ptr, i: nat)
    requires k <= |ls| && i < |ls|
    ensures Insert(ls, k, w)[if i < k then i else i + 1] == ls[i] && ls[i] in ls
    ensures Insert(ls, k, w)[k] == w
  {
  }

  lemma {:induction false} RemoveAt(ls: seq<Ptr>, k: nat, i: nat)
    requires k < |ls| && i < |ls| - 1
    ensures Remove(ls, k)[i] == ls[if i < k then i else i + 1] && Remove(ls, k)[i] in Remove(ls, k)
  {
  }

  lemma {:induction false} InsItems(m: Mem, m': Mem, ls: seq<Ptr>, k: nat, w: Ptr, key: Jval, val: Jval)
    requires k <= |ls| && KeptData(m, m', ls) && w in m' && m'[w].key == key && m'[w].val == val
    ensures Items(m', Insert(ls, k, w)) == Place(Items(m, ls), Ins(key, val), k)
  {
    var s, ls' := Items(m, ls), Insert(ls, k, w);
    var s' := Place(s, Ins(key, val), k);
    forall i | 0 <= i < |ls'| ensures ItemOf(m', ls'[i]) == s'[i] {
      if i == k {
        assert ls'[i] == w;
      } else {
        InsertAt(ls, k, w, if i < k then i else i - 1);
      }
    }
  }

  lemma {:induction false} DelItems(m: Mem, m': Mem, ls: seq<Ptr>, k: nat)
    requires k < |ls| && KeptData(m, m', Remove(ls, k))
    ensures Items(m', Remove(ls, k)) == Place(Items(m, ls), Del(k), 0)
  {
    var s, ls' := Items(m, ls), Remove(ls, k);
    var s' := s[..k] + s[k + 1..];
    forall i | 0 <= i < |ls'| ensures ItemOf(m', ls'[i]) == s'[i] {
      RemoveAt(ls, k, i);
    }
  }

  lemma {:induction false} PlaceDelOrdered(s: seq<Item>, k: nat, cmp: Cmp)
    requires k < |s| && Ordered(s, cmp)
    ensures Ordered(Place(s, Del(k), 0), cmp)
  {
    var s' := Place(s, Del(k), 0);
    assert forall i :: 0 <= i < |s'| ==> s'[i] == s[if i < k then i else i + 1];
  }

  /** Where the key fits: nothing greater before it, nothing smaller after. */
  ghost predicate FitsAt(s: seq<Item>, key: Jval, k: nat, cmp: Cmp) {
    && k <= |s|
    && (forall i :: 0 <= i < k ==> cmp(key, s[i].0) >= 0)
    && (forall i :: k <= i < |s| ==> cmp(key, s[i].0) <= 0)
  }

  lemma {:induction false} PlaceInsOrdered(s: seq<Item>, key: Jval, val: Jval, k: nat, cmp: Cmp)
    requires Orders(cmp) && Ordered(s, cmp) && FitsAt(s, key, k, cmp)
    ensures Ordered(Place(s, Ins(key, val), k), cmp)
  {
    var s' := Place(s, Ins(key, val), k);
    forall i, j | 0 <= i < j < |s'| ensures cmp(s'[i].0, s'[j].0) <= 0 {
      assert s'[i] == if i < k then s[i] else if i == k then (key, val) else s[i - 1];
      assert s'[j] == if j < k then s[j] else if j == k then (key, val) else s[j - 1];
    }
  }

  /** Where a search found the key or the place for it, the key fits. */
  lemma {:induction false} FoundFits(m: Mem, ls: seq<Ptr>, key: Jval, cmp: Cmp, k: nat, fnd: bool)
    requires Orders(cmp) && Ascending(m, ls, cmp) && k <= |ls|
    requires fnd ==> k < |ls| && cmp(key, KeyAt(m, ls[k])) == 0
    requires !fnd ==> forall i :: 0 <= i < k ==> cmp(key, KeyAt(m, ls[i])) > 0
    requires !fnd ==> forall i :: k <= i < |ls| ==> cmp(key, KeyAt(m, ls[i])) < 0
    ensures FitsAt(Items(m, ls), key, k, cmp)
  {
    var s := Items(m, ls);
    assert forall i :: 0 <= i < |ls| ==> s[i].0 == KeyAt(m, ls[i]);
    if fnd {
      forall i | 0 <= i < |ls| ensures if i < k then cmp(key, s[i].0) >= 0 else cmp(key, s[i].0) <= 0 {
        if i < k {
          Rises(m, ls, key, cmp, i, k);
        } else {
          Rises(m, ls, key, cmp, k, i);
        }
      }
    }
  }

  // ---- Integer keys ----

  function InsSorted(s: seq<int>, x: int): seq<int> {
    if s == [] || x <= s[0] then [x] + s else [s[0]] + InsSorted(s[1..], x)
  }

  /** The same operation on a plain sorted list of keys. */
  function Apply(s: seq<int>, op: Op): seq<int> {
    match op
    case Ins(key, _) => InsSorted(s, Rank(key))
    case Del(at) => if at < |s| then s[..at] + s[at + 1..] else s
  }

  function ApplyAll(s: seq<int>, ops: seq<Op>): seq<int> {
    if ops == [] then s else Apply(ApplyAll(s, ops[..|ops| - 1]), ops[|ops| - 1])
  }

  function Ranks(s: seq<Item>): seq<int> {
    seq(|s|, i requires 0 <= i < |s| => Rank(s[i].0))
  }

  /** Among equal keys the position does not show. */
  lemma {:induction false} InsAnywhere(s: seq<int>, k: nat, x: int)
    requires k <= |s| && forall i, j :: 0 <= i < j < |s| ==> s[i] <= s[j]
    requires (forall i :: 0 <= i < k ==> s[i] <= x) && forall i :: k <= i < |s| ==> s[i] >= x
    ensures s[..k] + [x] + s[k..] == InsSorted(s, x)
  {
    if k > 0 {
      if x <= s[0] {
        SlidePast(s, k, x);
      } else {
        InsAnywhere(s[1..], k - 1, x);
        assert s[..k] + [x] + s[k..] == [s[0]] + (s[1..][..k - 1] + [x] + s[1..][k - 1..]);
      }
    }
  }

  lemma {:induction false} SlidePast(s: seq<int>, k: nat, x: int)
    requires k <= |s| && forall i :: 0 <= i < k ==> s[i] == x
    ensures s[..k] + [x] + s[k..] == [x] + s
  {
    assert s[..k] + [x] == [x] + s[..k];
  }

  lemma {:induction false} RankStep(s: seq<Item>, op: Op, k: nat)
    requires Ordered(s, IntCmp) && Ordered(Place(s, op, k), IntCmp) && (op.Ins? ==> k <= |s|)
    ensures Ranks(Place(s, op, k)) == Apply(Ranks(s), op)
  {
    var r, s' := Ranks(s), Place(s, op, k);
    if op.Ins? {
      var x := Rank(op.key);
      assert Ranks(s') == r[..k] + [x] + r[k..];
      forall i, j | 0 <= i < j < |r| ensures r[i] <= r[j] {
        assert IntCmp(s[i].0, s[j].0) <= 0;
      }
      forall i | 0 <= i < |r| ensures if i < k then r[i] <= x else r[i] >= x {
        assert s'[k] == (op.key, op.val) && s'[if i < k then i else i + 1] == s[i];
        assert if i < k then IntCmp(s'[i].0, s'[k].0) <= 0 else IntCmp(s'[k].0, s'[i + 1].0) <= 0;
      }
      InsAnywhere(r, k, x);
    }
  }

  /** Positions that fit the list they are used on. */
  ghost predicate InRange(s: seq<Item>, ops: seq<Op>, ks: seq<nat>)
    requires |ks| == |ops|
    decreases |ops|
  {
    ops != [] ==>
      var n := |ops| - 1;
      InRange(s, ops[..n], ks[..n]) && (ops[n].Ins? ==> ks[n] <= |PlaceAll(s, ops[..n], ks[..n])|)
  }

  lemma {:induction false} InRangeSnoc(s: seq<Item>, ops: seq<Op>, ks: seq<nat>, op: Op, k: nat)
    requires |ks| == |ops| && InRange(s, ops, ks) && (op.Ins? ==> k <= |PlaceAll(s, ops, ks)|)
    ensures InRange(s, ops + [op], ks + [k])
  {
    assert (ops + [op])[..|ops|] == ops && (ks + [k])[..|ops|] == ks;
  }

  /** The run `ops` has made `now` of `s`, sorted at every moment. */
  ghost predicate HasRun(s: seq<Item>, ops: seq<Op>, ks: seq<nat>, cmp: Cmp, now: seq<Item>) {
    |ks| == |ops| && now == PlaceAll(s, ops, ks) && OrderedAll(s, ops, ks, cmp) && InRange(s, ops, ks)
  }

  lemma {:induction false} RunOn(s: seq<Item>, ops: seq<Op>, i: nat, ks: seq<nat>, cmp: Cmp, now: seq<Item>, k: nat)
    requires i < |ops| && HasRun(s, ops[..i], ks, cmp, now) && (ops[i].Ins? ==> k <= |now|)
    requires Ordered(Place(now, ops[i], k), cmp)
    ensures HasRun(s, ops[..i + 1], ks + [k], cmp, Place(now, ops[i], k))
  {
    assert ops[..i + 1] == ops[..i] + [ops[i]];
    PlaceSnoc(s, ops[..i], ks, ops[i], k, cmp);
    InRangeSnoc(s, ops[..i], ks, ops[i], k);
  }

  /** By integer keys, a run that stays sorted leaves exactly what it leaves of
      a plain sorted list, wherever equal keys went. */
  lemma {:induction false} KeysOfRun(s: seq<Item>, ops: seq<Op>, ks: seq<nat>, now: seq<Item>)
    requires HasRun(s, ops, ks, IntCmp, now)
    ensures Ranks(now) == ApplyAll(Ranks(s), ops)
    decreases |ops|
  {
    if ops != [] {
      var n := |ops| - 1;
      KeysOfRun(s, ops[..n], ks[..n], PlaceAll(s, ops[..n], ks[..n]));
      RankStep(PlaceAll(s, ops[..n], ks[..n]), ops[n], ks[n]);
    }
  }
}
