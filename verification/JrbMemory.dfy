/** The node pool of jrb.c and what it means for it to hold a tree. The same
    two link fields are list links in an external node and child links in an
    internal one, and an internal node keeps the neighbouring external nodes
    (lext, rext) in its key and val slots, as in the C structure. */
module JrbMemory {
  import opened Collections
  import opened RedBlackTree

  datatype Jval = I(i: int) | V(v: Ptr)

  datatype Node = Node(red: bool, internal: bool, left: bool, root: bool, head: bool,
                       flink: Ptr, blink: Ptr, parent: Ptr, key: Jval, val: Jval)

  type Mem = map<Ptr, Node>

  function Child(m: Mem, n: Ptr, left: bool): Ptr
    requires n in m
  {
    if left then m[n].flink else m[n].blink
  }

  /** `x` is linked upwards to the internal node `p`, on the given side. */
  ghost predicate Hangs(m: Mem, x: Ptr, p: Ptr, left: bool) {
    x in m && m[x].parent == p && m[x].left == left && !m[x].root && !m[x].head
  }

  /** The nodes of `t` are in the pool and linked to each other. The upward
      links of the root of `t` belong to its surroundings. */
  ghost predicate Shape(m: Mem, t: Tree) {
    match t
    case Ext(n) => n in m && !m[n].internal && !m[n].red
    case Int(n, red, l, r) =>
      && n in m && m[n].internal && m[n].red == red
      && m[n].flink == l.id && m[n].blink == r.id
      && Hangs(m, l.id, n, true) && Hangs(m, r.id, n, false)
      && Shape(m, l) && Shape(m, r)
  }

  /** `x` sits in the hole of the path `c`; `h` is the head node. */
  ghost predicate Link(m: Mem, h: Ptr, c: Path, x: Ptr) {
    match c
    case Top => h in m && x in m && m[h].parent == x && m[x].parent == h && m[x].root && !m[x].head
    case In(_, left, id, _, _) => id in m && Child(m, id, left) == x && Hangs(m, x, id, left)
  }

  /** Everything outside the hole of `c` is in the pool and linked. */
  ghost predicate Around(m: Mem, h: Ptr, c: Path) {
    match c
    case Top => h in m && m[h].head && !m[h].internal
    case In(up, left, id, red, sib) =>
      && id in m && m[id].internal && m[id].red == red
      && Child(m, id, !left) == sib.id && Hangs(m, sib.id, id, !left) && Shape(m, sib)
      && Link(m, h, up, id) && Around(m, h, up)
  }

  ghost predicate Rep(m: Mem, h: Ptr, c: Path, t: Tree) {
    && Shape(m, t) && Link(m, h, c, t.id) && Around(m, h, c)
    && Unique(t) && UniquePath(c) && Ids(t) !! PathIds(c)
    && h !in Ids(t) && h !in PathIds(c)
  }

  // ---- Moving the point of view ----

  lemma {:induction false} Zip(m: Mem, h: Ptr, up: Path, left: bool, id: Ptr, red: bool, t: Tree, sib: Tree)
    ensures Rep(m, h, In(up, left, id, red, sib), t)
       <==> Rep(m, h, up, Join(left, id, red, t, sib))
  {
  }

  lemma {:induction false} ZipTwice(m: Mem, h: Ptr, c: Path, t: Tree)
    requires c.In? && c.up.In?
    ensures var low := Join(c.left, c.id, c.red, t, c.sib);
            Rep(m, h, c, t) <==> Rep(m, h, c.up.up, Join(c.up.left, c.up.id, c.up.red, low, c.up.sib))
  {
    var low := Join(c.left, c.id, c.red, t, c.sib);
    Zip(m, h, c.up, c.left, c.id, c.red, t, c.sib);
    Zip(m, h, c.up.up, c.up.left, c.up.id, c.up.red, low, c.up.sib);
  }

  lemma {:induction false} RepPlug(m: Mem, h: Ptr, c: Path, t: Tree)
    ensures Rep(m, h, c, t) <==> Rep(m, h, Top, Plug(c, t))
  {
    match c
    case Top =>
    case In(up, left, id, red, sib) =>
      Zip(m, h, up, left, id, red, t, sib);
      RepPlug(m, h, up, Join(left, id, red, t, sib));
  }

  lemma {:induction false} ShapeKinds(m: Mem, t: Tree)
    requires Shape(m, t)
    ensures forall x :: x in Leaves(t) ==> x in m && !m[x].internal
    ensures forall x :: x in Inners(t) ==> x in m && m[x].internal
    ensures forall x :: x in Ids(t) ==> x in m && (x != t.id ==> !m[x].head)
  {
    match t
    case Ext(_) =>
    case Int(_, _, l, r) =>
      ShapeKinds(m, l);
      ShapeKinds(m, r);
  }

  /** What the code reads when it inspects a node and its children. */
  ghost predicate Visible(m: Mem, t: Tree) {
    && t.id in m && m[t.id].internal == t.Int? && m[t.id].red == Red(t)
    && (t.Int? ==>
          && m[t.id].flink == t.l.id && m[t.id].blink == t.r.id
          && Hangs(m, t.l.id, t.id, true) && Hangs(m, t.r.id, t.id, false)
          && m[t.l.id].red == Red(t.l) && m[t.r.id].red == Red(t.r))
  }

  lemma {:induction false} Look(m: Mem, t: Tree)
    requires Shape(m, t)
    ensures Visible(m, t)
  {
  }

  // ---- Framing ----

  ghost predicate SameBody(m: Mem, m': Mem, x: Ptr) {
    && x in m && x in m'
    && m[x].red == m'[x].red && m[x].internal == m'[x].internal
    && (m[x].internal ==> m[x].flink == m'[x].flink && m[x].blink == m'[x].blink)
  }

  ghost predicate SameUp(m: Mem, m': Mem, x: Ptr) {
    && x in m && x in m' && m[x].head == m'[x].head
    && m[x].parent == m'[x].parent && m[x].left == m'[x].left && m[x].root == m'[x].root
  }

  lemma {:induction false} ShapeFrame(m: Mem, m': Mem, t: Tree)
    requires Shape(m, t) && Unique(t)
    requires forall x :: x in Ids(t) ==> SameBody(m, m', x)
    requires forall x :: x in Ids(t) && x != t.id ==> SameUp(m, m', x)
    ensures Shape(m', t)
  {
    assert t.id in Ids(t) && SameBody(m, m', t.id);
    match t
    case Ext(_) =>
    case Int(_, _, l, r) =>
      ShapeFrame(m, m', l);
      ShapeFrame(m, m', r);
      assert l.id in Ids(l) && r.id in Ids(r);
      assert SameUp(m, m', l.id) && SameUp(m, m', r.id);
  }

  /** Outside `e` the pools agree. */
  ghost predicate Agree(m: Mem, m': Mem, e: set<Ptr>) {
    forall p :: p in m && p !in e ==> p in m' && m'[p] == m[p]
  }

  lemma {:induction false} KeepShape(m: Mem, m': Mem, t: Tree, e: set<Ptr>)
    requires Shape(m, t) && Unique(t) && Agree(m, m', e)
    requires forall p :: p in e && p in Ids(t) ==> p == t.id && SameBody(m, m', p)
    ensures Shape(m', t)
  {
    ShapeKinds(m, t);
    ShapeFrame(m, m', t);
  }

  ghost predicate SameFarSide(m: Mem, m': Mem, x: Ptr, left: bool) {
    && x in m && x in m' && m'[x].internal == m[x].internal && m'[x].red == m[x].red
    && Child(m', x, !left) == Child(m, x, !left)
  }

  lemma {:induction false} AroundFrame(m: Mem, m': Mem, h: Ptr, c: Path)
    requires Around(m, h, c) && UniquePath(c) && h !in PathIds(c)
    requires h in m' && m'[h].head && !m'[h].internal
    requires c.In? ==> h in m && m[h].parent == m'[h].parent
    requires forall x :: x in PathIds(c) ==> SameUp(m, m', x)
    requires forall x :: x in PathIds(c) && x != c.id ==> SameBody(m, m', x)
    requires c.In? ==> SameFarSide(m, m', c.id, c.left)
    ensures Around(m', h, c)
  {
    match c
    case Top =>
    case In(up, left, id, red, sib) =>
      ShapeFrame(m, m', sib);
      assert sib.id in Ids(sib) && SameUp(m, m', sib.id) && SameUp(m, m', id);
      if up.In? {
        assert SameBody(m, m', up.id);
      }
      AroundFrame(m, m', h, up);
  }

  lemma {:induction false} KeepAround(m: Mem, m': Mem, h: Ptr, c: Path, e: set<Ptr>)
    requires Around(m, h, c) && UniquePath(c) && h !in PathIds(c) && Agree(m, m', e)
    requires forall p :: p in e && p in PathIds(c) ==> p == c.id && SameUp(m, m', p) && SameFarSide(m, m', p, c.left)
    requires h in e ==> h in m' && m'[h].head && !m'[h].internal && (c.In? ==> h in m && m[h].parent == m'[h].parent)
    ensures Around(m', h, c)
  {
    AroundKeys(m, h, c);
    AroundFrame(m, m', h, c);
  }

  /** Colours aside, only tree links differ: the list, the caches and the data
      are untouched, and nothing is allocated or freed. */
  ghost predicate SameData(m: Mem, m': Mem) {
    && m.Keys == m'.Keys
    && forall x :: x in m ==>
         && m[x].key == m'[x].key && m[x].val == m'[x].val
         && m[x].internal == m'[x].internal
         && (!m[x].internal ==> m[x].flink == m'[x].flink && m[x].blink == m'[x].blink)
  }

  lemma {:induction false} ShapePaint(m: Mem, t: Tree, red: bool)
    requires Shape(m, t) && Unique(t) && t.Int?
    ensures Shape(m[t.id := m[t.id].(red := red)], Paint(t, red))
  {
    match t
    case Int(id, _, l, r) =>
      var m' := m[id := m[id].(red := red)];
      assert l.id in Ids(l) && r.id in Ids(r);
      KeepShape(m, m', l, {id});
      KeepShape(m, m', r, {id});
      assert m' == m[t.id := m[t.id].(red := red)];
  }

  lemma {:induction false} AroundPaint(m: Mem, h: Ptr, c: Path, x: Ptr, red: bool)
    requires Around(m, h, c) && UniquePath(c) && h !in PathIds(c)
    requires x in m && x !in PathIds(c) && x != h
    ensures Around(m[x := m[x].(red := red)], h, c)
  {
    KeepAround(m, m[x := m[x].(red := red)], h, c, {x});
  }

  lemma {:induction false} PaintRep(m: Mem, h: Ptr, c: Path, t: Tree, red: bool)
    requires Rep(m, h, c, t) && t.Int?
    ensures Rep(m[t.id := m[t.id].(red := red)], h, c, Paint(t, red))
    ensures SameData(m, m[t.id := m[t.id].(red := red)])
  {
    ShapePaint(m, t, red);
    AroundPaint(m, h, c, t.id, red);
  }

  lemma {:induction false} PaintKidRep(m: Mem, h: Ptr, c: Path, t: Tree, left: bool, red: bool)
    requires Rep(m, h, c, t) && CanRotate(t, left)
    ensures var k := Kid(t, left).id;
            && k in m && Rep(m[k := m[k].(red := red)], h, c, PaintKid(t, left, red))
            && SameData(m, m[k := m[k].(red := red)])
  {
    var k := Kid(t, left);
    Zip(m, h, c, left, t.id, t.red, k, Kid(t, !left));
    PaintRep(m, h, In(c, left, t.id, t.red, Kid(t, !left)), k, red);
    Zip(m[k.id := m[k.id].(red := red)], h, c, left, t.id, t.red, Paint(k, red), Kid(t, !left));
  }

  lemma {:induction false} PaintPairRep(m: Mem, h: Ptr, c: Path, t: Tree, left: bool, kidRed: bool, red: bool)
    requires Rep(m, h, c, t) && CanRotate(t, left)
    ensures var k := Kid(t, left).id;
            && k in m && t.id in m && k != t.id
            && var m1 := m[k := m[k].(red := kidRed)];
            && var m2 := m1[t.id := m1[t.id].(red := red)];
            && Rep(m2, h, c, Paint(PaintKid(t, left, kidRed), red))
            && SameData(m, m2)
  {
    var k := Kid(t, left).id;
    assert k in Ids(Kid(t, left));
    PaintKidRep(m, h, c, t, left, kidRed);
    PaintRep(m[k := m[k].(red := kidRed)], h, c, PaintKid(t, left, kidRed), red);
  }

  lemma {:induction false} AroundKeys(m: Mem, h: Ptr, c: Path)
    requires Around(m, h, c)
    ensures h in m && m[h].head && !m[h].internal
    ensures forall x :: x in PathIds(c) ==> x in m
  {
    match c
    case Top =>
    case In(up, _, _, _, sib) =>
      ShapeKinds(m, sib);
      AroundKeys(m, h, up);
  }

  // ---- The list and the caches ----

  /** Position `i` of the circular list; both ends meet in the head. */
  function At(h: Ptr, ls: seq<Ptr>, i: int): Ptr {
    if 0 <= i < |ls| then ls[i] else h
  }

  /** The circular doubly linked list through the head is exactly `ls`. */
  ghost predicate Listed(m: Mem, h: Ptr, ls: seq<Ptr>) {
    && h in m && m[h].flink == At(h, ls, 0) && m[h].blink == At(h, ls, |ls| - 1)
    && forall i :: 0 <= i < |ls| ==> Neighbours(m, h, ls, i)
  }

  ghost predicate Neighbours(m: Mem, h: Ptr, ls: seq<Ptr>, i: nat)
    requires i < |ls|
  {
    ls[i] in m && m[ls[i]].flink == At(h, ls, i + 1) && m[ls[i]].blink == At(h, ls, i - 1)
  }

  /** The i-th internal node stands between leaf i and leaf i + 1: its lext is
      the last leaf of its left subtree, its rext the first of its right one. */
  ghost predicate Cached(m: Mem, ls: seq<Ptr>, ins: seq<Ptr>) {
    && |ls| == |ins| + 1
    && forall i :: 0 <= i < |ins| ==>
         ins[i] in m && m[ins[i]].key == V(ls[i]) && m[ins[i]].val == V(ls[i + 1])
  }

  function First(t: Tree): Ptr {
    Leaves(t)[0]
  }

  function Last(t: Tree): Ptr {
    Leaves(t)[|Leaves(t)| - 1]
  }

  /** The same said node by node, without the sequences. */
  ghost predicate CachesAgree(m: Mem, t: Tree) {
    match t
    case Ext(_) => true
    case Int(n, _, l, r) =>
      && n in m && m[n].key == V(Last(l)) && m[n].val == V(First(r))
      && CachesAgree(m, l) && CachesAgree(m, r)
  }

  lemma {:induction false} CachedMeaning(m: Mem, t: Tree)
    ensures Cached(m, Leaves(t), Inners(t)) <==> CachesAgree(m, t)
  {
    match t
    case Ext(_) =>
    case Int(n, _, l, r) =>
      CachedMeaning(m, l);
      CachedMeaning(m, r);
      CachedJoin(m, Leaves(l), Inners(l), n, Leaves(r), Inners(r));
  }

  lemma {:induction false} CachedJoin(m: Mem, ls: seq<Ptr>, ns: seq<Ptr>, n: Ptr, ls': seq<Ptr>, ns': seq<Ptr>)
    requires |ls| == |ns| + 1 && |ls'| == |ns'| + 1
    ensures Cached(m, ls + ls', ns + [n] + ns')
       <==> Cached(m, ls, ns) && Cached(m, ls', ns')
            && n in m && m[n].key == V(ls[|ls| - 1]) && m[n].val == V(ls'[0])
  {
    var all, ins := ls + ls', ns + [n] + ns';
    assert forall i :: 0 <= i < |ns| ==> ins[i] == ns[i];
    assert forall i :: 0 <= i < |ls| ==> all[i] == ls[i];
    assert ins[|ns|] == n && all[|ns|] == ls[|ls| - 1] && all[|ls|] == ls'[0];
    if Cached(m, all, ins) {
      forall i | 0 <= i < |ns'|
        ensures ns'[i] in m && m[ns'[i]].key == V(ls'[i]) && m[ns'[i]].val == V(ls'[i + 1])
      {
        assert ins[|ls| + i] == ns'[i] && all[|ls| + (i + 1)] == ls'[i + 1];
      }
    }
  }

  // ---- Edits of the list and of the caches ----

  /** The pools hold the same trees: every tree link and colour agrees. */
  ghost predicate SameTree(m: Mem, m': Mem) {
    forall x :: x in m ==> SameBody(m, m', x) && SameUp(m, m', x)
  }

  /** Only list links of external nodes differ. */
  ghost predicate ListOnly(m: Mem, m': Mem) {
    && m'.Keys == m.Keys && SameTree(m, m')
    && forall x :: x in m ==> m'[x].key == m[x].key && m'[x].val == m[x].val
  }

  lemma {:induction false} Relink(m: Mem, m': Mem, p: Ptr, n: Node)
    requires ListOnly(m, m') && p in m && !m[p].internal
    requires n == m'[p].(flink := n.flink, blink := n.blink)
    ensures ListOnly(m, m'[p := n])
  {
  }

  lemma {:induction false} SameTreeRep(m: Mem, m': Mem, h: Ptr, c: Path, t: Tree)
    requires Rep(m, h, c, t) && SameTree(m, m')
    ensures Rep(m', h, c, t)
  {
    ShapeKinds(m, t);
    ShapeFrame(m, m', t);
    AroundKeys(m, h, c);
    AroundFrame(m, m', h, c);
    assert t.id in Ids(t);
  }

  /** The list reads only list links. */
  lemma {:induction false} ListedFrame(m: Mem, m': Mem, h: Ptr, ls: seq<Ptr>)
    requires Listed(m, h, ls)
    requires h in m' && m'[h].flink == m[h].flink && m'[h].blink == m[h].blink
    requires forall x :: x in ls && x in m ==> x in m' && m'[x].flink == m[x].flink && m'[x].blink == m[x].blink
    ensures Listed(m', h, ls)
  {
    forall i | 0 <= i < |ls| ensures Neighbours(m', h, ls, i) {
      assert Neighbours(m, h, ls, i) && ls[i] in ls;
    }
  }

  ghost predicate Spliced(m: Mem, m': Mem, w: Ptr, at: Ptr, last: Ptr) {
    && m'.Keys == m.Keys && w in m && at in m && last in m
    && m'[at].blink == w && m'[last].flink == w && m'[w].blink == last && m'[w].flink == at
    && (forall x :: x in m && x != w && x != at ==> m'[x].blink == m[x].blink)
    && (forall x :: x in m && x != w && x != last ==> m'[x].flink == m[x].flink)
  }

  /** insert() of the C code puts `w` in front of position k. */
  lemma {:induction false} ListedInsert(m: Mem, m': Mem, h: Ptr, ls: seq<Ptr>, k: nat, w: Ptr)
    requires Listed(m, h, ls) && NoDup(ls) && h !in ls && w !in ls && w != h && k <= |ls|
    requires Spliced(m, m', w, At(h, ls, k), At(h, ls, k - 1))
    ensures Listed(m', h, Insert(ls, k, w))
  {
    var ls' := Insert(ls, k, w);
    forall i | 0 <= i < |ls'| ensures Neighbours(m', h, ls', i) {
      if i < k {
        assert ls'[i] == ls[i] && Neighbours(m, h, ls, i);
      } else if i > k {
        assert ls'[i] == ls[i - 1] && Neighbours(m, h, ls, i - 1);
      }
    }
  }

  /** delete_item() of the C code bypasses position k. */
  ghost predicate Bypassed(m: Mem, m': Mem, next: Ptr, last: Ptr) {
    && m'.Keys == m.Keys && next in m && last in m
    && m'[next].blink == last && m'[last].flink == next
    && (forall x :: x in m && x != next ==> m'[x].blink == m[x].blink)
    && (forall x :: x in m && x != last ==> m'[x].flink == m[x].flink)
  }

  lemma {:induction false} ListedRemove(m: Mem, m': Mem, h: Ptr, ls: seq<Ptr>, k: nat)
    requires Listed(m, h, ls) && NoDup(ls) && h !in ls && k < |ls|
    requires Bypassed(m, m', At(h, ls, k + 1), At(h, ls, k - 1))
    ensures Listed(m', h, Remove(ls, k))
  {
    var ls' := Remove(ls, k);
    forall i | 0 <= i < |ls'| ensures Neighbours(m', h, ls', i) {
      ListedRemoveNode(m, m', h, ls, k, i);
    }
    AtRemoved(h, ls, k, 0);
    AtRemoved(h, ls, k, |ls'| - 1);
  }

  lemma {:induction false} ListedRemoveNode(m: Mem, m': Mem, h: Ptr, ls: seq<Ptr>, k: nat, i: nat)
    requires Listed(m, h, ls) && NoDup(ls) && h !in ls && k < |ls| && i + 1 < |ls|
    requires Bypassed(m, m', At(h, ls, k + 1), At(h, ls, k - 1))
    ensures Neighbours(m', h, Remove(ls, k), i)
  {
    var j := if i < k then i else i + 1;
    var x := ls[j];
    assert Remove(ls, k)[i] == x && Neighbours(m, h, ls, j);
    AtRemoved(h, ls, k, i + 1);
    AtRemoved(h, ls, k, i - 1);
    assert x != At(h, ls, k - 1) || j == k - 1;
    assert x != At(h, ls, k + 1) || j == k + 1;
  }

  lemma {:induction false} AtRemoved(h: Ptr, ls: seq<Ptr>, k: nat, i: int)
    requires k < |ls| && -1 <= i < |ls|
    ensures At(h, Remove(ls, k), i) == At(h, ls, if i < k then i else i + 1)
  {
  }

  /** A new leaf `w` and its new parent `q` in front of leaf k. */
  lemma {:induction false} CachedInsertBefore(m: Mem, m': Mem, ls: seq<Ptr>, ins: seq<Ptr>, k: nat, w: Ptr, q: Ptr)
    requires Cached(m, ls, ins) && NoDup(ins) && k < |ls|
    requires q in m' && m'[q].key == V(w) && m'[q].val == V(ls[k])
    requires forall x :: x in ins ==> x in m' && m'[x].key == m[x].key
    requires forall x :: x in ins && (k > 0 ==> x != ins[k - 1]) ==> m'[x].val == m[x].val
    requires k > 0 ==> m'[ins[k - 1]].val == V(w)
    ensures Cached(m', Insert(ls, k, w), Insert(ins, k, q))
  {
    var ls', ins' := Insert(ls, k, w), Insert(ins, k, q);
    forall i | 0 <= i < |ins'|
      ensures ins'[i] in m' && m'[ins'[i]].key == V(ls'[i]) && m'[ins'[i]].val == V(ls'[i + 1])
    {
      if i < k {
        assert ins'[i] == ins[i] && ins[i] in ins;
      } else if i > k {
        assert ins'[i] == ins[i - 1] && ins[i - 1] in ins;
      }
    }
  }

  lemma {:induction false} CachedAppend(m: Mem, m': Mem, ls: seq<Ptr>, ins: seq<Ptr>, w: Ptr, q: Ptr)
    requires Cached(m, ls, ins)
    requires q in m' && m'[q].key == V(ls[|ls| - 1]) && m'[q].val == V(w)
    requires forall x :: x in ins ==> x in m' && m'[x].key == m[x].key && m'[x].val == m[x].val
    ensures Cached(m', ls + [w], ins + [q])
  {
    forall i | 0 <= i < |ins| ensures m'[ins[i]].key == V(ls[i]) && m'[ins[i]].val == V(ls[i + 1]) {
      assert ins[i] in ins;
    }
  }

  /** Leaf k goes, and internal node j beside it (j is k or k - 1). */
  lemma {:induction false} CachedRemove(m: Mem, m': Mem, ls: seq<Ptr>, ins: seq<Ptr>, k: nat, j: nat)
    requires Cached(m, ls, ins) && NoDup(ins) && k < |ls| && j < |ins| && (j == k || j + 1 == k)
    requires forall i :: 0 <= i < |ins| && i != j ==> ins[i] in m'
    requires forall i :: 0 <= i < |ins| && i != j && i != k ==> m'[ins[i]].key == m[ins[i]].key
    requires forall i :: 0 <= i < |ins| && i != j && i + 1 != k ==> m'[ins[i]].val == m[ins[i]].val
    requires j == k && k > 0 ==> m'[ins[k - 1]].val == V(ls[k + 1])
    requires j + 1 == k && k < |ins| ==> m'[ins[k]].key == V(ls[k - 1])
    ensures Cached(m', Remove(ls, k), Remove(ins, j))
  {
    var ls', ins' := Remove(ls, k), Remove(ins, j);
    forall i | 0 <= i < |ins'|
      ensures ins'[i] in m' && m'[ins'[i]].key == V(ls'[i]) && m'[ins'[i]].val == V(ls'[i + 1])
    {
      if i < j {
        assert ins'[i] == ins[i];
      } else {
        assert ins'[i] == ins[i + 1];
      }
    }
  }
}
