/** The tree that jrb.c keeps over its list of external nodes, as a value.
    Data lives only in external nodes; an internal node only branches. A place
    inside a tree is a Path (the frames from that place up to the root), which
    is what the C code walks when it follows parent pointers. */
module RedBlackTree {
  import opened Collections

  type Ptr = nat

  datatype Tree =
    | Ext(id: Ptr)
    | Int(id: Ptr, red: bool, l: Tree, r: Tree)

  /** In(up, left, id, red, sib): the hole is the left (or right) child of the
      internal node `id`, whose other child is `sib`. */
  datatype Path =
    | Top
    | In(up: Path, left: bool, id: Ptr, red: bool, sib: Tree)

  predicate Red(t: Tree) {
    t.Int? && t.red
  }

  function Paint(t: Tree, red: bool): Tree {
    match t
    case Ext(_) => t
    case Int(id, _, l, r) => Int(id, red, l, r)
  }

  function Join(left: bool, id: Ptr, red: bool, t: Tree, sib: Tree): Tree {
    if left then Int(id, red, t, sib) else Int(id, red, sib, t)
  }

  function Kid(t: Tree, left: bool): Tree
    requires t.Int?
  {
    if left then t.l else t.r
  }

  function PaintKid(t: Tree, left: bool, red: bool): Tree
    requires t.Int?
  {
    Join(left, t.id, t.red, Paint(Kid(t, left), red), Kid(t, !left))
  }

  function Plug(c: Path, t: Tree): Tree {
    match c
    case Top => t
    case In(up, left, id, red, sib) => Plug(up, Join(left, id, red, t, sib))
  }

  // ---- What a tree holds, in order ----

  function Leaves(t: Tree): (s: seq<Ptr>)
    ensures |s| > 0
  {
    match t
    case Ext(id) => [id]
    case Int(_, _, l, r) => Leaves(l) + Leaves(r)
  }

  function Inners(t: Tree): (s: seq<Ptr>)
    ensures |s| + 1 == |Leaves(t)|
  {
    match t
    case Ext(_) => []
    case Int(id, _, l, r) => Inners(l) + [id] + Inners(r)
  }

  function LeavesBefore(c: Path): seq<Ptr> {
    match c
    case Top => []
    case In(up, left, _, _, sib) =>
      if left then LeavesBefore(up) else LeavesBefore(up) + Leaves(sib)
  }

  function LeavesAfter(c: Path): seq<Ptr> {
    match c
    case Top => []
    case In(up, left, _, _, sib) =>
      if left then Leaves(sib) + LeavesAfter(up) else LeavesAfter(up)
  }

  function InnersBefore(c: Path): (s: seq<Ptr>)
    ensures |s| == |LeavesBefore(c)|
  {
    match c
    case Top => []
    case In(up, left, id, _, sib) =>
      if left then InnersBefore(up) else InnersBefore(up) + Inners(sib) + [id]
  }

  function InnersAfter(c: Path): (s: seq<Ptr>)
    ensures |s| == |LeavesAfter(c)|
  {
    match c
    case Top => []
    case In(up, left, id, _, sib) =>
      if left then [id] + Inners(sib) + InnersAfter(up) else InnersAfter(up)
  }

  lemma {:induction false} Regroup(a: seq<Ptr>, b: seq<Ptr>, c: seq<Ptr>, d: seq<Ptr>)
    ensures a + (b + c) + d == a + b + (c + d) == (a + b) + c + d
  {
  }

  lemma {:induction false} InMid(a: seq<Ptr>, b: seq<Ptr>, c: seq<Ptr>, d: seq<Ptr>, i: nat)
    requires i < |b|
    ensures (a + (b + c) + d)[|a| + i] == b[i]
  {
  }

  lemma {:induction false} MidIndex(a: seq<Ptr>, b: seq<Ptr>, c: seq<Ptr>, d: seq<Ptr>)
    requires |b| > 0 && |c| > 0
    ensures (a + (b + c) + d)[|a| + |b| - 1] == b[|b| - 1]
    ensures (b + c)[|b + c| - 1] == c[|c| - 1]
  {
  }

  lemma {:induction false} RegroupMid(a: seq<Ptr>, b: seq<Ptr>, x: Ptr, c: seq<Ptr>, d: seq<Ptr>)
    ensures a + (b + [x] + c) + d == a + b + ([x] + c + d)
    ensures a + (b + [x] + c) + d == (a + b + [x]) + c + d
  {
  }

  lemma {:induction false} PlugOrder(c: Path, t: Tree)
    ensures Leaves(Plug(c, t)) == LeavesBefore(c) + Leaves(t) + LeavesAfter(c)
    ensures Inners(Plug(c, t)) == InnersBefore(c) + Inners(t) + InnersAfter(c)
  {
    match c
    case Top =>
    case In(up, left, id, red, sib) =>
      PlugOrder(up, Join(left, id, red, t, sib));
      if left {
        Regroup(LeavesBefore(up), Leaves(t), Leaves(sib), LeavesAfter(up));
        RegroupMid(InnersBefore(up), Inners(t), id, Inners(sib), InnersAfter(up));
      } else {
        Regroup(LeavesBefore(up), Leaves(sib), Leaves(t), LeavesAfter(up));
        RegroupMid(InnersBefore(up), Inners(sib), id, Inners(t), InnersAfter(up));
      }
  }

  function Insert(s: seq<Ptr>, k: nat, x: Ptr): seq<Ptr>
    requires k <= |s|
  {
    s[..k] + [x] + s[k..]
  }

  function Remove(s: seq<Ptr>, k: nat): seq<Ptr>
    requires k < |s|
  {
    s[..k] + s[k + 1..]
  }

  /** The place of the k-th leaf of `t`, when `t` itself stands at `c`. */
  function Locate(c: Path, t: Tree, k: nat): (c': Path)
    requires k < |Leaves(t)|
    ensures Plug(c', Ext(Leaves(t)[k])) == Plug(c, t)
    ensures |LeavesBefore(c')| == |LeavesBefore(c)| + k
    decreases t
  {
    match t
    case Ext(_) => c
    case Int(id, red, l, r) =>
      if k < |Leaves(l)| then Locate(In(c, true, id, red, r), l, k)
      else Locate(In(c, false, id, red, l), r, k - |Leaves(l)|)
  }

  function PathOf(t: Tree, k: nat): (c: Path)
    requires k < |Leaves(t)|
    ensures Plug(c, Ext(Leaves(t)[k])) == t && |LeavesBefore(c)| == k
  {
    Locate(Top, t, k)
  }

  // ---- Which nodes a tree is made of ----

  function Ids(t: Tree): set<Ptr> {
    match t
    case Ext(id) => {id}
    case Int(id, _, l, r) => {id} + Ids(l) + Ids(r)
  }

  function PathIds(c: Path): set<Ptr> {
    match c
    case Top => {}
    case In(up, _, id, _, sib) => {id} + Ids(sib) + PathIds(up)
  }

  predicate Unique(t: Tree) {
    match t
    case Ext(_) => true
    case Int(id, _, l, r) =>
      id !in Ids(l) && id !in Ids(r) && Ids(l) !! Ids(r) && Unique(l) && Unique(r)
  }

  predicate UniquePath(c: Path) {
    match c
    case Top => true
    case In(up, _, id, _, sib) =>
      && id !in Ids(sib) && id !in PathIds(up) && Ids(sib) !! PathIds(up)
      && Unique(sib) && UniquePath(up)
  }

  lemma {:induction false} PlugIds(c: Path, t: Tree)
    ensures Ids(Plug(c, t)) == PathIds(c) + Ids(t)
    ensures Unique(Plug(c, t)) <==> UniquePath(c) && Unique(t) && PathIds(c) !! Ids(t)
  {
    match c
    case Top =>
    case In(up, left, id, red, sib) =>
      PlugIds(up, Join(left, id, red, t, sib));
  }

  lemma {:induction false} NoDupConcat(a: seq<Ptr>, b: seq<Ptr>)
    requires NoDup(a) && NoDup(b) && forall x :: x in a ==> x !in b
    ensures NoDup(a + b)
  {
    forall i, j | 0 <= i < j < |a + b| ensures (a + b)[i] != (a + b)[j] {
      if i < |a| <= j {
        assert a[i] in a && b[j - |a|] in b;
      }
    }
  }

  lemma {:induction false} OrderIds(t: Tree)
    ensures forall x :: x in Ids(t) <==> x in Leaves(t) || x in Inners(t)
    ensures Unique(t) ==> NoDup(Leaves(t)) && NoDup(Inners(t))
    ensures Unique(t) ==> forall x :: x in Leaves(t) ==> x !in Inners(t)
  {
    match t
    case Ext(_) =>
    case Int(_, _, l, r) =>
      OrderIds(l);
      OrderIds(r);
      if Unique(t) {
        NoDupConcat(Leaves(l), Leaves(r));
        NoDupConcat(Inners(l), [t.id]);
        NoDupConcat(Inners(l) + [t.id], Inners(r));
      }
  }

  lemma {:induction false} IdsAreMembers(t: Tree)
    ensures Ids(t) == Elems(Leaves(t)) + Elems(Inners(t))
    ensures Unique(t) ==> Elems(Leaves(t)) !! Elems(Inners(t))
  {
    OrderIds(t);
  }

  lemma {:induction false} InsertMembers(s: seq<Ptr>, k: nat, x: Ptr)
    requires k <= |s|
    ensures Elems(Insert(s, k, x)) == Elems(s) + {x}
  {
    forall y | y in s ensures y in Insert(s, k, x) {
      var i :| 0 <= i < |s| && s[i] == y;
      assert Insert(s, k, x)[if i < k then i else i + 1] == y;
    }
    assert Insert(s, k, x)[k] == x;
  }

  lemma {:induction false} RemoveMembers(s: seq<Ptr>, k: nat)
    requires k < |s| && NoDup(s)
    ensures Elems(Remove(s, k)) == Elems(s) - {s[k]}
  {
    forall y | y in s && y != s[k] ensures y in Remove(s, k) {
      var i :| 0 <= i < |s| && s[i] == y;
      assert Remove(s, k)[if i < k then i else i - 1] == y;
    }
    forall i | 0 <= i < |Remove(s, k)| ensures Remove(s, k)[i] != s[k] && Remove(s, k)[i] in s {
      assert Remove(s, k)[i] == s[if i < k then i else i + 1];
    }
  }

  lemma {:induction false} InsertIds(t: Tree, t': Tree, k: nat, w: Ptr, j: nat, q: Ptr)
    requires k <= |Leaves(t)| && j <= |Inners(t)|
    requires Leaves(t') == Insert(Leaves(t), k, w) && Inners(t') == Insert(Inners(t), j, q)
    ensures Ids(t') == Ids(t) + {w} + {q}
  {
    IdsAreMembers(t);
    IdsAreMembers(t');
    InsertMembers(Leaves(t), k, w);
    InsertMembers(Inners(t), j, q);
  }

  lemma {:induction false} RemoveIds(t: Tree, t': Tree, k: nat, j: nat)
    requires Unique(t) && k < |Leaves(t)| && j < |Inners(t)|
    requires Leaves(t') == Remove(Leaves(t), k) && Inners(t') == Remove(Inners(t), j)
    ensures Ids(t') == Ids(t) - {Leaves(t)[k], Inners(t)[j]}
  {
    OrderIds(t);
    IdsAreMembers(t);
    IdsAreMembers(t');
    RemoveMembers(Leaves(t), k);
    RemoveMembers(Inners(t), j);
    MinusTwo(Elems(Leaves(t)), Elems(Inners(t)), Leaves(t)[k], Inners(t)[j]);
  }

  lemma {:induction false} MinusTwo(a: set<Ptr>, b: set<Ptr>, x: Ptr, y: Ptr)
    requires a !! b && x in a && y in b
    ensures (a - {x}) + (b - {y}) == (a + b) - {x, y}
  {
  }

  // ---- The red-black invariant ----

  /** Black nodes from the root of `t` down its leftmost path, leaf included. */
  function BlackHeight(t: Tree): nat {
    match t
    case Ext(_) => 1
    case Int(_, red, l, _) => BlackHeight(l) + if red then 0 else 1
  }

  /** Every path from the root to a leaf carries the same number of blacks. */
  predicate Even(t: Tree) {
    match t
    case Ext(_) => true
    case Int(_, _, l, r) => BlackHeight(l) == BlackHeight(r) && Even(l) && Even(r)
  }

  predicate NoRedRed(t: Tree) {
    match t
    case Ext(_) => true
    case Int(_, red, l, r) => (red ==> !Red(l) && !Red(r)) && NoRedRed(l) && NoRedRed(r)
  }

  /** What every reachable tree satisfies: a red root is possible, but only
      over exactly two leaves. */
  predicate RedBlack(t: Tree) {
    Even(t) && NoRedRed(t) && (Red(t) ==> |Leaves(t)| == 2)
  }

  /** A subtree of black height `b` placed in the hole leaves every path even. */
  predicate Fits(c: Path, b: nat) {
    match c
    case Top => true
    case In(up, _, _, red, sib) =>
      Even(sib) && BlackHeight(sib) == b && Fits(up, if red then b else b + 1)
  }

  predicate Calm(c: Path, holeRed: bool) {
    match c
    case Top => true
    case In(up, _, _, red, sib) =>
      NoRedRed(sib) && (red ==> !holeRed && !Red(sib)) && Calm(up, red)
  }

  lemma {:induction false} CalmBlack(c: Path, holeRed: bool)
    requires Calm(c, holeRed)
    ensures Calm(c, false)
  {
  }

  /** The colour of the outermost frame, i.e. of the root. */
  predicate RootRed(c: Path)
    requires c.In?
  {
    if c.up.Top? then c.red else RootRed(c.up)
  }

  lemma {:induction false} PlugBalance(c: Path, t: Tree)
    ensures Even(Plug(c, t)) <==> Even(t) && Fits(c, BlackHeight(t))
    ensures NoRedRed(Plug(c, t)) <==> NoRedRed(t) && Calm(c, Red(t))
    ensures c.In? ==> Red(Plug(c, t)) == RootRed(c)
  {
    match c
    case Top =>
    case In(up, left, id, red, sib) =>
      PlugBalance(up, Join(left, id, red, t, sib));
  }

  lemma {:induction false} PlugDepth(c: Path, t: Tree)
    requires c.In?
    ensures Plug(c, t).Int? && |Leaves(Plug(c, t))| > |Leaves(t)|
    ensures c.up.In? ==> |Leaves(Plug(c, t))| >= 3
  {
    PlugOrder(c, t);
    if c.up.In? {
      PlugDepth(c.up, Join(c.left, c.id, c.red, t, c.sib));
    } 
  }

  /** In a red-black tree with more than one internal level the root is black. */
  lemma {:induction false} RootBlack(c: Path, t: Tree)
    requires RedBlack(Plug(c, t)) && c.In? && (c.up.In? || t.Int? || c.sib.Int?)
    ensures !RootRed(c)
  {
    PlugBalance(c, t);
    PlugDepth(c, t);
    PlugOrder(c, t);
  }

  lemma {:induction false} Settle(c: Path, t: Tree)
    requires Even(t) && NoRedRed(t) && Fits(c, BlackHeight(t)) && Calm(c, Red(t))
    requires if c.In? then !RootRed(c) else !Red(t)
    ensures RedBlack(Plug(c, t)) && !Red(Plug(c, t))
  {
    PlugBalance(c, t);
  }

  // ---- Search depth ----

  function Pow2(n: nat): (p: nat)
    ensures p >= 1
  {
    if n == 0 then 1 else 2 * Pow2(n - 1)
  }

  lemma {:induction false} ManyLeaves(t: Tree)
    requires Even(t)
    ensures BlackHeight(t) >= 1
    ensures |Leaves(t)| >= Pow2(BlackHeight(t) - 1)
  {
    match t
    case Ext(_) =>
    case Int(_, _, l, r) =>
      ManyLeaves(l);
      ManyLeaves(r);
  }

  function Depth(c: Path): nat {
    match c
    case Top => 0
    case In(up, _, _, _, _) => 1 + Depth(up)
  }

  function Blacks(c: Path): nat {
    match c
    case Top => 0
    case In(up, _, _, red, _) => Blacks(up) + if red then 0 else 1
  }

  lemma {:induction false} PathHeights(c: Path, t: Tree)
    requires Even(Plug(c, t)) && NoRedRed(Plug(c, t))
    ensures BlackHeight(Plug(c, t)) == BlackHeight(t) + Blacks(c)
    ensures Depth(c) <= 2 * Blacks(c) + if c.In? && c.red then 1 else 0
  {
    match c
    case Top =>
    case In(up, left, id, red, sib) =>
      PathHeights(up, Join(left, id, red, t, sib));
      PlugBalance(c, t);
  }

  /** jrb_plength and jrb_nblack of any leaf: the black count is the same for
      every leaf and the path is at most twice as long. */
  lemma {:induction false} LeafDepth(c: Path, n: Ptr)
    requires RedBlack(Plug(c, Ext(n)))
    ensures Blacks(c) + 1 == BlackHeight(Plug(c, Ext(n)))
    ensures Depth(c) + 1 <= 2 * (Blacks(c) + 1)
    ensures |Leaves(Plug(c, Ext(n)))| >= Pow2(Blacks(c))
  {
    PathHeights(c, Ext(n));
    ManyLeaves(Plug(c, Ext(n)));
  }

  // ---- Rotation ----

  predicate CanRotate(t: Tree, left: bool) {
    t.Int? && Kid(t, left).Int?
  }

  /** single_rotate: the child on side `left` takes its parent's place. Both
      nodes keep their colours. */
  function Rotate(t: Tree, left: bool): Tree
    requires CanRotate(t, left)
  {
    var x := Kid(t, left);
    Join(left, x.id, x.red, Kid(x, left),
         Join(left, t.id, t.red, Kid(x, !left), Kid(t, !left)))
  }

  lemma {:induction false} RotateOrder(t: Tree, left: bool)
    requires CanRotate(t, left)
    ensures Leaves(Rotate(t, left)) == Leaves(t)
    ensures Inners(Rotate(t, left)) == Inners(t)
    ensures Ids(Rotate(t, left)) == Ids(t)
    ensures Unique(Rotate(t, left)) == Unique(t)
  {
    var a, b, d := Kid(Kid(t, left), left), Kid(Kid(t, left), !left), Kid(t, !left);
    if left {
      Regroup([], Leaves(a), Leaves(b), Leaves(d));
      RegroupMid([], Inners(a), t.l.id, Inners(b), [t.id] + Inners(d));
    } else {
      Regroup([], Leaves(d), Leaves(b), Leaves(a));
      RegroupMid([], Inners(d), t.id, Inners(b), [t.r.id] + Inners(a));
    }
    RotateIds(t, left);
  }

  lemma {:induction false} RotateIds(t: Tree, left: bool)
    requires CanRotate(t, left)
    ensures Ids(Rotate(t, left)) == Ids(t)
    ensures Unique(Rotate(t, left)) == Unique(t)
  {
  }

  // ---- Insertion: recolor ----

  /** Where recolor's climb ends, starting from the red internal node `t`. */
  function InsertFix(c: Path, t: Tree): Tree
    requires t.Int?
  {
    match c
    case Top => Paint(t, false)
    case In(up, pl, p, pred, psib) =>
      if !pred then Plug(c, t)
      else match up
        case Top => Join(pl, p, false, t, psib)
        case In(up2, gl, g, _, u) =>
          if Red(u) then
            InsertFix(up2, Join(gl, g, true, Join(pl, p, false, t, psib), Paint(u, false)))
          else if pl == gl then
            Plug(up2, Join(gl, p, false, t, Join(gl, g, true, psib, u)))
          else
            Plug(up2, Join(gl, t.id, false, Join(pl, p, true, Kid(t, gl), psib),
                           Join(gl, g, true, Kid(t, pl), u)))
  }

  lemma {:induction false} InsertFixOrder(c: Path, t: Tree)
    requires t.Int?
    ensures Leaves(InsertFix(c, t)) == Leaves(Plug(c, t))
    ensures Inners(InsertFix(c, t)) == Inners(Plug(c, t))
  {
    match c
    case Top =>
    case In(up, pl, p, pred, psib) =>
      if !pred {
      } else {
        match up
        case Top =>
        case In(up2, gl, g, gred, u) =>
          var whole := Join(gl, g, gred, Join(pl, p, pred, t, psib), u);
          PlugOrder(up2, whole);
          if Red(u) {
            var next := Join(gl, g, true, Join(pl, p, false, t, psib), Paint(u, false));
            InsertFixOrder(up2, next);
            PlugOrder(up2, next);
          } else if pl == gl {
            RotateOrder(whole, gl);
            PlugOrder(up2, Join(gl, p, false, t, Join(gl, g, true, psib, u)));
          } else {
            RotateOrder(Join(pl, p, pred, t, psib), pl);
            var half := Join(gl, g, gred, Rotate(Join(pl, p, pred, t, psib), pl), u);
            RotateOrder(half, gl);
            PlugOrder(up2, Join(gl, t.id, false, Join(pl, p, true, Kid(t, gl), psib),
                                Join(gl, g, true, Kid(t, pl), u)));
          }
      }
  }

  /** The state of recolor's loop: the tree is red-black but for a possible red
      parent above the red node `t`. */
  predicate Intruding(c: Path, t: Tree) {
    && t.Int? && t.red && Even(t) && NoRedRed(t)
    && Fits(c, BlackHeight(t)) && Calm(c, false)
    && (c.In? && RootRed(c) ==> c.up.Top?)
  }

  lemma {:induction false} InsertFixRedBlack(c: Path, t: Tree)
    requires Intruding(c, t)
    ensures RedBlack(InsertFix(c, t)) && !Red(InsertFix(c, t))
  {
    match c
    case Top =>
    case In(up, pl, p, pred, psib) =>
      if !pred {
        PlugBalance(c, t);
      } else {
        match up
        case Top =>
        case In(up2, gl, g, gred, u) =>
          assert Calm(up, pred) && Fits(up, BlackHeight(t));
          assert Calm(up2, gred) && Fits(up2, BlackHeight(t) + 1);
          assert NoRedRed(u) && Even(u) && BlackHeight(u) == BlackHeight(t);
          assert RootRed(c) == RootRed(up) == if up2.Top? then gred else RootRed(up2);
          if Red(u) {
            InsertFixRedBlack(up2, Join(gl, g, true, Join(pl, p, false, t, psib), Paint(u, false)));
          } else if pl == gl {
            var high := Join(gl, g, true, psib, u);
            assert Even(high) && NoRedRed(high);
            PlugBalance(up2, Join(gl, p, false, t, high));
          } else {
            var low, high := Join(pl, p, true, Kid(t, gl), psib), Join(gl, g, true, Kid(t, pl), u);
            assert Even(low) && NoRedRed(low) && Even(high) && NoRedRed(high);
            PlugBalance(up2, Join(gl, t.id, false, low, high));
          }
      }
  }

  // ---- Deletion ----

  /** The tree after the fix-up, or one of the messages printed before exit(1). */
  datatype Outcome = Done(t: Tree) | Exit

  /** The fix-up above a black subtree `n` that is one black short. */
  function DeleteFix(c: Path, n: Tree): Outcome {
    match c
    case Top => Done(n)
    case In(up, il, p, pred, s) =>
      if !pred && s.Int? && !s.red && !Red(s.l) && !Red(s.r) then
        DeleteFix(up, Join(il, p, false, n, Paint(s, true)))
      else if !pred && Red(s) then
        DeleteTurn(In(In(up, il, s.id, false, Kid(s, !il)), il, p, true, Kid(s, il)), n)
      else
        DeleteTurn(c, n)
  }

  /** The last rotation (cases 2.3c to 2.3f of the C code). */
  function DeleteTurn(c: Path, n: Tree): Outcome
    requires c.In?
  {
    var In(up, il, p, pred, s) := c;
    if s.Ext? then Exit
    else
      var x, z := Kid(s, il), Kid(s, !il);
      if Red(z) then
        Done(Plug(up, Join(il, s.id, pred, Join(il, p, false, n, x), Paint(z, false))))
      else if !Red(x) then
        if s.red || !pred then Exit
        else Done(Plug(up, Join(il, p, false, n, Paint(s, true))))
      else
        Done(Plug(up, Join(il, x.id, false, Join(il, p, pred, n, Kid(x, il)),
                           Join(il, s.id, pred || s.red, Kid(x, !il), z))))
  }

  /** Unlinking the leaf that hangs beside `s` under node `p`: what is left
      before any fix-up, and the tree jrb_delete_node ends with. */
  function DeleteTree(c: Path, pred: bool, s: Tree): Outcome {
    if c.Top? then Done(s)
    else if s.Int? then if !s.red then Exit else Done(Plug(c, Paint(s, false)))
    else if pred then Done(Plug(c, s))
    else DeleteFix(c, s)
  }

  lemma {:induction false} DeleteTurnOrder(c: Path, n: Tree)
    requires c.In? && DeleteTurn(c, n).Done?
    ensures Leaves(DeleteTurn(c, n).t) == Leaves(Plug(c, n))
    ensures Inners(DeleteTurn(c, n).t) == Inners(Plug(c, n))
  {
    var In(up, il, p, pred, s) := c;
    var x, z := Kid(s, il), Kid(s, !il);
    var whole := Join(il, p, pred, n, s);
    PlugOrder(up, whole);
    if Red(z) {
      RotateOrder(whole, !il);
      PlugOrder(up, Join(il, s.id, pred, Join(il, p, false, n, x), Paint(z, false)));
    } else if !Red(x) {
      PlugOrder(up, Join(il, p, false, n, Paint(s, true)));
    } else {
      RotateOrder(s, il);
      RotateOrder(Join(il, p, pred, n, Rotate(s, il)), !il);
      PlugOrder(up, Join(il, x.id, false, Join(il, p, pred, n, Kid(x, il)),
                         Join(il, s.id, pred || s.red, Kid(x, !il), z)));
    }
  }

  lemma {:induction false} DeleteFixOrder(c: Path, n: Tree)
    requires DeleteFix(c, n).Done?
    ensures Leaves(DeleteFix(c, n).t) == Leaves(Plug(c, n))
    ensures Inners(DeleteFix(c, n).t) == Inners(Plug(c, n))
  {
    match c
    case Top =>
    case In(up, il, p, pred, s) =>
      var whole := Join(il, p, pred, n, s);
      PlugOrder(up, whole);
      if !pred && s.Int? && !s.red && !Red(s.l) && !Red(s.r) {
        var next := Join(il, p, false, n, Paint(s, true));
        DeleteFixOrder(up, next);
        PlugOrder(up, next);
      } else if !pred && Red(s) {
        var turned := In(In(up, il, s.id, false, Kid(s, !il)), il, p, true, Kid(s, il));
        DeleteTurnOrder(turned, n);
        RotateOrder(whole, !il);
        var low := Join(il, p, true, n, Kid(s, il));
        PlugOrder(up, Join(il, s.id, false, low, Kid(s, !il)));
      } else {
        DeleteTurnOrder(c, n);
      }
  }

  /** The state of the deletion loop: everything fits a subtree one black
      higher than `n`, and `n` is black. */
  predicate Deficient(c: Path, n: Tree) {
    && !Red(n) && Even(n) && NoRedRed(n)
    && Fits(c, BlackHeight(n) + 1) && Calm(c, false)
    && (c.In? ==> !RootRed(c))
  }

  lemma {:induction false} DeleteTurnRedBlack(c: Path, n: Tree)
    requires c.In? && Deficient(c, n) && BlackHeight(n) >= 1
    requires !Red(c.sib) && (c.red || Red(c.sib.l) || Red(c.sib.r))
    ensures DeleteTurn(c, n).Done?
    ensures RedBlack(DeleteTurn(c, n).t) && !Red(DeleteTurn(c, n).t)
  {
    var In(up, il, p, pred, s) := c;
    var x, z := Kid(s, il), Kid(s, !il);
    Nephews(c, n);
    CalmBlack(up, pred);
    if Red(z) {
      SettlePair(up, il, s.id, pred, Join(il, p, false, n, x), Paint(z, false));
    } else if !Red(x) {
      SettlePair(up, il, p, false, n, Paint(s, true));
    } else {
      SettlePair(up, il, x.id, false, Join(il, p, pred, n, Kid(x, il)),
                 Join(il, s.id, pred || s.red, Kid(x, !il), z));
    }
  }

  lemma {:induction false} Nephews(c: Path, n: Tree)
    requires c.In? && Deficient(c, n) && BlackHeight(n) >= 1 && !Red(c.sib)
    ensures c.sib.Int? && Calm(c.up, c.red) && Even(c.sib) && NoRedRed(c.sib) && BlackHeight(c.sib) == BlackHeight(n) + 1
    ensures var x, z := Kid(c.sib, c.left), Kid(c.sib, !c.left);
            && Even(x) && Even(z) && NoRedRed(x) && NoRedRed(z)
            && BlackHeight(x) == BlackHeight(z) == BlackHeight(n)
  {
  }

  lemma {:induction false} SettlePair(c: Path, left: bool, id: Ptr, red: bool, low: Tree, high: Tree)
    requires Even(low) && NoRedRed(low) && Even(high) && NoRedRed(high) && BlackHeight(low) == BlackHeight(high)
    requires red ==> !Red(low) && !Red(high)
    requires Fits(c, BlackHeight(low) + if red then 0 else 1) && Calm(c, red)
    requires if c.In? then !RootRed(c) else !red
    ensures var t := Plug(c, Join(left, id, red, low, high)); RedBlack(t) && !Red(t)
  {
    Settle(c, Join(left, id, red, low, high));
  }

  lemma {:induction false} DeleteFixRedBlack(c: Path, n: Tree)
    requires Deficient(c, n) && BlackHeight(n) >= 1
    ensures DeleteFix(c, n).Done?
    ensures RedBlack(DeleteFix(c, n).t) && !Red(DeleteFix(c, n).t)
  {
    match c
    case Top =>
    case In(up, il, p, pred, s) =>
      assert Even(s) && NoRedRed(s) && BlackHeight(s) == BlackHeight(n) + 1;
      assert Calm(up, pred) && (up.In? ==> RootRed(up) == RootRed(c));
      if !pred && s.Int? && !s.red && !Red(s.l) && !Red(s.r) {
        DeleteFixRedBlack(up, Join(il, p, false, n, Paint(s, true)));
      } else if !pred && Red(s) {
        var upper := In(up, il, s.id, false, Kid(s, !il));
        assert Calm(upper, true) && Fits(upper, BlackHeight(n) + 1);
        DeleteTurnRedBlack(In(upper, il, p, true, Kid(s, il)), n);
      } else {
        DeleteTurnRedBlack(c, n);
      }
  }

  /** Deleting the leaf `n` beside `s` from any red-black tree: the result is
      red-black again, exactly `n` and its parent are gone from the two
      sequences, and no error exit is reached. */
  lemma {:induction false} DeleteTreeCorrect(c: Path, left: bool, p: Ptr, pred: bool, n: Ptr, s: Tree)
    requires RedBlack(Plug(c, Join(left, p, pred, Ext(n), s)))
    ensures DeleteTree(c, pred, s).Done?
    ensures RedBlack(DeleteTree(c, pred, s).t)
    ensures Leaves(DeleteTree(c, pred, s).t) == LeavesBefore(c) + Leaves(s) + LeavesAfter(c)
    ensures Inners(DeleteTree(c, pred, s).t) == InnersBefore(c) + Inners(s) + InnersAfter(c)
  {
    var whole := Join(left, p, pred, Ext(n), s);
    PlugBalance(c, whole);
    assert Even(whole) && NoRedRed(whole) && Even(s) && NoRedRed(s) && BlackHeight(s) == 1;
    ShortSibling(s);
    PlugOrder(c, s);
    if c.Top? {
    } else {
      RootBlack(c, whole);
      if s.Int? {
        PlugBalance(c, Paint(s, false));
        PlugOrder(c, Paint(s, false));
      } else if pred {
        PlugBalance(c, s);
      } else {
        DeleteFixRedBlack(c, s);
        DeleteFixOrder(c, s);
      }
    }
  }

  /** A deletion leaves a red root exactly when the leaf hung from the root
      itself, beside an internal node. */
  lemma {:induction false} DeleteRootRed(c: Path, left: bool, p: Ptr, pred: bool, n: Ptr, s: Tree)
    requires RedBlack(Plug(c, Join(left, p, pred, Ext(n), s)))
    ensures DeleteTree(c, pred, s).Done? && (Red(DeleteTree(c, pred, s).t) <==> c.Top? && s.Int?)
  {
    var whole := Join(left, p, pred, Ext(n), s);
    DeleteTreeCorrect(c, left, p, pred, n, s);
    PlugBalance(c, whole);
    ShortSibling(s);
    if c.In? {
      RootBlack(c, whole);
      PlugBalance(c, Paint(s, false));
      PlugBalance(c, s);
      if s.Ext? && !pred {
        DeleteFixRedBlack(c, s);
      }
    }
  }

  /** The smallest such tree: three leaves, the first one goes. */
  lemma {:induction false} RedRootAfterDelete(a: Ptr, b: Ptr, d: Ptr, p: Ptr, q: Ptr)
    ensures var s := Int(q, true, Ext(b), Ext(d));
            RedBlack(Join(true, p, false, Ext(a), s)) && !Red(Join(true, p, false, Ext(a), s))
            && DeleteTree(Top, false, s) == Done(s) && Red(s)
  {
  }

  lemma {:induction false} ThreeLeaves(t: Tree)
    requires RedBlack(t) && |Leaves(t)| == 3
    ensures t.Int? && !t.red && (t.l.Ext? <==> t.r.Int?)
  {
    OneLeaf(t.l);
    OneLeaf(t.r);
  }

  lemma {:induction false} OneLeaf(t: Tree)
    ensures |Leaves(t)| == 1 <==> t.Ext?
  {
  }

  /** A subtree as high as a single leaf is a leaf, or a red node over two. */
  lemma {:induction false} ShortSibling(s: Tree)
    requires Even(s) && NoRedRed(s) && BlackHeight(s) == 1
    ensures s.Ext? || (s.red && s.l.Ext? && s.r.Ext?)
  {
    if s.Int? {
      ManyLeaves(s.l);
      ManyLeaves(s.r);
      if s.red {
        ShortSibling(s.l);
        ShortSibling(s.r);
      }
    }
  }

  /** Replacing the leaf `n` by a red internal node over two leaves, from any
      red-black tree (even one whose root is red). */
  lemma {:induction false} InsertTreeCorrect(c: Path, n: Ptr, t: Tree)
    requires RedBlack(Plug(c, Ext(n)))
    requires t.Int? && t.red && t.l.Ext? && t.r.Ext?
    ensures RedBlack(InsertFix(c, t)) && !Red(InsertFix(c, t))
    ensures Leaves(InsertFix(c, t)) == LeavesBefore(c) + Leaves(t) + LeavesAfter(c)
    ensures Inners(InsertFix(c, t)) == InnersBefore(c) + Inners(t) + InnersAfter(c)
  {
    PlugBalance(c, Ext(n));
    if c.In? && c.up.In? {
      RootBlack(c, Ext(n));
    }
    InsertFixRedBlack(c, t);
    InsertFixOrder(c, t);
    PlugOrder(c, t);
  }

  /** A new leaf `w` under a new node `q`, beside the leaf `n`: both land in
      the two sequences exactly where they were asked for. */
  lemma {:induction false} NewLeafTree(c: Path, n: Ptr, w: Ptr, q: Ptr, before: bool)
    requires RedBlack(Plug(c, Ext(n)))
    ensures var t := Plug(c, Ext(n));
            var t' := InsertFix(c, Join(before, q, true, Ext(w), Ext(n)));
            var k := |LeavesBefore(c)|;
            && RedBlack(t') && !Red(t') && k < |Leaves(t)| && Leaves(t)[k] == n
            && Leaves(t') == Insert(Leaves(t), if before then k else k + 1, w)
            && Inners(t') == Insert(Inners(t), k, q)
  {
    PlugOrder(c, Ext(n));
    InsertTreeCorrect(c, n, Join(before, q, true, Ext(w), Ext(n)));
    InsertBeside(LeavesBefore(c), n, w, LeavesAfter(c));
    InsertEmpty(InnersBefore(c), q, InnersAfter(c));
  }

  lemma {:induction false} NewLastTree(t: Tree, c: Path, e: Ptr, k: nat, w: Ptr, q: Ptr)
    requires RedBlack(t) && Plug(c, Ext(e)) == t && |LeavesBefore(c)| + 1 == |Leaves(t)| == k
    ensures var t' := InsertFix(c, Int(q, true, Ext(e), Ext(w)));
            && RedBlack(t') && !Red(t') && Leaves(t') == Insert(Leaves(t), k, w)
            && Inners(t') == Insert(Inners(t), k - 1, q)
            && Leaves(t')[|Leaves(t')| - 1] == w
  {
    NewLeafTree(c, e, w, q, false);
  }

  lemma {:induction false} InsertBeside(a: seq<Ptr>, n: Ptr, w: Ptr, d: seq<Ptr>)
    ensures Insert(a + [n] + d, |a|, w) == a + ([w] + [n]) + d
    ensures Insert(a + [n] + d, |a| + 1, w) == a + ([n] + [w]) + d
  {
  }

  lemma {:induction false} InsertEmpty(a: seq<Ptr>, q: Ptr, d: seq<Ptr>)
    ensures Insert(a + [] + d, |a|, q) == a + ([] + [q] + []) + d
  {
  }

  lemma {:induction false} RemoveFirst(a: seq<Ptr>, x: Ptr, b: seq<Ptr>, d: seq<Ptr>)
    ensures (a + ([x] + b) + d)[|a|] == x
    ensures Remove(a + ([x] + b) + d, |a|) == a + b + d
  {
  }

  lemma {:induction false} RemoveLast(a: seq<Ptr>, b: seq<Ptr>, x: Ptr, d: seq<Ptr>)
    ensures (a + (b + [x]) + d)[|a| + |b|] == x
    ensures Remove(a + (b + [x]) + d, |a| + |b|) == a + b + d
  {
  }

  /** The leaf `n` and its parent leave the two sequences. */
  lemma {:induction false} DropLeafTree(c: Path, left: bool, p: Ptr, pred: bool, n: Ptr, s: Tree)
    requires RedBlack(Plug(c, Join(left, p, pred, Ext(n), s)))
    ensures var t := Plug(c, Join(left, p, pred, Ext(n), s));
            var o := DeleteTree(c, pred, s);
            var k := |LeavesBefore(c)| + if left then 0 else |Leaves(s)|;
            var j := if left then k else k - 1;
            && o.Done? && RedBlack(o.t) && k < |Leaves(t)| && Leaves(t)[k] == n
            && j < |Inners(t)| && Inners(t)[j] == p
            && Leaves(o.t) == Remove(Leaves(t), k) && Inners(o.t) == Remove(Inners(t), j)
  {
    DeleteTreeCorrect(c, left, p, pred, n, s);
    DropOrder(c, left, p, pred, n, s);
  }

  lemma {:induction false} DropOrder(c: Path, left: bool, p: Ptr, pred: bool, n: Ptr, s: Tree)
    ensures var t := Plug(c, Join(left, p, pred, Ext(n), s));
            var k := |LeavesBefore(c)| + if left then 0 else |Leaves(s)|;
            var j := if left then k else k - 1;
            && k < |Leaves(t)| && Leaves(t)[k] == n && j < |Inners(t)| && Inners(t)[j] == p
            && Remove(Leaves(t), k) == LeavesBefore(c) + Leaves(s) + LeavesAfter(c)
            && Remove(Inners(t), j) == InnersBefore(c) + Inners(s) + InnersAfter(c)
  {
    DropLeaves(c, left, p, pred, n, s);
    DropInners(c, left, p, pred, n, s);
  }

  lemma {:induction false} DropLeaves(c: Path, left: bool, p: Ptr, pred: bool, n: Ptr, s: Tree)
    ensures var ls := Leaves(Plug(c, Join(left, p, pred, Ext(n), s)));
            var k := |LeavesBefore(c)| + if left then 0 else |Leaves(s)|;
            k < |ls| && ls[k] == n && Remove(ls, k) == LeavesBefore(c) + Leaves(s) + LeavesAfter(c)
  {
    var pair := Join(left, p, pred, Ext(n), s);
    PlugOrder(c, pair);
    PairOrder(left, p, pred, n, s);
    DropFrom(left, LeavesBefore(c), n, Leaves(s), LeavesAfter(c), Leaves(pair));
  }

  lemma {:induction false} DropInners(c: Path, left: bool, p: Ptr, pred: bool, n: Ptr, s: Tree)
    ensures var ins := Inners(Plug(c, Join(left, p, pred, Ext(n), s)));
            var j := |InnersBefore(c)| + if left then 0 else |Inners(s)|;
            j < |ins| && ins[j] == p && Remove(ins, j) == InnersBefore(c) + Inners(s) + InnersAfter(c)
  {
    var pair := Join(left, p, pred, Ext(n), s);
    PlugOrder(c, pair);
    PairOrder(left, p, pred, n, s);
    DropFrom(left, InnersBefore(c), p, Inners(s), InnersAfter(c), Inners(pair));
  }

  lemma {:induction false} DropFrom(left: bool, a: seq<Ptr>, x: Ptr, b: seq<Ptr>, d: seq<Ptr>, mid: seq<Ptr>)
    requires mid == if left then [x] + b else b + [x]
    ensures var s := a + mid + d;
            var k := if left then |a| else |a| + |b|;
            s[k] == x && Remove(s, k) == a + b + d
  {
    if left {
      RemoveFirst(a, x, b, d);
    } else {
      RemoveLast(a, b, x, d);
    }
  }

  lemma {:induction false} PairOrder(left: bool, p: Ptr, pred: bool, n: Ptr, s: Tree)
    ensures var t := Join(left, p, pred, Ext(n), s);
            if left then Leaves(t) == [n] + Leaves(s) && Inners(t) == [p] + Inners(s)
            else Leaves(t) == Leaves(s) + [n] && Inners(t) == Inners(s) + [p]
  {
    assert [] + [p] + Inners(s) == [p] + Inners(s);
  }
}
