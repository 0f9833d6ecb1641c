/** The operations of jrb.c on the node pool. Every method keeps, as ghost
    parameters, the place in the tree it works at; the pool itself is changed
    field by field in the order of the C code. */
module Jrb {
  import opened Collections
  import opened RedBlackTree
  import opened JrbMemory
  import opened JrbOrder

  datatype Content = Empty | Full(t: Tree)

  /** Only the head is left. */
  ghost predicate Bare(m: Mem, h: Ptr) {
    && m.Keys == {h} && m[h].head && !m[h].internal
    && m[h].parent == h && m[h].flink == h && m[h].blink == h
  }

  /** The pool is exactly the head, the red-black tree `t`, the circular list
      of its leaves and their caches. */
  ghost predicate Holds(m: Mem, h: Ptr, t: Tree) {
    && Rep(m, h, Top, t) && RedBlack(t)
    && Listed(m, h, Leaves(t)) && Cached(m, Leaves(t), Inners(t))
    && m.Keys == Ids(t) + {h}
  }

  class Pool {
    var mem: Mem
    const head: Ptr
    ghost var tree: Content

    /** The invariant of every tree a client can hold: a red-black tree over
        the circular list of its leaves, with exact caches and no stray node. */
    ghost predicate Valid()
      reads this
    {
      match tree
      case Empty => Bare(mem, head)
      case Full(t) => Holds(mem, head, t)
    }

    /** The external nodes in list order. */
    ghost function List(): seq<Ptr>
      reads this
    {
      if tree.Empty? then [] else Leaves(tree.t)
    }

    ghost predicate RootIsRed()
      reads this
    {
      tree.Full? && Red(tree.t)
    }

    /** make_jrb: `p` is the address malloc answers with. */
    constructor (p: Ptr)
      ensures Valid() && List() == [] && head == p
    {
      head := p;
      mem := map[p := Node(false, false, false, false, true, p, p, p, V(0), V(0))];
      tree := Empty;
    }

    method Malloc(n: Node) returns (p: Ptr)
      modifies this`mem
      ensures p !in old(mem) && mem == old(mem)[p := n]
    {
      FreshNat(mem.Keys);
      p :| p !in mem.Keys;
      mem := mem[p := n];
    }

    // ---- The list ----

    /** insert: `item` in front of `at`, the k-th element (the head ends the list). */
    method LinkBefore(item: Ptr, at: Ptr, ghost ls: seq<Ptr>, ghost k: nat)
      requires Listed(mem, head, ls) && NoDup(ls) && head !in ls && k <= |ls| && at == At(head, ls, k)
      requires item in mem && item !in ls && item != head
      requires forall x :: x in ls + [head, item] ==> x in mem && !mem[x].internal
      modifies this`mem
      ensures Listed(mem, head, Insert(ls, k, item))
      ensures ListOnly(old(mem), mem)
    {
      ghost var m := mem;
      if k < |ls| {
        assert Neighbours(mem, head, ls, k) && ls[k] in ls + [head, item];
      }
      if 0 < k {
        assert Neighbours(mem, head, ls, k - 1) && ls[k - 1] in ls + [head, item];
      }
      assert head in ls + [head, item] && item in ls + [head, item];
      Splice(item, at);
      ListedInsert(m, mem, head, ls, k, item);
    }

    method Splice(item: Ptr, at: Ptr)
      requires item in mem && at in mem && mem[at].blink in mem && item != at && item != mem[at].blink
      requires !mem[item].internal && !mem[at].internal && !mem[mem[at].blink].internal
      modifies this`mem
      ensures Spliced(old(mem), mem, item, at, old(mem[at].blink))
      ensures ListOnly(old(mem), mem)
    {
      ghost var m := mem;
      var last := mem[at].blink;
      Relink(m, mem, at, mem[at].(blink := item));
      mem := mem[at := mem[at].(blink := item)];
      Relink(m, mem, last, mem[last].(flink := item));
      mem := mem[last := mem[last].(flink := item)];
      Relink(m, mem, item, mem[item].(blink := last));
      mem := mem[item := mem[item].(blink := last)];
      Relink(m, mem, item, mem[item].(flink := at));
      mem := mem[item := mem[item].(flink := at)];
    }

    /** delete_item */
    method Unlink(item: Ptr, ghost ls: seq<Ptr>, ghost k: nat)
      requires Listed(mem, head, ls) && NoDup(ls) && head !in ls && k < |ls| && item == ls[k]
      requires forall x :: x in ls + [head] ==> x in mem && !mem[x].internal
      modifies this`mem
      ensures Listed(mem, head, Remove(ls, k))
      ensures ListOnly(old(mem), mem)
    {
      ghost var m := mem;
      assert Neighbours(mem, head, ls, k);
      if k + 1 < |ls| {
        assert Neighbours(mem, head, ls, k + 1) && ls[k + 1] in ls + [head];
      }
      if 0 < k {
        assert Neighbours(mem, head, ls, k - 1) && ls[k - 1] in ls + [head];
      }
      assert head in ls + [head];
      Bypass(item);
      ListedRemove(m, mem, head, ls, k);
    }

    method Bypass(item: Ptr)
      requires item in mem && mem[item].flink in mem && mem[item].blink in mem
      requires item != mem[item].flink && item != mem[item].blink
      requires !mem[item].internal && !mem[mem[item].flink].internal && !mem[mem[item].blink].internal
      modifies this`mem
      ensures Bypassed(old(mem), mem, old(mem[item].flink), old(mem[item].blink))
      ensures ListOnly(old(mem), mem)
    {
      ghost var m := mem;
      var next := mem[item].flink;
      Relink(m, mem, next, mem[next].(blink := mem[item].blink));
      mem := mem[next := mem[next].(blink := mem[item].blink)];
      var last := mem[item].blink;
      Relink(m, mem, last, mem[last].(flink := mem[item].flink));
      mem := mem[last := mem[last].(flink := mem[item].flink)];
    }

    // ---- Neighbours in the tree ----

    /** lprev: the internal node just before the subtree of `n`, or the head. */
    method LPrev(n0: Ptr, ghost c0: Path, ghost t0: Tree) returns (p: Ptr)
      requires head in mem && mem[head].head
      requires n0 != head ==> Rep(mem, head, c0, t0) && t0.id == n0
      ensures n0 == head ==> p == head
      ensures n0 != head ==> p == At(head, InnersBefore(c0), |InnersBefore(c0)| - 1)
    {
      if mem[n0].head {
        return n0;
      }
      var n := n0;
      ghost var c, t := c0, t0;
      while !mem[n].root
        invariant Rep(mem, head, c, t) && t.id == n
        invariant InnersBefore(c) == InnersBefore(c0)
        decreases c
      {
        if !mem[n].left {
          return mem[n].parent;
        }
        Zip(mem, head, c.up, c.left, c.id, c.red, t, c.sib);
        n := mem[n].parent;
        c, t := c.up, Join(c.left, c.id, c.red, t, c.sib);
      }
      return mem[n].parent;
    }

    /** rprev: the internal node just after the subtree of `n`, or the head. */
    method RPrev(n0: Ptr, ghost c0: Path, ghost t0: Tree) returns (p: Ptr)
      requires head in mem && mem[head].head
      requires n0 != head ==> Rep(mem, head, c0, t0) && t0.id == n0
      ensures n0 == head ==> p == head
      ensures n0 != head ==> p == At(head, InnersAfter(c0), 0)
    {
      if mem[n0].head {
        return n0;
      }
      var n := n0;
      ghost var c, t := c0, t0;
      while !mem[n].root
        invariant Rep(mem, head, c, t) && t.id == n
        invariant InnersAfter(c) == InnersAfter(c0)
        decreases c
      {
        if mem[n].left {
          return mem[n].parent;
        }
        Zip(mem, head, c.up, c.left, c.id, c.red, t, c.sib);
        n := mem[n].parent;
        c, t := c.up, Join(c.left, c.id, c.red, t, c.sib);
      }
      return mem[n].parent;
    }

    // ---- Rotation ----

    /** First half of single_rotate: `x` comes up, `b` changes sides. */
    method TurnDown(y: Ptr, l: bool, ghost s: Spot) returns (x: Ptr)
      requires s.y == y && Ready(mem, s, l)
      modifies this`mem
      ensures x == s.x
      ensures Only(old(mem), mem, s.b, s.x, y)
      ensures mem[s.b] == old(mem)[s.b].(parent := y, left := l)
      ensures mem[s.x] == WithChild(old(mem)[s.x], !l, y)
      ensures mem[y] == WithChild(old(mem)[y], l, s.b).(left := !l)
    {
      if l {
        x := mem[y].flink;
        mem := mem[y := mem[y].(flink := mem[x].blink)];
        var b := mem[y].flink;
        mem := mem[b := mem[b].(left := true)];
        mem := mem[b := mem[b].(parent := y)];
        mem := mem[x := mem[x].(blink := y)];
        mem := mem[y := mem[y].(left := false)];
      } else {
        x := mem[y].blink;
        mem := mem[y := mem[y].(blink := mem[x].flink)];
        var b := mem[y].blink;
        mem := mem[b := mem[b].(left := false)];
        mem := mem[b := mem[b].(parent := y)];
        mem := mem[x := mem[x].(flink := y)];
        mem := mem[y := mem[y].(left := true)];
      }
    }

    /** Second half of single_rotate: `x` takes y's place under `yp`. */
    method HangInstead(y: Ptr, x: Ptr, yp: Ptr, ir: bool, rl: bool)
      requires y in mem && x in mem && yp in mem && y != x && y != yp && x != yp
      modifies this`mem
      ensures Only(old(mem), mem, y, x, yp)
      ensures mem[y] == (if ir then old(mem)[y].(root := false, head := false) else old(mem)[y])
      ensures mem[x] == (if ir then old(mem)[x].(root := true) else old(mem)[x].(left := rl))
      ensures mem[yp] == (if ir then old(mem)[yp].(parent := x) else WithChild(old(mem)[yp], rl, x))
    {
      if ir {
        mem := mem[yp := mem[yp].(parent := x)];
        mem := mem[y := mem[y].(root := false, head := false)];
        mem := mem[x := mem[x].(root := true)];
      } else if rl {
        mem := mem[yp := mem[yp].(flink := x)];
        mem := mem[x := mem[x].(left := true)];
      } else {
        mem := mem[yp := mem[yp].(blink := x)];
        mem := mem[x := mem[x].(left := false)];
      }
    }

    method Surgery(y: Ptr, l: bool, ghost s: Spot)
      requires s.y == y && Ready(mem, s, l)
      modifies this`mem
      ensures Turned(old(mem), mem, s, l)
    {
      var ir := mem[y].root;
      var yp := mem[y].parent;
      var rl := mem[y].left;
      var x := TurnDown(y, l, s);
      mem := mem[x := mem[x].(parent := yp)];
      mem := mem[y := mem[y].(parent := x)];
      HangInstead(y, x, yp, ir, rl);
    }

    method SingleRotate(y: Ptr, l: bool, ghost c: Path, ghost t: Tree)
      requires Rep(mem, head, c, t) && t.id == y && CanRotate(t, l)
      modifies this`mem
      ensures Rep(mem, head, c, Rotate(t, l))
      ensures SameData(old(mem), mem)
    {
      RotateReady(mem, head, c, t, l);
      Surgery(y, l, SpotOf(head, c, t, l));
      RotateRep(old(mem), mem, head, c, t, l);
    }

    // ---- Insertion ----

    /** sibling: the other child of n's parent. */
    method Sibling(n: Ptr, ghost c: Path, ghost t: Tree) returns (s: Ptr)
      requires Rep(mem, head, c, t) && t.id == n && c.In?
      ensures s == c.sib.id
    {
      s := if mem[n].left then mem[mem[n].parent].blink else mem[mem[n].parent].flink;
    }

    /** recolor: climb from the red node `n` until the colours are right. */
    method Recolor(n: Ptr, ghost c0: Path, ghost t0: Tree)
      requires Rep(mem, head, c0, t0) && t0.Int? && t0.id == n
      modifies this`mem
      ensures Rep(mem, head, Top, InsertFix(c0, t0))
      ensures SameData(old(mem), mem)
    {
      var n := n;
      var p, gp := n, n;
      var done := false;
      ghost var c, t := c0, t0;
      while !done
        invariant Rep(mem, head, c, t) && t.Int? && t.id == n
        invariant InsertFix(c, t) == InsertFix(c0, t0)
        invariant SameData(old(mem), mem)
        invariant done ==> c.In? && c.up.In? && c.red && !Red(c.up.sib) && p == c.id && gp == c.up.id
        decreases c, !done
      {
        if mem[n].root {
          PaintRep(mem, head, c, t, false);
          mem := mem[n := mem[n].(red := false)];
          return;
        }
        p := mem[n].parent;
        if !mem[p].red {
          RepPlug(mem, head, c, t);
          return;
        }
        ghost var low := Join(c.left, c.id, c.red, t, c.sib);
        Zip(mem, head, c.up, c.left, c.id, c.red, t, c.sib);
        if mem[p].root {
          PaintRep(mem, head, c.up, low, false);
          mem := mem[p := mem[p].(red := false)];
          return;
        }
        gp := mem[p].parent;
        var s := Sibling(p, c.up, low);
        if mem[s].red {
          c, t := ClimbStep(p, gp, s, c, t);
          n := gp;
        } else {
          done := true;
        }
      }
      FinishRecolor(n, p, gp, c, t);
    }

    /** The red-uncle step of recolor. */
    method ClimbStep(p: Ptr, gp: Ptr, s: Ptr, ghost c: Path, ghost t: Tree) returns (ghost c': Path, ghost t': Tree)
      requires Rep(mem, head, c, t) && t.Int? && c.In? && c.up.In? && c.red && Red(c.up.sib)
      requires p == c.id && gp == c.up.id && s == c.up.sib.id
      modifies this`mem
      ensures Rep(mem, head, c', t') && t'.Int? && t'.id == gp
      ensures c' == c.up.up && InsertFix(c', t') == InsertFix(c, t)
      ensures SameData(old(mem), mem)
    {
      ghost var In(up, gl, g, gred, u) := c.up;
      ghost var low := Join(c.left, c.id, c.red, t, c.sib);
      ZipTwice(mem, head, c, t);
      ghost var whole := Join(gl, g, gred, low, u);
      PaintPairRep(mem, head, up, whole, gl, false, true);
      mem := mem[p := mem[p].(red := false)];
      mem := mem[gp := mem[gp].(red := true)];
      ghost var painted := Paint(PaintKid(whole, gl, false), true);
      PaintKidRep(mem, head, up, painted, !gl, false);
      mem := mem[s := mem[s].(red := false)];
      c', t' := up, PaintKid(painted, !gl, false);
    }

    /** The final one or two rotations of recolor. */
    method FinishRecolor(n: Ptr, p: Ptr, gp: Ptr, ghost c: Path, ghost t: Tree)
      requires Rep(mem, head, c, t) && t.Int? && t.id == n
      requires c.In? && c.up.In? && c.red && !Red(c.up.sib) && p == c.id && gp == c.up.id
      modifies this`mem
      ensures Rep(mem, head, Top, InsertFix(c, t))
      ensures SameData(old(mem), mem)
    {
      ghost var In(up, gl, g, gred, u) := c.up;
      ghost var low := Join(c.left, c.id, c.red, t, c.sib);
      Zip(mem, head, c.up, c.left, c.id, c.red, t, c.sib);
      if mem[n].left == mem[p].left {
        Zip(mem, head, up, gl, g, gred, low, u);
        SingleRotate(gp, mem[n].left, up, Join(gl, g, gred, low, u));
        SettleColours(p, gp, gl, up, Rotate(Join(gl, g, gred, low, u), gl));
      } else {
        SingleRotate(p, mem[n].left, c.up, low);
        low := Rotate(low, c.left);
        Zip(mem, head, up, gl, g, gred, low, u);
        SingleRotate(gp, mem[n].left, up, Join(gl, g, gred, low, u));
        SettleColours(n, gp, gl, up, Rotate(Join(gl, g, gred, low, u), gl));
      }
    }

    method SettleColours(x: Ptr, gp: Ptr, ghost gl: bool, ghost up: Path, ghost w: Tree)
      requires Rep(mem, head, up, w) && CanRotate(w, !gl) && w.id == x && Kid(w, !gl).id == gp
      modifies this`mem
      ensures Rep(mem, head, Top, Plug(up, PaintKid(Paint(w, false), !gl, true)))
      ensures SameData(old(mem), mem)
    {
      PaintRep(mem, head, up, w, false);
      mem := mem[x := mem[x].(red := false)];
      PaintKidRep(mem, head, up, Paint(w, false), !gl, true);
      mem := mem[gp := mem[gp].(red := true)];
      RepPlug(mem, head, up, PaintKid(Paint(w, false), !gl, true));
    }

    /** mk_new_int: a red internal node over `l` and `r` fills the hole of `c`. */
    method MkNewInt(l: Ptr, r: Ptr, p: Ptr, il: bool, ghost c: Path) returns (q: Ptr)
      requires Around(mem, head, c) && UniquePath(c) && head !in PathIds(c)
      requires l != r && Loose(mem, head, c, l) && Loose(mem, head, c, r)
      requires p == Holder(head, c) && (c.In? ==> il == c.left)
      modifies this`mem
      ensures q !in old(mem) && q in mem && mem[q].key == V(l) && mem[q].val == V(r)
      ensures Rep(mem, head, Top, InsertFix(c, Int(q, true, Ext(l), Ext(r))))
      ensures Grown(old(mem), mem, q)
    {
      AroundKeys(mem, head, c);
      q := HangNew(l, r, p, il);
      NewIntRep(old(mem), mem, head, c, l, r, q);
      NewIntGrown(old(mem), mem, l, r, p, q, il);
      Recolor(q, c, Int(q, true, Ext(l), Ext(r)));
    }

    method HangNew(l: Ptr, r: Ptr, p: Ptr, il: bool) returns (q: Ptr)
      requires l in mem && r in mem && p in mem && l != r && l != p && r != p
      modifies this`mem
      ensures q !in old(mem) && mem.Keys == old(mem).Keys + {q}
      ensures Agree(old(mem), mem, {l, r, p})
      ensures mem[l] == old(mem)[l].(parent := q, left := true)
      ensures mem[r] == old(mem)[r].(parent := q, left := false)
      ensures var top := old(mem)[p].head;
              && mem[q] == Node(true, true, if top then false else il, top, false, l, r, p, V(l), V(r))
              && mem[p] == if top then old(mem)[p].(parent := q) else WithChild(old(mem)[p], il, q)
    {
      q := Malloc(Node(true, true, false, false, false, l, r, p, V(l), V(r)));
      mem := mem[l := mem[l].(parent := q)];
      mem := mem[r := mem[r].(parent := q)];
      mem := mem[l := mem[l].(left := true)];
      mem := mem[r := mem[r].(left := false)];
      FillHole(q, p, il);
    }

    method FillHole(q: Ptr, p: Ptr, il: bool)
      requires q in mem && p in mem && q != p
      modifies this`mem
      ensures mem.Keys == old(mem).Keys && Agree(old(mem), mem, {q, p})
      ensures mem[q] == (if old(mem)[p].head then old(mem)[q].(root := true) else old(mem)[q].(left := il))
      ensures mem[p] == (if old(mem)[p].head then old(mem)[p].(parent := q) else WithChild(old(mem)[p], il, q))
    {
      if mem[p].head {
        mem := mem[p := mem[p].(parent := q)];
        mem := mem[q := mem[q].(root := true)];
      } else if il {
        mem := mem[q := mem[q].(left := true)];
        mem := mem[p := mem[p].(flink := q)];
      } else {
        mem := mem[q := mem[q].(left := false)];
        mem := mem[p := mem[p].(blink := q)];
      }
    }

    /** mk_new_ext and insert: a fresh external node in front of `at`. */
    method NewLeaf(at: Ptr, key: Jval, val: Jval, ghost ls: seq<Ptr>, ghost k: nat) returns (w: Ptr)
      requires Listed(mem, head, ls) && NoDup(ls) && head !in ls && k <= |ls| && at == At(head, ls, k)
      requires forall x :: x in ls + [head] ==> x in mem && !mem[x].internal
      modifies this`mem
      ensures w !in old(mem) && mem.Keys == old(mem).Keys + {w}
      ensures SameTree(old(mem), mem) && SameSlots(old(mem), mem)
      ensures var n := mem[w]; !n.internal && !n.red && !n.head && !n.root && n.key == key && n.val == val
      ensures Listed(mem, head, Insert(ls, k, w))
    {
      ghost var m := mem;
      w := Malloc(Node(false, false, false, false, false, 0, 0, 0, key, val));
      ghost var m1 := mem;
      assert head in ls + [head];
      forall x | x in ls ensures x in m && x != w && !m[x].internal {
        assert x in ls + [head];
      }
      ListedFrame(m, mem, head, ls);
      LinkBefore(w, at, ls, k);
      NewLeafKept(m, m1, mem, w);
    }

    /** Sets the rext of the internal node before the k-th leaf `w`, if any. */
    method FixRext(w: Ptr, ghost t: Tree, ghost k: nat)
      requires Rep(mem, head, Top, t) && k < |Leaves(t)| && w == Leaves(t)[k]
      modifies this`mem
      ensures RextSet(old(mem), mem, Inners(t), k, w)
    {
      ghost var c := PathOf(t, k);
      RepPlug(mem, head, c, Ext(w));
      PlugOrder(c, Ext(w));
      SetRextBefore(w, w, c, Ext(w));
    }

    /** The new leaf `w` enters the list before `at`; the old leaf `e` that
        will share a parent with it is made normal. */
    method PutLeaf(at: Ptr, key: Jval, val: Jval, ghost t: Tree, ghost k: nat) returns (w: Ptr, e: Ptr)
      requires Holds(mem, head, t) && k <= |Leaves(t)| && at == At(head, Leaves(t), k)
      modifies this`mem
      ensures e == Partner(t, k)
      ensures Put(old(mem), mem, head, t, k, w) && mem[w].key == key && mem[w].val == val
    {
      ghost var m, ls := mem, Leaves(t);
      LeafFacts(m, head, t);
      w := NewLeaf(at, key, val, ls, k);
      NewLeafLinks(m, mem, head, t, k, w);
      e := if mem[at].head then mem[w].blink else at;
      ghost var m1 := mem;
      mem := mem[e := mem[e].(root := false, head := false)];
      PutHolds(m, m1, mem, head, t, k, w);
    }

    method AttachBefore(n: Ptr, key: Jval, val: Jval, ghost t: Tree, ghost k: nat) returns (w: Ptr, ghost t': Tree)
      requires Holds(mem, head, t) && k < |Leaves(t)| && n == Leaves(t)[k]
      modifies this`mem
      ensures Inserted(old(mem), mem, head, t, t', k, w) && !Red(t')
      ensures mem[w].key == key && mem[w].val == val
    {
      ghost var m := mem;
      ghost var c := PathOf(t, k);
      var e;
      w, e := PutLeaf(n, key, val, t, k);
      ghost var m1 := mem;
      var q := MkNewInt(w, n, mem[n].parent, mem[n].left, c);
      ghost var m2 := mem;
      t' := InsertFix(c, Int(q, true, Ext(w), Ext(n)));
      NewLeafTree(c, n, w, q, true);
      FixRext(w, t', k);
      InsertBeforeHolds(m, m1, m2, mem, head, t, t', k, w, q);
    }

    method AttachLast(key: Jval, val: Jval, ghost t: Tree) returns (w: Ptr, ghost t': Tree)
      requires Holds(mem, head, t)
      modifies this`mem
      ensures Inserted(old(mem), mem, head, t, t', |Leaves(t)|, w) && !Red(t')
      ensures mem[w].key == key && mem[w].val == val
    {
      ghost var m, k := mem, |Leaves(t)|;
      ghost var c := PartnerPath(t, k);
      var e;
      w, e := PutLeaf(head, key, val, t, k);
      ghost var m1 := mem;
      var q := MkNewInt(e, w, mem[e].parent, mem[e].left, c);
      t' := InsertFix(c, Int(q, true, Ext(e), Ext(w)));
      NewLastTree(t, c, e, k, w, q);
      InsertLastHolds(m, m1, mem, head, t, t', k, w, q);
      FixLext(w, t');
    }

    /** The internal node after the last leaf: there is none. */
    method FixLext(w: Ptr, ghost t: Tree)
      requires Rep(mem, head, Top, t) && w == Leaves(t)[|Leaves(t)| - 1]
      modifies this`mem
      ensures mem == old(mem)
    {
      ghost var c := PathOf(t, |Leaves(t)| - 1);
      LastPath(c, t, w);
      RepPlug(mem, head, c, Ext(w));
      SetLextAfter(w, w, c, Ext(w));
    }

    method AttachFirst(key: Jval, val: Jval) returns (w: Ptr)
      requires Bare(mem, head)
      modifies this`mem
      ensures w !in old(mem) && Holds(mem, head, Ext(w)) && mem[w].key == key && mem[w].val == val
    {
      w := Malloc(Node(false, false, false, false, false, 0, 0, 0, key, val));
      LinkBefore(w, head, [], 0);
      assert Insert([], 0, w) == [w] == Leaves(Ext(w));
      ghost var m := mem;
      mem := mem[head := mem[head].(parent := w)];
      mem := mem[w := mem[w].(parent := head)];
      mem := mem[w := mem[w].(root := true)];
      ListedSame(m, mem, head, [w]);
    }

    /** jrb_insert_b: before `n`, the k-th element; the head ends the list. */
    method InsertB(n: Ptr, key: Jval, val: Jval, ghost k: nat) returns (w: Ptr)
      requires Valid() && k <= |List()| && n == At(head, List(), k)
      modifies this
      ensures Valid() && w !in old(mem) && w in mem && List() == Insert(old(List()), k, w)
      ensures KeptData(old(mem), mem, old(List())) && mem[w].key == key && mem[w].val == val
      ensures !RootIsRed()
    {
      ghost var t';
      HeadFlags(mem, head, tree, k);
      if mem[n].head {
        if mem[n].parent == n {
          w := AttachFirst(key, val);
          t' := Ext(w);
        } else {
          w, t' := AttachLast(key, val, tree.t);
        }
      } else {
        w, t' := AttachBefore(n, key, val, tree.t, k);
      }
      tree := Full(t');
    }

    // ---- Deletion ----

    /** The fix-up of jrb_delete_node: `n` heads a subtree one black short. */
    method FixDeficit(n: Ptr, ghost c0: Path, ghost t0: Tree) returns (exited: bool)
      requires Rep(mem, head, c0, t0) && t0.id == n && c0.In?
      modifies this`mem
      ensures exited == DeleteFix(c0, t0).Exit?
      ensures !exited ==> Rep(mem, head, Top, DeleteFix(c0, t0).t)
      ensures SameData(old(mem), mem)
    {
      var n := n;
      ghost var c, t := c0, t0;
      var p := mem[n].parent;
      var s := Sibling(n, c, t);
      Look(mem, c.sib);
      while !mem[p].red && !mem[s].red && mem[s].internal
            && !mem[mem[s].flink].red && !mem[mem[s].blink].red
        invariant Rep(mem, head, c, t) && t.id == n && c.In? && p == c.id && s == c.sib.id
        invariant Visible(mem, c.sib)
        invariant DeleteFix(c, t) == DeleteFix(c0, t0)
        invariant SameData(old(mem), mem)
        decreases c
      {
        c, t := RedSiblingUp(s, c, t);
        n := p;
        if mem[n].root {
          return false;
        }
        p := mem[n].parent;
        s := Sibling(n, c, t);
        Look(mem, c.sib);
      }
      exited := CloseDeficit(n, p, s, c, t);
    }

    /** What follows the loop. */
    method CloseDeficit(n: Ptr, p: Ptr, s0: Ptr, ghost c0: Path, ghost t: Tree) returns (exited: bool)
      requires Rep(mem, head, c0, t) && t.id == n && c0.In? && p == c0.id && s0 == c0.sib.id
      requires !(!c0.red && c0.sib.Int? && !c0.sib.red && !Red(c0.sib.l) && !Red(c0.sib.r))
      modifies this`mem
      ensures exited == DeleteFix(c0, t).Exit?
      ensures !exited ==> Rep(mem, head, Top, DeleteFix(c0, t).t)
      ensures SameData(old(mem), mem)
    {
      var s := s0;
      ghost var c := c0;
      Look(mem, c.sib);
      if !mem[p].red && mem[s].red {
        s, c := RedSibling(n, p, s, c, t);
      }
      exited := FinishDelete(n, p, s, c, t);
    }

    /** One turn of the deletion loop: the sibling goes red, the deficit up. */
    method RedSiblingUp(s: Ptr, ghost c: Path, ghost t: Tree) returns (ghost c': Path, ghost t': Tree)
      requires Rep(mem, head, c, t) && c.In? && s == c.sib.id
      requires !c.red && c.sib.Int? && !c.sib.red && !Red(c.sib.l) && !Red(c.sib.r)
      modifies this`mem
      ensures c' == c.up && t'.Int? && t'.id == c.id
      ensures Rep(mem, head, c', t') && DeleteFix(c', t') == DeleteFix(c, t)
      ensures SameData(old(mem), mem)
    {
      ghost var low := Join(c.left, c.id, c.red, t, c.sib);
      Zip(mem, head, c.up, c.left, c.id, c.red, t, c.sib);
      PaintKidRep(mem, head, c.up, low, !c.left, true);
      mem := mem[s := mem[s].(red := true)];
      c', t' := c.up, PaintKid(low, !c.left, true);
    }

    /** Rotation 2.3b: a red sibling is turned above `p`. */
    method RedSibling(n: Ptr, p: Ptr, s0: Ptr, ghost c: Path, ghost t: Tree) returns (s: Ptr, ghost c': Path)
      requires Rep(mem, head, c, t) && t.id == n && c.In? && p == c.id && s0 == c.sib.id && Red(c.sib)
      modifies this`mem
      ensures c' == In(In(c.up, c.left, c.sib.id, false, Kid(c.sib, !c.left)), c.left, c.id, true, Kid(c.sib, c.left))
      ensures Rep(mem, head, c', t) && s == c'.sib.id
      ensures SameData(old(mem), mem)
    {
      ghost var In(up, il, _, pred, sib) := c;
      ghost var low := Join(il, p, pred, t, sib);
      Zip(mem, head, up, il, p, pred, t, sib);
      RotateUp(p, s0, !mem[n].left, up, low);
      c' := In(In(up, il, sib.id, false, Kid(sib, !il)), il, p, true, Kid(sib, il));
      ZipTwice(mem, head, c', t);
      s := Sibling(n, c', t);
    }

    /** Rotation 2.3b: the red sibling `s` comes up and swaps colours with `p`. */
    method RotateUp(p: Ptr, s: Ptr, l: bool, ghost up: Path, ghost low: Tree)
      requires Rep(mem, head, up, low) && low.id == p && CanRotate(low, l) && Kid(low, l).id == s
      modifies this`mem
      ensures Rep(mem, head, up, Paint(PaintKid(Rotate(low, l), !l, true), false))
      ensures SameData(old(mem), mem)
    {
      SingleRotate(p, l, up, low);
      PaintPairRep(mem, head, up, Rotate(low, l), !l, true, false);
      mem := mem[p := mem[p].(red := true)];
      mem := mem[s := mem[s].(red := false)];
    }

    /** The closing cases 2.3c to 2.3f. */
    method FinishDelete(n: Ptr, p: Ptr, s: Ptr, ghost c: Path, ghost t: Tree) returns (exited: bool)
      requires Rep(mem, head, c, t) && t.id == n && c.In? && p == c.id && s == c.sib.id
      modifies this`mem
      ensures exited == DeleteTurn(c, t).Exit?
      ensures !exited ==> Rep(mem, head, Top, DeleteTurn(c, t).t)
      ensures SameData(old(mem), mem)
    {
      Look(mem, c.sib);
      if !mem[s].internal {
        return true;
      }
      ghost var low := Join(c.left, p, c.red, t, c.sib);
      Zip(mem, head, c.up, c.left, p, c.red, t, c.sib);
      var il := mem[n].left;
      var x := if il then mem[s].flink else mem[s].blink;
      var z := if mem[x].left then mem[mem[x].parent].blink else mem[mem[x].parent].flink;
      if mem[z].red {
        Turn23f(p, s, z, il, c.up, low);
        return false;
      } else if !mem[x].red {
        if mem[s].red || !mem[p].red {
          return true;
        }
        PaintRep(mem, head, c.up, low, false);
        mem := mem[p := mem[p].(red := false)];
        low := Paint(low, false);
        PaintKidRep(mem, head, c.up, low, !il, true);
        mem := mem[s := mem[s].(red := true)];
        RepPlug(mem, head, c.up, PaintKid(low, !il, true));
        return false;
      } else {
        Turn23de(p, s, x, il, c.up, low);
        return false;
      }
    }

    /** Rotation 2.3f. */
    method Turn23f(p: Ptr, s: Ptr, z: Ptr, il: bool, ghost up: Path, ghost low: Tree)
      requires Rep(mem, head, up, low) && low.id == p && CanRotate(low, !il)
      requires Kid(low, !il).id == s && CanRotate(Kid(low, !il), !il) && Kid(Kid(low, !il), !il).id == z
      modifies this`mem
      ensures var sib := Kid(low, !il);
              Rep(mem, head, Top, Plug(up, Join(il, s, low.red, Join(il, p, false, Kid(low, il), Kid(sib, il)),
                                                Paint(Kid(sib, !il), false))))
      ensures SameData(old(mem), mem)
    {
      SingleRotate(p, !il, up, low);
      ghost var w := Rotate(low, !il);
      PaintKidRep(mem, head, up, w, !il, false);
      mem := mem[z := mem[z].(red := false)];
      w := PaintKid(w, !il, false);
      TakeColour(p, s, il, up, w);
      RepPlug(mem, head, up, PaintKid(Paint(w, low.red), il, false));
    }

    /** `s` gets the colour of its child `p`, which becomes black. */
    method TakeColour(p: Ptr, s: Ptr, il: bool, ghost up: Path, ghost w: Tree)
      requires Rep(mem, head, up, w) && CanRotate(w, il) && w.id == s && Kid(w, il).id == p
      modifies this`mem
      ensures Rep(mem, head, up, PaintKid(Paint(w, Kid(w, il).red), il, false))
      ensures SameData(old(mem), mem)
    {
      Look(mem, w);
      PaintRep(mem, head, up, w, mem[p].red);
      if mem[p].red {
        mem := mem[s := mem[s].(red := true)];
      } else {
        mem := mem[s := mem[s].(red := false)];
      }
      PaintKidRep(mem, head, up, Paint(w, Kid(w, il).red), il, false);
      mem := mem[p := mem[p].(red := false)];
    }

    /** Double rotations 2.3d (p red) and 2.3e (p black). */
    method Turn23de(p: Ptr, s: Ptr, x: Ptr, il: bool, ghost up: Path, ghost low: Tree)
      requires Rep(mem, head, up, low) && low.id == p && CanRotate(low, !il)
      requires Kid(low, !il).id == s && CanRotate(Kid(low, !il), il) && Kid(Kid(low, !il), il).id == x
      modifies this`mem
      ensures var sib := Kid(low, !il); var k := Kid(sib, il);
              Rep(mem, head, Top, Plug(up, Join(il, x, false, Join(il, p, low.red, Kid(low, il), Kid(k, il)),
                                                Join(il, s, low.red || sib.red, Kid(k, !il), Kid(sib, !il)))))
      ensures SameData(old(mem), mem)
    {
      var pred := mem[p].red;
      ghost var sib := Kid(low, !il);
      DoubleRotate(p, s, il, up, low);
      ghost var w := Rotate(Join(!il, p, low.red, Rotate(sib, il), Kid(low, il)), !il);
      PaintRep(mem, head, up, w, false);
      mem := mem[x := mem[x].(red := false)];
      w := Paint(w, false);
      if pred {
        PaintKidRep(mem, head, up, w, !il, true);
        mem := mem[s := mem[s].(red := true)];
        w := PaintKid(w, !il, true);
      }
      RepPlug(mem, head, up, w);
    }

    method DoubleRotate(p: Ptr, s: Ptr, il: bool, ghost up: Path, ghost low: Tree)
      requires Rep(mem, head, up, low) && low.id == p && CanRotate(low, !il)
      requires Kid(low, !il).id == s && CanRotate(Kid(low, !il), il)
      modifies this`mem
      ensures var mid := Join(!il, p, low.red, Rotate(Kid(low, !il), il), Kid(low, il));
              Rep(mem, head, up, Rotate(mid, !il))
      ensures SameData(old(mem), mem)
    {
      ghost var sib := Kid(low, !il);
      Zip(mem, head, up, !il, p, low.red, sib, Kid(low, il));
      SingleRotate(s, il, In(up, !il, p, low.red, Kid(low, il)), sib);
      Zip(mem, head, up, !il, p, low.red, Rotate(sib, il), Kid(low, il));
      SingleRotate(p, !il, up, Join(!il, p, low.red, Rotate(sib, il), Kid(low, il)));
    }

    /** The parent of the unlinked leaf `n` is cut out and both are freed: the
        sibling takes the parent's place. */
    method CutOut(n: Ptr, ghost c: Path) returns (s: Ptr, ir: bool, top: bool)
      requires Rep(mem, head, c, Ext(n)) && c.In?
      modifies this`mem
      ensures s == c.sib.id && ir == c.red && top == c.up.Top?
      ensures Rep(mem, head, c.up, c.sib)
      ensures Shrunk(old(mem), mem, n, c.id)
    {
      ghost var m := mem;
      CutReady(m, head, c, n);
      var p := mem[n].parent;
      s := Sibling(n, c, Ext(n));
      top := mem[p].root;
      ir := mem[p].red;
      if top {
        mem := mem[s := mem[s].(parent := mem[p].parent)];
        var h := mem[s].parent;
        mem := mem[h := mem[h].(parent := s)];
        mem := mem[s := mem[s].(root := true)];
      } else {
        var gp := mem[p].parent;
        mem := mem[s := mem[s].(parent := gp)];
        if mem[p].left {
          mem := mem[gp := mem[gp].(flink := s)];
          mem := mem[s := mem[s].(left := true)];
        } else {
          mem := mem[gp := mem[gp].(blink := s)];
          mem := mem[s := mem[s].(left := false)];
        }
      }
      mem := mem - {p};
      mem := mem - {n};
      CutRep(m, mem, head, c, n);
    }

    /** Updates the caches on both sides of the subtree `s`. */
    method FixCaches(s: Ptr, first: Ptr, last: Ptr, ghost c: Path, ghost t: Tree)
      requires Rep(mem, head, c, t) && t.id == s
      modifies this`mem
      ensures Rep(mem, head, c, t)
      ensures CachesSet(old(mem), mem, c, first, last)
    {
      ghost var m := mem;
      SetRextBefore(s, first, c, t);
      ghost var m1 := mem;
      SetLextAfter(s, last, c, t);
      CachesSetTwice(m, m1, mem, c, first, last);
    }

    method SetRextBefore(s: Ptr, first: Ptr, ghost c: Path, ghost t: Tree)
      requires Rep(mem, head, c, t) && t.id == s
      modifies this`mem
      ensures Rep(mem, head, c, t)
      ensures RextSet(old(mem), mem, InnersBefore(c), |InnersBefore(c)|, first)
    {
      ghost var m := mem;
      SideFlags(m, head, c, t);
      var p := LPrev(s, c, t);
      if !mem[p].head {
        mem := mem[p := mem[p].(val := V(first))];
      }
      RextSetKeeps(m, mem, head, c, t, InnersBefore(c), |InnersBefore(c)|, first);
    }

    method SetLextAfter(s: Ptr, last: Ptr, ghost c: Path, ghost t: Tree)
      requires Rep(mem, head, c, t) && t.id == s
      modifies this`mem
      ensures Rep(mem, head, c, t)
      ensures LextSet(old(mem), mem, InnersAfter(c), last)
    {
      ghost var m := mem;
      SideFlags(m, head, c, t);
      var p := RPrev(s, c, t);
      if !mem[p].head {
        mem := mem[p := mem[p].(key := V(last))];
      }
      LextSetKeeps(m, mem, head, c, t, InnersAfter(c), last);
    }

    /** From the cache updates to the end of jrb_delete_node. */
    method Repair(s: Ptr, ir: bool, ghost c: Path, ghost t: Tree) returns (exited: bool, ghost m3: Mem)
      requires Rep(mem, head, c, t) && t.id == s && c.In?
      requires t.Int? ==> t.l.Ext? && t.r.Ext?
      modifies this`mem
      ensures exited == DeleteTree(c, ir, t).Exit?
      ensures !exited ==> Rep(mem, head, Top, DeleteTree(c, ir, t).t)
      ensures !exited ==> CachesSet(old(mem), m3, c, First(t), Last(t)) && SameData(m3, mem)
    {
      m3 := mem;
      Look(mem, t);
      if !mem[s].internal {
        FixCaches(s, s, s, c, t);
      } else if !mem[s].red {
        return true, m3;
      } else {
        m3 := Blacken(s, c, t);
        return false, m3;
      }
      m3 := mem;
      if ir {
        RepPlug(mem, head, c, t);
        return false, m3;
      }
      exited := FixDeficit(s, c, t);
    }

    /** The sibling is a red node over two leaves: it only turns black. */
    method Blacken(s: Ptr, ghost c: Path, ghost t: Tree) returns (ghost m3: Mem)
      requires Rep(mem, head, c, t) && t.id == s && t.Int? && t.l.Ext? && t.r.Ext?
      modifies this`mem
      ensures Rep(mem, head, Top, Plug(c, Paint(t, false)))
      ensures CachesSet(old(mem), m3, c, First(t), Last(t)) && SameData(m3, mem)
    {
      Look(mem, t);
      assert Leaves(t) == [t.l.id, t.r.id];
      FixCaches(s, mem[s].flink, mem[s].blink, c, t);
      m3 := mem;
      PaintRep(mem, head, c, t, false);
      mem := mem[s := mem[s].(red := false)];
      RepPlug(mem, head, c, Paint(t, false));
    }

    /** delete_item and the cut: `n` and its parent are out of the pool. */
    method Detach(n: Ptr, ghost t: Tree, ghost k: nat, ghost c: Path)
        returns (s: Ptr, ir: bool, top: bool, ghost m1: Mem)
      requires Holds(mem, head, t) && t.Int? && k < |Leaves(t)| && n == Leaves(t)[k] && c == PathOf(t, k)
      modifies this`mem
      ensures c.In? && s == c.sib.id && ir == c.red && top == c.up.Top?
      ensures Rep(mem, head, c.up, c.sib)
      ensures Detached(old(mem), m1, mem, head, Leaves(t), k, c.id)
    {
      ghost var m := mem;
      DropStart(m, head, t, k);
      Unlink(n, Leaves(t), k);
      m1 := mem;
      SameTreeRep(m, m1, head, c, Ext(n));
      s, ir, top := CutOut(n, c);
    }

    method DropLeaf(n: Ptr, ghost t: Tree, ghost k: nat) returns (exited: bool, ghost t': Tree)
      requires Holds(mem, head, t) && t.Int? && k < |Leaves(t)| && n == Leaves(t)[k]
      modifies this`mem
      ensures !exited && Removed(old(mem), mem, head, t, t', k)
      ensures Red(t') <==> UnderRootBesideInternal(old(mem), n)
    {
      ghost var m, c, m1 := mem, PathOf(t, k), mem;
      DropRootRed(m, head, t, k);
      var s, ir, top;
      s, ir, top, m1 := Detach(n, t, k, c);
      ghost var m2, m3 := mem, mem;
      DropTree(t, c, n, k);
      t' := DeleteTree(c.up, c.red, c.sib).t;
      if top {
        exited := false;
      } else {
        exited, m3 := Repair(s, ir, c.up, c.sib);
      }
      RemovedHolds(m, m1, m2, m3, mem, head, t, t', c, k);
    }

    /** The last leaf of all goes. */
    method DropOnly(n: Ptr)
      requires Holds(mem, head, Ext(n))
      modifies this`mem
      ensures Bare(mem, head)
    {
      LeafFacts(mem, head, Ext(n));
      Unlink(n, [n], 0);
      assert Remove([n], 0) == [];
      var p := mem[n].parent;
      mem := mem[p := mem[p].(parent := p)];
      mem := mem - {n};
    }

    /** jrb_delete_node: refused exactly on internal nodes and on the head;
        otherwise precisely `n` leaves the list and the tree stays valid. */
    method DeleteNode(n: Ptr) returns (exited: bool, ghost k: nat)
      requires Valid() && n in mem
      modifies this
      ensures exited <==> n !in old(List())
      ensures exited ==> mem == old(mem) && tree == old(tree)
      ensures Valid() && KeptData(old(mem), mem, List())
      ensures !exited ==> k < |old(List())| && old(List())[k] == n && List() == Remove(old(List()), k)
      ensures !exited ==> (RootIsRed() <==> UnderRootBesideInternal(old(mem), n))
    {
      exited, k := false, 0;
      NodeKinds(mem, head, tree, n);
      if mem[n].internal {
        return true, 0;
      }
      if mem[n].head {
        return true, 0;
      }
      ghost var t := tree.t;
      k :| 0 <= k < |Leaves(t)| && Leaves(t)[k] == n;
      if mem[n].root {
        DropOnly(n);
        tree := Empty;
      } else {
        ghost var t';
        exited, t' := DropLeaf(n, t, k);
        tree := Full(t');
      }
    }

    /** jrb_free_tree: refused exactly on nodes other than the head; otherwise
        everything that was allocated is freed. */
    method FreeTree(n: Ptr) returns (exited: bool)
      requires Valid() && n in mem
      modifies this
      ensures exited <==> n != head
      ensures exited ==> Valid() && mem == old(mem) && tree == old(tree)
      ensures !exited ==> mem.Keys == {}
    {
      HeadOnly(mem, head, tree, n);
      if !mem[n].head {
        return true;
      }
      while mem[n].flink != n
        invariant Valid()
        decreases |List()|
      {
        FirstLeaf(mem, head, tree);
        var _, _ := DeleteNode(mem[n].flink);
      }
      FirstLeaf(mem, head, tree);
      mem := mem - {n};
      exited := false;
    }

    // ---- Search ----

    /** The list is in ascending order of its keys. */
    ghost predicate Sorted(cmp: Cmp)
      reads this
    {
      Ascending(mem, List(), cmp)
    }

    /** jrb_find_gte_gen, for any order: the tree search answers like a scan of
        the list. Refused exactly on nodes other than the head. */
    method FindGteGen(n0: Ptr, key: Jval, cmp: Cmp) returns (exited: bool, n: Ptr, fnd: bool, ghost k: nat)
      requires Valid() && n0 in mem && Orders(cmp) && Sorted(cmp)
      ensures exited <==> n0 != head
      ensures !exited ==> k <= |List()| && n == At(head, List(), k)
      ensures !exited ==> (fnd <==> exists i :: 0 <= i < |List()| && cmp(key, KeyAt(mem, List()[i])) == 0)
      ensures !exited && fnd ==> k < |List()| && cmp(key, KeyAt(mem, n)) == 0
      ensures !exited && !fnd ==> forall i :: 0 <= i < k ==> cmp(key, KeyAt(mem, List()[i])) > 0
      ensures !exited && !fnd ==> forall i :: k <= i < |List()| ==> cmp(key, KeyAt(mem, List()[i])) < 0
    {
      exited, n, fnd, k := false, n0, false, |List()|;
      HeadOnly(mem, head, tree, n0);
      if !mem[n].head {
        return true, n, false, 0;
      }
      FirstLeaf(mem, head, tree);
      if mem[n].parent == n {
        return;
      }
      ghost var ls := List();
      var c := cmp(key, mem[mem[n].blink].key);
      if c == 0 {
        return false, mem[n].blink, true, |ls| - 1;
      }
      if c > 0 {
        BeyondLast(mem, ls, key, cmp);
        return;
      }
      SearchStart(mem, head, tree.t, key, cmp);
      n, fnd, k := Descend(key, cmp, mem[n].parent, tree.t);
      FoundScan(mem, ls, key, cmp, k, fnd);
    }

    method Descend(key: Jval, cmp: Cmp, root: Ptr, ghost whole: Tree) returns (n: Ptr, fnd: bool, ghost k: nat)
      requires Searching(mem, head, Top, whole, whole, key, cmp) && root == whole.id
      requires Orders(cmp) && Ascending(mem, Leaves(whole), cmp)
      requires forall x :: x in Leaves(whole) ==> x in mem
      ensures Landed(mem, Leaves(whole), key, cmp, k, n, fnd)
    {
      n, fnd := root, false;
      ghost var c, t := Top, whole;
      while mem[n].internal
        invariant t.id == n && n in mem && mem[n].internal == t.Int? && !fnd
        invariant Searching(mem, head, c, t, whole, key, cmp)
        decreases t
      {
        ghost var c', t';
        fnd, n, c', t' := DescendStep(n, key, cmp, c, t, whole);
        if fnd {
          LextFound(mem, c, t, whole, key, cmp);
          k := |LeavesBefore(c)| + |Leaves(t.l)| - 1;
          return;
        }
        c, t := c', t';
      }
      k := |LeavesBefore(c)|;
      EndOfSearch(mem, head, c, t, whole, key, cmp);
    }

    /** One turn of the loop: lext has the key, or the search goes to a child. */
    method DescendStep(n: Ptr, key: Jval, cmp: Cmp, ghost c: Path, ghost t: Tree, ghost whole: Tree)
        returns (fnd: bool, next: Ptr, ghost c': Path, ghost t': Tree)
      requires Searching(mem, head, c, t, whole, key, cmp) && t.Int? && t.id == n
      requires Orders(cmp) && Ascending(mem, Leaves(whole), cmp)
      requires forall x :: x in Leaves(whole) ==> x in mem
      ensures fnd ==> next == Last(t.l) && cmp(key, KeyAt(mem, next)) == 0
      ensures !fnd ==> Searching(mem, head, c', t', whole, key, cmp) && (t' == t.l || t' == t.r)
      ensures !fnd ==> t'.id == next && next in mem && mem[next].internal == t'.Int?
    {
      c', t' := c, t;
      LextSeen(mem, head, c, t, whole, key, cmp);
      var lext := mem[n].key.v;
      var d := cmp(key, mem[lext].key);
      if d == 0 {
        return true, lext, c, t;
      }
      fnd := false;
      if d < 0 {
        GoLeft(mem, head, c, t, whole, key, cmp);
        next := mem[n].flink;
        c', t' := In(c, true, t.id, t.red, t.r), t.l;
      } else {
        GoRight(mem, head, c, t, whole, key, cmp);
        next := mem[n].blink;
        c', t' := In(c, false, t.id, t.red, t.l), t.r;
      }
    }

    /** jrb_insert_gen: the list stays sorted, duplicates included. */
    method InsertGen(key: Jval, val: Jval, cmp: Cmp) returns (w: Ptr, ghost k: nat)
      requires Valid() && Orders(cmp) && Sorted(cmp)
      modifies this
      ensures Valid() && Sorted(cmp)
      ensures w !in old(mem) && w in mem && mem[w].key == key && mem[w].val == val
      ensures k <= |old(List())| && List() == Insert(old(List()), k, w)
      ensures KeptData(old(mem), mem, old(List()))
      ensures Items(mem, List()) == Place(old(Items(mem, List())), Ins(key, val), k)
    {
      ghost var m, ls := mem, List();
      FirstLeaf(mem, head, tree);
      var exited, n, fnd;
      exited, n, fnd, k := FindGteGen(head, key, cmp);
      FoundFits(m, ls, key, cmp, k, fnd);
      w := InsertB(n, key, val, k);
      InsItems(m, mem, ls, k, w, key, val);
      AscendingItems(m, ls, cmp);
      PlaceInsOrdered(Items(m, ls), key, val, k, cmp);
      AscendingItems(mem, List(), cmp);
    }

    /** jrb_find_gte_int and jrb_insert_int: the same with integer keys. */
    method FindGteInt(n0: Ptr, ikey: int) returns (exited: bool, n: Ptr, fnd: bool, ghost k: nat)
      requires Valid() && n0 in mem && Sorted(IntCmp)
      ensures exited <==> n0 != head
      ensures !exited ==> k <= |List()| && n == At(head, List(), k)
      ensures !exited ==> (fnd <==> exists i :: 0 <= i < |List()| && Rank(KeyAt(mem, List()[i])) == ikey)
      ensures !exited && fnd ==> k < |List()| && Rank(KeyAt(mem, n)) == ikey
      ensures !exited && !fnd ==> forall i :: 0 <= i < k ==> Rank(KeyAt(mem, List()[i])) < ikey
      ensures !exited && !fnd ==> forall i :: k <= i < |List()| ==> Rank(KeyAt(mem, List()[i])) > ikey
    {
      IntOrders();
      exited, n, fnd, k := FindGteGen(n0, I(ikey), IntCmp);
    }

    method InsertInt(ikey: int, val: Jval) returns (w: Ptr, ghost k: nat)
      requires Valid() && Sorted(IntCmp)
      modifies this
      ensures Valid() && Sorted(IntCmp)
      ensures w !in old(mem) && w in mem && mem[w].key == I(ikey) && mem[w].val == val
      ensures k <= |old(List())| && List() == Insert(old(List()), k, w)
      ensures KeptData(old(mem), mem, old(List()))
    {
      IntOrders();
      w, k := InsertGen(I(ikey), val, IntCmp);
    }

    // ---- Depth ----

    /** jrb_nblack: the same for every leaf, and it bounds the leaves below. */
    method Nblack(n: Ptr) returns (exited: bool, nb: nat)
      requires Valid() && n in mem
      ensures exited <==> n !in List()
      ensures !exited ==> nb > 0 && nb == BlackHeight(tree.t) && |List()| >= Pow2(nb - 1)
    {
      NodeKinds(mem, head, tree, n);
      if mem[n].head || mem[n].internal {
        return true, 0;
      }
      nb := LeafBlacks(n, tree.t);
      exited := false;
    }

    method LeafBlacks(n: Ptr, ghost t: Tree) returns (nb: nat)
      requires Holds(mem, head, t) && n in Leaves(t)
      ensures nb > 0 && nb == BlackHeight(t) && |Leaves(t)| >= Pow2(nb - 1)
    {
      ghost var c, k := LeafPath(mem, head, t, n);
      nb := CountBlacks(n, c);
    }

    method CountBlacks(n0: Ptr, ghost c0: Path) returns (nb: nat)
      requires Rep(mem, head, c0, Ext(n0))
      ensures nb == Blacks(c0) + 1
    {
      nb := 0;
      var n := n0;
      ghost var c, t, up := c0, Ext(n0), false;
      while !mem[n].head
        invariant up ==> n == head && head in mem && mem[n].head && nb == Blacks(c0) + 1
        invariant !up ==> Rep(mem, head, c, t) && t.id == n
        invariant !up ==> nb + Blacks(c) + (if Red(t) then 0 else 1) == Blacks(c0) + 1
        decreases !up, c
      {
        Look(mem, t);
        AroundKeys(mem, head, c);
        if !mem[n].red {
          nb := nb + 1;
        }
        n := mem[n].parent;
        if c.Top? {
          up := true;
        } else {
          Zip(mem, head, c.up, c.left, c.id, c.red, t, c.sib);
          c, t := c.up, Join(c.left, c.id, c.red, t, c.sib);
        }
      }
    }

    /** jrb_plength: the depth of the leaf, at most twice the black count. */
    method Plength(n: Ptr) returns (exited: bool, pl: nat)
      requires Valid() && n in mem
      ensures exited <==> n !in List()
      ensures !exited ==> pl <= 2 * BlackHeight(tree.t)
      ensures !exited ==> exists k :: 0 <= k < |List()| && List()[k] == n && pl == Depth(PathOf(tree.t, k)) + 1
    {
      NodeKinds(mem, head, tree, n);
      if mem[n].head || mem[n].internal {
        return true, 0;
      }
      ghost var c, k := LeafPath(mem, head, tree.t, n);
      pl := CountSteps(n, c);
      exited := false;
    }

    method CountSteps(n0: Ptr, ghost c0: Path) returns (pl: nat)
      requires Rep(mem, head, c0, Ext(n0))
      ensures pl == Depth(c0) + 1
    {
      pl := 0;
      var n := n0;
      ghost var c, t, up := c0, Ext(n0), false;
      while !mem[n].head
        invariant up ==> n == head && head in mem && mem[n].head && pl == Depth(c0) + 1
        invariant !up ==> Rep(mem, head, c, t) && t.id == n && pl + Depth(c) == Depth(c0)
        decreases !up, c
      {
        AroundKeys(mem, head, c);
        pl := pl + 1;
        n := mem[n].parent;
        if c.Top? {
          up := true;
        } else {
          Zip(mem, head, c.up, c.left, c.id, c.red, t, c.sib);
          c, t := c.up, Join(c.left, c.id, c.red, t, c.sib);
        }
      }
    }

    // ---- Whole runs ----

    /** jrb_first followed by `i` times jrb_next: the i-th element, or the head. */
    method Nth(i: nat) returns (n: Ptr)
      requires Valid()
      ensures n == At(head, List(), i) && n in mem
    {
      FirstLeaf(mem, head, tree);
      n := mem[head].flink;
      var j := 0;
      while j < i && n != head
        invariant 0 <= j <= i && n == At(head, List(), j) && n in mem
      {
        ListMember(mem, head, tree, j);
        ListStep(mem, head, tree, j);
        n := mem[n].flink;
        j := j + 1;
      }
      ListMember(mem, head, tree, j);
      ListMember(mem, head, tree, i);
    }

    /** Any run of inserts and deletes, for any order: the list of pairs is what
        the same run makes of a plain list, each insertion at a place (`ks`)
        that keeps it sorted. */
    method Replay(ops: seq<Op>, cmp: Cmp) returns (ghost ks: seq<nat>)
      requires Valid() && Orders(cmp) && Sorted(cmp)
      modifies this
      ensures Valid() && Sorted(cmp)
      ensures HasRun(old(Items(mem, List())), ops, ks, cmp, Items(mem, List()))
    {
      ghost var start := Items(mem, List());
      ks := [];
      var i := 0;
      AscendingItems(mem, List(), cmp);
      while i < |ops|
        invariant 0 <= i <= |ops| && Valid() && Sorted(cmp)
        invariant HasRun(start, ops[..i], ks, cmp, Items(mem, List()))
      {
        ghost var before := Items(mem, List());
        ghost var k := RunOp(ops[i], cmp);
        AscendingItems(mem, List(), cmp);
        RunOn(start, ops, i, ks, cmp, before, k);
        ks := ks + [k];
        i := i + 1;
      }
      assert ops[..i] == ops;
    }

    method RunOp(op: Op, cmp: Cmp) returns (ghost k: nat)
      requires Valid() && Orders(cmp) && Sorted(cmp)
      modifies this
      ensures Valid() && Sorted(cmp)
      ensures Items(mem, List()) == Place(old(Items(mem, List())), op, k)
      ensures op.Ins? ==> k <= |old(Items(mem, List()))|
    {
      match op
      case Ins(key, val) =>
        var w;
        w, k := InsertGen(key, val, cmp);
      case Del(at) =>
        RunDelete(at, cmp);
        k := 0;
    }

    method RunDelete(at: nat, cmp: Cmp)
      requires Valid() && Sorted(cmp)
      modifies this
      ensures Valid() && Sorted(cmp)
      ensures Items(mem, List()) == Place(old(Items(mem, List())), Del(at), 0)
    {
      ghost var m, ls := mem, List();
      var n := Nth(at);
      ListMember(mem, head, tree, at);
      var gone;
      ghost var k;
      gone, k := DeleteNode(n);
      if !gone {
        assert k == at;
        DelItems(m, mem, ls, k);
        AscendingItems(m, ls, cmp);
        PlaceDelOrdered(Items(m, ls), k, cmp);
        AscendingItems(mem, List(), cmp);
      }
    }

    /** A run after which the root is red: three keys, then the leaf that hangs
        from the root goes. */
    method RedRootRun()
      requires Valid() && List() == []
      modifies this
      ensures Valid() && RootIsRed()
    {
      IntOrders();
      var _, _ := InsertGen(I(1), I(0), IntCmp);
      var _, _ := InsertGen(I(2), I(0), IntCmp);
      var _, _ := InsertGen(I(3), I(0), IntCmp);
      ghost var t := tree.t;
      ThreeLeaves(t);
      var i := 2;
      var first := Nth(0);
      EdgeLeaves(mem, head, t);
      if mem[first].parent == mem[head].parent {
        i := 0;
      }
      var n := Nth(i);
      var _, _ := DeleteNode(n);
    }
  }

  lemma {:induction false} SearchStart(m: Mem, h: Ptr, t: Tree, key: Jval, cmp: Cmp)
    requires Holds(m, h, t) && cmp(key, KeyAt(m, Last(t))) < 0
    ensures Searching(m, h, Top, t, t, key, cmp) && forall x :: x in Leaves(t) ==> x in m
  {
    CachedMeaning(m, t);
    ShapeKinds(m, t);
  }

  /** In a tree of three leaves either the first or the last hangs from the root. */
  lemma {:induction false} EdgeLeaves(m: Mem, h: Ptr, t: Tree)
    requires Holds(m, h, t) && |Leaves(t)| == 3
    ensures h in m && Leaves(t)[0] in m && Leaves(t)[2] in m && m[h].parent == t.id
    ensures m[Leaves(t)[0]].parent == t.id ==> UnderRootBesideInternal(m, Leaves(t)[0])
    ensures m[Leaves(t)[0]].parent != t.id ==> UnderRootBesideInternal(m, Leaves(t)[2])
  {
    ThreeLeaves(t);
    Look(m, t);
    Look(m, t.l);
    Look(m, t.r);
    if t.l.Ext? {
      assert Leaves(t)[0] == t.l.id;
      ShapeKinds(m, t.r);
      assert Leaves(t)[2] == Leaves(t.r)[1];
    } else {
      OneLeaf(t.l.l);
      OneLeaf(t.l.r);
      Look(m, t.l.l);
      assert Leaves(t)[0] == t.l.l.id && Leaves(t)[2] == t.r.id;
      assert t.l.id in Ids(t.l);
    }
  }

  lemma {:induction false} HeadOnly(m: Mem, h: Ptr, tree: Content, n: Ptr)
    requires match tree case Empty => Bare(m, h) case Full(t) => Holds(m, h, t)
    requires n in m
    ensures m[n].head <==> n == h
  {
    if tree.Full? {
      LeafFacts(m, h, tree.t);
    }
  }

  lemma {:induction false} ListMember(m: Mem, h: Ptr, tree: Content, i: nat)
    requires match tree case Empty => Bare(m, h) case Full(t) => Holds(m, h, t)
    ensures var ls := if tree.Empty? then [] else Leaves(tree.t);
            && NoDup(ls) && h !in ls
            && (At(h, ls, i) == h <==> i >= |ls|) && (At(h, ls, i) in ls <==> i < |ls|)
  {
    if tree.Full? {
      LeafFacts(m, h, tree.t);
    }
  }

  lemma {:induction false} ListStep(m: Mem, h: Ptr, tree: Content, j: nat)
    requires match tree case Empty => Bare(m, h) case Full(t) => Holds(m, h, t)
    requires tree.Full? && j < |Leaves(tree.t)|
    ensures var n := Leaves(tree.t)[j]; n in m && m[n].flink == At(h, Leaves(tree.t), j + 1) && m[n].flink in m
  {
    assert Neighbours(m, h, Leaves(tree.t), j);
    LeafFacts(m, h, tree.t);
    assert At(h, Leaves(tree.t), j + 1) in Leaves(tree.t) + [h];
  }

  lemma {:induction false} LeafPath(m: Mem, h: Ptr, t: Tree, n: Ptr) returns (c: Path, k: nat)
    requires Holds(m, h, t) && n in Leaves(t)
    ensures k < |Leaves(t)| && Leaves(t)[k] == n && c == PathOf(t, k)
    ensures Rep(m, h, c, Ext(n)) && Blacks(c) + 1 == BlackHeight(t)
    ensures Depth(c) + 1 <= 2 * BlackHeight(t) && |Leaves(t)| >= Pow2(BlackHeight(t) - 1)
  {
    k :| 0 <= k < |Leaves(t)| && Leaves(t)[k] == n;
    c := PathOf(t, k);
    RepPlug(m, h, c, Ext(n));
    LeafDepth(c, n);
  }

  lemma {:induction false} NodeKinds(m: Mem, h: Ptr, tree: Content, n: Ptr)
    requires match tree case Empty => Bare(m, h) case Full(t) => Holds(m, h, t)
    requires n in m
    ensures m[n].internal || m[n].head <==> tree.Empty? || n !in Leaves(tree.t)
    ensures tree.Full? && n in Leaves(tree.t) ==> (m[n].root <==> tree.t == Ext(n))
    ensures tree.Full? && n in Leaves(tree.t) && !m[n].root ==> tree.t.Int?
    ensures tree.Full? ==> KeptData(m, m, Leaves(tree.t))
  {
    if tree.Full? {
      LeafFacts(m, h, tree.t);
      OrderIds(tree.t);
      forall x | x in Leaves(tree.t) ensures x in m {
        assert x in Leaves(tree.t) + [h];
      }
      if n in Leaves(tree.t) {
        var k :| 0 <= k < |Leaves(tree.t)| && Leaves(tree.t)[k] == n;
        RepPlug(m, h, PathOf(tree.t, k), Ext(n));
      }
    }
  }

  lemma {:induction false} FirstLeaf(m: Mem, h: Ptr, tree: Content)
    requires match tree case Empty => Bare(m, h) case Full(t) => Holds(m, h, t)
    ensures h in m && m[h].head && (m[h].parent == h <==> tree.Empty?)
    ensures tree.Full? ==> m[h].flink == Leaves(tree.t)[0] && m[h].flink != h && m[h].flink in m
    ensures tree.Full? ==> m[h].blink == Last(tree.t) && m[h].blink in m && m[h].parent == tree.t.id
    ensures tree.Empty? ==> m[h].flink == h
  {
    if tree.Full? {
      LeafFacts(m, h, tree.t);
      assert tree.t.id in Ids(tree.t);
      assert Leaves(tree.t)[0] in Leaves(tree.t) && Last(tree.t) in Leaves(tree.t) + [h];
      assert Leaves(tree.t)[0] in Leaves(tree.t) + [h];
    }
  }

  ghost predicate SameSlots(m: Mem, m': Mem) {
    forall x :: x in m ==> x in m' && m'[x].key == m[x].key && m'[x].val == m[x].val
  }

  /** The list has gained `w` at position k and no data has changed. */
  ghost predicate LeafAdded(m: Mem, m': Mem, h: Ptr, ls: seq<Ptr>, k: nat, w: Ptr)
    requires k <= |ls|
  {
    && w !in m && m'.Keys == m.Keys + {w} && SameSlots(m, m')
    && h in m' && !m'[h].internal && Listed(m', h, Insert(ls, k, w))
    && forall x :: x in Insert(ls, k, w) ==> x in m' && !m'[x].internal
  }

  lemma {:induction false} NewLeafKept(m: Mem, m1: Mem, m2: Mem, w: Ptr)
    requires w !in m && w in m1 && m1 == m[w := m1[w]] && ListOnly(m1, m2) && !m1[w].internal
    ensures m2.Keys == m.Keys + {w} && SameTree(m, m2) && SameSlots(m, m2)
    ensures m2[w].internal == m1[w].internal && m2[w].red == m1[w].red && m2[w].head == m1[w].head
    ensures m2[w].root == m1[w].root && m2[w].key == m1[w].key && m2[w].val == m1[w].val
  {
    assert SameBody(m1, m2, w) && SameUp(m1, m2, w);
    forall x | x in m ensures SameBody(m, m2, x) && SameUp(m, m2, x) {
      assert SameBody(m1, m2, x) && SameUp(m1, m2, x);
    }
  }

  /** The old leaf that will share a parent with a new leaf at position k. */
  ghost function Partner(t: Tree, k: nat): Ptr
    requires k <= |Leaves(t)|
  {
    Leaves(t)[if k < |Leaves(t)| then k else k - 1]
  }

  ghost function PartnerPath(t: Tree, k: nat): Path
    requires k <= |Leaves(t)|
  {
    PathOf(t, if k < |Leaves(t)| then k else k - 1)
  }

  ghost predicate Put(m: Mem, m': Mem, h: Ptr, t: Tree, k: nat, w: Ptr)
    requires k <= |Leaves(t)|
  {
    var c, e := PartnerPath(t, k), Partner(t, k);
    && LeafAdded(m, m', h, Leaves(t), k, w)
    && Around(m', h, c) && UniquePath(c) && h !in PathIds(c)
    && e != w && Loose(m', h, c, w) && Loose(m', h, c, e)
    && m'[e].parent == Holder(h, c) && (c.In? ==> m'[e].left == c.left)
  }

  lemma {:induction false} NewLeafLinks(m: Mem, m': Mem, h: Ptr, t: Tree, k: nat, w: Ptr)
    requires Holds(m, h, t) && k <= |Leaves(t)| && SameTree(m, m') && Listed(m', h, Insert(Leaves(t), k, w))
    ensures w in m' && m'[w].blink == At(h, Leaves(t), k - 1)
    ensures var at := At(h, Leaves(t), k); at in m' && m'[at].head == (k == |Leaves(t)|)
    ensures Partner(t, k) in m'
  {
    var ls := Leaves(t);
    LeafFacts(m, h, t);
    OrderIds(t);
    assert Insert(ls, k, w)[k] == w && Neighbours(m', h, Insert(ls, k, w), k);
    assert Partner(t, k) in ls && Partner(t, k) in ls + [h];
    assert h in ls + [h];
  }

  lemma {:induction false} PutHolds(m: Mem, m1: Mem, m2: Mem, h: Ptr, t: Tree, k: nat, w: Ptr)
    requires Holds(m, h, t) && k <= |Leaves(t)|
    requires w !in m && m1.Keys == m.Keys + {w} && SameTree(m, m1) && SameSlots(m, m1)
    requires !m1[w].internal && !m1[w].red && !m1[w].head && !m1[w].root
    requires Listed(m1, h, Insert(Leaves(t), k, w))
    requires var e := Partner(t, k); e in m1 && m2 == m1[e := m1[e].(root := false, head := false)]
    ensures Put(m, m2, h, t, k, w)
  {
    var c, e := PartnerPath(t, k), Partner(t, k);
    LeafFacts(m, h, t);
    RepPlug(m, h, c, Ext(e));
    assert e in Leaves(t) && e in Leaves(t) + [h];
    Prepared(m, m1, m2, h, c, e, w);
    AddedHolds(m, m1, m2, h, Leaves(t), k, w, e);
  }

  lemma {:induction false} AddedHolds(m: Mem, m1: Mem, m2: Mem, h: Ptr, ls: seq<Ptr>, k: nat, w: Ptr, e: Ptr)
    requires k <= |ls| && forall x :: x in ls + [h] ==> x in m && !m[x].internal
    requires w !in m && m1.Keys == m.Keys + {w} && SameTree(m, m1) && SameSlots(m, m1)
    requires !m1[w].internal && Listed(m1, h, Insert(ls, k, w))
    requires e in m1 && m2 == m1[e := m1[e].(root := false, head := false)]
    ensures LeafAdded(m, m2, h, ls, k, w)
  {
    ListedSame(m1, m2, h, Insert(ls, k, w));
    InsertMembers(ls, k, w);
    forall x | x in Insert(ls, k, w) ensures x in m2 && !m2[x].internal {
      if x != w {
        assert x in ls + [h] && SameBody(m, m1, x);
      }
    }
    assert h in ls + [h] && SameBody(m, m1, h);
  }

  lemma {:induction false} ListedSame(m: Mem, m': Mem, h: Ptr, ls: seq<Ptr>)
    requires Listed(m, h, ls) && m'.Keys == m.Keys
    requires forall x :: x in m ==> m'[x].flink == m[x].flink && m'[x].blink == m[x].blink
    ensures Listed(m', h, ls)
  {
    ListedFrame(m, m', h, ls);
  }

  /** The pool `m` that held `t` now holds `t'`, which has the new leaf `w`. */
  ghost predicate Inserted(m: Mem, m': Mem, h: Ptr, t: Tree, t': Tree, k: nat, w: Ptr)
    requires k <= |Leaves(t)|
  {
    && Holds(m', h, t') && Leaves(t') == Insert(Leaves(t), k, w)
    && KeptData(m, m', Leaves(t)) && w !in m && w in m'
  }

  /** The stages of an insertion put together. */
  lemma {:induction false} InsertBeforeHolds(m: Mem, m1: Mem, m2: Mem, m3: Mem, h: Ptr, t: Tree, t': Tree, k: nat, w: Ptr, q: Ptr)
    requires Holds(m, h, t) && k < |Leaves(t)| && LeafAdded(m, m1, h, Leaves(t), k, w)
    requires q !in m1 && Grown(m1, m2, q) && m2[q].key == V(w) && m2[q].val == V(Leaves(t)[k])
    requires Rep(m2, h, Top, t') && RedBlack(t')
    requires Leaves(t') == Insert(Leaves(t), k, w) && Inners(t') == Insert(Inners(t), k, q)
    requires RextSet(m2, m3, Inners(t'), k, w)
    ensures Inserted(m, m3, h, t, t', k, w)
    ensures m3[w].key == m1[w].key && m3[w].val == m1[w].val
  {
    assert Rep(m3, h, Top, t') && m3.Keys == m2.Keys && Listed(m3, h, Leaves(t')) by {
      RextSetKeeps(m2, m3, h, Top, t', Inners(t'), k, w);
      GrownListed(m1, m2, m3, h, Leaves(t'), q);
    }
    assert Cached(m3, Leaves(t'), Inners(t')) && KeptData(m, m3, Leaves(t))
        && w in m3 && m3[w].key == m1[w].key && m3[w].val == m1[w].val by {
      SlotsReady(m, h, t, q, w);
      InsertSlots(m, m1, m2, m3, Leaves(t), Inners(t), k, w, q);
    }
    InsertIds(t, t', k, w, k, q);
    KeysGrow(Ids(t), h, w, q);
  }

  lemma {:induction false} InsertLastHolds(m: Mem, m1: Mem, m2: Mem, h: Ptr, t: Tree, t': Tree, k: nat, w: Ptr, q: Ptr)
    requires Holds(m, h, t) && k == |Leaves(t)| && LeafAdded(m, m1, h, Leaves(t), k, w)
    requires q !in m1 && Grown(m1, m2, q) && m2[q].key == V(Partner(t, k)) && m2[q].val == V(w)
    requires Rep(m2, h, Top, t') && RedBlack(t')
    requires Leaves(t') == Insert(Leaves(t), k, w) && Inners(t') == Insert(Inners(t), k - 1, q)
    ensures Inserted(m, m2, h, t, t', k, w)
    ensures m2[w].key == m1[w].key && m2[w].val == m1[w].val
  {
    assert Listed(m2, h, Leaves(t')) by {
      GrownListed(m1, m2, m2, h, Leaves(t'), q);
    }
    assert Cached(m2, Leaves(t'), Inners(t')) && KeptData(m, m2, Leaves(t))
        && w in m2 && m2[w].key == m1[w].key && m2[w].val == m1[w].val by {
      SlotsReady(m, h, t, q, w);
      LastSlots(m, m1, m2, Leaves(t), Inners(t), k, w, q);
    }
    InsertIds(t, t', k, w, k - 1, q);
    KeysGrow(Ids(t), h, w, q);
  }

  lemma {:induction false} LastSlots(m: Mem, m1: Mem, m2: Mem, ls: seq<Ptr>, ins: seq<Ptr>, k: nat, w: Ptr, q: Ptr)
    requires Cached(m, ls, ins) && w !in m && k == |ls|
    requires forall x :: x in ls ==> x in m && x !in ins && x != q
    requires SameSlots(m, m1) && Grown(m1, m2, q) && q !in m1 && w in m1
    requires m2[q].key == V(ls[k - 1]) && m2[q].val == V(w)
    ensures Cached(m2, Insert(ls, k, w), Insert(ins, k - 1, q))
    ensures KeptData(m, m2, ls) && w in m2 && m2[w].key == m1[w].key && m2[w].val == m1[w].val
  {
    assert Insert(ls, k, w) == ls + [w] && Insert(ins, k - 1, q) == ins + [q];
    forall x | x in ins ensures x in m {
      var i :| 0 <= i < |ins| && ins[i] == x;
    }
    CachedAppend(m, m2, ls, ins, w, q);
  }

  lemma {:induction false} LastPath(c: Path, t: Tree, w: Ptr)
    requires Plug(c, Ext(w)) == t && |LeavesBefore(c)| + 1 == |Leaves(t)|
    ensures InnersAfter(c) == []
  {
    PlugOrder(c, Ext(w));
    assert |LeavesAfter(c)| == 0;
  }

  lemma {:induction false} HeadFlags(m: Mem, h: Ptr, tree: Content, k: nat)
    requires match tree case Empty => Bare(m, h) case Full(t) => Holds(m, h, t)
    requires tree.Full? ==> k <= |Leaves(tree.t)|
    ensures var n := if tree.Full? then At(h, Leaves(tree.t), k) else h;
            && n in m && h in m && m[h].head
            && (m[n].head <==> tree.Empty? || k == |Leaves(tree.t)|)
            && (m[h].parent == h <==> tree.Empty?)
  {
    if tree.Full? {
      var ls := Leaves(tree.t);
      LeafFacts(m, h, tree.t);
      OrderIds(tree.t);
      assert tree.t.id in Ids(tree.t);
      if k < |ls| {
        assert ls[k] in ls;
      }
    }
  }

  lemma {:induction false} KeysGrow(ids: set<Ptr>, h: Ptr, w: Ptr, q: Ptr)
    ensures ids + {h} + {w} + {q} == ids + {w} + {q} + {h}
  {
  }

  lemma {:induction false} SlotsReady(m: Mem, h: Ptr, t: Tree, q: Ptr, w: Ptr)
    requires Holds(m, h, t) && q !in m && w !in m
    ensures NoDup(Inners(t)) && forall x :: x in Leaves(t) ==> x in m && x !in Inners(t) && x != q
  {
    LeafFacts(m, h, t);
    OrderIds(t);
  }

  /** FixRext's effect. */
  ghost predicate RextSet(m: Mem, m': Mem, ins: seq<Ptr>, k: nat, w: Ptr)
    requires k <= |ins|
  {
    if k == 0 then m' == m
    else ins[k - 1] in m && m' == m[ins[k - 1] := m[ins[k - 1]].(val := V(w))]
  }

  lemma {:induction false} RextSetKeeps(m: Mem, m': Mem, h: Ptr, c: Path, t: Tree, ins: seq<Ptr>, k: nat, w: Ptr)
    requires Rep(m, h, c, t) && k <= |ins| && RextSet(m, m', ins, k, w)
    ensures Rep(m', h, c, t) && m'.Keys == m.Keys
    ensures forall x :: x in m ==> m'[x].flink == m[x].flink && m'[x].blink == m[x].blink
  {
    assert SameTree(m, m');
    SameTreeRep(m, m', h, c, t);
  }

  lemma {:induction false} GrownListed(m1: Mem, m2: Mem, m3: Mem, h: Ptr, ls: seq<Ptr>, q: Ptr)
    requires Listed(m1, h, ls) && Grown(m1, m2, q) && !m1[h].internal
    requires forall x :: x in ls ==> x in m1 && !m1[x].internal
    requires m3.Keys == m2.Keys && forall x :: x in m2 ==> m3[x].flink == m2[x].flink && m3[x].blink == m2[x].blink
    ensures Listed(m3, h, ls)
  {
    ListedFrame(m1, m3, h, ls);
  }

  lemma {:induction false} InsertSlots(m: Mem, m1: Mem, m2: Mem, m3: Mem, ls: seq<Ptr>, ins: seq<Ptr>, k: nat, w: Ptr, q: Ptr)
    requires Cached(m, ls, ins) && NoDup(ins) && k < |ls| && w !in m
    requires forall x :: x in ls ==> x in m && x !in ins && x != q
    requires SameSlots(m, m1) && Grown(m1, m2, q) && q !in m1 && w in m1
    requires m2[q].key == V(w) && m2[q].val == V(ls[k])
    requires RextSet(m2, m3, Insert(ins, k, q), k, w)
    ensures Cached(m3, Insert(ls, k, w), Insert(ins, k, q))
    ensures KeptData(m, m3, ls) && w in m3 && m3[w].key == m1[w].key && m3[w].val == m1[w].val
  {
    assert k > 0 ==> Insert(ins, k, q)[k - 1] == ins[k - 1] && ins[k - 1] in ins;
    forall x | x in ins ensures x in m {
      var i :| 0 <= i < |ins| && ins[i] == x;
    }
    CachedInsertBefore(m, m3, ls, ins, k, w, q);
  }

  /** The list can be walked both ways: flink and blink undo each other at
      every leaf and at the head. */
  lemma {:induction false} LinksInverse(m: Mem, h: Ptr, tree: Content, x: Ptr)
    requires match tree case Empty => Bare(m, h) case Full(t) => Holds(m, h, t)
    requires x == h || (tree.Full? && x in Leaves(tree.t))
    ensures x in m && m[x].flink in m && m[x].blink in m
    ensures m[m[x].flink].blink == x && m[m[x].blink].flink == x
  {
    if tree.Empty? {
      return;
    }
    var ls := Leaves(tree.t);
    if x in ls {
      var i :| 0 <= i < |ls| && ls[i] == x;
      assert Neighbours(m, h, ls, i);
      if i > 0 {
        assert Neighbours(m, h, ls, i - 1);
      }
      if i + 1 < |ls| {
        assert Neighbours(m, h, ls, i + 1);
      }
    } else {
      assert Neighbours(m, h, ls, 0) && Neighbours(m, h, ls, |ls| - 1);
    }
  }

  lemma {:induction false} LeafFacts(m: Mem, h: Ptr, t: Tree)
    requires Rep(m, h, Top, t)
    ensures NoDup(Leaves(t)) && NoDup(Inners(t)) && h !in Leaves(t) && h !in Inners(t)
    ensures forall x :: x in Leaves(t) + [h] ==> x in m && !m[x].internal
    ensures forall x :: x in Inners(t) ==> x in m && m[x].internal
    ensures forall x :: x in Ids(t) ==> x in m && !m[x].head
  {
    OrderIds(t);
    ShapeKinds(m, t);
  }

  /** After setnormal(e) both leaves are ready to go under a new node. */
  lemma {:induction false} Prepared(m: Mem, m1: Mem, m': Mem, h: Ptr, c: Path, e: Ptr, w: Ptr)
    requires Rep(m, h, c, Ext(e)) && w !in m && w in m1 && e in m1 && SameTree(m, m1)
    requires !m1[w].internal && !m1[w].red && !m1[w].head && !m1[w].root
    requires m' == m1[e := m1[e].(root := false, head := false)]
    ensures Around(m', h, c) && Loose(m', h, c, e) && Loose(m', h, c, w)
    ensures m'[e].parent == Holder(h, c) && (c.In? ==> m'[e].left == c.left)
  {
    AroundKeys(m, h, c);
    SameTreeRep(m, m1, h, c, Ext(e));
    assert Agree(m1, m', {e});
    KeepAround(m1, m', h, c, {e});
  }

  /** Nodes `n` and `p` are gone; data, caches and list of the others untouched. */
  ghost predicate Shrunk(m: Mem, m': Mem, n: Ptr, p: Ptr) {
    && m'.Keys == m.Keys - {n, p}
    && forall x :: x in m' ==>
         && m'[x].key == m[x].key && m'[x].val == m[x].val && m'[x].internal == m[x].internal
         && (!m[x].internal ==> m'[x].flink == m[x].flink && m'[x].blink == m[x].blink)
  }

  lemma {:induction false} CutReady(m: Mem, h: Ptr, c: Path, n: Ptr)
    requires Rep(m, h, c, Ext(n)) && c.In?
    ensures var p, s, g := c.id, c.sib.id, Holder(h, c.up);
            && n in m && p in m && s in m && g in m
            && n != p && n != s && n != g && p != s && p != g && s != g
            && m[n].parent == p && m[p].parent == g && m[p].root == c.up.Top? && m[p].red == c.red
            && (c.up.In? ==> m[p].left == c.up.left)
            && !m[s].root && !m[s].head && m[p].internal && (c.up.In? ==> m[g].internal)
  {
    assert c.sib.id in Ids(c.sib);
    assert Around(m, h, c.up);
    AroundKeys(m, h, c);
  }

  lemma {:induction false} CutRep(m: Mem, m': Mem, h: Ptr, c: Path, n: Ptr)
    requires Rep(m, h, c, Ext(n)) && c.In?
    requires var p, s, g := c.id, c.sib.id, Holder(h, c.up);
             && m'.Keys == m.Keys - {n, p} && s in m' && g in m' && Agree(m, m', {n, p, s, g})
             && s in m && g in m
             && m'[s] == (if c.up.Top? then m[s].(parent := g, root := true) else m[s].(parent := g, left := c.up.left))
             && m'[g] == (if c.up.Top? then m[g].(parent := s) else WithChild(m[g], c.up.left, s))
    ensures Rep(m', h, c.up, c.sib)
    ensures Shrunk(m, m', n, c.id)
  {
    CutReady(m, h, c, n);
    CutKept(m, m', h, c, n);
    assert Link(m', h, c.up, c.sib.id);
  }

  /** What the cut leaves in place: the sibling's subtree and the rest above. */
  lemma {:induction false} CutKept(m: Mem, m': Mem, h: Ptr, c: Path, n: Ptr)
    requires Rep(m, h, c, Ext(n)) && c.In?
    requires var p, s, g := c.id, c.sib.id, Holder(h, c.up);
             && m'.Keys == m.Keys - {n, p} && s in m' && g in m' && Agree(m, m', {n, p, s, g})
             && s in m && g in m
             && m'[s] == (if c.up.Top? then m[s].(parent := g, root := true) else m[s].(parent := g, left := c.up.left))
             && m'[g] == (if c.up.Top? then m[g].(parent := s) else WithChild(m[g], c.up.left, s))
    ensures Shape(m', c.sib) && Around(m', h, c.up)
  {
    var e := {n, c.id, c.sib.id, Holder(h, c.up)};
    CutReady(m, h, c, n);
    assert Shape(m', c.sib) by {
      KeepShape(m, m', c.sib, e);
    }
    assert Around(m', h, c.up) by {
      KeepAround(m, m', h, c.up, e);
    }
  }

  /** FixCaches' effect: the inner node before the hole gets rext `first`, the
      one after it lext `last`. */
  ghost predicate CachesSet(m: Mem, m': Mem, c: Path, first: Ptr, last: Ptr) {
    var ib, ia := InnersBefore(c), InnersAfter(c);
    && m'.Keys == m.Keys
    && (forall x :: x in m ==>
          && m'[x].internal == m[x].internal && m'[x].flink == m[x].flink && m'[x].blink == m[x].blink
          && ((|ia| > 0 && x == ia[0]) || m'[x].key == m[x].key)
          && ((|ib| > 0 && x == ib[|ib| - 1]) || m'[x].val == m[x].val))
    && (|ib| > 0 ==> ib[|ib| - 1] in m && m'[ib[|ib| - 1]].val == V(first))
    && (|ia| > 0 ==> ia[0] in m && m'[ia[0]].key == V(last))
  }

  ghost predicate LextSet(m: Mem, m': Mem, ins: seq<Ptr>, w: Ptr) {
    if |ins| == 0 then m' == m
    else ins[0] in m && m' == m[ins[0] := m[ins[0]].(key := V(w))]
  }

  lemma {:induction false} LextSetKeeps(m: Mem, m': Mem, h: Ptr, c: Path, t: Tree, ins: seq<Ptr>, w: Ptr)
    requires Rep(m, h, c, t) && LextSet(m, m', ins, w)
    ensures Rep(m', h, c, t)
  {
    assert SameTree(m, m');
    SameTreeRep(m, m', h, c, t);
  }

  lemma {:induction false} CachesSetTwice(m: Mem, m1: Mem, m2: Mem, c: Path, first: Ptr, last: Ptr)
    requires RextSet(m, m1, InnersBefore(c), |InnersBefore(c)|, first) && LextSet(m1, m2, InnersAfter(c), last)
    ensures CachesSet(m, m2, c, first, last)
  {
    var ib, ia := InnersBefore(c), InnersAfter(c);
    assert m1.Keys == m.Keys && m2.Keys == m.Keys;
    forall x | x in m
      ensures m2[x].internal == m[x].internal && m2[x].flink == m[x].flink && m2[x].blink == m[x].blink
      ensures m2[x].key == if |ia| > 0 && x == ia[0] then V(last) else m[x].key
      ensures m2[x].val == if |ib| > 0 && x == ib[|ib| - 1] then V(first) else m[x].val
    {
    }
  }

  lemma {:induction false} SideFlags(m: Mem, h: Ptr, c: Path, t: Tree)
    requires Rep(m, h, c, t)
    ensures h in m && m[h].head
    ensures forall x :: x in InnersBefore(c) || x in InnersAfter(c) ==> x in m && !m[x].head
  {
    RepPlug(m, h, c, t);
    PlugOrder(c, t);
    LeafFacts(m, h, Plug(c, t));
    OrderIds(Plug(c, t));
    forall x | x in InnersBefore(c) || x in InnersAfter(c) ensures x in m && !m[x].head {
      assert x in Inners(Plug(c, t));
    }
  }

  /** The pool `m` that held `t` now holds `t'`, without leaf k. */
  ghost predicate Removed(m: Mem, m': Mem, h: Ptr, t: Tree, t': Tree, k: nat)
    requires k < |Leaves(t)|
  {
    Holds(m', h, t') && Leaves(t') == Remove(Leaves(t), k) && KeptData(m, m', Leaves(t'))
  }

  lemma {:induction false} DropStart(m: Mem, h: Ptr, t: Tree, k: nat)
    requires Holds(m, h, t) && t.Int? && k < |Leaves(t)|
    ensures var c := PathOf(t, k); c.In? && Rep(m, h, c, Ext(Leaves(t)[k]))
    ensures NoDup(Leaves(t)) && h !in Leaves(t)
    ensures forall x :: x in Leaves(t) + [h] ==> x in m && !m[x].internal
  {
    LeafFacts(m, h, t);
    RepPlug(m, h, PathOf(t, k), Ext(Leaves(t)[k]));
  }

  /** The place of the removed leaf's parent among the internal nodes. */
  ghost function ParentIndex(c: Path, k: nat): int
    requires c.In?
  {
    if c.left then k else k - 1
  }

  lemma {:induction false} DropTree(t: Tree, c: Path, n: Ptr, k: nat)
    requires RedBlack(t) && c.In? && Plug(c, Ext(n)) == t && |LeavesBefore(c)| == k
    ensures var o := DeleteTree(c.up, c.red, c.sib);
            var j := ParentIndex(c, k);
            && o.Done? && RedBlack(o.t) && k < |Leaves(t)| && Leaves(t)[k] == n
            && 0 <= j < |Inners(t)| && Inners(t)[j] == c.id
            && Leaves(o.t) == Remove(Leaves(t), k) && Inners(o.t) == Remove(Inners(t), j)
    ensures c.up.Top? ==> DeleteTree(c.up, c.red, c.sib) == Done(c.sib)
    ensures c.sib.Int? ==> c.sib.l.Ext? && c.sib.r.Ext?
  {
    DropLeafTree(c.up, c.left, c.id, c.red, n, c.sib);
    SiblingPair(t, c, n);
  }

  /** The parent of leaf `n` is the root and its sibling is internal. */
  ghost predicate UnderRootBesideInternal(m: Mem, n: Ptr) {
    && n in m && !m[n].root && m[n].parent in m && m[m[n].parent].root
    && var s := Child(m, m[n].parent, !m[n].left);
    s in m && m[s].internal
  }

  lemma {:induction false} DropRootRed(m: Mem, h: Ptr, t: Tree, k: nat)
    requires Holds(m, h, t) && t.Int? && k < |Leaves(t)|
    ensures var c := PathOf(t, k);
            && c.In? && DeleteTree(c.up, c.red, c.sib).Done?
            && (Red(DeleteTree(c.up, c.red, c.sib).t) <==> UnderRootBesideInternal(m, Leaves(t)[k]))
  {
    var c, n := PathOf(t, k), Leaves(t)[k];
    DropStart(m, h, t, k);
    DeleteRootRed(c.up, c.left, c.id, c.red, n, c.sib);
    SiblingFlags(m, h, c, n);
  }

  lemma {:induction false} SiblingFlags(m: Mem, h: Ptr, c: Path, n: Ptr)
    requires Rep(m, h, c, Ext(n)) && c.In?
    ensures UnderRootBesideInternal(m, n) <==> c.up.Top? && c.sib.Int?
  {
    Look(m, c.sib);
  }

  lemma {:induction false} SiblingPair(t: Tree, c: Path, n: Ptr)
    requires RedBlack(t) && c.In? && Plug(c, Ext(n)) == t
    ensures c.up.Top? ==> DeleteTree(c.up, c.red, c.sib) == Done(c.sib)
    ensures c.sib.Int? ==> c.sib.l.Ext? && c.sib.r.Ext?
  {
    PlugBalance(c, Ext(n));
    ShortSibling(c.sib);
  }

  /** Leaf k is out of the list (pool m1), then it and `p` are freed (pool m2). */
  ghost predicate Detached(m: Mem, m1: Mem, m2: Mem, h: Ptr, ls: seq<Ptr>, k: nat, p: Ptr)
    requires k < |ls|
  {
    ListOnly(m, m1) && Listed(m1, h, Remove(ls, k)) && Shrunk(m1, m2, ls[k], p)
  }

  lemma {:induction false} RemovedHolds(m: Mem, m1: Mem, m2: Mem, m3: Mem, m4: Mem, h: Ptr, t: Tree, t': Tree, c: Path, k: nat)
    requires Holds(m, h, t) && c.In? && k < |Leaves(t)| && Plug(c, Ext(Leaves(t)[k])) == t && |LeavesBefore(c)| == k
    requires Detached(m, m1, m2, h, Leaves(t), k, c.id)
    requires CachesSet(m2, m3, c.up, First(c.sib), Last(c.sib)) && SameData(m3, m4)
    requires Rep(m4, h, Top, t') && RedBlack(t') && Leaves(t') == Remove(Leaves(t), k)
    requires var j := ParentIndex(c, k);
             0 <= j < |Inners(t)| && Inners(t)[j] == c.id && Inners(t') == Remove(Inners(t), j)
    ensures Removed(m, m4, h, t, t', k)
  {
    var ls, ins, j := Leaves(t), Inners(t), ParentIndex(c, k);
    LeafFacts(m, h, t);
    assert Listed(m4, h, Leaves(t')) by {
      ListedThrough(m, m1, m2, m3, m4, h, ls, k, c);
    }
    assert Cached(m4, Leaves(t'), Inners(t')) && KeptData(m, m4, Leaves(t')) by {
      SlotsThrough(m, m1, m2, m3, m4, t, c, k, j);
    }
    KeysThrough(m, m1, m2, m3, m4, h, t, t', c, k, j);
  }

  lemma {:induction false} KeysThrough(m: Mem, m1: Mem, m2: Mem, m3: Mem, m4: Mem, h: Ptr, t: Tree, t': Tree, c: Path, k: nat, j: nat)
    requires c.In? && Unique(t) && h !in Ids(t) && m.Keys == Ids(t) + {h}
    requires k < |Leaves(t)| && j < |Inners(t)| && Inners(t)[j] == c.id
    requires Leaves(t') == Remove(Leaves(t), k) && Inners(t') == Remove(Inners(t), j)
    requires m1.Keys == m.Keys && m2.Keys == m1.Keys - {Leaves(t)[k], c.id} && m3.Keys == m2.Keys && m4.Keys == m3.Keys
    ensures m4.Keys == Ids(t') + {h}
  {
    OrderIds(t);
    RemoveIds(t, t', k, j);
    assert Leaves(t)[k] in Leaves(t) && Inners(t)[j] in Inners(t);
  }

  lemma {:induction false} ListedThrough(m: Mem, m1: Mem, m2: Mem, m3: Mem, m4: Mem, h: Ptr, ls: seq<Ptr>, k: nat, c: Path)
    requires c.In? && k < |ls| && NoDup(ls) && h !in ls && c.id in m && m[c.id].internal
    requires forall x :: x in ls + [h] ==> x in m && !m[x].internal
    requires ListOnly(m, m1) && Listed(m1, h, Remove(ls, k)) && Shrunk(m1, m2, ls[k], c.id)
    requires CachesSet(m2, m3, c.up, First(c.sib), Last(c.sib)) && SameData(m3, m4)
    ensures Listed(m4, h, Remove(ls, k))
  {
    assert h in ls + [h] && SameBody(m, m1, h);
    forall x | x in Remove(ls, k)
      ensures x in m1 && x in m4 && m4[x].flink == m1[x].flink && m4[x].blink == m1[x].blink
    {
      var i :| 0 <= i < |Remove(ls, k)| && Remove(ls, k)[i] == x;
      RemoveAt(ls, k, i);
      assert x in ls + [h] && SameBody(m, m1, x);
    }
    ListedFrame(m1, m4, h, Remove(ls, k));
  }

  lemma {:induction false} SlotsThrough(m: Mem, m1: Mem, m2: Mem, m3: Mem, m4: Mem, t: Tree, c: Path, k: nat, j: nat)
    requires c.In? && k < |Leaves(t)| && Plug(c, Ext(Leaves(t)[k])) == t && |LeavesBefore(c)| == k
    requires j == ParentIndex(c, k) && j < |Inners(t)| && Inners(t)[j] == c.id
    requires Cached(m, Leaves(t), Inners(t)) && Unique(t)
    requires forall x :: x in Leaves(t) ==> x in m
    requires ListOnly(m, m1) && Shrunk(m1, m2, Leaves(t)[k], c.id)
    requires CachesSet(m2, m3, c.up, First(c.sib), Last(c.sib)) && SameData(m3, m4)
    ensures Cached(m4, Remove(Leaves(t), k), Remove(Inners(t), j))
    ensures KeptData(m, m4, Remove(Leaves(t), k))
  {
    var ls, ins, n := Leaves(t), Inners(t), Leaves(t)[k];
    var b := |InnersBefore(c.up)|;
    var a := b + |Leaves(c.sib)|;
    OrderIds(t);
    LeafPositions(c, n, ls, b, a);
    InnerPositions(c, n, ins, b, a);
    assert ins[j] in ins && n in ls;
    assert SlotsAt(m, m4, ins, j, a, b, First(c.sib), Last(c.sib)) by {
      forall i | 0 <= i < |ins| && i != j ensures SlotAt(m, m4, ins, i, a, b, First(c.sib), Last(c.sib)) {
        assert ins[i] in ins;
        InnerSlot(m, m1, m2, m3, m4, c, n, ins, i, j, a, b);
      }
    }
    assert Cached(m4, Remove(ls, k), Remove(ins, j)) by {
      CachedRemoveAt(m, m4, ls, ins, k, j, a, b, First(c.sib), Last(c.sib));
    }
    assert KeptData(m, m4, Remove(ls, k)) by {
      LeafSlots(m, m1, m2, m3, m4, c, ls, ins, k);
    }
  }

  /** What the four stages do to the slots of one surviving node. */
  lemma {:induction false} SlotChain(m: Mem, m1: Mem, m2: Mem, m3: Mem, m4: Mem, c: Path, n: Ptr, x: Ptr)
    requires c.In? && x in m && x != n && x != c.id
    requires ListOnly(m, m1) && Shrunk(m1, m2, n, c.id)
    requires CachesSet(m2, m3, c.up, First(c.sib), Last(c.sib)) && SameData(m3, m4)
    ensures x in m4
    ensures var ia := InnersAfter(c.up);
            m4[x].key == if |ia| > 0 && x == ia[0] then V(Last(c.sib)) else m[x].key
    ensures var ib := InnersBefore(c.up);
            m4[x].val == if |ib| > 0 && x == ib[|ib| - 1] then V(First(c.sib)) else m[x].val
  {
  }

  lemma {:induction false} InnerSlot(m: Mem, m1: Mem, m2: Mem, m3: Mem, m4: Mem, c: Path, n: Ptr, ins: seq<Ptr>,
                  i: nat, j: nat, a: nat, b: nat)
    requires c.In? && NoDup(ins) && i < |ins| && j < |ins| && i != j && ins[j] == c.id && ins[i] in m && n !in ins
    requires b == |InnersBefore(c.up)| <= |ins| && (b > 0 ==> InnersBefore(c.up)[b - 1] == ins[b - 1])
    requires (a < |ins| <==> |InnersAfter(c.up)| > 0) && (a < |ins| ==> InnersAfter(c.up)[0] == ins[a])
    requires ListOnly(m, m1) && Shrunk(m1, m2, n, c.id)
    requires CachesSet(m2, m3, c.up, First(c.sib), Last(c.sib)) && SameData(m3, m4)
    ensures SlotAt(m, m4, ins, i, a, b, First(c.sib), Last(c.sib))
  {
    assert ins[i] in ins && ins[i] != ins[j];
    SlotIndex(ins, i, a, b, InnersBefore(c.up), InnersAfter(c.up));
    SlotChain(m, m1, m2, m3, m4, c, n, ins[i]);
  }

  lemma {:induction false} SlotIndex(ins: seq<Ptr>, i: nat, a: nat, b: nat, ib: seq<Ptr>, ia: seq<Ptr>)
    requires NoDup(ins) && i < |ins|
    requires b == |ib| <= |ins| && (b > 0 ==> ib[b - 1] == ins[b - 1])
    requires (a < |ins| <==> |ia| > 0) && (a < |ins| ==> ia[0] == ins[a])
    ensures (|ia| > 0 && ins[i] == ia[0]) <==> i == a
    ensures (|ib| > 0 && ins[i] == ib[|ib| - 1]) <==> i + 1 == b
  {
  }

  lemma {:induction false} LeafSlots(m: Mem, m1: Mem, m2: Mem, m3: Mem, m4: Mem, c: Path, ls: seq<Ptr>, ins: seq<Ptr>, k: nat)
    requires c.In? && k < |ls| && NoDup(ls) && c.id in ins
    requires forall x :: x in ls ==> x in m && x !in ins
    requires |InnersAfter(c.up)| > 0 ==> InnersAfter(c.up)[0] in ins
    requires |InnersBefore(c.up)| > 0 ==> InnersBefore(c.up)[|InnersBefore(c.up)| - 1] in ins
    requires ListOnly(m, m1) && Shrunk(m1, m2, ls[k], c.id)
    requires CachesSet(m2, m3, c.up, First(c.sib), Last(c.sib)) && SameData(m3, m4)
    ensures KeptData(m, m4, Remove(ls, k))
  {
    RemoveMembers(ls, k);
    forall x | x in Remove(ls, k) ensures x in m && x in m4 && m4[x].key == m[x].key && m4[x].val == m[x].val {
      SlotChain(m, m1, m2, m3, m4, c, ls[k], x);
    }
  }

  /** The slots of internal node i: only node a's lext and node (b-1)'s rext
      may have been written. */
  ghost predicate SlotAt(m: Mem, m': Mem, ins: seq<Ptr>, i: nat, a: nat, b: nat, first: Ptr, last: Ptr)
    requires i < |ins|
  {
    && ins[i] in m && ins[i] in m'
    && m'[ins[i]].key == (if i == a then V(last) else m[ins[i]].key)
    && m'[ins[i]].val == (if i + 1 == b then V(first) else m[ins[i]].val)
  }

  ghost predicate SlotsAt(m: Mem, m': Mem, ins: seq<Ptr>, j: nat, a: nat, b: nat, first: Ptr, last: Ptr) {
    forall i :: 0 <= i < |ins| && i != j ==> SlotAt(m, m', ins, i, a, b, first, last)
  }

  lemma {:induction false} CachedRemoveAt(m: Mem, m': Mem, ls: seq<Ptr>, ins: seq<Ptr>, k: nat, j: nat, a: nat, b: nat,
                       first: Ptr, last: Ptr)
    requires Cached(m, ls, ins) && NoDup(ins) && k < |ls| && j < |ins| && b < a < |ls|
    requires (k == j == b && ls[b + 1] == first && ls[a] == last)
          || (k == a == j + 1 && ls[b] == first && ls[a - 1] == last)
    requires SlotsAt(m, m', ins, j, a, b, first, last)
    ensures Cached(m', Remove(ls, k), Remove(ins, j))
  {
    forall i | 0 <= i < |ins| && i != j
      ensures ins[i] in m'
      ensures i != k ==> m'[ins[i]].key == m[ins[i]].key
      ensures i + 1 != k ==> m'[ins[i]].val == m[ins[i]].val
    {
      assert SlotAt(m, m', ins, i, a, b, first, last);
    }
    assert k > 0 && j == k ==> SlotAt(m, m', ins, k - 1, a, b, first, last);
    assert j + 1 == k && k < |ins| ==> SlotAt(m, m', ins, k, a, b, first, last);
    CachedRemove(m, m', ls, ins, k, j);
  }

  /** Where the neighbours of a removed leaf stand in the two sequences. */
  lemma {:induction false} LeafPositions(c: Path, n: Ptr, ls: seq<Ptr>, b: nat, a: nat)
    requires c.In? && ls == Leaves(Plug(c, Ext(n))) && b == |LeavesBefore(c.up)| && a == b + |Leaves(c.sib)|
    ensures b < a < |ls|
    ensures c.left ==> |LeavesBefore(c)| == b && ls[b + 1] == First(c.sib) && ls[a] == Last(c.sib)
    ensures !c.left ==> |LeavesBefore(c)| == a && ls[b] == First(c.sib) && ls[a - 1] == Last(c.sib)
  {
    var pair := Join(c.left, c.id, c.red, Ext(n), c.sib);
    PlugOrder(c.up, pair);
    PairOrder(c.left, c.id, c.red, n, c.sib);
    PairIndex(c.left, LeavesBefore(c.up), n, Leaves(c.sib), LeavesAfter(c.up), Leaves(pair));
  }

  lemma {:induction false} InnerPositions(c: Path, n: Ptr, ins: seq<Ptr>, b: nat, a: nat)
    requires c.In? && ins == Inners(Plug(c, Ext(n))) && b == |InnersBefore(c.up)| && a == b + |Inners(c.sib)| + 1
    ensures |ins| == a + |InnersAfter(c.up)|
    ensures b > 0 ==> InnersBefore(c.up)[b - 1] == ins[b - 1]
    ensures a < |ins| ==> InnersAfter(c.up)[0] == ins[a]
  {
    var pair := Join(c.left, c.id, c.red, Ext(n), c.sib);
    PlugOrder(c.up, pair);
    PairOrder(c.left, c.id, c.red, n, c.sib);
    PairIndex(c.left, InnersBefore(c.up), c.id, Inners(c.sib), InnersAfter(c.up), Inners(pair));
  }

  lemma {:induction false} PairIndex(left: bool, pre: seq<Ptr>, x: Ptr, mid: seq<Ptr>, post: seq<Ptr>, pair: seq<Ptr>)
    requires pair == if left then [x] + mid else mid + [x]
    ensures var s := pre + pair + post;
            && (|pre| > 0 ==> s[|pre| - 1] == pre[|pre| - 1])
            && (|post| > 0 ==> s[|pre| + |mid| + 1] == post[0])
            && (|mid| > 0 ==> s[|pre| + if left then 1 else 0] == mid[0])
            && (|mid| > 0 ==> s[|pre| + |mid| - if left then 0 else 1] == mid[|mid| - 1])
  {
  }

  ghost function Holder(h: Ptr, c: Path): Ptr {
    if c.Top? then h else c.id
  }

  /** An external node that is not part of the surroundings of `c`. */
  ghost predicate Loose(m: Mem, h: Ptr, c: Path, x: Ptr) {
    && x in m && !m[x].internal && !m[x].red && !m[x].head && !m[x].root
    && x !in PathIds(c) && x != h
  }

  /** One node `q` more; data, caches and list of the others untouched. */
  ghost predicate Grown(m: Mem, m': Mem, q: Ptr) {
    && m'.Keys == m.Keys + {q}
    && forall x :: x in m ==>
         && m'[x].key == m[x].key && m'[x].val == m[x].val
         && m'[x].internal == m[x].internal
         && (!m[x].internal ==> m'[x].flink == m[x].flink && m'[x].blink == m[x].blink)
  }

  lemma {:induction false} NewIntGrown(m: Mem, m': Mem, l: Ptr, r: Ptr, p: Ptr, q: Ptr, il: bool)
    requires l in m && r in m && p in m && (m[p].internal || m[p].head)
    requires m'.Keys == m.Keys + {q} && q !in m && Agree(m, m', {l, r, p})
    requires m'[l] == m[l].(parent := q, left := true) && m'[r] == m[r].(parent := q, left := false)
    requires m'[p] == if m[p].head then m[p].(parent := q) else WithChild(m[p], il, q)
    ensures Grown(m, m', q)
  {
  }

  lemma {:induction false} NewIntRep(m: Mem, m': Mem, h: Ptr, c: Path, l: Ptr, r: Ptr, q: Ptr)
    requires Around(m, h, c) && UniquePath(c) && h !in PathIds(c)
    requires l != r && Loose(m, h, c, l) && Loose(m, h, c, r) && q !in m
    requires var p := Holder(h, c);
             && p in m && m'.Keys == m.Keys + {q} && Agree(m, m', {l, r, p})
             && m'[l] == m[l].(parent := q, left := true)
             && m'[r] == m[r].(parent := q, left := false)
             && m'[q] == Node(true, true, if m[p].head then false else c.In? && c.left, m[p].head, false,
                              l, r, p, V(l), V(r))
             && m'[p] == if m[p].head then m[p].(parent := q) else WithChild(m[p], c.In? && c.left, q)
    ensures Rep(m', h, c, Int(q, true, Ext(l), Ext(r)))
  {
    AroundKeys(m, h, c);
    assert Around(m', h, c) by {
      KeepAround(m, m', h, c, {l, r, Holder(h, c)});
    }
    var t := Int(q, true, Ext(l), Ext(r));
    assert Shape(m', t) by {
      assert Shape(m', t.l) && Shape(m', t.r);
    }
    assert Ids(t.l) == {l} && Ids(t.r) == {r} && Unique(t.l) && Unique(t.r);
    assert Link(m', h, c, q);
  }

  function WithChild(n: Node, left: bool, x: Ptr): Node {
    if left then n.(flink := x) else n.(blink := x)
  }

  ghost predicate Only(m: Mem, m': Mem, a: Ptr, b: Ptr, c: Ptr) {
    && m'.Keys == m.Keys && a in m && b in m && c in m
    && forall p :: p in m && p != a && p != b && p != c ==> m'[p] == m[p]
  }

  /** The nodes a rotation touches: `x` under `y` under `yp`, `b` the inner
      grandchild; `top` says that `yp` is the head, else `side` is y's side. */
  datatype Spot = Spot(y: Ptr, x: Ptr, b: Ptr, yp: Ptr, top: bool, side: bool)

  ghost function SpotOf(h: Ptr, c: Path, t: Tree, l: bool): Spot
    requires CanRotate(t, l)
  {
    var x := Kid(t, l);
    if c.Top? then Spot(t.id, x.id, Kid(x, !l).id, h, true, false)
    else Spot(t.id, x.id, Kid(x, !l).id, c.id, false, c.left)
  }

  ghost predicate Ready(m: Mem, s: Spot, l: bool) {
    && s.y in m && s.x in m && s.b in m && s.yp in m
    && s.y != s.x && s.y != s.b && s.y != s.yp && s.x != s.b && s.x != s.yp && s.b != s.yp
    && Child(m, s.y, l) == s.x && Child(m, s.x, !l) == s.b && m[s.y].parent == s.yp
    && m[s.y].root == s.top && (!s.top ==> m[s.y].left == s.side && !m[s.y].root) && !m[s.y].head
  }

  /** What a rotation writes. */
  ghost predicate Turned(m: Mem, m': Mem, s: Spot, l: bool) {
    && m'.Keys == m.Keys
    && s.y in m && s.x in m && s.b in m && s.yp in m
    && Agree(m, m', {s.y, s.x, s.b, s.yp})
    && m'[s.b] == m[s.b].(parent := s.y, left := l)
    && m'[s.y] == WithChild(m[s.y], l, s.b).(parent := s.x, left := !l, root := false)
    && (var x1 := WithChild(m[s.x], !l, s.y).(parent := s.yp);
        m'[s.x] == if s.top then x1.(root := true) else x1.(left := s.side))
    && m'[s.yp] == (if s.top then m[s.yp].(parent := s.x) else WithChild(m[s.yp], s.side, s.x))
  }

  lemma {:induction false} RotateReady(m: Mem, h: Ptr, c: Path, t: Tree, l: bool)
    requires Rep(m, h, c, t) && CanRotate(t, l)
    ensures Ready(m, SpotOf(h, c, t, l), l)
    ensures var s := SpotOf(h, c, t, l);
            && !m[s.x].head && !m[s.x].root && !m[s.b].root && !m[s.b].head
            && m[s.y].internal && m[s.x].internal && (!s.top ==> m[s.yp].internal)
  {
    var x := Kid(t, l);
    var b := Kid(x, !l);
    assert Shape(m, x) && Hangs(m, x.id, t.id, l);
    assert Shape(m, b) && Hangs(m, b.id, x.id, !l);
    assert b.id in Ids(b);
    assert b.id in Ids(x) && x.id in Ids(x);
    assert Ids(x) <= Ids(t);
  }

  lemma {:induction false} RotateRep(m: Mem, m': Mem, h: Ptr, c: Path, t: Tree, l: bool)
    requires Rep(m, h, c, t) && CanRotate(t, l) && Turned(m, m', SpotOf(h, c, t, l), l)
    ensures Rep(m', h, c, Rotate(t, l))
    ensures SameData(m, m')
  {
    var s := SpotOf(h, c, t, l);
    RotateReady(m, h, c, t, l);
    RotateOrder(t, l);
    RotateAround(m, m', h, c, t, l);
    RotateShape(m, m', s, t, l);
    assert Link(m', h, c, s.x);
    RotateData(m, m', s, l);
  }

  lemma {:induction false} RotateData(m: Mem, m': Mem, s: Spot, l: bool)
    requires Turned(m, m', s, l)
    requires m[s.y].internal && m[s.x].internal && (!s.top ==> m[s.yp].internal)
    ensures SameData(m, m')
  {
    forall x | x in m
      ensures m[x].key == m'[x].key && m[x].val == m'[x].val && m[x].internal == m'[x].internal
      ensures !m[x].internal ==> m[x].flink == m'[x].flink && m[x].blink == m'[x].blink
    {
      if x == s.y {
      } else if x == s.x {
      } else if x == s.b {
      } else if x == s.yp {
      } else {
        assert m'[x] == m[x];
      }
    }
  }

  lemma {:induction false} RotateAround(m: Mem, m': Mem, h: Ptr, c: Path, t: Tree, l: bool)
    requires Rep(m, h, c, t) && CanRotate(t, l) && Turned(m, m', SpotOf(h, c, t, l), l)
    requires Ready(m, SpotOf(h, c, t, l), l)
    ensures Around(m', h, c)
  {
    var s := SpotOf(h, c, t, l);
    var x := Kid(t, l);
    assert s.b in Ids(x) && s.x in Ids(x) && Ids(x) <= Ids(t) && s.y in Ids(t);
    var e := {s.y, s.x, s.b, s.yp};
    assert Agree(m, m', e);
    KeepAround(m, m', h, c, e);
  }

  lemma {:induction false} RotateShape(m: Mem, m': Mem, s: Spot, t: Tree, l: bool)
    requires Shape(m, t) && Unique(t) && CanRotate(t, l)
    requires s.y == t.id && s.x == Kid(t, l).id && s.b == Kid(Kid(t, l), !l).id && s.yp !in Ids(t)
    requires Ready(m, s, l) && Turned(m, m', s, l)
    ensures Shape(m', Rotate(t, l))
  {
    var x, d := Kid(t, l), Kid(t, !l);
    var a, b := Kid(x, l), Kid(x, !l);
    RotateParts(m, t, l);
    RotateKept(m, m', s, t, l);
    var low := Join(l, t.id, t.red, b, d);
    assert Hangs(m', b.id, s.y, l) && Hangs(m', d.id, s.y, !l);
    assert Child(m', s.y, l) == b.id && Child(m', s.y, !l) == d.id;
    assert Shape(m', low);
    assert Hangs(m', a.id, s.x, l) && Hangs(m', low.id, s.x, !l);
    assert Child(m', s.x, l) == a.id && Child(m', s.x, !l) == low.id;
  }

  lemma {:induction false} RotateKept(m: Mem, m': Mem, s: Spot, t: Tree, l: bool)
    requires Shape(m, t) && Unique(t) && CanRotate(t, l)
    requires s.y == t.id && s.x == Kid(t, l).id && s.b == Kid(Kid(t, l), !l).id && s.yp !in Ids(t)
    requires Turned(m, m', s, l)
    ensures var x := Kid(t, l);
            Shape(m', Kid(x, l)) && Shape(m', Kid(x, !l)) && Shape(m', Kid(t, !l))
  {
    var x, d := Kid(t, l), Kid(t, !l);
    var a, b := Kid(x, l), Kid(x, !l);
    var e := {s.y, s.x, s.b, s.yp};
    assert Agree(m, m', e);
    RotateParts(m, t, l);
    KeepShape(m, m', a, e);
    KeepShape(m, m', b, e);
    KeepShape(m, m', d, e);
  }

  lemma {:induction false} RotateParts(m: Mem, t: Tree, l: bool)
    requires Shape(m, t) && Unique(t) && CanRotate(t, l)
    ensures var x, d := Kid(t, l), Kid(t, !l);
            var a, b := Kid(x, l), Kid(x, !l);
            && Shape(m, a) && Shape(m, b) && Shape(m, d)
            && Unique(a) && Unique(b) && Unique(d)
            && a.id in Ids(a) && b.id in Ids(b) && d.id in Ids(d)
            && {t.id, x.id} !! Ids(a) + Ids(b) + Ids(d) && t.id != x.id
            && Ids(a) !! Ids(b) && Ids(a) !! Ids(d) && Ids(b) !! Ids(d)
            && Ids(t) == {t.id, x.id} + Ids(a) + Ids(b) + Ids(d)
            && Hangs(m, a.id, x.id, l) && Hangs(m, d.id, t.id, !l) && Hangs(m, b.id, x.id, !l)
            && m[t.id].internal && m[x.id].internal && m[x.id].red == x.red && m[t.id].red == t.red
  {
    var x, d := Kid(t, l), Kid(t, !l);
    assert Shape(m, x) && Shape(m, d) && Unique(x) && Unique(d) && Ids(x) !! Ids(d);
  }
}
