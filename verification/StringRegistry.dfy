/** utils/string.c over utils/sll.c: every heap string is on one list from its
    allocation to its release, and all workers share that list. Freeing
    requires a live block, so that no string is freed twice is checked at every
    call. The parsers and destroy functions of request.c and response.c are the
    registry's callers. */
module StringRegistry {
  import opened Bytes
  import opened Collections
  import Q = Requests
  import R = Responses

  // ---- Lists of strings ----

  /** The elements of `s` inside (or outside) the set, in order. */
  function Pick(s: seq<nat>, a: set<nat>, inside: bool): seq<nat> {
    if s == [] then []
    else if (s[0] in a) == inside then [s[0]] + Pick(s[1..], a, inside)
    else Pick(s[1..], a, inside)
  }

  /** The list without some strings. */
  function Without(s: seq<nat>, a: set<nat>): seq<nat> {
    Pick(s, a, false)
  }

  lemma {:induction false} PickElems(s: seq<nat>, a: set<nat>, inside: bool)
    ensures forall x :: x in Pick(s, a, inside) <==> x in s && (x in a) == inside
  {
    if s != [] {
      PickElems(s[1..], a, inside);
    }
  }

  lemma {:induction false} PickAll(s: seq<nat>, a: set<nat>, inside: bool)
    requires forall x :: x in s ==> (x in a) == inside
    ensures Pick(s, a, inside) == s && Pick(s, a, !inside) == []
  {
    if s != [] {
      PickAll(s[1..], a, inside);
    }
  }

  lemma {:induction false} PickConcat(s: seq<nat>, t: seq<nat>, a: set<nat>, inside: bool)
    ensures Pick(s + t, a, inside) == Pick(s, a, inside) + Pick(t, a, inside)
  {
    if s == [] {
      assert s + t == t;
    } else {
      assert (s + t)[1..] == s[1..] + t;
      PickConcat(s[1..], t, a, inside);
    }
  }

  lemma {:induction false} PickCons(x: nat, t: seq<nat>, a: set<nat>, inside: bool)
    ensures (x in a) == inside ==> Pick([x] + t, a, inside) == [x] + Pick(t, a, inside)
    ensures (x in a) != inside ==> Pick([x] + t, a, inside) == Pick(t, a, inside)
  {
    assert ([x] + t)[1..] == t;
  }

  /** Picking twice, in either order. */
  lemma {:induction false} PickTwice(s: seq<nat>, a: set<nat>, inside: bool, b: set<nat>)
    ensures Pick(Without(s, b), a, inside) == Without(Pick(s, a, inside), b)
  {
    if s != [] {
      var x, t := s[0], s[1..];
      PickTwice(t, a, inside, b);
      if x !in b {
        PickCons(x, Without(t, b), a, inside);
      }
      if (x in a) == inside {
        PickCons(x, Pick(t, a, inside), b, false);
      }
    }
  }

  lemma {:induction false} WithoutTwice(s: seq<nat>, a: set<nat>, b: set<nat>)
    ensures Without(Without(s, a), b) == Without(s, a + b)
  {
    if s != [] {
      var x, t := s[0], s[1..];
      WithoutTwice(t, a, b);
      if x !in a {
        PickCons(x, Without(t, a), b, false);
      }
    }
  }

  lemma {:induction false} PickNoDup(s: seq<nat>, a: set<nat>, inside: bool)
    requires NoDup(s)
    ensures NoDup(Pick(s, a, inside))
  {
    if s != [] {
      PickNoDup(s[1..], a, inside);
      PickElems(s[1..], a, inside);
    }
  }

  /** Taking out the one element at `k`. */
  lemma {:induction false} WithoutOne(s: seq<nat>, k: nat)
    requires NoDup(s) && k < |s|
    ensures Without(s, {s[k]}) == s[..k] + s[k + 1..]
  {
    var x, before, after := s[k], s[..k], s[k + 1..];
    assert s == before + ([x] + after);
    PickConcat(before, [x] + after, {x}, false);
    PickCons(x, after, {x}, false);
    PickAll(before, {x}, false);
    PickAll(after, {x}, false);
  }

  lemma {:induction false} WithoutSet(s: seq<nat>, p: nat)
    requires NoDup(s)
    ensures NoDup(Without(s, {p})) && Elems(Without(s, {p})) == Elems(s) - {p}
  {
    PickNoDup(s, {p}, false);
    PickElems(s, {p}, false);
  }

  lemma {:induction false} WithoutCons(s: seq<nat>, fields: seq<nat>)
    requires fields != []
    ensures Without(Without(s, {fields[0]}), Elems(fields[1..])) == Without(s, Elems(fields))
    ensures Elems(fields) == {fields[0]} + Elems(fields[1..])
  {
    assert Elems(fields) == {fields[0]} + Elems(fields[1..]);
    WithoutTwice(s, {fields[0]}, Elems(fields[1..]));
  }

  // ---- Calls and runs ----

  /** A call that has happened: a string was registered, one was removed (if it
      was registered), or everything was. */
  datatype Act = Made(p: nat) | Gone(p: nat) | Cleaned

  function Do(s: seq<nat>, a: Act): seq<nat> {
    match a
    case Made(p) => [p] + s
    case Gone(p) => Without(s, {p})
    case Cleaned => []
  }

  function DoAll(s: seq<nat>, acts: seq<Act>): seq<nat> {
    if acts == [] then s else Do(DoAll(s, acts[..|acts| - 1]), acts[|acts| - 1])
  }

  lemma {:induction false} DoSnoc(s: seq<nat>, acts: seq<Act>, a: Act)
    ensures DoAll(s, acts + [a]) == Do(DoAll(s, acts), a)
  {
    assert (acts + [a])[..|acts|] == acts;
  }

  // ---- What the parsers keep ----

  /** The string fields of a parsed request body; 0 is NULL. */
  datatype RequestBody =
    | NoRequest
    | ReqAuth(uname: nat, password: nat, phone: nat, email: nat)
    | ReqUser(uname: nat)
    | ReqConv(gname: nat)
    | ReqChat
    | ReqMsg(content: nat)

  datatype ResponseBody =
    | NoResponse
    | ResAuth(token: nat)
    | ResUser(uname: nat, phone: nat, email: nat)
    | ResConv(gname: nat)
    | ResChat
    | ResMsg(content: nat)

  /** The string fields in the order in which they are allocated and freed. */
  function RequestFields(b: RequestBody): seq<nat> {
    match b
    case ReqAuth(u, p, ph, e) => [u, p, ph, e]
    case ReqUser(u) => [u]
    case ReqConv(g) => [g]
    case ReqMsg(c) => [c]
    case NoRequest => []
    case ReqChat => []
  }

  function ResponseFields(b: ResponseBody): seq<nat> {
    match b
    case ResAuth(t) => [t]
    case ResUser(u, p, e) => [u, p, e]
    case ResConv(g) => [g]
    case ResMsg(c) => [c]
    case NoResponse => []
    case ResChat => []
  }

  /** Which member of the union a group uses. */
  predicate RequestOf(group: int, b: RequestBody) {
    match b
    case NoRequest => true
    case ReqAuth(_, _, _, _) => group == 0
    case ReqUser(_) => group == 1
    case ReqConv(_) => group == 2
    case ReqChat => group == 3
    case ReqMsg(_) => group == 4
  }

  predicate ResponseOf(group: int, b: ResponseBody) {
    match b
    case NoResponse => true
    case ResAuth(_) => group == 0
    case ResUser(_, _, _) => group == 1
    case ResConv(_) => group == 2
    case ResChat => group == 3
    case ResMsg(_) => group == 4
  }

  /** The field `p` holds the text, or is NULL when there is none. */
  ghost predicate Holds(heap: map<nat, Str>, p: nat, text: Option<Str>) {
    if text.None? then p == 0 else p in heap && heap[p] == text.value
  }

  /** The strings of the body are the texts of the parsed request. */
  ghost predicate Mirrors(heap: map<nat, Str>, b: RequestBody, q: Option<Q.Body>) {
    if q.None? then b.NoRequest?
    else match q.value
      case Auth(u, p, ph, e) =>
        b.ReqAuth? && Holds(heap, b.uname, Some(u)) && Holds(heap, b.password, Some(p))
        && Holds(heap, b.phone, ph) && Holds(heap, b.email, e)
      case User(_, s) => b.ReqUser? && Holds(heap, b.uname, s)
      case Conv(_, _, s) => b.ReqConv? && Holds(heap, b.gname, s)
      case Chat(_, _) => b.ReqChat?
      case Msg(_, _, _, _, s) => b.ReqMsg? && Holds(heap, b.content, s)
  }

  ghost predicate ResponseMirrors(heap: map<nat, Str>, b: ResponseBody, q: Option<R.Body>) {
    if q.None? then b.NoResponse?
    else match q.value
      case Auth(t, _) => b.ResAuth? && Holds(heap, b.token, Some(t))
      case UserFields(u, p, e) =>
        b.ResUser? && Holds(heap, b.uname, Some(u)) && Holds(heap, b.phone, Some(p)) && Holds(heap, b.email, Some(e))
      case Conv(_, s) => b.ResConv? && Holds(heap, b.gname, Some(s))
      case Msg(d) => b.ResMsg? && Holds(heap, b.content, Some(d.content))
      case File(s) => b.ResMsg? && Holds(heap, b.content, Some(s))
      case Chat(_, _) => b.ResChat?
      case Ids(_) => forall p :: p in ResponseFields(b) ==> p == 0
      case Single(_) => forall p :: p in ResponseFields(b) ==> p == 0
      case Nothing => forall p :: p in ResponseFields(b) ==> p == 0
  }

  function Mades(fields: seq<nat>): seq<Act> {
    seq(|fields|, i requires 0 <= i < |fields| => Made(fields[i]))
  }

  function Gones(fields: seq<nat>): seq<Act> {
    seq(|fields|, i requires 0 <= i < |fields| => Gone(fields[i]))
  }

  /** The calls of a whole life: every string that was made is removed again. */
  function Life(fields: seq<nat>): seq<Act> {
    Mades(fields) + Gones(fields)
  }

  /** The fields that are not NULL. */
  function NonNull(s: seq<nat>): seq<nat> {
    Without(s, {0})
  }

  lemma {:induction false} NonNullSnoc(s: seq<nat>, p: nat)
    ensures NonNull(s + [p]) == if p == 0 then NonNull(s) else NonNull(s) + [p]
  {
    PickConcat(s, [p], {0}, false);
    assert NonNull(s) + [] == NonNull(s) && [p][1..] == [];
  }

  /** Since a state with `heap0` and `log0`, exactly the non-NULL fields have
      been allocated, all of them new. */
  ghost predicate Since(heap0: map<nat, Str>, log0: seq<Act>, heap: map<nat, Str>, log: seq<Act>, fields: seq<nat>) {
    var made := NonNull(fields);
    && log == log0 + Mades(made)
    && NoDup(made) && 0 !in made && Elems(made) !! heap0.Keys
    && heap.Keys == heap0.Keys + Elems(made)
    && forall p :: p in heap0 ==> p in heap && heap[p] == heap0[p]
  }

  /** Since then the strings `keep` and `made` have been allocated and `made`
      have been freed again. */
  ghost predicate Lived(heap0: map<nat, Str>, log0: seq<Act>, heap: map<nat, Str>, log: seq<Act>,
                        keep: seq<nat>, made: seq<nat>) {
    && log == log0 + (Mades(keep) + Life(made))
    && NoDup(keep + made) && 0 !in keep + made && Elems(keep + made) !! heap0.Keys
    && heap.Keys == heap0.Keys + Elems(keep)
    && forall p :: p in heap0 ==> p in heap && heap[p] == heap0[p]
  }

  lemma {:induction false} LivedAfter(heap0: map<nat, Str>, log0: seq<Act>, heap1: map<nat, Str>, log1: seq<Act>,
                                      heap2: map<nat, Str>, log2: seq<Act>, keep: seq<nat>, fields: seq<nat>)
    requires Since(heap0, log0, heap1, log1, keep + fields) && 0 !in keep && 0 !in heap1
    requires heap2 == heap1 - Elems(fields) && log2 == log1 + Gones(NonNull(fields))
    ensures Lived(heap0, log0, heap2, log2, keep, NonNull(fields))
  {
    var made := NonNull(fields);
    PickConcat(keep, fields, {0}, false);
    PickAll(keep, {0}, false);
    PickElems(fields, {0}, false);
    assert NonNull(keep + fields) == keep + made;
    assert Mades(keep + made) == Mades(keep) + Mades(made);
    assert log2 == log0 + (Mades(keep) + Life(made));
    LivedKeys(heap0.Keys, heap1.Keys, heap2.Keys, keep, made, fields);
  }

  lemma {:induction false} LivedKeys(k0: set<nat>, k1: set<nat>, k2: set<nat>, keep: seq<nat>, made: seq<nat>, fields: seq<nat>)
    requires NoDup(keep + made) && Elems(keep + made) !! k0 && k1 == k0 + Elems(keep + made) && 0 !in k1
    requires (forall x :: x in made <==> x in fields && x != 0) && k2 == k1 - Elems(fields)
    ensures k2 == k0 + Elems(keep)
  {
    forall x | x in keep ensures x !in made {
      var i :| 0 <= i < |keep| && keep[i] == x;
      forall j | 0 <= j < |made| ensures made[j] != x {
        assert (keep + made)[i] != (keep + made)[|keep| + j];
      }
    }
    forall x ensures x in k2 <==> x in k0 + Elems(keep) {
      assert x in Elems(keep + made) <==> x in keep || x in made;
    }
  }

  lemma {:induction false} SinceMore(heap0: map<nat, Str>, log0: seq<Act>, heap: map<nat, Str>, log: seq<Act>, fields: seq<nat>,
                                     heap': map<nat, Str>, log': seq<Act>, p: nat, text: Str)
    requires Since(heap0, log0, heap, log, fields)
    requires if p == 0 then heap' == heap && log' == log
             else p !in heap && heap' == heap[p := text] && log' == log + [Made(p)]
    ensures Since(heap0, log0, heap', log', fields + [p])
  {
    NonNullSnoc(fields, p);
    if p != 0 {
      var made := NonNull(fields);
      assert Mades(made + [p]) == Mades(made) + [Made(p)];
      assert log' == log0 + Mades(made + [p]);
      assert Elems(made + [p]) == Elems(made) + {p};
    }
  }

  class Registry {
    var head: seq<nat>            // the list, newest first
    var heap: map<nat, Str>       // live heap strings
    ghost var log: seq<Act>       // the calls so far

    /** The list holds exactly the live strings, each once, and is what the
        calls so far leave. */
    ghost predicate Valid()
      reads this
    {
      NoDup(head) && 0 !in head && heap.Keys == Elems(head) && head == DoAll([], log)
    }

    constructor ()
      ensures Valid() && head == [] && log == []
    {
      head, heap, log := [], map[], [];
    }

    method Free(p: nat)
      requires p in heap
      modifies this`heap
      ensures heap == old(heap) - {p}
    {
      heap := heap - {p};
    }

    /** string_new, string_new_n, string_mem_n: malloc answers with any block
        not in use. */
    method StringNew(text: Str) returns (p: nat)
      requires Valid()
      modifies this
      ensures Valid() && p != 0 && p !in old(heap) && head == [p] + old(head)
      ensures heap == old(heap)[p := text] && log == old(log) + [Made(p)]
    {
      FreshNat(heap.Keys);
      p :| p != 0 && p !in heap;
      heap := heap[p := text];
      DoSnoc([], log, Made(p));
      head := [p] + head;
      log := log + [Made(p)];
      assert Elems(head) == Elems(old(head)) + {p};
    }

    /** sll_find_node */
    method FindNode(p: nat) returns (k: nat)
      ensures k <= |head| && p !in head[..k]
      ensures k < |head| ==> head[k] == p
    {
      k := 0;
      while k < |head| && head[k] != p
        invariant 0 <= k <= |head| && p !in head[..k]
      {
        k := k + 1;
      }
    }

    /** string_remove: unlinks and frees a registered string; any other
        pointer, NULL included, changes nothing. */
    method StringRemove(p: nat)
      requires Valid()
      modifies this
      ensures Valid() && head == Without(old(head), {p}) && heap == old(heap) - {p}
      ensures log == old(log) + [Gone(p)]
    {
      var k := FindNode(p);
      if k < |head| {
        WithoutOne(head, k);
        WithoutSet(head, p);
        head := head[..k] + head[k + 1..];
        Free(p);
      } else {
        assert head[..k] == head;
        PickAll(head, {p}, false);
      }
      DoSnoc([], log, Gone(p));
      log := log + [Gone(p)];
    }

    /** string_clean: everything goes, each block freed once. */
    method StringClean()
      requires Valid()
      modifies this
      ensures Valid() && head == [] && heap == map[]
      ensures log == old(log) + [Cleaned]
    {
      ghost var past := log;
      while head != []
        invariant NoDup(head) && 0 !in head && heap.Keys == Elems(head) && log == past
        decreases |head|
      {
        var p := head[0];
        head := head[1..];
        Free(p);
      }
      DoSnoc([], log, Cleaned);
      log := log + [Cleaned];
    }

    /** Any sequence of calls by anybody: the registry holds exactly the live
        strings throughout, and its list is what the calls leave. */
    method Replay(calls: seq<Call>)
      requires Valid()
      modifies this
      ensures Valid() && |log| == |old(log)| + |calls| && log[..|old(log)|] == old(log)
      ensures forall i :: 0 <= i < |calls| ==> Answers(calls[i], log[|old(log)| + i])
    {
      var i := 0;
      while i < |calls|
        invariant 0 <= i <= |calls| && Valid() && |log| == |old(log)| + i && log[..|old(log)|] == old(log)
        invariant forall k :: 0 <= k < i ==> Answers(calls[k], log[|old(log)| + k])
      {
        match calls[i] {
          case New(text) => var _ := StringNew(text);
          case Remove(p) => StringRemove(p);
          case Clean => StringClean();
        }
        i := i + 1;
      }
    }

    // ---- Destroying ----

    /** `if (field) string_remove(field)` for every field. */
    method RemoveField(p: nat)
      requires Valid()
      modifies this
      ensures Valid() && head == Without(old(head), {p}) && heap == old(heap) - {p}
      ensures log == old(log) + (if p == 0 then [] else [Gone(p)])
    {
      if p != 0 {
        StringRemove(p);
      } else {
        PickAll(head, {0}, false);
      }
    }

    method RemoveFields(fields: seq<nat>)
      requires Valid()
      modifies this
      ensures Valid() && head == Without(old(head), Elems(fields)) && heap == old(heap) - Elems(fields)
      ensures log == old(log) + Gones(NonNull(fields))
    {
      if fields == [] {
        PickAll(head, {}, false);
        assert Elems(fields) == {};
      } else {
        RemoveField(fields[0]);
        ghost var mid, midHeap, midLog := head, heap, log;
        RemoveFields(fields[1..]);
        FieldsGone(old(head), mid, head, old(heap), midHeap, heap, old(log), midLog, log, fields);
      }
    }

    /** request_body_destroy, wherever in the list the strings stand and
        whoever else has strings there: exactly the body's strings go. */
    method RequestBodyDestroy(group: int, body: RequestBody)
      requires Valid() && RequestOf(group, body)
      modifies this
      ensures Valid() && head == Without(old(head), Elems(RequestFields(body)))
      ensures heap == old(heap) - Elems(RequestFields(body))
      ensures log == old(log) + Gones(NonNull(RequestFields(body)))
    {
      if body.NoRequest? {
        RemoveFields([]);
      } else if group == 0 {
        RemoveFields([body.uname, body.password, body.phone, body.email]);
      } else if group == 1 {
        RemoveFields([body.uname]);
      } else if group == 2 {
        RemoveFields([body.gname]);
      } else if group == 3 {
        RemoveFields([]);
      } else {
        RemoveFields([body.content]);
      }
    }

    /** response_body_destroy, likewise. */
    method ResponseBodyDestroy(group: int, body: ResponseBody)
      requires Valid() && ResponseOf(group, body)
      modifies this
      ensures Valid() && head == Without(old(head), Elems(ResponseFields(body)))
      ensures heap == old(heap) - Elems(ResponseFields(body))
      ensures log == old(log) + Gones(NonNull(ResponseFields(body)))
    {
      if body.NoResponse? {
        RemoveFields([]);
      } else if group == 0 {
        RemoveFields([body.token]);
      } else if group == 1 {
        RemoveFields([body.uname, body.phone, body.email]);
      } else if group == 2 {
        RemoveFields([body.gname]);
      } else if group == 3 {
        RemoveFields([]);
      } else {
        RemoveFields([body.content]);
      }
    }

    // ---- Parsing ----

    /** A string for a text that may be missing; `fields` came before it. */
    method Alloc(text: Option<Str>, ghost heap0: map<nat, Str>, ghost log0: seq<Act>, ghost fields: seq<nat>) returns (p: nat)
      requires Valid() && Since(heap0, log0, heap, log, fields)
      modifies this
      ensures Valid() && Since(heap0, log0, heap, log, fields + [p])
      ensures Holds(heap, p, text) && (p == 0 <==> text.None?) && p !in old(heap)
      ensures forall q, t :: Holds(old(heap), q, t) ==> Holds(heap, q, t)
    {
      p := 0;
      if text.Some? {
        p := StringNew(text.value);
      }
      SinceMore(heap0, log0, old(heap), old(log), fields, heap, log, p, if text.Some? then text.value else []);
    }

    /** request_parse as the registry sees it. A body that is given up midway
        has been destroyed again; then `made` are its strings. */
    method RequestParse(b: seq<byte>) returns (token: nat, body: RequestBody, ghost made: seq<nat>)
      requires Valid() && |b| == BUFSIZ && Q.LengthsOk(b)
      modifies this
      ensures Valid() && RequestOf(b[0], body) && token != 0 && Holds(heap, token, Some(Q.ParseHeader(b).token))
      ensures Mirrors(heap, body, Q.ParseBody(Q.ParseHeader(b), b[Q.HEADER_LEN..]))
      ensures body.NoRequest? ==> Lived(old(heap), old(log), heap, log, [token], made)
      ensures !body.NoRequest? ==> Since(old(heap), old(log), heap, log, [token] + RequestFields(body))
    {
      ghost var heap0, log0 := heap, log;
      var h := Q.ParseHeader(b);
      assert Mades([]) == [];
      token := Alloc(Some(h.token), heap0, log0, []);
      assert [] + [token] == [token];
      made := [];
      if h.group == 0 {
        body, made := RequestParseAuth(h.action, b[Q.HEADER_LEN..][..h.bodyLen], heap0, log0, token);
        return;
      }
      var parsed := Q.ParseBody(h, b[Q.HEADER_LEN..]);
      if parsed.None? {
        body := NoRequest;
        assert [token] + [] == [token] && NonNull([]) == [] && Gones([]) == [] && Elems<nat>([]) == {};
        LivedAfter(heap0, log0, heap, log, heap, log, [token], []);
        return;
      }
      BodyKind(h, b[Q.HEADER_LEN..]);
      body := AllocRequest(parsed.value, heap0, log0, token);
    }

    /** The string of a body of groups 1 to 4, if it has one. */
    method AllocRequest(parsed: Q.Body, ghost heap0: map<nat, Str>, ghost log0: seq<Act>, token: nat)
        returns (body: RequestBody)
      requires Valid() && Since(heap0, log0, heap, log, [token]) && !parsed.Auth?
      modifies this
      ensures Valid() && Mirrors(heap, body, Some(parsed))
      ensures Since(heap0, log0, heap, log, [token] + RequestFields(body))
      ensures forall t :: Holds(old(heap), token, t) ==> Holds(heap, token, t)
    {
      if parsed.Chat? {
        assert [token] + [] == [token];
        return ReqChat;
      }
      var text := if parsed.User? then parsed.name else if parsed.Conv? then parsed.gname else parsed.content;
      var p := Alloc(text, heap0, log0, [token]);
      body := if parsed.User? then ReqUser(p) else if parsed.Conv? then ReqConv(p) else ReqMsg(p);
    }

    method RequestParseAuth(action: byte, text: seq<byte>, ghost heap0: map<nat, Str>, ghost log0: seq<Act>, token: nat)
        returns (body: RequestBody, ghost made: seq<nat>)
      requires Valid() && Since(heap0, log0, heap, log, [token]) && token in heap
      modifies this
      ensures Valid() && (body.NoRequest? || body.ReqAuth?)
      ensures forall t :: Holds(old(heap), token, t) ==> Holds(heap, token, t)
      ensures Mirrors(heap, body, Q.ParseAuth(action, text))
      ensures body.NoRequest? ==> Lived(heap0, log0, heap, log, [token], made)
      ensures !body.NoRequest? ==> Since(heap0, log0, heap, log, [token] + RequestFields(body))
    {
      var uname, password := AllocNames(Field(text, 0), Field(text, NextField(text, 0)), heap0, log0, token);
      made := [];
      AuthNames(action, text);
      var parsed := Q.ParseAuth(action, text);
      if parsed.None? {
        made := GiveUp(uname, password, heap0, log0, token);
        return NoRequest, made;
      }
      body := AllocAuth(parsed.value, uname, password, heap0, log0, token);
    }

    method AllocNames(name: Str, secret: Str, ghost heap0: map<nat, Str>, ghost log0: seq<Act>, token: nat)
        returns (uname: nat, password: nat)
      requires Valid() && Since(heap0, log0, heap, log, [token]) && token in heap
      modifies this
      ensures Valid() && Since(heap0, log0, heap, log, [token, uname, password])
      ensures Holds(heap, uname, Some(name)) && Holds(heap, password, Some(secret))
      ensures token != 0 && token != uname && token != password
      ensures forall t :: Holds(old(heap), token, t) ==> Holds(heap, token, t)
    {
      uname := Alloc(Some(name), heap0, log0, [token]);
      assert [token] + [uname] == [token, uname];
      assert Holds(old(heap), token, Some(old(heap)[token]));
      password := Alloc(Some(secret), heap0, log0, [token, uname]);
      assert [token, uname] + [password] == [token, uname, password];
    }

    /** A refused body is destroyed before the parser returns. */
    method GiveUp(uname: nat, password: nat, ghost heap0: map<nat, Str>, ghost log0: seq<Act>, token: nat)
        returns (ghost made: seq<nat>)
      requires Valid() && Since(heap0, log0, heap, log, [token, uname, password])
      requires token != 0 && token != uname && token != password
      modifies this
      ensures Valid() && Lived(heap0, log0, heap, log, [token], made)
      ensures forall t :: Holds(old(heap), token, t) ==> Holds(heap, token, t)
    {
      ghost var fields := [uname, password, 0, 0];
      made := NonNull(fields);
      assert [token, uname, password] + [0] == [token, uname, password, 0];
      assert [token, uname, password, 0] + [0] == [token] + fields;
      SinceMore(heap0, log0, heap, log, [token, uname, password], heap, log, 0, []);
      SinceMore(heap0, log0, heap, log, [token, uname, password, 0], heap, log, 0, []);
      RequestBodyDestroy(0, ReqAuth(uname, password, 0, 0));
      LivedAfter(heap0, log0, old(heap), old(log), heap, log, [token], fields);
    }

    /** Phone and email, which a login does not have. */
    method AllocAuth(parsed: Q.Body, uname: nat, password: nat, ghost heap0: map<nat, Str>, ghost log0: seq<Act>, token: nat)
        returns (body: RequestBody)
      requires Valid() && Since(heap0, log0, heap, log, [token, uname, password]) && parsed.Auth?
      requires Holds(heap, uname, Some(parsed.uname)) && Holds(heap, password, Some(parsed.password))
      modifies this
      ensures Valid() && Mirrors(heap, body, Some(parsed))
      ensures Since(heap0, log0, heap, log, [token] + RequestFields(body))
      ensures forall t :: Holds(old(heap), token, t) ==> Holds(heap, token, t)
    {
      var phone := Alloc(parsed.phone, heap0, log0, [token, uname, password]);
      assert [token, uname, password] + [phone] == [token, uname, password, phone];
      assert Holds(heap, uname, Some(parsed.uname)) && Holds(heap, password, Some(parsed.password));
      var email := Alloc(parsed.email, heap0, log0, [token, uname, password, phone]);
      body := ReqAuth(uname, password, phone, email);
      assert [token, uname, password, phone] + [email] == [token] + RequestFields(body);
    }

    /** request_parse, then request_destroy: whatever the frame, exactly the
        header token stays behind. */
    method RequestParseDestroy(b: seq<byte>) returns (token: nat, ghost made: seq<nat>)
      requires Valid() && |b| == BUFSIZ && Q.LengthsOk(b)
      modifies this
      ensures Valid() && head == [token] + old(head)
      ensures Lived(old(heap), old(log), heap, log, [token], made)
    {
      var body;
      token, body, made := RequestParse(b);
      if !body.NoRequest? {
        ghost var heap1, log1 := heap, log;
        RequestBodyDestroy(b[0], body);
        LivedAfter(old(heap), old(log), heap1, log1, heap, log, [token], RequestFields(body));
        made := NonNull(RequestFields(body));
      }
      LifeLeaves(old(head), old(log), log, [token], made);
      assert Mades([token]) == [Made(token)];
    }

    method ResponseParse(b: seq<byte>) returns (body: ResponseBody)
      requires Valid() && |b| == BUFSIZ && R.LengthsOk(b)
      modifies this
      ensures Valid() && ResponseOf(b[0], body)
      ensures Since(old(heap), old(log), heap, log, ResponseFields(body))
      ensures var p := R.ParseResponse(b); ResponseMirrors(heap, body, if p.None? then None else Some(p.value.body))
    {
      ghost var heap0, log0 := heap, log;
      assert Mades([]) == [] && NonNull([]) == [];
      var parsed := R.ParseResponse(b);
      if parsed.None? {
        return NoResponse;
      }
      ReplyKind(b);
      if parsed.value.body.UserFields? {
        body := AllocInfo(parsed.value.body, heap0, log0);
      } else {
        body := AllocReply(b[0], parsed.value.body, heap0, log0);
      }
    }

    method AllocInfo(parsed: R.Body, ghost heap0: map<nat, Str>, ghost log0: seq<Act>) returns (body: ResponseBody)
      requires Valid() && Since(heap0, log0, heap, log, []) && parsed.UserFields?
      modifies this
      ensures Valid() && body.ResUser? && ResponseMirrors(heap, body, Some(parsed))
      ensures Since(heap0, log0, heap, log, ResponseFields(body))
    {
      var p := Alloc(Some(parsed.uname), heap0, log0, []);
      assert [] + [p] == [p];
      var q := Alloc(Some(parsed.phone), heap0, log0, [p]);
      assert [p] + [q] == [p, q];
      var r := Alloc(Some(parsed.email), heap0, log0, [p, q]);
      body := ResUser(p, q, r);
      assert [p, q] + [r] == ResponseFields(body);
    }

    /** The string of any other reply, if it has one. */
    method AllocReply(group: byte, parsed: R.Body, ghost heap0: map<nat, Str>, ghost log0: seq<Act>) returns (body: ResponseBody)
      requires Valid() && Since(heap0, log0, heap, log, []) && !parsed.UserFields? && KindOf(group, parsed)
      modifies this
      ensures Valid() && ResponseOf(group, body) && ResponseMirrors(heap, body, Some(parsed))
      ensures Since(heap0, log0, heap, log, ResponseFields(body))
    {
      if parsed.Auth? || parsed.Conv? || parsed.Msg? || parsed.File? {
        var text := if parsed.Auth? then parsed.token else if parsed.Conv? then parsed.gname
                    else if parsed.Msg? then parsed.detail.content else parsed.fname;
        var p := Alloc(Some(text), heap0, log0, []);
        assert [] + [p] == [p];
        body := if parsed.Auth? then ResAuth(p) else if parsed.Conv? then ResConv(p) else ResMsg(p);
      } else {
        body := if group == 1 then ResUser(0, 0, 0) else if group == 2 then ResConv(0)
                else if group == 3 then ResChat else ResMsg(0);
        NullFields(body);
        assert NonNull([]) == [];
      }
    }

    /** response_parse, then response_destroy: the registry is as before. */
    method ResponseParseDestroy(b: seq<byte>) returns (ghost made: seq<nat>)
      requires Valid() && |b| == BUFSIZ && R.LengthsOk(b)
      modifies this
      ensures Valid() && head == old(head)
      ensures Lived(old(heap), old(log), heap, log, [], made)
    {
      var body := ResponseParse(b);
      ghost var heap1, log1 := heap, log;
      ResponseBodyDestroy(b[0], body);
      assert [] + ResponseFields(body) == ResponseFields(body);
      LivedAfter(old(heap), old(log), heap1, log1, heap, log, [], ResponseFields(body));
      made := NonNull(ResponseFields(body));
      LifeLeaves(old(head), old(log), log, [], made);
      assert Mades([]) == [];
    }
  }

  lemma {:induction false} AuthNames(action: byte, text: seq<byte>)
    ensures var p := Q.ParseAuth(action, text);
            p.Some? ==> p.value.Auth? && p.value.uname == Field(text, 0) && p.value.password == Field(text, NextField(text, 0))
  {
  }

  /** Which body the request parser makes for which group. */
  lemma {:induction false} BodyKind(h: Q.Header, body: seq<byte>)
    requires |body| == Q.BODY_LEN && h.bodyLen <= Q.BODY_LEN && (h.group == 4 && h.action == 2 ==> h.bodyLen >= 12)
    ensures var p := Q.ParseBody(h, body);
            p.Some? && h.group != 0 ==>
              !p.value.Auth? && (p.value.User? <==> h.group == 1) && (p.value.Conv? <==> h.group == 2)
              && (p.value.Chat? <==> h.group == 3) && (p.value.Msg? <==> h.group == 4)
  {
  }

  ghost predicate KindOf(group: byte, b: R.Body) {
    && (b.Auth? <==> group == 0) && (b.UserFields? ==> group == 1) && (b.Conv? ==> group == 2)
    && (b.Chat? ==> group == 3) && (b.Msg? || b.File? ==> group == 4) && group <= 4
  }

  lemma {:induction false} ReplyKind(b: seq<byte>)
    requires |b| == BUFSIZ && R.LengthsOk(b)
    ensures R.ParseResponse(b).Some? ==> KindOf(b[0], R.ParseResponse(b).value.body)
  {
  }

  lemma {:induction false} NullFields(b: ResponseBody)
    requires forall p :: p in ResponseFields(b) ==> p == 0
    ensures NonNull(ResponseFields(b)) == []
  {
    PickAll(ResponseFields(b), {0}, true);
  }

  datatype Call = New(text: Str) | Remove(p: nat) | Clean

  ghost predicate Answers(c: Call, a: Act) {
    match c
    case New(_) => a.Made?
    case Remove(p) => a == Gone(p)
    case Clean => a == Cleaned
  }

  /** Removing the first field and then the others removes them all. */
  lemma {:induction false} FieldsGone(head0: seq<nat>, head1: seq<nat>, head2: seq<nat>,
                                      heap0: map<nat, Str>, heap1: map<nat, Str>, heap2: map<nat, Str>,
                                      log0: seq<Act>, log1: seq<Act>, log2: seq<Act>, fields: seq<nat>)
    requires fields != []
    requires head1 == Without(head0, {fields[0]}) && head2 == Without(head1, Elems(fields[1..]))
    requires heap1 == heap0 - {fields[0]} && heap2 == heap1 - Elems(fields[1..])
    requires log1 == log0 + (if fields[0] == 0 then [] else [Gone(fields[0])]) && log2 == log1 + Gones(NonNull(fields[1..]))
    ensures head2 == Without(head0, Elems(fields)) && heap2 == heap0 - Elems(fields)
    ensures log2 == log0 + Gones(NonNull(fields))
  {
    WithoutCons(head0, fields);
    GonesCons(fields);
  }

  lemma {:induction false} GonesCons(s: seq<nat>)
    requires s != []
    ensures (if s[0] == 0 then [] else [Gone(s[0])]) + Gones(NonNull(s[1..])) == Gones(NonNull(s))
  {
  }

  // ---- Among other workers ----

  lemma {:induction false} DoConcat(s: seq<nat>, a: seq<Act>, b: seq<Act>)
    ensures DoAll(s, a + b) == DoAll(DoAll(s, a), b)
  {
    if b == [] {
      assert a + b == a;
    } else {
      var n := |b| - 1;
      DoConcat(s, a, b[..n]);
      assert a + b == (a + b[..n]) + [b[n]];
      DoSnoc(s, a + b[..n], b[n]);
    }
  }

  /** Removing strings one by one. */
  lemma {:induction false} DoGones(s: seq<nat>, made: seq<nat>)
    ensures DoAll(s, Gones(made)) == Without(s, Elems(made))
  {
    if made == [] {
      PickAll(s, {}, false);
      assert Elems(made) == {};
    } else {
      var n := |made| - 1;
      DoGones(s, made[..n]);
      assert Gones(made) == Gones(made[..n]) + [Gone(made[n])];
      DoSnoc(s, Gones(made[..n]), Gone(made[n]));
      WithoutTwice(s, Elems(made[..n]), {made[n]});
      assert Elems(made) == Elems(made[..n]) + {made[n]};
    }
  }

  /** Strings made since are not among what is left without them. */
  lemma {:induction false} DoMades(s: seq<nat>, made: seq<nat>, a: set<nat>)
    requires Elems(made) <= a
    ensures Without(DoAll(s, Mades(made)), a) == Without(s, a)
  {
    if made != [] {
      var n := |made| - 1;
      DoMades(s, made[..n], a);
      assert Mades(made) == Mades(made[..n]) + [Made(made[n])];
      DoSnoc(s, Mades(made[..n]), Made(made[n]));
      assert made[n] in Elems(made);
      PickCons(made[n], DoAll(s, Mades(made[..n])), a, false);
    }
  }

  /** A life leaves no trace. */
  lemma {:induction false} LifeGone(s: seq<nat>, made: seq<nat>)
    requires Elems(made) !! Elems(s)
    ensures DoAll(s, Life(made)) == s
  {
    DoConcat(s, Mades(made), Gones(made));
    DoGones(DoAll(s, Mades(made)), made);
    DoMades(s, made, Elems(made));
    forall x | x in s ensures x !in Elems(made) {
      assert x in Elems(s);
    }
    PickAll(s, Elems(made), false);
  }

  lemma {:induction false} LifeLeaves(s: seq<nat>, log0: seq<Act>, log: seq<Act>, keep: seq<nat>, made: seq<nat>)
    requires s == DoAll([], log0) && log == log0 + (Mades(keep) + Life(made)) && |keep| <= 1
    requires NoDup(keep + made) && Elems(keep + made) !! Elems(s)
    ensures DoAll([], log) == keep + s
  {
    DoConcat([], log0, Mades(keep) + Life(made));
    DoConcat(s, Mades(keep), Life(made));
    KeepMade(s, keep);
    MadeApart(s, keep, made);
    LifeGone(keep + s, made);
  }

  lemma {:induction false} KeepMade(s: seq<nat>, keep: seq<nat>)
    requires |keep| <= 1
    ensures DoAll(s, Mades(keep)) == keep + s
  {
    if keep != [] {
      assert Mades(keep) == [] + [Made(keep[0])];
      DoSnoc(s, [], Made(keep[0]));
      assert keep == [keep[0]];
    } else {
      assert Mades(keep) == [];
      assert keep + s == s;
    }
  }

  lemma {:induction false} MadeApart(s: seq<nat>, keep: seq<nat>, made: seq<nat>)
    requires NoDup(keep + made) && Elems(keep + made) !! Elems(s)
    ensures Elems(made) !! Elems(keep + s)
  {
    forall x | x in made ensures x !in keep + s {
      var j :| 0 <= j < |made| && made[j] == x;
      assert (keep + made)[|keep| + j] == x && x in Elems(keep + made);
      forall i | 0 <= i < |keep| ensures keep[i] != x {
        assert (keep + made)[i] != (keep + made)[|keep| + j];
      }
      assert x !in Elems(s);
    }
  }

  /** Calls of one worker (true) and of all others (false), in the order in
      which they got the lock. */
  type Trace = seq<(bool, Act)>

  function Acts(t: Trace): seq<Act> {
    seq(|t|, i requires 0 <= i < |t| => t[i].1)
  }

  function Part(t: Trace, mine: bool): seq<Act> {
    if t == [] then []
    else
      var n := |t| - 1;
      if t[n].0 == mine then Part(t[..n], mine) + [t[n].1] else Part(t[..n], mine)
  }

  /** The worker's live strings after a part of the trace, and what the others
      alone would have made of the list by then. */
  function Mine(t: Trace): seq<nat> {
    DoAll([], Part(t, true))
  }

  function Theirs(s: seq<nat>, t: Trace): seq<nat> {
    DoAll(s, Part(t, false))
  }

  /** What malloc and the callers promise at every moment: a new string is at
      an address not in use, which may be one that has been freed; the worker
      removes live strings of its own, the others none of those. */
  ghost predicate Proper(s: seq<nat>, t: Trace)
    decreases |t|
  {
    t != [] ==>
      var n := |t| - 1;
      var (own, a) := t[n];
      && Proper(s, t[..n])
      && match a
         case Made(p) => p !in DoAll(s, Acts(t[..n]))
         case Gone(p) => own == (p in Mine(t[..n]))
         case Cleaned => false
  }

  /** The shared list is an interleaving of the two. */
  ghost predicate Shared(all: seq<nat>, mine: seq<nat>, theirs: seq<nat>) {
    && Pick(all, Elems(mine), true) == mine && Without(all, Elems(mine)) == theirs
  }

  lemma {:induction false} SharedElems(all: seq<nat>, mine: seq<nat>, theirs: seq<nat>)
    requires Shared(all, mine, theirs)
    ensures forall x :: x in mine ==> x in all
    ensures forall x :: x in theirs <==> x in all && x !in mine
  {
    PickElems(all, Elems(mine), true);
    PickElems(all, Elems(mine), false);
  }

  /** Strings not in the list make no difference. */
  lemma {:induction false} PickSame(s: seq<nat>, a: set<nat>, b: set<nat>, inside: bool)
    requires forall x :: x in s ==> (x in a <==> x in b)
    ensures Pick(s, a, inside) == Pick(s, b, inside)
  {
    if s != [] {
      PickSame(s[1..], a, b, inside);
    }
  }

  lemma {:induction false} SharedMadeMine(all: seq<nat>, mine: seq<nat>, theirs: seq<nat>, p: nat)
    requires Shared(all, mine, theirs) && p !in all
    ensures Shared([p] + all, [p] + mine, theirs)
  {
    var a, b := Elems(mine), Elems([p] + mine);
    assert b == a + {p};
    PickSame(all, a, b, true);
    PickSame(all, a, b, false);
    PickCons(p, all, b, true);
    PickCons(p, all, b, false);
  }

  lemma {:induction false} SharedMadeTheirs(all: seq<nat>, mine: seq<nat>, theirs: seq<nat>, p: nat)
    requires Shared(all, mine, theirs) && p !in all
    ensures Shared([p] + all, mine, [p] + theirs)
  {
    SharedElems(all, mine, theirs);
    PickCons(p, all, Elems(mine), true);
    PickCons(p, all, Elems(mine), false);
  }

  lemma {:induction false} SharedGoneMine(all: seq<nat>, mine: seq<nat>, theirs: seq<nat>, p: nat)
    requires Shared(all, mine, theirs) && p in mine
    ensures Shared(Without(all, {p}), Without(mine, {p}), theirs)
  {
    var a, b, rest := Elems(mine), Elems(Without(mine, {p})), Without(all, {p});
    PickElems(mine, {p}, false);
    PickElems(all, {p}, false);
    PickSame(rest, a, b, true);
    PickSame(rest, a, b, false);
    PickTwice(all, a, true, {p});
    PickTwice(all, a, false, {p});
    SharedElems(all, mine, theirs);
    PickAll(theirs, {p}, false);
  }

  lemma {:induction false} SharedGoneTheirs(all: seq<nat>, mine: seq<nat>, theirs: seq<nat>, p: nat)
    requires Shared(all, mine, theirs) && p !in mine
    ensures Shared(Without(all, {p}), mine, Without(theirs, {p}))
  {
    PickTwice(all, Elems(mine), true, {p});
    PickTwice(all, Elems(mine), false, {p});
    PickAll(mine, {p}, false);
  }

  /** Interleaved calls: at every moment each side's strings are in the list in
      the order in which they would be alone. Addresses that one side has freed
      may come back to the other. */
  lemma {:induction false} Interleaved(s: seq<nat>, t: Trace)
    requires Proper(s, t)
    ensures Shared(DoAll(s, Acts(t)), Mine(t), Theirs(s, t))
    decreases |t|
  {
    if t == [] {
      assert Elems(Mine(t)) == {};
      PickAll(s, {}, false);
    } else {
      var n := |t| - 1;
      var (own, a) := t[n];
      var all, mine, theirs := DoAll(s, Acts(t[..n])), Mine(t[..n]), Theirs(s, t[..n]);
      Interleaved(s, t[..n]);
      assert Acts(t) == Acts(t[..n]) + [a];
      DoSnoc(s, Acts(t[..n]), a);
      DoSnoc([], Part(t[..n], true), a);
      DoSnoc(s, Part(t[..n], false), a);
      match a
      case Made(p) =>
        if own {
          SharedMadeMine(all, mine, theirs, p);
        } else {
          SharedMadeTheirs(all, mine, theirs, p);
        }
      case Gone(p) =>
        if own {
          SharedGoneMine(all, mine, theirs, p);
        } else {
          SharedGoneTheirs(all, mine, theirs, p);
        }
    }
  }

  /** What malloc and the other workers promise; of the worker itself nothing. */
  ghost predicate OthersProper(s: seq<nat>, t: Trace)
    decreases |t|
  {
    t != [] ==>
      var n := |t| - 1;
      var (own, a) := t[n];
      && OthersProper(s, t[..n])
      && (a.Made? ==> a.p !in DoAll(s, Acts(t[..n])))
      && (!own ==> !a.Cleaned? && (a.Gone? ==> a.p !in Mine(t[..n])))
  }

  lemma {:induction false} PartPrefix(t: Trace, mine: bool)
    requires t != []
    ensures var n := |t| - 1;
            Part(t, mine) == if t[n].0 == mine then Part(t[..n], mine) + [t[n].1] else Part(t[..n], mine)
  {
  }

  /** Before its string at `j` is removed in the order of allocation, it is live. */
  lemma {:induction false} LiveUntil(keep: seq<nat>, made: seq<nat>, j: nat)
    requires NoDup(keep + made) && j < |made|
    ensures made[j] in DoAll([], Mades(keep) + (Mades(made) + Gones(made[..j])))
  {
    var all := DoAll([], Mades(keep) + Mades(made));
    assert Mades(keep) + (Mades(made) + Gones(made[..j])) == (Mades(keep) + Mades(made)) + Gones(made[..j]);
    DoConcat([], Mades(keep) + Mades(made), Gones(made[..j]));
    DoGones(all, made[..j]);
    DoConcat([], Mades(keep), Mades(made));
    MadesIn(DoAll([], Mades(keep)), made, j);
    PickElems(all, Elems(made[..j]), false);
    forall i | 0 <= i < j ensures made[i] != made[j] {
      assert (keep + made)[|keep| + i] != (keep + made)[|keep| + j];
    }
  }

  lemma {:induction false} MadesIn(s: seq<nat>, made: seq<nat>, j: nat)
    requires j < |made|
    ensures made[j] in DoAll(s, Mades(made))
  {
    var n := |made| - 1;
    assert Mades(made) == Mades(made[..n]) + [Made(made[n])];
    DoSnoc(s, Mades(made[..n]), Made(made[n]));
    if j < n {
      MadesIn(s, made[..n], j);
    }
  }

  /** The calls of a life, cut off anywhere. */
  lemma {:induction false} LifeAt(keep: seq<nat>, made: seq<nat>, k: nat)
    requires NoDup(keep + made) && k < |Mades(keep) + Life(made)|
    ensures var acts := Mades(keep) + Life(made);
            !acts[k].Cleaned? && (acts[k].Gone? ==> acts[k].p in DoAll([], acts[..k]))
  {
    var acts := Mades(keep) + Life(made);
    var first := |keep| + |made|;
    if k >= first {
      var j := k - first;
      assert acts[k] == Gone(made[j]);
      assert acts[..k] == Mades(keep) + (Mades(made) + Gones(made[..j]));
      LiveUntil(keep, made, j);
    }
  }

  /** A worker that makes and frees its strings in that order does its part. */
  lemma {:induction false} LifeProper(s: seq<nat>, t: Trace, keep: seq<nat>, made: seq<nat>)
    requires NoDup(keep + made) && OthersProper(s, t) && Part(t, true) <= Mades(keep) + Life(made)
    ensures Proper(s, t)
    decreases |t|
  {
    if t != [] {
      var n := |t| - 1;
      PartPrefix(t, true);
      LifeProper(s, t[..n], keep, made);
      if t[n].0 {
        var k := |Part(t[..n], true)|;
        LifeAt(keep, made, k);
        assert (Mades(keep) + Life(made))[k] == Part(t, true)[k] == t[n].1;
        assert (Mades(keep) + Life(made))[..k] == Part(t[..n], true);
      }
    }
  }

  /** A request's life among any calls of other workers that leave its live
      strings alone: its header token stays behind, and otherwise the list is
      what the others alone leave. */
  lemma {:induction false} RequestAmongOthers(s: seq<nat>, t: Trace, token: nat, made: seq<nat>)
    requires NoDup([token] + made) && OthersProper(s, t) && Part(t, true) == Mades([token]) + Life(made)
    ensures var end := DoAll(s, Acts(t)); token in end && Without(end, {token}) == DoAll(s, Part(t, false))
  {
    AmongOthers(s, t, [token], made);
    SharedElems(DoAll(s, Acts(t)), [token], Theirs(s, t));
    assert Elems([token]) == {token};
  }

  /** A response's life leaves exactly what the others leave. */
  lemma {:induction false} ResponseAmongOthers(s: seq<nat>, t: Trace, made: seq<nat>)
    requires NoDup(made) && OthersProper(s, t) && Part(t, true) == Life(made)
    ensures DoAll(s, Acts(t)) == DoAll(s, Part(t, false))
  {
    assert [] + made == made && Mades([]) + Life(made) == Life(made);
    AmongOthers(s, t, [], made);
    assert Elems<nat>([]) == {};
    PickAll(DoAll(s, Acts(t)), {}, false);
  }

  lemma {:induction false} AmongOthers(s: seq<nat>, t: Trace, keep: seq<nat>, made: seq<nat>)
    requires |keep| <= 1 && NoDup(keep + made) && OthersProper(s, t) && Part(t, true) == Mades(keep) + Life(made)
    ensures Shared(DoAll(s, Acts(t)), keep, Theirs(s, t))
  {
    LifeProper(s, t, keep, made);
    Interleaved(s, t);
    assert [] + (Mades(keep) + Life(made)) == Mades(keep) + Life(made);
    LifeLeaves([], [], Mades(keep) + Life(made), keep, made);
    assert keep + [] == keep;
  }
}
