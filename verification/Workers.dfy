/** The worker pool of main.c with the end of handle_req: any number of
    threads share one epoll instance; a client connection is armed one-shot,
    so a worker that receives its event owns it until it re-arms or closes it.
    Steps of different workers interleave arbitrarily. */
module Workers {
  import opened Collections

  /** Where a worker stands; `q` are the events of its batch still to come. */
  datatype Phase =
    | Waiting
    | Batch(q: seq<int>)
    | Handling(fd: int, q: seq<int>)
    | Accepting(q: seq<int>)
    | Accepted(fd: int, q: seq<int>)
    | Closed(fd: int, q: seq<int>)
    | Stale(fd: int, q: seq<int>)      // closed, about to write an error to the number
    | Lost(fd: int, q: seq<int>)       // closed, about to re-arm the number
    | LostFail(fd: int, q: seq<int>)   // closed, re-arming failed, about to close the number

  /** `registered` are the client numbers added to the epoll instance, `armed`
      those of them whose one shot is still to come. */
  datatype World = World(workers: map<nat, Phase>, armed: set<int>, registered: set<int>, open: set<int>, listen: int)

  datatype Event =
    | Wait(w: nat, fds: seq<int>)    // epoll_wait returns a batch
    | Take(w: nat)                   // next event of the batch
    | Skip(w: nat)                   // an event without EPOLLIN
    | Done(w: nat)                   // batch exhausted
    | AcceptFail(w: nat)
    | Accept(w: nat, fd: int)
    | Arm(w: nat)                    // EPOLL_CTL_ADD of the new client
    | ArmFail(w: nat)
    | Rearm(w: nat)                  // EPOLL_CTL_MOD at the end of handle_req
    | Close(w: nat)                  // close_sock or logout, with close_conn set
    | Clear(w: nat)                  // fdset_clr after the close
    | DirectFail(w: nat)             // a direct error write failed: closed, close_conn still 0
    | UploadFail(w: nat)             // the upload's file cannot be created: closed, an error reply follows
    | StaleWrite(w: nat)             // ... and is written, to whoever has the number now
    | StaleFail(w: nat)              // ... or not, so the number is closed again, with close_conn set
    | LostRearm(w: nat)              // close_conn is 0: the end of handle_req re-arms the number
    | LostClose(w: nat)              // ... or, when that fails, closes the number again

  /** The client connections a worker owns. */
  function Held(p: Phase, listen: int): set<int> {
    match p
    case Waiting => {}
    case Batch(q) => Elems(q) - {listen}
    case Handling(fd, q) => {fd} + Elems(q) - {listen}
    case Accepting(q) => Elems(q) - {listen}
    case Accepted(fd, q) => {fd} + Elems(q) - {listen}
    case Closed(_, q) => Elems(q) - {listen}
    case Stale(_, q) => Elems(q) - {listen}
    case Lost(_, q) => Elems(q) - {listen}
    case LostFail(_, q) => Elems(q) - {listen}
  }

  function Owns(s: World, w: nat): set<int>
    requires w in s.workers
  {
    Held(s.workers[w], s.listen)
  }

  function Init(workers: set<nat>, listen: int): World {
    World(map w | w in workers :: Waiting, {}, {}, {listen}, listen)
  }

  // ---- Steps ----

  predicate Enabled(s: World, e: Event) {
    && e.w in s.workers
    && var p := s.workers[e.w];
    match e
    case Wait(_, fds) =>
      p.Waiting? && NoDup(fds) && forall i :: 0 <= i < |fds| ==> fds[i] in s.armed || fds[i] == s.listen
    case Take(_) => p.Batch? && p.q != []
    case Skip(_) => p.Batch? && p.q != []
    case Done(_) => p.Batch? && p.q == []
    case AcceptFail(_) => p.Accepting?
    case Accept(_, fd) => p.Accepting? && fd !in s.open
    case Arm(_) => p.Accepted?
    case ArmFail(_) => p.Accepted?
    case Rearm(_) => p.Handling?
    case Close(_) => p.Handling?
    case Clear(_) => p.Closed?
    case DirectFail(_) => p.Handling?
    case UploadFail(_) => p.Handling?
    case StaleWrite(_) => p.Stale? && p.fd in s.open
    case StaleFail(_) => p.Stale?
    case LostRearm(_) => p.Lost?
    case LostClose(_) => p.LostFail?
  }

  /** close_sock: out of the epoll instance and closed. */
  function Shut(s: World, w: nat, fd: int, p: Phase): World {
    s.(workers := s.workers[w := p], armed := s.armed - {fd}, registered := s.registered - {fd}, open := s.open - {fd})
  }

  function Step(s: World, e: Event): World
    requires Enabled(s, e)
  {
    var p := s.workers[e.w];
    match e
    case Wait(w, fds) => s.(workers := s.workers[w := Batch(fds)], armed := s.armed - Elems(fds))
    case Take(w) =>
      if p.q[0] == s.listen then s.(workers := s.workers[w := Accepting(p.q[1..])])
      else s.(workers := s.workers[w := Handling(p.q[0], p.q[1..])])
    case Skip(w) => s.(workers := s.workers[w := Batch(p.q[1..])])
    case Done(w) => s.(workers := s.workers[w := Waiting])
    case AcceptFail(w) => s.(workers := s.workers[w := Batch(p.q)])
    case Accept(w, fd) => s.(workers := s.workers[w := Accepted(fd, p.q)], open := s.open + {fd})
    case Arm(w) =>
      s.(workers := s.workers[w := Batch(p.q)], armed := s.armed + {p.fd}, registered := s.registered + {p.fd})
    case ArmFail(w) => Shut(s, w, p.fd, Batch(p.q))
    case Rearm(w) =>
      if p.fd in s.registered then s.(workers := s.workers[w := Batch(p.q)], armed := s.armed + {p.fd})
      else Shut(s, w, p.fd, Batch(p.q))
    case Close(w) => Shut(s, w, p.fd, Closed(p.fd, p.q))
    case Clear(w) => s.(workers := s.workers[w := Batch(p.q)])
    case DirectFail(w) => Shut(s, w, p.fd, Lost(p.fd, p.q))
    case UploadFail(w) => Shut(s, w, p.fd, Stale(p.fd, p.q))
    case StaleWrite(w) => s.(workers := s.workers[w := Lost(p.fd, p.q)])
    case StaleFail(w) => Shut(s, w, p.fd, Closed(p.fd, p.q))
    case LostRearm(w) =>
      // EPOLL_CTL_MOD fails on a number that is not in the epoll instance
      if p.fd in s.registered then s.(workers := s.workers[w := Batch(p.q)], armed := s.armed + {p.fd})
      else s.(workers := s.workers[w := LostFail(p.fd, p.q)])
    case LostClose(w) => Shut(s, w, p.fd, Batch(p.q))
  }

  // ---- Ownership ----

  /** No connection has two owners. */
  ghost predicate OneOwner(s: World) {
    forall w, v :: w in s.workers && v in s.workers && w != v ==> Owns(s, w) !! Owns(s, v)
  }

  /** No connection is armed while it is owned. */
  ghost predicate NoneArmedOwned(s: World) {
    forall w :: w in s.workers ==> Owns(s, w) !! s.armed
  }

  /** Nobody's connection is closed under it. */
  ghost predicate OwnedOpen(s: World) {
    forall w :: w in s.workers ==> Owns(s, w) <= s.open
  }

  ghost predicate PhaseOk(s: World, w: nat)
    requires w in s.workers
  {
    var p := s.workers[w];
    && (p.Waiting? || NoDup(p.q))
    && (p.Handling? || p.Accepted? ==> p.fd !in p.q)
    && (p.Handling? || p.Accepted? || p.Stale? || p.Lost? || p.LostFail? ==> p.fd != s.listen)
  }

  /** What a worker has from epoll is still in the epoll instance; a connection
      it has just accepted is not yet. */
  ghost predicate Known(s: World, w: nat)
    requires w in s.workers
  {
    var p := s.workers[w];
    Owns(s, w) - (if p.Accepted? then {p.fd} else {}) <= s.registered
  }

  ghost predicate Inv(s: World) {
    && OneOwner(s) && NoneArmedOwned(s) && OwnedOpen(s) && (forall w :: w in s.workers ==> Known(s, w))
    && s.listen in s.open && s.listen !in s.registered && s.armed <= s.registered <= s.open
    && (forall w :: w in s.workers ==> PhaseOk(s, w))
  }

  ghost predicate Owned(s: World, fd: int) {
    exists v :: v in s.workers && fd in Owns(s, v)
  }

  /** A worker re-arms a number it has closed, and somebody owns it. */
  ghost predicate ArmsAnothers(s: World, e: Event)
    requires Enabled(s, e)
  {
    e.LostRearm? && s.workers[e.w].fd in s.registered && Owned(s, s.workers[e.w].fd)
  }

  /** A worker closes a second time a number it has closed, and somebody owns it. */
  ghost predicate ClosesAnothers(s: World, e: Event)
    requires Enabled(s, e)
  {
    (e.LostClose? || e.StaleFail?) && Owned(s, s.workers[e.w].fd)
  }

  lemma {:induction false} QueueParts(q: seq<int>)
    requires q != [] && NoDup(q)
    ensures Elems(q) == {q[0]} + Elems(q[1..]) && q[0] !in q[1..] && NoDup(q[1..])
  {
  }

  /** What a step does to the connections its worker owns. */
  lemma {:induction false} OwnsAfter(s: World, e: Event)
    requires Inv(s) && Enabled(s, e)
    ensures forall v :: v in s.workers && v != e.w ==> Owns(Step(s, e), v) == Owns(s, v)
    ensures e.Wait? ==> Owns(Step(s, e), e.w) <= s.armed
    ensures e.Accept? ==> Owns(Step(s, e), e.w) == Owns(s, e.w) + {e.fd}
    ensures !e.Wait? && !e.Accept? ==> Owns(Step(s, e), e.w) <= Owns(s, e.w)
    ensures (e.StaleWrite? || e.StaleFail? || e.LostRearm? || e.LostClose?) ==> Owns(Step(s, e), e.w) == Owns(s, e.w)
  {
    assert PhaseOk(s, e.w);
    var p := s.workers[e.w];
    if (e.Take? || e.Skip?) {
      QueueParts(p.q);
    }
  }

  /** Every step keeps single ownership. */
  lemma {:induction false} StepOneOwner(s: World, e: Event)
    requires Inv(s) && Enabled(s, e)
    ensures OneOwner(Step(s, e))
  {
    OwnsAfter(s, e);
    var t := Step(s, e);
    forall w, v | w in t.workers && v in t.workers && w != v ensures Owns(t, w) !! Owns(t, v) {
    }
  }

  /** A step arms somebody's connection exactly when a worker goes on to re-arm
      a number that has become somebody else's. */
  lemma {:induction false} StepArms(s: World, e: Event)
    requires Inv(s) && Enabled(s, e)
    ensures NoneArmedOwned(Step(s, e)) <==> !ArmsAnothers(s, e)
  {
    OwnsAfter(s, e);
    assert PhaseOk(s, e.w);
    var t := Step(s, e);
    if ArmsAnothers(s, e) {
      var fd := s.workers[e.w].fd;
      var v :| v in s.workers && fd in Owns(s, v);
      assert fd in Owns(t, v) && fd in t.armed;
    } else {
      forall w | w in t.workers ensures Owns(t, w) !! t.armed {
      }
    }
  }

  /** A step closes somebody's connection exactly when a worker closes a second
      time a number that has become somebody else's. */
  lemma {:induction false} StepCloses(s: World, e: Event)
    requires Inv(s) && Enabled(s, e)
    ensures OwnedOpen(Step(s, e)) <==> !ClosesAnothers(s, e)
  {
    OwnsAfter(s, e);
    assert PhaseOk(s, e.w);
    var t := Step(s, e);
    if ClosesAnothers(s, e) {
      var fd := s.workers[e.w].fd;
      var v :| v in s.workers && fd in Owns(s, v);
      assert fd in Owns(t, v) && fd !in t.open;
    } else {
      forall w | w in t.workers ensures Owns(t, w) <= t.open {
      }
    }
  }

  lemma {:induction false} StepPhases(s: World, e: Event)
    requires Inv(s) && Enabled(s, e)
    ensures forall w :: w in s.workers ==> PhaseOk(Step(s, e), w)
  {
    var p := s.workers[e.w];
    assert PhaseOk(s, e.w);
    if (e.Take? || e.Skip?) {
      QueueParts(p.q);
    }
    forall w | w in s.workers ensures PhaseOk(Step(s, e), w) {
      assert PhaseOk(s, w);
    }
  }

  lemma {:induction false} StepKnown(s: World, e: Event)
    requires Inv(s) && Enabled(s, e) && !ClosesAnothers(s, e)
    ensures forall w :: w in s.workers ==> Known(Step(s, e), w)
  {
    OwnsAfter(s, e);
    assert PhaseOk(s, e.w) && Known(s, e.w);
    var t, p := Step(s, e), s.workers[e.w];
    if (e.Take? || e.Skip?) {
      QueueParts(p.q);
    }
    forall w | w in s.workers ensures Known(t, w) {
      assert Known(s, w);
      assert w != e.w && (p.Handling? || p.Accepted?) ==> p.fd in Owns(s, e.w) && Owns(s, w) !! Owns(s, e.w);
    }
  }

  /** A served request leaves its connection armed: the next one will be heard. */
  lemma {:induction false} RearmArms(s: World, w: nat)
    requires Inv(s) && Enabled(s, Rearm(w))
    ensures var fd, t := s.workers[w].fd, Step(s, Rearm(w));
            fd in t.armed && fd in t.open && fd !in s.armed && t.open == s.open && !Owned(t, fd)
  {
    var fd, t := s.workers[w].fd, Step(s, Rearm(w));
    assert Known(s, w) && fd in Owns(s, w) && PhaseOk(s, w);
    OwnsAfter(s, Rearm(w));
    forall v | v in t.workers ensures fd !in Owns(t, v) {
      assert v != w ==> Owns(s, v) !! Owns(s, w);
    }
  }

  /** The two promises survive a step exactly when it does not arm somebody
      else's connection. */
  lemma {:induction false} StepKeepsUnlessArming(s: World, e: Event)
    requires Inv(s) && Enabled(s, e)
    ensures OneOwner(Step(s, e)) && NoneArmedOwned(Step(s, e)) <==> !ArmsAnothers(s, e)
  {
    StepOneOwner(s, e);
    StepArms(s, e);
  }

  /** The whole discipline survives exactly the steps that neither arm nor
      close somebody else's connection. */
  lemma {:induction false} StepKeepsUnlessHarmful(s: World, e: Event)
    requires Inv(s) && Enabled(s, e)
    ensures Inv(Step(s, e)) <==> !ArmsAnothers(s, e) && !ClosesAnothers(s, e)
  {
    StepOneOwner(s, e);
    StepArms(s, e);
    StepCloses(s, e);
    StepPhases(s, e);
    if !ClosesAnothers(s, e) {
      StepKnown(s, e);
    }
    assert PhaseOk(s, e.w);
  }

  // ---- Nobody is forgotten ----

  /** Every open client connection is armed or somebody's. */
  ghost predicate Served(s: World) {
    forall fd :: fd in s.open && fd != s.listen ==> fd in s.armed || Owned(s, fd)
  }

  /** An event without EPOLLIN is passed over: its connection was disarmed by
      the event and is not armed again. */
  ghost predicate Forgets(s: World, e: Event)
    requires Enabled(s, e)
  {
    e.Skip? && s.workers[e.w].q[0] != s.listen
  }

  lemma {:induction false} StillOwned(s: World, e: Event, fd: int)
    requires Inv(s) && Enabled(s, e) && Owned(s, fd) && fd !in Owns(s, e.w)
    ensures Owned(Step(s, e), fd)
  {
    var v :| v in s.workers && fd in Owns(s, v);
    OwnsAfter(s, e);
    assert v != e.w && fd in Owns(Step(s, e), v);
  }

  /** What becomes of a connection the worker owned before the step. */
  lemma {:induction false} OwnAfter(s: World, e: Event, fd: int)
    requires Inv(s) && Enabled(s, e) && !Forgets(s, e) && fd in Owns(s, e.w)
    ensures var t := Step(s, e); fd in Owns(t, e.w) || fd in t.armed || fd !in t.open
  {
    assert PhaseOk(s, e.w);
    var p := s.workers[e.w];
    if (e.Take? || e.Skip?) {
      QueueParts(p.q);
    }
  }

  /** A connection that was armed, or that is new. */
  lemma {:induction false} ArmedAfter(s: World, e: Event, fd: int)
    requires Inv(s) && Enabled(s, e) && fd != s.listen && fd in Step(s, e).open && (fd in s.armed || fd !in s.open)
    ensures fd in Step(s, e).armed || Owned(Step(s, e), fd)
  {
    var t := Step(s, e);
    if fd !in t.armed {
      if e.Wait? {
        assert fd in e.fds && fd in Owns(t, e.w);
      } else if e.Accept? {
        assert fd in Owns(t, e.w);
      }
    }
  }

  lemma {:induction false} ForgottenAfter(s: World, e: Event)
    requires Inv(s) && Enabled(s, e) && Forgets(s, e)
    ensures !Served(Step(s, e))
  {
    var fd, t := s.workers[e.w].q[0], Step(s, e);
    assert PhaseOk(s, e.w);
    QueueParts(s.workers[e.w].q);
    OwnsAfter(s, e);
    assert fd in Owns(s, e.w) && fd in t.open && fd !in t.armed;
    forall v | v in t.workers ensures fd !in Owns(t, v) {
      assert v != e.w ==> Owns(s, v) !! Owns(s, e.w);
    }
  }

  /** Nobody is forgotten by a step, exactly unless it passes over an event. */
  lemma {:induction false} StepServes(s: World, e: Event)
    requires Inv(s) && Served(s) && Enabled(s, e)
    ensures Served(Step(s, e)) <==> !Forgets(s, e)
  {
    if Forgets(s, e) {
      ForgottenAfter(s, e);
    } else {
      var t := Step(s, e);
      assert t.listen == s.listen;
      forall fd | fd in t.open && fd != t.listen ensures fd in t.armed || Owned(t, fd) {
        if fd in s.armed || fd !in s.open {
          ArmedAfter(s, e, fd);
        } else if fd in Owns(s, e.w) {
          OwnAfter(s, e, fd);
          assert t.workers.Keys == s.workers.Keys;
        } else {
          StillOwned(s, e, fd);
        }
      }
    }
  }

  // ---- Whole interleavings ----

  ghost predicate Valid(s: World, es: seq<Event>)
    decreases |es|
  {
    es != [] ==> Enabled(s, es[0]) && Valid(Step(s, es[0]), es[1..])
  }

  ghost function After(s: World, es: seq<Event>): World
    requires Valid(s, es)
    decreases |es|
  {
    if es == [] then s else After(Step(s, es[0]), es[1..])
  }

  ghost predicate NobodyLost(s: World) {
    forall w :: w in s.workers ==>
      !s.workers[w].Stale? && !s.workers[w].Lost? && !s.workers[w].LostFail?
  }

  /** The two failures after which a worker goes on with a number it closed. */
  predicate Fails(e: Event) {
    e.DirectFail? || e.UploadFail?
  }

  ghost predicate NoneHarmful(s: World, es: seq<Event>)
    requires Valid(s, es)
    decreases |es|
  {
    es != [] ==> !ArmsAnothers(s, es[0]) && !ClosesAnothers(s, es[0]) && NoneHarmful(Step(s, es[0]), es[1..])
  }

  /** The discipline holds in every state of a run exactly when no step of it
      arms or closes somebody else's connection. */
  ghost predicate AlwaysInv(s: World, es: seq<Event>)
    requires Valid(s, es)
    decreases |es|
  {
    Inv(s) && (es != [] ==> AlwaysInv(Step(s, es[0]), es[1..]))
  }

  lemma {:induction false} RunKeepsUnlessHarmful(s: World, es: seq<Event>)
    requires Inv(s) && Valid(s, es)
    ensures AlwaysInv(s, es) <==> NoneHarmful(s, es)
    decreases |es|
  {
    if es != [] {
      StepKeepsUnlessHarmful(s, es[0]);
      if Inv(Step(s, es[0])) {
        RunKeepsUnlessHarmful(Step(s, es[0]), es[1..]);
      }
    }
  }

  /** For any number of workers and any interleaving in which both direct error
      writes succeed and every upload's file can be created: one owner at most,
      nothing armed while owned, nothing closed under its owner. */
  lemma {:induction false} RunSafe(s: World, es: seq<Event>)
    requires Inv(s) && NobodyLost(s) && Valid(s, es)
    requires forall i :: 0 <= i < |es| ==> !Fails(es[i])
    ensures AlwaysInv(s, es) && Inv(After(s, es))
    decreases |es|
  {
    if es != [] {
      StepKeepsUnlessHarmful(s, es[0]);
      assert !Fails(es[0]);
      RunSafe(Step(s, es[0]), es[1..]);
    }
  }

  /** In such a run every open connection is at every moment armed or somebody's,
      if and only if no event is passed over. */
  ghost predicate AlwaysServed(s: World, es: seq<Event>)
    requires Valid(s, es)
    decreases |es|
  {
    Served(s) && (es != [] ==> AlwaysServed(Step(s, es[0]), es[1..]))
  }

  ghost predicate NothingForgotten(s: World, es: seq<Event>)
    requires Valid(s, es)
    decreases |es|
  {
    es != [] ==> !Forgets(s, es[0]) && NothingForgotten(Step(s, es[0]), es[1..])
  }

  lemma {:induction false} RunServes(s: World, es: seq<Event>)
    requires Served(s) && Valid(s, es) && AlwaysInv(s, es)
    ensures AlwaysServed(s, es) <==> NothingForgotten(s, es)
    decreases |es|
  {
    if es != [] {
      StepServes(s, es[0]);
      if !Forgets(s, es[0]) {
        RunServes(Step(s, es[0]), es[1..]);
      }
    }
  }

  lemma {:induction false} InitServes(workers: set<nat>, listen: int, es: seq<Event>)
    requires Valid(Init(workers, listen), es)
    requires forall i :: 0 <= i < |es| ==> !Fails(es[i])
    ensures AlwaysServed(Init(workers, listen), es) <==> NothingForgotten(Init(workers, listen), es)
  {
    RunSafe(Init(workers, listen), es);
    RunServes(Init(workers, listen), es);
  }

  lemma {:induction false} InitSafe(workers: set<nat>, listen: int, es: seq<Event>)
    requires Valid(Init(workers, listen), es)
    requires forall i :: 0 <= i < |es| ==> !Fails(es[i])
    ensures var s := After(Init(workers, listen), es); OneOwner(s) && NoneArmedOwned(s) && OwnedOpen(s)
  {
    RunSafe(Init(workers, listen), es);
  }

  // ---- Runs that break the promises ----

  lemma {:induction false} ValidStep(s: World, e: Event, es: seq<Event>, t: World)
    requires Enabled(s, e) && Step(s, e) == t && Valid(t, es)
    ensures Valid(s, [e] + es) && After(s, [e] + es) == After(t, es)
  {
    assert ([e] + es)[1..] == es;
  }

  function Opening(w: nat): seq<Event> {
    [Wait(w, [3]), Take(w), Accept(w, 4), Arm(w), Done(w), Wait(w, [4]), Take(w)]
  }

  /** Accept connection 4, then take its event: worker `w` handles it. */
  lemma {:induction false} OpenAndTake(s: World, w: nat, es: seq<Event>, t: World)
    requires s.listen == 3 && s.open == {3} && s.armed == s.registered == {}
    requires w in s.workers && s.workers[w] == Waiting
    requires t == s.(workers := s.workers[w := Handling(4, [])], registered := {4}, open := {3, 4}) && Valid(t, es)
    ensures Valid(s, Opening(w) + es) && After(s, Opening(w) + es) == After(t, es)
  {
    var armed := s.(workers := s.workers[w := Waiting], registered := {4}, open := {3, 4}, armed := {4});
    TakeIt(armed, w, es, t);
    OpenIt(s, w, [Wait(w, [4])] + ([Take(w)] + es), armed);
    assert Opening(w) + es
        == [Wait(w, [3])] + ([Take(w)] + ([Accept(w, 4)] + ([Arm(w)] + ([Done(w)] + ([Wait(w, [4])] + ([Take(w)] + es))))));
  }

  lemma {:induction false} OpenIt(s: World, w: nat, es: seq<Event>, t: World)
    requires s.listen == 3 && s.open == {3} && s.armed == s.registered == {}
    requires w in s.workers && s.workers[w] == Waiting && Valid(t, es)
    requires t == s.(workers := s.workers[w := Waiting], registered := {4}, open := {3, 4}, armed := {4})
    ensures var run := [Wait(w, [3])] + ([Take(w)] + ([Accept(w, 4)] + ([Arm(w)] + ([Done(w)] + es))));
            Valid(s, run) && After(s, run) == After(t, es)
  {
    var p := s.workers;
    var s1 := s.(workers := p[w := Batch([3])]);
    var s2 := s.(workers := p[w := Accepting([])]);
    var s3 := s.(workers := p[w := Accepted(4, [])], open := {3, 4});
    var s4 := s.(workers := p[w := Batch([])], registered := {4}, open := {3, 4}, armed := {4});
    assert [3][1..] == [];
    ValidStep(s4, Done(w), es, t);
    var r := [Done(w)] + es;
    ValidStep(s3, Arm(w), r, s4);
    ValidStep(s2, Accept(w, 4), [Arm(w)] + r, s3);
    ValidStep(s1, Take(w), [Accept(w, 4)] + ([Arm(w)] + r), s2);
    ValidStep(s, Wait(w, [3]), [Take(w)] + ([Accept(w, 4)] + ([Arm(w)] + r)), s1);
  }

  lemma {:induction false} TakeIt(s: World, w: nat, es: seq<Event>, t: World)
    requires s.listen == 3 && s.armed == {4} && w in s.workers && s.workers[w] == Waiting && Valid(t, es)
    requires t == s.(workers := s.workers[w := Handling(4, [])], armed := {})
    ensures var run := [Wait(w, [4])] + ([Take(w)] + es); Valid(s, run) && After(s, run) == After(t, es)
  {
    var s1 := s.(workers := s.workers[w := Batch([4])], armed := {});
    assert [4][1..] == [];
    ValidStep(s1, Take(w), es, t);
    ValidStep(s, Wait(w, [4]), [Take(w)] + es, s1);
  }

  /** Worker 0 closes connection 4 by the step `fail` and goes on in phase `p`;
      worker 1 opens a new connection, gets the same number and handles it. */
  lemma {:induction false} Reused(fail: Event, p: Phase, es: seq<Event>, t: World) returns (run: seq<Event>)
    requires (fail == DirectFail(0) && p == Lost(4, [])) || (fail == UploadFail(0) && p == Stale(4, []))
    requires t == World(map[0 := p, 1 := Handling(4, [])], {}, {4}, {3, 4}, 3) && Valid(t, es)
    ensures Valid(Init({0, 1}, 3), run) && After(Init({0, 1}, 3), run) == After(t, es)
    ensures run == Opening(0) + ([fail] + (Opening(1) + es))
  {
    var s := Init({0, 1}, 3);
    assert s.workers == map[0 := Waiting, 1 := Waiting];
    var a := World(map[0 := Handling(4, []), 1 := Waiting], {}, {4}, {3, 4}, 3);
    FailAndReuse(fail, p, es, t);
    assert a == s.(workers := s.workers[0 := Handling(4, [])], registered := {4}, open := {3, 4});
    OpenAndTake(s, 0, [fail] + (Opening(1) + es), a);
    run := Opening(0) + ([fail] + (Opening(1) + es));
  }

  lemma {:induction false} FailAndReuse(fail: Event, p: Phase, es: seq<Event>, t: World)
    requires (fail == DirectFail(0) && p == Lost(4, [])) || (fail == UploadFail(0) && p == Stale(4, []))
    requires t == World(map[0 := p, 1 := Handling(4, [])], {}, {4}, {3, 4}, 3) && Valid(t, es)
    ensures var a := World(map[0 := Handling(4, []), 1 := Waiting], {}, {4}, {3, 4}, 3);
            Valid(a, [fail] + (Opening(1) + es)) && After(a, [fail] + (Opening(1) + es)) == After(t, es)
  {
    var a := World(map[0 := Handling(4, []), 1 := Waiting], {}, {4}, {3, 4}, 3);
    var b := World(map[0 := p, 1 := Waiting], {}, {}, {3}, 3);
    assert t == b.(workers := b.workers[1 := Handling(4, [])], registered := {4}, open := {3, 4});
    OpenAndTake(b, 1, es, t);
    assert a.open - {4} == {3} && a.workers[0 := p] == b.workers;
    ValidStep(a, fail, Opening(1) + es, b);
  }

  /** A direct error write fails: the first worker arms what the second owns. */
  lemma {:induction false} DirectFailureBreaksIt() returns (es: seq<Event>)
    ensures Valid(Init({0, 1}, 3), es) && !NoneArmedOwned(After(Init({0, 1}, 3), es))
  {
    var c := World(map[0 := Lost(4, []), 1 := Handling(4, [])], {}, {4}, {3, 4}, 3);
    var d := World(map[0 := Batch([]), 1 := Handling(4, [])], {4}, {4}, {3, 4}, 3);
    ValidStep(c, LostRearm(0), [], d);
    es := Reused(DirectFail(0), Lost(4, []), [LostRearm(0)] + [], c);
    assert 4 in Owns(d, 1) && 4 in d.armed;
  }

  /** ... and then receives its next event: the connection has two owners. */
  lemma {:induction false} DirectFailureTwoOwners() returns (es: seq<Event>)
    ensures Valid(Init({0, 1}, 3), es) && !OneOwner(After(Init({0, 1}, 3), es))
  {
    var c := World(map[0 := Lost(4, []), 1 := Handling(4, [])], {}, {4}, {3, 4}, 3);
    var f := World(map[0 := Batch([4]), 1 := Handling(4, [])], {}, {4}, {3, 4}, 3);
    RearmedAndTaken(c, f);
    es := Reused(DirectFail(0), Lost(4, []), [LostRearm(0)] + ([Done(0)] + ([Wait(0, [4])] + [])), c);
    assert 4 in Owns(f, 0) && 4 in Owns(f, 1);
  }

  lemma {:induction false} RearmedAndTaken(c: World, f: World)
    requires c == World(map[0 := Lost(4, []), 1 := Handling(4, [])], {}, {4}, {3, 4}, 3)
    requires f == World(map[0 := Batch([4]), 1 := Handling(4, [])], {}, {4}, {3, 4}, 3)
    ensures var tail := [LostRearm(0)] + ([Done(0)] + ([Wait(0, [4])] + [])); Valid(c, tail) && After(c, tail) == f
  {
    var d := World(map[0 := Batch([]), 1 := Handling(4, [])], {4}, {4}, {3, 4}, 3);
    var e := World(map[0 := Waiting, 1 := Handling(4, [])], {4}, {4}, {3, 4}, 3);
    ValidStep(e, Wait(0, [4]), [], f);
    ValidStep(d, Done(0), [Wait(0, [4])] + [], e);
    ValidStep(c, LostRearm(0), [Done(0)] + ([Wait(0, [4])] + []), d);
  }

  /** An upload's file cannot be created, although both direct error writes
      succeed: the error reply goes to the second worker's client, whose
      connection the first worker then arms. */
  lemma {:induction false} UploadFailureBreaksIt() returns (es: seq<Event>)
    ensures Valid(Init({0, 1}, 3), es) && !NoneArmedOwned(After(Init({0, 1}, 3), es))
    ensures forall i :: 0 <= i < |es| ==> !es[i].DirectFail?
  {
    var c := World(map[0 := Stale(4, []), 1 := Handling(4, [])], {}, {4}, {3, 4}, 3);
    var d := World(map[0 := Batch([]), 1 := Handling(4, [])], {4}, {4}, {3, 4}, 3);
    var tail := [StaleWrite(0)] + ([LostRearm(0)] + []);
    WrittenAndRearmed(c, d);
    es := Reused(UploadFail(0), Stale(4, []), tail, c);
    assert 4 in Owns(d, 1) && 4 in d.armed;
    NoDirectFail(tail);
  }

  lemma {:induction false} WrittenAndRearmed(c: World, d: World)
    requires c == World(map[0 := Stale(4, []), 1 := Handling(4, [])], {}, {4}, {3, 4}, 3)
    requires d == World(map[0 := Batch([]), 1 := Handling(4, [])], {4}, {4}, {3, 4}, 3)
    ensures var tail := [StaleWrite(0)] + ([LostRearm(0)] + []); Valid(c, tail) && After(c, tail) == d
  {
    var c' := World(map[0 := Lost(4, []), 1 := Handling(4, [])], {}, {4}, {3, 4}, 3);
    ValidStep(c', LostRearm(0), [], d);
    ValidStep(c, StaleWrite(0), [LostRearm(0)] + [], c');
  }

  lemma {:induction false} NoDirectFail(tail: seq<Event>)
    requires forall i :: 0 <= i < |tail| ==> !tail[i].DirectFail?
    ensures var es := Opening(0) + ([UploadFail(0)] + (Opening(1) + tail)); forall i :: 0 <= i < |es| ==> !es[i].DirectFail?
  {
  }

  /** The same failure, and the error reply fails too: the first worker closes
      the connection the second one is handling. */
  lemma {:induction false} UploadFailureClosesAnothers() returns (es: seq<Event>)
    ensures Valid(Init({0, 1}, 3), es) && !OwnedOpen(After(Init({0, 1}, 3), es))
  {
    var c := World(map[0 := Stale(4, []), 1 := Handling(4, [])], {}, {4}, {3, 4}, 3);
    var d := World(map[0 := Closed(4, []), 1 := Handling(4, [])], {}, {}, {3}, 3);
    assert c.open - {4} == {3};
    ValidStep(c, StaleFail(0), [], d);
    es := Reused(UploadFail(0), Stale(4, []), [StaleFail(0)] + [], c);
    assert 4 in Owns(d, 1) && 4 !in d.open;
  }
}
