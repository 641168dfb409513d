/**
 Any number of activation calls interleaved with one another and with anything else that creates or
 deletes machines. Requests take effect one at a time; a request or its answer may be lost, in
 which case the client sees a transport error. The server may refuse anything, but is honest: ids
 are fresh, a named conflict is on the caller's license, and what it shows exists.
 */
module ActivationRuns {
  import opened Wrappers
  import opened MachineServer
  import opened Activation

  type CallId = nat

  /** A row for as long as the account lives: its license and fingerprint never change. */
  datatype Seat = Seat(license: Id, fingerprint: string)

  datatype CallState = CallState(call: Call, pc: Pc, issuedBefore: set<Id>)

  /** Every id ever issued, the rows that exist now, the calls so far, and which call created which row. */
  datatype World = World(issued: map<Id, Seat>, live: set<Id>, calls: map<CallId, CallState>, creator: map<Id, CallId>)

  datatype Event =
    | Begin(c: CallId, call: Call)
    | Serve(c: CallId, answer: Answer, answerLost: bool)
    | LoseRequest(c: CallId)
    | Interfere

  // ----- what an honest server may do with one request

  ghost predicate Shows(w: World, m: Machine, license: Option<Id>) {
    && m.id in w.live && m.id in w.issued && w.issued[m.id].fingerprint == m.fingerprint
    && (license.Some? ==> w.issued[m.id].license == license.value)
  }

  ghost predicate Serves(w: World, req: Request, answer: Answer, issued': map<Id, Seat>, live': set<Id>) {
    match answer
    case Created(m) =>
      && req.Create? && m.id !in w.issued && m.fingerprint == req.fingerprint
      && issued' == w.issued[m.id := Seat(req.license, req.fingerprint)] && live' == w.live + {m.id}
    case Deleted => req.Delete? && issued' == w.issued && live' == w.live - {req.id}
    case Found(m) => req.Get? && m.id == req.id && Shows(w, m, None) && issued' == w.issued && live' == w.live
    case Page(items, _, _, _) =>
      && req.List? && issued' == w.issued && live' == w.live
      && forall i :: 0 <= i < |items| ==> Shows(w, items[i], Some(req.license))
    case ApiError(error, machineId) =>
      && issued' == w.issued && live' == w.live
      && (error == FingerprintTaken ==> req.Create?)
      && (error == FingerprintTaken && machineId.Some? ==>
            machineId.value in w.issued && w.issued[machineId.value].license == req.license)
    case Verdict(_) => req.Validate? && issued' == w.issued && live' == w.live
    case TransportError => issued' == w.issued && live' == w.live
  }

  // ----- steps

  ghost predicate Running(w: World, c: CallId) {
    c in w.calls && !w.calls[c].pc.Done?
  }

  function Moved(cs: CallState, answer: Answer): CallState
    requires !cs.pc.Done?
  {
    cs.(pc := Advance(cs.call, cs.pc, answer))
  }

  ghost predicate Next(w: World, e: Event, w': World) {
    match e
    case Begin(c, call) =>
      && c !in w.calls
      && w' == w.(calls := w.calls[c := CallState(call, Creating, w.issued.Keys)])
    case Serve(c, answer, answerLost) =>
      && Running(w, c)
      && Serves(w, RequestOf(w.calls[c].call, w.calls[c].pc), answer, w'.issued, w'.live)
      && w'.calls == w.calls[c := Moved(w.calls[c], if answerLost then TransportError else answer)]
      && w'.creator == (if answer.Created? then w.creator[answer.machine.id := c] else w.creator)
    case LoseRequest(c) =>
      && Running(w, c)
      && w' == w.(calls := w.calls[c := Moved(w.calls[c], TransportError)])
    case Interfere =>
      && w'.calls == w.calls && w'.creator == w.creator
      && (forall id :: id in w.issued ==> id in w'.issued && w'.issued[id] == w.issued[id])
      && (forall id :: id in w'.live ==> id in w'.issued && (id in w.live || id !in w.issued))
  }

  ghost predicate Initial(w: World) {
    w.calls == map[] && w.creator == map[] && w.live <= w.issued.Keys
  }

  /** `worlds[i]` becomes `worlds[i + 1]` by `events[i]`. */
  ghost predicate IsPath(worlds: seq<World>, events: seq<Event>) {
    && |worlds| == |events| + 1
    && forall i :: 0 <= i < |events| ==> Next(worlds[i], events[i], worlds[i + 1])
  }

  ghost predicate IsRun(worlds: seq<World>, events: seq<Event>) {
    IsPath(worlds, events) && Initial(worlds[0])
  }

  // ----- the invariant

  ghost predicate IsMine(w: World, c: CallId, id: Id) {
    id in w.creator && w.creator[id] == c
  }

  ghost predicate IsRequested(w: World, call: Call, m: Machine) {
    m.id in w.issued && w.issued[m.id] == Seat(call.license, call.fingerprint) && m.fingerprint == call.fingerprint
  }

  ghost predicate CallOk(w: World, c: CallId, cs: CallState) {
    match cs.pc
    case Creating => true
    case Validating(m) => IsMine(w, c, m.id) && IsRequested(w, cs.call, m)
    case RollingBack(m, _) => IsMine(w, c, m.id) && IsRequested(w, cs.call, m)
    case Looking(id) => id in w.issued && w.issued[id].license == cs.call.license
    case Searching(_, _) => true
    case Revalidating(m) => IsRequested(w, cs.call, m)
    case Done(Activated(m, _)) => IsRequested(w, cs.call, m)
    case Done(OverLimit(kept, _)) => kept.Some? ==> IsRequested(w, cs.call, kept.value)
    case Done(Failed(kept, _)) => kept.Some? ==> IsRequested(w, cs.call, kept.value)
  }

  ghost predicate RowsOk(w: World) {
    && w.live <= w.issued.Keys && w.creator.Keys <= w.issued.Keys
    && forall id :: id in w.creator ==> w.creator[id] in w.calls && id !in w.calls[w.creator[id]].issuedBefore
  }

  ghost predicate CallsOk(w: World) {
    forall c :: c in w.calls ==> w.calls[c].issuedBefore <= w.issued.Keys && CallOk(w, c, w.calls[c])
  }

  ghost predicate Inv(w: World) {
    RowsOk(w) && CallsOk(w)
  }

  /** `w'` has issued everything `w` had, unchanged, and forgotten no creator. */
  ghost predicate Extends(w: World, w': World) {
    && (forall id :: id in w.issued ==> id in w'.issued && w'.issued[id] == w.issued[id])
    && (forall id :: id in w.creator ==> id in w'.creator && w'.creator[id] == w.creator[id])
  }

  lemma CallOkIsStable(w: World, w': World, c: CallId, cs: CallState)
    requires Extends(w, w') && CallOk(w, c, cs)
    ensures CallOk(w', c, cs)
  {
  }

  lemma NextExtends(w: World, e: Event, w': World)
    requires RowsOk(w) && Next(w, e, w')
    ensures Extends(w, w')
  {
  }

  // The call that was served stands where the invariant wants it.
  lemma ServedCallIsOk(w: World, c: CallId, answer: Answer, w': World, cs: CallState)
    requires RowsOk(w) && CallOk(w, c, cs) && !cs.pc.Done? && Extends(w, w')
    requires Serves(w, RequestOf(cs.call, cs.pc), answer, w'.issued, w'.live)
    requires w'.creator == (if answer.Created? then w.creator[answer.machine.id := c] else w.creator)
    ensures CallOk(w', c, Moved(cs, answer))
  {
  }

  lemma UnansweredCallIsOk(w: World, c: CallId, w': World, cs: CallState)
    requires CallOk(w, c, cs) && !cs.pc.Done? && Extends(w, w')
    ensures CallOk(w', c, Moved(cs, TransportError))
  {
  }

  /** Every step, of any call, in any order, keeps the invariant. */
  lemma NextKeepsInv(w: World, e: Event, w': World)
    requires Inv(w) && Next(w, e, w')
    ensures Inv(w')
  {
    NextExtends(w, e, w');
    forall c | c in w'.calls
      ensures w'.calls[c].issuedBefore <= w'.issued.Keys && CallOk(w', c, w'.calls[c])
    {
      if c in w.calls {
        var cs := w.calls[c];
        CallOkIsStable(w, w', c, cs);
        if e.Serve? && e.c == c {
          ServedCallIsOk(w, c, e.answer, w', cs);
          UnansweredCallIsOk(w, c, w', cs);
        } else if e.LoseRequest? && e.c == c {
          UnansweredCallIsOk(w, c, w', cs);
        }
      }
    }
    NextKeepsRows(w, e, w');
  }

  lemma NextKeepsRows(w: World, e: Event, w': World)
    requires Inv(w) && Next(w, e, w')
    ensures RowsOk(w')
  {
  }

  lemma {:induction false} RunKeepsInv(worlds: seq<World>, events: seq<Event>, i: nat)
    requires IsRun(worlds, events) && i < |worlds|
    ensures Inv(worlds[i])
  {
    if i > 0 {
      RunKeepsInv(worlds, events, i - 1);
      NextKeepsInv(worlds[i - 1], events[i - 1], worlds[i]);
    }
  }

  /**
   Safety of rollback, over every interleaving: whenever a call makes a row disappear, that row was
   created by that very call. So no call ever removes a row that existed before it began, or one
   that any other call created.
   */
  lemma NoForeignRowIsRemoved(worlds: seq<World>, events: seq<Event>, i: nat, id: Id)
    requires IsRun(worlds, events) && i < |events| && !events[i].Interfere?
    requires id in worlds[i].live && id !in worlds[i + 1].live
    ensures events[i].Serve?
    ensures IsMine(worlds[i], events[i].c, id) && id !in worlds[i].calls[events[i].c].issuedBefore
  {
    RunKeepsInv(worlds, events, i);
    assert Next(worlds[i], events[i], worlds[i + 1]);
  }

  /**
   Whatever else happens in between, a machine a call hands back, created or recovered, was issued
   to the requested license under the requested fingerprint: no other license's seat is adopted.
   */
  lemma HandedBackMachineIsTheCallersOwn(worlds: seq<World>, events: seq<Event>, i: nat, c: CallId)
    requires IsRun(worlds, events) && i < |worlds| && c in worlds[i].calls && worlds[i].calls[c].pc.Done?
    ensures var cs := worlds[i].calls[c];
            match cs.pc.outcome
            case Activated(m, _) => IsRequested(worlds[i], cs.call, m)
            case OverLimit(kept, _) => kept.Some? ==> IsRequested(worlds[i], cs.call, kept.value)
            case Failed(kept, _) => kept.Some? ==> IsRequested(worlds[i], cs.call, kept.value)
  {
    RunKeepsInv(worlds, events, i);
  }

  // ----- after the hand-over

  /** Call `c` has ended and handed back this machine. */
  ghost predicate HandedBack(w: World, c: CallId, m: Machine) {
    && c in w.calls && w.calls[c].pc.Done?
    && match w.calls[c].pc.outcome
       case Activated(x, _) => x == m
       case OverLimit(kept, _) => kept == Some(m)
       case Failed(kept, _) => kept == Some(m)
  }

  /**
   A machine that was handed back disappears later only by outside interference, or by the rollback of another
   call, the one that created it.
   */
  lemma HandedBackIsLostOnlyToItsCreator(worlds: seq<World>, events: seq<Event>, i: nat, j: nat, c: CallId, m: Machine)
    requires IsRun(worlds, events) && i <= j < |events| && HandedBack(worlds[i], c, m)
    requires m.id in worlds[j].live && m.id !in worlds[j + 1].live
    ensures events[j].Interfere?
         || (events[j].Serve? && events[j].c != c && IsMine(worlds[j], events[j].c, m.id)
             && worlds[j].calls[events[j].c].pc.RollingBack? && worlds[j].calls[events[j].c].pc.machine.id == m.id)
  {
    assert Next(worlds[j], events[j], worlds[j + 1]);
    if !events[j].Interfere? {
      NoForeignRowIsRemoved(worlds, events, j, m.id);
      DoneStaysDone(worlds, events, i, j, c);
    }
  }

  lemma {:induction false} DoneStaysDone(worlds: seq<World>, events: seq<Event>, i: nat, j: nat, c: CallId)
    requires IsRun(worlds, events) && i <= j < |worlds| && c in worlds[i].calls && worlds[i].calls[c].pc.Done?
    ensures c in worlds[j].calls && worlds[j].calls[c] == worlds[i].calls[c]
  {
    if i < j {
      DoneStaysDone(worlds, events, i, j - 1, c);
      assert Next(worlds[j - 1], events[j - 1], worlds[j]);
    }
  }

  /** The call may still roll this machine back. */
  predicate Pending(pc: Pc, id: Id) {
    (pc.Validating? || pc.RollingBack?) && pc.machine.id == id
  }

  ghost predicate IsPending(w: World, id: Id) {
    exists c :: c in w.calls && Pending(w.calls[c].pc, id)
  }

  /** Some way on from this world, without outside interference, removes the row. */
  ghost predicate CanBeRemoved(w: World, id: Id) {
    exists worlds, events :: Removes(worlds, events, id) && worlds[0] == w
  }

  ghost predicate Removes(worlds: seq<World>, events: seq<Event>, id: Id) {
    && IsPath(worlds, events) && id !in worlds[|events|].live
    && forall n :: 0 <= n < |events| ==> !events[n].Interfere?
  }

  lemma SettledStaysSettled(w: World, e: Event, w': World, id: Id)
    requires RowsOk(w) && Next(w, e, w') && !e.Interfere? && id in w.live && !IsPending(w, id)
    ensures id in w'.live && !IsPending(w', id)
  {
    forall c | c in w'.calls ensures !Pending(w'.calls[c].pc, id) {
      if c in w.calls { assert !Pending(w.calls[c].pc, id); }
    }
    if e.Serve? { assert !Pending(w.calls[e.c].pc, id); }
  }

  lemma {:induction false} SettledForGood(worlds: seq<World>, events: seq<Event>, id: Id, j: nat)
    requires IsPath(worlds, events) && j <= |events| && forall n :: 0 <= n < |events| ==> !events[n].Interfere?
    requires Inv(worlds[0]) && id in worlds[0].live && !IsPending(worlds[0], id)
    ensures Inv(worlds[j]) && id in worlds[j].live && !IsPending(worlds[j], id)
  {
    if j > 0 {
      SettledForGood(worlds, events, id, j - 1);
      SettledStaysSettled(worlds[j - 1], events[j - 1], worlds[j], id);
      NextKeepsInv(worlds[j - 1], events[j - 1], worlds[j]);
    }
  }

  // The delete of a call that is rolling back.
  lemma RollbackRemoves(w: World, c: CallId, id: Id)
    requires RowsOk(w) && c in w.calls && w.calls[c].pc.RollingBack? && w.calls[c].pc.machine.id == id
    ensures CanBeRemoved(w, id)
  {
    var w' := w.(live := w.live - {id}, calls := w.calls[c := Moved(w.calls[c], Deleted)]);
    var worlds, events := [w, w'], [Serve(c, Deleted, false)];
    assert Next(w, events[0], w');
    assert Removes(worlds, events, id);
  }

  lemma StepTowardsRemoval(w: World, e: Event, w': World, id: Id)
    requires Next(w, e, w') && !e.Interfere? && CanBeRemoved(w', id)
    ensures CanBeRemoved(w, id)
  {
    var worlds, events :| Removes(worlds, events, id) && worlds[0] == w';
    PrependPath(w, e, worlds, events);
    var ws, es := [w] + worlds, [e] + events;
    assert ws[|es|] == worlds[|events|];
    assert Removes(ws, es, id) && ws[0] == w;
  }

  lemma PrependPath(w: World, e: Event, worlds: seq<World>, events: seq<Event>)
    requires IsPath(worlds, events) && Next(w, e, worlds[0])
    ensures IsPath([w] + worlds, [e] + events)
  {
    hide Next;
    var ws, es := [w] + worlds, [e] + events;
    assert forall i :: 0 <= i < |worlds| ==> ws[i + 1] == worlds[i];
    assert forall i :: 0 <= i < |events| ==> es[i + 1] == events[i];
    forall i | 0 <= i < |es| ensures Next(ws[i], es[i], ws[i + 1]) {
      if i > 0 { assert Next(worlds[i - 1], events[i - 1], worlds[i]); }
    }
  }

  // An overage verdict starts the rollback.
  lemma ValidationCanRemove(w: World, c: CallId, id: Id)
    requires RowsOk(w) && c in w.calls && w.calls[c].pc.Validating? && w.calls[c].pc.machine.id == id
    ensures CanBeRemoved(w, id)
  {
    var over := Verdict(TooManyMachines);
    var w' := w.(calls := w.calls[c := Moved(w.calls[c], over)]);
    RollbackRemoves(w', c, id);
    StepTowardsRemoval(w, Serve(c, over, false), w', id);
  }

  /**
   In every reachable world, an existing row can be removed without outside interference exactly when some
   call, its creator by the invariant, is yet to hear its verdict on it or is rolling it back.
   */
  lemma CanBeRemovedExactly(w: World, id: Id)
    requires Inv(w) && id in w.live
    ensures CanBeRemoved(w, id) <==> IsPending(w, id)
    ensures forall c :: c in w.calls && Pending(w.calls[c].pc, id) ==> IsMine(w, c, id)
  {
    forall c | c in w.calls && Pending(w.calls[c].pc, id) ensures IsMine(w, c, id) {
      assert CallOk(w, c, w.calls[c]);
    }
    if IsPending(w, id) {
      var c :| c in w.calls && Pending(w.calls[c].pc, id);
      if w.calls[c].pc.RollingBack? { RollbackRemoves(w, c, id); } else { ValidationCanRemove(w, c, id); }
    } else {
      forall worlds, events | IsPath(worlds, events) && worlds[0] == w
        ensures !Removes(worlds, events, id)
      {
        if Removes(worlds, events, id) { SettledForGood(worlds, events, id, |events|); }
      }
    }
  }

  /** A machine that was handed back is safe from every call exactly when its creator no longer waits or rolls back. */
  lemma HandedBackIsSafeExactly(worlds: seq<World>, events: seq<Event>, i: nat, c: CallId, m: Machine)
    requires IsRun(worlds, events) && i < |worlds| && HandedBack(worlds[i], c, m) && m.id in worlds[i].live
    ensures !CanBeRemoved(worlds[i], m.id)
       <==> forall d :: d in worlds[i].calls && IsMine(worlds[i], d, m.id) ==> !Pending(worlds[i].calls[d].pc, m.id)
  {
    RunKeepsInv(worlds, events, i);
    CanBeRemovedExactly(worlds[i], m.id);
  }

  // ----- one call, one row

  /** Every call has created at most one row, and none while it has yet to create. */
  ghost predicate OneRowEach(w: World) {
    && (forall c, x, y :: IsMine(w, c, x) && IsMine(w, c, y) ==> x == y)
    && (forall c, x :: c in w.calls && w.calls[c].pc.Creating? ==> !IsMine(w, c, x))
  }

  lemma NextKeepsOneRowEach(w: World, e: Event, w': World)
    requires RowsOk(w) && OneRowEach(w) && Next(w, e, w')
    ensures OneRowEach(w')
  {
    forall c, x, y | IsMine(w', c, x) && IsMine(w', c, y) ensures x == y {
      if IsMine(w, c, x) && IsMine(w, c, y) {
      } else if e.Serve? {
        assert !IsMine(w, e.c, x) && !IsMine(w, e.c, y);
      }
    }
    forall c, x | c in w'.calls && w'.calls[c].pc.Creating? ensures !IsMine(w', c, x) {
      if c in w.calls {
        if (e.Serve? || e.LoseRequest?) && e.c == c { CreatingIsLeft(w.calls[c].call, w.calls[c].pc); }
        assert !IsMine(w, c, x);
      }
    }
  }

  lemma CreatingIsLeft(call: Call, pc: Pc)
    requires !pc.Done?
    ensures forall answer :: !Advance(call, pc, answer).Creating?
  {
  }

  /** In every interleaving a call creates at most one row, whatever it ends in. */
  lemma ACallCreatesOneRow(worlds: seq<World>, events: seq<Event>, i: nat, c: CallId, x: Id, y: Id)
    requires IsRun(worlds, events) && i < |worlds| && IsMine(worlds[i], c, x) && IsMine(worlds[i], c, y)
    ensures x == y
  {
    RunKeepsOneRowEach(worlds, events, i);
  }

  lemma {:induction false} RunKeepsOneRowEach(worlds: seq<World>, events: seq<Event>, i: nat)
    requires IsRun(worlds, events) && i < |worlds|
    ensures OneRowEach(worlds[i])
  {
    if i > 0 {
      RunKeepsOneRowEach(worlds, events, i - 1);
      RunKeepsInv(worlds, events, i - 1);
      NextKeepsOneRowEach(worlds[i - 1], events[i - 1], worlds[i]);
    }
  }

  // ----- a run that loses a recovered machine

  lemma Extend(worlds: seq<World>, events: seq<Event>, e: Event, w': World)
    requires IsRun(worlds, events) && Next(worlds[|events|], e, w')
    ensures IsRun(worlds + [w'], events + [e])
  {
    var ws, es := worlds + [w'], events + [e];
    assert forall i :: 0 <= i < |worlds| ==> ws[i] == worlds[i];
    forall i | 0 <= i < |es| ensures Next(ws[i], es[i], ws[i + 1]) {
      if i < |events| { assert Next(worlds[i], events[i], worlds[i + 1]) && es[i] == events[i]; }
    }
  }

  const SHARED: Machine := Machine("m", "F")

  // Call 0 has created the machine, and call 1 has been refused it by name.
  lemma RunToConflict() returns (worlds: seq<World>, events: seq<Event>)
    ensures IsRun(worlds, events) && |events| == 4
    ensures worlds[4] == World(map["m" := Seat("L", "F")], {"m"},
                               map[0 := CallState(Call("L", "F", false), Validating(SHARED), {}),
                                   1 := CallState(Call("L", "F", true), Looking("m"), {"m"})], map["m" := 0])
  {
    var plain, again := Call("L", "F", false), Call("L", "F", true);
    var w0 := World(map[], {}, map[], map[]);
    assert w0.issued.Keys == {};
    worlds, events := [w0], [];
    var w1 := w0.(calls := map[0 := CallState(plain, Creating, {})]);
    Extend(worlds, events, Begin(0, plain), w1);
    worlds, events := worlds + [w1], events + [Begin(0, plain)];
    var w2 := World(map["m" := Seat("L", "F")], {"m"}, map[0 := CallState(plain, Validating(SHARED), {})],
                    map["m" := 0]);
    Extend(worlds, events, Serve(0, Created(SHARED), false), w2);
    worlds, events := worlds + [w2], events + [Serve(0, Created(SHARED), false)];
    assert w2.issued.Keys == {"m"};
    var w3 := w2.(calls := w2.calls[1 := CallState(again, Creating, {"m"})]);
    Extend(worlds, events, Begin(1, again), w3);
    worlds, events := worlds + [w3], events + [Begin(1, again)];
    var taken := ApiError(FingerprintTaken, Some("m"));
    var w4 := w3.(calls := w3.calls[1 := CallState(again, Looking("m"), {"m"})]);
    Extend(worlds, events, Serve(1, taken, false), w4);
    worlds, events := worlds + [w4], events + [Serve(1, taken, false)];
  }

  // Call 1 has recovered it and succeeded.
  lemma RunToRecovery() returns (worlds: seq<World>, events: seq<Event>)
    ensures IsRun(worlds, events) && |events| == 6
    ensures worlds[6] == World(map["m" := Seat("L", "F")], {"m"},
                               map[0 := CallState(Call("L", "F", false), Validating(SHARED), {}),
                                   1 := CallState(Call("L", "F", true),
                                                  Done(Activated(SHARED, ValidationCode.Valid)), {"m"})],
                               map["m" := 0])
  {
    worlds, events := RunToConflict();
    var w4 := worlds[4];
    var w5 := w4.(calls := w4.calls[1 := w4.calls[1].(pc := Revalidating(SHARED))]);
    Extend(worlds, events, Serve(1, Found(SHARED), false), w5);
    worlds, events := worlds + [w5], events + [Serve(1, Found(SHARED), false)];
    var valid := Verdict(ValidationCode.Valid);
    var w6 := w5.(calls := w5.calls[1 := w5.calls[1].(pc := Done(Activated(SHARED, ValidationCode.Valid)))]);
    Extend(worlds, events, Serve(1, valid, false), w6);
    worlds, events := worlds + [w6], events + [Serve(1, valid, false)];
  }

  /**
   Recovery does not own what it recovers: call 1 succeeds with the machine call 0 created, and call 0, finding
   the license over its limit, then rolls it back.
   */
  lemma RecoveredMachineCanBeRolledBack() returns (worlds: seq<World>, events: seq<Event>)
    ensures IsRun(worlds, events) && |events| == 8
    ensures HandedBack(worlds[6], 1, SHARED) && IsMine(worlds[6], 0, SHARED.id)
    ensures SHARED.id in worlds[7].live && SHARED.id !in worlds[8].live
    ensures events[7] == Serve(0, Deleted, false)
  {
    worlds, events := RunToRecovery();
    var w6 := worlds[6];
    var over := Verdict(TooManyMachines);
    var w7 := w6.(calls := w6.calls[0 := w6.calls[0].(pc := RollingBack(SHARED, TooManyMachines))]);
    Extend(worlds, events, Serve(0, over, false), w7);
    worlds, events := worlds + [w7], events + [Serve(0, over, false)];
    var w8 := w7.(live := {}, calls := w7.calls[0 := w7.calls[0].(pc := Done(OverLimit(None, TooManyMachines)))]);
    Extend(worlds, events, Serve(0, Deleted, false), w8);
    worlds, events := worlds + [w8], events + [Serve(0, Deleted, false)];
  }

  // ----- the well-behaved server of MachineServer is one of these servers

  ghost predicate Represents(w: World, s: Store) {
    && w.issued.Keys == s.used
    && (forall id :: id in w.live <==> HasRow(s.rows, id))
    && forall i :: 0 <= i < |s.rows| ==> s.rows[i].id in w.issued
                                         && w.issued[s.rows[i].id] == Seat(s.rows[i].license, s.rows[i].fingerprint)
  }

  ghost function IssuedAfter(w: World, req: Request, answer: Answer): map<Id, Seat> {
    if answer.Created? && req.Create? then w.issued[answer.machine.id := Seat(req.license, req.fingerprint)]
    else w.issued
  }

  ghost function LiveAfter(w: World, req: Request, answer: Answer): set<Id> {
    if answer.Created? then w.live + {answer.machine.id}
    else if answer.Deleted? && req.Delete? then w.live - {req.id}
    else w.live
  }

  /** Its answers, and the rows it leaves, are allowed at every step. */
  lemma WellBehavedServerIsHonest(p: Policy, w: World, s: Store, req: Request)
    requires PolicyOk(p) && StoreOk(s) && Represents(w, s)
    ensures var (answer, s') := Respond(p, s, req);
            Serves(w, req, answer, IssuedAfter(w, req, answer), LiveAfter(w, req, answer))
  {
    match req
    case Create(license, fingerprint) => CreateIsHonest(p, w, s, license, fingerprint);
    case Validate(_) =>
    case Delete(_) =>
    case Get(id) => if FindById(s.rows, id).Some? { var i := FindByIdIndex(s.rows, id); assert HasRow(s.rows, id); }
    case List(license, query, page) => ListIsHonest(p, w, s, license, query, page);
  }

  lemma {:induction false} FindByIdIndex(rows: seq<Row>, id: Id) returns (i: nat)
    requires FindById(rows, id).Some?
    ensures i < |rows| && FindById(rows, id) == Some(rows[i]) && rows[i].id == id
  {
    if rows[0].id == id { i := 0; } else { i := FindByIdIndex(rows[1..], id); i := i + 1; }
  }

  lemma CreateIsHonest(p: Policy, w: World, s: Store, license: Id, fingerprint: string)
    requires PolicyOk(p) && Represents(w, s)
    ensures var answer := OnCreate(p, s, license, fingerprint).0;
            var req := Create(license, fingerprint);
            Serves(w, req, answer, IssuedAfter(w, req, answer), LiveAfter(w, req, answer))
  {
    if FindOwn(s.rows, license, fingerprint).Some? { var i := FindOwnIndex(s.rows, license, fingerprint); }
  }

  lemma ListIsHonest(p: Policy, w: World, s: Store, license: Id, query: string, page: int)
    requires Represents(w, s)
    ensures var answer := OnList(p, s, license, query, page);
            Serves(w, List(license, query, page), answer, w.issued, w.live)
  {
    var answer := OnList(p, s, license, query, page);
    if answer.Page? {
      var all := Matching(p, s.rows, license, query);
      var items := PageItems(all, page);
      forall k | 0 <= k < |answer.items| ensures Shows(w, answer.items[k], Some(license)) {
        assert answer.items[k] == Seen(items[k]);
        MatchingIsExact(p, s.rows, license, query, items[k]);
        var i :| 0 <= i < |s.rows| && s.rows[i] == items[k];
        assert HasRow(s.rows, items[k].id);
      }
    }
  }

  lemma {:induction false} WithoutSource(rows: seq<Row>, id: Id, j: nat) returns (i: nat)
    requires j < |Without(rows, id)|
    ensures i < |rows| && rows[i] == Without(rows, id)[j]
  {
    if rows[0].id == id {
      i := WithoutSource(rows[1..], id, j);
      i := i + 1;
    } else if j == 0 {
      i := 0;
    } else {
      i := WithoutSource(rows[1..], id, j - 1);
      i := i + 1;
    }
  }

  /** And they stay in step: the rows left by one request are again represented by the world after it. */
  lemma RepresentationIsKept(p: Policy, w: World, s: Store, req: Request)
    requires PolicyOk(p) && StoreOk(s) && Represents(w, s)
    ensures var (answer, s') := Respond(p, s, req);
            Represents(w.(issued := IssuedAfter(w, req, answer), live := LiveAfter(w, req, answer)), s')
  {
    var (answer, s') := Respond(p, s, req);
    if req.Delete? && HasRow(s.rows, req.id) {
      forall id ensures HasRow(s'.rows, id) <==> HasRow(s.rows, id) && id != req.id {
        WithoutKeepsOthers(s.rows, req.id, id);
      }
      forall j | 0 <= j < |s'.rows| ensures exists i :: 0 <= i < |s.rows| && s.rows[i] == s'.rows[j] {
        var i := WithoutSource(s.rows, req.id, j);
      }
    } else if answer.Created? {
      var r := s'.rows[0];
      assert s'.rows == [r] + s.rows;
      forall id ensures HasRow(s'.rows, id) <==> HasRow(s.rows, id) || id == r.id {
        if HasRow(s.rows, id) {
          var i :| 0 <= i < |s.rows| && s.rows[i].id == id;
          assert s'.rows[i + 1].id == id;
        }
      }
    }
  }
}
