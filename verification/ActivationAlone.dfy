/**
 The activation calls as the code writes them, run against the server object with no interference:
 each method is the protocol of `Activation` run to its end, and activating twice is activating once.
 */
module ActivationAlone {
  import opened Wrappers
  import opened MachineServer
  import opened MachineSearch
  import opened Activation

  // ----- what the run amounts to

  function NewRow(p: Policy, s: Store, call: Call): Row {
    Row(p.freshId(s.used), call.license, call.fingerprint, "", "")
  }

  function WithRow(s: Store, r: Row): Store {
    Store([r] + s.rows, s.used + {r.id})
  }

  /** The rows after a rollback are the rows before the create. */
  lemma RollbackRestores(p: Policy, s: Store, r: Row)
    requires StoreOk(s) && r.id !in s.used
    ensures Respond(p, WithRow(s, r), Delete(r.id)) == (Deleted, Store(s.rows, s.used + {r.id}))
  {
    assert WithRow(s, r).rows[0] == r;
    WithoutAbsent(s.rows, r.id);
    assert WithRow(s, r).rows[1..] == s.rows;
  }

  lemma CreateBranch(p: Policy, s: Store, call: Call)
    requires PolicyOk(p) && StoreOk(s)
    requires FindConflict(p, s.rows, call.license, call.fingerprint).None? && p.createLimit(s.rows, call.license).None?
    ensures var r := NewRow(p, s, call);
            var code := p.verdict(WithRow(s, r).rows, call.license);
            RunAlone(p, s, call, Creating)
            == if IsOverage(code) then (OverLimit(None, code), Store(s.rows, s.used + {r.id}))
               else (Activated(Seen(r), code), WithRow(s, r))
  {
    var r := NewRow(p, s, call);
    var code := p.verdict(WithRow(s, r).rows, call.license);
    Unfold(p, s, call, Creating);
    assert StepAlone(p, s, call, Creating) == (Validating(Seen(r)), WithRow(s, r));
    Unfold(p, WithRow(s, r), call, Validating(Seen(r)));
    if IsOverage(code) {
      Unfold(p, WithRow(s, r), call, RollingBack(Seen(r), code));
      RollbackRestores(p, s, r);
    }
  }

  lemma LimitBranch(p: Policy, s: Store, call: Call)
    requires PolicyOk(p)
    requires FindConflict(p, s.rows, call.license, call.fingerprint).None? && p.createLimit(s.rows, call.license).Some?
    ensures var e := p.createLimit(s.rows, call.license).value;
            RunAlone(p, s, call, Creating)
            == (match CreateTimeLimit(e)
                case Some(code) => OverLimit(None, code)
                case None => Failed(None, Api(e, None)), s)
  {
    Unfold(p, s, call, Creating);
  }

  function NamedConflict(p: Policy, s: Store, call: Call): Option<Id> {
    var own := FindOwn(s.rows, call.license, call.fingerprint);
    if p.namesConflict && own.Some? then Some(own.value.id) else None
  }

  lemma ConflictBranch(p: Policy, s: Store, call: Call)
    requires FindConflict(p, s.rows, call.license, call.fingerprint).Some?
    ensures var pc := OnApiError(call, None, FingerprintTaken, NamedConflict(p, s, call));
            Ready(pc) && RunAlone(p, s, call, Creating) == RunAlone(p, s, call, pc)
  {
    Unfold(p, s, call, Creating);
  }

  /** The read-only part of a call leaves the rows alone. */
  lemma {:induction false} RecoveryReads(p: Policy, s: Store, call: Call, pc: Pc)
    requires Ready(pc) && (pc.Looking? || pc.Searching? || pc.Revalidating? || pc.Done?)
    ensures RunAlone(p, s, call, pc).1 == s
    decreases Rank(pc), if pc.Searching? then MAX_PAGES - pc.page else 0
  {
    if !pc.Done? {
      StepProgresses(p, s, call, pc);
      var next := StepAlone(p, s, call, pc).0;
      Unfold(p, s, call, pc);
      RecoveryReads(p, s, call, next);
    }
  }

  /**
   Against a well-behaved server left alone, an activation either leaves the rows exactly as they
   were, or succeeds having added one row; in particular a rolled-back one leaves no row behind.
   */
  lemma RowsAfterActivation(p: Policy, s: Store, call: Call)
    requires PolicyOk(p) && StoreOk(s)
    ensures var (o, s') := RunAlone(p, s, call, Creating);
            && StoreOk(s')
            && (s'.rows == s.rows
                || (o.Activated? && s' == WithRow(s, NewRow(p, s, call)) && o.machine == Seen(NewRow(p, s, call))))
  {
    if FindConflict(p, s.rows, call.license, call.fingerprint).Some? {
      ConflictBranch(p, s, call);
      RecoveryReads(p, s, call, OnApiError(call, None, FingerprintTaken, NamedConflict(p, s, call)));
    } else if p.createLimit(s.rows, call.license).Some? {
      LimitBranch(p, s, call);
    } else {
      CreateBranch(p, s, call);
      CreateKeepsStoreOk(p, s, call.license, call.fingerprint);
    }
  }

  // ----- which outcome

  /** The verdicts that mean a license is over one of its limits. */
  ghost predicate IsOneOfFive(code: ValidationCode) {
    code in {TooManyMachines, TooManyCores, TooMuchMemory, TooMuchDisk, TooManyProcesses}
  }

  /**
   A fingerprint that is free, within the limits checked at creation: the verdict on the new rows decides. One of
   the five overage codes, and the rows are as before; any other, and exactly one new row stays.
   */
  lemma VerdictDecides(p: Policy, s: Store, call: Call)
    requires PolicyOk(p) && StoreOk(s)
    requires !IsTaken(p, s.rows, call.license, call.fingerprint) && p.createLimit(s.rows, call.license).None?
    ensures var (o, s') := RunAlone(p, s, call, Creating);
            var r := Row(p.freshId(s.used), call.license, call.fingerprint, "", "");
            var code := p.verdict([r] + s.rows, call.license);
            && (IsOneOfFive(code) <==> s'.rows == s.rows)
            && (IsOneOfFive(code) ==> o == OverLimit(None, code))
            && (!IsOneOfFive(code) ==> o == Activated(Machine(r.id, call.fingerprint), code) && s'.rows == [r] + s.rows)
  {
    FindConflictFinds(p, s.rows, call.license, call.fingerprint);
    CreateBranch(p, s, call);
  }

  /** A refusal for a limit: each of the four becomes its own overage code, any other error is passed on. */
  lemma LimitDecides(p: Policy, s: Store, call: Call)
    requires PolicyOk(p) && StoreOk(s)
    requires !IsTaken(p, s.rows, call.license, call.fingerprint) && p.createLimit(s.rows, call.license).Some?
    ensures var (o, s') := RunAlone(p, s, call, Creating);
            var e := p.createLimit(s.rows, call.license).value;
            && s' == s
            && (e == MachineLimitExceeded ==> o == OverLimit(None, TooManyMachines))
            && (e == CoreLimitExceeded ==> o == OverLimit(None, TooManyCores))
            && (e == MemoryLimitExceeded ==> o == OverLimit(None, TooMuchMemory))
            && (e == DiskLimitExceeded ==> o == OverLimit(None, TooMuchDisk))
            && (e !in {MachineLimitExceeded, CoreLimitExceeded, MemoryLimitExceeded, DiskLimitExceeded} ==>
                  o == Failed(None, Api(e, None)))
  {
    FindConflictFinds(p, s.rows, call.license, call.fingerprint);
    LimitBranch(p, s, call);
  }

  /** A re-validated machine is kept either way; the verdict on the unchanged rows decides which error, if any. */
  lemma RevalidationDecides(p: Policy, s: Store, call: Call, m: Machine)
    ensures var code := p.verdict(s.rows, call.license);
            RunAlone(p, s, call, Revalidating(m))
            == (if IsOneOfFive(code) then OverLimit(Some(m), code) else Activated(m, code), s)
  {
    Unfold(p, s, call, Revalidating(m));
  }

  // ----- twice is once

  /** A row at the front of the listing is what a re-activation resolves to. */
  lemma ReactivationFindsFront(p: Policy, s: Store, call: Call)
    requires PolicyOk(p) && StoreOk(s) && call.idempotent
    requires s.rows != [] && s.rows[0].license == call.license && s.rows[0].fingerprint == call.fingerprint
    requires call.fingerprint != "" || p.namesConflict
    ensures RunAlone(p, s, call, Creating) == RunAlone(p, s, call, Revalidating(Seen(s.rows[0])))
  {
    var r := s.rows[0];
    OwnConflicts(p, s.rows, call.license, call.fingerprint, 0);
    ConflictBranch(p, s, call);
    assert FindOwn(s.rows, call.license, call.fingerprint) == Some(r);
    if p.namesConflict {
      assert FindById(s.rows, r.id) == Some(r);
      Unfold(p, s, call, Looking(r.id));
    } else {
      FilterKeepsExactMatch(p, r);
      SearchAlone(p, s, call, None, 1, SearchEnd(p, s, call, None));
      assert Matching(p, s.rows, call.license, call.fingerprint)[0] == r;
    }
  }

  /**
   Idempotence: once a call has succeeded, running it again gives the same machine and the same
   verdict and leaves the same rows. (An empty fingerprint has no fallback search, so it needs a
   server that names the conflicting machine.)
   */
  lemma TwiceIsOnce(p: Policy, s: Store, call: Call)
    requires PolicyOk(p) && StoreOk(s) && call.idempotent
    requires call.fingerprint != "" || p.namesConflict
    ensures var (o, s') := RunAlone(p, s, call, Creating);
            o.Activated? ==> RunAlone(p, s', call, Creating) == (o, s')
  {
    var (o, s') := RunAlone(p, s, call, Creating);
    if o.Activated? {
      if FindConflict(p, s.rows, call.license, call.fingerprint).Some? {
        ConflictBranch(p, s, call);
        RecoveryReads(p, s, call, OnApiError(call, None, FingerprintTaken, NamedConflict(p, s, call)));
      } else if p.createLimit(s.rows, call.license).Some? {
        LimitBranch(p, s, call);
      } else {
        CreateBranch(p, s, call);
        CreateKeepsStoreOk(p, s, call.license, call.fingerprint);
        ReactivationFindsFront(p, s', call);
        Unfold(p, s', call, Revalidating(Seen(s'.rows[0])));
      }
    }
  }

  /** Why the fingerprint may not be empty there: the second call ends in a failed lookup. */
  lemma EmptyFingerprintIsNotIdempotent(p: Policy, s: Store, call: Call)
    requires PolicyOk(p) && StoreOk(s) && call.idempotent && call.fingerprint == "" && !p.namesConflict
    requires RunAlone(p, s, call, Creating).0.Activated?
    ensures var (o, s') := RunAlone(p, s, call, Creating);
            RunAlone(p, s', call, Creating) == (Failed(None, LookupFailed), s')
  {
    if FindConflict(p, s.rows, call.license, call.fingerprint).Some? {
      ConflictBranch(p, s, call);
    } else if p.createLimit(s.rows, call.license).Some? {
      LimitBranch(p, s, call);
    } else {
      CreateBranch(p, s, call);
      var s' := WithRow(s, NewRow(p, s, call));
      OwnConflicts(p, s'.rows, call.license, call.fingerprint, 0);
      ConflictBranch(p, s', call);
    }
  }

  /** A call that rolled its machine back is the one kind that leaves a trace without adding a row: an id used up. */
  lemma OnlyRollbackSpendsAnId(p: Policy, s: Store, call: Call)
    requires PolicyOk(p) && StoreOk(s)
    ensures var (o, s') := RunAlone(p, s, call, Creating);
            !o.Activated? && s' != s ==> o.OverLimit? && o.kept.None? && s'.rows == s.rows
  {
    if FindConflict(p, s.rows, call.license, call.fingerprint).Some? {
      ConflictBranch(p, s, call);
      RecoveryReads(p, s, call, OnApiError(call, None, FingerprintTaken, NamedConflict(p, s, call)));
    } else if p.createLimit(s.rows, call.license).Some? {
      LimitBranch(p, s, call);
    } else {
      CreateBranch(p, s, call);
    }
  }

  /**
   Every outcome but a rolled-back one is repeated exactly by a second call, machine, verdict, error and rows
   alike; a success only, and always, when there is a fingerprint to search for or a conflict names the machine.
   */
  lemma TwiceIsOnceExactly(p: Policy, s: Store, call: Call)
    requires PolicyOk(p) && StoreOk(s) && call.idempotent
    ensures var (o, s') := RunAlone(p, s, call, Creating);
            s' == s || o.Activated? ==>
              (RunAlone(p, s', call, Creating) == (o, s') <==> s' == s || call.fingerprint != "" || p.namesConflict)
  {
    hide RunAlone;
    if RunAlone(p, s, call, Creating).1 == s {
    } else if call.fingerprint != "" || p.namesConflict {
      TwiceIsOnce(p, s, call);
    } else if RunAlone(p, s, call, Creating).0.Activated? {
      EmptyFingerprintIsNotIdempotent(p, s, call);
    }
  }

  // ----- an empty fingerprint, concretely

  lemma {:induction false} IdsAreBounded(used: set<Id>) returns (n: nat)
    ensures forall id :: id in used ==> |id| < n
  {
    if used == {} {
      n := 0;
    } else {
      var id :| id in used;
      n := IdsAreBounded(used - {id});
      n := if n <= |id| then |id| + 1 else n;
      assert forall x :: x in used ==> x == id || x in used - {id};
    }
  }

  lemma SomeIdIsFree(used: set<Id>)
    ensures exists id: Id :: id !in used
  {
    var n := IdsAreBounded(used);
    var id: Id := seq(n, _ => 'a');
    assert |id| == n && id !in used;
  }

  ghost function FreeId(used: set<Id>): (id: Id)
    ensures id !in used
  {
    SomeIdIsFree(used);
    var id: Id :| id !in used;
    id
  }

  /** A server without limits whose conflicts name no machine: the first activation succeeds, the second fails. */
  lemma EmptyFingerprintExample() returns (p: Policy, s: Store, call: Call)
    ensures PolicyOk(p) && StoreOk(s) && call == Call("L", "", true)
    ensures RunAlone(p, s, call, Creating).0.Activated?
    ensures var s' := RunAlone(p, s, call, Creating).1;
            RunAlone(p, s', call, Creating) == (Failed(None, LookupFailed), s')
  {
    call := Call("L", "", true);
    s := Store([], {});
    p := Policy((a, b) => a == b, false, (rows, l) => None, (rows, l) => ValidationCode.Valid, used => FreeId(used),
                c => false, c => c);
    CreateBranch(p, s, call);
    EmptyFingerprintIsNotIdempotent(p, s, call);
  }

  // ----- the calls

  function Plain(license: Id, fingerprint: string): Call {
    Call(license, fingerprint, false)
  }

  method ActivateMachine(server: Server, license: Id, fingerprint: string) returns (o: Outcome)
    modifies server
    ensures (o, server.store) == RunAlone(server.policy, old(server.store), Plain(license, fingerprint), Creating)
  {
    ghost var p, call := server.policy, Plain(license, fingerprint);
    Unfold(p, server.store, call, Creating);
    var created := server.CreateMachine(license, fingerprint);
    if !created.Created? {
      if created.ApiError? {
        var code := CreateTimeLimit(created.error);
        if code.Some? {
          return OverLimit(None, code.value);
        }
      }
      return Failed(None, ErrorOf(created));
    }
    var machine := created.machine;
    Unfold(p, server.store, call, Validating(machine));
    var validated := server.ValidateLicense(license);
    if !validated.Verdict? {
      return Failed(Some(machine), ErrorOf(validated));
    }
    if IsOverage(validated.code) {
      Unfold(p, server.store, call, RollingBack(machine, validated.code));
      var _ := server.DeleteMachine(machine.id);
      return OverLimit(None, validated.code);
    }
    return Activated(machine, validated.code);
  }

  /** `resolveTakenFingerprint`: the named machine if its fingerprint matches, else the search. */
  method ResolveTakenFingerprint(server: Server, license: Id, fingerprint: string, machineId: Option<Id>)
    returns (r: SearchResult)
    modifies server
    ensures server.store == old(server.store)
    ensures r == Resolved(server.policy, server.store.rows, license, fingerprint, machineId)
  {
    if machineId.Some? {
      var answer := server.GetMachine(machineId.value);
      if answer.Found? && answer.machine.fingerprint == fingerprint {
        return Hit(answer.machine);
      }
      if !answer.Found? && !(answer.ApiError? && answer.error == NotFound) {
        return SearchError(answer);
      }
    }
    r := FindMachineByFingerprint(server, license, fingerprint);
  }

  function Resolved(p: Policy, rows: seq<Row>, license: Id, fingerprint: string, machineId: Option<Id>): SearchResult {
    var named := if machineId.Some? then FindById(rows, machineId.value) else None;
    if named.Some? && named.value.fingerprint == fingerprint then Hit(Seen(named.value))
    else if fingerprint == "" then EmptyFingerprint
    else SearchSpec(p, rows, license, fingerprint)
  }

  /** How a recovery goes on from what the lookup found. */
  function AfterLookup(p: Policy, s: Store, call: Call, r: SearchResult, machineId: Option<Id>): (Outcome, Store) {
    if r.Hit? then RunAlone(p, s, call, Revalidating(r.machine))
    else if r.Miss? then (Failed(None, Api(FingerprintTaken, machineId)), s)
    else (Failed(None, LookupFailed), s)
  }

  lemma RecoveryResolves(p: Policy, s: Store, call: Call, machineId: Option<Id>)
    requires call.idempotent
    ensures var pc := OnApiError(call, None, FingerprintTaken, machineId);
            && Ready(pc)
            && RunAlone(p, s, call, pc)
            == AfterLookup(p, s, call, Resolved(p, s.rows, call.license, call.fingerprint, machineId), machineId)
  {
    if machineId.Some? { Unfold(p, s, call, Looking(machineId.value)); }
    if call.fingerprint != "" { SearchAlone(p, s, call, machineId, 1, SearchEnd(p, s, call, machineId)); }
  }

  /**
   A taken fingerprint: the plain call fails; the idempotent one ends with the machine its lookup resolves to,
   re-validated, or re-raises the conflict, or reports the lookup. No row changes.
   */
  lemma TakenDecides(p: Policy, s: Store, call: Call)
    requires PolicyOk(p) && StoreOk(s) && IsTaken(p, s.rows, call.license, call.fingerprint)
    ensures var (o, s') := RunAlone(p, s, call, Creating);
            var named := NamedConflict(p, s, call);
            var r := Resolved(p, s.rows, call.license, call.fingerprint, named);
            var code := p.verdict(s.rows, call.license);
            && s' == s
            && (!call.idempotent ==> o == Failed(None, Api(FingerprintTaken, named)))
            && (call.idempotent && r.Hit? ==>
                  o == if IsOneOfFive(code) then OverLimit(Some(r.machine), code) else Activated(r.machine, code))
            && (call.idempotent && r.Miss? ==> o == Failed(None, Api(FingerprintTaken, named)))
            && (call.idempotent && r.EmptyFingerprint? ==> o == Failed(None, LookupFailed))
  {
    FindConflictFinds(p, s.rows, call.license, call.fingerprint);
    ConflictBranch(p, s, call);
    if call.idempotent {
      var named := NamedConflict(p, s, call);
      RecoveryResolves(p, s, call, named);
      var r := Resolved(p, s.rows, call.license, call.fingerprint, named);
      if r.Hit? { RevalidationDecides(p, s, call, r.machine); }
    }
  }

  /** Up to a taken fingerprint, the idempotent call is the plain one. */
  lemma IdempotentExtendsPlain(p: Policy, s: Store, license: Id, fingerprint: string)
    requires PolicyOk(p) && StoreOk(s)
    ensures var (o, s') := RunAlone(p, s, Plain(license, fingerprint), Creating);
            var call := Call(license, fingerprint, true);
            if o.Failed? && o.error.Api? && o.error.error == FingerprintTaken then
              var pc := OnApiError(call, None, FingerprintTaken, o.error.machineId);
              s' == s && Ready(pc) && RunAlone(p, s, call, Creating) == RunAlone(p, s, call, pc)
            else RunAlone(p, s, call, Creating) == (o, s')
  {
    var plain, call := Plain(license, fingerprint), Call(license, fingerprint, true);
    if FindConflict(p, s.rows, license, fingerprint).Some? {
      ConflictBranch(p, s, plain);
      ConflictBranch(p, s, call);
    } else if p.createLimit(s.rows, license).Some? {
      LimitBranch(p, s, plain);
      LimitBranch(p, s, call);
    } else {
      CreateBranch(p, s, plain);
      CreateBranch(p, s, call);
    }
  }

  method ActivateMachineIdempotent(server: Server, license: Id, fingerprint: string) returns (o: Outcome)
    requires PolicyOk(server.policy) && StoreOk(server.store)
    modifies server
    ensures (o, server.store) == RunAlone(server.policy, old(server.store), Call(license, fingerprint, true), Creating)
  {
    ghost var p, call, s := server.policy, Call(license, fingerprint, true), server.store;
    o := ActivateMachine(server, license, fingerprint);
    IdempotentExtendsPlain(p, s, license, fingerprint);
    if !(o.Failed? && o.error.Api? && o.error.error == FingerprintTaken) {
      return o;
    }
    RecoveryResolves(p, s, call, o.error.machineId);
    var found := ResolveTakenFingerprint(server, license, fingerprint, o.error.machineId);
    if found.EmptyFingerprint? || found.SearchError? {
      return Failed(None, LookupFailed);
    }
    if found.Miss? {
      return Failed(None, o.error);
    }
    var existing := found.machine;
    Unfold(p, s, call, Revalidating(existing));
    var validated := server.ValidateLicense(license);
    if !validated.Verdict? {
      return Failed(Some(existing), ErrorOf(validated));
    }
    if IsOverage(validated.code) {
      return OverLimit(Some(existing), validated.code);
    }
    return Activated(existing, validated.code);
  }
}
