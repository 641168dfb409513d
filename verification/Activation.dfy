/**
 ActivateMachine and ActivateMachineIdempotent (machine.go, machine_read.go) as a protocol: one
 call is a machine that sends a request, receives an answer and moves on. The module says what
 holds whatever the server answers, then what holds against a well-behaved server left alone.
 */
module Activation {
  import opened Wrappers
  import opened MachineServer
  import opened MachineSearch

  datatype Call = Call(license: Id, fingerprint: string, idempotent: bool)

  datatype ClientError =
    | Api(error: ErrorCode, machineId: Option<Id>)
    | Transport
    | LookupFailed

  /** `OverLimit` is an error matching ErrMachineOverLimit; its code is the returned meta's. */
  datatype Outcome =
    | Activated(machine: Machine, code: ValidationCode)
    | OverLimit(kept: Option<Machine>, code: ValidationCode)
    | Failed(kept: Option<Machine>, error: ClientError)

  /** The error a call reports for an answer that is not a success. */
  function ErrorOf(answer: Answer): ClientError {
    match answer
    case ApiError(e, id) => Api(e, id)
    case _ => Transport
  }

  /** Where a call stands. `conflict` is the machine id the refused create named. */
  datatype Pc =
    | Creating
    | Validating(machine: Machine)
    | RollingBack(machine: Machine, code: ValidationCode)
    | Looking(id: Id)
    | Searching(conflict: Option<Id>, page: int)
    | Revalidating(machine: Machine)
    | Done(outcome: Outcome)

  // ----- the two code tables

  /** `isOverageCode`. */
  predicate IsOverage(code: ValidationCode) {
    code.TooManyMachines? || code.TooManyCores? || code.TooMuchMemory? || code.TooMuchDisk? || code.TooManyProcesses?
  }

  /** `createTimeLimitCode`. */
  function CreateTimeLimit(error: ErrorCode): Option<ValidationCode> {
    match error
    case MachineLimitExceeded => Some(TooManyMachines)
    case CoreLimitExceeded => Some(TooManyCores)
    case MemoryLimitExceeded => Some(TooMuchMemory)
    case DiskLimitExceeded => Some(TooMuchDisk)
    case _ => None
  }

  // ----- one call, step by step

  function RequestOf(call: Call, pc: Pc): Request
    requires !pc.Done?
  {
    match pc
    case Creating => Create(call.license, call.fingerprint)
    case Validating(_) => Validate(call.license)
    case RollingBack(m, _) => Delete(m.id)
    case Looking(id) => Get(id)
    case Searching(_, page) => List(call.license, call.fingerprint, page)
    case Revalidating(_) => Validate(call.license)
  }

  /** FindMachineByFingerprint refuses an empty fingerprint before sending anything. */
  function StartSearch(call: Call, conflict: Option<Id>): Pc {
    if call.fingerprint == "" then Done(Failed(None, LookupFailed)) else Searching(conflict, 1)
  }

  /** An error from ActivateMachine: recovered from when it is FINGERPRINT_TAKEN and the call is idempotent. */
  function OnApiError(call: Call, kept: Option<Machine>, error: ErrorCode, machineId: Option<Id>): Pc {
    if call.idempotent && error == FingerprintTaken then
      (match machineId case Some(id) => Looking(id) case None => StartSearch(call, None))
    else Done(Failed(kept, Api(error, machineId)))
  }

  function Advance(call: Call, pc: Pc, answer: Answer): Pc
    requires !pc.Done?
  {
    match pc
    case Creating =>
      (match answer
       case Created(m) => Validating(m)
       case ApiError(e, id) =>
         if CreateTimeLimit(e).Some? then Done(OverLimit(None, CreateTimeLimit(e).value))
         else OnApiError(call, None, e, id)
       case _ => Done(Failed(None, Transport)))
    case Validating(m) =>
      (match answer
       case Verdict(code) => if IsOverage(code) then RollingBack(m, code) else Done(Activated(m, code))
       case ApiError(e, id) => OnApiError(call, Some(m), e, id)
       case _ => Done(Failed(Some(m), Transport)))
    case RollingBack(_, code) => Done(OverLimit(None, code))
    case Looking(id) =>
      (match answer
       case Found(m) => if m.fingerprint == call.fingerprint then Revalidating(m) else StartSearch(call, Some(id))
       case ApiError(NotFound, _) => StartSearch(call, Some(id))
       case _ => Done(Failed(None, LookupFailed)))
    case Searching(conflict, _) =>
      (match answer
       case Page(items, number, size, totalPages) =>
         if FirstMatch(items, call.fingerprint).Some? then Revalidating(FirstMatch(items, call.fingerprint).value)
         else if number >= totalPages || items == [] || number * size > MAX_OFFSET then
           Done(Failed(None, Api(FingerprintTaken, conflict)))
         else Searching(conflict, number + 1)
       case _ => Done(Failed(None, LookupFailed)))
    case Revalidating(m) =>
      (match answer
       case Verdict(code) => Done(if IsOverage(code) then OverLimit(Some(m), code) else Activated(m, code))
       case _ => Done(Failed(Some(m), ErrorOf(answer))))
  }

  /** Where a call stands after these answers; answers past its end are not consumed. */
  function Drive(call: Call, answers: seq<Answer>): Pc {
    if answers == [] then Creating
    else
      var pc := Drive(call, answers[..|answers| - 1]);
      if pc.Done? then pc else Advance(call, pc, answers[|answers| - 1])
  }

  // ----- whatever the server answers

  ghost predicate IsCreated(answers: seq<Answer>, m: Machine) {
    answers != [] && answers[0] == Created(m)
  }

  /** The machine was recovered, not created: found by an idempotent call, under the requested fingerprint. */
  ghost predicate IsRecovered(call: Call, m: Machine) {
    call.idempotent && m.fingerprint == call.fingerprint
  }

  /** The invariant of a single call under arbitrary answers. */
  ghost predicate PcOk(call: Call, answers: seq<Answer>, pc: Pc) {
    match pc
    case Creating => answers == []
    case Validating(m) => IsCreated(answers, m)
    case RollingBack(m, code) => IsCreated(answers, m) && IsOverage(code)
    case Looking(_) => answers != [] && call.idempotent
    case Searching(_, _) => answers != [] && call.idempotent && call.fingerprint != ""
    case Revalidating(m) => answers != [] && IsRecovered(call, m)
    case Done(Activated(m, code)) =>
      answers != [] && !IsOverage(code) && (IsCreated(answers, m) || IsRecovered(call, m))
    case Done(OverLimit(kept, code)) =>
      answers != [] && IsOverage(code) && (kept.Some? ==> IsRecovered(call, kept.value))
    case Done(Failed(kept, _)) =>
      answers != [] && (kept.Some? ==> IsCreated(answers, kept.value) || IsRecovered(call, kept.value))
  }

  lemma AdvanceKeepsPcOk(call: Call, answers: seq<Answer>, pc: Pc, answer: Answer)
    requires PcOk(call, answers, pc) && !pc.Done?
    ensures PcOk(call, answers + [answer], Advance(call, pc, answer))
  {
    assert answers != [] ==> (answers + [answer])[0] == answers[0];
  }

  lemma {:induction false} DriveIsOk(call: Call, answers: seq<Answer>)
    ensures PcOk(call, answers, Drive(call, answers))
  {
    if answers != [] {
      var init := answers[..|answers| - 1];
      DriveIsOk(call, init);
      var pc := Drive(call, init);
      assert answers == init + [answers[|answers| - 1]];
      if !pc.Done? { AdvanceKeepsPcOk(call, init, pc, answers[|answers| - 1]); }
    }
  }

  /** Whatever the server answers, the only row a call ever asks to delete is the one its own create returned. */
  lemma DeletesOnlyWhatItCreated(call: Call, answers: seq<Answer>, id: Id)
    requires var pc := Drive(call, answers); !pc.Done? && RequestOf(call, pc) == Delete(id)
    ensures answers != [] && answers[0].Created? && answers[0].machine.id == id
  {
    DriveIsOk(call, answers);
  }

  /** Whatever the server answers, a machine handed back by 409 recovery has exactly the requested fingerprint. */
  lemma RecoveredMachineHasTheFingerprint(call: Call, answers: seq<Answer>, m: Machine)
    requires var pc := Drive(call, answers);
             pc.Done? && (match pc.outcome
                          case Activated(x, _) => x == m
                          case OverLimit(kept, _) => kept == Some(m)
                          case Failed(kept, _) => kept == Some(m))
    requires !IsCreated(answers, m)
    ensures call.idempotent && m.fingerprint == call.fingerprint
  {
    DriveIsOk(call, answers);
  }

  /**
   Whatever the server answers: an over-limit error carries one of the five overage codes whichever step raised
   it, a success none of them, and a plain ActivateMachine that is over limit hands back no machine.
   */
  lemma OverLimitCodes(call: Call, answers: seq<Answer>)
    ensures var pc, five := Drive(call, answers), {TooManyMachines, TooManyCores, TooMuchMemory, TooMuchDisk,
                                                   TooManyProcesses};
            pc.Done? ==> match pc.outcome
                         case OverLimit(kept, code) => code in five && (!call.idempotent ==> kept.None?)
                         case Activated(_, code) => code !in five
                         case Failed(_, _) => true
  {
    DriveIsOk(call, answers);
  }

  /** An answer that settles nothing: an error, or no answer at all. */
  predicate IsFailure(answer: Answer) {
    answer.ApiError? || answer.TransportError?
  }

  lemma DriveStep(call: Call, answers: seq<Answer>, answer: Answer)
    requires !Drive(call, answers).Done?
    ensures Drive(call, answers + [answer]) == Advance(call, Drive(call, answers), answer)
  {
    var all := answers + [answer];
    assert all[..|all| - 1] == answers;
  }

  /**
   What a plain activation makes of trouble: a failed create leaves no machine; a failed validation keeps the
   machine it created, rolling nothing back; a failed rollback is still reported as over limit.
   */
  lemma PlainTroubles(call: Call, m: Machine, failure: Answer, code: ValidationCode)
    requires !call.idempotent && IsFailure(failure)
    requires code in {TooManyMachines, TooManyCores, TooMuchMemory, TooMuchDisk, TooManyProcesses}
    ensures failure.TransportError? ==> Drive(call, [failure]) == Done(Failed(None, Transport))
    ensures Drive(call, [Created(m), failure]) == Done(Failed(Some(m), ErrorOf(failure)))
    ensures Drive(call, [Created(m), Verdict(code), failure]) == Done(OverLimit(None, code))
  {
    DriveStep(call, [], failure);
    DriveStep(call, [], Created(m));
    assert [] + [failure] == [failure] && [] + [Created(m)] == [Created(m)];
    DriveStep(call, [Created(m)], failure);
    DriveStep(call, [Created(m)], Verdict(code));
    assert [Created(m)] + [failure] == [Created(m), failure];
    assert [Created(m)] + [Verdict(code)] == [Created(m), Verdict(code)];
    DriveStep(call, [Created(m), Verdict(code)], failure);
    assert [Created(m), Verdict(code)] + [failure] == [Created(m), Verdict(code), failure];
  }

  /**
   What the recovery makes of it: a machine that is gone, or is not the one asked for, falls back to the search;
   any other failed lookup ends the call with no machine; a failed re-validation keeps the recovered one.
   */
  lemma RecoveryTroubles(call: Call, id: Id, other: Machine, found: Machine, failure: Answer)
    requires call.idempotent && call.fingerprint != "" && IsFailure(failure)
    requires other.fingerprint != call.fingerprint && found.fingerprint == call.fingerprint
    ensures var taken := ApiError(FingerprintTaken, Some(id));
            && Drive(call, [taken, ApiError(NotFound, None)]) == Searching(Some(id), 1)
            && Drive(call, [taken, Found(other)]) == Searching(Some(id), 1)
            && (failure.TransportError? || failure.error != NotFound ==>
                  Drive(call, [taken, failure]) == Done(Failed(None, LookupFailed)))
            && Drive(call, [taken, ApiError(NotFound, None), failure]) == Done(Failed(None, LookupFailed))
            && Drive(call, [taken, Found(found), failure]) == Done(Failed(Some(found), ErrorOf(failure)))
  {
    var taken, gone := ApiError(FingerprintTaken, Some(id)), ApiError(NotFound, None);
    DriveStep(call, [], taken);
    assert [] + [taken] == [taken];
    DriveStep(call, [taken], gone);
    DriveStep(call, [taken], Found(other));
    DriveStep(call, [taken], failure);
    DriveStep(call, [taken], Found(found));
    assert [taken] + [gone] == [taken, gone] && [taken] + [Found(other)] == [taken, Found(other)];
    assert [taken] + [failure] == [taken, failure] && [taken] + [Found(found)] == [taken, Found(found)];
    DriveStep(call, [taken, gone], failure);
    DriveStep(call, [taken, Found(found)], failure);
    assert [taken, gone] + [failure] == [taken, gone, failure];
    assert [taken, Found(found)] + [failure] == [taken, Found(found), failure];
  }

  // ----- alone with a well-behaved server

  ghost predicate Ready(pc: Pc) {
    pc.Searching? ==> 1 <= pc.page <= MAX_PAGES
  }

  function Rank(pc: Pc): nat {
    match pc
    case Creating => 6
    case Validating(_) => 5
    case RollingBack(_, _) => 4
    case Looking(_) => 3
    case Searching(_, _) => 2
    case Revalidating(_) => 1
    case Done(_) => 0
  }

  /** One exchange with the server. */
  function StepAlone(p: Policy, s: Store, call: Call, pc: Pc): (Pc, Store)
    requires !pc.Done?
  {
    var (answer, s') := Respond(p, s, RequestOf(call, pc));
    (Advance(call, pc, answer), s')
  }

  ghost predicate Progresses(before: Pc, after: Pc) {
    Rank(after) < Rank(before)
    || (before.Searching? && after.Searching? && after.page == before.page + 1 <= MAX_PAGES)
  }

  lemma SearchProgresses(p: Policy, s: Store, call: Call, pc: Pc)
    requires pc.Searching? && Ready(pc)
    ensures Ready(StepAlone(p, s, call, pc).0) && Progresses(pc, StepAlone(p, s, call, pc).0)
  {
    var all := Matching(p, s.rows, call.license, call.fingerprint);
    var answer := Page(SeenAll(PageItems(all, pc.page)), pc.page, PAGE_SIZE, TotalPages(|all|));
    assert StepAlone(p, s, call, pc).0 == Advance(call, pc, answer);
  }

  lemma StepProgresses(p: Policy, s: Store, call: Call, pc: Pc)
    requires !pc.Done? && Ready(pc)
    ensures Ready(StepAlone(p, s, call, pc).0) && Progresses(pc, StepAlone(p, s, call, pc).0)
  {
    if pc.Searching? { SearchProgresses(p, s, call, pc); }
  }

  /** The whole rest of a call when no one else touches the rows: its outcome and the rows it leaves. */
  function RunAlone(p: Policy, s: Store, call: Call, pc: Pc): (Outcome, Store)
    requires Ready(pc)
    decreases Rank(pc), if pc.Searching? then MAX_PAGES - pc.page else 0
  {
    if pc.Done? then (pc.outcome, s)
    else
      StepProgresses(p, s, call, pc);
      var (next, s') := StepAlone(p, s, call, pc);
      RunAlone(p, s', call, next)
  }

  /** What a search that is left alone comes to: its first reachable exact match, or the conflict re-raised. */
  function SearchEnd(p: Policy, s: Store, call: Call, conflict: Option<Id>): Pc {
    var r := SearchSpec(p, s.rows, call.license, call.fingerprint);
    if r.Hit? then Revalidating(r.machine) else Done(Failed(None, Api(FingerprintTaken, conflict)))
  }

  ghost predicate NotYetFound(p: Policy, s: Store, call: Call, page: int) {
    1 <= page <= MAX_PAGES && NoneBefore(Matching(p, s.rows, call.license, call.fingerprint), call.fingerprint, page)
  }

  // One page of the listing ends a search, or takes it to the next page.
  lemma PageSettles(p: Policy, s: Store, call: Call, conflict: Option<Id>, page: int) returns (next: Pc)
    requires NotYetFound(p, s, call, page)
    ensures StepAlone(p, s, call, Searching(conflict, page)) == (next, s)
    ensures next == SearchEnd(p, s, call, conflict)
         || (next == Searching(conflict, page + 1) && NotYetFound(p, s, call, page + 1))
  {
    hide FirstMatchFrom, FirstExactFrom, Matching, PageItems, MatchesQuery;
    var all := Matching(p, s.rows, call.license, call.fingerprint);
    next := Advance(call, Searching(conflict, page),
                    Page(SeenAll(PageItems(all, page)), page, PAGE_SIZE, TotalPages(|all|)));
    var i := FirstExact(all, call.fingerprint);
    if i < |all| && i < PAGE_SIZE * page {
      PageHits(all, call.fingerprint, page);
    } else {
      PageMisses(all, call.fingerprint, page);
    }
  }

  lemma Unfold(p: Policy, s: Store, call: Call, pc: Pc)
    requires !pc.Done? && Ready(pc)
    ensures Ready(StepAlone(p, s, call, pc).0)
    ensures RunAlone(p, s, call, pc) == RunAlone(p, StepAlone(p, s, call, pc).1, call, StepAlone(p, s, call, pc).0)
  {
    StepProgresses(p, s, call, pc);
  }

  lemma SearchStep(p: Policy, s: Store, call: Call, conflict: Option<Id>, page: int) returns (next: Pc)
    requires NotYetFound(p, s, call, page)
    ensures Ready(next) && RunAlone(p, s, call, Searching(conflict, page)) == RunAlone(p, s, call, next)
    ensures next == SearchEnd(p, s, call, conflict)
         || (next == Searching(conflict, page + 1) && NotYetFound(p, s, call, page + 1))
  {
    next := PageSettles(p, s, call, conflict, page);
    Unfold(p, s, call, Searching(conflict, page));
  }

  lemma {:induction false} SearchAlone(p: Policy, s: Store, call: Call, conflict: Option<Id>, page: int, end: Pc)
    requires NotYetFound(p, s, call, page) && end == SearchEnd(p, s, call, conflict)
    ensures Ready(end) && RunAlone(p, s, call, Searching(conflict, page)) == RunAlone(p, s, call, end)
    decreases MAX_PAGES - page
  {
    hide RunAlone, StepAlone, SearchEnd;
    var next := SearchStep(p, s, call, conflict, page);
    if next != end {
      SearchAlone(p, s, call, conflict, page + 1, end);
    }
  }
}
