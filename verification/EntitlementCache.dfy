/**
 The entitlement cache behind HasEntitlement (entitlement.go): a locked read, an unlocked fetch and
 a locked store, racing with one another and with InvalidateEntitlementCache.
 */
module EntitlementCache {
  import opened Wrappers

  type License = string
  type Code = string

  /** Nanoseconds on the monotonic clock. */
  type Time = int

  const TTL: Time := 60_000_000_000

  datatype Entry = Entry(codes: set<Code>, fetchedAt: Time)

  type Entries = map<License, Entry>

  // ----- the page a fetch asks for

  const SERVER_MAX_PAGE: int := 100

  function EffectivePageLimit(limit: int): int {
    if limit > 0 then limit else SERVER_MAX_PAGE
  }

  /** The server's clamp of a requested limit. */
  function Clamped(limit: int): int {
    if limit < 1 then 1 else if limit > SERVER_MAX_PAGE then SERVER_MAX_PAGE else limit
  }

  ghost function SetOf(list: seq<Code>): set<Code> {
    set c | c in list
  }

  /**
   An answer to ListEntitlements: some of the entitlements the license holds, each once, and as many
   as fit the one page the route has.
   */
  ghost predicate IsListing(list: seq<Code>, held: set<Code>) {
    && (forall i :: 0 <= i < |list| ==> list[i] in held)
    && (forall i, j :: 0 <= i < j < |list| ==> list[i] != list[j])
    && |list| == if |held| <= Clamped(EffectivePageLimit(SERVER_MAX_PAGE)) then |held|
                 else Clamped(EffectivePageLimit(SERVER_MAX_PAGE))
  }

  lemma {:induction false} DistinctSize(list: seq<Code>)
    requires forall i, j :: 0 <= i < j < |list| ==> list[i] != list[j]
    ensures |SetOf(list)| == |list|
  {
    if list != [] {
      var init := list[..|list| - 1];
      DistinctSize(init);
      assert SetOf(list) == SetOf(init) + {list[|list| - 1]};
    }
  }

  /** `true` is right for the snapshot; `false` is right when the license holds at most 100 entitlements. */
  lemma ListingIsFaithful(list: seq<Code>, held: set<Code>, code: Code)
    requires IsListing(list, held)
    ensures code in list ==> code in held
    ensures |held| <= 100 ==> (code in list <==> code in held)
  {
    if |held| <= 100 {
      DistinctSize(list);
      assert SetOf(list) <= held;
      SubsetOfSameSize(SetOf(list), held);
    }
  }

  lemma {:induction false} SubsetOfSameSize(a: set<Code>, b: set<Code>)
    requires a <= b && |a| == |b|
    ensures a == b
  {
    assert b == a + (b - a) && |b| == |a| + |b - a|;
  }

  // ----- the three critical sections

  predicate IsFresh(entries: Entries, license: License, now: Time) {
    license in entries && now - entries[license].fetchedAt < TTL
  }

  /** The cache object; each method is one critical section. */
  class Cache {
    var entries: Entries

    constructor ()
      ensures entries == map[]
    {
      entries := map[];
    }

    method Read(license: License, now: Time) returns (entry: Option<Entry>)
      ensures entry == if license in entries && now - entries[license].fetchedAt < 60_000_000_000
                       then Some(entries[license]) else None
    {
      if license in entries && now - entries[license].fetchedAt < TTL {
        return Some(entries[license]);
      }
      return None;
    }

    method Store(license: License, entry: Entry)
      modifies this
      ensures entries == old(entries)[license := entry]
    {
      entries := entries[license := entry];
    }

    /** InvalidateEntitlementCache. */
    method Invalidate(license: License)
      modifies this
      ensures entries == old(entries) - {license}
    {
      entries := entries - {license};
    }
  }

  method CodesOf(list: seq<Code>) returns (codes: set<Code>)
    ensures codes == SetOf(list)
  {
    codes := {};
    var i := 0;
    while i < |list|
      invariant 0 <= i <= |list|
      invariant codes == SetOf(list[..i])
    {
      assert list[..i + 1] == list[..i] + [list[i]];
      codes := codes + {list[i]};
      i := i + 1;
    }
    assert list[..i] == list;
  }

  /**
   HasEntitlement run without interference: the clock at the read and at the stamp, and what the
   fetch would return, are parameters.
   */
  method HasEntitlement(cache: Cache, license: License, code: Code, now: Time, fetch: Option<seq<Code>>, stamp: Time)
    returns (found: Option<bool>)
    modifies cache
    ensures IsFresh(old(cache.entries), license, now) ==>
              cache.entries == old(cache.entries) && found == Some(code in cache.entries[license].codes)
    ensures !IsFresh(old(cache.entries), license, now) && fetch.None? ==>
              cache.entries == old(cache.entries) && found == None
    ensures !IsFresh(old(cache.entries), license, now) && fetch.Some? ==>
              cache.entries == old(cache.entries)[license := Entry(SetOf(fetch.value), stamp)]
              && found == Some(code in fetch.value)
  {
    var entry := cache.Read(license, now);
    if entry.None? {
      if fetch.None? {
        return None;
      }
      var codes := CodesOf(fetch.value);
      entry := Some(Entry(codes, stamp));
      cache.Store(license, entry.value);
    }
    return Some(code in entry.value.codes);
  }

  // ----- interleavings

  type CallId = nat

  /** A response of the server: to which call, for which license, when, and what the license held then. */
  datatype Served = Served(caller: CallId, license: License, list: seq<Code>, held: set<Code>, at: Time)

  /** Where a HasEntitlement call stands. `Answered` remembers the clock at the read when the cache answered. */
  datatype Pc =
    | Starting
    | Fetching
    | Received(response: nat)
    | Storing(entry: Entry)
    | Answered(found: bool, readAt: Option<Time>)
    | Failed

  datatype Call = Call(license: License, code: Code, pc: Pc)

  datatype World = World(now: Time, entries: Entries, calls: map<CallId, Call>, served: seq<Served>)

  datatype Event =
    | Tick(to: Time)
    | Begin(c: CallId, license: License, code: Code)
    | Read(c: CallId)
    | Respond(c: CallId, list: seq<Code>, held: set<Code>)
    | FetchFails(c: CallId)
    | Stamp(c: CallId)
    | Store(c: CallId)
    | Invalidate(license: License)

  ghost predicate At(w: World, c: CallId, pc: Pc) {
    c in w.calls && w.calls[c].pc == pc
  }

  function Move(w: World, c: CallId, pc: Pc): World
    requires c in w.calls
  {
    w.(calls := w.calls[c := w.calls[c].(pc := pc)])
  }

  ghost predicate Next(w: World, e: Event, w': World) {
    match e
    case Tick(to) => w.now <= to && w' == w.(now := to)
    case Begin(c, license, code) =>
      c !in w.calls && w' == w.(calls := w.calls[c := Call(license, code, Starting)])
    case Read(c) =>
      && At(w, c, Starting)
      && var call := w.calls[c];
         w' == Move(w, c, if IsFresh(w.entries, call.license, w.now)
                          then Answered(call.code in w.entries[call.license].codes, Some(w.now)) else Fetching)
    case Respond(c, list, held) =>
      && At(w, c, Fetching)
      && w' == Move(w, c, Received(|w.served|))
               .(served := w.served + [Served(c, w.calls[c].license, list, held, w.now)])
    case FetchFails(c) => At(w, c, Fetching) && w' == Move(w, c, Failed)
    case Stamp(c) =>
      && c in w.calls && w.calls[c].pc.Received? && w.calls[c].pc.response < |w.served|
      && w' == Move(w, c, Storing(Entry(SetOf(w.served[w.calls[c].pc.response].list), w.now)))
    case Store(c) =>
      && c in w.calls && w.calls[c].pc.Storing?
      && var call := w.calls[c];
         w' == Move(w, c, Answered(call.code in call.pc.entry.codes, None))
               .(entries := w.entries[call.license := call.pc.entry])
    case Invalidate(license) => w' == w.(entries := w.entries - {license})
  }

  /** `worlds[i]` becomes `worlds[i + 1]` by `events[i]`. */
  ghost predicate IsPath(worlds: seq<World>, events: seq<Event>) {
    && |worlds| == |events| + 1
    && forall i :: 0 <= i < |events| ==> Next(worlds[i], events[i], worlds[i + 1])
  }

  ghost predicate IsRun(worlds: seq<World>, events: seq<Event>) {
    IsPath(worlds, events) && worlds[0].entries == map[] && worlds[0].calls == map[] && worlds[0].served == []
  }

  // ----- where an answer comes from

  /** `entry` is response `k`, for this license, stamped no earlier than the server answered. */
  ghost predicate Backs(served: seq<Served>, k: nat, license: License, entry: Entry) {
    && k < |served| && served[k].license == license
    && entry.codes == SetOf(served[k].list) && served[k].at <= entry.fetchedAt
  }

  ghost predicate Backed(w: World, license: License, entry: Entry) {
    entry.fetchedAt <= w.now && exists k: nat :: Backs(w.served, k, license, entry)
  }

  /**
   The answer is membership in a response for this license: this call's own, or one stamped under 60 s before
   the read.
   */
  ghost predicate Justified(w: World, c: CallId, call: Call, found: bool, readAt: Option<Time>, k: nat) {
    && k < |w.served| && w.served[k].license == call.license
    && (found <==> call.code in w.served[k].list)
    && match readAt
       case None => w.served[k].caller == c
       case Some(t) => exists entry :: Backs(w.served, k, call.license, entry)
                                       && entry.fetchedAt <= t && t - entry.fetchedAt < TTL
  }

  ghost predicate CallOk(w: World, c: CallId, call: Call) {
    match call.pc
    case Received(k) => k < |w.served| && w.served[k].license == call.license && w.served[k].caller == c
                        && w.served[k].at <= w.now
    case Storing(entry) => entry.fetchedAt <= w.now
                           && exists k: nat :: Backs(w.served, k, call.license, entry) && w.served[k].caller == c
    case Answered(found, readAt) => exists k: nat :: Justified(w, c, call, found, readAt, k)
    case _ => true
  }

  ghost predicate Inv(w: World) {
    && (forall l :: l in w.entries ==> Backed(w, l, w.entries[l]))
    && (forall c :: c in w.calls ==> CallOk(w, c, w.calls[c]))
  }

  ghost predicate Later(w: World, w': World) {
    w.now <= w'.now && w.served <= w'.served
  }

  lemma BackedIsStable(w: World, w': World, license: License, entry: Entry)
    requires Later(w, w') && Backed(w, license, entry)
    ensures Backed(w', license, entry)
  {
    var k: nat :| Backs(w.served, k, license, entry);
    assert Backs(w'.served, k, license, entry);
  }

  lemma CallOkIsStable(w: World, w': World, c: CallId, call: Call)
    requires Later(w, w') && CallOk(w, c, call)
    ensures CallOk(w', c, call)
  {
    match call.pc
    case Storing(entry) =>
      var k: nat :| Backs(w.served, k, call.license, entry) && w.served[k].caller == c;
      assert Backs(w'.served, k, call.license, entry);
    case Answered(found, readAt) =>
      var k: nat :| Justified(w, c, call, found, readAt, k);
      if readAt.Some? {
        var entry :| Backs(w.served, k, call.license, entry)
                     && entry.fetchedAt <= readAt.value && readAt.value - entry.fetchedAt < TTL;
        assert Backs(w'.served, k, call.license, entry);
      }
      assert Justified(w', c, call, found, readAt, k);
    case _ =>
  }

  // The call that moved is still accounted for.
  lemma MovedCallIsOk(w: World, e: Event, w': World)
    requires Inv(w) && Next(w, e, w') && Later(w, w')
    requires e.Read? || e.Respond? || e.FetchFails? || e.Stamp? || e.Store?
    ensures CallOk(w', e.c, w'.calls[e.c])
  {
    var call, call' := w.calls[e.c], w'.calls[e.c];
    assert CallOk(w, e.c, call);
    match e
    case Read(c) =>
      if call'.pc.Answered? {
        var entry := w.entries[call.license];
        assert Backed(w, call.license, entry);
        var k: nat :| Backs(w.served, k, call.license, entry);
        assert Justified(w', c, call', call'.pc.found, call'.pc.readAt, k);
      }
    case Stamp(c) =>
      assert Backs(w'.served, call.pc.response, call.license, call'.pc.entry);
    case Store(c) =>
      var k: nat :| Backs(w.served, k, call.license, call.pc.entry) && w.served[k].caller == c;
      assert Justified(w', c, call', call'.pc.found, None, k);
    case _ =>
  }

  lemma StoredEntryIsBacked(w: World, e: Event, w': World)
    requires Inv(w) && e.Store? && Next(w, e, w')
    ensures Backed(w', w.calls[e.c].license, w.calls[e.c].pc.entry)
  {
    var call := w.calls[e.c];
    assert CallOk(w, e.c, call);
    var k: nat :| Backs(w.served, k, call.license, call.pc.entry) && w.served[k].caller == e.c;
  }

  lemma NextKeepsInv(w: World, e: Event, w': World)
    requires Inv(w) && Next(w, e, w')
    ensures Inv(w')
  {
    assert Later(w, w');
    forall l | l in w'.entries ensures Backed(w', l, w'.entries[l]) {
      if e.Store? && l == w.calls[e.c].license {
        StoredEntryIsBacked(w, e, w');
      } else {
        BackedIsStable(w, w', l, w.entries[l]);
      }
    }
    forall c | c in w'.calls ensures CallOk(w', c, w'.calls[c]) {
      if c in w.calls && w'.calls[c] == w.calls[c] {
        CallOkIsStable(w, w', c, w.calls[c]);
      } else if !e.Begin? {
        MovedCallIsOk(w, e, w');
      }
    }
  }

  lemma {:induction false} RunKeepsInv(worlds: seq<World>, events: seq<Event>, i: nat)
    requires IsRun(worlds, events) && i < |worlds|
    ensures Inv(worlds[i])
  {
    if i > 0 {
      RunKeepsInv(worlds, events, i - 1);
      NextKeepsInv(worlds[i - 1], events[i - 1], worlds[i]);
    }
  }

  /**
   In every interleaving, and whatever the server returns, an answer is membership in a list it returned for
   that license, fetched by this very call or stamped less than 60 s before the read. If that list was a listing
   of what the license held, the answer is right about it: always when `true`, and when `false` up to 100
   entitlements.
   */
  lemma AnswersAreJustified(worlds: seq<World>, events: seq<Event>, i: nat, c: CallId) returns (k: nat)
    requires IsRun(worlds, events) && i < |worlds|
    requires c in worlds[i].calls && worlds[i].calls[c].pc.Answered?
    ensures var w, call := worlds[i], worlds[i].calls[c];
            && Justified(w, c, call, call.pc.found, call.pc.readAt, k)
            && (IsListing(w.served[k].list, w.served[k].held) ==>
                  && (call.pc.found ==> call.code in w.served[k].held)
                  && (|w.served[k].held| <= 100 ==> (call.pc.found <==> call.code in w.served[k].held)))
  {
    RunKeepsInv(worlds, events, i);
    var w, call := worlds[i], worlds[i].calls[c];
    assert CallOk(w, c, call);
    k :| Justified(w, c, call, call.pc.found, call.pc.readAt, k);
    if IsListing(w.served[k].list, w.served[k].held) {
      ListingIsFaithful(w.served[k].list, w.served[k].held, call.code);
    }
  }

  // ----- invalidation

  /** The call can still put a fresh entry for this license in the cache without reading it. */
  ghost predicate CallCanWarm(call: Call, license: License, now: Time) {
    call.license == license
    && match call.pc
       case Fetching => true
       case Received(_) => true
       case Storing(entry) => now - entry.fetchedAt < TTL
       case _ => false
  }

  ghost predicate CanWarm(w: World, license: License) {
    exists c :: c in w.calls && CallCanWarm(w.calls[c], license, w.now)
  }

  ghost predicate ReadsFor(w: World, e: Event, license: License) {
    e.Read? && e.c in w.calls && w.calls[e.c].license == license
  }

  /** The first read of this license on the path is its last event, and the cache answers it. */
  ghost predicate FirstReadHits(worlds: seq<World>, events: seq<Event>, license: License) {
    && IsPath(worlds, events) && events != []
    && (forall n :: 0 <= n < |events| - 1 ==> !ReadsFor(worlds[n], events[n], license))
    && ReadsFor(worlds[|events| - 1], events[|events| - 1], license)
    && worlds[|events|].calls[events[|events| - 1].c].pc.Answered?
  }

  /** Some way on from this world, the next call for this license is answered without a fetch. */
  ghost predicate NextReadMayHit(w: World, license: License) {
    exists worlds, events :: FirstReadHits(worlds, events, license) && worlds[0] == w
  }

  /** Nothing cached is fresh, and nothing under way can change that. */
  ghost predicate Cold(w: World, license: License) {
    !IsFresh(w.entries, license, w.now) && !CanWarm(w, license)
  }

  lemma ColdStaysCold(w: World, e: Event, w': World, license: License)
    requires Cold(w, license) && Next(w, e, w') && !ReadsFor(w, e, license)
    ensures Cold(w', license)
  {
    forall c | c in w'.calls ensures !CallCanWarm(w'.calls[c], license, w'.now) {
      if c in w.calls { assert !CallCanWarm(w.calls[c], license, w.now); }
    }
    if e.Store? { assert !CallCanWarm(w.calls[e.c], license, w.now); }
  }

  lemma {:induction false} ColdUntilRead(worlds: seq<World>, events: seq<Event>, license: License, j: nat)
    requires IsPath(worlds, events) && j <= |events| && Cold(worlds[0], license)
    requires forall n :: 0 <= n < j ==> !ReadsFor(worlds[n], events[n], license)
    ensures Cold(worlds[j], license)
  {
    if j > 0 {
      ColdUntilRead(worlds, events, license, j - 1);
      ColdStaysCold(worlds[j - 1], events[j - 1], worlds[j], license);
    }
  }

  /** From a cold world the first read of the license fetches, whatever else happens in between. */
  lemma FirstReadFromColdFetches(worlds: seq<World>, events: seq<Event>, license: License)
    requires IsPath(worlds, events) && events != [] && Cold(worlds[0], license)
    requires forall n :: 0 <= n < |events| - 1 ==> !ReadsFor(worlds[n], events[n], license)
    requires ReadsFor(worlds[|events| - 1], events[|events| - 1], license)
    ensures worlds[|events|].calls[events[|events| - 1].c].pc == Fetching
  {
    var j := |events| - 1;
    ColdUntilRead(worlds, events, license, j);
    assert Next(worlds[j], events[j], worlds[j + 1]);
  }

  // ----- the other half: from a world that can warm, a path to a read the cache answers

  lemma {:induction false} CallIdsAreBounded(ids: set<CallId>) returns (n: CallId)
    ensures forall c :: c in ids ==> c < n
  {
    if ids == {} {
      n := 0;
    } else {
      var c :| c in ids;
      n := CallIdsAreBounded(ids - {c});
      n := if n <= c then c + 1 else n;
      assert forall d :: d in ids ==> d == c || d in ids - {c};
    }
  }

  lemma PrependPath(w: World, e: Event, worlds: seq<World>, events: seq<Event>)
    requires IsPath(worlds, events) && Next(w, e, worlds[0])
    ensures IsPath([w] + worlds, [e] + events)
  {
    hide Next;
    var ws, es := [w] + worlds, [e] + events;
    assert forall i :: 0 <= i < |worlds| ==> ws[i + 1] == worlds[i];
    assert forall i :: 0 <= i < |events| ==> es[i + 1] == events[i];
    forall i | 0 <= i < |es| ensures Next(ws[i], es[i], ws[i + 1]) {
      if i > 0 { assert Next(worlds[i - 1], events[i - 1], worlds[i]); }
    }
  }

  lemma PrependQuiet(w: World, e: Event, worlds: seq<World>, events: seq<Event>, license: License)
    requires |worlds| == |events| + 1 && events != [] && !e.Read?
    requires forall n :: 0 <= n < |events| - 1 ==> !ReadsFor(worlds[n], events[n], license)
    ensures forall n :: 0 <= n < |events| ==> !ReadsFor(([w] + worlds)[n], ([e] + events)[n], license)
  {
    var ws, es := [w] + worlds, [e] + events;
    forall n | 0 <= n < |events| ensures !ReadsFor(ws[n], es[n], license) {
      if n > 0 {
        hide ReadsFor;
        assert ws[n] == worlds[n - 1] && es[n] == events[n - 1];
        assert !ReadsFor(worlds[n - 1], events[n - 1], license);
      }
    }
  }

  lemma Prepend(w: World, e: Event, worlds: seq<World>, events: seq<Event>, license: License)
    requires FirstReadHits(worlds, events, license) && Next(w, e, worlds[0]) && !e.Read?
    ensures FirstReadHits([w] + worlds, [e] + events, license)
  {
    PrependPath(w, e, worlds, events);
    PrependQuiet(w, e, worlds, events, license);
    hide Next;
    var ws, es := [w] + worlds, [e] + events;
    assert es[|events|] == events[|events| - 1] && ws[|events|] == worlds[|events| - 1];
    assert ws[|events| + 1] == worlds[|events|];
  }

  lemma StepTowardsHit(w: World, e: Event, w': World, license: License)
    requires Next(w, e, w') && !e.Read? && NextReadMayHit(w', license)
    ensures NextReadMayHit(w, license)
  {
    var worlds, events :| FirstReadHits(worlds, events, license) && worlds[0] == w';
    Prepend(w, e, worlds, events, license);
    assert ([w] + worlds)[0] == w;
  }

  /** A fresh entry answers the next call. */
  lemma FreshHits(w: World, license: License)
    requires IsFresh(w.entries, license, w.now)
    ensures NextReadMayHit(w, license)
  {
    var c := CallIdsAreBounded(w.calls.Keys);
    var code := "";
    var begun := w.(calls := w.calls[c := Call(license, code, Starting)]);
    var answered := Move(begun, c, Answered(code in w.entries[license].codes, Some(w.now)));
    var worlds, events := [begun, answered], [Read(c)];
    assert Next(begun, Read(c), answered);
    assert FirstReadHits(worlds, events, license);
    StepTowardsHit(w, Begin(c, license, code), begun, license);
  }

  // One step of a call that can warm, until its entry is stored.
  lemma {:induction false} WarmingHits(w: World, license: License, c: CallId)
    requires Inv(w) && c in w.calls && CallCanWarm(w.calls[c], license, w.now)
    ensures NextReadMayHit(w, license)
    decreases match w.calls[c].pc { case Fetching => 2 case Received(_) => 1 case _ => 0 }
  {
    var call := w.calls[c];
    match call.pc
    case Fetching =>
      var w' := Move(w, c, Received(|w.served|)).(served := w.served + [Served(c, license, [], {}, w.now)]);
      NextKeepsInv(w, Respond(c, [], {}), w');
      WarmingHits(w', license, c);
      StepTowardsHit(w, Respond(c, [], {}), w', license);
    case Received(k) =>
      assert CallOk(w, c, call);
      var w' := Move(w, c, Storing(Entry(SetOf(w.served[k].list), w.now)));
      NextKeepsInv(w, Stamp(c), w');
      WarmingHits(w', license, c);
      StepTowardsHit(w, Stamp(c), w', license);
    case Storing(entry) =>
      var w' := Move(w, c, Answered(call.code in entry.codes, None)).(entries := w.entries[license := entry]);
      FreshHits(w', license);
      StepTowardsHit(w, Store(c), w', license);
    case _ =>
  }

  /**
   In every reachable world, the next call for a license may be answered without a fetch exactly when
   its entry is fresh or some call under way can still make it so.
   */
  lemma NextReadMayHitExactly(w: World, license: License)
    requires Inv(w)
    ensures NextReadMayHit(w, license) <==> IsFresh(w.entries, license, w.now) || CanWarm(w, license)
  {
    if IsFresh(w.entries, license, w.now) {
      FreshHits(w, license);
    } else if CanWarm(w, license) {
      var c :| c in w.calls && CallCanWarm(w.calls[c], license, w.now);
      WarmingHits(w, license, c);
    } else {
      forall worlds, events | IsPath(worlds, events) && worlds[0] == w
        ensures !FirstReadHits(worlds, events, license)
      {
        if FirstReadHits(worlds, events, license) { FirstReadFromColdFetches(worlds, events, license); }
      }
    }
  }

  /**
   InvalidateEntitlementCache forces the next HasEntitlement call to refetch exactly when no call for the
   license is fetching, or holds a response it has yet to store under a stamp less than 60 s old.
   */
  lemma InvalidationForcesRefetchExactly(worlds: seq<World>, events: seq<Event>, license: License, i: nat)
    requires IsRun(worlds, events) && i < |events| && events[i] == Invalidate(license)
    ensures NextReadMayHit(worlds[i + 1], license) <==> CanWarm(worlds[i], license)
  {
    RunKeepsInv(worlds, events, i + 1);
    assert Next(worlds[i], events[i], worlds[i + 1]);
    NextReadMayHitExactly(worlds[i + 1], license);
  }

  // ----- a run that shows it

  lemma Extend(worlds: seq<World>, events: seq<Event>, e: Event, w': World)
    requires IsRun(worlds, events) && Next(worlds[|events|], e, w')
    ensures IsRun(worlds + [w'], events + [e])
    ensures forall i :: 0 <= i < |events| ==> (events + [e])[i] == events[i]
    ensures forall i :: 0 <= i < |worlds| ==> (worlds + [w'])[i] == worlds[i]
  {
    var ws, es := worlds + [w'], events + [e];
    forall i | 0 <= i < |es| ensures Next(ws[i], es[i], ws[i + 1]) {
      if i < |events| { assert Next(worlds[i], events[i], worlds[i + 1]); }
    }
  }

  // A run that leaves call 0 fetching for "L".
  lemma RunToFetching() returns (worlds: seq<World>, events: seq<Event>)
    ensures IsRun(worlds, events) && |events| == 2
    ensures worlds[2] == World(0, map[], map[0 := Call("L", "A", Fetching)], [])
  {
    var w0 := World(0, map[], map[], []);
    worlds, events := [w0], [];
    var w1 := w0.(calls := map[0 := Call("L", "A", Starting)]);
    Extend(worlds, events, Begin(0, "L", "A"), w1);
    worlds, events := worlds + [w1], events + [Begin(0, "L", "A")];
    var w2 := Move(w1, 0, Fetching);
    Extend(worlds, events, Read(0), w2);
    worlds, events := worlds + [w2], events + [Read(0)];
  }

  // A run that leaves call 0 ready to store what it fetched for "L".
  lemma RunToStoring(entry: Entry) returns (worlds: seq<World>, events: seq<Event>)
    requires entry == Entry({"A"}, 0)
    ensures IsRun(worlds, events) && |events| == 4
    ensures worlds[4] == World(0, map[], map[0 := Call("L", "A", Storing(entry))], [Served(0, "L", ["A"], {"A"}, 0)])
  {
    assert SetOf(["A"]) == {"A"};
    worlds, events := RunToFetching();
    var w2 := worlds[2];
    var w3 := Move(w2, 0, Received(0)).(served := [Served(0, "L", ["A"], {"A"}, 0)]);
    Extend(worlds, events, Respond(0, ["A"], {"A"}), w3);
    worlds, events := worlds + [w3], events + [Respond(0, ["A"], {"A"})];
    var w4 := Move(w3, 0, Storing(entry));
    Extend(worlds, events, Stamp(0), w4);
    worlds, events := worlds + [w4], events + [Stamp(0)];
  }

  /**
   A fetch in flight when the cache is invalidated stores afterwards, and the next call, begun after the
   invalidation, is answered from what that fetch brought.
   */
  lemma FetchInFlightOutlivesInvalidation() returns (worlds: seq<World>, events: seq<Event>)
    ensures IsRun(worlds, events) && |events| == 8
    ensures events[4] == Invalidate("L") && CanWarm(worlds[4], "L")
    ensures events[6] == Begin(1, "L", "A") && events[7] == Read(1) && worlds[8].calls[1].pc == Answered(true, Some(0))
  {
    var entry := Entry({"A"}, 0);
    worlds, events := RunToStoring(entry);
    var w4 := worlds[4];
    assert CallCanWarm(w4.calls[0], "L", w4.now);
    var w5 := w4.(entries := w4.entries - {"L"});
    Extend(worlds, events, Invalidate("L"), w5);
    worlds, events := worlds + [w5], events + [Invalidate("L")];
    var w6 := Move(w5, 0, Answered(true, None)).(entries := w5.entries["L" := entry]);
    Extend(worlds, events, Store(0), w6);
    worlds, events := worlds + [w6], events + [Store(0)];
    var w7 := w6.(calls := w6.calls[1 := Call("L", "A", Starting)]);
    Extend(worlds, events, Begin(1, "L", "A"), w7);
    worlds, events := worlds + [w7], events + [Begin(1, "L", "A")];
    var w8 := Move(w7, 1, Answered(true, Some(0)));
    Extend(worlds, events, Read(1), w8);
    worlds, events := worlds + [w8], events + [Read(1)];
  }
}
