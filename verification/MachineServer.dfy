/**
 The server's machine rows, as far as the activation protocol relies on them: uniqueness on create,
 the named conflict, the free-text filter and offset pages of the listing. The limits a create is
 refused for and the verdict a validation returns are functions of the rows, left open in `Policy`.
 */
module MachineServer {
  import opened Wrappers

  type Id = string

  datatype Row = Row(id: Id, license: Id, fingerprint: string, name: string, hostname: string)

  /** What a client sees of a row. */
  datatype Machine = Machine(id: Id, fingerprint: string)

  datatype ErrorCode =
    | MachineLimitExceeded
    | CoreLimitExceeded
    | MemoryLimitExceeded
    | DiskLimitExceeded
    | FingerprintTaken
    | NotFound
    | PageOutOfRange
    | OtherError(code: string)

  datatype ValidationCode =
    | TooManyMachines
    | TooManyCores
    | TooMuchMemory
    | TooMuchDisk
    | TooManyProcesses
    | Valid
    | OtherVerdict(code: string)

  datatype Request =
    | Create(license: Id, fingerprint: string)
    | Validate(license: Id)
    | Delete(id: Id)
    | Get(id: Id)
    | List(license: Id, query: string, page: int)

  /** `machineId` is the meta member a FINGERPRINT_TAKEN may carry. */
  datatype Answer =
    | Created(machine: Machine)
    | Verdict(code: ValidationCode)
    | Deleted
    | Found(machine: Machine)
    | Page(items: seq<Machine>, number: int, size: int, totalPages: int)
    | ApiError(error: ErrorCode, machineId: Option<Id>)
    | TransportError

  /** `used` holds every id ever given out; ids are not reused. */
  datatype Store = Store(rows: seq<Row>, used: set<Id>)

  datatype Policy = Policy(
    // Whether a row of the first license blocks its fingerprint for the second.
    conflicts: (Id, Id) -> bool,
    // Whether a same-license conflict names the machine.
    namesConflict: bool,
    createLimit: (seq<Row>, Id) -> Option<ErrorCode>,
    verdict: (seq<Row>, Id) -> ValidationCode,
    freshId: set<Id> -> Id,
    isSpace: char -> bool,
    fold: char -> char)

  ghost predicate PolicyOk(p: Policy) {
    && (forall l :: p.conflicts(l, l))
    && (forall rows, l :: p.createLimit(rows, l) != Some(FingerprintTaken))
    && (forall used :: p.freshId(used) !in used)
  }

  ghost predicate StoreOk(s: Store) {
    && (forall i :: 0 <= i < |s.rows| ==> s.rows[i].id in s.used)
    && (forall i, j :: 0 <= i < j < |s.rows| ==> s.rows[i].id != s.rows[j].id)
    && (forall i, j :: 0 <= i < j < |s.rows| ==>
          s.rows[i].license != s.rows[j].license || s.rows[i].fingerprint != s.rows[j].fingerprint)
  }

  function Seen(r: Row): Machine {
    Machine(r.id, r.fingerprint)
  }

  // ----- the filter

  const SEARCH_BOUND: nat := 200

  function TrimFront(isSpace: char -> bool, s: string): string {
    if s != [] && isSpace(s[0]) then TrimFront(isSpace, s[1..]) else s
  }

  function TrimBack(isSpace: char -> bool, s: string): string {
    if s != [] && isSpace(s[|s| - 1]) then TrimBack(isSpace, s[..|s| - 1]) else s
  }

  /** The search term: trimmed, then cut to 200 characters. */
  function Term(p: Policy, query: string): string {
    var t := TrimBack(p.isSpace, TrimFront(p.isSpace, query));
    if |t| > SEARCH_BOUND then t[..SEARCH_BOUND] else t
  }

  function Folded(fold: char -> char, s: string): (r: string)
    ensures |r| == |s| && forall i :: 0 <= i < |s| ==> r[i] == fold(s[i])
  {
    seq(|s|, i requires 0 <= i < |s| => fold(s[i]))
  }

  predicate Contains(s: string, t: string) {
    t <= s || (s != [] && Contains(s[1..], t))
  }

  /** filter[q]: a case-insensitive substring of name, hostname or fingerprint; a blank term filters nothing. */
  predicate MatchesQuery(p: Policy, query: string, r: Row) {
    var t := Folded(p.fold, Term(p, query));
    t == [] || Contains(Folded(p.fold, r.name), t) || Contains(Folded(p.fold, r.hostname), t)
    || Contains(Folded(p.fold, r.fingerprint), t)
  }

  lemma {:induction false} TrimFrontIsSlice(isSpace: char -> bool, s: string) returns (i: nat)
    ensures i <= |s| && TrimFront(isSpace, s) == s[i..]
  {
    i := 0;
    if s != [] && isSpace(s[0]) {
      i := TrimFrontIsSlice(isSpace, s[1..]);
      i := i + 1;
    }
  }

  lemma {:induction false} TrimBackIsPrefix(isSpace: char -> bool, s: string)
    ensures TrimBack(isSpace, s) <= s
  {
    if s != [] && isSpace(s[|s| - 1]) { TrimBackIsPrefix(isSpace, s[..|s| - 1]); }
  }

  lemma {:induction false} SliceIsContained(s: string, t: string, i: nat)
    requires i <= |s| && t <= s[i..]
    ensures Contains(s, t)
  {
    if i > 0 {
      assert s[1..][i - 1..] == s[i..];
      SliceIsContained(s[1..], t, i - 1);
    } else {
      assert s[0..] == s;
    }
  }

  lemma TermIsContained(p: Policy, query: string)
    ensures Contains(Folded(p.fold, query), Folded(p.fold, Term(p, query)))
  {
    var i := TrimFrontIsSlice(p.isSpace, query);
    var front := query[i..];
    TrimBackIsPrefix(p.isSpace, front);
    var t := Term(p, query);
    assert t <= front;
    var folded := Folded(p.fold, query);
    assert Folded(p.fold, t) <= folded[i..];
    SliceIsContained(folded, Folded(p.fold, t), i);
  }

  /** The filter never hides a row whose fingerprint is the one searched for. */
  lemma FilterKeepsExactMatch(p: Policy, r: Row)
    ensures MatchesQuery(p, r.fingerprint, r)
  {
    TermIsContained(p, r.fingerprint);
  }

  // ----- the listing

  const PAGE_SIZE: int := 100
  const MAX_OFFSET: int := 100_000

  /** The rows a listing runs over, in listing order. */
  function Matching(p: Policy, rows: seq<Row>, license: Id, query: string): (r: seq<Row>)
    ensures |r| <= |rows|
  {
    if rows == [] then []
    else
      (if rows[0].license == license && MatchesQuery(p, query, rows[0]) then [rows[0]] else [])
      + Matching(p, rows[1..], license, query)
  }

  function TotalPages(total: nat): nat {
    (total + 99) / 100
  }

  /** The items of one-based page `n`. */
  function PageItems(all: seq<Row>, n: int): (items: seq<Row>)
    requires n >= 1
    ensures |items| <= PAGE_SIZE
    ensures forall i :: 0 <= i < |items| ==> PAGE_SIZE * (n - 1) + i < |all| && items[i] == all[PAGE_SIZE * (n - 1) + i]
    ensures PAGE_SIZE * n <= |all| ==> |items| == PAGE_SIZE
    ensures PAGE_SIZE * (n - 1) <= |all| < PAGE_SIZE * n ==> |items| == |all| - PAGE_SIZE * (n - 1)
  {
    var from := PAGE_SIZE * (n - 1);
    var to := PAGE_SIZE * n;
    if from >= |all| then [] else if to <= |all| then all[from..to] else all[from..]
  }

  function SeenAll(rows: seq<Row>): (ms: seq<Machine>)
    ensures |ms| == |rows| && forall i :: 0 <= i < |rows| ==> ms[i] == Seen(rows[i])
  {
    seq(|rows|, i requires 0 <= i < |rows| => Seen(rows[i]))
  }

  // ----- answering

  predicate HasRow(rows: seq<Row>, id: Id) {
    exists i :: 0 <= i < |rows| && rows[i].id == id
  }

  function Without(rows: seq<Row>, id: Id): seq<Row> {
    if rows == [] then []
    else if rows[0].id == id then Without(rows[1..], id)
    else [rows[0]] + Without(rows[1..], id)
  }

  /** The first row with this fingerprint on a license that blocks `license`. */
  function FindConflict(p: Policy, rows: seq<Row>, license: Id, fingerprint: string): Option<Row> {
    if rows == [] then None
    else if p.conflicts(rows[0].license, license) && rows[0].fingerprint == fingerprint then Some(rows[0])
    else FindConflict(p, rows[1..], license, fingerprint)
  }

  function FindOwn(rows: seq<Row>, license: Id, fingerprint: string): Option<Row> {
    if rows == [] then None
    else if rows[0].license == license && rows[0].fingerprint == fingerprint then Some(rows[0])
    else FindOwn(rows[1..], license, fingerprint)
  }

  function FindById(rows: seq<Row>, id: Id): Option<Row> {
    if rows == [] then None else if rows[0].id == id then Some(rows[0]) else FindById(rows[1..], id)
  }

  // A well-behaved server's answer to each request, and the rows it leaves.

  function OnCreate(p: Policy, s: Store, license: Id, fingerprint: string): (Answer, Store) {
    if FindConflict(p, s.rows, license, fingerprint).Some? then
      var own := FindOwn(s.rows, license, fingerprint);
      (ApiError(FingerprintTaken, if p.namesConflict && own.Some? then Some(own.value.id) else None), s)
    else if p.createLimit(s.rows, license).Some? then
      (ApiError(p.createLimit(s.rows, license).value, None), s)
    else
      var id := p.freshId(s.used);
      (Created(Machine(id, fingerprint)),
       Store([Row(id, license, fingerprint, "", "")] + s.rows, s.used + {id}))
  }

  function OnValidate(p: Policy, s: Store, license: Id): Answer {
    Verdict(p.verdict(s.rows, license))
  }

  function OnDelete(s: Store, id: Id): (Answer, Store) {
    if HasRow(s.rows, id) then (Deleted, s.(rows := Without(s.rows, id))) else (ApiError(NotFound, None), s)
  }

  function OnGet(s: Store, id: Id): Answer {
    match FindById(s.rows, id)
    case None => ApiError(NotFound, None)
    case Some(r) => Found(Seen(r))
  }

  function OnList(p: Policy, s: Store, license: Id, query: string, page: int): Answer {
    if page < 1 || PAGE_SIZE * (page - 1) > MAX_OFFSET then ApiError(PageOutOfRange, None)
    else
      var all := Matching(p, s.rows, license, query);
      Page(SeenAll(PageItems(all, page)), page, PAGE_SIZE, TotalPages(|all|))
  }

  function Respond(p: Policy, s: Store, req: Request): (Answer, Store) {
    match req
    case Create(license, fingerprint) => OnCreate(p, s, license, fingerprint)
    case Validate(license) => (OnValidate(p, s, license), s)
    case Delete(id) => OnDelete(s, id)
    case Get(id) => (OnGet(s, id), s)
    case List(license, query, page) => (OnList(p, s, license, query, page), s)
  }

  /** The server as an object: its rows change under the requests it handles. */
  class Server {
    const policy: Policy
    var store: Store
    var log: seq<Request>

    constructor (policy: Policy, store: Store)
      ensures this.policy == policy && this.store == store && log == []
    {
      this.policy := policy;
      this.store := store;
      log := [];
    }

    method CreateMachine(license: Id, fingerprint: string) returns (answer: Answer)
      modifies this
      ensures (answer, store) == OnCreate(policy, old(store), license, fingerprint)
      ensures log == old(log) + [Create(license, fingerprint)]
    {
      var (a, s) := OnCreate(policy, store, license, fingerprint);
      store := s;
      log := log + [Create(license, fingerprint)];
      return a;
    }

    method ValidateLicense(license: Id) returns (answer: Answer)
      modifies this
      ensures answer == OnValidate(policy, store, license) && store == old(store)
      ensures log == old(log) + [Validate(license)]
    {
      log := log + [Validate(license)];
      return OnValidate(policy, store, license);
    }

    method DeleteMachine(id: Id) returns (answer: Answer)
      modifies this
      ensures (answer, store) == OnDelete(old(store), id)
      ensures log == old(log) + [Delete(id)]
    {
      var (a, s) := OnDelete(store, id);
      store := s;
      log := log + [Delete(id)];
      return a;
    }

    method GetMachine(id: Id) returns (answer: Answer)
      modifies this
      ensures answer == OnGet(store, id) && store == old(store)
      ensures log == old(log) + [Get(id)]
    {
      log := log + [Get(id)];
      return OnGet(store, id);
    }

    method ListMachines(license: Id, query: string, page: int) returns (answer: Answer)
      modifies this
      ensures answer == OnList(policy, store, license, query, page) && store == old(store)
      ensures log == old(log) + [List(license, query, page)]
    {
      log := log + [List(license, query, page)];
      return OnList(policy, store, license, query, page);
    }
  }

  // ----- facts about the rows

  lemma {:induction false} FindOwnIndex(rows: seq<Row>, license: Id, fingerprint: string) returns (i: nat)
    requires FindOwn(rows, license, fingerprint).Some?
    ensures i < |rows| && FindOwn(rows, license, fingerprint) == Some(rows[i])
    ensures rows[i].license == license && rows[i].fingerprint == fingerprint
  {
    if rows[0].license == license && rows[0].fingerprint == fingerprint {
      i := 0;
    } else {
      i := FindOwnIndex(rows[1..], license, fingerprint);
      i := i + 1;
    }
  }

  lemma {:induction false} OwnConflicts(p: Policy, rows: seq<Row>, license: Id, fingerprint: string, i: nat)
    requires PolicyOk(p)
    requires i < |rows| && rows[i].license == license && rows[i].fingerprint == fingerprint
    ensures FindConflict(p, rows, license, fingerprint).Some?
  {
    if i > 0 && FindConflict(p, rows, license, fingerprint) != Some(rows[0]) {
      OwnConflicts(p, rows[1..], license, fingerprint, i - 1);
    }
  }

  lemma {:induction false} WithoutAbsent(rows: seq<Row>, id: Id)
    requires forall i :: 0 <= i < |rows| ==> rows[i].id != id
    ensures Without(rows, id) == rows
  {
    if rows != [] {
      WithoutAbsent(rows[1..], id);
      assert [rows[0]] + rows[1..] == rows;
    }
  }

  lemma {:induction false} WithoutKeepsOthers(rows: seq<Row>, id: Id, x: Id)
    ensures HasRow(Without(rows, id), x) <==> HasRow(rows, x) && x != id
  {
    if rows != [] {
      WithoutKeepsOthers(rows[1..], id, x);
      var w := Without(rows[1..], id);
      assert HasRow(rows, x) <==> rows[0].id == x || HasRow(rows[1..], x) by {
        if HasRow(rows[1..], x) {
          var i :| 0 <= i < |rows[1..]| && rows[1..][i].id == x;
          assert rows[i + 1].id == x;
        }
      }
      assert HasRow([rows[0]] + w, x) <==> rows[0].id == x || HasRow(w, x) by {
        assert ([rows[0]] + w)[0] == rows[0];
        if HasRow(w, x) {
          var i :| 0 <= i < |w| && w[i].id == x;
          assert ([rows[0]] + w)[i + 1].id == x;
        }
      }
    }
  }

  /** Every row of the listing is a row of the license that passes the filter, and none is left out. */
  lemma {:induction false} MatchingIsExact(p: Policy, rows: seq<Row>, license: Id, query: string, r: Row)
    ensures r in Matching(p, rows, license, query) <==> r in rows && r.license == license && MatchesQuery(p, query, r)
  {
    if rows != [] {
      MatchingIsExact(p, rows[1..], license, query, r);
      assert rows == [rows[0]] + rows[1..];
    }
  }

  // ----- what each request does

  ghost predicate IsTaken(p: Policy, rows: seq<Row>, license: Id, fingerprint: string) {
    exists i :: 0 <= i < |rows| && p.conflicts(rows[i].license, license) && rows[i].fingerprint == fingerprint
  }

  lemma {:induction false} FindConflictFinds(p: Policy, rows: seq<Row>, license: Id, fingerprint: string)
    ensures FindConflict(p, rows, license, fingerprint).Some? <==> IsTaken(p, rows, license, fingerprint)
  {
    if rows != [] {
      FindConflictFinds(p, rows[1..], license, fingerprint);
      if IsTaken(p, rows[1..], license, fingerprint) {
        var i :| 0 <= i < |rows[1..]| && p.conflicts(rows[1..][i].license, license)
                 && rows[1..][i].fingerprint == fingerprint;
        assert rows[i + 1] == rows[1..][i];
      }
      if IsTaken(p, rows, license, fingerprint) && FindConflict(p, rows, license, fingerprint) != Some(rows[0]) {
        var i :| 0 <= i < |rows| && p.conflicts(rows[i].license, license) && rows[i].fingerprint == fingerprint;
        assert rows[1..][i - 1] == rows[i];
      }
    }
  }

  lemma CreateKeepsStoreOk(p: Policy, s: Store, license: Id, fingerprint: string)
    requires PolicyOk(p) && StoreOk(s)
    ensures StoreOk(OnCreate(p, s, license, fingerprint).1)
  {
    FindConflictFinds(p, s.rows, license, fingerprint);
    var s' := OnCreate(p, s, license, fingerprint).1;
    if s' != s {
      assert forall i :: 0 < i < |s'.rows| ==> s'.rows[i] == s.rows[i - 1];
    }
  }

  /**
   A create is refused as taken exactly when a conflicting row holds the fingerprint, and names a machine only
   if it is the license's own. Any refusal changes nothing; a success puts one row in front, under an id never
   given out before.
   */
  lemma CreateAddsOneRowOrNone(p: Policy, s: Store, license: Id, fingerprint: string)
    requires PolicyOk(p) && StoreOk(s)
    ensures var (answer, s') := OnCreate(p, s, license, fingerprint);
            && StoreOk(s')
            && (answer.Created? || answer.ApiError?)
            && (answer.ApiError? ==> s' == s)
            && (answer.ApiError? && answer.error == FingerprintTaken <==> IsTaken(p, s.rows, license, fingerprint))
            && (answer.ApiError? && answer.machineId.Some? ==>
                  exists i :: 0 <= i < |s.rows| && s.rows[i].id == answer.machineId.value
                              && s.rows[i].license == license && s.rows[i].fingerprint == fingerprint)
            && (answer.Created? ==>
                  && answer.machine.fingerprint == fingerprint && answer.machine.id !in s.used
                  && s'.rows == [Row(answer.machine.id, license, fingerprint, "", "")] + s.rows
                  && s'.used == s.used + {answer.machine.id})
  {
    CreateKeepsStoreOk(p, s, license, fingerprint);
    FindConflictFinds(p, s.rows, license, fingerprint);
    if FindOwn(s.rows, license, fingerprint).Some? { var i := FindOwnIndex(s.rows, license, fingerprint); }
  }

  lemma {:induction false} WithoutIsExact(rows: seq<Row>, id: Id, r: Row)
    ensures r in Without(rows, id) <==> r in rows && r.id != id
  {
    if rows != [] {
      WithoutIsExact(rows[1..], id, r);
      assert rows == [rows[0]] + rows[1..];
    }
  }

  lemma {:induction false} WithoutIsOrdered(rows: seq<Row>, id: Id, j: nat, k: nat) returns (m: nat, n: nat)
    requires j < k < |Without(rows, id)|
    ensures m < n < |rows| && rows[m] == Without(rows, id)[j] && rows[n] == Without(rows, id)[k]
  {
    if rows[0].id == id {
      m, n := WithoutIsOrdered(rows[1..], id, j, k);
      m, n := m + 1, n + 1;
    } else if j > 0 {
      m, n := WithoutIsOrdered(rows[1..], id, j - 1, k - 1);
      m, n := m + 1, n + 1;
    } else {
      WithoutIsExact(rows[1..], id, Without(rows, id)[k]);
      assert Without(rows, id)[k] == Without(rows[1..], id)[k - 1];
      var i :| 0 <= i < |rows[1..]| && rows[1..][i] == Without(rows, id)[k];
      m, n := 0, i + 1;
    }
  }

  ghost predicate ComesBefore(rows: seq<Row>, x: Row, y: Row) {
    exists m, n :: 0 <= m < n < |rows| && rows[m] == x && rows[n] == y
  }

  ghost predicate KeepsOrder(before: seq<Row>, after: seq<Row>) {
    forall j, k :: 0 <= j < k < |after| ==> ComesBefore(before, after[j], after[k])
  }

  lemma DeleteKeepsOrder(s: Store, id: Id)
    ensures KeepsOrder(s.rows, OnDelete(s, id).1.rows)
  {
    var rows := OnDelete(s, id).1.rows;
    forall j, k | 0 <= j < k < |rows| ensures ComesBefore(s.rows, rows[j], rows[k]) {
      if HasRow(s.rows, id) {
        var m, n := WithoutIsOrdered(s.rows, id, j, k);
      }
    }
  }

  /**
   A delete answers for the named row and removes it and no other; ids stay used, and the rows that are left
   keep their order.
   */
  lemma DeleteRemovesOneRow(s: Store, id: Id)
    requires StoreOk(s)
    ensures var (answer, s') := OnDelete(s, id);
            && StoreOk(s') && s'.used == s.used
            && (answer == Deleted <==> HasRow(s.rows, id))
            && (answer != Deleted ==> answer == ApiError(NotFound, None) && s' == s)
            && (forall r :: r in s'.rows <==> r in s.rows && r.id != id)
            && (forall x :: HasRow(s'.rows, x) <==> HasRow(s.rows, x) && x != id)
            && KeepsOrder(s.rows, s'.rows)
  {
    var s' := OnDelete(s, id).1;
    if HasRow(s.rows, id) {
      forall r ensures r in s'.rows <==> r in s.rows && r.id != id { WithoutIsExact(s.rows, id, r); }
      forall x ensures HasRow(s'.rows, x) <==> HasRow(s.rows, x) && x != id { WithoutKeepsOthers(s.rows, id, x); }
    }
    DeleteKeepsOrder(s, id);
  }

  /**
   A listing refuses exactly the pages before the first or past the offset ceiling; any other page is the
   stretch of the filtered rows at its offset, full unless they run out, under the right page count.
   */
  lemma ListServesTheStretch(p: Policy, s: Store, license: Id, query: string, page: int)
    ensures var answer, all := OnList(p, s, license, query, page), Matching(p, s.rows, license, query);
            && (answer == ApiError(PageOutOfRange, None) <==> page < 1 || 100 * (page - 1) > 100_000)
            && (answer != ApiError(PageOutOfRange, None) ==>
                  && answer.Page? && answer.number == page && answer.size == 100
                  && 100 * (answer.totalPages - 1) < |all| <= 100 * answer.totalPages
                  && |answer.items| == (if |all| <= 100 * (page - 1) then 0
                                        else if |all| >= 100 * page then 100 else |all| - 100 * (page - 1))
                  && forall i :: 0 <= i < |answer.items| ==> answer.items[i] == Seen(all[100 * (page - 1) + i]))
  {
  }

  /** A named conflict names the license's own row whenever there is one. */
  lemma OwnRowIsNamed(p: Policy, s: Store, license: Id, fingerprint: string, i: nat)
    requires PolicyOk(p) && StoreOk(s) && p.namesConflict
    requires i < |s.rows| && s.rows[i].license == license && s.rows[i].fingerprint == fingerprint
    ensures OnCreate(p, s, license, fingerprint).0 == ApiError(FingerprintTaken, Some(s.rows[i].id))
  {
    OwnConflicts(p, s.rows, license, fingerprint, i);
    OwnIsFound(s.rows, license, fingerprint, i);
    var j := FindOwnIndex(s.rows, license, fingerprint);
    assert i == j;
  }

  lemma {:induction false} OwnIsFound(rows: seq<Row>, license: Id, fingerprint: string, i: nat)
    requires i < |rows| && rows[i].license == license && rows[i].fingerprint == fingerprint
    ensures FindOwn(rows, license, fingerprint).Some?
  {
    if i > 0 { OwnIsFound(rows[1..], license, fingerprint, i - 1); }
  }

  lemma {:induction false} FindByIdFinds(rows: seq<Row>, id: Id)
    ensures FindById(rows, id).Some? <==> HasRow(rows, id)
    ensures FindById(rows, id).Some? ==> FindById(rows, id).value in rows && FindById(rows, id).value.id == id
  {
    if rows != [] {
      FindByIdFinds(rows[1..], id);
      if HasRow(rows, id) && rows[0].id != id {
        var i :| 0 <= i < |rows| && rows[i].id == id;
        assert rows[1..][i - 1].id == id;
      }
      if HasRow(rows[1..], id) {
        var i :| 0 <= i < |rows[1..]| && rows[1..][i].id == id;
        assert rows[i + 1].id == id;
      }
    }
  }

  /** A read by id shows the row if there is one, and says not found otherwise. */
  lemma GetShowsTheRow(s: Store, id: Id, i: nat)
    requires StoreOk(s)
    ensures OnGet(s, id) == ApiError(NotFound, None) <==> !HasRow(s.rows, id)
    ensures i < |s.rows| && s.rows[i].id == id ==> OnGet(s, id) == Found(Machine(id, s.rows[i].fingerprint))
  {
    FindByIdFinds(s.rows, id);
  }

  // ----- the filter, exactly

  lemma {:induction false} ContainsExactly(s: string, t: string)
    ensures Contains(s, t) <==> exists i :: 0 <= i <= |s| && t <= s[i..]
  {
    if t <= s {
      assert s[0..] == s;
    } else if s != [] {
      ContainsExactly(s[1..], t);
      forall i | 0 <= i <= |s[1..]| ensures s[1..][i..] == s[i + 1..] {
      }
      if exists i :: 0 <= i <= |s[1..]| && t <= s[1..][i..] {
        var i :| 0 <= i <= |s[1..]| && t <= s[1..][i..];
        assert t <= s[i + 1..];
      }
      if exists i :: 0 <= i <= |s| && t <= s[i..] {
        var i :| 0 <= i <= |s| && t <= s[i..];
        assert s[0..] == s;
        assert t <= s[1..][i - 1..];
      }
    } else {
      assert forall i :: 0 <= i <= |s| ==> s[i..] == s;
    }
  }

  /** What trimming leaves: the middle of the query, with no space at either end and only spaces around it. */
  ghost predicate IsTrimmedOf(isSpace: char -> bool, s: string, t: string) {
    && (t != [] ==> !isSpace(t[0]) && !isSpace(t[|t| - 1]))
    && exists a, b :: s == a + t + b && (forall i :: 0 <= i < |a| ==> isSpace(a[i]))
                      && (forall i :: 0 <= i < |b| ==> isSpace(b[i]))
  }

  lemma {:induction false} TrimFrontExactly(isSpace: char -> bool, s: string) returns (a: string)
    ensures s == a + TrimFront(isSpace, s) && forall i :: 0 <= i < |a| ==> isSpace(a[i])
    ensures TrimFront(isSpace, s) != [] ==> !isSpace(TrimFront(isSpace, s)[0])
  {
    a := [];
    if s != [] && isSpace(s[0]) {
      a := TrimFrontExactly(isSpace, s[1..]);
      a := [s[0]] + a;
    }
  }

  lemma {:induction false} TrimBackExactly(isSpace: char -> bool, s: string) returns (b: string)
    ensures s == TrimBack(isSpace, s) + b && forall i :: 0 <= i < |b| ==> isSpace(b[i])
    ensures TrimBack(isSpace, s) != [] ==> !isSpace(TrimBack(isSpace, s)[|TrimBack(isSpace, s)| - 1])
  {
    b := [];
    if s != [] && isSpace(s[|s| - 1]) {
      b := TrimBackExactly(isSpace, s[..|s| - 1]);
      b := b + [s[|s| - 1]];
    }
  }

  /** The term is the trimmed query, cut to its first 200 characters. */
  lemma TermExactly(p: Policy, query: string) returns (trimmed: string)
    ensures IsTrimmedOf(p.isSpace, query, trimmed)
    ensures Term(p, query) == if |trimmed| > 200 then trimmed[..200] else trimmed
  {
    var front := TrimFront(p.isSpace, query);
    trimmed := TrimBack(p.isSpace, front);
    var a := TrimFrontExactly(p.isSpace, query);
    var b := TrimBackExactly(p.isSpace, front);
    assert query == a + trimmed + b;
    if trimmed != [] { assert trimmed[0] == front[0]; }
  }

  /** A row passes when the folded term is empty or occurs in its folded name, hostname or fingerprint. */
  lemma MatchesExactly(p: Policy, query: string, r: Row)
    ensures var t := Folded(p.fold, Term(p, query));
            MatchesQuery(p, query, r)
            <==> |t| == 0 || exists field, i :: field in {r.name, r.hostname, r.fingerprint} && 0 <= i <= |field|
                                                && t <= Folded(p.fold, field)[i..]
  {
    var t := Folded(p.fold, Term(p, query));
    ContainsExactly(Folded(p.fold, r.name), t);
    ContainsExactly(Folded(p.fold, r.hostname), t);
    ContainsExactly(Folded(p.fold, r.fingerprint), t);
  }

  /** The listing keeps the order of the rows. */
  lemma {:induction false} MatchingKeepsOrder(p: Policy, rows: seq<Row>, license: Id, query: string)
    ensures KeepsOrder(rows, Matching(p, rows, license, query))
  {
    hide MatchesQuery;
    if rows != [] {
      MatchingKeepsOrder(p, rows[1..], license, query);
      var rest, all := Matching(p, rows[1..], license, query), Matching(p, rows, license, query);
      forall j, k | 0 <= j < k < |all| ensures ComesBefore(rows, all[j], all[k]) {
        MatchingIsExact(p, rows[1..], license, query, all[k]);
        if all == rest {
          LaterStillBefore(rows, all[j], all[k]);
        } else if j > 0 {
          assert all[j] == rest[j - 1] && all[k] == rest[k - 1];
          LaterStillBefore(rows, all[j], all[k]);
        } else {
          assert all[k] == rest[k - 1] && all[k] in rest;
          var n :| 0 <= n < |rows[1..]| && rows[1..][n] == all[k];
          assert rows[0] == all[0] && rows[n + 1] == all[k];
        }
      }
    }
  }

  lemma LaterStillBefore(rows: seq<Row>, x: Row, y: Row)
    requires rows != [] && ComesBefore(rows[1..], x, y)
    ensures ComesBefore(rows, x, y)
  {
    var m, n :| 0 <= m < n < |rows[1..]| && rows[1..][m] == x && rows[1..][n] == y;
    assert rows[m + 1] == x && rows[n + 1] == y;
  }
}
