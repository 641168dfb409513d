/** FindMachineByFingerprint (machine_read.go): a filtered, offset-paginated walk for one exact fingerprint. */
module MachineSearch {
  import opened Wrappers
  import opened MachineServer

  /** The index of the first row at or after `from` with this fingerprint, or `|rows|`. */
  function FirstExactFrom(rows: seq<Row>, fingerprint: string, from: nat): (i: nat)
    requires from <= |rows|
    ensures from <= i <= |rows|
    ensures i < |rows| ==> rows[i].fingerprint == fingerprint
    ensures forall k :: from <= k < i ==> rows[k].fingerprint != fingerprint
    decreases |rows| - from
  {
    if from == |rows| || rows[from].fingerprint == fingerprint then from
    else FirstExactFrom(rows, fingerprint, from + 1)
  }

  function FirstExact(rows: seq<Row>, fingerprint: string): nat {
    FirstExactFrom(rows, fingerprint, 0)
  }

  /** Rows at or past this index lie behind the offset ceiling. */
  const WINDOW: int := MAX_OFFSET + PAGE_SIZE

  const MAX_PAGES: int := 1001

  datatype SearchResult = Hit(machine: Machine) | Miss | EmptyFingerprint | SearchError(answer: Answer)

  /** What the walk is for: the first exact match the server will let it reach. */
  function SearchSpec(p: Policy, rows: seq<Row>, license: Id, fingerprint: string): SearchResult {
    var all := Matching(p, rows, license, fingerprint);
    var i := FirstExact(all, fingerprint);
    if i < |all| && i < WINDOW then Hit(Seen(all[i])) else Miss
  }

  /** The comparison loop over one page, from item `from` on. */
  function FirstMatchFrom(items: seq<Machine>, fingerprint: string, from: nat): (r: Option<Machine>)
    requires from <= |items|
    ensures r.Some? ==> r.value.fingerprint == fingerprint && exists i :: from <= i < |items| && items[i] == r.value
    ensures r.None? ==> forall i :: from <= i < |items| ==> items[i].fingerprint != fingerprint
    decreases |items| - from
  {
    if from == |items| then None
    else if items[from].fingerprint == fingerprint then Some(items[from])
    else FirstMatchFrom(items, fingerprint, from + 1)
  }

  function FirstMatch(items: seq<Machine>, fingerprint: string): Option<Machine> {
    FirstMatchFrom(items, fingerprint, 0)
  }

  lemma {:induction false} FirstMatchAt(items: seq<Machine>, fingerprint: string, from: nat, i: nat)
    requires from <= i < |items| && items[i].fingerprint == fingerprint
    requires forall k :: from <= k < i ==> items[k].fingerprint != fingerprint
    ensures FirstMatchFrom(items, fingerprint, from) == Some(items[i])
    decreases i - from
  {
    if from < i { FirstMatchAt(items, fingerprint, from + 1, i); }
  }

  lemma {:induction false} NoMatch(items: seq<Machine>, fingerprint: string, from: nat)
    requires from <= |items| && forall k :: from <= k < |items| ==> items[k].fingerprint != fingerprint
    ensures FirstMatchFrom(items, fingerprint, from).None?
    decreases |items| - from
  {
    if from < |items| { NoMatch(items, fingerprint, from + 1); }
  }

  /** No exact match before page `n`. */
  ghost predicate NoneBefore(all: seq<Row>, fingerprint: string, n: int) {
    forall i :: 0 <= i < |all| && i < PAGE_SIZE * (n - 1) ==> all[i].fingerprint != fingerprint
  }

  /** A page with an exact match holds the first one of the whole listing. */
  lemma PageHits(all: seq<Row>, fingerprint: string, n: int)
    requires 1 <= n <= MAX_PAGES && NoneBefore(all, fingerprint, n)
    requires FirstExact(all, fingerprint) < |all| && FirstExact(all, fingerprint) < PAGE_SIZE * n
    ensures FirstMatch(SeenAll(PageItems(all, n)), fingerprint) == Some(Seen(all[FirstExact(all, fingerprint)]))
    ensures FirstExact(all, fingerprint) < WINDOW
  {
    var items := PageItems(all, n);
    var i := FirstExact(all, fingerprint) - PAGE_SIZE * (n - 1);
    assert items[i] == all[PAGE_SIZE * (n - 1) + i];
    assert forall k :: 0 <= k < i ==> items[k] == all[PAGE_SIZE * (n - 1) + k];
    FirstMatchAt(SeenAll(items), fingerprint, 0, i);
  }

  /** A page without one rules out its rows, and ends the search only when nothing reachable is left. */
  lemma PageMisses(all: seq<Row>, fingerprint: string, n: int)
    requires 1 <= n <= MAX_PAGES
    requires FirstExact(all, fingerprint) == |all| || FirstExact(all, fingerprint) >= PAGE_SIZE * n
    ensures FirstMatch(SeenAll(PageItems(all, n)), fingerprint).None?
    ensures NoneBefore(all, fingerprint, n + 1)
    ensures n >= TotalPages(|all|) || PageItems(all, n) == [] ==> FirstExact(all, fingerprint) == |all|
    ensures PAGE_SIZE * n > MAX_OFFSET ==>
              FirstExact(all, fingerprint) == |all| || FirstExact(all, fingerprint) >= WINDOW
  {
    var items := PageItems(all, n);
    assert forall k :: 0 <= k < |items| ==> items[k] == all[PAGE_SIZE * (n - 1) + k];
    NoMatch(SeenAll(items), fingerprint, 0);
  }

  /** One page settles the search, or rules out its rows. */
  lemma PageDecides(all: seq<Row>, fingerprint: string, n: int)
    requires 1 <= n <= MAX_PAGES && NoneBefore(all, fingerprint, n)
    ensures var items := SeenAll(PageItems(all, n));
            var i := FirstExact(all, fingerprint);
            match FirstMatch(items, fingerprint)
            case Some(m) => i < |all| && i < WINDOW && m == Seen(all[i])
            case None => NoneBefore(all, fingerprint, n + 1)
                         && (n >= TotalPages(|all|) || items == [] ==> i == |all|)
                         && (PAGE_SIZE * n > MAX_OFFSET ==> i == |all| || i >= WINDOW)
  {
    var i := FirstExact(all, fingerprint);
    if i < |all| && i < PAGE_SIZE * n {
      PageHits(all, fingerprint, n);
    } else {
      PageMisses(all, fingerprint, n);
    }
  }

  method FindMachineByFingerprint(server: Server, license: Id, fingerprint: string) returns (r: SearchResult)
    modifies server
    ensures server.store == old(server.store)
    ensures fingerprint == "" ==> r == EmptyFingerprint && server.log == old(server.log)
    ensures fingerprint != "" ==> r == SearchSpec(server.policy, server.store.rows, license, fingerprint)
    // At most 1001 requests, for pages 1, 2, 3, ...: never a row offset above the ceiling.
    ensures |old(server.log)| <= |server.log| <= |old(server.log)| + MAX_PAGES
    ensures old(server.log) <= server.log
    ensures forall k :: |old(server.log)| <= k < |server.log|
                        ==> server.log[k] == List(license, fingerprint, k - |old(server.log)| + 1)
  {
    if fingerprint == "" {
      return EmptyFingerprint;
    }
    ghost var before := server.log;
    ghost var all := Matching(server.policy, server.store.rows, license, fingerprint);
    var page := 1;
    while true
      invariant server.store == old(server.store)
      invariant 1 <= page <= MAX_PAGES
      invariant NoneBefore(all, fingerprint, page)
      invariant before <= server.log && |server.log| == |before| + page - 1
      invariant forall k :: |before| <= k < |server.log|
                            ==> server.log[k] == List(license, fingerprint, k - |before| + 1)
      decreases MAX_PAGES - page
    {
      var answer := server.ListMachines(license, fingerprint, page);
      if !answer.Page? {
        return SearchError(answer);
      }
      PageDecides(all, fingerprint, page);
      var matched := FirstMatch(answer.items, fingerprint);
      if matched.Some? {
        return Hit(matched.value);
      }
      if answer.number >= answer.totalPages || |answer.items| == 0 {
        return Miss;
      }
      if answer.number * answer.size > MAX_OFFSET {
        return Miss;
      }
      page := answer.number + 1;
    }
  }

  /** A license with a reachable row under this fingerprint is found, and only such a license. */
  lemma FoundIffReachable(p: Policy, rows: seq<Row>, license: Id, fingerprint: string)
    ensures SearchSpec(p, rows, license, fingerprint).Hit?
       <==> exists i :: 0 <= i < |Matching(p, rows, license, fingerprint)| && i < WINDOW
                        && Matching(p, rows, license, fingerprint)[i].fingerprint == fingerprint
    ensures |rows| <= WINDOW ==>
              (SearchSpec(p, rows, license, fingerprint).Hit? <==> HasFingerprint(rows, license, fingerprint))
  {
    var all := Matching(p, rows, license, fingerprint);
    if HasFingerprint(rows, license, fingerprint) {
      var i :| 0 <= i < |rows| && rows[i].license == license && rows[i].fingerprint == fingerprint;
      FilterKeepsExactMatch(p, rows[i]);
      MatchingIsExact(p, rows, license, fingerprint, rows[i]);
    }
    var j := FirstExact(all, fingerprint);
    if j < |all| { MatchingIsExact(p, rows, license, fingerprint, all[j]); }
  }

  ghost predicate HasFingerprint(rows: seq<Row>, license: Id, fingerprint: string) {
    exists i :: 0 <= i < |rows| && rows[i].license == license && rows[i].fingerprint == fingerprint
  }
}
