/**
 Crediting recorded traffic to registered routes, and the ratchet over the
 routes nothing has exercised.
 */
module CoverageRatchet {
  import opened Basics
  import opened RouteCoverage

  datatype Route = Route(verb: string, template: string)

  datatype Entry = Entry(verb: string, path: string, status: int)

  predicate Explains(route: Route, entry: Entry) {
    route.verb == entry.verb && Accepts(RoutePattern(route.template), entry.path)
  }

  /** A subtree prefix matches the front of a path; every `{...}` of it is one segment. */
  predicate Under(prefix: string, path: string) {
    exists k :: 0 <= k <= |path| && Matches(SubParam(Chars(prefix)), path[..k])
  }

  // ---------------------------------------------- longest template first

  function Insert(r: Route, rs: seq<Route>): seq<Route> {
    if rs == [] || |rs[0].template| < |r.template| then [r] + rs else [rs[0]] + Insert(r, rs[1..])
  }

  /** The stable order of a sort by template length, descending. */
  function LongestFirst(rs: seq<Route>): seq<Route> {
    if rs == [] then [] else Insert(rs[|rs| - 1], LongestFirst(rs[..|rs| - 1]))
  }

  ghost predicate Descending(rs: seq<Route>) {
    forall i, j :: 0 <= i < j < |rs| ==> |rs[i].template| >= |rs[j].template|
  }

  lemma {:induction false} InsertAdds(r: Route, rs: seq<Route>)
    ensures multiset(Insert(r, rs)) == multiset(rs) + multiset{r}
  {
    if rs != [] {
      InsertAdds(r, rs[1..]);
      assert rs == [rs[0]] + rs[1..];
    }
  }

  lemma {:induction false} InsertKeeps(r: Route, rs: seq<Route>)
    requires Descending(rs)
    ensures Descending(Insert(r, rs)) && multiset(Insert(r, rs)) == multiset(rs) + multiset{r}
  {
    InsertAdds(r, rs);
    if rs != [] && |rs[0].template| >= |r.template| {
      var rest := Insert(r, rs[1..]);
      InsertKeeps(r, rs[1..]);
      forall i | 0 <= i < |rest| ensures |rs[0].template| >= |rest[i].template| {
        assert rest[i] in multiset(rest);
        assert rest[i] in multiset(rs[1..]) || rest[i] == r;
      }
    }
  }

  lemma NoneDescend()
    ensures Descending([])
  {}

  lemma {:induction false} LongestFirstSorts(rs: seq<Route>)
    ensures Descending(LongestFirst(rs)) && multiset(LongestFirst(rs)) == multiset(rs)
  {
    hide Insert, Descending;
    if rs == [] {
      NoneDescend();
    } else {
      var front := rs[..|rs| - 1];
      LongestFirstSorts(front);
      InsertKeeps(rs[|rs| - 1], LongestFirst(front));
      assert rs == front + [rs[|rs| - 1]];
    }
  }

  // ------------------------------------------------------------- crediting

  /** The first route of a list that explains an entry. */
  function First(patterns: seq<Route>, entry: Entry): Option<Route> {
    if patterns == [] then None
    else if Explains(patterns[0], entry) then Some(patterns[0])
    else First(patterns[1..], entry)
  }

  function Credit(registered: seq<Route>, entry: Entry): Option<Route> {
    First(LongestFirst(registered), entry)
  }

  /** The routes some entry is credited to. */
  function Credited(registered: seq<Route>, entries: seq<Entry>): set<Route> {
    set e | e in entries && Credit(registered, e).Some? :: Credit(registered, e).value
  }

  method Exercised(registered: seq<Route>, entries: seq<Entry>) returns (seen: set<Route>)
    ensures seen == Credited(registered, entries)
  {
    hide Explains, LongestFirst;
    var patterns := LongestFirst(registered);
    seen := {};
    for i := 0 to |entries|
      invariant seen == Credited(registered, entries[..i])
    {
      var entry := entries[i];
      assert patterns[0..] == patterns;
      ghost var before := seen;
      var j := 0;
      while j < |patterns|
        invariant 0 <= j <= |patterns| && seen == before
        invariant Credit(registered, entry) == First(patterns[j..], entry)
        decreases |patterns| - j
      {
        assert patterns[j..][1..] == patterns[j + 1..];
        if Explains(patterns[j], entry) {
          seen := seen + {patterns[j]};
          break;
        }
        j := j + 1;
      }
      assert entries[..i + 1] == entries[..i] + [entry];
      assert Credit(registered, entry) == if j < |patterns| then Some(patterns[j]) else None;
    }
    assert entries[..|entries|] == entries;
  }

  predicate Orphan(registered: seq<Route>, prefixes: seq<string>, entry: Entry) {
    && entry.status != 404
    && (forall p :: p in prefixes ==> !Under(p, entry.path))
    && (forall r :: r in registered ==> !Explains(r, entry))
  }

  /** The entries a list keeps, in order. */
  function Orphans(registered: seq<Route>, prefixes: seq<string>, entries: seq<Entry>): seq<Entry> {
    if entries == [] then []
    else
      (if Orphan(registered, prefixes, entries[0]) then [entries[0]] else [])
      + Orphans(registered, prefixes, entries[1..])
  }

  method Orphaned(registered: seq<Route>, prefixes: seq<string>, entries: seq<Entry>) returns (found: seq<Entry>)
    ensures found == Orphans(registered, prefixes, entries)
  {
    hide Explains, Under;
    found := [];
    assert entries[0..] == entries;
    for i := 0 to |entries|
      invariant found + Orphans(registered, prefixes, entries[i..]) == Orphans(registered, prefixes, entries)
    {
      var entry := entries[i];
      assert entries[i..][0] == entry && entries[i..][1..] == entries[i + 1..];
      assert found + ([entry] + Orphans(registered, prefixes, entries[i + 1..]))
          == found + [entry] + Orphans(registered, prefixes, entries[i + 1..]);
      assert [] + Orphans(registered, prefixes, entries[i + 1..]) == Orphans(registered, prefixes, entries[i + 1..]);
      if entry.status == 404 {
        continue;
      }
      var under := exists p :: p in prefixes && Under(p, entry.path);
      if under {
        continue;
      }
      var explained := exists r :: r in registered && Explains(r, entry);
      if explained {
        continue;
      }
      found := found + [entry];
    }
  }

  lemma {:induction false} FirstIsLongest(patterns: seq<Route>, entry: Entry)
    requires Descending(patterns)
    ensures match First(patterns, entry)
            case None => forall r :: r in patterns ==> !Explains(r, entry)
            case Some(best) =>
              && best in patterns && Explains(best, entry)
              && forall r :: r in patterns && Explains(r, entry) ==> |r.template| <= |best.template|
  {
    hide Explains;
    if patterns != [] {
      assert patterns == [patterns[0]] + patterns[1..];
      FirstIsLongest(patterns[1..], entry);
    }
  }

  lemma {:induction false} NoOrphan(registered: seq<Route>, prefixes: seq<string>, entries: seq<Entry>)
    ensures Orphans(registered, prefixes, entries) == [] <==>
            forall e :: e in entries ==> !Orphan(registered, prefixes, e)
  {
    hide Orphan;
    if entries != [] {
      NoOrphan(registered, prefixes, entries[1..]);
      assert entries == [entries[0]] + entries[1..];
    }
  }

  /**
   With no orphan, every recorded answer that is not a 404 and not under a
   subtree is credited to one registered route that explains it, and no other
   route that explains it has a longer template.
   */
  lemma NoOrphanIsCredited(registered: seq<Route>, prefixes: seq<string>, entries: seq<Entry>,
                           entry: Entry)
    requires Orphans(registered, prefixes, entries) == [] && entry in entries
    requires entry.status != 404 && forall p :: p in prefixes ==> !Under(p, entry.path)
    ensures var credit := Credit(registered, entry);
            && credit.Some? && credit.value in Credited(registered, entries)
            && credit.value in registered && Explains(credit.value, entry)
            && forall r :: r in registered && Explains(r, entry) ==> |r.template| <= |credit.value.template|
  {
    hide Explains, Under, First, LongestFirst;
    var patterns := LongestFirst(registered);
    NoOrphan(registered, prefixes, entries);
    LongestFirstSorts(registered);
    FirstIsLongest(patterns, entry);
    forall r ensures r in registered <==> r in patterns {
      assert r in registered <==> r in multiset(registered);
      assert r in patterns <==> r in multiset(patterns);
    }
  }

  /** Every route credited is registered, and was credited for an entry it explains. */
  lemma CreditIsEarned(registered: seq<Route>, entries: seq<Entry>, route: Route)
    requires route in Credited(registered, entries)
    ensures route in registered && exists e :: e in entries && Explains(route, e)
  {
    hide Explains, First, LongestFirst;
    var patterns := LongestFirst(registered);
    var e :| e in entries && Credit(registered, e) == Some(route);
    LongestFirstSorts(registered);
    FirstIsLongest(patterns, e);
    assert route in multiset(patterns);
  }

  // ------------------------------------------------- families and the ratchet

  function Join(parts: seq<string>): string {
    if parts == [] then [] else if |parts| == 1 then parts[0] else parts[0] + "/" + Join(parts[1..])
  }

  function Renamed(parts: seq<string>, names: map<string, string>): seq<string> {
    seq(|parts|, i requires 0 <= i < |parts| => if parts[i] in names then names[parts[i]] else parts[i])
  }

  /** A route produced by expanding a family folds to the family's one label; any other is its own label. */
  function Collapse(families: set<Route>, names: map<string, string>, route: Route): Route {
    if route !in families then route
    else route.(template := Join(Renamed(Split(route.template, '/'), names)))
  }

  function Labels(families: set<Route>, names: map<string, string>, routes: set<Route>): set<Route> {
    set r | r in routes :: Collapse(families, names, r)
  }

  function ToSet(routes: seq<Route>): set<Route> {
    set r | r in routes
  }

  /**
   After folding, covered and uncovered labels partition the registered ones;
   and a label is covered exactly when some spelling that folds to it was
   credited: a member of its family, or the route itself when it is no family's.
   */
  lemma FoldedPartition(registered: seq<Route>, entries: seq<Entry>, families: set<Route>,
                        names: map<string, string>, row: Route)
    ensures var all := Labels(families, names, ToSet(registered));
            var covered := Labels(families, names, Credited(registered, entries));
            var uncovered := all - covered;
            && covered <= all && covered !! uncovered && covered + uncovered == all
            && (row in covered <==>
                  || (exists r :: r in families && r in Credited(registered, entries) && Collapse(families, names, r) == row)
                  || (row !in families && row in Credited(registered, entries)))
            && (row in uncovered ==> forall e :: e in entries ==>
                  forall r :: r in registered && Collapse(families, names, r) == row ==> Credit(registered, e) != Some(r))
  {
    hide Explains, First, LongestFirst, Join, Renamed;
    forall r | r in Credited(registered, entries) ensures r in ToSet(registered) {
      CreditIsEarned(registered, entries, r);
    }
    if row in Labels(families, names, Credited(registered, entries)) {
      var r :| r in Credited(registered, entries) && Collapse(families, names, r) == row;
    }
    forall e | e in entries && Credit(registered, e).Some?
      ensures Collapse(families, names, Credit(registered, e).value) in Labels(families, names, Credited(registered, entries))
    {
      assert Credit(registered, e).value in Credited(registered, entries);
    }
  }

  class Baseline {
    // The pinned labels; None until the file is first written.
    var pinned: Option<set<Route>>

    constructor ()
      ensures pinned == None
    {
      pinned := None;
    }

    /** One run of the checker past its guards: rewrite the file, or compare with it. */
    method Check(all: set<Route>, covered: set<Route>, strict: bool, update: bool) returns (exit: int)
      modifies this
      ensures pinned == if update then Some(all - covered) else old(pinned)
      ensures exit == 0 <==> update || (old(pinned).Some? && (!strict || old(pinned).value == all - covered))
      ensures exit == 0 || exit == 1
    {
      var uncovered := all - covered;
      if update {
        pinned := Some(uncovered);
        return 0;
      }
      if pinned == None {
        return 1;
      }
      var newlyUncovered := uncovered - pinned.value;
      var newlyCovered := pinned.value - uncovered;
      if newlyUncovered == {} && newlyCovered == {} {
        assert pinned.value == uncovered;
        return 0;
      }
      return if strict then 1 else 0;
    }
  }
}
