/**
 The asymmetric ledger of promised surfaces: additions are recorded by a
 rewrite, removals only by hand, and a check compares the tree with both.
 */
module BackwardCompat {
  import opened Basics

  datatype Surface = Subcommands | CliFlags | EnvVars | GoApi | Routes

  const SURFACES: seq<Surface> := [Subcommands, CliFlags, EnvVars, GoApi, Routes]

  /** One hand-written removal; `surface` is None when it names no known surface. */
  datatype Removal = Removal(surface: Option<Surface>, id: string, removedIn: string, reason: string)

  type Ids = map<Surface, set<string>>

  /** What the extractors read off the tree, and whether they met a form they do not know. */
  datatype Tree = Tree(ids: Ids, unknownReads: bool, unreadExports: bool)

  datatype Baseline = Baseline(pinned: Ids, removed: seq<Removal>, docsUndocumented: map<string, string>)

  function At(ids: Ids, s: Surface): set<string> {
    if s in ids then ids[s] else {}
  }

  function Gone(removed: seq<Removal>, s: Surface): set<string> {
    set e | e in removed && e.surface == Some(s) :: e.id
  }

  // ------------------------------------------------------------------ drift

  datatype Drift = Drift(breaking: set<string>, stale: set<string>, resurrected: set<string>)

  function DriftOf(tree: Tree, base: Baseline, s: Surface): Drift {
    var (now, pinned, gone) := (At(tree.ids, s), At(base.pinned, s), Gone(base.removed, s));
    Drift(pinned - now - gone, now - pinned - gone, gone * now)
  }

  /** The tree is what was promised, less what was given up. */
  predicate Agrees(tree: Tree, base: Baseline, s: Surface) {
    At(tree.ids, s) == At(base.pinned, s) - Gone(base.removed, s)
  }

  /** A surface shows no drift exactly when the tree is the pinned surface minus the removed. */
  lemma CleanIffAgrees(tree: Tree, base: Baseline, s: Surface)
    ensures DriftOf(tree, base, s) == Drift({}, {}, {}) <==> Agrees(tree, base, s)
  {
    var (now, pinned, gone) := (At(tree.ids, s), At(base.pinned, s), Gone(base.removed, s));
    if DriftOf(tree, base, s) == Drift({}, {}, {}) {
      forall id ensures id in now <==> id in pinned - gone {
        assert id !in pinned - now - gone && id !in now - pinned - gone && id !in gone * now;
      }
      assert now == pinned - gone;
    }
  }

  predicate Blank(s: string) {
    forall c :: c in s ==> IsSpace(c)
  }

  /** A removal somebody could review. */
  predicate Reviewable(e: Removal) {
    e.surface.Some? && !Blank(e.id) && !Blank(e.removedIn) && !Blank(e.reason)
  }

  predicate Readable(tree: Tree) {
    (forall s :: s in SURFACES ==> At(tree.ids, s) != {}) && !tree.unknownReads && !tree.unreadExports
  }

  predicate Blocked(tree: Tree, base: Baseline) {
    exists s :: s in SURFACES && (DriftOf(tree, base, s).breaking != {} || DriftOf(tree, base, s).resurrected != {})
  }

  // ------------------------------------------------------------- the baseline file

  function Rewritten(tree: Tree, previous: Option<Baseline>): Baseline {
    var removed := if previous.Some? then previous.value.removed else [];
    Baseline(map s | s in SURFACES :: At(tree.ids, s) - Gone(removed, s),
             removed,
             if previous.Some? then previous.value.docsUndocumented else map[])
  }

  /** What `--update` leaves in the file. */
  function Updated(tree: Tree, file: Option<Baseline>): Option<Baseline> {
    if !Readable(tree) || (file.Some? && Blocked(tree, file.value)) then file else Some(Rewritten(tree, file))
  }

  class BaselineFile {
    var content: Option<Baseline>

    constructor ()
      ensures content == None
    {
      content := None;
    }

    /** The gate itself. */
    method MainForTest(tree: Tree, strict: bool, update: bool) returns (exit: int)
      modifies this
      ensures content == if update then Updated(tree, old(content)) else old(content)
      ensures update ==> (exit == 0 <==> Readable(tree) && (old(content).Some? ==> !Blocked(tree, old(content).value)))
      ensures !update && strict ==>
                (exit == 0 <==>
                   && Readable(tree) && old(content).Some?
                   && (forall e :: e in old(content).value.removed ==> Reviewable(e))
                   && forall s :: s in SURFACES ==> Agrees(tree, old(content).value, s))
      ensures !update && !strict ==> (exit == 0 <==> Readable(tree) && old(content).Some?)
      ensures exit == 0 || exit == 1
    {
      for i := 0 to |SURFACES|
        invariant content == old(content)
        invariant forall k :: 0 <= k < i ==> At(tree.ids, SURFACES[k]) != {}
      {
        if At(tree.ids, SURFACES[i]) == {} {
          return 1;
        }
      }
      assert forall s :: s in SURFACES ==> At(tree.ids, s) != {};
      if tree.unknownReads || tree.unreadExports {
        return 1;
      }
      if update {
        if content.Some? {
          for i := 0 to |SURFACES|
            invariant content == old(content)
            invariant forall k :: 0 <= k < i ==>
              var d := DriftOf(tree, content.value, SURFACES[k]); d.breaking == {} && d.resurrected == {}
          {
            var change := DriftOf(tree, content.value, SURFACES[i]);
            if change.breaking != {} || change.resurrected != {} {
              assert SURFACES[i] in SURFACES && Blocked(tree, content.value);
              return 1;
            }
          }
          assert !Blocked(tree, content.value);
        }
        content := Some(Rewritten(tree, content));
        return 0;
      }
      if content == None {
        return 1;
      }
      var base := content.value;
      var unreviewable := exists e :: e in base.removed && !Reviewable(e);
      var drifted := false;
      for i := 0 to |SURFACES|
        invariant content == old(content)
        invariant drifted <==> exists k :: 0 <= k < i && !Agrees(tree, base, SURFACES[k])
      {
        var change := DriftOf(tree, base, SURFACES[i]);
        CleanIffAgrees(tree, base, SURFACES[i]);
        if change.breaking != {} || change.resurrected != {} || change.stale != {} {
          drifted := true;
        }
      }
      EverySurface(tree, base);
      var failed := unreviewable || drifted;
      if failed && strict {
        return 1;
      }
      return 0;
    }
  }

  lemma EverySurface(tree: Tree, base: Baseline)
    ensures (exists k :: 0 <= k < |SURFACES| && !Agrees(tree, base, SURFACES[k])) <==>
            !forall s :: s in SURFACES ==> Agrees(tree, base, s)
  {
    if k :| 0 <= k < |SURFACES| && !Agrees(tree, base, SURFACES[k]) {
      assert SURFACES[k] in SURFACES;
    }
  }

  // ------------------------------------------------------------- whole histories

  /** What happens to a repository: its tree changes, the file is rewritten, removals are written down. */
  datatype Event = Edit(tree: Tree) | Update | WriteRemovals(entries: seq<Removal>)

  datatype State = State(tree: Tree, file: Option<Baseline>)

  function Next(st: State, event: Event): State {
    match event
    case Edit(tree) => st.(tree := tree)
    case Update => st.(file := Updated(st.tree, st.file))
    case WriteRemovals(entries) =>
      if st.file.None? then st
      else st.(file := Some(st.file.value.(removed := st.file.value.removed + entries)))
  }

  function After(st: State, events: seq<Event>): State
    decreases |events|
  {
    if events == [] then st else After(Next(st, events[0]), events[1..])
  }

  predicate Promised(st: State, s: Surface, id: string) {
    st.file.Some? && id in At(st.file.value.pinned, s)
  }

  predicate Held(st: State, s: Surface, id: string) {
    st.file.Some? && (id in At(st.file.value.pinned, s) || id in Gone(st.file.value.removed, s))
  }

  lemma HeldByStep(st: State, event: Event, s: Surface, id: string)
    requires Held(st, s, id) && s in SURFACES
    ensures Held(Next(st, event), s, id)
  {
    match event
    case Edit(_) =>
    case Update =>
      var base := st.file.value;
      if Readable(st.tree) && !Blocked(st.tree, base) && id !in Gone(base.removed, s) {
        assert id !in DriftOf(st.tree, base, s).breaking;
      }
    case WriteRemovals(entries) =>
      var base := st.file.value;
      if id in Gone(base.removed, s) {
        var e :| e in base.removed && e.surface == Some(s) && e.id == id;
        assert e in base.removed + entries;
      }
  }

  lemma {:induction false} HeldForGood(st: State, events: seq<Event>, s: Surface, id: string)
    requires Held(st, s, id) && s in SURFACES
    ensures Held(After(st, events), s, id)
    decreases |events|
  {
    if events != [] {
      HeldByStep(st, events[0], s, id);
      HeldForGood(Next(st, events[0]), events[1..], s, id);
    }
  }

  lemma {:induction false} AfterConcat(st: State, a: seq<Event>, b: seq<Event>)
    ensures After(st, a + b) == After(After(st, a), b)
    decreases |a|
  {
    if a == [] {
      assert a + b == b;
    } else {
      assert (a + b)[0] == a[0] && (a + b)[1..] == a[1..] + b;
      AfterConcat(Next(st, a[0]), a[1..], b);
    }
  }

  /**
   Over every history, an id that was pinned at any point is, at every later
   point, still pinned or written down as removed; and when a strict check then
   passes, the tree still has it, or a reviewable removal says where it went.
   */
  lemma NoSilentRemoval(st: State, before: seq<Event>, after: seq<Event>, s: Surface, id: string)
    requires Promised(After(st, before), s, id) && s in SURFACES
    ensures var end := After(st, before + after);
            && Held(end, s, id)
            && ((forall e :: e in end.file.value.removed ==> Reviewable(e)) && Agrees(end.tree, end.file.value, s) ==>
                  || id in At(end.tree.ids, s)
                  || exists e :: e in end.file.value.removed && e.surface == Some(s) && e.id == id && Reviewable(e))
  {
    AfterConcat(st, before, after);
    HeldForGood(After(st, before), after, s, id);
    var end := After(st, before + after);
    if id in Gone(end.file.value.removed, s) {
      var e :| e in end.file.value.removed && e.surface == Some(s) && e.id == id;
    }
  }

  /** A rewrite that goes through pins the tree less the removed, and keeps every hand-written part. */
  lemma UpdatePinsTheTree(st: State)
    requires Readable(st.tree) && (st.file.Some? ==> !Blocked(st.tree, st.file.value))
    ensures var file := Next(st, Update).file;
            && file.Some?
            && (forall s :: s in SURFACES ==> At(file.value.pinned, s) == At(st.tree.ids, s) - Gone(file.value.removed, s))
            && (st.file.Some? ==>
                  && file.value.removed == st.file.value.removed
                  && file.value.docsUndocumented == st.file.value.docsUndocumented
                  && forall s :: s in SURFACES ==> Agrees(st.tree, file.value, s))
  {
    if st.file.Some? {
      forall s | s in SURFACES ensures Agrees(st.tree, Rewritten(st.tree, st.file), s) {
        assert DriftOf(st.tree, st.file.value, s).resurrected == {};
      }
    }
  }

  /** A blocked rewrite leaves the file as it was: it cannot launder a removal. */
  lemma UpdateRefuses(st: State, s: Surface, id: string)
    requires Promised(st, s, id) && s in SURFACES
    requires id !in At(st.tree.ids, s) && id !in Gone(st.file.value.removed, s)
    ensures Next(st, Update) == st
  {
    assert id in DriftOf(st.tree, st.file.value, s).breaking;
  }

  /**
   Erasing a removal by hand is a way around the ledger: with the entry gone, and
   no other for the same id, a clean file stays clean and holds the id no more.
   */
  lemma ErasedRemovalForgets(tree: Tree, base: Baseline, i: nat, s: Surface, id: string)
    requires i < |base.removed| && base.removed[i].surface == Some(s) && base.removed[i].id == id
    requires Agrees(tree, base, s) && id !in At(base.pinned, s) && id !in At(tree.ids, s)
    requires forall k :: 0 <= k < |base.removed| && k != i ==>
               !(base.removed[k].surface == Some(s) && base.removed[k].id == id)
    ensures var erased := base.(removed := base.removed[..i] + base.removed[i + 1..]);
            && Agrees(tree, erased, s)
            && !Held(State(tree, Some(erased)), s, id)
  {
    var rest := base.removed[..i] + base.removed[i + 1..];
    assert base.removed == base.removed[..i] + [base.removed[i]] + base.removed[i + 1..];
    assert Gone(base.removed, s) == Gone(rest, s) + {id} by {
      forall x ensures x in Gone(base.removed, s) <==> x in Gone(rest, s) || x == id {
        if x in Gone(base.removed, s) {
          var e :| e in base.removed && e.surface == Some(s) && e.id == x;
          if e != base.removed[i] { assert e in rest; }
        }
        if x in Gone(rest, s) {
          var e :| e in rest && e.surface == Some(s) && e.id == x;
          assert e in base.removed;
        }
      }
    }
    assert id !in Gone(rest, s) by {
      forall k | 0 <= k < |rest| ensures !(rest[k].surface == Some(s) && rest[k].id == id) {
        assert base.removed[if k < i then k else k + 1] == rest[k];
      }
    }
    assert At(base.pinned, s) - Gone(rest, s) == At(base.pinned, s) - Gone(base.removed, s);
  }
}
