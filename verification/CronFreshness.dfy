/**
 The gate that asks of every workflow no push ever runs whether somebody has run
 the version that is committed.
 */
module CronFreshness {
  import opened Basics

  // ------------------------------------------------------------ versions

  /** A workflow's text with every CRLF read as LF: what is hashed as its version. */
  function Normalised(s: string): string {
    if s == [] then []
    else if |s| > 1 && s[0] == '\r' && s[1] == '\n' then "\n" + Normalised(s[2..])
    else [s[0]] + Normalised(s[1..])
  }

  /** What a checkout with CRLF line endings makes of a text. */
  function CrLf(s: string): string {
    if s == [] then [] else (if s[0] == '\n' then "\r\n" else [s[0]]) + CrLf(s[1..])
  }

  predicate HasCrLf(s: string) {
    exists i :: 0 <= i < |s| - 1 && s[i] == '\r' && s[i + 1] == '\n'
  }

  /** Normalising takes a CRLF checkout back to the committed text, whatever that was. */
  lemma {:induction false} NormalisedUndoesCrLf(s: string)
    ensures Normalised(CrLf(s)) == s
  {
    if s != [] {
      NormalisedUndoesCrLf(s[1..]);
      var t := CrLf(s);
      if s[0] == '\n' {
        assert t[2..] == CrLf(s[1..]) && s == "\n" + s[1..];
      } else {
        assert t[1..] == CrLf(s[1..]) && s == [s[0]] + s[1..];
        assert |t| > 1 ==> t[1] == CrLf(s[1..])[0];
        if |t| > 1 { NoLeadingNewline(s[1..]); }
      }
    }
  }

  lemma NoLeadingNewline(s: string)
    ensures CrLf(s) != [] ==> CrLf(s)[0] != '\n'
  {}

  lemma {:induction false} NormalisedKeeps(s: string)
    ensures Normalised(s) == s <==> !HasCrLf(s)
    ensures |Normalised(s)| <= |s|
    decreases |s|
  {
    if |s| > 1 && s[0] == '\r' && s[1] == '\n' {
      NormalisedKeeps(s[2..]);
      assert HasCrLf(s);
      assert |Normalised(s)| < |s|;
    } else if s != [] {
      NormalisedKeeps(s[1..]);
      assert s == [s[0]] + s[1..] && Normalised(s)[1..] == Normalised(s[1..]);
      if HasCrLf(s) {
        var i :| 0 <= i < |s| - 1 && s[i] == '\r' && s[i + 1] == '\n';
        assert s[1..][i - 1] == '\r' && s[1..][i] == '\n';
      }
      if HasCrLf(s[1..]) {
        var i :| 0 <= i < |s[1..]| - 1 && s[1..][i] == '\r' && s[1..][i + 1] == '\n';
        assert s[i + 1] == '\r' && s[i + 2] == '\n';
      }
    }
  }

  /** Two checkouts of a text free of CRLF, one of them with CRLF endings, are one version. */
  lemma CheckoutsAreOneVersion(s: string)
    ensures Normalised(CrLf(s)) == Normalised(s) <==> !HasCrLf(s)
  {
    NormalisedUndoesCrLf(s);
    NormalisedKeeps(s);
  }

  // ----------------------------------------------------------- run history

  /** A listed run; `text` is the workflow as of its commit, when that could be read. */
  datatype Run = Run(text: Option<string>)

  /** What asking for the runs of a workflow answers. */
  datatype Listing = Refused(names404: bool) | Listed(runs: seq<Run>)

  datatype History = NeverRun | Unreadable | Fresh | Stale

  predicate Ran(run: Run, text: string) {
    run.text.Some? && Normalised(run.text.value) == Normalised(text)
  }

  method RunOfThisVersion(listing: Listing, text: string) returns (history: History)
    ensures history == HistoryOf(listing, text)
  {
    match listing {
      case Refused(names404) =>
        return if names404 then NeverRun else Unreadable;
      case Listed(runs) =>
        if runs == [] {
          return NeverRun;
        }
        var resolved := 0;
        for i := 0 to |runs|
          invariant resolved == 0 <==> forall k :: 0 <= k < i ==> runs[k].text == None
          invariant resolved >= 0
          invariant forall k :: 0 <= k < i ==> !Ran(runs[k], text)
        {
          if runs[i].text == None {
            continue;
          }
          resolved := resolved + 1;
          if Normalised(runs[i].text.value) == Normalised(text) {
            assert Ran(runs[i], text) && runs[i] in runs;
            return Fresh;
          }
        }
        return if resolved == 0 then Unreadable else Stale;
    }
  }

  /** Fresh when some run executed this version; never run, or unreadable, before stale. */
  function HistoryOf(listing: Listing, text: string): History {
    match listing
    case Refused(names404) => if names404 then NeverRun else Unreadable
    case Listed(runs) =>
      if runs == [] then NeverRun
      else if exists run :: run in runs && Ran(run, text) then Fresh
      else if forall run :: run in runs ==> run.text == None then Unreadable
      else Stale
  }

  // ----------------------------------------------------------------- the gate

  datatype Workflow = Workflow(stem: string, exempt: bool, triggers: set<string>, text: string, listing: Listing)

  const PUSH_TRIGGERS := {"push", "pull_request", "pull_request_target", "merge_group"}

  predicate CronOnly(w: Workflow) {
    !w.exempt && w.triggers * PUSH_TRIGGERS == {}
  }

  function Now(w: Workflow): History {
    HistoryOf(w.listing, w.text)
  }

  function Stems(ws: seq<Workflow>): set<string> {
    set w | w in ws && CronOnly(w) :: w.stem
  }

  function StemsOf(ws: seq<Workflow>, history: History): set<string> {
    set w | w in ws && CronOnly(w) && Now(w) == history :: w.stem
  }

  ghost predicate Distinct(ws: seq<Workflow>) {
    forall i, j :: 0 <= i < j < |ws| ==> ws[i].stem != ws[j].stem
  }

  // The five lists `main` fills, as it stands before workflow number `i`.
  ghost predicate Filed(ws: seq<Workflow>, recorded: set<string>, i: nat, cronOnly: seq<string>, never: seq<string>,
                        unknown: seq<string>, ranSince: seq<string>, stale: seq<string>)
    requires i <= |ws|
  {
    && (forall s :: s in cronOnly <==> s in Stems(ws[..i]))
    && (forall s :: s in never <==> s in StemsOf(ws[..i], NeverRun))
    && (forall s :: s in unknown <==> s in StemsOf(ws[..i], Unreadable))
    && (forall s :: s in ranSince <==> s in recorded && (s in StemsOf(ws[..i], Fresh) || s in StemsOf(ws[..i], Stale)))
    && (forall s :: s in stale <==> s in StemsOf(ws[..i], Stale))
  }

  lemma FiledStep(ws: seq<Workflow>, i: nat)
    requires i < |ws|
    ensures var w := ws[i];
            && Stems(ws[..i + 1]) == Stems(ws[..i]) + (if CronOnly(w) then {w.stem} else {})
            && forall h :: StemsOf(ws[..i + 1], h) == StemsOf(ws[..i], h) + (if CronOnly(w) && Now(w) == h then {w.stem} else {})
  {
    hide CronOnly, Now;
    assert ws[..i + 1] == ws[..i] + [ws[i]];
  }

  /** The gate past its tool and shallow-clone preconditions. */
  method Gate(ws: seq<Workflow>, recorded: set<string>, strict: bool) returns (exit: int)
    ensures exit == 0 <==> Passes(ws, recorded, strict)
    ensures exit == 0 || exit == 1
  {
    hide Now, Filed, CronOnly, Stems, StemsOf, Passes, HistoryOf;
    var cronOnly, never, unknown, ranSince, stale := [], [], [], [], [];
    NothingFiled(ws, recorded);
    for i := 0 to |ws|
      invariant Filed(ws, recorded, i, cronOnly, never, unknown, ranSince, stale)
    {
      var w := ws[i];
      FileOne(ws, recorded, i, cronOnly, never, unknown, ranSince, stale);
      NowIs(w);
      if w.exempt {
        continue;
      }
      if w.triggers * PUSH_TRIGGERS != {} {
        continue;
      }
      cronOnly := cronOnly + [w.stem];
      var history := RunOfThisVersion(w.listing, w.text);
      if history == NeverRun {
        never := never + [w.stem];
        continue;
      }
      if history == Unreadable {
        unknown := unknown + [w.stem];
        continue;
      }
      if w.stem in recorded {
        ranSince := ranSince + [w.stem];
      }
      if history == Stale {
        stale := stale + [w.stem];
      }
    }
    AllFiled(ws, recorded, cronOnly, never, unknown, ranSince, stale);
    if cronOnly == [] {
      return 1;
    }
    var orphan := exists s :: s in recorded && s !in cronOnly;
    var unrecorded := exists s :: s in never && s !in recorded;
    if unrecorded {
      return 1;
    }
    if ranSince != [] || orphan {
      return 1;
    }
    if unknown != [] && strict {
      return 1;
    }
    if stale != [] {
      return 1;
    }
    return 0;
  }

  lemma NowIs(w: Workflow)
    ensures Now(w) == HistoryOf(w.listing, w.text)
    ensures CronOnly(w) <==> !w.exempt && w.triggers * PUSH_TRIGGERS == {}
  {}

  lemma NothingFiled(ws: seq<Workflow>, recorded: set<string>)
    ensures Filed(ws, recorded, 0, [], [], [], [], [])
  {}

  lemma FileOne(ws: seq<Workflow>, recorded: set<string>, i: nat, cronOnly: seq<string>, never: seq<string>,
                unknown: seq<string>, ranSince: seq<string>, stale: seq<string>)
    requires i < |ws| && Filed(ws, recorded, i, cronOnly, never, unknown, ranSince, stale)
    ensures var (w, h) := (ws[i], Now(ws[i]));
            if !CronOnly(w) then Filed(ws, recorded, i + 1, cronOnly, never, unknown, ranSince, stale)
            else
              Filed(ws, recorded, i + 1, cronOnly + [w.stem],
                    if h == NeverRun then never + [w.stem] else never,
                    if h == Unreadable then unknown + [w.stem] else unknown,
                    if (h == Fresh || h == Stale) && w.stem in recorded then ranSince + [w.stem] else ranSince,
                    if h == Stale then stale + [w.stem] else stale)
  {
    hide Now, CronOnly, Stems, StemsOf;
    FiledStep(ws, i);
    var (w, h) := (ws[i], Now(ws[i]));
    forall k: History
      ensures StemsOf(ws[..i + 1], k) == StemsOf(ws[..i], k) + if CronOnly(w) && h == k then {w.stem} else {}
    {
    }
    match h
    case Fresh =>
    case Stale =>
    case NeverRun =>
    case Unreadable =>
  }

  /** The facts the gate decides on, over the sets of stems. */
  ghost predicate Passes(ws: seq<Workflow>, recorded: set<string>, strict: bool) {
    && Stems(ws) != {}
    && StemsOf(ws, NeverRun) <= recorded <= Stems(ws)
    && recorded !! (StemsOf(ws, Fresh) + StemsOf(ws, Stale))
    && (strict ==> StemsOf(ws, Unreadable) == {})
    && StemsOf(ws, Stale) == {}
  }

  lemma AllFiled(ws: seq<Workflow>, recorded: set<string>, cronOnly: seq<string>, never: seq<string>,
                 unknown: seq<string>, ranSince: seq<string>, stale: seq<string>)
    requires Filed(ws, recorded, |ws|, cronOnly, never, unknown, ranSince, stale)
    ensures Passes(ws, recorded, true) <==>
            && cronOnly != [] && (forall s :: s in never ==> s in recorded) && (forall s :: s in recorded ==> s in cronOnly)
            && ranSince == [] && unknown == [] && stale == []
    ensures Passes(ws, recorded, false) <==>
            && cronOnly != [] && (forall s :: s in never ==> s in recorded) && (forall s :: s in recorded ==> s in cronOnly)
            && ranSince == [] && stale == []
  {
    hide Now, CronOnly, Stems, StemsOf;
    assert ws[..|ws|] == ws;
    EmptyBy(cronOnly, Stems(ws));
    EmptyBy(unknown, StemsOf(ws, Unreadable));
    EmptyBy(stale, StemsOf(ws, Stale));
    EmptyBy(ranSince, recorded * (StemsOf(ws, Fresh) + StemsOf(ws, Stale)));
  }

  lemma EmptyBy(list: seq<string>, all: set<string>)
    requires forall s :: s in list <==> s in all
    ensures list == [] <==> all == {}
  {
    if list != [] { assert list[0] in all; }
  }

  /**
   In strict mode the gate passes exactly when there is a cron-only workflow,
   every one of them has either a run of its committed version or no run at all,
   and the recorded ones are exactly those without a run.
   */
  lemma StrictPass(ws: seq<Workflow>, recorded: set<string>)
    requires Distinct(ws)
    ensures Passes(ws, recorded, true) <==>
            && (exists w :: w in ws && CronOnly(w))
            && (forall w :: w in ws && CronOnly(w) ==> Now(w) == Fresh || Now(w) == NeverRun)
            && recorded == StemsOf(ws, NeverRun)
  {
    hide CronOnly, Now;
    var facts := && (exists w :: w in ws && CronOnly(w))
                 && (forall w :: w in ws && CronOnly(w) ==> Now(w) == Fresh || Now(w) == NeverRun)
                 && recorded == StemsOf(ws, NeverRun);
    if Passes(ws, recorded, true) {
      var s :| s in Stems(ws);
      var w :| w in ws && CronOnly(w) && w.stem == s;
      forall v | v in ws && CronOnly(v) ensures Now(v) == Fresh || Now(v) == NeverRun {
        StemIn(ws, v);
      }
      forall s | s in recorded ensures s in StemsOf(ws, NeverRun) {
        var v :| v in ws && CronOnly(v) && v.stem == s;
        StemIn(ws, v);
      }
    }
    if facts {
      var w :| w in ws && CronOnly(w);
      assert w.stem in Stems(ws);
      forall s | s in recorded ensures s in Stems(ws) && s !in StemsOf(ws, Fresh) && s !in StemsOf(ws, Stale) {
        var v :| v in ws && CronOnly(v) && Now(v) == NeverRun && v.stem == s;
        OneHistory(ws, v);
      }
    }
  }

  lemma StemIn(ws: seq<Workflow>, v: Workflow)
    requires v in ws && CronOnly(v)
    ensures v.stem in Stems(ws) && v.stem in StemsOf(ws, Now(v))
  {}

  // Stems are file names: one stem has one history.
  lemma OneHistory(ws: seq<Workflow>, v: Workflow)
    requires Distinct(ws) && v in ws && CronOnly(v)
    ensures forall h :: v.stem in StemsOf(ws, h) ==> h == Now(v)
  {
    hide Now, CronOnly;
    forall h | v.stem in StemsOf(ws, h) ensures h == Now(v) {
      var u :| u in ws && CronOnly(u) && Now(u) == h && u.stem == v.stem;
      assert u == v;
    }
  }

  /**
   Committed texts that change in their line endings only do not change the
   verdict.
   */
  lemma VerdictIsOfVersions(ws: seq<Workflow>, moved: seq<Workflow>, recorded: set<string>, strict: bool)
    requires |moved| == |ws|
    requires forall i :: 0 <= i < |ws| ==>
               moved[i] == ws[i].(text := moved[i].text) && Normalised(moved[i].text) == Normalised(ws[i].text)
    ensures Passes(moved, recorded, strict) <==> Passes(ws, recorded, strict)
  {
    forall i | 0 <= i < |ws| ensures CronOnly(moved[i]) == CronOnly(ws[i]) && Now(moved[i]) == Now(ws[i]) {
      SameHistory(ws[i].listing, moved[i].text, ws[i].text);
    }
    SameStems(ws, moved);
  }

  lemma SameHistory(listing: Listing, a: string, b: string)
    requires Normalised(a) == Normalised(b)
    ensures HistoryOf(listing, a) == HistoryOf(listing, b)
  {
    hide Normalised;
    assert forall run :: Ran(run, a) <==> Ran(run, b);
  }

  lemma SameStems(ws: seq<Workflow>, moved: seq<Workflow>)
    requires |moved| == |ws|
    requires forall i :: 0 <= i < |ws| ==>
               moved[i].stem == ws[i].stem && CronOnly(moved[i]) == CronOnly(ws[i]) && Now(moved[i]) == Now(ws[i])
    ensures Stems(moved) == Stems(ws) && forall h :: StemsOf(moved, h) == StemsOf(ws, h)
  {
    hide Now, CronOnly;
    SubStems(ws, moved);
    SubStems(moved, ws);
  }

  lemma SubStems(ws: seq<Workflow>, moved: seq<Workflow>)
    requires |moved| == |ws|
    requires forall i :: 0 <= i < |ws| ==>
               moved[i].stem == ws[i].stem && CronOnly(moved[i]) == CronOnly(ws[i]) && Now(moved[i]) == Now(ws[i])
    ensures Stems(moved) <= Stems(ws) && forall h :: StemsOf(moved, h) <= StemsOf(ws, h)
  {
    hide Now, CronOnly;
    forall w | w in moved && CronOnly(w) ensures exists v :: v in ws && CronOnly(v) && v.stem == w.stem && Now(v) == Now(w) {
      var i :| 0 <= i < |moved| && moved[i] == w;
      assert ws[i] in ws;
    }
  }
}
