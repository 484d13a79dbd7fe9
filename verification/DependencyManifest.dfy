/**
 Reading the requirements of one manifest in two passes: a TOML parser says
 which strings are requirements, a line pass says where each one stands and what
 comment is attached to it.
 */
module DependencyManifest {
  import opened Basics

  // ------------------------------------------------------------- one line

  /** The text of a comment line; None on any other line. */
  function CommentOf(line: string): Option<string> {
    var s := SkipSpace(line);
    if s != [] && s[0] == '#' then Some(Strip(s[1..])) else None
  }

  predicate IsBlank(line: string) {
    SkipSpace(line) == []
  }

  predicate IsQuote(c: char) {
    c == '"' || c == '\''
  }

  function Unquoted(s: string): (n: nat)
    ensures n <= |s|
  {
    if s == [] || IsQuote(s[0]) then 0 else 1 + Unquoted(s[1..])
  }

  /** The non-empty strings between quotes, left to right. */
  function Quoted(line: string): seq<string>
    decreases |line|
  {
    if line == [] then []
    else
      var n := Unquoted(line[1..]);
      if IsQuote(line[0]) && n > 0 && n + 1 < |line| then [line[1..n + 1]] + Quoted(line[n + 2..])
      else Quoted(line[1..])
  }

  // ---------------------------------------------------------- one requirement

  predicate IsAlnum(c: char) {
    'a' <= c <= 'z' || 'A' <= c <= 'Z' || '0' <= c <= '9'
  }

  function NameLen(s: string): (n: nat)
    ensures n <= |s|
  {
    if s != [] && (IsAlnum(s[0]) || s[0] in "._-") then 1 + NameLen(s[1..]) else 0
  }

  function Lower(c: char): char {
    if 'A' <= c <= 'Z' then (c - 'A') + 'a' else c
  }

  // A run of separators becomes one dash; `after` says whether one was just written.
  function Normalise(name: string, after: bool): string {
    if name == [] then []
    else if name[0] in "-_." then (if after then "" else "-") + Normalise(name[1..], true)
    else [Lower(name[0])] + Normalise(name[1..], false)
  }

  function NoSpaces(s: string): string {
    if s == [] then [] else (if s[0] == ' ' then "" else [s[0]]) + NoSpaces(s[1..])
  }

  /** Name and specifier of a requirement, or None when it is not one. */
  function SplitRequirement(requirement: string): Option<(string, string)> {
    var s := Strip(requirement[..IndexOf(requirement, ';')]);
    if s == [] || !IsAlnum(s[0]) then None
    else
      var n := NameLen(s);
      var rest := SkipSpace(s[n..]);
      var close := IndexOf(rest, ']');
      var spec := SkipSpace(if rest != [] && rest[0] == '[' && close < |rest| then rest[close + 1..] else rest);
      if '\n' in spec then None else Some((Normalise(s[..n], false), NoSpaces(spec)))
  }

  /** Normalising a name twice is normalising it once, so two spellings compare equal in any form. */
  lemma {:induction false} NormaliseTwice(name: string, after: bool)
    ensures Normalise(Normalise(name, after), after) == Normalise(name, after)
    ensures after && Normalise(name, after) != [] ==> Normalise(name, after)[0] !in "-_."
    decreases |name|
  {
    if name != [] {
      var out := Normalise(name, after);
      if name[0] in "-_." {
        NormaliseTwice(name[1..], true);
        if !after {
          assert out == "-" + Normalise(name[1..], true);
          assert out[1..] == Normalise(name[1..], true);
        } else {
          assert out == Normalise(name[1..], true);
        }
      } else {
        NormaliseTwice(name[1..], false);
        assert out[0] == Lower(name[0]) && out[1..] == Normalise(name[1..], false);
      }
    }
  }

  // ------------------------------------------------------------- the manifest

  datatype Entry = Entry(name: string, spec: string, requirement: string, line: nat, comments: seq<string>)

  /** The comments of the unbroken run of comment lines directly above line `i`. */
  function RunAbove(lines: seq<string>, i: nat): seq<string>
    requires i <= |lines|
  {
    if i == 0 || CommentOf(lines[i - 1]).None? then []
    else RunAbove(lines, i - 1) + [CommentOf(lines[i - 1]).value]
  }

  /** Every quoted string of the first `i` lines, comments and blank lines left out. */
  function QuotedUpTo(lines: seq<string>, i: nat): seq<string>
    requires i <= |lines|
  {
    if i == 0 then []
    else QuotedUpTo(lines, i - 1)
         + if CommentOf(lines[i - 1]).Some? || IsBlank(lines[i - 1]) then [] else Quoted(lines[i - 1])
  }

  function Requirements(found: seq<Entry>): seq<string> {
    if found == [] then [] else Requirements(found[..|found| - 1]) + [found[|found| - 1].requirement]
  }

  lemma RequirementsMore(found: seq<Entry>, e: Entry)
    ensures multiset(Requirements(found + [e])) == multiset(Requirements(found)) + multiset{e.requirement}
  {
    assert (found + [e])[..|found|] == found;
  }

  function Least(a: nat, b: nat): nat {
    if a < b then a else b
  }

  function Rest(declared: nat, quoted: nat): nat {
    if declared <= quoted then 0 else declared - quoted
  }

  /** An entry says where its requirement is quoted and what stands directly above. */
  ghost predicate Placed(lines: seq<string>, e: Entry) {
    && SplitRequirement(e.requirement) == Some((e.name, e.spec))
    && e.line <= |lines|
    && (e.line == 0 ==> e.comments == [])
    && (e.line > 0 ==>
          && CommentOf(lines[e.line - 1]).None? && !IsBlank(lines[e.line - 1])
          && e.requirement in Quoted(lines[e.line - 1])
          && e.comments == RunAbove(lines, e.line - 1))
  }

  // What is left to find after `quoted`, and what has been found of it.
  ghost predicate Balanced(declared: seq<string>, quoted: seq<string>, pending: map<string, nat>, found: seq<Entry>) {
    && (forall r :: r in pending <==> r in declared)
    && (forall r :: r in pending ==> pending[r] == Rest(multiset(declared)[r], multiset(quoted)[r]))
    && (forall r :: multiset(Requirements(found))[r] ==
          if r in pending && SplitRequirement(r).Some? then multiset(declared)[r] - pending[r] else 0)
  }

  method CountDeclared(declared: seq<string>) returns (pending: map<string, nat>, order: seq<string>)
    ensures forall r :: r in pending <==> r in declared
    ensures forall r :: r in pending ==> pending[r] == multiset(declared)[r]
    ensures forall r :: r in pending <==> r in order
    ensures forall i, j :: 0 <= i < j < |order| ==> order[i] != order[j]
  {
    pending, order := map[], [];
    for i := 0 to |declared|
      invariant forall r :: r in pending <==> r in declared[..i]
      invariant forall r :: r in pending ==> pending[r] == multiset(declared[..i])[r]
      invariant forall r :: r in pending <==> r in order
      invariant forall i, j :: 0 <= i < j < |order| ==> order[i] != order[j]
    {
      var r := declared[i];
      assert declared[..i + 1] == declared[..i] + [r];
      if r !in pending {
        order := order + [r];
        assert multiset(declared[..i])[r] == 0 by { assert r !in multiset(declared[..i]); }
      }
      pending := pending[r := (if r in pending then pending[r] else 0) + 1];
    }
    assert declared[..|declared|] == declared;
  }

  lemma BalancedStart(declared: seq<string>, pending: map<string, nat>)
    requires forall r :: r in pending <==> r in declared
    requires forall r :: r in pending ==> pending[r] == multiset(declared)[r]
    ensures Balanced(declared, [], pending, [])
  {}

  lemma BalancedStep(declared: seq<string>, quoted: seq<string>, pending: map<string, nat>, found: seq<Entry>, r: string,
                     e: Entry)
    requires Balanced(declared, quoted, pending, found) && e.requirement == r
    ensures r !in pending || pending[r] == 0 ==> Balanced(declared, quoted + [r], pending, found)
    ensures r in pending && pending[r] > 0 && SplitRequirement(r).None? ==>
              Balanced(declared, quoted + [r], pending[r := pending[r] - 1], found)
    ensures r in pending && pending[r] > 0 && SplitRequirement(r).Some? ==>
              Balanced(declared, quoted + [r], pending[r := pending[r] - 1], found + [e])
  {
    hide SplitRequirement, Requirements;
    RequirementsMore(found, e);
    assert multiset(quoted + [r]) == multiset(quoted) + multiset{r};
  }

  ghost predicate AllPlaced(lines: seq<string>, found: seq<Entry>) {
    forall e :: e in found ==> Placed(lines, e)
  }

  lemma PlacedStep(lines: seq<string>, found: seq<Entry>, e: Entry)
    requires AllPlaced(lines, found) && Placed(lines, e)
    ensures AllPlaced(lines, found + [e])
  {}

  method ParseManifest(declared: seq<string>, lines: seq<string>) returns (found: seq<Entry>)
    ensures AllPlaced(lines, found)
    ensures forall r :: multiset(Requirements(found))[r] ==
              if SplitRequirement(r).Some? then multiset(declared)[r] else 0
    ensures forall r :: multiset(Requirements(Located(found)))[r] ==
              if SplitRequirement(r).Some? then Least(multiset(declared)[r], multiset(QuotedUpTo(lines, |lines|))[r]) else 0
  {
    hide SplitRequirement, CommentOf, Quoted, IsBlank, Requirements, Balanced, AllPlaced, Placed, RunAbove, QuotedUpTo, Located;
    var pending, order := CountDeclared(declared);
    found := [];
    var comments: seq<string> := [];
    BalancedStart(declared, pending);
    NonePlaced(lines);
    for number := 0 to |lines|
      invariant comments == RunAbove(lines, number)
      invariant Balanced(declared, QuotedUpTo(lines, number), pending, found)
      invariant AllPlaced(lines, found) && Located(found) == found
      invariant forall r :: r in pending <==> r in order
    {
      var line := lines[number];
      LineStep(lines, number);
      var comment := CommentOf(line);
      if comment.Some? {
        comments := comments + [comment.value];
        continue;
      }
      if IsBlank(line) {
        comments := [];
        continue;
      }
      var values := Quoted(line);
      ghost var before := QuotedUpTo(lines, number);
      assert before + values[..0] == before;
      for k := 0 to |values|
        invariant Balanced(declared, before + values[..k], pending, found)
        invariant AllPlaced(lines, found) && Located(found) == found
        invariant forall r :: r in pending <==> r in order
      {
        var value := values[k];
        var parts := SplitRequirement(value);
        var e := Entry(if parts.Some? then parts.value.0 else "", if parts.Some? then parts.value.1 else "",
                       value, number + 1, comments);
        BalancedStep(declared, before + values[..k], pending, found, value, e);
        assert before + values[..k + 1] == before + values[..k] + [value];
        if value !in pending || pending[value] == 0 {
          continue;
        }
        pending := pending[value := pending[value] - 1];
        if parts.Some? {
          PlacedHere(lines, number, e);
          PlacedStep(lines, found, e);
          LocatedMore(found, e);
          found := found + [e];
        }
      }
      assert before + values[..|values|] == before + values;
      comments := [];
    }
    ghost var located := found;
    TallyLocated(declared, QuotedUpTo(lines, |lines|), pending, found);
    found := AppendUnlocated(declared, lines, order, pending, found);
    TallyAll(declared, pending, order, located, found);
  }

  function Located(found: seq<Entry>): seq<Entry> {
    if found == [] then []
    else
      var last := found[|found| - 1];
      Located(found[..|found| - 1]) + if last.line > 0 then [last] else []
  }

  lemma LocatedMore(found: seq<Entry>, e: Entry)
    ensures Located(found + [e]) == Located(found) + if e.line > 0 then [e] else []
  {
    assert (found + [e])[..|found|] == found;
  }

  lemma NonePlaced(lines: seq<string>)
    ensures AllPlaced(lines, []) && RunAbove(lines, 0) == [] && QuotedUpTo(lines, 0) == [] && Located([]) == []
  {}

  lemma LineStep(lines: seq<string>, i: nat)
    requires i < |lines|
    ensures RunAbove(lines, i + 1) ==
              if CommentOf(lines[i]).Some? then RunAbove(lines, i) + [CommentOf(lines[i]).value] else []
    ensures QuotedUpTo(lines, i + 1) ==
              if CommentOf(lines[i]).Some? || IsBlank(lines[i]) then QuotedUpTo(lines, i)
              else QuotedUpTo(lines, i) + Quoted(lines[i])
  {
    hide CommentOf, Quoted, IsBlank;
    assert QuotedUpTo(lines, i) + [] == QuotedUpTo(lines, i);
  }

  lemma PlacedHere(lines: seq<string>, i: nat, e: Entry)
    requires i < |lines| && e.line == i + 1 && e.comments == RunAbove(lines, i)
    requires CommentOf(lines[i]).None? && !IsBlank(lines[i]) && e.requirement in Quoted(lines[i])
    requires SplitRequirement(e.requirement) == Some((e.name, e.spec))
    ensures Placed(lines, e)
  {}

  // The second pass: what no line quoted is returned all the same, at line 0.
  ghost predicate Appended(pending: map<string, nat>, done: seq<string>, located: seq<Entry>, found: seq<Entry>) {
    && Located(found) == Located(located)
    && forall r :: multiset(Requirements(found))[r] == multiset(Requirements(located))[r]
                   + if r in done && r in pending && SplitRequirement(r).Some? then pending[r] else 0
  }

  method AppendUnlocated(ghost declared: seq<string>, lines: seq<string>, order: seq<string>, pending: map<string, nat>,
                         located: seq<Entry>) returns (found: seq<Entry>)
    requires AllPlaced(lines, located)
    requires forall r :: r in pending <==> r in order
    requires forall i, j :: 0 <= i < j < |order| ==> order[i] != order[j]
    ensures AllPlaced(lines, found) && Appended(pending, order, located, found)
  {
    hide SplitRequirement, CommentOf, Quoted, IsBlank, Requirements, AllPlaced, Placed, RunAbove, Located;
    found := located;
    for i := 0 to |order|
      invariant AllPlaced(lines, found) && Appended(pending, order[..i], located, found)
    {
      var r := order[i];
      assert order[..i + 1] == order[..i] + [r];
      assert r in pending && r !in order[..i];
      var parts := SplitRequirement(r);
      if parts == None {
        continue;
      }
      ghost var before := found;
      var e := Entry(parts.value.0, parts.value.1, r, 0, []);
      UnlocatedIsPlaced(lines, e);
      for n := 0 to pending[r]
        invariant AllPlaced(lines, found) && Located(found) == Located(before)
        invariant multiset(Requirements(found)) == multiset(Requirements(before))[r := multiset(Requirements(before))[r] + n]
      {
        RequirementsMore(found, e);
        LocatedMore(found, e);
        PlacedStep(lines, found, e);
        assert Located(found) + [] == Located(found);
        found := found + [e];
      }
    }
    assert order[..|order|] == order;
  }

  lemma UnlocatedIsPlaced(lines: seq<string>, e: Entry)
    requires e.line == 0 && e.comments == [] && SplitRequirement(e.requirement) == Some((e.name, e.spec))
    ensures Placed(lines, e)
  {}

  lemma TallyLocated(declared: seq<string>, quoted: seq<string>, pending: map<string, nat>, found: seq<Entry>)
    requires Balanced(declared, quoted, pending, found)
    ensures forall r :: multiset(Requirements(found))[r] ==
              if SplitRequirement(r).Some? then Least(multiset(declared)[r], multiset(quoted)[r]) else 0
    ensures forall r :: r in pending ==> pending[r] <= multiset(declared)[r]
    ensures forall r :: multiset(Requirements(found))[r] ==
              if r in pending && SplitRequirement(r).Some? then multiset(declared)[r] - pending[r] else 0
    ensures forall r :: r !in pending ==> multiset(declared)[r] == 0
  {
    hide SplitRequirement, Requirements;
    forall r | r !in pending ensures multiset(declared)[r] == 0 {
      assert r !in multiset(declared);
    }
  }

  lemma TallyAll(declared: seq<string>, pending: map<string, nat>, order: seq<string>, located: seq<Entry>,
                 found: seq<Entry>)
    requires Appended(pending, order, located, found)
    requires forall r :: r in pending <==> r in order
    requires forall r :: r in pending ==> pending[r] <= multiset(declared)[r]
    requires forall r :: r !in pending ==> multiset(declared)[r] == 0
    requires forall r :: multiset(Requirements(located))[r] ==
               if r in pending && SplitRequirement(r).Some? then multiset(declared)[r] - pending[r] else 0
    ensures forall r :: multiset(Requirements(found))[r] == if SplitRequirement(r).Some? then multiset(declared)[r] else 0
  {
    hide SplitRequirement, Requirements;
  }

  /** The run above a line is as long as it can be: every line of it is a comment, the one before it is not. */
  lemma {:induction false} RunIsMaximal(lines: seq<string>, i: nat)
    requires i <= |lines|
    ensures var n := |RunAbove(lines, i)|;
            && n <= i
            && (forall k :: i - n <= k < i ==> CommentOf(lines[k]) == Some(RunAbove(lines, i)[k - (i - n)]))
            && (n < i ==> CommentOf(lines[i - n - 1]).None?)
    decreases i
  {
    hide CommentOf;
    if i > 0 && CommentOf(lines[i - 1]).Some? {
      RunIsMaximal(lines, i - 1);
    }
  }
}
