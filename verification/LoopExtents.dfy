/**
 The line-based reading of Go loops in tests: how far each `for` extends by
 brace balance, and what that makes of every sleep.
 */
module LoopExtents {

  /**
   A line, by what is read off it: whether it is a loop header and of which
   form, its net brace change, and whether it consults a deadline or sleeps.
   */
  datatype Line = Line(header: bool, counted: bool, ranged: bool, delta: int, deadline: bool, sleeps: bool, long: bool)

  datatype Loop = Loop(start: nat, end: nat, bounded: bool)

  /** Net brace change of the first `k` lines. */
  function Depth(lines: seq<Line>, k: nat): int
    requires k <= |lines|
  {
    if k == 0 then 0 else Depth(lines, k - 1) + lines[k - 1].delta
  }

  /** Line `j` is where the braces opened on line `i` are balanced. */
  predicate Closes(lines: seq<Line>, i: nat, j: nat)
    requires j < |lines|
  {
    i < j && Depth(lines, j + 1) <= Depth(lines, i)
  }

  /** One past the first line that closes `i`, or the number of lines when none does. */
  ghost predicate IsEnd(lines: seq<Line>, i: nat, end: nat) {
    && i < end <= |lines|
    && (forall j :: i < j < end - 1 ==> !Closes(lines, i, j))
    && (end < |lines| ==> i < end - 1 && Closes(lines, i, end - 1))
    && (end == |lines| ==> i == end - 1 || Closes(lines, i, end - 1) || forall j :: i < j < end ==> !Closes(lines, i, j))
  }

  predicate Deadlined(lines: seq<Line>, i: nat, end: nat)
    requires i <= end <= |lines|
  {
    exists j :: i <= j < end && lines[j].deadline
  }

  ghost predicate IsLoop(lines: seq<Line>, loop: Loop) {
    && loop.start < |lines| && lines[loop.start].header
    && IsEnd(lines, loop.start, loop.end)
    && loop.bounded == (lines[loop.start].counted || lines[loop.start].ranged || Deadlined(lines, loop.start, loop.end))
  }

  method EndOf(lines: seq<Line>, i: nat) returns (end: nat)
    requires i < |lines|
    ensures IsEnd(lines, i, end)
  {
    var depth := 0;
    end := |lines|;
    for j := i to |lines|
      invariant end == |lines|
      invariant depth == Depth(lines, j) - Depth(lines, i)
      invariant forall k :: i < k < j ==> !Closes(lines, i, k)
    {
      depth := depth + lines[j].delta;
      if depth <= 0 && j > i {
        end := j + 1;
        break;
      }
    }
  }

  /** Every header yields one loop, in order, and nothing else does. */
  method LoopsOf(lines: seq<Line>) returns (loops: seq<Loop>)
    ensures forall k :: 0 <= k < |loops| ==> IsLoop(lines, loops[k])
    ensures forall k, l :: 0 <= k < l < |loops| ==> loops[k].start < loops[l].start
    ensures forall i :: 0 <= i < |lines| && lines[i].header ==> exists k :: 0 <= k < |loops| && loops[k].start == i
  {
    loops := [];
    for i := 0 to |lines|
      invariant forall k :: 0 <= k < |loops| ==> IsLoop(lines, loops[k]) && loops[k].start < i
      invariant forall k, l :: 0 <= k < l < |loops| ==> loops[k].start < loops[l].start
      invariant forall j :: 0 <= j < i && lines[j].header ==> exists k :: 0 <= k < |loops| && loops[k].start == j
    {
      if !lines[i].header {
        continue;
      }
      var end := EndOf(lines, i);
      var bounded := lines[i].counted || lines[i].ranged || exists j :: i <= j < end && lines[j].deadline;
      ghost var before := loops;
      loops := loops + [Loop(i, end, bounded)];
      assert loops[|before|] == Loop(i, end, bounded);
      forall j | 0 <= j <= i && lines[j].header ensures exists k :: 0 <= k < |loops| && loops[k].start == j {
        if j < i {
          var k :| 0 <= k < |before| && before[k].start == j;
          assert loops[k].start == j;
        } else {
          assert loops[|before|].start == j;
        }
      }
    }
  }

  // ------------------------------------------------------------- laminarity

  /** No loop header closes more braces than it opens. */
  predicate HeadersOpen(lines: seq<Line>) {
    forall i :: 0 <= i < |lines| && lines[i].header ==> lines[i].delta >= 0
  }

  // A header that opens no more than it closes: a brace in a rune makes one.
  predicate Idle(line: Line) {
    line.header && line.delta == 0
  }

  /** No such header directly follows another, but on the last line. */
  predicate NoIdlePair(lines: seq<Line>) {
    forall i :: 0 <= i < |lines| - 2 && Idle(lines[i]) ==> !Idle(lines[i + 1])
  }

  predicate Nested(a: Loop, b: Loop) {
    b.start <= a.start && a.end <= b.end
  }

  predicate Disjoint(a: Loop, b: Loop) {
    a.end <= b.start || b.end <= a.start
  }

  // Between the line of a header and its end the depth stays above what it was in front of the header.
  lemma {:induction false} DepthInside(lines: seq<Line>, i: nat, end: nat, k: nat)
    requires IsEnd(lines, i, end) && lines[i].delta >= 0 && i < k < end
    ensures Depth(lines, k) > Depth(lines, i) || (k == i + 1 && lines[i].delta == 0 && Depth(lines, k) == Depth(lines, i))
  {
    if k > i + 1 {
      assert !Closes(lines, i, k - 1);
    }
  }

  // A header inside another loop ends inside it.
  lemma {:induction false} EndsInside(lines: seq<Line>, i: nat, end: nat, k: nat, inner: nat)
    requires IsEnd(lines, i, end) && IsEnd(lines, k, inner) && i < k < end
    requires HeadersOpen(lines) && NoIdlePair(lines) && lines[i].header && lines[k].header
    ensures inner <= end
  {
    DepthInside(lines, i, end, k);
    assert Depth(lines, k + 1) == Depth(lines, k) + lines[k].delta;
    if end < |lines| {
      assert Depth(lines, end) <= Depth(lines, i);
      assert k == i + 1 && Idle(lines[i]) && k < |lines| - 1 ==> !Idle(lines[i + 1]);
      assert k < end - 1 && Closes(lines, k, end - 1);
    }
  }

  /** Any two loop extents are nested or disjoint. */
  lemma Laminar(lines: seq<Line>, a: Loop, b: Loop)
    requires HeadersOpen(lines) && NoIdlePair(lines) && IsLoop(lines, a) && IsLoop(lines, b)
    ensures Nested(a, b) || Nested(b, a) || Disjoint(a, b)
  {
    if a.start == b.start {
      SameEnd(lines, a.start, a.end, b.end);
    } else if a.start < b.start < a.end {
      EndsInside(lines, a.start, a.end, b.start, b.end);
    } else if b.start < a.start < b.end {
      EndsInside(lines, b.start, b.end, a.start, a.end);
    }
  }

  lemma SameEnd(lines: seq<Line>, i: nat, end: nat, other: nat)
    requires IsEnd(lines, i, end) && IsEnd(lines, i, other)
    ensures end == other
  {
    if end < |lines| { assert Closes(lines, i, end - 1); }
    if other < |lines| { assert Closes(lines, i, other - 1); }
  }

  /** Where no header closes more than it opens, no two extents overlap exactly when no idle header follows another. */
  lemma LaminarIff(lines: seq<Line>)
    requires HeadersOpen(lines)
    ensures (forall a, b :: IsLoop(lines, a) && IsLoop(lines, b) ==> Nested(a, b) || Nested(b, a) || Disjoint(a, b))
            <==> NoIdlePair(lines)
  {
    hide IsLoop;
    if NoIdlePair(lines) {
      forall a, b | IsLoop(lines, a) && IsLoop(lines, b) ensures Nested(a, b) || Nested(b, a) || Disjoint(a, b) {
        Laminar(lines, a, b);
      }
    } else {
      var i :| 0 <= i < |lines| - 2 && Idle(lines[i]) && Idle(lines[i + 1]);
      var a, b := IdlePairOverlaps(lines, i);
    }
  }

  lemma IdlePairOverlaps(lines: seq<Line>, i: nat) returns (a: Loop, b: Loop)
    requires i < |lines| - 2 && Idle(lines[i]) && Idle(lines[i + 1])
    ensures IsLoop(lines, a) && IsLoop(lines, b) && !Nested(a, b) && !Nested(b, a) && !Disjoint(a, b)
  {
    assert Depth(lines, i + 2) == Depth(lines, i + 1) == Depth(lines, i);
    assert Closes(lines, i, i + 1);
    a := LoopAt(lines, i, i + 2);
    var end := EndExists(lines, i + 1);
    b := LoopAt(lines, i + 1, end);
  }

  lemma LoopAt(lines: seq<Line>, i: nat, end: nat) returns (loop: Loop)
    requires i < |lines| && lines[i].header && IsEnd(lines, i, end)
    ensures IsLoop(lines, loop) && loop.start == i && loop.end == end
  {
    loop := Loop(i, end, lines[i].counted || lines[i].ranged || Deadlined(lines, i, end));
  }

  lemma EndExists(lines: seq<Line>, i: nat) returns (end: nat)
    requires i < |lines|
    ensures IsEnd(lines, i, end)
  {
    end := i + 1;
    while end < |lines| && !(i < end - 1 && Closes(lines, i, end - 1))
      invariant i < end <= |lines|
      invariant forall j :: i < j < end - 1 ==> !Closes(lines, i, j)
    {
      end := end + 1;
    }
  }

  /** With a header that closes more than it opens, two extents can overlap. */
  lemma OverlapWithoutOpening()
    ensures var header := Line(true, false, false, 1, false, false, false);
            var odd := Line(true, false, false, -1, false, false, false);
            var open := Line(false, false, false, 1, false, false, false);
            var close := Line(false, false, false, -1, false, false, false);
            var lines := [header, odd, open, close];
            var a, b := Loop(0, 2, false), Loop(1, 3, false);
            IsLoop(lines, a) && IsLoop(lines, b) && !Nested(a, b) && !Nested(b, a) && !Disjoint(a, b)
  {
    var header := Line(true, false, false, 1, false, false, false);
    var odd := Line(true, false, false, -1, false, false, false);
    var open := Line(false, false, false, 1, false, false, false);
    var close := Line(false, false, false, -1, false, false, false);
    var lines := [header, odd, open, close];
    assert Depth(lines, 0) == 0 && Depth(lines, 1) == 1;
    assert Depth(lines, 2) == 0;
    assert Depth(lines, 3) == 1;
    assert Closes(lines, 0, 1);
    assert Closes(lines, 1, 2);
  }

  // ----------------------------------------------------------------- sleeps

  datatype Verdict = UnboundedSleep | UnboundedPoll | LongSleep

  datatype Finding = Finding(line: nat, kind: Verdict)

  predicate Encloses(loop: Loop, i: nat) {
    loop.start <= i < loop.end
  }

  /** What a sleeping line is reported as, by the loops around it. */
  ghost predicate Reported(lines: seq<Line>, loops: seq<Loop>, i: nat, kind: Verdict)
    requires i < |lines|
  {
    && lines[i].sleeps
    && match kind
       case UnboundedSleep => forall l :: l in loops ==> !Encloses(l, i)
       case UnboundedPoll =>
         (exists l :: l in loops && Encloses(l, i)) && forall l :: l in loops && Encloses(l, i) ==> !l.bounded
       case LongSleep => (exists l :: l in loops && Encloses(l, i) && l.bounded) && lines[i].long
  }

  method FindingsFor(lines: seq<Line>, loops: seq<Loop>) returns (found: seq<Finding>)
    ensures forall i, kind :: 0 <= i < |lines| ==> (Finding(i, kind) in found <==> Reported(lines, loops, i, kind))
    ensures forall k, l :: 0 <= k < l < |found| ==> found[k].line < found[l].line
    ensures forall k :: 0 <= k < |found| ==> found[k].line < |lines|
  {
    found := [];
    for i := 0 to |lines|
      invariant forall j, kind :: 0 <= j < i ==> (Finding(j, kind) in found <==> Reported(lines, loops, j, kind))
      invariant forall k, l :: 0 <= k < l < |found| ==> found[k].line < found[l].line
      invariant forall k :: 0 <= k < |found| ==> found[k].line < i
    {
      ghost var before := found;
      if !lines[i].sleeps {
        continue;
      }
      var enclosed := exists l :: l in loops && Encloses(l, i);
      var bounded := exists l :: l in loops && Encloses(l, i) && l.bounded;
      if !enclosed {
        found := found + [Finding(i, UnboundedSleep)];
      } else if !bounded {
        found := found + [Finding(i, UnboundedPoll)];
      } else if lines[i].long {
        found := found + [Finding(i, LongSleep)];
      }
      forall j, kind | 0 <= j <= i ensures Finding(j, kind) in found <==> Reported(lines, loops, j, kind) {
        if j < i {
          assert Finding(j, kind) in found <==> Finding(j, kind) in before;
        }
      }
    }
  }

  /**
   The loops around one line are nested in one another, so one of them is the
   outermost; and a sleep is an unbounded poll exactly when none of them is
   counted or ranges and the outermost holds no deadline anywhere.
   */
  lemma PollByOutermost(lines: seq<Line>, loops: seq<Loop>, i: nat)
    requires HeadersOpen(lines) && NoIdlePair(lines) && i < |lines| && lines[i].sleeps
    requires forall l :: l in loops ==> IsLoop(lines, l)
    requires exists l :: l in loops && Encloses(l, i)
    ensures exists outer :: outer in loops && Encloses(outer, i) && outer.end <= |lines|
              && (forall l :: l in loops && Encloses(l, i) ==> Nested(l, outer))
              && (Reported(lines, loops, i, UnboundedPoll) <==>
                    && !Deadlined(lines, outer.start, outer.end)
                    && forall l :: l in loops && Encloses(l, i) ==> !lines[l.start].counted && !lines[l.start].ranged)
  {
    var outer := Outermost(lines, loops, i);
    assert Reported(lines, loops, i, UnboundedPoll) <==> forall l :: l in loops && Encloses(l, i) ==> !l.bounded;
    forall l | l in loops && Encloses(l, i) && Deadlined(lines, l.start, l.end)
      ensures Deadlined(lines, outer.start, outer.end)
    {
      var j :| l.start <= j < l.end && lines[j].deadline;
      assert outer.start <= j < outer.end;
    }
  }

  lemma {:induction false} Outermost(lines: seq<Line>, loops: seq<Loop>, i: nat) returns (outer: Loop)
    requires HeadersOpen(lines) && NoIdlePair(lines) && i < |lines|
    requires forall l :: l in loops ==> IsLoop(lines, l)
    requires exists l :: l in loops && Encloses(l, i)
    ensures outer in loops && Encloses(outer, i)
    ensures forall l :: l in loops && Encloses(l, i) ==> Nested(l, outer)
    decreases |loops|
  {
    hide IsLoop;
    var last := loops[|loops| - 1];
    var rest := loops[..|loops| - 1];
    assert loops == rest + [last];
    if exists l :: l in rest && Encloses(l, i) {
      outer := Outermost(lines, rest, i);
      if Encloses(last, i) {
        Laminar(lines, outer, last);
        if Nested(outer, last) { outer := last; }
      }
    } else {
      outer := last;
    }
  }
}
