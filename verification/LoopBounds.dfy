/**
 Loop-bound analysis over a Python syntax tree: which statements a loop's own
 iteration governs, which guard really leaves its loop, and what that makes of
 every sleep in a test.
 */
module LoopBounds {
  import opened Basics

  datatype Kind =
    | Scope                                // a function, lambda or class
    | For(endless: bool)                   // endless: over an iterable that never ends
    | While
    | If
    | Assert
    | Raise
    | Return
    | Break
    | AugAssign(target: Option<string>)
    | Name(id: string)
    | ClockCall
    | Sleep(seconds: Option<real>)
    | Other

  /** A node; its children are `head` (tests, targets, operands), then `body`, then `orelse`. */
  datatype Node = Node(kind: Kind, head: seq<Node>, body: seq<Node>, orelse: seq<Node>)

  predicate IsLoop(n: Node) {
    n.kind.For? || n.kind.While?
  }

  predicate IsScope(n: Node) {
    n.kind.Scope?
  }

  function Children(n: Node): seq<Node> {
    n.head + n.body + n.orelse
  }

  predicate Pruned(n: Node, pruneLoops: bool) {
    IsScope(n) || (pruneLoops && IsLoop(n))
  }

  function Unpruned(ns: seq<Node>, pruneLoops: bool): seq<Node> {
    if ns == [] then []
    else (if Pruned(ns[0], pruneLoops) then [] else [ns[0]]) + Unpruned(ns[1..], pruneLoops)
  }

  // ------------------------------------------------------- governed statements

  function Weight(n: Node): nat {
    1 + Size(n.head) + Size(n.body) + Size(n.orelse)
  }

  function Size(ns: seq<Node>): nat {
    if ns == [] then 0 else Weight(ns[0]) + Size(ns[1..])
  }

  lemma {:induction false} SizeOfConcat(a: seq<Node>, b: seq<Node>)
    ensures Size(a + b) == Size(a) + Size(b)
  {
    hide Weight;
    if a == [] {
      assert a + b == b;
    } else {
      SizeOfConcat(a[1..], b);
      assert (a + b)[0] == a[0] && (a + b)[1..] == a[1..] + b;
    }
  }

  lemma SizeOfChildren(n: Node)
    ensures Weight(n) == 1 + Size(Children(n))
  {
    SizeOfConcat(n.head, n.body);
    SizeOfConcat(n.head + n.body, n.orelse);
  }

  /** Every node at or below `n` that can be reached without entering a pruned one. */
  function ReachAt(n: Node, pruneLoops: bool): multiset<Node>
    decreases Weight(n), 0
  {
    SizeOfChildren(n);
    if Pruned(n, pruneLoops) then multiset{} else multiset{n} + Reach(Children(n), pruneLoops)
  }

  function Reach(ns: seq<Node>, pruneLoops: bool): multiset<Node>
    decreases Size(ns), 1, |ns|
  {
    if ns == [] then multiset{} else ReachAt(ns[0], pruneLoops) + Reach(ns[1..], pruneLoops)
  }

  function Governed(loop: Node, pruneLoops: bool): multiset<Node> {
    Reach(loop.body + loop.orelse, pruneLoops)
  }

  lemma {:induction false} ReachOfConcat(a: seq<Node>, b: seq<Node>, pruneLoops: bool)
    ensures Reach(a + b, pruneLoops) == Reach(a, pruneLoops) + Reach(b, pruneLoops)
  {
    hide ReachAt, Size;
    if a == [] {
      assert a + b == b;
    } else {
      ReachOfConcat(a[1..], b, pruneLoops);
      assert (a + b)[0] == a[0] && (a + b)[1..] == a[1..] + b;
    }
  }

  lemma {:induction false} ReachOfUnpruned(ns: seq<Node>, pruneLoops: bool)
    ensures Reach(Unpruned(ns, pruneLoops), pruneLoops) == Reach(ns, pruneLoops)
    ensures Size(Unpruned(ns, pruneLoops)) <= Size(ns)
    ensures forall n :: n in Unpruned(ns, pruneLoops) ==> !Pruned(n, pruneLoops)
  {
    if ns != [] {
      ReachOfUnpruned(ns[1..], pruneLoops);
      SizeOfChildren(ns[0]);
      var head := if Pruned(ns[0], pruneLoops) then [] else [ns[0]];
      ReachOfConcat(head, Unpruned(ns[1..], pruneLoops), pruneLoops);
      SizeOfConcat(head, Unpruned(ns[1..], pruneLoops));
      ReachOfOne(ns[0], pruneLoops);
    }
  }

  lemma ReachOfOne(n: Node, pruneLoops: bool)
    ensures Size([n]) == 1 + Size(Children(n)) && Size([]) == 0
    ensures !Pruned(n, pruneLoops) ==>
              Reach([n], pruneLoops) == multiset{n} + Reach(Children(n), pruneLoops)
    ensures Pruned(n, pruneLoops) ==> Reach([n], pruneLoops) == multiset{}
  {
    SizeOfChildren(n);
    assert [n][0] == n && [n][1..] == [] && Reach([], pruneLoops) == multiset{};
  }

  // Taking one pending node and putting its children in its place.
  lemma Expand(stack: seq<Node>, n: Node, pruneLoops: bool)
    requires !Pruned(n, pruneLoops)
    ensures var next := stack + Unpruned(Children(n), pruneLoops);
            && Reach(stack + [n], pruneLoops) == multiset{n} + Reach(next, pruneLoops)
            && Size(next) < Size(stack + [n])
  {
    hide Reach, Size, Unpruned;
    ReachOfConcat(stack, [n], pruneLoops);
    SizeOfConcat(stack, [n]);
    ReachOfOne(n, pruneLoops);
    ReachOfUnpruned(Children(n), pruneLoops);
    ReachOfConcat(stack, Unpruned(Children(n), pruneLoops), pruneLoops);
    SizeOfConcat(stack, Unpruned(Children(n), pruneLoops));
  }

  method GovernedBy(loop: Node, pruneLoops: bool) returns (out: seq<Node>)
    ensures multiset(out) == Governed(loop, pruneLoops)
  {
    hide Reach, Size;
    var stack := Unpruned(loop.body + loop.orelse, pruneLoops);
    ReachOfUnpruned(loop.body + loop.orelse, pruneLoops);
    NothingReached(pruneLoops);
    out := [];
    while stack != []
      invariant multiset(out) + Reach(stack, pruneLoops) == Governed(loop, pruneLoops)
      invariant forall n :: n in stack ==> !Pruned(n, pruneLoops)
      decreases Size(stack)
    {
      var node := stack[|stack| - 1];
      ghost var rest := stack[..|stack| - 1];
      assert stack == rest + [node];
      Expand(rest, node, pruneLoops);
      ReachOfUnpruned(Children(node), pruneLoops);
      out := out + [node];
      stack := stack[..|stack| - 1] + Unpruned(Children(node), pruneLoops);
    }
  }

  lemma NothingReached(pruneLoops: bool)
    ensures Reach([], pruneLoops) == multiset{}
  {}

  // ------------------------------------------ any order of taking work is as good

  datatype Work = Work(pending: seq<Node>, out: seq<Node>)

  /** One turn of a worklist that may take any pending node and file its children anywhere. */
  ghost predicate Turn(w: Work, next: Work, pruneLoops: bool) {
    exists n ::
      && n in w.pending
      && multiset(next.pending) == multiset(w.pending) - multiset{n} + multiset(Unpruned(Children(n), pruneLoops))
      && next.out == w.out + [n]
  }

  // Moving one element to the end of a list.
  lemma TakeOut(b: seq<Node>, n: Node, pruneLoops: bool) returns (rest: seq<Node>)
    requires n in b
    ensures |rest| == |b| - 1 && multiset(b) == multiset(rest) + multiset{n}
    ensures Reach(b, pruneLoops) == Reach(rest + [n], pruneLoops)
  {
    hide Reach;
    var j :| 0 <= j < |b| && b[j] == n;
    var front, back := b[..j], b[j + 1..];
    rest := front + back;
    assert b == front + ([n] + back);
    ReachOfConcat(front, [n] + back, pruneLoops);
    ReachOfConcat([n], back, pruneLoops);
    ReachOfConcat(front, back, pruneLoops);
    ReachOfConcat(rest, [n], pruneLoops);
  }

  lemma {:induction false} ReachOfPermuted(a: seq<Node>, b: seq<Node>, pruneLoops: bool)
    requires multiset(a) == multiset(b)
    ensures Reach(a, pruneLoops) == Reach(b, pruneLoops)
    decreases |a|
  {
    hide Reach;
    if a == [] {
      assert |multiset(b)| == |multiset(a)| == 0;
      assert b == [];
    } else {
      assert a[0] in multiset(b);
      var rest := TakeOut(a, a[0], pruneLoops);
      var others := TakeOut(b, a[0], pruneLoops);
      assert multiset(rest) == multiset(a) - multiset{a[0]} == multiset(others);
      ReachOfPermuted(rest, others, pruneLoops);
      ReachOfConcat(rest, [a[0]], pruneLoops);
      ReachOfConcat(others, [a[0]], pruneLoops);
    }
  }

  lemma TurnKeeps(w: Work, next: Work, pruneLoops: bool)
    requires Turn(w, next, pruneLoops)
    requires forall n :: n in w.pending ==> !Pruned(n, pruneLoops)
    ensures multiset(next.out) + Reach(next.pending, pruneLoops) == multiset(w.out) + Reach(w.pending, pruneLoops)
    ensures forall n :: n in next.pending ==> !Pruned(n, pruneLoops)
  {
    hide Reach, Size, Unpruned, Pruned, Children;
    var n :| n in w.pending
      && multiset(next.pending) == multiset(w.pending) - multiset{n} + multiset(Unpruned(Children(n), pruneLoops))
      && next.out == w.out + [n];
    var kids := Unpruned(Children(n), pruneLoops);
    var rest := TakeOut(w.pending, n, pruneLoops);
    Refiled(w.pending, rest, n, kids, next.pending, pruneLoops);
    Expand(rest, n, pruneLoops);
    ReachOfUnpruned(Children(n), pruneLoops);
    assert multiset(next.out) == multiset(w.out) + multiset{n};
    NoneAdded(next.pending, w.pending, n, kids, pruneLoops);
  }

  lemma Refiled(pending: seq<Node>, rest: seq<Node>, n: Node, kids: seq<Node>, next: seq<Node>, pruneLoops: bool)
    requires multiset(pending) == multiset(rest) + multiset{n}
    requires multiset(next) == multiset(pending) - multiset{n} + multiset(kids)
    ensures Reach(next, pruneLoops) == Reach(rest + kids, pruneLoops)
  {
    hide Reach;
    assert multiset(rest + kids) == multiset(next);
    ReachOfPermuted(next, rest + kids, pruneLoops);
  }

  lemma NoneAdded(next: seq<Node>, pending: seq<Node>, n: Node, kids: seq<Node>, pruneLoops: bool)
    requires multiset(next) == multiset(pending) - multiset{n} + multiset(kids)
    requires forall m :: m in pending || m in kids ==> !Pruned(m, pruneLoops)
    ensures forall m :: m in next ==> !Pruned(m, pruneLoops)
  {
    hide Pruned;
    forall m | m in next ensures !Pruned(m, pruneLoops) {
      assert m in multiset(next);
      assert m in multiset(pending) || m in multiset(kids);
    }
  }

  ghost predicate Run(ws: seq<Work>, pruneLoops: bool) {
    ws != [] && forall i :: 0 <= i < |ws| - 1 ==> Turn(ws[i], ws[i + 1], pruneLoops)
  }

  /** Whatever the order of popping, a finished worklist has yielded the same nodes. */
  lemma {:induction false} AnyOrderYieldsTheSame(loop: Node, pruneLoops: bool, ws: seq<Work>)
    requires Run(ws, pruneLoops)
    requires ws[0] == Work(Unpruned(loop.body + loop.orelse, pruneLoops), [])
    requires ws[|ws| - 1].pending == []
    ensures multiset(ws[|ws| - 1].out) == Governed(loop, pruneLoops)
  {
    hide Reach, Turn, Unpruned;
    ReachOfUnpruned(loop.body + loop.orelse, pruneLoops);
    NothingReached(pruneLoops);
    var i := 0;
    while i < |ws| - 1
      invariant 0 <= i < |ws|
      invariant multiset(ws[i].out) + Reach(ws[i].pending, pruneLoops) == Governed(loop, pruneLoops)
      invariant forall n :: n in ws[i].pending ==> !Pruned(n, pruneLoops)
    {
      TurnKeeps(ws[i], ws[i + 1], pruneLoops);
      i := i + 1;
    }
  }

  // ---------------------------------------------------------------- leaving a loop

  predicate LeavesAt(n: Node, nested: bool)
    decreases Weight(n), 0
  {
    SizeOfChildren(n);
    && !IsScope(n)
    && (n.kind.Raise? || n.kind.Return? || (n.kind.Break? && !nested) || LeavesIn(Children(n), nested || IsLoop(n)))
  }

  predicate LeavesIn(ns: seq<Node>, nested: bool)
    decreases Size(ns), 1, |ns|
  {
    ns != [] && (LeavesAt(ns[0], nested) || LeavesIn(ns[1..], nested))
  }

  predicate LeavesStack(stack: seq<(Node, bool)>) {
    exists k :: 0 <= k < |stack| && LeavesAt(stack[k].0, stack[k].1)
  }

  function Stacked(ns: seq<Node>, nested: bool): seq<(Node, bool)> {
    if ns == [] then [] else (if IsScope(ns[0]) then [] else [(ns[0], nested)]) + Stacked(ns[1..], nested)
  }

  function StackSize(stack: seq<(Node, bool)>): nat {
    if stack == [] then 0 else StackSize(stack[..|stack| - 1]) + Weight(stack[|stack| - 1].0)
  }

  lemma LeavesConcat(a: seq<(Node, bool)>, b: seq<(Node, bool)>)
    ensures LeavesStack(a + b) <==> LeavesStack(a) || LeavesStack(b)
  {
    hide LeavesAt;
    if LeavesStack(a) {
      var k :| 0 <= k < |a| && LeavesAt(a[k].0, a[k].1);
      assert (a + b)[k] == a[k];
    }
    if LeavesStack(b) {
      var k :| 0 <= k < |b| && LeavesAt(b[k].0, b[k].1);
      assert (a + b)[|a| + k] == b[k];
    }
  }

  lemma {:induction false} LeavesStacked(ns: seq<Node>, nested: bool)
    ensures LeavesStack(Stacked(ns, nested)) <==> LeavesIn(ns, nested)
    ensures forall k :: 0 <= k < |Stacked(ns, nested)| ==> !IsScope(Stacked(ns, nested)[k].0)
  {
    hide LeavesStack;
    if ns == [] {
      NoneLeaves();
    } else {
      LeavesStacked(ns[1..], nested);
      var head := if IsScope(ns[0]) then [] else [(ns[0], nested)];
      LeavesConcat(head, Stacked(ns[1..], nested));
      if IsScope(ns[0]) { NoneLeaves(); } else { OneLeaves(ns[0], nested); }
    }
  }

  lemma NoneLeaves()
    ensures !LeavesStack([])
  {}

  lemma OneLeaves(n: Node, nested: bool)
    ensures LeavesStack([(n, nested)]) <==> LeavesAt(n, nested)
  {
    hide LeavesAt;
    assert [(n, nested)][0] == (n, nested);
  }

  lemma {:induction false} StackSizeOfConcat(a: seq<(Node, bool)>, b: seq<(Node, bool)>)
    ensures StackSize(a + b) == StackSize(a) + StackSize(b)
    decreases |b|
  {
    if b == [] {
      assert a + b == a;
    } else {
      StackSizeOfConcat(a, b[..|b| - 1]);
      assert (a + b)[..|a + b| - 1] == a + b[..|b| - 1];
    }
  }

  lemma {:induction false} StackSizeOfStacked(ns: seq<Node>, nested: bool)
    ensures StackSize(Stacked(ns, nested)) <= Size(ns)
  {
    if ns != [] {
      StackSizeOfStacked(ns[1..], nested);
      var head := if IsScope(ns[0]) then [] else [(ns[0], nested)];
      StackSizeOfConcat(head, Stacked(ns[1..], nested));
      assert head != [] ==> head[..|head| - 1] == [];
    }
  }

  // Taking the top of the stack and pushing its children.
  lemma StackTurn(rest: seq<(Node, bool)>, n: Node, nested: bool)
    requires !IsScope(n)
    ensures var next := rest + Stacked(Children(n), nested || IsLoop(n));
            && StackSize(next) < StackSize(rest + [(n, nested)])
            && (LeavesStack(rest + [(n, nested)]) <==>
                  n.kind.Raise? || n.kind.Return? || (n.kind.Break? && !nested) || LeavesStack(next))
  {
    hide LeavesStack, LeavesIn, StackSize, Stacked, Size;
    var kids := Stacked(Children(n), nested || IsLoop(n));
    SizeOfChildren(n);
    StackSizeOfConcat(rest, kids);
    StackSizeOfConcat(rest, [(n, nested)]);
    StackSizeOfStacked(Children(n), nested || IsLoop(n));
    StackSizeOfOne(n, nested);
    LeavesConcat(rest, kids);
    LeavesConcat(rest, [(n, nested)]);
    LeavesStacked(Children(n), nested || IsLoop(n));
    OneLeaves(n, nested);
  }

  lemma StackSizeOfOne(n: Node, nested: bool)
    ensures StackSize([(n, nested)]) == Weight(n)
  {
    assert [(n, nested)][..0] == [];
  }

  method LeavesLoop(guard: Node) returns (leaves: bool)
    ensures leaves == LeavesIn(guard.body + guard.orelse, false)
  {
    hide LeavesStack, LeavesIn, LeavesAt, StackSize, Stacked, Children;
    var stack := Stacked(guard.body + guard.orelse, false);
    LeavesStacked(guard.body + guard.orelse, false);
    NoneLeaves();
    while stack != []
      invariant LeavesStack(stack) <==> LeavesIn(guard.body + guard.orelse, false)
      invariant forall k :: 0 <= k < |stack| ==> !IsScope(stack[k].0)
      decreases StackSize(stack)
    {
      var (node, inside) := stack[|stack| - 1];
      ghost var rest := stack[..|stack| - 1];
      assert stack == rest + [(node, inside)];
      StackTurn(rest, node, inside);
      if node.kind.Raise? || node.kind.Return? {
        return true;
      }
      if node.kind.Break? && !inside {
        return true;
      }
      var nested := inside || IsLoop(node);
      LeavesStacked(Children(node), nested);
      stack := stack[..|stack| - 1] + Stacked(Children(node), nested);
    }
    return false;
  }

  // --------------------------------------------------------------- by the path

  /** The nodes a path of child indices visits, or nothing when it leaves the tree. */
  function On(ns: seq<Node>, path: seq<nat>): seq<Node>
    decreases |path|
  {
    if path == [] || path[0] >= |ns| then []
    else
      var n := ns[path[0]];
      if |path| == 1 then [n]
      else
        var rest := On(Children(n), path[1..]);
        if rest == [] then [] else [n] + rest
  }

  predicate NoScope(ns: seq<Node>) {
    forall k :: 0 <= k < |ns| ==> !IsScope(ns[k])
  }

  /**
   The path ends at a statement that leaves the loop around `ns`: outside nested
   scopes, a raise or return, or a break with no loop node above it.
   */
  predicate Exits(ns: seq<Node>, path: seq<nat>) {
    var on := On(ns, path);
    && on != [] && NoScope(on)
    && var last := on[|on| - 1];
       || last.kind.Raise? || last.kind.Return?
       || (last.kind.Break? && forall k :: 0 <= k < |on| - 1 ==> !IsLoop(on[k]))
  }

  // The same, below `above` nodes of which one is a loop when `nested`.
  predicate ExitsBelow(ns: seq<Node>, path: seq<nat>, nested: bool) {
    var on := On(ns, path);
    && on != [] && NoScope(on)
    && var last := on[|on| - 1];
       || last.kind.Raise? || last.kind.Return?
       || (last.kind.Break? && !nested && forall k :: 0 <= k < |on| - 1 ==> !IsLoop(on[k]))
  }

  lemma ExitStep(ns: seq<Node>, path: seq<nat>, nested: bool)
    requires path != [] && path[0] < |ns|
    ensures var n := ns[path[0]];
            ExitsBelow(ns, path, nested) <==>
            && !IsScope(n)
            && if |path| == 1 then n.kind.Raise? || n.kind.Return? || (n.kind.Break? && !nested)
               else ExitsBelow(Children(n), path[1..], nested || IsLoop(n))
  {
    var n := ns[path[0]];
    var on := On(ns, path);
    if |path| > 1 {
      var rest := On(Children(n), path[1..]);
      if rest != [] {
        assert on == [n] + rest && on[|on| - 1] == rest[|rest| - 1];
        assert forall k :: 0 <= k < |rest| ==> on[k + 1] == rest[k];
        assert forall k :: 0 < k < |on| ==> on[k] == rest[k - 1];
        assert on[0] == n;
      }
    }
  }

  lemma {:induction false} LeavesAtIff(n: Node, nested: bool)
    ensures LeavesAt(n, nested) <==> exists path :: path != [] && path[0] == 0 && ExitsBelow([n], path, nested)
    decreases Weight(n), 0
  {
    hide ExitsBelow, LeavesIn;
    SizeOfChildren(n);
    var inner := nested || IsLoop(n);
    LeavesInIff(Children(n), inner);
    forall path | path != [] && path[0] == 0 && ExitsBelow([n], path, nested) ensures LeavesAt(n, nested) {
      ExitStep([n], path, nested);
    }
    if LeavesAt(n, nested) {
      if n.kind.Raise? || n.kind.Return? || (n.kind.Break? && !nested) {
        ExitStep([n], [0], nested);
      } else {
        var path :| ExitsBelow(Children(n), path, inner);
        EmptyNeverExits(Children(n), inner);
        ExitStep([n], [0] + path, nested);
        assert ([0] + path)[1..] == path;
      }
    }
  }

  lemma EmptyNeverExits(ns: seq<Node>, nested: bool)
    ensures !ExitsBelow(ns, [], nested)
  {}

  lemma {:induction false} LeavesInIff(ns: seq<Node>, nested: bool)
    ensures LeavesIn(ns, nested) <==> exists path :: ExitsBelow(ns, path, nested)
    decreases Size(ns), 1, |ns|
  {
    hide ExitsBelow, LeavesAt;
    if ns == [] {
      NoPaths(nested);
    } else {
      LeavesAtIff(ns[0], nested);
      LeavesInIff(ns[1..], nested);
      forall path | ExitsBelow(ns, path, nested) ensures LeavesIn(ns, nested) {
        PathExists(ns, path, nested);
        if path[0] == 0 {
          ExitStep(ns, path, nested);
          ExitStep([ns[0]], path, nested);
        } else {
          var shifted := [path[0] - 1] + path[1..];
          ExitStep(ns, path, nested);
          ExitStep(ns[1..], shifted, nested);
          assert shifted[1..] == path[1..];
        }
      }
      if LeavesAt(ns[0], nested) {
        var path :| path != [] && path[0] == 0 && ExitsBelow([ns[0]], path, nested);
        ExitStep(ns, path, nested);
        ExitStep([ns[0]], path, nested);
      } else if LeavesIn(ns[1..], nested) {
        var path :| ExitsBelow(ns[1..], path, nested);
        PathExists(ns[1..], path, nested);
        var shifted := [path[0] + 1] + path[1..];
        ExitStep(ns[1..], path, nested);
        ExitStep(ns, shifted, nested);
        assert shifted[1..] == path[1..];
      }
    }
  }

  lemma NoPaths(nested: bool)
    ensures forall path :: !ExitsBelow([], path, nested)
  {}

  lemma PathExists(ns: seq<Node>, path: seq<nat>, nested: bool)
    requires ExitsBelow(ns, path, nested)
    ensures path != [] && path[0] < |ns|
  {}

  /** The guard leaves exactly when some path from its body or else-branch exits. */
  lemma LeavesIffExits(guard: Node)
    ensures LeavesIn(guard.body + guard.orelse, false) <==>
            exists path :: Exits(guard.body + guard.orelse, path)
  {
    var ns := guard.body + guard.orelse;
    LeavesInIff(ns, false);
    assert forall path :: Exits(ns, path) <==> ExitsBelow(ns, path, false);
  }

  // ------------------------------------------------------ whom a break belongs to

  predicate InBody(n: Node, j: nat) {
    |n.head| <= j < |n.head| + |n.body|
  }

  /**
   The loop a break at `path` below `n` leaves, as Python has it: the innermost
   one whose body the path goes through. 0 is `n` itself, k the k-th node down.
   */
  function Target(n: Node, path: seq<nat>): Option<nat>
    requires path != []
    decreases |path|
  {
    var inner := if |path| > 1 && path[0] < |Children(n)| then Target(Children(n)[path[0]], path[1..]) else None;
    match inner
    case Some(k) => Some(k + 1)
    case None => if IsLoop(n) && InBody(n, path[0]) then Some(0) else None
  }

  predicate Loopless(ns: seq<Node>) {
    forall k :: 0 <= k < |ns| ==> !IsLoop(ns[k])
  }

  lemma {:induction false} NoTarget(n: Node, path: seq<nat>)
    requires path != [] && !IsLoop(n) && On(Children(n), path) != []
    requires var on := On(Children(n), path); Loopless(on[..|on| - 1])
    ensures Target(n, path) == None
    decreases |path|
  {
    if |path| > 1 {
      var kid := Children(n)[path[0]];
      var rest := On(Children(kid), path[1..]);
      var on := On(Children(n), path);
      assert on == [kid] + rest && on[..|on| - 1][0] == kid;
      assert rest[..|rest| - 1] == on[..|on| - 1][1..];
      NoTarget(kid, path[1..]);
    }
  }

  lemma {:induction false} OnConcat(ns: seq<Node>, g: seq<nat>, q: seq<nat>)
    requires On(ns, g) != [] && q != []
    ensures var on := On(ns, g);
            On(Children(on[|on| - 1]), q) != [] ==> On(ns, g + q) == on + On(Children(on[|on| - 1]), q)
    decreases |g|
  {
    var n := ns[g[0]];
    assert (g + q)[0] == g[0] && (g + q)[1..] == g[1..] + q;
    if |g| > 1 {
      var rest := On(Children(n), g[1..]);
      assert On(ns, g) == [n] + rest;
      OnConcat(Children(n), g[1..], q);
      if On(Children(rest[|rest| - 1]), q) != [] {
        assert [n] + (rest + On(Children(rest[|rest| - 1]), q)) == [n] + rest + On(Children(rest[|rest| - 1]), q);
      }
    } else {
      assert g[1..] + q == q;
    }
  }

  // The same path, counted from the first child of the guard instead of its body.
  function PastHead(guard: Node, q: seq<nat>): seq<nat>
    requires q != []
  {
    [q[0] + |guard.head|] + q[1..]
  }

  lemma OnPastHead(guard: Node, q: seq<nat>)
    requires q != []
    ensures On(Children(guard), PastHead(guard, q)) == On(guard.body + guard.orelse, q)
  {
    var p := PastHead(guard, q);
    assert p[1..] == q[1..];
    if q[0] < |guard.body + guard.orelse| {
      assert Children(guard)[p[0]] == (guard.body + guard.orelse)[q[0]];
    }
  }

  lemma LooplessConcat(on: seq<Node>, below: seq<Node>)
    requires Loopless(on) && below != [] && forall k :: 0 <= k < |below| - 1 ==> !IsLoop(below[k])
    ensures Loopless((on + below)[..|on + below| - 1])
  {
    var all := on + below;
    forall k | 0 <= k < |all| - 1 ensures !IsLoop(all[k]) {
      if k >= |on| { assert all[k] == below[k - |on|]; }
    }
  }

  /**
   Every break that makes a guard count leaves the very loop that was asked
   about, unless the guard stands in that loop's own else-branch, where the same
   break leaves some loop further out.
   */
  lemma AcceptedBreakTarget(loop: Node, g: seq<nat>, q: seq<nat>)
    requires IsLoop(loop) && On(Children(loop), g) != [] && Loopless(On(Children(loop), g))
    requires var on := On(Children(loop), g);
             var guard := on[|on| - 1];
             var below := On(guard.body + guard.orelse, q);
             Exits(guard.body + guard.orelse, q) && below[|below| - 1].kind.Break?
    ensures var on := On(Children(loop), g);
            Target(loop, g + PastHead(on[|on| - 1], q)) == if InBody(loop, g[0]) then Some(0) else None
  {
    hide Children;
    var on := On(Children(loop), g);
    var guard := on[|on| - 1];
    var below := On(guard.body + guard.orelse, q);
    var p := PastHead(guard, q);
    OnPastHead(guard, q);
    OnConcat(Children(loop), g, p);
    LooplessConcat(on, below);
    LeavesOuter(loop, g + p, on + below);
  }

  lemma LeavesOuter(loop: Node, path: seq<nat>, all: seq<Node>)
    requires IsLoop(loop) && |path| > 1 && |all| > 1 && all == On(Children(loop), path) && Loopless(all[..|all| - 1])
    ensures Target(loop, path) == if InBody(loop, path[0]) then Some(0) else None
  {
    hide Children;
    var kid := Children(loop)[path[0]];
    LooplessBelow(kid, On(Children(kid), path[1..]), all);
    NoTarget(kid, path[1..]);
  }

  lemma LooplessBelow(kid: Node, rest: seq<Node>, all: seq<Node>)
    requires rest != [] && all == [kid] + rest && Loopless(all[..|all| - 1])
    ensures !IsLoop(kid) && Loopless(rest[..|rest| - 1])
  {
    assert rest[..|rest| - 1] == all[..|all| - 1][1..];
    assert all[..|all| - 1][0] == kid;
  }

  // Node number `k` on the path is a loop, and the path goes on below it.
  predicate LoopOn(on: seq<Node>, k: nat) {
    k + 1 < |on| && IsLoop(on[k])
  }

  /** The path goes through the body of some loop it visits. */
  ghost predicate ThroughBody(ns: seq<Node>, path: seq<nat>) {
    var on := On(ns, path);
    |on| == |path| && exists k :: 0 <= k < |on| && LoopOn(on, k) && InBody(on[k], path[k + 1])
  }

  /** The path goes through some loop it visits but not through its body: for a statement, through its else-branch. */
  ghost predicate ThroughElse(ns: seq<Node>, path: seq<nat>) {
    var on := On(ns, path);
    |on| == |path| && exists k :: 0 <= k < |on| && LoopOn(on, k) && !InBody(on[k], path[k + 1])
  }

  lemma {:induction false} OnLength(ns: seq<Node>, path: seq<nat>)
    requires On(ns, path) != []
    ensures |On(ns, path)| == |path|
    decreases |path|
  {
    if |path| > 1 { OnLength(Children(ns[path[0]]), path[1..]); }
  }

  lemma BodyStep(ns: seq<Node>, path: seq<nat>)
    requires |path| > 1 && On(ns, path) != []
    ensures var n := ns[path[0]];
            ThroughBody(ns, path) <==> (IsLoop(n) && InBody(n, path[1])) || ThroughBody(Children(n), path[1..])
  {
    hide InBody, IsLoop, Children;
    var n := ns[path[0]];
    var on, rest := On(ns, path), On(Children(n), path[1..]);
    OnLength(ns, path);
    OnLength(Children(n), path[1..]);
    assert on == [n] + rest && on[0] == n;
    assert forall k :: 0 <= k < |rest| ==> on[k + 1] == rest[k];
    if k: nat :| k < |on| && LoopOn(on, k) && InBody(on[k], path[k + 1]) {
      if k > 0 {
        assert LoopOn(rest, k - 1) && InBody(rest[k - 1], path[1..][k]);
      }
    }
    if ThroughBody(Children(n), path[1..]) {
      var k: nat :| k < |rest| && LoopOn(rest, k) && InBody(rest[k], path[1..][k + 1]);
      assert LoopOn(on, k + 1) && InBody(on[k + 1], path[k + 2]);
    }
    if IsLoop(n) && InBody(n, path[1]) { assert LoopOn(on, 0); }
  }

  /** A break leaves the loop `n` exactly when it is reached through the body of `n` and of no loop below it. */
  lemma {:induction false} TargetIff(n: Node, path: seq<nat>)
    requires On(Children(n), path) != []
    ensures Target(n, path) == None <==> !(IsLoop(n) && InBody(n, path[0])) && !ThroughBody(Children(n), path)
    ensures Target(n, path) == Some(0) <==> IsLoop(n) && InBody(n, path[0]) && !ThroughBody(Children(n), path)
    decreases |path|
  {
    hide InBody, IsLoop, Children, ThroughBody;
    if |path| == 1 {
      NothingThrough(Children(n), path);
    } else {
      BodyStep(Children(n), path);
      TargetIff(Children(n)[path[0]], path[1..]);
    }
  }

  lemma NothingThrough(ns: seq<Node>, path: seq<nat>)
    requires |path| == 1
    ensures !ThroughBody(ns, path)
  {}

  /**
   A break that leaves the loop asked about, from a guard straight inside it and
   outside nested scopes, is accepted exactly when it is reached through no
   nested loop's else-branch.
   */
  lemma AcceptedIffNoElse(loop: Node, g: seq<nat>, q: seq<nat>)
    requires IsLoop(loop) && On(Children(loop), g) != []
    requires var guard := On(Children(loop), g)[|On(Children(loop), g)| - 1];
             var below := On(guard.body + guard.orelse, q);
             && below != [] && NoScope(below) && below[|below| - 1].kind.Break?
             && !IsLoop(guard) && Target(loop, g + PastHead(guard, q)) == Some(0)
    ensures var guard := On(Children(loop), g)[|On(Children(loop), g)| - 1];
            Exits(guard.body + guard.orelse, q) <==> !ThroughElse(guard.body + guard.orelse, q)
  {
    hide Children, InBody, On, Target, IsLoop;
    var on := On(Children(loop), g);
    var guard := on[|on| - 1];
    var ns := guard.body + guard.orelse;
    var below := On(ns, q);
    OnLength(ns, q);
    OnLength(Children(loop), g);
    var p := PastHead(guard, q);
    OnPastHead(guard, q);
    OnConcat(Children(loop), g, p);
    TargetIff(loop, g + p);
    var all := on + below;
    forall k: nat | LoopOn(below, k) ensures !InBody(below[k], q[k + 1]) {
      assert LoopOn(all, |on| + k) && all[|on| + k] == below[k] && (g + p)[|on| + k + 1] == p[k + 1] == q[k + 1];
    }
    if Exits(ns, q) {
      assert forall k: nat :: k < |below| ==> !LoopOn(below, k);
    } else {
      var k: nat :| k + 1 < |below| && IsLoop(below[k]);
      assert LoopOn(below, k);
    }
  }

  /** A break in the else-branch of a nested loop leaves the loop asked about, and is not accepted. */
  lemma NestedElseIsMissed()
    ensures var brk := Node(Break, [], [], []);
            var inner := Node(For(false), [], [], [brk]);
            var guard := Node(If, [], [inner], []);
            var loop := Node(While, [], [guard], []);
            !LeavesIn(guard.body + guard.orelse, false) && Target(loop, [0, 0, 0]) == Some(0)
  {
    var brk := Node(Break, [], [], []);
    var inner := Node(For(false), [], [], [brk]);
    var guard := Node(If, [], [inner], []);
    var loop := Node(While, [], [guard], []);
    assert Children(brk) == [] && Children(inner) == [brk] && Children(guard) == [inner] && Children(loop) == [guard];
    assert guard.body + guard.orelse == [inner];
    assert !LeavesIn([], true);
    assert !LeavesAt(brk, true) && [brk][1..] == [];
    assert !LeavesIn([brk], true) && [inner][1..] == [] && !LeavesIn([], false);
    assert !LeavesAt(inner, false);
    assert Target(inner, [0]) == None;
    assert [0, 0][1..] == [0] && [0, 0, 0][1..] == [0, 0];
    assert Target(guard, [0, 0]) == None;
  }

  // --------------------------------------------------- membership by the path

  predicate AllUnpruned(ns: seq<Node>, pruneLoops: bool) {
    forall k :: 0 <= k < |ns| ==> !Pruned(ns[k], pruneLoops)
  }

  predicate LeadsTo(ns: seq<Node>, path: seq<nat>, n: Node, pruneLoops: bool) {
    var on := On(ns, path);
    on != [] && on[|on| - 1] == n && AllUnpruned(on, pruneLoops)
  }

  lemma LeadStep(ns: seq<Node>, path: seq<nat>, n: Node, pruneLoops: bool)
    requires path != [] && path[0] < |ns|
    ensures LeadsTo(ns, path, n, pruneLoops) <==>
            && !Pruned(ns[path[0]], pruneLoops)
            && if |path| == 1 then ns[path[0]] == n else LeadsTo(Children(ns[path[0]]), path[1..], n, pruneLoops)
  {
    hide Pruned, Children, IsLoop, AllUnpruned, On;
    var m := ns[path[0]];
    OnStep(ns, path);
    UnprunedOfMore(m, [], pruneLoops);
    if |path| > 1 {
      UnprunedOfMore(m, On(Children(m), path[1..]), pruneLoops);
    }
  }

  lemma OnStep(ns: seq<Node>, path: seq<nat>)
    requires path != [] && path[0] < |ns|
    ensures var m := ns[path[0]];
            && (|path| == 1 ==> On(ns, path) == [m] + [])
            && (|path| > 1 ==>
                  var rest := On(Children(m), path[1..]);
                  On(ns, path) == if rest == [] then [] else [m] + rest)
  {
    hide Children;
  }

  lemma UnprunedOfMore(m: Node, rest: seq<Node>, pruneLoops: bool)
    ensures AllUnpruned([m] + rest, pruneLoops) <==> !Pruned(m, pruneLoops) && AllUnpruned(rest, pruneLoops)
    ensures AllUnpruned([], pruneLoops)
  {
    hide Pruned;
    var on := [m] + rest;
    assert on[0] == m && forall k :: 0 <= k < |rest| ==> on[k + 1] == rest[k];
    if AllUnpruned(rest, pruneLoops) && !Pruned(m, pruneLoops) {
      assert forall k :: 0 < k < |on| ==> on[k] == rest[k - 1];
    }
  }

  lemma LeadHas(ns: seq<Node>, path: seq<nat>, n: Node, pruneLoops: bool)
    requires LeadsTo(ns, path, n, pruneLoops)
    ensures path != [] && path[0] < |ns|
  {}

  lemma ReachHas(ns: seq<Node>, n: Node, pruneLoops: bool)
    ensures n in Reach(ns, pruneLoops) <==>
            && ns != []
            && (|| (!Pruned(ns[0], pruneLoops) && (n == ns[0] || n in Reach(Children(ns[0]), pruneLoops)))
                || n in Reach(ns[1..], pruneLoops))
  {}

  lemma {:induction false} ReachIffLed(ns: seq<Node>, n: Node, pruneLoops: bool)
    ensures n in Reach(ns, pruneLoops) <==> exists path :: LeadsTo(ns, path, n, pruneLoops)
    decreases Size(ns), |ns|
  {
    hide LeadsTo, Pruned, Reach, Weight, Children;
    ReachHas(ns, n, pruneLoops);
    if ns == [] {
      forall path ensures !LeadsTo(ns, path, n, pruneLoops) {
        if LeadsTo(ns, path, n, pruneLoops) { LeadHas(ns, path, n, pruneLoops); }
      }
    } else {
      var m := ns[0];
      SizeOfChildren(m);
      assert Size(ns) == Weight(m) + Size(ns[1..]);
      ReachIffLed(ns[1..], n, pruneLoops);
      ReachIffLed(Children(m), n, pruneLoops);
      forall path | LeadsTo(ns, path, n, pruneLoops) ensures n in Reach(ns, pruneLoops) {
        LeadHas(ns, path, n, pruneLoops);
        LeadStep(ns, path, n, pruneLoops);
        if path[0] > 0 {
          var shifted := [path[0] - 1] + path[1..];
          assert shifted[1..] == path[1..];
          LeadStep(ns[1..], shifted, n, pruneLoops);
        }
      }
      if n in Reach(ns[1..], pruneLoops) {
        var path :| LeadsTo(ns[1..], path, n, pruneLoops);
        LeadHas(ns[1..], path, n, pruneLoops);
        var shifted := [path[0] + 1] + path[1..];
        assert shifted[1..] == path[1..];
        LeadStep(ns[1..], path, n, pruneLoops);
        LeadStep(ns, shifted, n, pruneLoops);
      } else if n in Reach(ns, pruneLoops) {
        if n == m {
          LeadStep(ns, [0], n, pruneLoops);
        } else {
          var path :| LeadsTo(Children(m), path, n, pruneLoops);
          LeadHas(Children(m), path, n, pruneLoops);
          assert ([0] + path)[1..] == path;
          LeadStep(ns, [0] + path, n, pruneLoops);
        }
      }
    }
  }

  /** A loop governs exactly the nodes some path from its body or else-branch reaches through no pruned node. */
  lemma GovernedIffLed(loop: Node, n: Node, pruneLoops: bool)
    ensures n in Governed(loop, pruneLoops) <==> exists path :: LeadsTo(loop.body + loop.orelse, path, n, pruneLoops)
  {
    ReachIffLed(loop.body + loop.orelse, n, pruneLoops);
  }

  // ------------------------------------------------------------ bounded loops

  predicate Anywhere(ns: seq<Node>, wanted: Kind -> bool)
    decreases Size(ns), |ns|
  {
    if ns == [] then false
    else
      SizeOfChildren(ns[0]);
      wanted(ns[0].kind) || Anywhere(Children(ns[0]), wanted) || Anywhere(ns[1..], wanted)
  }

  // The test of a while, an if or an assert is the first child.
  function Test(n: Node): seq<Node> {
    if n.head == [] then [] else [n.head[0]]
  }

  predicate CallsClock(ns: seq<Node>) {
    Anywhere(ns, (k: Kind) => k.ClockCall?)
  }

  predicate Counts(n: Node, name: string) {
    n.kind == AugAssign(Some(name))
  }

  predicate Deadline(n: Node) {
    || (n.kind.Assert? && CallsClock(Test(n)))
    || (n.kind.If? && CallsClock(Test(n)) && LeavesIn(n.body + n.orelse, false))
  }

  predicate Names(ns: seq<Node>, name: string) {
    Anywhere(ns, (k: Kind) => k == Name(name))
  }

  /** The three shapes of a ceiling. */
  ghost predicate Bounded(loop: Node) {
    match loop.kind
    case For(endless) => !endless
    case _ =>
      || CallsClock(Test(loop))
      || (exists n, name :: n in Governed(loop, false) && Counts(n, name) && Names(Test(loop), name))
      || (exists n :: n in Governed(loop, true) && Deadline(n))
  }

  method IsBounded(loop: Node) returns (bounded: bool)
    requires IsLoop(loop)
    ensures bounded == Bounded(loop)
  {
    hide Governed, Names, Deadline, CallsClock, Test;
    if loop.kind.For? {
      return !loop.kind.endless;
    }
    if CallsClock(Test(loop)) {
      return true;
    }
    var counters := GovernedBy(loop, false);
    Members(counters, Governed(loop, false));
    for i := 0 to |counters|
      invariant forall n, name :: n in counters[..i] && Counts(n, name) ==>
                  !Names(Test(loop), name)
    {
      var n := counters[i];
      if n.kind.AugAssign? && n.kind.target.Some? && Names(Test(loop), n.kind.target.value) {
        assert Counts(n, n.kind.target.value);
        return true;
      }
      assert counters[..i + 1] == counters[..i] + [n];
    }
    assert counters[..|counters|] == counters;
    var governed := GovernedBy(loop, true);
    Members(governed, Governed(loop, true));
    for i := 0 to |governed|
      invariant forall n :: n in governed[..i] ==> !Deadline(n)
    {
      var found := IsDeadline(governed[i]);
      if found {
        return true;
      }
      assert governed[..i + 1] == governed[..i] + [governed[i]];
    }
    assert governed[..|governed|] == governed;
    return false;
  }

  lemma Members(s: seq<Node>, all: multiset<Node>)
    requires multiset(s) == all
    ensures forall n :: n in s <==> n in all
  {
    forall n ensures n in s <==> n in all { assert n in s <==> n in multiset(s); }
  }

  method IsDeadline(n: Node) returns (found: bool)
    ensures found == Deadline(n)
  {
    hide Anywhere, LeavesIn;
    if n.kind.Assert? && CallsClock(Test(n)) {
      return true;
    }
    if n.kind.If? && CallsClock(Test(n)) {
      found := LeavesLoop(n);
    } else {
      found := false;
    }
  }

  // -------------------------------------------------------------------- sleeps

  datatype Verdict = UnboundedSleep | UnboundedPoll | LongSleep | Fine

  datatype Finding = Finding(path: seq<nat>, kind: Verdict)

  /** What a sleep is, by the loops around it. */
  ghost function VerdictOf(seconds: Option<real>, loops: seq<Node>): Verdict {
    if loops == [] then UnboundedSleep
    else if forall k :: 0 <= k < |loops| ==> !Bounded(loops[k]) then UnboundedPoll
    else if seconds.Some? && seconds.value >= 1.0 then LongSleep
    else Fine
  }

  function LoopsIn(ns: seq<Node>): seq<Node> {
    if ns == [] then [] else (if IsLoop(ns[0]) then [ns[0]] else []) + LoopsIn(ns[1..])
  }

  ghost function At(n: Node, path: seq<nat>, loops: seq<Node>): seq<Finding> {
    if n.kind.Sleep? && VerdictOf(n.kind.seconds, loops) != Fine then
      [Finding(path, VerdictOf(n.kind.seconds, loops))]
    else []
  }

  /** The findings below the children `ns` of the node at `path`, of which the first is number `j`. */
  ghost function Visited(ns: seq<Node>, j: nat, path: seq<nat>, loops: seq<Node>): seq<Finding>
    decreases Size(ns), |ns|
  {
    if ns == [] then []
    else
      SizeOfChildren(ns[0]);
      At(ns[0], path + [j], loops)
      + Visited(Children(ns[0]), 0, path + [j], Around(ns[0], loops))
      + Visited(ns[1..], j + 1, path, loops)
  }

  class Findings {
    var out: seq<Finding>

    constructor ()
      ensures out == []
    {
      out := [];
    }
  }

  ghost predicate Upto(all: seq<Finding>, out: seq<Finding>, ns: seq<Node>, j: nat, path: seq<nat>, loops: seq<Node>) {
    j <= |ns| && all == out + Visited(ns[j..], j, path, loops)
  }

  function Around(n: Node, loops: seq<Node>): seq<Node> {
    if IsLoop(n) then loops + [n] else loops
  }

  method Visit(node: Node, path: seq<nat>, loops: seq<Node>, findings: Findings)
    requires forall k :: 0 <= k < |loops| ==> IsLoop(loops[k])
    modifies findings
    ensures findings.out == old(findings.out) + Visited(Children(node), 0, path, loops)
    decreases Weight(node)
  {
    hide Bounded, Weight, Size, Children, Visited, VerdictOf, Upto;
    var children := Children(node);
    ghost var all := findings.out + Visited(children, 0, path, loops);
    UptoStart(findings.out, children, path, loops);
    SizeOfChildren(node);
    for j := 0 to |children|
      invariant Upto(all, findings.out, children, j, path, loops)
    {
      var child := children[j];
      WeightOfMember(children, j);
      UptoTurn(all, findings.out, children, j, path, loops);
      ghost var before := findings.out;
      assert before + [] == before;
      var childLoops := if IsLoop(child) then loops + [child] else loops;
      if child.kind.Sleep? {
        var verdict := Judge(child.kind.seconds, loops);
        if verdict != Fine {
          findings.out := findings.out + [Finding(path + [j], verdict)];
        }
      }
      assert findings.out == before + At(child, path + [j], loops);
      Visit(child, path + [j], childLoops, findings);
    }
    UptoEnd(all, findings.out, children, path, loops);
  }

  lemma UptoStart(out: seq<Finding>, ns: seq<Node>, path: seq<nat>, loops: seq<Node>)
    ensures Upto(out + Visited(ns, 0, path, loops), out, ns, 0, path, loops)
  {
    assert ns[0..] == ns;
  }

  lemma UptoEnd(all: seq<Finding>, out: seq<Finding>, ns: seq<Node>, path: seq<nat>, loops: seq<Node>)
    requires Upto(all, out, ns, |ns|, path, loops)
    ensures all == out
  {
    assert ns[|ns|..] == [];
  }

  lemma UptoTurn(all: seq<Finding>, out: seq<Finding>, ns: seq<Node>, j: nat, path: seq<nat>, loops: seq<Node>)
    requires j < |ns| && Upto(all, out, ns, j, path, loops)
    ensures var inner := Visited(Children(ns[j]), 0, path + [j], Around(ns[j], loops));
            Upto(all, out + At(ns[j], path + [j], loops) + inner, ns, j + 1, path, loops)
  {
    hide At;
    assert ns[j..][0] == ns[j] && ns[j..][1..] == ns[j + 1..];
    var here, inner := At(ns[j], path + [j], loops), Visited(Children(ns[j]), 0, path + [j], Around(ns[j], loops));
    var rest := Visited(ns[j + 1..], j + 1, path, loops);
    assert out + (here + inner + rest) == out + here + inner + rest;
  }

  method Judge(seconds: Option<real>, loops: seq<Node>) returns (verdict: Verdict)
    requires forall k :: 0 <= k < |loops| ==> IsLoop(loops[k])
    ensures verdict == VerdictOf(seconds, loops)
  {
    hide Bounded;
    if loops == [] {
      return UnboundedSleep;
    }
    for k := 0 to |loops|
      invariant forall l :: 0 <= l < k ==> !Bounded(loops[l])
    {
      var bounded := IsBounded(loops[k]);
      if bounded {
        return if seconds.Some? && seconds.value >= 1.0 then LongSleep else Fine;
      }
    }
    return UnboundedPoll;
  }

  lemma {:induction false} WeightOfMember(ns: seq<Node>, j: nat)
    requires j < |ns|
    ensures Weight(ns[j]) <= Size(ns)
  {
    if j > 0 { WeightOfMember(ns[1..], j - 1); }
  }

  /** The node a path leads to is a sleep that the loops above it make a finding. */
  ghost predicate Reports(ns: seq<Node>, path: seq<nat>, loops: seq<Node>, kind: Verdict) {
    var on := On(ns, path);
    && on != [] && on[|on| - 1].kind.Sleep?
    && kind == VerdictOf(on[|on| - 1].kind.seconds, loops + LoopsIn(on[..|on| - 1]))
    && kind != Fine
  }

  // Findings carry the path of their node, so the parts of a walk do not overlap.
  lemma {:induction false} PathsOfVisited(ns: seq<Node>, j: nat, path: seq<nat>, loops: seq<Node>)
    ensures forall f :: f in Visited(ns, j, path, loops) ==>
              |f.path| > |path| && f.path[..|path|] == path && f.path[|path|] >= j
    decreases Size(ns), |ns|
  {
    hide Weight, Children, VerdictOf;
    if ns != [] {
      SizeOfChildren(ns[0]);
      PathsOfVisited(Children(ns[0]), 0, path + [j], Around(ns[0], loops));
      PathsOfVisited(ns[1..], j + 1, path, loops);
      forall f | f in Visited(Children(ns[0]), 0, path + [j], Around(ns[0], loops))
        ensures |f.path| > |path| && f.path[..|path|] == path && f.path[|path|] == j
      {
        assert f.path[..|path| + 1] == path + [j];
        assert f.path[..|path|] == f.path[..|path| + 1][..|path|];
        assert f.path[|path|] == f.path[..|path| + 1][|path|];
      }
    }
  }

  function Shifted(q: seq<nat>, j: nat): seq<nat>
    requires q != []
  {
    [q[0] + j] + q[1..]
  }

  lemma ReportStep(ns: seq<Node>, q: seq<nat>, loops: seq<Node>, kind: Verdict)
    requires q != [] && q[0] < |ns|
    ensures var n := ns[q[0]];
            Reports(ns, q, loops, kind) <==>
            if |q| == 1 then n.kind.Sleep? && kind == VerdictOf(n.kind.seconds, loops) && kind != Fine
            else Reports(Children(n), q[1..], Around(n, loops), kind)
  {
    hide VerdictOf;
    var n := ns[q[0]];
    var on := On(ns, q);
    if |q| == 1 {
      assert on == [n] && on[..0] == [] && loops + [] == loops;
    } else {
      var rest := On(Children(n), q[1..]);
      if rest != [] {
        assert on == [n] + rest && on[..|on| - 1] == [n] + rest[..|rest| - 1];
        assert ([n] + rest[..|rest| - 1])[1..] == rest[..|rest| - 1];
        var below := LoopsIn(rest[..|rest| - 1]);
        assert LoopsIn(on[..|on| - 1]) == (if IsLoop(n) then [n] else []) + below;
        assert loops + ([n] + below) == loops + [n] + below && loops + ([] + below) == loops + below;
      }
    }
  }

  /**
   A sleep is a finding of one kind exactly when that is what the loops above it
   make of it, wherever in the tree it stands.
   */
  lemma {:induction false} VisitedIffReports(ns: seq<Node>, j: nat, path: seq<nat>, loops: seq<Node>, q: seq<nat>,
                                             kind: Verdict)
    requires q != []
    ensures Finding(path + Shifted(q, j), kind) in Visited(ns, j, path, loops) <==> Reports(ns, q, loops, kind)
    decreases Size(ns), |ns|
  {
    hide Reports, VerdictOf, Weight, Children, Visited;
    var f := Finding(path + Shifted(q, j), kind);
    assert f.path[|path|] == q[0] + j && f.path[..|path|] == path;
    VisitedHas(ns, j, path, loops, f);
    if ns == [] {
      NothingReported(q, loops, kind);
    } else {
      var n := ns[0];
      SizeOfChildren(n);
      assert Size(ns) == Weight(n) + Size(ns[1..]);
      PathsOfVisited(ns[1..], j + 1, path, loops);
      PathsOfVisited(Children(n), 0, path + [j], Around(n, loops));
      if q[0] > 0 {
        var less := [q[0] - 1] + q[1..];
        assert less[1..] == q[1..] && Shifted(less, j + 1) == Shifted(q, j);
        VisitedIffReports(ns[1..], j + 1, path, loops, less, kind);
        Earlier(ns, q, less, loops, kind);
        NotBelow(f, path, j);
      } else {
        ReportStep(ns, q, loops, kind);
        if |q| == 1 {
          assert q[1..] == [] && f.path == path + [j];
        } else {
          assert q[1..] == Shifted(q[1..], 0);
          assert f.path == (path + [j]) + Shifted(q[1..], 0);
          VisitedIffReports(Children(n), 0, path + [j], Around(n, loops), q[1..], kind);
        }
      }
    }
  }

  lemma VisitedHas(ns: seq<Node>, j: nat, path: seq<nat>, loops: seq<Node>, f: Finding)
    ensures f in Visited(ns, j, path, loops) <==>
            && ns != []
            && (|| (f.path == path + [j] && ns[0].kind.Sleep? && f.kind == VerdictOf(ns[0].kind.seconds, loops) && f.kind != Fine)
                || f in Visited(Children(ns[0]), 0, path + [j], Around(ns[0], loops))
                || f in Visited(ns[1..], j + 1, path, loops))
  {
    hide VerdictOf;
  }

  lemma NotBelow(f: Finding, path: seq<nat>, j: nat)
    requires |f.path| > |path| && f.path[|path|] != j
    ensures f.path != path + [j]
    ensures |f.path| > |path| + 1 ==> f.path[..|path| + 1] != path + [j]
  {
    assert (path + [j])[|path|] == j && f.path[..|path| + 1][|path|] == f.path[|path|];
  }

  lemma NothingReported(q: seq<nat>, loops: seq<Node>, kind: Verdict)
    requires q != []
    ensures !Reports([], q, loops, kind)
  {}

  lemma Earlier(ns: seq<Node>, q: seq<nat>, less: seq<nat>, loops: seq<Node>, kind: Verdict)
    requires ns != [] && q != [] && q[0] > 0 && less == [q[0] - 1] + q[1..]
    ensures Reports(ns, q, loops, kind) <==> Reports(ns[1..], less, loops, kind)
  {
    hide VerdictOf;
    assert On(ns, q) == On(ns[1..], less) by {
      assert less[1..] == q[1..];
      if q[0] < |ns| { assert ns[1..][less[0]] == ns[q[0]]; }
    }
  }
}
