/**
 Reading a value out of a decoded JSON document by path, and the equality that
 expectations are checked with.
 */
module CaseFiles {
  import opened JsonData

  datatype Step = Key(name: string) | Index(i: int) | Star

  /** One plain step; a step that does not resolve gives `Missing`. */
  function Take(doc: Json, step: Step): Json {
    match step
    case Key(name) => if doc.Obj? && name in doc.fields then doc.fields[name] else Missing
    case Index(i) =>
      if doc.Arr? && -|doc.items| <= i < |doc.items| then doc.items[if i < 0 then |doc.items| + i else i] else Missing
    case Star => Missing
  }

  /** The value at a path; `Star` collects the rest of the path from every element of a list. */
  function At(doc: Json, path: seq<Step>): Json
    decreases |path|
  {
    if path == [] then doc
    else if path[0] == Star then
      if doc.Arr? then Arr(seq(|doc.items|, i requires 0 <= i < |doc.items| => At(doc.items[i], path[1..]))) else Missing
    else At(Take(doc, path[0]), path[1..])
  }

  method ValueAt(start: Json, path: seq<Step>) returns (value: Json)
    ensures value == At(start, path)
    decreases |path|
  {
    var doc := start;
    assert path[0..] == path;
    for n := 0 to |path|
      invariant At(start, path) == At(doc, path[n..])
    {
      var step := path[n];
      assert path[n..][0] == step && path[n..][1..] == path[n + 1..];
      if step == Star {
        if !doc.Arr? {
          return Missing;
        }
        var all := [];
        for k := 0 to |doc.items|
          invariant |all| == k && forall l :: 0 <= l < k ==> all[l] == At(doc.items[l], path[n + 1..])
        {
          var one := ValueAt(doc.items[k], path[n + 1..]);
          all := all + [one];
        }
        assert At(doc, path[n..]).items == all;
        return Arr(all);
      }
      ghost var was := doc;
      if step.Index? {
        if !doc.Arr? || !(-|doc.items| <= step.i < |doc.items|) {
          MissingAbsorbs(path[n + 1..]);
          return Missing;
        }
        doc := doc.items[if step.i < 0 then |doc.items| + step.i else step.i];
      } else if doc.Obj? && step.name in doc.fields {
        doc := doc.fields[step.name];
      } else {
        MissingAbsorbs(path[n + 1..]);
        return Missing;
      }
      assert doc == Take(was, step);
    }
    assert path[|path|..] == [];
    return doc;
  }

  /** Nothing is found in what is missing. */
  lemma {:induction false} MissingAbsorbs(path: seq<Step>)
    ensures At(Missing, path) == Missing
    decreases |path|
  {
    if path != [] && path[0] != Star {
      MissingAbsorbs(path[1..]);
    }
  }

  predicate StarFree(path: seq<Step>) {
    Star !in path
  }

  /** Reading along a path in two parts is reading the whole path. */
  lemma {:induction false} AtComposes(doc: Json, p: seq<Step>, q: seq<Step>)
    requires StarFree(p)
    ensures At(doc, p + q) == At(At(doc, p), q)
    decreases |p|
  {
    if p == [] {
      assert p + q == q;
    } else {
      assert p[0] in p && (p + q)[0] == p[0] && (p + q)[1..] == p[1..] + q;
      AtComposes(Take(doc, p[0]), p[1..], q);
    }
  }

  /** Past a star, the rest of the path is read in every element of the list the front leads to. */
  lemma StarDistributes(doc: Json, p: seq<Step>, q: seq<Step>)
    requires StarFree(p)
    ensures var list := At(doc, p);
            var all := At(doc, p + [Star] + q);
            if list.Arr? then
              && all.Arr? && |all.items| == |list.items|
              && forall i :: 0 <= i < |list.items| ==> all.items[i] == At(doc, p + [Index(i)] + q)
            else all == Missing
  {
    assert p + [Star] + q == p + ([Star] + q) && ([Star] + q)[1..] == q;
    AtComposes(doc, p, [Star] + q);
    var list := At(doc, p);
    if list.Arr? {
      forall i | 0 <= i < |list.items| ensures At(doc, p + [Index(i)] + q) == At(list.items[i], q) {
        assert p + [Index(i)] + q == p + ([Index(i)] + q) && ([Index(i)] + q)[1..] == q;
        AtComposes(doc, p, [Index(i)] + q);
      }
    }
  }

  // ---------------------------------------------------------------- equality

  predicate IsNumber(j: Json) {
    j.Int? || j.Float? || j.NaN?
  }

  // Numbers as Python compares them: exactly, and NaN with nothing.
  predicate NumbersEqual(a: Json, b: Json)
    requires IsNumber(a) && IsNumber(b)
  {
    if a.NaN? || b.NaN? then false else NumberOf(a) == NumberOf(b)
  }

  function NumberOf(j: Json): real
    requires j.Int? || j.Float?
  {
    if j.Int? then j.n as real else j.x
  }

  /** 3 is 3.0, but true is not 1, and a missing value equals nothing. */
  predicate Same(a: Json, b: Json) {
    if a.Missing? || b.Missing? then false
    else if IsNumber(a) && IsNumber(b) then NumbersEqual(a, b)
    else
      match a
      case Arr(items) =>
        b.Arr? && |items| == |b.items| && forall i :: 0 <= i < |items| ==> Same(items[i], b.items[i])
      case Obj(fields) =>
        b.Obj? && fields.Keys == b.fields.Keys && forall k :: k in fields ==> Same(fields[k], b.fields[k])
      case Null => b.Null?
      case Bool(x) => b.Bool? && b.b == x
      case Str(s) => b.Str? && b.s == s
      case _ => false
  }

  /** A document as a decoder gives it, and with no NaN in it. */
  predicate Plain(j: Json) {
    match j
    case Arr(items) => forall i :: 0 <= i < |items| ==> Plain(items[i])
    case Obj(fields) => forall k :: k in fields ==> Plain(fields[k])
    case NaN => false
    case Missing => false
    case _ => true
  }

  lemma {:induction false} SameIsSymmetric(a: Json, b: Json)
    requires Same(a, b)
    ensures Same(b, a)
    decreases a
  {
    match a
    case Arr(items) =>
      forall i | 0 <= i < |items| ensures Same(b.items[i], items[i]) { SameIsSymmetric(items[i], b.items[i]); }
    case Obj(fields) =>
      forall k | k in fields ensures Same(b.fields[k], fields[k]) { SameIsSymmetric(fields[k], b.fields[k]); }
    case _ =>
  }

  lemma {:induction false} SameIsTransitive(a: Json, b: Json, c: Json)
    requires Same(a, b) && Same(b, c)
    ensures Same(a, c)
    decreases a
  {
    match a
    case Arr(items) =>
      forall i | 0 <= i < |items| ensures Same(items[i], c.items[i]) {
        SameIsTransitive(items[i], b.items[i], c.items[i]);
      }
    case Obj(fields) =>
      forall k | k in fields ensures Same(fields[k], c.fields[k]) {
        SameIsTransitive(fields[k], b.fields[k], c.fields[k]);
      }
    case _ =>
  }

  /** A value equals itself exactly when nothing in it is NaN or missing. */
  lemma {:induction false} SameAsItself(a: Json)
    ensures Same(a, a) <==> Plain(a)
    decreases a
  {
    match a
    case Arr(items) =>
      forall i | 0 <= i < |items| ensures Same(items[i], items[i]) <==> Plain(items[i]) { SameAsItself(items[i]); }
    case Obj(fields) =>
      forall k | k in fields ensures Same(fields[k], fields[k]) <==> Plain(fields[k]) { SameAsItself(fields[k]); }
    case _ =>
  }

  /** The decimal point aside: every integral float read as the integer it is. */
  function Integral(j: Json): Json {
    match j
    case Float(x) => if x == x.Floor as real then Int(x.Floor) else j
    case Arr(items) => Arr(seq(|items|, i requires 0 <= i < |items| => Integral(items[i])))
    case Obj(fields) => Obj(map k | k in fields :: Integral(fields[k]))
    case _ => j
  }

  /**
   On plain documents the comparison is equality but for one thing: a number
   may be written with or without a decimal point. No bool equals a number.
   */
  lemma {:induction false} SameIsEqualUpToPoint(a: Json, b: Json)
    requires Plain(a) && Plain(b)
    ensures Same(a, b) <==> Integral(a) == Integral(b)
    decreases a
  {
    match a
    case Arr(items) =>
      if b.Arr? {
        var x, y := Integral(a).items, Integral(b).items;
        if |items| == |b.items| {
          forall i | 0 <= i < |items| ensures Same(items[i], b.items[i]) <==> x[i] == y[i] {
            SameIsEqualUpToPoint(items[i], b.items[i]);
          }
          if Same(a, b) {
            assert x == y;
          } else {
            var i :| 0 <= i < |items| && !Same(items[i], b.items[i]);
            assert x[i] != y[i];
          }
        } else {
          assert |x| != |y|;
        }
      }
    case Obj(fields) =>
      if b.Obj? {
        var x, y := Integral(a).fields, Integral(b).fields;
        assert x.Keys == fields.Keys && y.Keys == b.fields.Keys;
        if fields.Keys == b.fields.Keys {
          forall k | k in fields ensures Same(fields[k], b.fields[k]) <==> x[k] == y[k] {
            SameIsEqualUpToPoint(fields[k], b.fields[k]);
          }
          if Same(a, b) {
            assert x == y;
          } else {
            var k :| k in fields && !Same(fields[k], b.fields[k]);
            assert x[k] != y[k];
          }
        }
      }
    case _ => NumbersUpToPoint(a, b);
  }

  lemma NumbersUpToPoint(a: Json, b: Json)
    requires Plain(a) && Plain(b) && !a.Arr? && !a.Obj?
    ensures Same(a, b) <==> Integral(a) == Integral(b)
  {
    if a.Int? && b.Float? {
      assert (a.n as real).Floor == a.n;
    } else if a.Float? && b.Int? {
      assert (b.n as real).Floor == b.n;
    }
  }

  // ------------------------------------------------------------ expectations

  datatype Op = Equals(want: Json) | Contains(want: Json) | Length(want: Json) | Descending

  /** `Unspecified` where the outcome hangs on how a sort treats NaN. */
  datatype Verdict = Held | Unmet | Unspecified

  function Insert(x: Json, items: seq<Json>): seq<Json>
    requires (x.Int? || x.Float?) && forall v :: v in items ==> v.Int? || v.Float?
  {
    if items == [] || NumberOf(items[0]) < NumberOf(x) then [x] + items
    else
      assert items[0] in items;
      [items[0]] + Insert(x, items[1..])
  }

  /** The stable sort, largest first. */
  function Sorted(items: seq<Json>): (r: seq<Json>)
    requires forall v :: v in items ==> v.Int? || v.Float?
    ensures |r| == |items| && forall v :: v in r ==> v in items
  {
    if items == [] then []
    else
      var n := |items| - 1;
      assert items[n] in items;
      InsertMembers(items[n], Sorted(items[..n]));
      Insert(items[n], Sorted(items[..n]))
  }

  lemma {:induction false} InsertMembers(x: Json, items: seq<Json>)
    requires (x.Int? || x.Float?) && forall v :: v in items ==> v.Int? || v.Float?
    ensures |Insert(x, items)| == |items| + 1
    ensures forall v :: v in Insert(x, items) ==> v == x || v in items
  {
    if items != [] && NumberOf(items[0]) >= NumberOf(x) {
      InsertMembers(x, items[1..]);
    }
  }

  predicate IsDescending(items: seq<Json>)
    requires forall v :: v in items ==> v.Int? || v.Float?
  {
    forall i, j :: 0 <= i < j < |items| ==> NumberOf(items[i]) >= NumberOf(items[j])
  }

  // Python's == on two lists of numbers.
  predicate ListsEqual(a: seq<Json>, b: seq<Json>)
    requires forall v :: v in a || v in b ==> v.Int? || v.Float?
  {
    |a| == |b| && forall i :: 0 <= i < |a| ==> NumberOf(a[i]) == NumberOf(b[i])
  }

  lemma ConsDescends(x: Json, rest: seq<Json>)
    requires (x.Int? || x.Float?) && forall v :: v in rest ==> (v.Int? || v.Float?) && NumberOf(x) >= NumberOf(v)
    requires IsDescending(rest)
    ensures (forall v :: v in [x] + rest ==> v.Int? || v.Float?) && IsDescending([x] + rest)
  {
    var all := [x] + rest;
    forall i, j | 0 <= i < j < |all| ensures NumberOf(all[i]) >= NumberOf(all[j]) {
      assert all[j] == rest[j - 1] && rest[j - 1] in rest;
      if i > 0 { assert all[i] == rest[i - 1]; }
    }
  }

  lemma TailDescends(items: seq<Json>)
    requires items != [] && (forall v :: v in items ==> v.Int? || v.Float?) && IsDescending(items)
    ensures IsDescending(items[1..])
    ensures forall v :: v in items[1..] ==> NumberOf(items[0]) >= NumberOf(v)
  {}

  lemma {:induction false} InsertDescends(x: Json, items: seq<Json>)
    requires (x.Int? || x.Float?) && (forall v :: v in items ==> v.Int? || v.Float?) && IsDescending(items)
    ensures (forall v :: v in Insert(x, items) ==> v.Int? || v.Float?) && IsDescending(Insert(x, items))
  {
    hide IsDescending;
    InsertMembers(x, items);
    if items == [] {
      NoneDescends();
      ConsDescends(x, items);
    } else {
      TailDescends(items);
      if NumberOf(items[0]) >= NumberOf(x) {
        InsertDescends(x, items[1..]);
        InsertMembers(x, items[1..]);
        ConsDescends(items[0], Insert(x, items[1..]));
      } else {
        AllBelow(x, items);
        ConsDescends(x, items);
      }
    }
  }

  lemma NoneDescends()
    ensures IsDescending([])
  {}

  lemma AllBelow(x: Json, items: seq<Json>)
    requires items != [] && (x.Int? || x.Float?) && (forall v :: v in items ==> v.Int? || v.Float?)
    requires IsDescending(items) && NumberOf(x) > NumberOf(items[0])
    ensures forall v :: v in items ==> NumberOf(x) >= NumberOf(v)
  {}

  lemma {:induction false} InsertLast(x: Json, items: seq<Json>)
    requires (x.Int? || x.Float?) && (forall v :: v in items ==> (v.Int? || v.Float?) && NumberOf(v) >= NumberOf(x))
    ensures Insert(x, items) == items + [x]
  {
    if items != [] {
      assert items[0] in items;
      InsertLast(x, items[1..]);
      assert items == [items[0]] + items[1..];
    }
  }

  lemma {:induction false} SortedDescends(items: seq<Json>)
    requires forall v :: v in items ==> v.Int? || v.Float?
    ensures IsDescending(Sorted(items))
    ensures IsDescending(items) ==> Sorted(items) == items
  {
    if items != [] {
      var n := |items| - 1;
      SortedDescends(items[..n]);
      assert items[n] in items;
      InsertDescends(items[n], Sorted(items[..n]));
      assert items == items[..n] + [items[n]];
      if IsDescending(items) {
        InsertLast(items[n], items[..n]);
      }
    }
  }

  /** A list of numbers equals its own descending sort exactly when it descends. */
  lemma SortedIffDescends(items: seq<Json>)
    requires forall v :: v in items ==> v.Int? || v.Float?
    ensures ListsEqual(items, Sorted(items)) <==> IsDescending(items)
  {
    SortedDescends(items);
    if ListsEqual(items, Sorted(items)) {
      var sorted := Sorted(items);
      forall i, j | 0 <= i < j < |items| ensures NumberOf(items[i]) >= NumberOf(items[j]) {
        assert NumberOf(sorted[i]) >= NumberOf(sorted[j]);
      }
    }
  }

  // Python's ==, for the length of a value and the number wanted.
  predicate LengthIs(n: nat, want: Json) {
    match want
    case Int(m) => m == n
    case Float(x) => x == n as real
    case Bool(b) => n == if b then 1 else 0
    case _ => false
  }

  function Check(doc: Json, path: seq<Step>, op: Op): Verdict {
    var got := At(doc, path);
    var held := (ok: bool) => if ok then Held else Unmet;
    match op
    case Equals(want) => held(Same(got, want))
    case Contains(want) => held(got.Arr? && exists v :: v in got.items && Same(v, want))
    case Length(want) =>
      held(match got
           case Arr(items) => LengthIs(|items|, want)
           case Obj(fields) => LengthIs(|fields|, want)
           case Str(s) => LengthIs(|s|, want)
           case _ => false)
    case Descending =>
      if !got.Arr? || exists v :: v in got.items && !IsNumber(v) then Unmet
      else if exists v :: v in got.items && v.NaN? then Unspecified
      else held(ListsEqual(got.items, Sorted(got.items)))
  }

  lemma MissingChecks(want: Json)
    ensures !Same(Missing, want)
  {}

  /** A path that does not resolve fails every expectation, whatever is wanted. */
  lemma WrongPathFails(doc: Json, path: seq<Step>, op: Op)
    requires At(doc, path).Missing?
    ensures Check(doc, path, op) == Unmet
  {
    hide At, Same, Sorted;
    if op.Equals? { MissingChecks(op.want); }
  }

  /** An ordering holds of exactly the lists of numbers that descend. */
  lemma OrderedMeansDescending(doc: Json, path: seq<Step>)
    ensures Check(doc, path, Descending) == Held <==>
              && At(doc, path).Arr?
              && (forall v :: v in At(doc, path).items ==> v.Int? || v.Float?)
              && IsDescending(At(doc, path).items)
  {
    hide At, Sorted, ListsEqual, IsDescending;
    var got := At(doc, path);
    if got.Arr? {
      var items := got.items;
      if forall v :: v in items ==> v.Int? || v.Float? {
        SortedIffDescends(items);
      }
    }
  }
}
