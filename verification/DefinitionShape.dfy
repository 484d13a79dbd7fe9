/**
 The redactor that prints the shape of a captured definition: keys, types and
 discriminators, no values; and the list of discriminators it collects.
 */
module DefinitionShape {
  import opened Basics
  import opened JsonData

  datatype Key = NoKey | Key(name: string)

  const KEEP_VALUE_KEYS := {"type", "activityType", "kind"}

  predicate Keeps(key: Key) {
    key.Key? && key.name in KEEP_VALUE_KEYS
  }

  // ------------------------------------------------------- counts in decimal

  function Decimal(n: nat): (s: string)
    ensures s != []
  {
    if n < 10 then [Digit(n)] else Decimal(n / 10) + [Digit(n % 10)]
  }

  function Digit(d: nat): char
    requires d < 10
  {
    '0' + d as char
  }

  function Value(s: string): nat
    requires forall i :: 0 <= i < |s| ==> IsDigit(s[i])
  {
    if s == [] then 0
    else
      assert IsDigit(s[|s| - 1]);
      10 * Value(s[..|s| - 1]) + (s[|s| - 1] - '0') as nat
  }

  const BEFORE := "<... "
  const AFTER := " items>"

  function Count(n: nat): string {
    BEFORE + Decimal(n) + AFTER
  }

  /** The number an item-count marker carries. */
  function CountIn(s: string): Option<nat> {
    if |BEFORE| + |AFTER| < |s| && BEFORE <= s && s[|s| - |AFTER|..] == AFTER then
      var mid := s[|BEFORE|..|s| - |AFTER|];
      if forall i :: 0 <= i < |mid| ==> IsDigit(mid[i]) then Some(Value(mid)) else None
    else None
  }

  lemma {:induction false} DecimalReads(n: nat)
    ensures (forall i :: 0 <= i < |Decimal(n)| ==> IsDigit(Decimal(n)[i])) && Value(Decimal(n)) == n
  {
    var s := Decimal(n);
    if n < 10 {
      assert s[..0] == [];
    } else {
      DecimalReads(n / 10);
      assert s[..|s| - 1] == Decimal(n / 10);
    }
  }

  /** A printed count reads back as the same number. */
  lemma CountReads(n: nat)
    ensures CountIn(Count(n)) == Some(n)
  {
    var s := Count(n);
    DecimalReads(n);
    assert s[..|BEFORE|] == BEFORE && s[|s| - |AFTER|..] == AFTER;
    assert s[|BEFORE|..|s| - |AFTER|] == Decimal(n);
  }

  // ------------------------------------------------------------------- shapes

  const MARKERS := {"<null>", "<bool>", "<number>", "<expression>", "<string>", "<unknown>"}

  function Leaf(node: Json, key: Key): Json
    requires !node.Obj? && !node.Arr?
  {
    if Keeps(key) && node.Str? then node
    else
      match node
      case Null => Str("<null>")
      case Bool(_) => Str("<bool>")
      case Int(_) => Str("<number>")
      case Float(_) => Str("<number>")
      case NaN => Str("<number>")
      case Str(s) => if s != [] && s[0] == '@' then Str("<expression>") else Str("<string>")
      case _ => Str("<unknown>")
  }

  function Shape(node: Json, key: Key): Json {
    match node
    case Obj(fields) => Obj(map k | k in fields :: Shape(fields[k], Key(k)))
    case Arr(items) =>
      if items == [] then Arr([])
      else
        var first := Shape(items[0], key);
        if forall i :: 0 <= i < |items| ==> Shape(items[i], key) == first then
          if |items| > 1 then Arr([first, Str(Count(|items|))]) else Arr([first])
        else Arr(seq(|items|, i requires 0 <= i < |items| => Shape(items[i], key)))
    case _ => Leaf(node, key)
  }

  /** The same shape with no list compressed. */
  function Skeleton(node: Json, key: Key): Json {
    match node
    case Obj(fields) => Obj(map k | k in fields :: Skeleton(fields[k], Key(k)))
    case Arr(items) => Arr(seq(|items|, i requires 0 <= i < |items| => Skeleton(items[i], key)))
    case _ => Leaf(node, key)
  }

  predicate IsCounted(items: seq<Json>) {
    |items| == 2 && items[1].Str? && CountIn(items[1].s).Some?
  }

  /** Reading a printed shape: a list that ends in a count stands for that many copies. */
  function Expand(shape: Json): Json {
    match shape
    case Obj(fields) => Obj(map k | k in fields :: Expand(fields[k]))
    case Arr(items) =>
      if IsCounted(items) then
        var one := Expand(items[0]);
        Arr(seq(CountIn(items[1].s).value, _ => one))
      else Arr(seq(|items|, i requires 0 <= i < |items| => Expand(items[i])))
    case _ => shape
  }

  // -------------------------------------------------- what compression loses

  /** A list of two different values, the second a kept string that reads like a count. */
  predicate Misleads(items: seq<Json>, key: Key) {
    Keeps(key) && IsCounted(items) && items[0] != items[1]
  }

  predicate Ambiguous(node: Json, key: Key) {
    match node
    case Obj(fields) => exists k :: k in fields && Ambiguous(fields[k], Key(k))
    case Arr(items) => Misleads(items, key) || exists i :: 0 <= i < |items| && Ambiguous(items[i], key)
    case _ => false
  }

  lemma MarkersCountNothing(s: string)
    requires s in MARKERS
    ensures CountIn(s) == None
  {
    if s == "<unknown>" { assert s[1] == 'u'; }
    if s == "<expression>" { assert s[1] == 'e'; }
    if s == "<string>" { assert s[1] == 's'; }
    if s == "<number>" { assert s[1] == 'n'; }
    if s == "<null>" { assert s[1] == 'n'; }
    if s == "<bool>" { assert s[1] == 'b'; }
    assert BEFORE[1] == '.';
  }

  lemma KeptAsIs(node: Json, key: Key)
    requires Keeps(key) && node.Str?
    ensures Shape(node, key) == node == Skeleton(node, key)
  {}

  // A string shape that reads like a count is a kept string.
  lemma CountedShape(node: Json, key: Key)
    requires Shape(node, key).Str? && CountIn(Shape(node, key).s).Some?
    ensures Keeps(key) && node == Shape(node, key)
  {
    hide CountIn, Count;
    if !(Keeps(key) && node.Str?) && !node.Arr? && !node.Obj? {
      MarkersCountNothing(Shape(node, key).s);
    }
  }

  /**
   The expander undoes the compression exactly on the documents in which no
   two-element list misleads it.
   */
  lemma {:induction false} ExpandUndoes(node: Json, key: Key)
    ensures Expand(Shape(node, key)) == Skeleton(node, key) <==> !Ambiguous(node, key)
    decreases node
  {
    hide CountIn, Count, Leaf;
    match node
    case Obj(fields) =>
      var e, s := Expand(Shape(node, key)).fields, Skeleton(node, key).fields;
      forall k | k in fields ensures e[k] == s[k] <==> !Ambiguous(fields[k], Key(k)) {
        ExpandUndoes(fields[k], Key(k));
      }
      if !Ambiguous(node, key) {
        assert e == s;
      } else {
        var k :| k in fields && Ambiguous(fields[k], Key(k));
        assert e[k] != s[k];
      }
    case Arr(items) =>
      forall i | 0 <= i < |items|
        ensures Expand(Shape(items[i], key)) == Skeleton(items[i], key) <==> !Ambiguous(items[i], key)
      {
        ExpandUndoes(items[i], key);
      }
      ExpandList(items, key);
    case _ => LeafIsString(node, key);
  }

  lemma LeafIsString(node: Json, key: Key)
    requires !node.Obj? && !node.Arr?
    ensures Leaf(node, key).Str?
  {}

  lemma ExpandList(items: seq<Json>, key: Key)
    requires forall i :: 0 <= i < |items| ==>
               (Expand(Shape(items[i], key)) == Skeleton(items[i], key) <==> !Ambiguous(items[i], key))
    ensures Expand(Shape(Arr(items), key)) == Skeleton(Arr(items), key) <==> !Ambiguous(Arr(items), key)
  {
    hide CountIn, Count, Leaf, Ambiguous;
    var node := Arr(items);
    AmbiguousList(items, key);
    if items == [] {
      assert Expand(Arr([])) == Arr([]);
    } else {
      var first := Shape(items[0], key);
      if forall i :: 0 <= i < |items| ==> Shape(items[i], key) == first {
        UniformList(items, key);
      } else {
        MixedList(items, key);
      }
    }
  }

  lemma AmbiguousList(items: seq<Json>, key: Key)
    ensures Ambiguous(Arr(items), key) <==>
            Misleads(items, key) || exists i :: 0 <= i < |items| && Ambiguous(items[i], key)
  {}

  lemma UniformList(items: seq<Json>, key: Key)
    requires items != [] && forall i :: 0 <= i < |items| ==> Shape(items[i], key) == Shape(items[0], key)
    ensures Expand(Shape(Arr(items), key)) == Skeleton(Arr(items), key) <==>
            forall i :: 0 <= i < |items| ==> Expand(Shape(items[i], key)) == Skeleton(items[i], key)
    ensures !Misleads(items, key)
  {
    hide CountIn, Count, Leaf;
    var first, one := Shape(items[0], key), Expand(Shape(items[0], key));
    CountReads(|items|);
    var e, s := Expand(Shape(Arr(items), key)).items, Skeleton(Arr(items), key).items;
    if |items| > 1 {
      assert Shape(Arr(items), key) == Arr([first, Str(Count(|items|))]);
      assert IsCounted([first, Str(Count(|items|))]);
      if Misleads(items, key) {
        KeptAsIs(items[1], key);
        CountedShape(items[0], key);
      }
    } else {
      assert !IsCounted([first]);
    }
    assert |e| == |items| && forall i :: 0 <= i < |items| ==> e[i] == one;
    if forall i :: 0 <= i < |items| ==> Expand(Shape(items[i], key)) == Skeleton(items[i], key) {
      assert e == s;
    } else {
      var i :| 0 <= i < |items| && Expand(Shape(items[i], key)) != Skeleton(items[i], key);
      assert e[i] != s[i];
    }
  }

  lemma MixedList(items: seq<Json>, key: Key)
    requires items != [] && exists i :: 0 <= i < |items| && Shape(items[i], key) != Shape(items[0], key)
    ensures Expand(Shape(Arr(items), key)) == Skeleton(Arr(items), key) <==>
            && !Misleads(items, key)
            && forall i :: 0 <= i < |items| ==> Expand(Shape(items[i], key)) == Skeleton(items[i], key)
  {
    hide CountIn, Count, Leaf, Shape, Skeleton, Expand;
    MixedShape(items, key);
    SkeletonOfList(items, key);
    var shapes := Shape(Arr(items), key).items;
    if IsCounted(shapes) {
      CountedMixedList(items, key);
    } else {
      ExpandPlain(shapes);
      var e, s := Expand(Arr(shapes)).items, Skeleton(Arr(items), key).items;
      if Keeps(key) && |items| == 2 && items[1].Str? { KeptAsIs(items[1], key); }
      assert !Misleads(items, key);
      if forall i :: 0 <= i < |items| ==> Expand(Shape(items[i], key)) == Skeleton(items[i], key) {
        assert e == s;
      } else {
        var i :| 0 <= i < |items| && Expand(Shape(items[i], key)) != Skeleton(items[i], key);
        assert e[i] != s[i];
      }
    }
  }

  lemma CountedMixedList(items: seq<Json>, key: Key)
    requires items != [] && exists i :: 0 <= i < |items| && Shape(items[i], key) != Shape(items[0], key)
    requires IsCounted(Shape(Arr(items), key).items)
    ensures Expand(Shape(Arr(items), key)) != Skeleton(Arr(items), key) && Misleads(items, key)
  {
    hide CountIn, Count, Leaf, Shape, Skeleton, Expand;
    MixedShape(items, key);
    SkeletonOfList(items, key);
    var shapes := Shape(Arr(items), key).items;
    CountedShape(items[1], key);
    KeptAsIs(items[1], key);
    var i :| 0 <= i < |items| && Shape(items[i], key) != Shape(items[0], key);
    assert i == 1;
    ExpandMakesNoString(shapes[0]);
    ExpandCounted(shapes);
    var e, s := Expand(Arr(shapes)).items, Skeleton(Arr(items), key).items;
    assert |e| > 1 ==> e[1] != s[1];
  }

  // What the three readings make of a list.
  lemma MixedShape(items: seq<Json>, key: Key)
    requires items != [] && exists i :: 0 <= i < |items| && Shape(items[i], key) != Shape(items[0], key)
    ensures var shape := Shape(Arr(items), key);
            && shape.Arr? && |shape.items| == |items|
            && forall i :: 0 <= i < |items| ==> shape.items[i] == Shape(items[i], key)
  {
    hide Count, Leaf;
  }

  lemma SkeletonOfList(items: seq<Json>, key: Key)
    ensures var skeleton := Skeleton(Arr(items), key);
            && skeleton.Arr? && |skeleton.items| == |items|
            && forall i :: 0 <= i < |items| ==> skeleton.items[i] == Skeleton(items[i], key)
  {}

  lemma ExpandPlain(shapes: seq<Json>)
    requires !IsCounted(shapes)
    ensures var list := Expand(Arr(shapes));
            && list.Arr? && |list.items| == |shapes|
            && forall i :: 0 <= i < |shapes| ==> list.items[i] == Expand(shapes[i])
  {
    hide CountIn;
  }

  lemma ExpandCounted(shapes: seq<Json>)
    requires IsCounted(shapes)
    ensures var list := Expand(Arr(shapes));
            && list.Arr? && |list.items| == CountIn(shapes[1].s).value
            && forall i :: 0 <= i < |list.items| ==> list.items[i] == Expand(shapes[0])
  {
    hide CountIn;
  }

  lemma ExpandMakesNoString(shape: Json)
    ensures Expand(shape).Str? ==> Expand(shape) == shape
  {}

  /** Such a document: the two kept strings come back as five copies of the first. */
  lemma MisleadingList()
    ensures var doc := Obj(map["type" := Arr([Str("Copy"), Str(Count(5))])]);
            Expand(Shape(doc, NoKey)) != Skeleton(doc, NoKey)
  {
    hide CountIn, Count;
    var list := Arr([Str("Copy"), Str(Count(5))]);
    var doc := Obj(map["type" := list]);
    CountReads(5);
    assert Str("Copy") != Str(Count(5)) by {
      if "Copy" == Count(5) { CopyIsNoCount(); }
    }
    assert Misleads(list.items, Key("type"));
    assert "type" in doc.fields && Ambiguous(doc.fields["type"], Key("type"));
    ExpandUndoes(doc, NoKey);
  }

  lemma CopyIsNoCount()
    ensures CountIn("Copy") == None
  {}

  // --------------------------------------------------------- what is published

  /** Two documents that differ in redacted values only. */
  predicate Alike(a: Json, b: Json, key: Key) {
    match a
    case Obj(fields) =>
      b.Obj? && b.fields.Keys == fields.Keys && forall k :: k in fields ==> Alike(fields[k], b.fields[k], Key(k))
    case Arr(items) =>
      b.Arr? && |b.items| == |items| && forall i :: 0 <= i < |items| ==> Alike(items[i], b.items[i], key)
    case Str(s) => b.Str? && if Keeps(key) then s == b.s else IsExpression(s) == IsExpression(b.s)
    case Null => b.Null?
    case Bool(_) => b.Bool?
    case Missing => b.Missing?
    case _ => b.Int? || b.Float? || b.NaN?
  }

  predicate IsExpression(s: string) {
    s != [] && s[0] == '@'
  }

  /** A kept string that could be taken for the marker of a redacted value. */
  predicate KeepsMarker(node: Json, key: Key) {
    match node
    case Obj(fields) => exists k :: k in fields && KeepsMarker(fields[k], Key(k))
    case Arr(items) => exists i :: 0 <= i < |items| && KeepsMarker(items[i], key)
    case Str(s) => Keeps(key) && s in MARKERS
    case _ => false
  }

  /** Redacted values do not reach the output: documents alike in all else have one shape. */
  lemma {:induction false} ShapeHidesValues(a: Json, b: Json, key: Key)
    requires Alike(a, b, key)
    ensures Shape(a, key) == Shape(b, key)
    decreases a
  {
    hide Count;
    match a
    case Obj(fields) =>
      forall k | k in fields ensures Shape(fields[k], Key(k)) == Shape(b.fields[k], Key(k)) {
        ShapeHidesValues(fields[k], b.fields[k], Key(k));
      }
      assert Shape(a, key).fields == Shape(b, key).fields;
    case Arr(items) =>
      forall i | 0 <= i < |items| ensures Shape(items[i], key) == Shape(b.items[i], key) {
        ShapeHidesValues(items[i], b.items[i], key);
      }
      ListsAlike(items, b.items, key);
    case _ =>
  }

  lemma ListsAlike(a: seq<Json>, b: seq<Json>, key: Key)
    requires |a| == |b| && forall i :: 0 <= i < |a| ==> Shape(a[i], key) == Shape(b[i], key)
    ensures Shape(Arr(a), key) == Shape(Arr(b), key)
  {
    hide Count, Leaf;
    if a != [] {
      var first := Shape(a[0], key);
      if forall i :: 0 <= i < |a| ==> Shape(a[i], key) == first {
        forall i | 0 <= i < |b| ensures Shape(b[i], key) == first { assert Shape(a[i], key) == first; }
      } else {
        var i :| 0 <= i < |a| && Shape(a[i], key) != first;
        assert Shape(b[i], key) != Shape(b[0], key);
        assert Shape(Arr(a), key).items == Shape(Arr(b), key).items;
      }
    }
  }

  /**
   And nothing else is lost: from the uncompressed shape everything but the
   redacted values can be told, unless a kept string imitates a marker.
   */
  lemma {:induction false} SkeletonTellsTheRest(a: Json, b: Json, key: Key)
    requires !KeepsMarker(a, key) && !KeepsMarker(b, key)
    ensures Skeleton(a, key) == Skeleton(b, key) <==> Alike(a, b, key)
    decreases a
  {
    hide Skeleton, Alike;
    if a.Obj? && b.Obj? && a.fields.Keys == b.fields.Keys {
      forall k | k in a.fields
        ensures Skeleton(a.fields[k], Key(k)) == Skeleton(b.fields[k], Key(k)) <==> Alike(a.fields[k], b.fields[k], Key(k))
      {
        SkeletonTellsTheRest(a.fields[k], b.fields[k], Key(k));
      }
      ObjectsTell(a.fields, b.fields, key);
    } else if a.Arr? && b.Arr? && |a.items| == |b.items| {
      forall i | 0 <= i < |a.items|
        ensures Skeleton(a.items[i], key) == Skeleton(b.items[i], key) <==> Alike(a.items[i], b.items[i], key)
      {
        SkeletonTellsTheRest(a.items[i], b.items[i], key);
      }
      ListsTell(a.items, b.items, key);
    } else if a.Obj? || a.Arr? || b.Obj? || b.Arr? {
      KindsTell(a, b, key);
    } else {
      LeavesTell(a, b, key);
    }
  }

  lemma ObjectsTell(a: map<string, Json>, b: map<string, Json>, key: Key)
    requires a.Keys == b.Keys
    requires forall k :: k in a ==> (Skeleton(a[k], Key(k)) == Skeleton(b[k], Key(k)) <==> Alike(a[k], b[k], Key(k)))
    ensures Skeleton(Obj(a), key) == Skeleton(Obj(b), key) <==> Alike(Obj(a), Obj(b), key)
  {
    hide Skeleton, Alike;
    ObjectUnfolds(a, b, key);
    var x, y := Skeleton(Obj(a), key).fields, Skeleton(Obj(b), key).fields;
    if forall k :: k in a ==> Alike(a[k], b[k], Key(k)) {
      assert forall k :: k in a ==> x[k] == y[k];
      assert x == y;
    } else {
      var k :| k in a && !Alike(a[k], b[k], Key(k));
      assert x[k] != y[k];
    }
  }

  lemma ObjectUnfolds(a: map<string, Json>, b: map<string, Json>, key: Key)
    requires a.Keys == b.Keys
    ensures Skeleton(Obj(a), key) == Obj(map k | k in a :: Skeleton(a[k], Key(k)))
    ensures Skeleton(Obj(b), key) == Obj(map k | k in b :: Skeleton(b[k], Key(k)))
    ensures Alike(Obj(a), Obj(b), key) <==> forall k :: k in a ==> Alike(a[k], b[k], Key(k))
  {}

  lemma ListsTell(a: seq<Json>, b: seq<Json>, key: Key)
    requires |a| == |b|
    requires forall i :: 0 <= i < |a| ==> (Skeleton(a[i], key) == Skeleton(b[i], key) <==> Alike(a[i], b[i], key))
    ensures Skeleton(Arr(a), key) == Skeleton(Arr(b), key) <==> Alike(Arr(a), Arr(b), key)
  {
    var x, y := Skeleton(Arr(a), key).items, Skeleton(Arr(b), key).items;
    if forall i :: 0 <= i < |a| ==> Alike(a[i], b[i], key) {
      assert x == y;
    } else {
      var i :| 0 <= i < |a| && !Alike(a[i], b[i], key);
      assert x[i] != y[i];
    }
  }

  // Of different kinds, keys or lengths.
  lemma KindsTell(a: Json, b: Json, key: Key)
    requires a.Obj? || a.Arr? || b.Obj? || b.Arr?
    requires !(a.Obj? && b.Obj? && a.fields.Keys == b.fields.Keys) && !(a.Arr? && b.Arr? && |a.items| == |b.items|)
    ensures Skeleton(a, key) != Skeleton(b, key) && !Alike(a, b, key)
  {
    if a.Obj? && b.Obj? {
      assert Skeleton(a, key).fields.Keys == a.fields.Keys && Skeleton(b, key).fields.Keys == b.fields.Keys;
    } else if a.Arr? && b.Arr? {
      assert |Skeleton(a, key).items| != |Skeleton(b, key).items|;
    }
  }

  lemma LeavesTell(a: Json, b: Json, key: Key)
    requires !a.Obj? && !a.Arr? && !b.Obj? && !b.Arr? && !KeepsMarker(a, key) && !KeepsMarker(b, key)
    ensures Skeleton(a, key) == Skeleton(b, key) <==> Alike(a, b, key)
  {}

  /** `s` occurs among the string values of a document. */
  predicate Says(j: Json, s: string) {
    match j
    case Obj(fields) => exists k :: k in fields && Says(fields[k], s)
    case Arr(items) => exists i :: 0 <= i < |items| && Says(items[i], s)
    case Str(t) => t == s
    case _ => false
  }

  /** `s` is a string value under a kept key, directly or in lists. */
  predicate Discriminates(node: Json, key: Key, s: string) {
    match node
    case Obj(fields) => exists k :: k in fields && Discriminates(fields[k], Key(k), s)
    case Arr(items) => exists i :: 0 <= i < |items| && Discriminates(items[i], key, s)
    case Str(t) => Keeps(key) && t == s
    case _ => false
  }

  /** The strings of a shape are fixed markers, counts, and kept discriminators: nothing else. */
  lemma {:induction false} SaysOnlyKept(node: Json, key: Key, s: string)
    requires Says(Shape(node, key), s)
    ensures s in MARKERS || (exists n :: s == Count(n)) || Discriminates(node, key, s)
    decreases node
  {
    hide Count;
    match node
    case Obj(fields) =>
      var shape := Shape(node, key).fields;
      var k :| k in shape && Says(shape[k], s);
      assert shape[k] == Shape(fields[k], Key(k));
      SaysOnlyKept(fields[k], Key(k), s);
    case Arr(items) =>
      var shape := Shape(node, key).items;
      var i :| 0 <= i < |shape| && Says(shape[i], s);
      if shape[i] == Str(Count(|items|)) {
        assert s == Count(|items|);
      } else {
        assert shape[i] == Shape(items[i], key);
        SaysOnlyKept(items[i], key, s);
      }
    case _ =>
  }

  // ---------------------------------------------------- the list of discriminators

  /** The strings that stand directly under a kept key. */
  function Kinds(node: Json): set<string> {
    match node
    case Obj(fields) =>
      (set k | k in fields && k in KEEP_VALUE_KEYS && fields[k].Str? :: fields[k].s)
      + (set k, s | k in fields && s in Kinds(fields[k]) :: s)
    case Arr(items) => set i, s | 0 <= i < |items| && s in Kinds(items[i]) :: s
    case _ => {}
  }

  class Found {
    var names: set<string>

    constructor ()
      ensures names == {}
    {
      names := {};
    }
  }

  method Discriminators(node: Json, found: Found)
    modifies found
    ensures found.names == old(found.names) + Kinds(node)
    decreases node
  {
    hide KindsOf;
    if node.Obj? {
      ghost var before := found.names;
      KindsOfAll(node.fields);
      var rest := node.fields.Keys;
      while rest != {}
        invariant rest <= node.fields.Keys
        invariant found.names == before + KindsOf(node.fields, node.fields.Keys - rest)
        decreases rest
      {
        var k :| k in rest;
        KindsOfMore(node.fields, node.fields.Keys - rest, k);
        if k in KEEP_VALUE_KEYS && node.fields[k].Str? {
          found.names := found.names + {node.fields[k].s};
        }
        Discriminators(node.fields[k], found);
        assert node.fields.Keys - (rest - {k}) == node.fields.Keys - rest + {k};
        rest := rest - {k};
      }
    } else if node.Arr? {
      ghost var before := found.names;
      for i := 0 to |node.items|
        invariant found.names == before + Kinds(Arr(node.items[..i]))
      {
        assert node.items[..i + 1] == node.items[..i] + [node.items[i]];
        KindsOfList(node.items[..i], node.items[i]);
        Discriminators(node.items[i], found);
      }
      assert node.items[..|node.items|] == node.items;
    }
  }

  // The discriminators below the given keys of an object.
  function KindsOf(fields: map<string, Json>, keys: set<string>): set<string> {
    Kinds(Obj(map k | k in fields && k in keys :: fields[k]))
  }

  lemma KindsOfAll(fields: map<string, Json>)
    ensures KindsOf(fields, fields.Keys - fields.Keys) == {}
    ensures KindsOf(fields, fields.Keys - {}) == Kinds(Obj(fields))
  {
    assert (map x | x in fields && x in fields.Keys - {} :: fields[x]) == fields;
  }

  lemma KindsOfMore(fields: map<string, Json>, keys: set<string>, k: string)
    requires k in fields
    ensures KindsOf(fields, keys + {k}) == KindsOf(fields, keys)
              + (if k in KEEP_VALUE_KEYS && fields[k].Str? then {fields[k].s} else {}) + Kinds(fields[k])
  {
    var m := map x | x in fields && x in keys + {k} :: fields[x];
    var n := map x | x in fields && x in keys :: fields[x];
    forall s ensures s in Kinds(Obj(m)) <==>
      || s in Kinds(Obj(n)) || (k in KEEP_VALUE_KEYS && fields[k].Str? && s == fields[k].s) || s in Kinds(fields[k])
    {
      if s in Kinds(Obj(n)) {
        if x :| x in n && x in KEEP_VALUE_KEYS && n[x].Str? && n[x].s == s {
          assert x in m && m[x] == n[x];
        } else {
          var x :| x in n && s in Kinds(n[x]);
          assert x in m && m[x] == n[x];
        }
      }
      assert k in m && m[k] == fields[k];
      if s in Kinds(Obj(m)) {
        if x :| x in m && x in KEEP_VALUE_KEYS && m[x].Str? && m[x].s == s {
          if x != k { assert x in n && n[x] == m[x]; }
        } else {
          var x :| x in m && s in Kinds(m[x]);
          if x != k { assert x in n && n[x] == m[x]; }
        }
      }
    }
  }

  lemma KindsOfList(items: seq<Json>, last: Json)
    ensures Kinds(Arr(items + [last])) == Kinds(Arr(items)) + Kinds(last)
  {
    var all := items + [last];
    forall s ensures s in Kinds(Arr(all)) <==> s in Kinds(Arr(items)) || s in Kinds(last) {
      if s in Kinds(Arr(items)) {
        var i :| 0 <= i < |items| && s in Kinds(items[i]);
        assert all[i] == items[i];
      }
      assert all[|items|] == last;
      if s in Kinds(Arr(all)) {
        var i :| 0 <= i < |all| && s in Kinds(all[i]);
      }
    }
  }

  /** A kept string that is reached through a list. */
  predicate InList(node: Json, s: string) {
    match node
    case Obj(fields) =>
      exists k :: k in fields && (InList(fields[k], s) || (fields[k].Arr? && Discriminates(fields[k], Key(k), s)))
    case Arr(items) => exists i :: 0 <= i < |items| && InList(items[i], s)
    case _ => false
  }

  /**
   The list of discriminators holds every string the shape keeps, save those
   that only ever stand in a list.
   */
  lemma {:induction false} ListsDiscriminators(node: Json, s: string)
    ensures Discriminates(node, NoKey, s) <==> s in Kinds(node) || InList(node, s)
    decreases node
  {
    match node
    case Obj(fields) =>
      forall k | k in fields
        ensures Discriminates(fields[k], Key(k), s) <==>
                || (k in KEEP_VALUE_KEYS && fields[k] == Str(s)) || s in Kinds(fields[k]) || InList(fields[k], s)
                || (fields[k].Arr? && Discriminates(fields[k], Key(k), s))
      {
        ListsDiscriminators(fields[k], s);
        NoKeyIsWeaker(fields[k], Key(k), s);
      }
    case Arr(items) =>
      forall i | 0 <= i < |items|
        ensures Discriminates(items[i], NoKey, s) <==> s in Kinds(items[i]) || InList(items[i], s)
      {
        ListsDiscriminators(items[i], s);
      }
    case _ =>
  }

  lemma {:induction false} NoKeyIsWeaker(node: Json, key: Key, s: string)
    ensures Discriminates(node, NoKey, s) ==> Discriminates(node, key, s)
    ensures node.Obj? ==> (Discriminates(node, NoKey, s) <==> Discriminates(node, key, s))
    decreases node
  {
    match node
    case Arr(items) =>
      forall i | 0 <= i < |items| ensures Discriminates(items[i], NoKey, s) ==> Discriminates(items[i], key, s) {
        NoKeyIsWeaker(items[i], key, s);
      }
    case _ =>
  }

  /** Such a string: the shape keeps it, and the list of discriminators does not hold it. */
  lemma ListedDiscriminatorIsMissed()
    ensures var doc := Obj(map["type" := Arr([Str("Copy")])]);
            Discriminates(doc, NoKey, "Copy") && "Copy" !in Kinds(doc)
  {
    var list := Arr([Str("Copy")]);
    var doc := Obj(map["type" := list]);
    assert Discriminates(list.items[0], Key("type"), "Copy");
    assert "type" in doc.fields && Discriminates(doc.fields["type"], Key("type"), "Copy");
    assert Kinds(list.items[0]) == {} && Kinds(list) == {};
    assert forall k :: k in doc.fields ==> k == "type";
  }
}
