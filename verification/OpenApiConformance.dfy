/**
 The recursive validator that holds recorded responses to the published
 swagger: reference resolution across documents, and the findings one value
 provokes against one schema.
 */
module OpenApiConformance {
  import opened Basics
  import opened JsonData

  type Path = string

  /**
   The loaded documents. `resolve` is path resolution against the directory of
   a document; `keys` is the order in which a decoded object lists its keys.
   */
  datatype Specs = Specs(docs: map<Path, Json>, resolve: (Path, string) -> Path, keys: map<string, Json> -> seq<string>)

  ghost predicate KeepsKeys(specs: Specs) {
    forall m :: forall k :: k in specs.keys(m) <==> k in m
  }

  // -------------------------------------------------------------- references

  // A fragment part with every ~1 read as a slash.
  function Unslashed(s: string): string {
    if |s| < 2 then s
    else if s[..2] == "~1" then "/" + Unslashed(s[2..])
    else [s[0]] + Unslashed(s[1..])
  }

  /** Where a fragment leads inside a document; an absent step leads to the empty object. */
  function Follow(node: Json, parts: seq<string>): Json
    decreases |parts|
  {
    if parts == [] then node
    else if parts[0] == [] then Follow(node, parts[1..])
    else Follow(if node.Obj? then Get(node.fields, Unslashed(parts[0]), EMPTY) else EMPTY, parts[1..])
  }

  predicate IsRef(node: Json) {
    node.Obj? && "$ref" in node.fields && node.fields["$ref"].Str?
  }

  /** One hop: the node a reference names, and the document that node is in. */
  function Hop(specs: Specs, node: Json, origin: Path): (Json, Path)
    requires IsRef(node)
  {
    var ref := node.fields["$ref"].s;
    var n := IndexOf(ref, '#');
    var target := if n == 0 then origin else specs.resolve(origin, ref[..n]);
    if target !in specs.docs then (EMPTY, origin)
    else (Follow(specs.docs[target], Split(if n < |ref| then ref[n + 1..] else [], '/')), target)
  }

  const MAX_HOPS: nat := 13

  function Deref(specs: Specs, node: Json, origin: Path, depth: nat): (Json, Path)
    decreases MAX_HOPS - depth
  {
    if !IsRef(node) || depth >= MAX_HOPS then (node, origin)
    else var (next, target) := Hop(specs, node, origin); Deref(specs, next, target, depth + 1)
  }

  function Resolve(specs: Specs, node: Json, origin: Path): (Json, Path) {
    Deref(specs, node, origin, 0)
  }

  /** The node reached after exactly `k` hops. */
  function After(specs: Specs, node: Json, origin: Path, k: nat): (Json, Path)
    decreases k
  {
    if k == 0 || !IsRef(node) then (node, origin)
    else var (next, target) := Hop(specs, node, origin); After(specs, next, target, k - 1)
  }

  /** A node some fragment of document `origin` leads to. */
  ghost predicate LivesIn(specs: Specs, node: Json, origin: Path) {
    node == EMPTY || (origin in specs.docs && exists parts :: Follow(specs.docs[origin], parts) == node)
  }

  /**
   Resolution takes 13 hops, or fewer where the references end, on cyclic graphs
   too; and whatever it hands back sits in the document it is paired with, so its
   own references resolve against that one.
   */
  lemma ResolveChains(specs: Specs, node: Json, origin: Path)
    ensures Resolve(specs, node, origin) == After(specs, node, origin, MAX_HOPS)
    ensures IsRef(node) ==> var (n, o) := Resolve(specs, node, origin); LivesIn(specs, n, o)
  {
    DerefIsAfter(specs, node, origin, 0);
    if IsRef(node) {
      HopLands(specs, node, origin);
      var (next, target) := Hop(specs, node, origin);
      DerefLands(specs, next, target, 1);
    }
  }

  lemma {:induction false} DerefIsAfter(specs: Specs, node: Json, origin: Path, depth: nat)
    requires depth <= MAX_HOPS
    ensures Deref(specs, node, origin, depth) == After(specs, node, origin, MAX_HOPS - depth)
    decreases MAX_HOPS - depth
  {
    if IsRef(node) && depth < MAX_HOPS {
      var (next, target) := Hop(specs, node, origin);
      DerefIsAfter(specs, next, target, depth + 1);
    }
  }

  lemma HopLands(specs: Specs, node: Json, origin: Path)
    requires IsRef(node)
    ensures var (n, o) := Hop(specs, node, origin); LivesIn(specs, n, o)
  {}

  lemma {:induction false} DerefLands(specs: Specs, node: Json, origin: Path, depth: nat)
    requires LivesIn(specs, node, origin)
    ensures var (n, o) := Deref(specs, node, origin, depth); LivesIn(specs, n, o)
    decreases MAX_HOPS - depth
  {
    if IsRef(node) && depth < MAX_HOPS {
      HopLands(specs, node, origin);
      var (next, target) := Hop(specs, node, origin);
      DerefLands(specs, next, target, depth + 1);
    }
  }

  // ------------------------------------------------- when a reference is resolved

  /** A node and the document it is read in. */
  type Pair = (Json, Path)

  /** Reference after reference: each link but the last is one, and names the next. */
  ghost predicate Chain(specs: Specs, links: seq<Pair>) {
    && links != []
    && forall i :: 0 <= i < |links| - 1 ==> IsRef(links[i].0) && links[i + 1] == Hop(specs, links[i].0, links[i].1)
  }

  ghost predicate Ends(specs: Specs, start: Pair, links: seq<Pair>) {
    Chain(specs, links) && links[0] == start && !IsRef(links[|links| - 1].0)
  }

  ghost predicate Returns(specs: Specs, start: Pair, links: seq<Pair>) {
    && Chain(specs, links) && links[0] == start && |links| > 1
    && exists i :: 0 <= i < |links| - 1 && links[i] == links[|links| - 1]
  }

  /** A chain that ends within the hops allowed is followed to its end. */
  lemma {:induction false} ChainIsFollowed(specs: Specs, links: seq<Pair>, depth: nat)
    requires links != [] && Ends(specs, links[0], links) && depth + |links| - 1 <= MAX_HOPS
    ensures Deref(specs, links[0].0, links[0].1, depth) == links[|links| - 1]
    decreases |links|
  {
    if |links| == 1 {
      assert !IsRef(links[0].0);
    } else {
      assert IsRef(links[0].0) && links[1] == Hop(specs, links[0].0, links[0].1);
      assert Ends(specs, links[1], links[1..]);
      ChainIsFollowed(specs, links[1..], depth + 1);
    }
  }

  /** What comes back as no reference is the end of a chain no longer than the hops allowed. */
  lemma {:induction false} FollowedIsChain(specs: Specs, node: Json, origin: Path, depth: nat) returns (links: seq<Pair>)
    requires depth <= MAX_HOPS && !IsRef(Deref(specs, node, origin, depth).0)
    ensures Ends(specs, (node, origin), links) && depth + |links| - 1 <= MAX_HOPS
    decreases MAX_HOPS - depth
  {
    if !IsRef(node) {
      links := [(node, origin)];
    } else {
      var (next, target) := Hop(specs, node, origin);
      var rest := FollowedIsChain(specs, next, target, depth + 1);
      links := [(node, origin)] + rest;
      assert forall i :: 0 < i < |links| ==> links[i] == rest[i - 1];
    }
  }

  /** A reference is resolved exactly when its chain ends within 13 hops, and then to the end of the chain. */
  lemma ResolvedIff(specs: Specs, node: Json, origin: Path)
    ensures !IsRef(Resolve(specs, node, origin).0) <==>
            exists links :: Ends(specs, (node, origin), links) && |links| - 1 <= MAX_HOPS
    ensures forall links :: Ends(specs, (node, origin), links) && |links| - 1 <= MAX_HOPS ==>
              Resolve(specs, node, origin) == links[|links| - 1]
  {
    hide Deref;
    if !IsRef(Resolve(specs, node, origin).0) {
      var links := FollowedIsChain(specs, node, origin, 0);
      assert Ends(specs, (node, origin), links) && |links| - 1 <= MAX_HOPS;
    }
    forall links | Ends(specs, (node, origin), links) && |links| - 1 <= MAX_HOPS
      ensures Resolve(specs, node, origin) == links[|links| - 1] && !IsRef(Resolve(specs, node, origin).0)
    {
      ChainIsFollowed(specs, links, 0);
    }
  }

  // Two chains from one node run together.
  lemma {:induction false} OneChain(specs: Specs, a: seq<Pair>, b: seq<Pair>, k: nat)
    requires Chain(specs, a) && Chain(specs, b) && a[0] == b[0] && k < |a| && k < |b|
    ensures a[k] == b[k]
  {
    if k > 0 {
      OneChain(specs, a, b, k - 1);
      assert a[k] == Hop(specs, a[k - 1].0, a[k - 1].1) && b[k] == Hop(specs, b[k - 1].0, b[k - 1].1);
    }
  }

  // From where a chain comes back to, it goes round for ever.
  lemma {:induction false} RoundAgain(specs: Specs, links: seq<Pair>, i: nat, m: nat) returns (k: nat)
    requires Chain(specs, links) && i < |links| - 1 && links[i] == links[|links| - 1]
    ensures k < |links| - 1 && After(specs, links[0].0, links[0].1, m) == links[k]
  {
    k := 0;
    if m > 0 {
      var before := RoundAgain(specs, links, i, m - 1);
      AfterStep(specs, links[0].0, links[0].1, m - 1);
      assert IsRef(links[before].0) && links[before + 1] == Hop(specs, links[before].0, links[before].1);
      k := if before + 1 == |links| - 1 then i else before + 1;
    }
  }

  lemma {:induction false} AfterStep(specs: Specs, node: Json, origin: Path, k: nat)
    ensures var (n, o) := After(specs, node, origin, k);
            After(specs, node, origin, k + 1) == if IsRef(n) then Hop(specs, n, o) else (n, o)
    decreases k
  {
    if k > 0 && IsRef(node) {
      var (next, target) := Hop(specs, node, origin);
      AfterStep(specs, next, target, k - 1);
    }
  }

  lemma {:induction false} AfterOfChain(specs: Specs, links: seq<Pair>, k: nat)
    requires Chain(specs, links) && k < |links|
    ensures After(specs, links[0].0, links[0].1, k) == links[k]
  {
    if k > 0 {
      AfterOfChain(specs, links, k - 1);
      AfterStep(specs, links[0].0, links[0].1, k - 1);
    }
  }

  lemma {:induction false} Trail(specs: Specs, node: Json, origin: Path, n: nat) returns (links: seq<Pair>)
    ensures Chain(specs, links) && links[0] == (node, origin)
    ensures |links| == n + 1 || (|links| <= n && !IsRef(links[|links| - 1].0))
  {
    links := [(node, origin)];
    if n > 0 {
      links := Trail(specs, node, origin, n - 1);
      if |links| == n && IsRef(links[n - 1].0) {
        links := links + [Hop(specs, links[n - 1].0, links[n - 1].1)];
      }
    }
  }

  /** Every node of a decoded document, itself included. */
  ghost function Nodes(j: Json): set<Json> {
    {j} + match j
          case Obj(fields) => set key, n | key in fields && n in Nodes(fields[key]) :: n
          case Arr(items) => set i, n | 0 <= i < |items| && n in Nodes(items[i]) :: n
          case _ => {}
  }

  lemma {:induction false} NodesWithin(j: Json, m: Json, n: Json)
    requires m in Nodes(j) && n in Nodes(m)
    ensures n in Nodes(j)
    decreases j
  {
    if m != j {
      match j {
        case Obj(fields) =>
          var key :| key in fields && m in Nodes(fields[key]);
          NodesWithin(fields[key], m, n);
        case Arr(items) =>
          var i :| 0 <= i < |items| && m in Nodes(items[i]);
          NodesWithin(items[i], m, n);
        case _ =>
      }
    }
  }

  lemma {:induction false} FollowStays(doc: Json, node: Json, parts: seq<string>)
    requires node in Nodes(doc) || node == EMPTY
    ensures Follow(node, parts) in Nodes(doc) || Follow(node, parts) == EMPTY
    decreases |parts|
  {
    if parts != [] {
      if parts[0] == [] {
        FollowStays(doc, node, parts[1..]);
      } else {
        var next := if node.Obj? then Get(node.fields, Unslashed(parts[0]), EMPTY) else EMPTY;
        if next != EMPTY {
          assert next in Nodes(next);
          assert next in Nodes(node);
          NodesWithin(doc, node, next);
        }
        FollowStays(doc, next, parts[1..]);
      }
    }
  }

  /** The nodes that can be met from a node: its own, and those of the documents. */
  ghost function Within(specs: Specs, node: Json, origin: Path): set<Pair> {
    (set n | n in Nodes(node) + {EMPTY} :: (n, origin))
    + (set p, n | p in specs.docs && n in Nodes(specs.docs[p]) + {EMPTY} :: (n, p))
  }

  lemma HopStays(specs: Specs, node: Json, origin: Path, at: Pair)
    requires at in Within(specs, node, origin) && IsRef(at.0)
    ensures Hop(specs, at.0, at.1) in Within(specs, node, origin)
  {
    var (n, o) := Hop(specs, at.0, at.1);
    HopLands(specs, at.0, at.1);
    if n == EMPTY {
      assert n in Nodes(node) + {EMPTY};
      if o in specs.docs { assert n in Nodes(specs.docs[o]) + {EMPTY}; }
      if o !in specs.docs { assert o == at.1; }
    } else {
      var parts :| Follow(specs.docs[o], parts) == n;
      assert specs.docs[o] in Nodes(specs.docs[o]);
      FollowStays(specs.docs[o], specs.docs[o], parts);
    }
  }

  lemma {:induction false} ChainStays(specs: Specs, links: seq<Pair>, k: nat)
    requires Chain(specs, links) && k < |links|
    ensures links[k] in Within(specs, links[0].0, links[0].1)
  {
    var (node, origin) := links[0];
    if k == 0 {
      assert node in Nodes(node) + {EMPTY};
    } else {
      ChainStays(specs, links, k - 1);
      HopStays(specs, node, origin, links[k - 1]);
    }
  }

  // More places than members: some member stands twice.
  lemma {:induction false} Pigeonhole<T>(s: set<T>, p: seq<T>) returns (i: nat, j: nat)
    requires |p| > |s| && forall x :: x in p ==> x in s
    ensures i < j < |p| && p[i] == p[j]
    decreases |p|
  {
    assert p[0] in s;
    if p[0] in p[1..] {
      i := 0;
      j :| 0 < j < |p| && p[j] == p[0];
    } else {
      i, j := Pigeonhole(s - {p[0]}, p[1..]);
      i, j := i + 1, j + 1;
    }
  }

  // Every chain comes back to itself or ends.
  lemma Endless(specs: Specs, node: Json, origin: Path) returns (links: seq<Pair>)
    ensures Returns(specs, (node, origin), links) || Ends(specs, (node, origin), links)
  {
    hide Hop, Within;
    links := Trail(specs, node, origin, |Within(specs, node, origin)|);
    if IsRef(links[|links| - 1].0) {
      forall x | x in links ensures x in Within(specs, node, origin) {
        var k :| 0 <= k < |links| && links[k] == x;
        ChainStays(specs, links, k);
      }
      var i, j := Pigeonhole(Within(specs, node, origin), links);
      links := links[..j + 1];
      assert links[i] == links[|links| - 1];
    }
  }

  /**
   A reference is left unresolved exactly when its chain comes back to itself,
   or ends but only after more than 13 hops.
   */
  lemma UnresolvedIff(specs: Specs, node: Json, origin: Path)
    ensures IsRef(Resolve(specs, node, origin).0) <==>
            || (exists links :: Returns(specs, (node, origin), links))
            || (exists links :: Ends(specs, (node, origin), links) && |links| - 1 > MAX_HOPS)
  {
    hide Deref, Within, Returns, Ends, Chain;
    ResolvedIff(specs, node, origin);
    if IsRef(Resolve(specs, node, origin).0) {
      var links := Endless(specs, node, origin);
    }
    forall links | Returns(specs, (node, origin), links) ensures IsRef(Resolve(specs, node, origin).0) {
      ReturnNeverEnds(specs, node, origin, links);
    }
    forall links | Ends(specs, (node, origin), links) && |links| - 1 > MAX_HOPS
      ensures IsRef(Resolve(specs, node, origin).0)
    {
      LongNeverEnds(specs, node, origin, links);
    }
  }

  lemma ReturnNeverEnds(specs: Specs, node: Json, origin: Path, links: seq<Pair>)
    requires Returns(specs, (node, origin), links)
    ensures forall other :: !Ends(specs, (node, origin), other)
    ensures IsRef(Resolve(specs, node, origin).0)
  {
    hide Deref;
    var i :| 0 <= i < |links| - 1 && links[i] == links[|links| - 1];
    forall other ensures !Ends(specs, (node, origin), other) {
      if Ends(specs, (node, origin), other) {
        AfterOfChain(specs, other, |other| - 1);
        var _ := RoundAgain(specs, links, i, |other| - 1);
      }
    }
    ResolvedIff(specs, node, origin);
  }

  lemma LongNeverEnds(specs: Specs, node: Json, origin: Path, links: seq<Pair>)
    requires Ends(specs, (node, origin), links) && |links| - 1 > MAX_HOPS
    ensures IsRef(Resolve(specs, node, origin).0)
  {
    hide Deref;
    forall other | Ends(specs, (node, origin), other) ensures |other| - 1 > MAX_HOPS {
      if |other| < |links| {
        OneChain(specs, other, links, |other| - 1);
      }
    }
    ResolvedIff(specs, node, origin);
  }

  // ------------------------------------------------------------------ formats

  predicate IsHex(c: char) {
    IsDigit(c) || 'a' <= c <= 'f' || 'A' <= c <= 'F'
  }

  // A pattern letter per character: d a digit, x a hex digit, T and Z either case, else itself.
  predicate Fits(s: string, pattern: string) {
    |s| == |pattern| && forall i :: 0 <= i < |s| ==>
      match pattern[i]
      case 'd' => IsDigit(s[i])
      case 'x' => IsHex(s[i])
      case 'T' => s[i] in "Tt"
      case c => s[i] == c
  }

  // `$` also matches in front of a final newline.
  function Line(s: string): string {
    if s != [] && s[|s| - 1] == '\n' then s[..|s| - 1] else s
  }

  const DATE_TIME := "dddd-dd-ddTdd:dd:dd"

  predicate IsFraction(s: string) {
    s == [] || (|s| > 1 && s[0] == '.' && forall i :: 1 <= i < |s| ==> IsDigit(s[i]))
  }

  predicate IsOffset(s: string) {
    s == "Z" || s == "z" || Fits(s, "+dd:dd") || Fits(s, "-dd:dd")
  }

  predicate IsDateTime(s: string) {
    var t := Line(s);
    && |t| > |DATE_TIME| && Fits(t[..|DATE_TIME|], DATE_TIME)
    && exists k :: |DATE_TIME| <= k <= |t| && IsFraction(t[|DATE_TIME|..k]) && IsOffset(t[k..])
  }

  predicate IsUuid(s: string) {
    Fits(Line(s), "xxxxxxxx-xxxx-xxxx-xxxx-xxxxxxxxxxxx")
  }

  predicate BadFormat(value: Json, fmt: string) {
    match fmt
    case "date-time" => value.Str? && !IsDateTime(value.s)
    case "uuid" => value.Str? && !IsUuid(value.s)
    case "int32" => value.Int? && !(-0x8000_0000 <= value.n <= 0x7fff_ffff)
    case "int64" => value.Int? && !(-0x8000_0000_0000_0000 <= value.n <= 0x7fff_ffff_ffff_ffff)
    case _ => false
  }

  // ------------------------------------------------------- reading a schema

  function AllOf(schema: Json): seq<Json>
    requires schema.Obj?
  {
    var j := Get(schema.fields, "allOf", Arr([]));
    if j.Arr? then j.items else []
  }

  function Required(schema: Json): seq<Json>
    requires schema.Obj?
  {
    var j := Get(schema.fields, "required", Arr([]));
    if j.Arr? then j.items else []
  }

  function Properties(schema: Json): map<string, Json>
    requires schema.Obj?
  {
    var j := Get(schema.fields, "properties", EMPTY);
    if j.Obj? then j.fields else map[]
  }

  // The members of an enum; none when the schema has no usable one.
  function Choices(schema: Json): seq<Json>
    requires schema.Obj?
  {
    var j := Get(schema.fields, "enum", Null);
    if j.Arr? then j.items else []
  }

  predicate Mistyped(value: Json, schema: Json)
    requires schema.Obj?
  {
    match Get(schema.fields, "type", Null)
    case Str("string") => !value.Str?
    case Str("integer") => !value.Int? && !value.Bool?
    case Str("number") => !value.Int? && !value.Float? && !value.NaN? && !value.Bool?
    case Str("boolean") => !value.Bool?
    case Str("array") => !value.Arr?
    case Str("object") => !value.Obj?
    case _ => false
  }

  predicate Misformatted(value: Json, schema: Json)
    requires schema.Obj?
  {
    var fmt := Get(schema.fields, "format", Null);
    fmt.Str? && BadFormat(value, fmt.s)
  }

  predicate Lacks(fields: map<string, Json>, name: Json) {
    !(name.Str? && name.s in fields)
  }

  function Number(j: Json): real
    requires j.Int? || j.Bool? || j.Float?
  {
    match j
    case Int(n) => n as real
    case Bool(b) => if b then 1.0 else 0.0
    case Float(x) => x
  }

  // Python's ==, for a value an enum is asked about: true equals 1 here.
  predicate PyEquals(value: Json, choice: Json) {
    if value.Str? || choice.Str? then value == choice
    else (value.Int? || value.Bool?) && (choice.Int? || choice.Bool? || choice.Float?) && Number(value) == Number(choice)
  }

  predicate OutsideEnum(value: Json, schema: Json)
    requires schema.Obj?
  {
    && Choices(schema) != []
    && (value.Str? || value.Int? || value.Bool?)
    && forall c :: c in Choices(schema) ==> !PyEquals(value, c)
  }

  const ARRAY_SAMPLE: nat := 5

  function Sampled(items: seq<Json>): (r: seq<Json>)
    ensures r <= items
  {
    if |items| <= ARRAY_SAMPLE then items else items[..ARRAY_SAMPLE]
  }

  // -------------------------------------------------------------- the findings

  datatype What = WrongType | WrongFormat | MissingProperty(name: Json) | NotInEnum

  datatype Finding = Finding(where: string, what: What)

  // The schemas of the parts of a value: of its properties, and of its entries.
  ghost predicate PropsRanked(rank: (Json, Path) -> nat, props: map<string, Json>, home: Path) {
    forall name :: name in props ==> rank(props[name], home) > 0
  }

  ghost predicate PartsRanked(rank: (Json, Path) -> nat, schema: Json, home: Path)
    requires schema.Obj?
  {
    && PropsRanked(rank, Properties(schema), home)
    && (Truthy(Get(schema.fields, "items", Null)) ==> rank(Get(schema.fields, "items", Null), home) > 0)
  }

  /**
   A rank that is positive wherever it matters: of whatever has a rank, every part
   has one, and along allOf it falls. Without this the source recurses on one
   value for ever.
   */
  ghost predicate Founded(specs: Specs, rank: (Json, Path) -> nat) {
    forall node, origin :: rank(node, origin) > 0 ==>
      var (schema, home) := Resolve(specs, node, origin);
      schema.Obj? ==>
        && (forall sub :: sub in AllOf(schema) ==> 0 < rank(sub, home) < rank(node, origin))
        && PartsRanked(rank, schema, home)
  }

  /** From a schema, wherever its references lead, to one of its allOf entries. */
  ghost predicate Composes(specs: Specs, a: Pair, b: Pair) {
    var (schema, home) := Resolve(specs, a.0, a.1);
    schema.Obj? && b.1 == home && b.0 in AllOf(schema)
  }

  ghost predicate Composition(specs: Specs, path: seq<Pair>) {
    path != [] && forall i :: 0 <= i < |path| - 1 ==> Composes(specs, path[i], path[i + 1])
  }

  /** From a schema to one of its allOf entries, or to the schema of a property or of the entries of an array. */
  ghost predicate Yields(specs: Specs, a: Pair, b: Pair) {
    var (schema, home) := Resolve(specs, a.0, a.1);
    && schema.Obj? && b.1 == home
    && (|| b.0 in AllOf(schema)
        || (exists name :: name in Properties(schema) && Properties(schema)[name] == b.0)
        || (Truthy(Get(schema.fields, "items", Null)) && b.0 == Get(schema.fields, "items", Null)))
  }

  ghost predicate LeadsFrom(specs: Specs, start: Pair, trail: seq<Pair>) {
    && trail != [] && trail[0] == start
    && forall i :: 0 <= i < |trail| - 1 ==> Yields(specs, trail[i], trail[i + 1])
  }

  /** The schema at `a` can come up when a value is held to the schema at `start`. */
  ghost predicate Reachable(specs: Specs, start: Pair, a: Pair) {
    exists trail :: LeadsFrom(specs, start, trail) && trail[|trail| - 1] == a
  }

  /** No allOf chain that can come up returns to where it started. */
  ghost predicate Acyclic(specs: Specs, start: Pair) {
    forall path :: Composition(specs, path) && |path| > 1 && Reachable(specs, start, path[0]) ==>
      path[0] != path[|path| - 1]
  }

  lemma ReachableMore(specs: Specs, start: Pair, a: Pair, b: Pair)
    requires Reachable(specs, start, a) && Yields(specs, a, b)
    ensures Reachable(specs, start, b)
  {
    hide Yields;
    var trail :| LeadsFrom(specs, start, trail) && trail[|trail| - 1] == a;
    var more := trail + [b];
    assert LeadsFrom(specs, start, more) && more[|more| - 1] == b;
  }

  lemma {:induction false} CompositionReachable(specs: Specs, start: Pair, path: seq<Pair>, k: nat)
    requires Composition(specs, path) && Reachable(specs, start, path[0]) && k < |path|
    ensures Reachable(specs, start, path[k])
  {
    hide Reachable, Resolve;
    if k > 0 {
      CompositionReachable(specs, start, path, k - 1);
      assert Composes(specs, path[k - 1], path[k]);
      ReachableMore(specs, start, path[k - 1], path[k]);
    }
  }

  lemma {:induction false} RefStays(specs: Specs, node: Json, origin: Path, at: Pair, depth: nat)
    requires at in Within(specs, node, origin)
    ensures Deref(specs, at.0, at.1, depth) in Within(specs, node, origin)
    decreases MAX_HOPS - depth
  {
    hide Within;
    if IsRef(at.0) && depth < MAX_HOPS {
      HopStays(specs, node, origin, at);
      RefStays(specs, node, origin, Hop(specs, at.0, at.1), depth + 1);
    }
  }

  lemma EntryIsNode(schema: Json, sub: Json)
    requires schema.Obj? && sub in AllOf(schema)
    ensures sub in Nodes(schema)
  {
    var list := schema.fields["allOf"];
    var i :| 0 <= i < |list.items| && list.items[i] == sub;
    assert sub in Nodes(list.items[i]);
    assert sub in Nodes(list);
  }

  lemma ComposesWithin(specs: Specs, node: Json, origin: Path, a: Pair, b: Pair)
    requires a in Within(specs, node, origin) && Composes(specs, a, b)
    ensures b in Within(specs, node, origin)
  {
    hide Deref;
    RefStays(specs, node, origin, a, 0);
    var (schema, home) := Resolve(specs, a.0, a.1);
    EntryIsNode(schema, b.0);
    if schema in Nodes(node) && home == origin {
      NodesWithin(node, schema, b.0);
    } else if home in specs.docs && schema in Nodes(specs.docs[home]) {
      NodesWithin(specs.docs[home], schema, b.0);
    }
  }

  lemma {:induction false} CompositionStays(specs: Specs, path: seq<Pair>, k: nat)
    requires Composition(specs, path) && k < |path|
    ensures path[k] in Within(specs, path[0].0, path[0].1)
  {
    hide Within, Composes;
    var (node, origin) := path[0];
    if k == 0 {
      StartsWithin(specs, node, origin);
    } else {
      CompositionStays(specs, path, k - 1);
      ComposesWithin(specs, node, origin, path[k - 1], path[k]);
    }
  }

  lemma StartsWithin(specs: Specs, node: Json, origin: Path)
    ensures (node, origin) in Within(specs, node, origin)
  {
    assert node in Nodes(node) + {EMPTY};
  }

  lemma LongCompositionReturns(specs: Specs, start: Pair, path: seq<Pair>)
    requires Composition(specs, path) && Reachable(specs, start, path[0])
    requires |path| > |Within(specs, path[0].0, path[0].1)|
    ensures !Acyclic(specs, start)
  {
    hide Within, Composes, Reachable;
    var all := Within(specs, path[0].0, path[0].1);
    forall x | x in path ensures x in all {
      var k :| 0 <= k < |path| && path[k] == x;
      CompositionStays(specs, path, k);
    }
    var i, j := Pigeonhole(all, path);
    var round := path[i..j + 1];
    CompositionReachable(specs, start, path, i);
    assert Composition(specs, round) && round[0] == round[|round| - 1];
  }

  lemma CompositionsAreShort(specs: Specs, start: Pair, path: seq<Pair>)
    requires Acyclic(specs, start) && Composition(specs, path) && Reachable(specs, start, path[0])
    ensures |path| <= |Within(specs, path[0].0, path[0].1)|
  {
    hide Within, Composes, Acyclic, Reachable;
    if |path| > |Within(specs, path[0].0, path[0].1)| { LongCompositionReturns(specs, start, path); }
  }

  ghost predicate Reaches(specs: Specs, a: Pair, n: nat) {
    exists path :: Composition(specs, path) && path[0] == a && |path| == n + 1
  }

  // The longest composition from a node that is no longer than `n`.
  ghost function Longest(specs: Specs, a: Pair, n: nat): nat {
    if n == 0 || Reaches(specs, a, n) then n else Longest(specs, a, n - 1)
  }

  lemma {:induction false} LongestIsLongest(specs: Specs, a: Pair, n: nat)
    ensures Reaches(specs, a, Longest(specs, a, n)) && Longest(specs, a, n) <= n
    ensures forall m: nat :: m <= n && Reaches(specs, a, m) ==> m <= Longest(specs, a, n)
    decreases n
  {
    hide Composes;
    if n == 0 {
      assert Composition(specs, [a]);
    } else if !Reaches(specs, a, n) {
      LongestIsLongest(specs, a, n - 1);
    }
  }

  lemma LongestFalls(specs: Specs, start: Pair, a: Pair, b: Pair)
    requires Acyclic(specs, start) && Reachable(specs, start, a) && Composes(specs, a, b)
    ensures Longest(specs, b, |Within(specs, b.0, b.1)|) < Longest(specs, a, |Within(specs, a.0, a.1)|)
  {
    hide Within, Composes, Longest, Acyclic, Reachable;
    var n := Longest(specs, b, |Within(specs, b.0, b.1)|);
    LongestIsLongest(specs, b, |Within(specs, b.0, b.1)|);
    LongestIsLongest(specs, a, |Within(specs, a.0, a.1)|);
    var path :| Composition(specs, path) && path[0] == b && |path| == n + 1;
    var more := [a] + path;
    assert Composition(specs, more) && more[0] == a && |more| == n + 2;
    CompositionsAreShort(specs, start, more);
    assert Reaches(specs, a, n + 1);
  }

  // How long an allOf chain can get from here, for the schemas that can come up.
  ghost function RankFrom(specs: Specs, start: Pair, a: Pair): nat {
    if Reachable(specs, start, a) then 1 + Longest(specs, a, |Within(specs, a.0, a.1)|) else 0
  }

  lemma RankFromFounded(specs: Specs, start: Pair, node: Json, origin: Path)
    requires Acyclic(specs, start) && Reachable(specs, start, (node, origin)) && Resolve(specs, node, origin).0.Obj?
    ensures var (schema, home) := Resolve(specs, node, origin);
            && (forall sub :: sub in AllOf(schema) ==>
                  0 < RankFrom(specs, start, (sub, home)) < RankFrom(specs, start, (node, origin)))
            && (forall name :: name in Properties(schema) ==> RankFrom(specs, start, (Properties(schema)[name], home)) > 0)
            && (Truthy(Get(schema.fields, "items", Null)) ==>
                  RankFrom(specs, start, (Get(schema.fields, "items", Null), home)) > 0)
  {
    hide Resolve, Within, Longest, Acyclic, Reachable;
    var (schema, home) := Resolve(specs, node, origin);
    var a: Pair := (node, origin);
    forall sub | sub in AllOf(schema)
      ensures 0 < RankFrom(specs, start, (sub, home)) < RankFrom(specs, start, a)
    {
      LongestFalls(specs, start, a, (sub, home));
      ReachableMore(specs, start, a, (sub, home));
    }
    forall name | name in Properties(schema) ensures RankFrom(specs, start, (Properties(schema)[name], home)) > 0 {
      ReachableMore(specs, start, a, (Properties(schema)[name], home));
    }
    var item := Get(schema.fields, "items", Null);
    if Truthy(item) { ReachableMore(specs, start, a, (item, home)); }
  }

  /** A schema has a rank exactly when no allOf chain that it can bring up returns to itself. */
  lemma FoundedIffAcyclic(specs: Specs, node: Json, origin: Path)
    ensures (exists rank :: Founded(specs, rank) && rank(node, origin) > 0) <==> Acyclic(specs, (node, origin))
  {
    hide RankFrom, Resolve, Reachable;
    var start: Pair := (node, origin);
    if rank :| Founded(specs, rank) && rank(node, origin) > 0 {
      forall path | Composition(specs, path) && |path| > 1 && Reachable(specs, start, path[0])
        ensures path[0] != path[|path| - 1]
      {
        ReachableIsRanked(specs, rank, start, path[0]);
        RankFallsAlong(specs, rank, path, |path| - 1);
      }
    }
    if Acyclic(specs, start) {
      var rank := (n: Json, o: Path) => RankFrom(specs, start, (n, o));
      forall n, o | rank(n, o) > 0
        ensures var (schema, home) := Resolve(specs, n, o);
                schema.Obj? ==>
                  && (forall sub :: sub in AllOf(schema) ==> 0 < rank(sub, home) < rank(n, o))
                  && PartsRanked(rank, schema, home)
      {
        RankedIsReachable(specs, start, (n, o));
        if Resolve(specs, n, o).0.Obj? { RankFromFounded(specs, start, n, o); }
      }
      assert Founded(specs, rank);
      StartIsReachable(specs, start);
      RankedIsReachable(specs, start, start);
    }
  }

  lemma RankedIsReachable(specs: Specs, start: Pair, a: Pair)
    ensures RankFrom(specs, start, a) > 0 <==> Reachable(specs, start, a)
  {
    hide Reachable;
  }

  lemma StartIsReachable(specs: Specs, start: Pair)
    ensures Reachable(specs, start, start)
  {
    hide Yields;
    assert LeadsFrom(specs, start, [start]);
  }

  lemma {:induction false} TrailIsRanked(specs: Specs, rank: (Json, Path) -> nat, start: Pair, trail: seq<Pair>, k: nat)
    requires Founded(specs, rank) && rank(start.0, start.1) > 0 && LeadsFrom(specs, start, trail) && k < |trail|
    ensures rank(trail[k].0, trail[k].1) > 0
  {
    hide Resolve;
    if k > 0 {
      TrailIsRanked(specs, rank, start, trail, k - 1);
      assert Yields(specs, trail[k - 1], trail[k]);
    }
  }

  lemma ReachableIsRanked(specs: Specs, rank: (Json, Path) -> nat, start: Pair, a: Pair)
    requires Founded(specs, rank) && rank(start.0, start.1) > 0 && Reachable(specs, start, a)
    ensures rank(a.0, a.1) > 0
  {
    hide Founded, Yields;
    var trail :| LeadsFrom(specs, start, trail) && trail[|trail| - 1] == a;
    TrailIsRanked(specs, rank, start, trail, |trail| - 1);
  }

  lemma {:induction false} RankFallsAlong(specs: Specs, rank: (Json, Path) -> nat, path: seq<Pair>, k: nat)
    requires Founded(specs, rank) && Composition(specs, path) && k < |path| && rank(path[0].0, path[0].1) > 0
    ensures 0 < rank(path[k].0, path[k].1) && rank(path[k].0, path[k].1) + k <= rank(path[0].0, path[0].1)
  {
    hide Resolve, PartsRanked;
    if k > 0 {
      RankFallsAlong(specs, rank, path, k - 1);
      assert Composes(specs, path[k - 1], path[k]);
    }
  }

  lemma PartsAreRanked(specs: Specs, rank: (Json, Path) -> nat, node: Json, origin: Path)
    requires Founded(specs, rank) && rank(node, origin) > 0 && Resolve(specs, node, origin).0.Obj?
    ensures var (schema, home) := Resolve(specs, node, origin); PartsRanked(rank, schema, home)
  {
    hide Resolve, PartsRanked;
  }

  lemma RankFalls(specs: Specs, rank: (Json, Path) -> nat, node: Json, origin: Path, i: nat)
    requires Founded(specs, rank) && rank(node, origin) > 0
    requires var (schema, _) := Resolve(specs, node, origin); schema.Obj? && i < |AllOf(schema)|
    ensures var (schema, home) := Resolve(specs, node, origin); 0 < rank(AllOf(schema)[i], home) < rank(node, origin)
  {
    hide Resolve, PartsRanked;
    var (schema, home) := Resolve(specs, node, origin);
    assert AllOf(schema)[i] in AllOf(schema);
  }

  function One(wrong: bool, where: string, what: What): seq<Finding> {
    if wrong then [Finding(where, what)] else []
  }

  function Gaps(fields: map<string, Json>, names: seq<Json>, where: string): seq<Finding> {
    if names == [] then []
    else
      One(Lacks(fields, names[0]), where, MissingProperty(names[0])) + Gaps(fields, names[1..], where)
  }

  function Digit(i: nat): string
    requires i < 10
  {
    ["0123456789"[i]]
  }

  function Findings(specs: Specs, ghost rank: (Json, Path) -> nat, value: Json, node: Json, origin: Path, where: string)
    : seq<Finding>
    requires Founded(specs, rank) && rank(node, origin) > 0
    decreases value, rank(node, origin) + 1, 1, 0
  {
    var (schema, home) := Resolve(specs, node, origin);
    if !schema.Obj? || value.Null? then []
    else
      PartsAreRanked(specs, rank, node, origin);
      SubFindings(specs, rank, value, node, origin, where, 0)
      + if Mistyped(value, schema) then [Finding(where, WrongType)]
        else
          One(Misformatted(value, schema), where, WrongFormat)
          + (if value.Obj? then Gaps(value.fields, Required(schema), where) else [])
          + PartFindings(specs, rank, value, schema, home, where)
          + One(OutsideEnum(value, schema), where, NotInEnum)
  }

  // The findings of the properties of an object, or of the sampled entries of an array.
  function PartFindings(specs: Specs, ghost rank: (Json, Path) -> nat, value: Json, schema: Json, home: Path, where: string)
    : seq<Finding>
    requires Founded(specs, rank) && schema.Obj? && PartsRanked(rank, schema, home)
    decreases value, 0, 1, 0
  {
    match value
    case Obj(_) =>
      var props := Properties(schema);
      PropFindings(specs, rank, value, specs.keys(props), props, home, where)
    case Arr(items) =>
      var item := Get(schema.fields, "items", Null);
      if Truthy(item) then EntryFindings(specs, rank, value, |Sampled(items)|, item, home, where) else []
    case _ => []
  }

  function SubFindings(specs: Specs, ghost rank: (Json, Path) -> nat, value: Json, node: Json, origin: Path, where: string,
                       i: nat): seq<Finding>
    requires Founded(specs, rank) && rank(node, origin) > 0
    requires var (schema, _) := Resolve(specs, node, origin); schema.Obj? && i <= |AllOf(schema)|
    decreases value, rank(node, origin) + 1, 0, |AllOf(Resolve(specs, node, origin).0)| - i
  {
    var (schema, home) := Resolve(specs, node, origin);
    if i == |AllOf(schema)| then []
    else
      RankFalls(specs, rank, node, origin, i);
      Findings(specs, rank, value, AllOf(schema)[i], home, where)
      + SubFindings(specs, rank, value, node, origin, where, i + 1)
  }

  function PropFindings(specs: Specs, ghost rank: (Json, Path) -> nat, value: Json, names: seq<string>,
                        props: map<string, Json>, home: Path, where: string): seq<Finding>
    requires Founded(specs, rank) && value.Obj? && PropsRanked(rank, props, home)
    decreases value, 0, 0, |names|
  {
    if names == [] then []
    else
      (if names[0] in value.fields && names[0] in props then
         Findings(specs, rank, value.fields[names[0]], props[names[0]], home, where + "." + names[0])
       else [])
      + PropFindings(specs, rank, value, names[1..], props, home, where)
  }

  // The findings of the first `n` entries.
  function EntryFindings(specs: Specs, ghost rank: (Json, Path) -> nat, value: Json, n: nat, item: Json, home: Path,
                         where: string): seq<Finding>
    requires Founded(specs, rank) && value.Arr? && n <= |value.items| && n <= ARRAY_SAMPLE && rank(item, home) > 0
    decreases value, 0, 0, n
  {
    if n == 0 then []
    else
      EntryFindings(specs, rank, value, n - 1, item, home, where)
      + Findings(specs, rank, value.items[n - 1], item, home, where + "[" + Digit(n - 1) + "]")
  }

  // --------------------------------------------------------- the validator

  class Report {
    var found: seq<Finding>

    constructor ()
      ensures found == []
    {
      found := [];
    }

    method Note(finding: Finding)
      modifies this
      ensures found == old(found) + [finding]
    {
      found := found + [finding];
    }
  }

  method NoteGaps(fields: map<string, Json>, names: seq<Json>, where: string, report: Report)
    modifies report
    ensures report.found == old(report.found) + Gaps(fields, names, where)
  {
    ghost var before := report.found;
    for i := 0 to |names|
      invariant report.found + Gaps(fields, names[i..], where) == before + Gaps(fields, names, where)
    {
      ghost var rest := Gaps(fields, names[i + 1..], where);
      Associate(report.found, One(Lacks(fields, names[i]), where, MissingProperty(names[i])), rest);
      assert names[i..][0] == names[i] && names[i..][1..] == names[i + 1..];
      if Lacks(fields, names[i]) {
        report.Note(Finding(where, MissingProperty(names[i])));
      }
    }
  }

  method Validate(value: Json, node: Json, specs: Specs, origin: Path, where: string, report: Report,
                  ghost rank: (Json, Path) -> nat)
    requires Founded(specs, rank) && rank(node, origin) > 0
    modifies report
    ensures report.found == old(report.found) + Findings(specs, rank, value, node, origin, where)
    decreases value, rank(node, origin) + 1, 1
  {
    hide Resolve, Mistyped, Misformatted, OutsideEnum, SubFindings, PartFindings, Gaps, Founded, Required;
    var (schema, home) := Resolve(specs, node, origin);
    ghost var f0 := report.found;
    if !schema.Obj? || value.Null? {
      return;
    }
    ValidateSubs(value, node, specs, origin, where, report, rank);
    ghost var f1 := report.found;
    ghost var subs := SubFindings(specs, rank, value, node, origin, where, 0);
    if Mistyped(value, schema) {
      report.Note(Finding(where, WrongType));
      Associate(f0, subs, [Finding(where, WrongType)]);
      return;
    }
    if Misformatted(value, schema) {
      report.Note(Finding(where, WrongFormat));
    }
    ghost var f2, format := report.found, One(Misformatted(value, schema), where, WrongFormat);
    if value.Obj? {
      NoteGaps(value.fields, Required(schema), where, report);
    }
    ghost var f3, gaps := report.found, if value.Obj? then Gaps(value.fields, Required(schema), where) else [];
    PartsAreRanked(specs, rank, node, origin);
    ValidateParts(value, schema, specs, home, where, report, rank);
    ghost var f4, parts := report.found, PartFindings(specs, rank, value, schema, home, where);
    if OutsideEnum(value, schema) {
      report.Note(Finding(where, NotInEnum));
    }
    ghost var last := One(OutsideEnum(value, schema), where, NotInEnum);
    assert f2 == f1 + format && f3 == f2 + gaps && f4 == f3 + parts && report.found == f4 + last;
    InFiveParts(f0, subs, format, gaps, parts, last);
  }

  lemma InFiveParts<T>(f: seq<T>, a: seq<T>, b: seq<T>, c: seq<T>, d: seq<T>, e: seq<T>)
    ensures f + (a + (b + c + d + e)) == ((((f + a) + b) + c) + d) + e
  {
    Associate(f, a, b + c + d + e);
    Associate(f + a, b + c + d, e);
    Associate(f + a, b + c, d);
    Associate(f + a, b, c);
  }

  method ValidateSubs(value: Json, node: Json, specs: Specs, origin: Path, where: string, report: Report,
                      ghost rank: (Json, Path) -> nat)
    requires Founded(specs, rank) && rank(node, origin) > 0 && Resolve(specs, node, origin).0.Obj?
    modifies report
    ensures report.found == old(report.found) + SubFindings(specs, rank, value, node, origin, where, 0)
    decreases value, rank(node, origin) + 1, 0
  {
    hide Resolve, Findings, Founded;
    var (schema, home) := Resolve(specs, node, origin);
    var subs := AllOf(schema);
    ghost var all := report.found + SubFindings(specs, rank, value, node, origin, where, 0);
    for i := 0 to |subs|
      invariant report.found + SubFindings(specs, rank, value, node, origin, where, i) == all
    {
      RankFalls(specs, rank, node, origin, i);
      Associate(report.found, Findings(specs, rank, value, subs[i], home, where),
                SubFindings(specs, rank, value, node, origin, where, i + 1));
      Validate(value, subs[i], specs, home, where, report, rank);
    }
  }

  method ValidateParts(value: Json, schema: Json, specs: Specs, home: Path, where: string, report: Report,
                       ghost rank: (Json, Path) -> nat)
    requires Founded(specs, rank) && schema.Obj? && PartsRanked(rank, schema, home)
    modifies report
    ensures report.found == old(report.found) + PartFindings(specs, rank, value, schema, home, where)
    decreases value, 0, 1
  {
    hide Resolve, Findings, Founded;
    if value.Obj? {
      var props := Properties(schema);
      ValidateProperties(value, specs.keys(props), props, specs, home, where, report, rank);
    } else if value.Arr? {
      var item := Get(schema.fields, "items", Null);
      if Truthy(item) {
        var entries := Sampled(value.items);
        ghost var before := report.found;
        for i := 0 to |entries|
          invariant report.found == before + EntryFindings(specs, rank, value, i, item, home, where)
        {
          Associate(before, EntryFindings(specs, rank, value, i, item, home, where),
                    Findings(specs, rank, entries[i], item, home, where + "[" + Digit(i) + "]"));
          Validate(entries[i], item, specs, home, where + "[" + Digit(i) + "]", report, rank);
        }
      }
    }
  }

  method ValidateProperties(value: Json, names: seq<string>, props: map<string, Json>, specs: Specs, home: Path,
                            where: string, report: Report, ghost rank: (Json, Path) -> nat)
    requires Founded(specs, rank) && value.Obj? && PropsRanked(rank, props, home)
    modifies report
    ensures report.found == old(report.found) + PropFindings(specs, rank, value, names, props, home, where)
    decreases value, 0, 0
  {
    hide Resolve, Findings, Founded;
    ghost var all := report.found + PropFindings(specs, rank, value, names, props, home, where);
    for i := 0 to |names|
      invariant report.found + PropFindings(specs, rank, value, names[i..], props, home, where) == all
    {
      var name := names[i];
      assert names[i..][0] == name && names[i..][1..] == names[i + 1..];
      ghost var rest := PropFindings(specs, rank, value, names[i + 1..], props, home, where);
      if name in value.fields && name in props {
        Associate(report.found, Findings(specs, rank, value.fields[name], props[name], home, where + "." + name), rest);
        Validate(value.fields[name], props[name], specs, home, where + "." + name, report, rank);
      } else {
        assert report.found + ([] + rest) == report.found + rest;
      }
    }
    assert names[|names|..] == [];
  }

  // -------------------------------------------- what an empty report means

  /** From a value and its schema to one of its parts and that part's schema. */
  datatype Step = Sub(i: nat) | Property(name: string) | Entry(i: nat)

  datatype Place = Nowhere | At(value: Json, node: Json, origin: Path)

  /** One step, by the rules of the schema language alone. */
  function Take(specs: Specs, value: Json, node: Json, origin: Path, step: Step): Place {
    var (schema, home) := Resolve(specs, node, origin);
    if !schema.Obj? || value.Null? then Nowhere
    else
      match step
      case Sub(i) => if i < |AllOf(schema)| then At(value, AllOf(schema)[i], home) else Nowhere
      case Property(name) =>
        if value.Obj? && name in value.fields && name in Properties(schema) then
          At(value.fields[name], Properties(schema)[name], home)
        else Nowhere
      case Entry(i) =>
        var item := Get(schema.fields, "items", Null);
        if value.Arr? && Truthy(item) && i < |value.items| && i < ARRAY_SAMPLE then
          At(value.items[i], item, home)
        else Nowhere
  }

  function Walk(specs: Specs, value: Json, node: Json, origin: Path, path: seq<Step>): Place
    decreases |path|
  {
    if path == [] then At(value, node, origin)
    else
      match Take(specs, value, node, origin, path[0])
      case Nowhere => Nowhere
      case At(v, n, o) => Walk(specs, v, n, o, path[1..])
  }

  /** A value meets what its schema says about the value itself. */
  ghost predicate Meets(specs: Specs, value: Json, node: Json, origin: Path) {
    var (schema, _) := Resolve(specs, node, origin);
    schema.Obj? && !value.Null? ==>
      && !Mistyped(value, schema)
      && !Misformatted(value, schema)
      && (value.Obj? ==> forall name :: name in Required(schema) ==> !Lacks(value.fields, name))
      && !OutsideEnum(value, schema)
  }

  /** Every part that any walk reaches meets its schema. */
  ghost predicate Conforms(specs: Specs, value: Json, node: Json, origin: Path) {
    forall path :: Fine(specs, Walk(specs, value, node, origin, path))
  }

  ghost predicate Fine(specs: Specs, place: Place) {
    place.At? ==> Meets(specs, place.value, place.node, place.origin)
  }

  /** Conformance by parts: the value itself, and every place one step away. */
  lemma ConformsByParts(specs: Specs, value: Json, node: Json, origin: Path)
    ensures Conforms(specs, value, node, origin) <==>
            && Meets(specs, value, node, origin)
            && forall step :: StepConforms(specs, value, node, origin, step)
  {
    hide Take, Meets;
    if Conforms(specs, value, node, origin) {
      assert Fine(specs, Walk(specs, value, node, origin, []));
      forall step ensures StepConforms(specs, value, node, origin, step) {
        var place := Take(specs, value, node, origin, step);
        if place.At? {
          forall path ensures Fine(specs, Walk(specs, place.value, place.node, place.origin, path)) {
            assert ([step] + path)[1..] == path;
            assert Fine(specs, Walk(specs, value, node, origin, [step] + path));
          }
        }
      }
    }
    if Meets(specs, value, node, origin) && forall step :: StepConforms(specs, value, node, origin, step) {
      forall path ensures Fine(specs, Walk(specs, value, node, origin, path)) {
        if path != [] {
          assert StepConforms(specs, value, node, origin, path[0]);
          var place := Take(specs, value, node, origin, path[0]);
          if place.At? {
            assert Fine(specs, Walk(specs, place.value, place.node, place.origin, path[1..]));
          }
        }
      }
    }
  }

  ghost predicate StepConforms(specs: Specs, value: Json, node: Json, origin: Path, step: Step) {
    var place := Take(specs, value, node, origin, step);
    place.At? ==> Conforms(specs, place.value, place.node, place.origin)
  }

  lemma {:induction false} NoGaps(fields: map<string, Json>, names: seq<Json>, where: string)
    ensures Gaps(fields, names, where) == [] <==> forall name :: name in names ==> !Lacks(fields, name)
  {
    if names != [] {
      NoGaps(fields, names[1..], where);
      assert forall name :: name in names <==> name == names[0] || name in names[1..];
    }
  }

  /**
   The validator reports nothing exactly when the value conforms, over the first
   five entries of every array and whatever the references lead to.
   */
  lemma {:induction false} SilentIffConforms(specs: Specs, rank: (Json, Path) -> nat, value: Json, node: Json,
                                             origin: Path, where: string)
    requires Founded(specs, rank) && rank(node, origin) > 0 && KeepsKeys(specs)
    ensures Findings(specs, rank, value, node, origin, where) == [] <==> Conforms(specs, value, node, origin)
    decreases value, rank(node, origin) + 1, 1, 0
  {
    hide Resolve, Mistyped, Misformatted, OutsideEnum, Conforms, Take, Gaps, SubFindings, PartFindings, Founded,
         KeepsKeys, StepConforms;
    var (schema, home) := Resolve(specs, node, origin);
    ConformsByParts(specs, value, node, origin);
    if !schema.Obj? || value.Null? {
      NoSteps(specs, value, node, origin);
    } else {
      PartsAreRanked(specs, rank, node, origin);
      SubsSilent(specs, rank, value, node, origin, where, 0);
      PartsSilent(specs, rank, value, node, origin, where);
      if value.Obj? { NoGaps(value.fields, Required(schema), where); }
      StepsByKind(specs, value, node, origin);
    }
  }

  lemma NoSteps(specs: Specs, value: Json, node: Json, origin: Path)
    requires !Resolve(specs, node, origin).0.Obj? || value.Null?
    ensures forall step :: StepConforms(specs, value, node, origin, step)
  {}

  // The steps of one value, sorted into sub-schemas and parts.
  ghost predicate SubsConform(specs: Specs, value: Json, node: Json, origin: Path, from: nat) {
    forall i :: from <= i ==> StepConforms(specs, value, node, origin, Sub(i))
  }

  ghost predicate PartsConform(specs: Specs, value: Json, node: Json, origin: Path) {
    && (forall name :: StepConforms(specs, value, node, origin, Property(name)))
    && (forall i :: StepConforms(specs, value, node, origin, Entry(i)))
  }

  lemma StepsByKind(specs: Specs, value: Json, node: Json, origin: Path)
    ensures (forall step :: StepConforms(specs, value, node, origin, step)) <==>
            SubsConform(specs, value, node, origin, 0) && PartsConform(specs, value, node, origin)
  {
    hide StepConforms;
    if SubsConform(specs, value, node, origin, 0) && PartsConform(specs, value, node, origin) {
      forall step ensures StepConforms(specs, value, node, origin, step) {
        match step case Sub(i) => case Property(name) => case Entry(i) =>
      }
    }
  }

  lemma {:induction false} SubsSilent(specs: Specs, rank: (Json, Path) -> nat, value: Json, node: Json, origin: Path,
                                      where: string, i: nat)
    requires Founded(specs, rank) && rank(node, origin) > 0 && KeepsKeys(specs) && !value.Null?
    requires var (schema, _) := Resolve(specs, node, origin); schema.Obj? && i <= |AllOf(schema)|
    ensures SubFindings(specs, rank, value, node, origin, where, i) == [] <==>
            SubsConform(specs, value, node, origin, i)
    decreases value, rank(node, origin) + 1, 0, |AllOf(Resolve(specs, node, origin).0)| - i
  {
    hide Resolve, Conforms, Findings, Founded, KeepsKeys, SubsConform;
    var (schema, home) := Resolve(specs, node, origin);
    SubsFrom(specs, value, node, origin, i);
    if i < |AllOf(schema)| {
      RankFalls(specs, rank, node, origin, i);
      SilentIffConforms(specs, rank, value, AllOf(schema)[i], home, where);
      SubsSilent(specs, rank, value, node, origin, where, i + 1);
    }
  }

  lemma SubsFrom(specs: Specs, value: Json, node: Json, origin: Path, i: nat)
    requires var (schema, _) := Resolve(specs, node, origin); schema.Obj? && i <= |AllOf(schema)| && !value.Null?
    ensures var (schema, home) := Resolve(specs, node, origin);
            SubsConform(specs, value, node, origin, i) <==>
            || i == |AllOf(schema)|
            || (Conforms(specs, value, AllOf(schema)[i], home) && SubsConform(specs, value, node, origin, i + 1))
  {
    hide Resolve, Conforms, StepConforms;
    var (schema, home) := Resolve(specs, node, origin);
    forall k: nat ensures StepConforms(specs, value, node, origin, Sub(k)) <==>
                          (k < |AllOf(schema)| ==> Conforms(specs, value, AllOf(schema)[k], home))
    {
      SubStep(specs, value, node, origin, k);
    }
  }

  lemma SubStep(specs: Specs, value: Json, node: Json, origin: Path, k: nat)
    requires Resolve(specs, node, origin).0.Obj? && !value.Null?
    ensures var (schema, home) := Resolve(specs, node, origin);
            StepConforms(specs, value, node, origin, Sub(k)) <==>
            (k < |AllOf(schema)| ==> Conforms(specs, value, AllOf(schema)[k], home))
  {
    hide Resolve, Conforms;
  }

  lemma {:induction false} PartsSilent(specs: Specs, rank: (Json, Path) -> nat, value: Json, node: Json, origin: Path,
                                       where: string)
    requires Founded(specs, rank) && rank(node, origin) > 0 && KeepsKeys(specs) && !value.Null?
    requires Resolve(specs, node, origin).0.Obj?
    requires var (schema, home) := Resolve(specs, node, origin); PartsRanked(rank, schema, home)
    ensures var (schema, home) := Resolve(specs, node, origin);
            PartFindings(specs, rank, value, schema, home, where) == [] <==> PartsConform(specs, value, node, origin)
    decreases value, 0, 1, 0
  {
    hide Resolve, Conforms, Founded, PropFindings, EntryFindings, PartsConform;
    var (schema, home) := Resolve(specs, node, origin);
    match value {
      case Obj(fields) =>
        var props := Properties(schema);
        PropsSilent(specs, rank, value, specs.keys(props), props, home, where);
        ObjectParts(specs, value, node, origin);
      case Arr(items) =>
        var item := Get(schema.fields, "items", Null);
        if Truthy(item) { EntriesSilent(specs, rank, value, |Sampled(items)|, item, home, where); }
        ArrayParts(specs, value, node, origin);
      case _ => NoParts(specs, value, node, origin);
    }
  }

  lemma ObjectParts(specs: Specs, value: Json, node: Json, origin: Path)
    requires value.Obj? && Resolve(specs, node, origin).0.Obj?
    ensures var (schema, home) := Resolve(specs, node, origin);
            PartsConform(specs, value, node, origin) <==>
            forall name :: PropConforms(specs, value, Properties(schema), home, name)
  {
    hide Resolve, Conforms;
    var (schema, home) := Resolve(specs, node, origin);
    forall name ensures StepConforms(specs, value, node, origin, Property(name)) <==>
                        PropConforms(specs, value, Properties(schema), home, name) {}
  }

  lemma ArrayParts(specs: Specs, value: Json, node: Json, origin: Path)
    requires value.Arr? && Resolve(specs, node, origin).0.Obj?
    ensures var (schema, home) := Resolve(specs, node, origin);
            var item := Get(schema.fields, "items", Null);
            PartsConform(specs, value, node, origin) <==>
            !Truthy(item) || forall i :: 0 <= i < |Sampled(value.items)| ==> Conforms(specs, value.items[i], item, home)
  {
    hide Resolve, Conforms;
    var (schema, home) := Resolve(specs, node, origin);
    var item := Get(schema.fields, "items", Null);
    forall i: nat ensures StepConforms(specs, value, node, origin, Entry(i)) <==>
                     (Truthy(item) && i < |Sampled(value.items)| ==> Conforms(specs, value.items[i], item, home)) {}
  }

  lemma NoParts(specs: Specs, value: Json, node: Json, origin: Path)
    requires !value.Obj? && !value.Arr?
    ensures PartsConform(specs, value, node, origin)
  {
    hide Resolve, Conforms;
  }

  ghost predicate PropConforms(specs: Specs, value: Json, props: map<string, Json>, home: Path, name: string)
    requires value.Obj?
  {
    name in value.fields && name in props ==> Conforms(specs, value.fields[name], props[name], home)
  }

  lemma {:induction false} PropsSilent(specs: Specs, rank: (Json, Path) -> nat, value: Json, names: seq<string>,
                                       props: map<string, Json>, home: Path, where: string)
    requires Founded(specs, rank) && KeepsKeys(specs) && value.Obj? && PropsRanked(rank, props, home)
    ensures PropFindings(specs, rank, value, names, props, home, where) == [] <==>
            forall name :: name in names ==> PropConforms(specs, value, props, home, name)
    decreases value, 0, 0, |names|
  {
    hide Conforms, Findings, Founded, KeepsKeys;
    if names != [] {
      var name := names[0];
      var rest := PropFindings(specs, rank, value, names[1..], props, home, where);
      PropsSilent(specs, rank, value, names[1..], props, home, where);
      var head := if name in value.fields && name in props then
                    Findings(specs, rank, value.fields[name], props[name], home, where + "." + name)
                  else [];
      if name in value.fields && name in props {
        SilentIffConforms(specs, rank, value.fields[name], props[name], home, where + "." + name);
      }
      assert PropFindings(specs, rank, value, names, props, home, where) == head + rest;
      assert head == [] <==> PropConforms(specs, value, props, home, name);
      assert names == [name] + names[1..];
      assert name in names && forall n :: n in names[1..] ==> n in names;
      assert head + rest == [] <==> head == [] && rest == [] by { if head + rest == [] { assert |head| + |rest| == 0; } }
    }
  }

  lemma {:induction false} EntriesSilent(specs: Specs, rank: (Json, Path) -> nat, value: Json, n: nat, item: Json,
                                         home: Path, where: string)
    requires Founded(specs, rank) && KeepsKeys(specs) && value.Arr? && n <= |value.items| && n <= ARRAY_SAMPLE
    requires rank(item, home) > 0
    ensures EntryFindings(specs, rank, value, n, item, home, where) == [] <==>
            forall i :: 0 <= i < n ==> Conforms(specs, value.items[i], item, home)
    decreases value, 0, 0, n
  {
    hide Conforms, Findings, Founded, KeepsKeys;
    if n > 0 {
      EntriesSilent(specs, rank, value, n - 1, item, home, where);
      SilentIffConforms(specs, rank, value.items[n - 1], item, home, where + "[" + Digit(n - 1) + "]");
    }
  }

  predicate OnlySubs(steps: seq<Step>) {
    forall i :: 0 <= i < |steps| ==> steps[i].Sub?
  }

  /** On an allOf chain that returns to itself the recursion has no end: one value is visited again at any depth. */
  lemma {:induction false} CycleHasNoEnd(specs: Specs, value: Json, round: seq<Pair>, k: nat, n: nat)
    requires Composition(specs, round) && |round| > 1 && round[0] == round[|round| - 1] && k < |round| && !value.Null?
    ensures exists steps :: |steps| == n && OnlySubs(steps)
              && Walk(specs, value, round[k].0, round[k].1, steps).At?
    decreases n
  {
    hide Resolve;
    if n == 0 {
      assert OnlySubs([]) && Walk(specs, value, round[k].0, round[k].1, []).At?;
    } else {
      var at := if k == |round| - 1 then 0 else k;
      assert Composes(specs, round[at], round[at + 1]);
      var (schema, home) := Resolve(specs, round[at].0, round[at].1);
      var i :| 0 <= i < |AllOf(schema)| && AllOf(schema)[i] == round[at + 1].0;
      CycleHasNoEnd(specs, value, round, at + 1, n - 1);
      var rest :| |rest| == n - 1 && OnlySubs(rest)
                  && Walk(specs, value, round[at + 1].0, round[at + 1].1, rest).At?;
      var steps := [Sub(i)] + rest;
      assert steps[1..] == rest;
      assert Take(specs, value, round[k].0, round[k].1, Sub(i)) == At(value, AllOf(schema)[i], home);
      assert OnlySubs(steps) && Walk(specs, value, round[k].0, round[k].1, steps).At?;
    }
  }

  /** What is still a bare reference after 13 hops constrains nothing. */
  lemma UnresolvedChecksNothing(specs: Specs, value: Json, node: Json, origin: Path)
    requires IsRef(Resolve(specs, node, origin).0) && Resolve(specs, node, origin).0.fields.Keys == {"$ref"}
    ensures Conforms(specs, value, node, origin)
  {
    hide Resolve, Conforms;
    forall step ensures StepConforms(specs, value, node, origin, step) {
      assert Take(specs, value, node, origin, step) == Nowhere;
    }
    ConformsByParts(specs, value, node, origin);
  }

  // One document, named "a".
  function OneDoc(doc: Json): Specs {
    Specs(map["a" := doc], (o, r) => r, m => [])
  }

  const TO_A := Obj(map["$ref" := Str("a")])

  lemma ToA(doc: Json)
    ensures IsRef(TO_A) && Hop(OneDoc(doc), TO_A, "a") == (doc, "a")
  {
    IndexOfIsFirst("a", '#');
    assert IndexOf("a", '#') == 1 && "a"[..1] == "a";
    assert Split([], '/') == [[]] && Follow(doc, [[]]) == Follow(doc, []);
  }

  /** A document whose only constraint is an allOf entry that names the document. */
  lemma SelfCompositionHasNoEnd(value: Json, n: nat)
    requires !value.Null?
    ensures var (specs, start) := (OneDoc(Obj(map["allOf" := Arr([TO_A])])), (TO_A, "a"));
            && Composes(specs, start, start) && !Acyclic(specs, start)
            && (forall rank :: Founded(specs, rank) ==> rank(TO_A, "a") == 0)
            && exists steps :: |steps| == n && OnlySubs(steps) && Walk(specs, value, TO_A, "a", steps).At?
  {
    hide Founded, Reachable, Walk;
    var doc := Obj(map["allOf" := Arr([TO_A])]);
    var (specs, start: Pair) := (OneDoc(doc), (TO_A, "a"));
    ToASelf(doc);
    var round := [start, start];
    assert Composes(specs, round[0], round[1]);
    assert Composition(specs, round);
    StartIsReachable(specs, start);
    assert !Acyclic(specs, start) by { assert round[0] == round[|round| - 1]; }
    FoundedIffAcyclic(specs, TO_A, "a");
    CycleHasNoEnd(specs, value, round, 0, n);
  }

  lemma ToASelf(doc: Json)
    requires doc == Obj(map["allOf" := Arr([TO_A])])
    ensures var (specs, start) := (OneDoc(doc), (TO_A, "a"));
            Resolve(specs, TO_A, "a") == (doc, "a") && Composes(specs, start, start)
  {
    ToA(doc);
    ChainIsFollowed(OneDoc(doc), [(TO_A, "a"), (doc, "a")], 0);
    assert AllOf(doc) == [TO_A] && TO_A in AllOf(doc);
  }

  /** A document that is a reference to itself: the chain returns, and every value conforms. */
  lemma SelfReferenceChecksNothing(value: Json)
    ensures var (specs, start) := (OneDoc(TO_A), (TO_A, "a"));
            && Returns(specs, start, [start, start])
            && IsRef(Resolve(specs, TO_A, "a").0) && Conforms(specs, value, TO_A, "a")
  {
    hide Resolve, Conforms, Hop;
    var (specs, start: Pair) := (OneDoc(TO_A), (TO_A, "a"));
    ToA(TO_A);
    var links := [start, start];
    assert links[0] == links[|links| - 1];
    assert Returns(specs, start, links);
    UnresolvedIff(specs, TO_A, "a");
    StaysAtA();
    UnresolvedChecksNothing(specs, value, TO_A, "a");
  }

  lemma StaysAtA()
    ensures Resolve(OneDoc(TO_A), TO_A, "a") == (TO_A, "a")
  {
    hide Resolve, Hop;
    var specs := OneDoc(TO_A);
    ToA(TO_A);
    ResolveChains(specs, TO_A, "a");
    var _ := RoundAgain(specs, [(TO_A, "a"), (TO_A, "a")], 0, MAX_HOPS);
  }

  // Documents that do nothing but name the next, up to the last, which says "string".
  function Name(i: nat): string {
    seq(i, _ => 'd')
  }

  function RefTo(i: nat): Json {
    Obj(map["$ref" := Str(Name(i))])
  }

  function Linked(i: nat, n: nat): Json {
    if i == n then Obj(map["type" := Str("string")]) else RefTo(i + 1)
  }

  function LinkedSpecs(n: nat): Specs {
    NamesDiffer();
    Specs(map i | 1 <= i <= n :: Name(i) := Linked(i, n), (o, r) => r, m => [])
  }

  lemma NamesDiffer()
    ensures forall i: nat, j: nat :: Name(i) == Name(j) ==> i == j
  {
    assert forall i: nat :: |Name(i)| == i;
  }

  lemma LinkedHop(n: nat, i: nat, origin: Path)
    requires 1 <= i <= n
    ensures Hop(LinkedSpecs(n), RefTo(i), origin) == (Linked(i, n), Name(i))
  {
    NamesDiffer();
    IndexOfIsFirst(Name(i), '#');
    assert IndexOf(Name(i), '#') == |Name(i)| && Name(i)[..i] == Name(i);
    var specs := LinkedSpecs(n);
    assert Name(i) in specs.docs && specs.docs[Name(i)] == Linked(i, n);
    assert Split([], '/') == [[]] && Follow(Linked(i, n), [[]]) == Follow(Linked(i, n), []);
  }

  lemma LinkedChain(n: nat) returns (links: seq<Pair>)
    requires n > 0
    ensures Ends(LinkedSpecs(n), (RefTo(1), []), links) && |links| == n + 1
    ensures forall i :: 1 <= i <= n ==> links[i].0 == Linked(i, n)
  {
    hide LinkedSpecs, Name, Hop, RefTo;
    LinkedRefs(n);
    var specs := LinkedSpecs(n);
    links := [(RefTo(1), [])] + seq(n, i requires 0 <= i < n => (Linked(i + 1, n), Name(i + 1)));
    forall i | 0 <= i < |links| - 1 ensures IsRef(links[i].0) && links[i + 1] == Hop(specs, links[i].0, links[i].1) {
      assert links[i].0 == RefTo(i + 1);
      LinkedHop(n, i + 1, links[i].1);
    }
  }

  lemma LinkedRefs(n: nat)
    ensures forall i: nat :: IsRef(RefTo(i))
    ensures !IsRef(Linked(n, n))
  {}

  /** A chain through `n` such documents is resolved exactly when there are 13 of them at most. */
  lemma LinkedResolves(n: nat)
    requires n > 0
    ensures !IsRef(Resolve(LinkedSpecs(n), RefTo(1), []).0) <==> n <= MAX_HOPS
    ensures Resolve(LinkedSpecs(n), RefTo(1), []).0 == if n <= MAX_HOPS then Linked(n, n) else RefTo(MAX_HOPS + 1)
  {
    hide LinkedSpecs, Name, Hop, Resolve, Deref, After;
    var specs := LinkedSpecs(n);
    var links := LinkedChain(n);
    if n <= MAX_HOPS {
      ResolvedIff(specs, RefTo(1), []);
    } else {
      ResolveChains(specs, RefTo(1), []);
      AfterOfChain(specs, links, MAX_HOPS);
    }
  }

  lemma NotAString(specs: Specs, node: Json, origin: Path)
    requires Resolve(specs, node, origin).0 == Obj(map["type" := Str("string")])
    ensures !Conforms(specs, Int(1), node, origin)
  {
    hide Resolve, Conforms, Misformatted, OutsideEnum;
    ConformsByParts(specs, Int(1), node, origin);
  }

  /** Behind fourteen documents the last one says "string", and the number 1 conforms all the same. */
  lemma LongChainChecksNothing()
    ensures Conforms(LinkedSpecs(14), Int(1), RefTo(1), [])
    ensures !Conforms(LinkedSpecs(14), Int(1), Linked(14, 14), Name(14))
    ensures !Conforms(LinkedSpecs(13), Int(1), RefTo(1), [])
  {
    hide LinkedSpecs, Name, Conforms, Resolve;
    LinkedResolves(14);
    assert RefTo(14).fields.Keys == {"$ref"};
    UnresolvedChecksNothing(LinkedSpecs(14), Int(1), RefTo(1), []);
    LinkedResolves(13);
    NotAString(LinkedSpecs(13), RefTo(1), []);
    NoRefStays(LinkedSpecs(14), Linked(14, 14), Name(14));
    NotAString(LinkedSpecs(14), Linked(14, 14), Name(14));
  }

  lemma NoRefStays(specs: Specs, node: Json, origin: Path)
    requires !IsRef(node)
    ensures Resolve(specs, node, origin) == (node, origin)
  {}
}
