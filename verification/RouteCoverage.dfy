/**
 Route templates as the coverage ratchet reads them: the pattern a template
 becomes, the traffic it explains, and the ledger of routes nothing exercised.
 */
module RouteCoverage {
  import opened Basics

  // ------------------------------------------------------- from template to pattern

  // A template after the first substitution: `{name...}` has become `.*`.
  datatype Piece = Ch(c: char) | RestOf

  // A pattern: a character, any character, one segment, the rest of the path.
  datatype Atom = Lit(c: char) | Any | Segment | Rest

  predicate IsIdentStart(c: char) {
    'a' <= c <= 'z' || 'A' <= c <= 'Z' || c == '_'
  }

  predicate IsIdentChar(c: char) {
    IsIdentStart(c) || '0' <= c <= '9'
  }

  function IdentLen(s: string): (n: nat)
    ensures n <= |s|
  {
    if s != [] && IsIdentChar(s[0]) then 1 + IdentLen(s[1..]) else 0
  }

  /** The length of a rest-of-path parameter that opens `s`, or 0. */
  function RestParamLen(s: string): (n: nat)
    ensures n <= |s|
  {
    if |s| > 1 && s[0] == '{' && IsIdentStart(s[1]) then
      var n := 1 + IdentLen(s[1..]);
      if n + 4 <= |s| && s[n] == '.' && s[n + 1] == '.' && s[n + 2] == '.' && s[n + 3] == '}' then n + 4 else 0
    else 0
  }

  function SubRest(s: string): seq<Piece> {
    if s == [] then []
    else if RestParamLen(s) > 0 then [RestOf] + SubRest(s[RestParamLen(s)..])
    else [Ch(s[0])] + SubRest(s[1..])
  }

  function CloseBrace(ps: seq<Piece>): (n: nat)
    ensures n <= |ps|
  {
    if ps == [] || ps[0] == Ch('}') then 0 else 1 + CloseBrace(ps[1..])
  }

  function AtomOf(p: Piece): Atom {
    match p
    case RestOf => Rest
    case Ch(c) => if c == '.' then Any else Lit(c)
  }

  function SubParam(ps: seq<Piece>): seq<Atom> {
    if ps == [] then []
    else
      var n := CloseBrace(ps[1..]);
      if ps[0] == Ch('{') && n > 0 && n + 1 < |ps| then [Segment] + SubParam(ps[n + 2..])
      else [AtomOf(ps[0])] + SubParam(ps[1..])
  }

  function RoutePattern(template: string): seq<Atom> {
    SubParam(SubRest(template))
  }

  /** The pattern takes the whole of `s`. */
  predicate Matches(atoms: seq<Atom>, s: string)
    decreases |atoms|
  {
    if atoms == [] then s == []
    else
      match atoms[0]
      case Lit(c) => s != [] && s[0] == c && Matches(atoms[1..], s[1..])
      case Any => s != [] && s[0] != '\n' && Matches(atoms[1..], s[1..])
      case Segment => exists k :: 1 <= k <= |s| && '/' !in s[..k] && Matches(atoms[1..], s[k..])
      case Rest => exists k :: 0 <= k <= |s| && '\n' !in s[..k] && Matches(atoms[1..], s[k..])
  }

  // `$` also matches in front of a final newline.
  predicate Accepts(atoms: seq<Atom>, path: string) {
    Matches(atoms, path) || (path != [] && path[|path| - 1] == '\n' && Matches(atoms, path[..|path| - 1]))
  }

  // ------------------------------------------------------- segment by segment

  /** One segment of a template: fixed text, one parameter, or the rest of the path. */
  datatype Part = Fixed(text: string) | Param(name: string) | Tail(name: string)

  function Spelled(part: Part): string {
    match part
    case Fixed(text) => text
    case Param(name) => "{" + name + "}"
    case Tail(name) => "{" + name + "...}"
  }

  function Template(parts: seq<Part>): string
    requires parts != []
  {
    if |parts| == 1 then Spelled(parts[0]) else Spelled(parts[0]) + ("/" + Template(parts[1..]))
  }

  /** What a router does with a path cut at its slashes. */
  predicate Routes(parts: seq<Part>, segments: seq<string>) {
    if parts == [] || segments == [] then parts == [] && segments == []
    else
      match parts[0]
      case Fixed(text) => segments[0] == text && Routes(parts[1..], segments[1..])
      case Param(_) => segments[0] != [] && Routes(parts[1..], segments[1..])
      case Tail(_) => true
  }

  predicate IsIdent(s: string) {
    s != [] && IsIdentStart(s[0]) && forall c :: c in s ==> IsIdentChar(c)
  }

  // Characters that a pattern reads as themselves; a dot is the one exception allowed.
  predicate IsPlain(c: char) {
    c !in "/{}\\^$*+?()[]|\n"
  }

  /** Every parameter is a whole segment, and a rest-of-path parameter is the last. */
  predicate WellFormed(parts: seq<Part>) {
    && parts != []
    && forall i :: 0 <= i < |parts| ==>
         match parts[i]
         case Fixed(text) => forall c :: c in text ==> IsPlain(c)
         case Param(name) => IsIdent(name)
         case Tail(name) => IsIdent(name) && i == |parts| - 1
  }

  predicate Dotless(parts: seq<Part>) {
    forall i :: 0 <= i < |parts| && parts[i].Fixed? ==> '.' !in parts[i].text
  }

  lemma WellFormedRest(parts: seq<Part>)
    requires WellFormed(parts) && |parts| > 1
    ensures WellFormed(parts[1..]) && !parts[0].Tail?
    ensures Dotless(parts) ==> Dotless(parts[1..])
  {
    forall i | 0 <= i < |parts[1..]| ensures parts[1..][i] == parts[i + 1] {}
  }

  // ------------------------------------------- the pattern of a well-formed template

  function Chars(s: string): seq<Piece> {
    seq(|s|, i requires 0 <= i < |s| => Ch(s[i]))
  }

  function Atoms(text: string): seq<Atom> {
    seq(|text|, i requires 0 <= i < |text| => AtomOf(Ch(text[i])))
  }

  function PartAtoms(part: Part): seq<Atom> {
    match part
    case Fixed(text) => Atoms(text)
    case Param(_) => [Segment]
    case Tail(_) => [Rest]
  }

  function PartsAtoms(parts: seq<Part>): seq<Atom>
    requires parts != []
  {
    if |parts| == 1 then PartAtoms(parts[0]) else PartAtoms(parts[0]) + ([Lit('/')] + PartsAtoms(parts[1..]))
  }

  function PartPieces(part: Part): seq<Piece> {
    if part.Tail? then [RestOf] else Chars(Spelled(part))
  }

  function PartsPieces(parts: seq<Part>): seq<Piece>
    requires parts != []
  {
    if |parts| == 1 then PartPieces(parts[0]) else PartPieces(parts[0]) + ([Ch('/')] + PartsPieces(parts[1..]))
  }

  // First substitution, in front of any text.
  lemma {:induction false} PlainSubRest(s: string, after: string)
    requires '{' !in s
    ensures SubRest(s + after) == Chars(s) + SubRest(after)
  {
    hide SubRest, Chars;
    CharsUnfold(s);
    if s == [] {
      assert s + after == after;
    } else {
      Plain(s);
      PlainSubRest(s[1..], after);
      CharSubRest(s[0], s[1..] + after);
      Associate([s[0]], s[1..], after);
      Associate([Ch(s[0])], Chars(s[1..]), SubRest(after));
    }
  }

  lemma CharsUnfold(s: string)
    ensures s == [] ==> Chars(s) == [] && Atoms(s) == []
    ensures s != [] ==> s == [s[0]] + s[1..] && Chars(s) == [Ch(s[0])] + Chars(s[1..])
    ensures s != [] ==> Atoms(s) == [AtomOf(Ch(s[0]))] + Atoms(s[1..])
  {}

  lemma Plain(s: string)
    requires s != [] && '{' !in s
    ensures s[0] != '{' && '{' !in s[1..]
  {
    assert s[0] in s;
  }

  lemma CharSubRest(c: char, rest: string)
    requires c != '{'
    ensures SubRest([c] + rest) == [Ch(c)] + SubRest(rest)
  {
    assert ([c] + rest)[1..] == rest;
  }

  lemma {:induction false} IdentEnds(name: string, after: string)
    requires (forall c :: c in name ==> IsIdentChar(c)) && after != [] && !IsIdentChar(after[0])
    ensures IdentLen(name + after) == |name|
  {
    if name == [] {
      assert name + after == after;
    } else {
      assert name[0] in name && (name + after)[0] == name[0] && (name + after)[1..] == name[1..] + after;
      assert forall c :: c in name[1..] ==> c in name;
      IdentEnds(name[1..], after);
    }
  }

  lemma ParamSubRest(name: string, after: string)
    requires IsIdent(name)
    ensures SubRest("{" + name + "}" + after) == Chars("{" + name + "}") + SubRest(after)
  {
    hide Chars, IdentLen;
    var s := "{" + name + "}" + after;
    var tail := name + "}";
    assert s[1..] == tail + after;
    NoRestParam(name, s, after);
    assert '{' !in tail by { forall c | c in name ensures IsIdentChar(c) {} }
    PlainSubRest(tail, after);
    CharsUnfold("{" + tail);
    assert "{" + name + "}" == "{" + tail && ("{" + tail)[1..] == tail;
    Associate([Ch('{')], Chars(tail), SubRest(after));
  }

  lemma NoRestParam(name: string, s: string, after: string)
    requires IsIdent(name) && s == "{" + name + "}" + after
    ensures RestParamLen(s) == 0
  {
    hide IdentLen;
    assert s[1..] == name + ("}" + after);
    IdentEnds(name, "}" + after);
    assert s[1 + |name|] == '}';
  }

  lemma TailSubRest(name: string)
    requires IsIdent(name)
    ensures SubRest("{" + name + "...}") == [RestOf]
  {
    var s := "{" + name + "...}";
    assert s[1..] == name + "...}";
    IdentEnds(name, "...}");
    var n := 1 + |name|;
    assert s[1] == name[0];
    assert s[n..] == "...}" && s[n] == '.' && s[n + 1] == '.' && s[n + 2] == '.' && s[n + 3] == '}';
    assert s[n + 4..] == [];
  }

  lemma PartSubRest(part: Part, after: string)
    requires WellFormed([part]) && (part.Tail? ==> after == [])
    ensures SubRest(Spelled(part) + after) == PartPieces(part) + SubRest(after)
  {
    assert [part][0] == part;
    match part
    case Fixed(text) =>
      assert forall c :: c in text ==> IsPlain(c);
      PlainSubRest(text, after);
    case Param(name) => ParamSubRest(name, after);
    case Tail(name) =>
      TailSubRest(name);
      assert Spelled(part) + after == Spelled(part) && SubRest(after) == [];
  }

  lemma OnePart(parts: seq<Part>)
    requires WellFormed(parts)
    ensures WellFormed([parts[0]])
  {
    assert [parts[0]][0] == parts[0];
  }

  lemma {:induction false} TemplateSubRest(parts: seq<Part>)
    requires WellFormed(parts)
    ensures SubRest(Template(parts)) == PartsPieces(parts)
    decreases |parts|
  {
    hide SubRest, Spelled, PartPieces;
    OnePart(parts);
    if |parts| == 1 {
      PartSubRest(parts[0], []);
      assert Spelled(parts[0]) + [] == Spelled(parts[0]);
      NothingLeft();
    } else {
      WellFormedRest(parts);
      var rest := Template(parts[1..]);
      PartSubRest(parts[0], "/" + rest);
      PlainSubRest("/", rest);
      assert Chars("/") == [Ch('/')];
      TemplateSubRest(parts[1..]);
    }
  }

  lemma NothingLeft()
    ensures SubRest([]) == []
  {}

  // Second substitution.
  lemma {:induction false} PlainSubParam(s: string, after: seq<Piece>)
    requires '{' !in s
    ensures SubParam(Chars(s) + after) == Atoms(s) + SubParam(after)
  {
    hide SubParam, Chars, Atoms;
    CharsUnfold(s);
    if s == [] {
      assert [] + after == after;
    } else {
      Plain(s);
      PlainSubParam(s[1..], after);
      CharSubParam(s[0], Chars(s[1..]) + after);
      Associate([Ch(s[0])], Chars(s[1..]), after);
      Associate([AtomOf(Ch(s[0]))], Atoms(s[1..]), SubParam(after));
    }
  }

  lemma CharSubParam(c: char, rest: seq<Piece>)
    requires c != '{'
    ensures SubParam([Ch(c)] + rest) == [AtomOf(Ch(c))] + SubParam(rest)
  {
    assert ([Ch(c)] + rest)[1..] == rest;
  }

  lemma {:induction false} BraceCloses(name: string, after: seq<Piece>)
    requires '}' !in name
    ensures CloseBrace(Chars(name) + ([Ch('}')] + after)) == |name|
  {
    var ps := Chars(name) + ([Ch('}')] + after);
    if name == [] {
      assert ps == [Ch('}')] + after;
    } else {
      assert name[0] in name && ps[0] == Ch(name[0]) && ps[1..] == Chars(name[1..]) + ([Ch('}')] + after);
      BraceCloses(name[1..], after);
    }
  }

  lemma ParamSubParam(name: string, after: seq<Piece>)
    requires IsIdent(name)
    ensures SubParam(Chars("{" + name + "}") + after) == [Segment] + SubParam(after)
  {
    var ps := Chars("{" + name + "}") + after;
    assert '}' !in name by { forall c | c in name ensures IsIdentChar(c) {} }
    assert ps[1..] == Chars(name) + ([Ch('}')] + after);
    BraceCloses(name, after);
    assert ps[0] == Ch('{') && ps[|name| + 2..] == after;
  }

  lemma PartSubParam(part: Part, after: seq<Piece>)
    requires WellFormed([part])
    ensures SubParam(PartPieces(part) + after) == PartAtoms(part) + SubParam(after)
  {
    assert [part][0] == part;
    match part
    case Fixed(text) =>
      assert forall c :: c in text ==> IsPlain(c);
      PlainSubParam(text, after);
    case Param(name) => ParamSubParam(name, after);
    case Tail(name) =>
      assert ([RestOf] + after)[1..] == after;
  }

  lemma {:induction false} TemplateSubParam(parts: seq<Part>)
    requires WellFormed(parts)
    ensures SubParam(PartsPieces(parts)) == PartsAtoms(parts)
    decreases |parts|
  {
    hide SubParam, PartPieces, PartAtoms;
    OnePart(parts);
    if |parts| == 1 {
      PartSubParam(parts[0], []);
      assert PartPieces(parts[0]) + [] == PartPieces(parts[0]);
      NothingMore();
    } else {
      WellFormedRest(parts);
      var rest := PartsPieces(parts[1..]);
      PartSubParam(parts[0], [Ch('/')] + rest);
      PlainSubParam("/", rest);
      assert Chars("/") == [Ch('/')] && Atoms("/") == [Lit('/')];
      TemplateSubParam(parts[1..]);
    }
  }

  lemma NothingMore()
    ensures SubParam([]) == []
  {}

  /** The pattern of a well-formed template is put together segment by segment. */
  lemma PatternOfTemplate(parts: seq<Part>)
    requires WellFormed(parts)
    ensures RoutePattern(Template(parts)) == PartsAtoms(parts)
  {
    TemplateSubRest(parts);
    TemplateSubParam(parts);
  }

  // --------------------------------------------- matching it is routing by segment

  lemma {:induction false} OnlySlash(s: string, k: nat)
    requires k < |s| && s[k] == '/' && '/' !in s[..k]
    ensures IndexOf(s, '/') == k
  {
    if k > 0 {
      assert s[0] == s[..k][0];
      assert s[1..][..k - 1] == s[..k][1..];
      OnlySlash(s[1..], k - 1);
    }
  }

  lemma NoSlash(s: string)
    requires '/' !in s
    ensures IndexOf(s, '/') == |s|
  {
    IndexOfIsFirst(s, '/');
  }

  // The text of a fixed segment, then whatever the pattern goes on with.
  lemma {:induction false} FixedMatches(text: string, more: seq<Atom>, s: string)
    requires '.' !in text
    ensures Matches(Atoms(text) + more, s) <==> text <= s && Matches(more, s[|text|..])
  {
    var atoms := Atoms(text) + more;
    if text == [] {
      assert atoms == more && s[0..] == s;
    } else {
      assert text[0] in text && atoms[0] == Lit(text[0]) && atoms[1..] == Atoms(text[1..]) + more;
      if s != [] && s[0] == text[0] {
        FixedMatches(text[1..], more, s[1..]);
        assert text <= s <==> text[1..] <= s[1..] by {
          assert text == [text[0]] + text[1..] && s == [s[0]] + s[1..];
        }
        if |text| <= |s| { assert s[1..][|text| - 1..] == s[|text|..]; }
      }
    }
  }

  // A parameter in front of a slash takes exactly the segment up to the first slash.
  lemma SegmentMatches(more: seq<Atom>, s: string)
    ensures var n := IndexOf(s, '/');
            Matches([Segment] + ([Lit('/')] + more), s) <==> 0 < n < |s| && Matches(more, s[n + 1..])
  {
    hide IndexOf, Matches;
    var n := IndexOf(s, '/');
    var tail := [Lit('/')] + more;
    SegmentThen(tail, s);
    IndexOfIsFirst(s, '/');
    forall k | 1 <= k <= |s| && '/' !in s[..k] && Matches(tail, s[k..]) ensures k == n < |s| && Matches(more, s[n + 1..]) {
      SlashThen(more, s[k..]);
      assert s[k..][0] == s[k] && s[k..][1..] == s[k + 1..];
      OnlySlash(s, k);
    }
    if 0 < n < |s| && Matches(more, s[n + 1..]) {
      SlashThen(more, s[n..]);
      assert s[n..][0] == s[n] && s[n..][1..] == s[n + 1..];
      assert Matches(tail, s[n..]);
    }
  }

  lemma SegmentThen(more: seq<Atom>, s: string)
    ensures Matches([Segment] + more, s) <==> exists k :: 1 <= k <= |s| && '/' !in s[..k] && Matches(more, s[k..])
  {
    assert ([Segment] + more)[0] == Segment && ([Segment] + more)[1..] == more;
  }

  lemma LastSegmentMatches(s: string)
    ensures Matches([Segment], s) <==> s != [] && '/' !in s
  {
    var atoms := [Segment];
    assert atoms[1..] == [];
    forall k | 1 <= k <= |s| && '/' !in s[..k] && Matches([], s[k..]) ensures s != [] && '/' !in s {
      assert k == |s| && s[..k] == s;
    }
    if s != [] && '/' !in s {
      assert s[..|s|] == s && s[|s|..] == [];
      assert Matches(atoms[1..], s[|s|..]);
    }
  }

  lemma TailMatches(s: string)
    requires '\n' !in s
    ensures Matches([Rest], s)
  {
    assert [Rest][1..] == [] && s[..|s|] == s && s[|s|..] == [];
    assert Matches([Rest][1..], s[|s|..]);
  }

  lemma SplitUnfolds(s: string)
    ensures var n := IndexOf(s, '/');
            && (n == |s| ==> Split(s, '/') == [s] && s[..n] == s)
            && (n < |s| ==> Split(s, '/') == [s[..n]] + Split(s[n + 1..], '/'))
            && Split(s, '/')[0] == s[..n]
            && Split(s, '/')[1..] == if n < |s| then Split(s[n + 1..], '/') else []
  {
    SplitHere(s);
    hide IndexOf, Split;
  }

  lemma SplitHere(s: string)
    ensures var n := IndexOf(s, '/');
            && (n == |s| ==> Split(s, '/') == [s])
            && (n < |s| ==> Split(s, '/') == [s[..n]] + Split(s[n + 1..], '/'))
  {
    hide IndexOf;
  }

  // Fixed text in front of a slash.
  lemma FixedThenSlash(text: string, more: seq<Atom>, s: string)
    requires '.' !in text && '/' !in text
    ensures var n := IndexOf(s, '/');
            Matches(Atoms(text) + ([Lit('/')] + more), s) <==> n < |s| && s[..n] == text && Matches(more, s[n + 1..])
  {
    hide IndexOf, Atoms;
    var n := IndexOf(s, '/');
    var tail := [Lit('/')] + more;
    IndexOfIsFirst(s, '/');
    FixedMatches(text, tail, s);
    if text <= s {
      SlashThen(more, s[|text|..]);
      assert s[..|text|] == text;
      if |text| < |s| {
        assert s[|text|..][0] == s[|text|] && s[|text|..][1..] == s[|text| + 1..];
        if s[|text|] == '/' { OnlySlash(s, |text|); }
      }
    }
  }

  lemma SlashThen(more: seq<Atom>, s: string)
    ensures Matches([Lit('/')] + more, s) <==> s != [] && s[0] == '/' && Matches(more, s[1..])
  {
    assert ([Lit('/')] + more)[1..] == more;
  }

  // One segment and a slash.
  lemma PartMatches(part: Part, more: seq<Atom>, s: string)
    requires WellFormed([part]) && Dotless([part]) && !part.Tail?
    ensures var n := IndexOf(s, '/');
            Matches(PartAtoms(part) + ([Lit('/')] + more), s) <==>
            n < |s| && Takes(part, s[..n]) && Matches(more, s[n + 1..])
  {
    hide IndexOf, Matches;
    assert [part][0] == part;
    match part
    case Param(_) => SegmentMatches(more, s);
    case Fixed(text) =>
      assert forall c :: c in text ==> IsPlain(c);
      FixedThenSlash(text, more, s);
  }

  predicate Takes(part: Part, segment: string) {
    match part
    case Fixed(text) => segment == text
    case Param(_) => segment != []
    case Tail(_) => true
  }

  lemma LastPartMatches(part: Part, s: string)
    requires WellFormed([part]) && Dotless([part]) && '\n' !in s
    ensures Matches(PartAtoms(part), s) <==> part.Tail? || (IndexOf(s, '/') == |s| && Takes(part, s))
  {
    hide IndexOf, Matches, Atoms;
    assert [part][0] == part;
    SlashlessIs(s);
    match part
    case Tail(_) => TailMatches(s);
    case Param(_) => LastSegmentMatches(s);
    case Fixed(text) =>
      assert forall c :: c in text ==> IsPlain(c);
      LastFixedMatches(text, s);
  }

  lemma SlashlessIs(s: string)
    ensures IndexOf(s, '/') == |s| <==> '/' !in s
  {
    hide IndexOf;
    IndexOfIsFirst(s, '/');
    if '/' !in s { NoSlash(s); } else { assert s[..|s|] == s; }
  }

  lemma LastFixedMatches(text: string, s: string)
    requires '.' !in text && '/' !in text
    ensures Matches(Atoms(text), s) <==> s == text
  {
    hide Atoms;
    FixedMatches(text, [], s);
    assert Atoms(text) + [] == Atoms(text);
    assert text <= s && s[|text|..] == [] <==> s == text;
  }

  lemma {:induction false} AtomsRoute(parts: seq<Part>, s: string)
    requires WellFormed(parts) && Dotless(parts) && '\n' !in s
    ensures Matches(PartsAtoms(parts), s) <==> Routes(parts, Split(s, '/'))
    decreases |parts|
  {
    hide Matches, IndexOf, Split, PartAtoms;
    var n := IndexOf(s, '/');
    SplitUnfolds(s);
    OnePart(parts);
    assert [parts[0]][0] == parts[0] && (Dotless(parts) ==> Dotless([parts[0]]));
    if |parts| == 1 {
      LastPartMatches(parts[0], s);
      assert parts[1..] == [];
      assert s[..|s|] == s;
    } else {
      WellFormedRest(parts);
      PartMatches(parts[0], PartsAtoms(parts[1..]), s);
      if n < |s| {
        assert '\n' !in s[n + 1..];
        AtomsRoute(parts[1..], s[n + 1..]);
      }
    }
  }

  /** On a dotless template the pattern accepts a newline-free path exactly when a router would. */
  lemma PatternRoutes(parts: seq<Part>, path: string)
    requires WellFormed(parts) && Dotless(parts) && '\n' !in path
    ensures Accepts(RoutePattern(Template(parts)), path) <==> Routes(parts, Split(path, '/'))
  {
    hide Matches, Routes, RoutePattern;
    PatternOfTemplate(parts);
    AtomsRoute(parts, path);
  }

  // ------------------------------------------------ a literal dot takes any character

  function Dashed(text: string): string {
    seq(|text|, i requires 0 <= i < |text| => if text[i] == '.' then '-' else text[i])
  }

  // A path of the shape of the template, with a dash wherever the template has a dot.
  function Specimen(parts: seq<Part>): string
    requires parts != []
  {
    var head := match parts[0] case Fixed(text) => Dashed(text) case _ => "x";
    if |parts| == 1 then head else head + ("/" + Specimen(parts[1..]))
  }

  lemma {:induction false} DashedMatches(text: string, more: seq<Atom>, s: string)
    requires (forall c :: c in text ==> IsPlain(c)) && Matches(more, s)
    ensures Matches(Atoms(text) + more, Dashed(text) + s)
  {
    var atoms, t := Atoms(text) + more, Dashed(text) + s;
    if text == [] {
      assert atoms == more && t == s;
    } else {
      assert text[0] in text && atoms[0] == AtomOf(Ch(text[0])) && atoms[1..] == Atoms(text[1..]) + more;
      assert t[1..] == Dashed(text[1..]) + s;
      assert forall c :: c in text[1..] ==> c in text;
      DashedMatches(text[1..], more, s);
    }
  }

  lemma {:induction false} SpecimenMatches(parts: seq<Part>)
    requires WellFormed(parts)
    ensures Matches(PartsAtoms(parts), Specimen(parts)) && '\n' !in Specimen(parts)
    decreases |parts|
  {
    hide Matches, PartAtoms, Dashed;
    OnePart(parts);
    if |parts| == 1 {
      PartSpecimen(parts[0], [], []);
      assert PartAtoms(parts[0]) + [] == PartAtoms(parts[0]);
      assert Specimen(parts) + [] == Specimen(parts);
    } else {
      WellFormedRest(parts);
      SpecimenMatches(parts[1..]);
      var more, s := PartsAtoms(parts[1..]), Specimen(parts[1..]);
      SlashMatches(more, s);
      PartSpecimen(parts[0], [Lit('/')] + more, "/" + s);
    }
  }

  lemma SlashMatches(more: seq<Atom>, s: string)
    requires Matches(more, s)
    ensures Matches([Lit('/')] + more, "/" + s)
  {
    assert ([Lit('/')] + more)[1..] == more && ("/" + s)[1..] == s;
  }

  lemma PartSpecimen(part: Part, more: seq<Atom>, s: string)
    requires WellFormed([part]) && (part.Tail? ==> more == [] && s == []) && (more == [] ==> s == [])
    requires more != [] ==> Matches(more, s)
    ensures var head := match part case Fixed(text) => Dashed(text) case _ => "x";
            Matches(PartAtoms(part) + more, head + s) && '\n' !in head
  {
    assert [part][0] == part;
    assert Matches(more, s);
    match part
    case Fixed(text) =>
      assert forall c :: c in text ==> IsPlain(c);
      DashedMatches(text, more, s);
      DashedIsPlain(text);
    case Param(_) =>
      assert ([Segment] + more)[1..] == more && ("x" + s)[..1] == "x" && ("x" + s)[1..] == s;
      assert Matches(([Segment] + more)[1..], ("x" + s)[1..]);
    case Tail(_) =>
      TailMatches("x");
      assert [Rest] + [] == [Rest] && "x" + [] == "x";
  }

  lemma SplitOne(head: string)
    requires '/' !in head
    ensures Split(head, '/') == [head]
  {
    NoSlash(head);
  }

  lemma SplitMore(head: string, rest: string)
    requires '/' !in head
    ensures Split(head + ("/" + rest), '/') == [head] + Split(rest, '/')
  {
    hide IndexOf;
    var path := head + ("/" + rest);
    assert path[..|head|] == head && path[|head|] == '/' && path[|head| + 1..] == rest;
    OnlySlash(path, |head|);
  }

  // The segments of a specimen.
  lemma SpecimenSplits(parts: seq<Part>)
    requires WellFormed(parts)
    ensures var head := match parts[0] case Fixed(text) => Dashed(text) case _ => "x";
            && Split(Specimen(parts), '/')[0] == head
            && (|parts| > 1 ==> Split(Specimen(parts), '/')[1..] == Split(Specimen(parts[1..]), '/'))
  {
    hide IndexOf, Split, Dashed;
    var head := match parts[0] case Fixed(text) => Dashed(text) case _ => "x";
    if parts[0].Fixed? {
      assert forall c :: c in parts[0].text ==> IsPlain(c);
      DashedIsPlain(parts[0].text);
    }
    if |parts| == 1 { SplitOne(head); } else { SplitMore(head, Specimen(parts[1..])); }
  }

  lemma {:induction false} SpecimenIsRefused(parts: seq<Part>)
    requires WellFormed(parts) && !Dotless(parts)
    ensures !Routes(parts, Split(Specimen(parts), '/'))
    decreases |parts|
  {
    hide Split, Specimen, Dashed;
    SpecimenSplits(parts);
    if parts[0].Fixed? && '.' in parts[0].text {
      DashedDiffers(parts[0].text);
    } else {
      var i :| 0 <= i < |parts| && parts[i].Fixed? && '.' in parts[i].text;
      assert i > 0 && parts[1..][i - 1] == parts[i];
      WellFormedRest(parts);
      SpecimenIsRefused(parts[1..]);
    }
  }

  lemma DashedIsPlain(text: string)
    requires forall c :: c in text ==> IsPlain(c)
    ensures '/' !in Dashed(text) && '\n' !in Dashed(text)
  {
    forall c | c in Dashed(text) ensures IsPlain(c) {
      var i :| 0 <= i < |text| && Dashed(text)[i] == c;
      assert text[i] in text;
    }
  }

  lemma DashedDiffers(text: string)
    requires '.' in text
    ensures Dashed(text) != text
  {
    var i :| 0 <= i < |text| && text[i] == '.';
    assert Dashed(text)[i] == '-';
  }

  /**
   Pattern and router agree on every newline-free path exactly for the templates
   whose fixed segments hold no dot: an unescaped dot takes any character.
   */
  lemma AgreesIffDotless(parts: seq<Part>)
    requires WellFormed(parts)
    ensures Dotless(parts) <==>
            forall path :: '\n' !in path ==>
              (Accepts(RoutePattern(Template(parts)), path) <==> Routes(parts, Split(path, '/')))
  {
    hide Matches, Routes, RoutePattern, Split;
    if Dotless(parts) {
      forall path | '\n' !in path
        ensures Accepts(RoutePattern(Template(parts)), path) <==> Routes(parts, Split(path, '/'))
      {
        PatternRoutes(parts, path);
      }
    } else {
      PatternOfTemplate(parts);
      SpecimenMatches(parts);
      SpecimenIsRefused(parts);
      assert Accepts(RoutePattern(Template(parts)), Specimen(parts));
    }
  }

  /** A dot takes a slash too: this path has a segment more than the template, and the pattern accepts it. */
  lemma DotTakesASlash()
    ensures var parts := [Fixed("a.b")];
            && WellFormed(parts) && Accepts(RoutePattern(Template(parts)), "a/b")
            && !Routes(parts, Split("a/b", '/'))
  {
    hide RoutePattern, Matches, Atoms, Split, WellFormed;
    var parts := [Fixed("a.b")];
    DotIsPlain();
    PatternOfTemplate(parts);
    DotMatches();
    TwoSegments();
  }

  lemma DotIsPlain()
    ensures WellFormed([Fixed("a.b")])
  {
    hide IsPlain;
    assert IsPlain('a') && IsPlain('b') && IsPlain('.') by { PlainLetters(); }
  }

  lemma PlainLetters()
    ensures IsPlain('a') && IsPlain('b') && IsPlain('.')
  {}

  lemma DotMatches()
    ensures Matches(Atoms("a.b"), "a/b")
  {
    assert Atoms("a.b") == [Lit('a'), Any, Lit('b')];
    assert Matches([Lit('b')], "b") by { assert [Lit('b')][1..] == [] && "b"[1..] == []; }
    assert Matches([Any, Lit('b')], "/b") by { assert [Any, Lit('b')][1..] == [Lit('b')] && "/b"[1..] == "b"; }
    assert [Lit('a'), Any, Lit('b')][1..] == [Any, Lit('b')] && "a/b"[1..] == "/b";
  }

  lemma TwoSegments()
    ensures Split("a/b", '/') != [] && Split("a/b", '/')[0] == "a"
  {
    assert IndexOf("a/b", '/') == 1;
  }
}
