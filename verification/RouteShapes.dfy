/**
 Route templates with their parameter names erased, and the two gates that
 compare registered with documented routes by that shape.
 */
module RouteShapes {
  import opened Basics

  /** Every `{...}` with a name in it becomes `{}`. */
  function Erased(s: string): string
    decreases |s|
  {
    if s == [] then []
    else
      var n := IndexOf(s[1..], '}');
      if s[0] == '{' && n > 0 && n + 1 < |s| then "{}" + Erased(s[n + 2..]) else [s[0]] + Erased(s[1..])
  }

  function TrimSlashes(s: string): string {
    if s != [] && s[|s| - 1] == '/' then TrimSlashes(s[..|s| - 1]) else s
  }

  function Shape(template: string): string {
    TrimSlashes(Erased(template))
  }

  // ----------------------------------------------------------- once is enough

  /** No parameter with a name is left. */
  predicate Nameless(s: string) {
    if s == [] then true
    else
      var n := IndexOf(s[1..], '}');
      !(s[0] == '{' && n > 0 && n + 1 < |s|) && Nameless(s[1..])
  }

  lemma {:induction false} NamelessStays(s: string)
    requires Nameless(s)
    ensures Erased(s) == s
  {
    if s != [] {
      NamelessStays(s[1..]);
      assert s == [s[0]] + s[1..];
    }
  }

  lemma {:induction false} NoCloser(s: string)
    ensures IndexOf(s, '}') == |s| <==> '}' !in s
  {
    if s != [] {
      NoCloser(s[1..]);
      assert s == [s[0]] + s[1..];
    }
  }

  // Erasing only ever drops characters other than braces, so it adds no brace.
  lemma {:induction false} ErasedKeepsOpen(s: string)
    ensures '}' !in s ==> Erased(s) == s
    decreases |s|
  {
    if s != [] && '}' !in s {
      NoCloser(s[1..]);
      ErasedKeepsOpen(s[1..]);
      assert s == [s[0]] + s[1..];
    }
  }

  lemma {:induction false} ErasedIsNameless(s: string)
    ensures Nameless(Erased(s))
    decreases |s|
  {
    if s != [] {
      var n := IndexOf(s[1..], '}');
      if s[0] == '{' && n > 0 && n + 1 < |s| {
        ErasedIsNameless(s[n + 2..]);
        var rest := Erased(s[n + 2..]);
        assert ("{}" + rest)[1..] == "}" + rest && ("}" + rest)[1..] == rest;
        assert IndexOf("}" + rest, '}') == 0;
        assert Nameless("}" + rest);
      } else {
        ErasedIsNameless(s[1..]);
        var rest := Erased(s[1..]);
        assert ([s[0]] + rest)[1..] == rest;
        if s[0] == '{' {
          NoCloser(s[1..]);
          if n == 0 && |s| > 1 {
            ErasedHead(s[1..]);
          } else {
            ErasedKeepsOpen(s[1..]);
          }
        }
      }
    }
  }

  lemma ErasedHead(s: string)
    requires s != [] && IndexOf(s, '}') == 0
    ensures Erased(s) != [] && Erased(s)[0] == '}' && IndexOf(Erased(s), '}') == 0
  {
    IndexOfIsFirst(s, '}');
  }

  lemma {:induction false} NamelessPrefix(s: string, k: nat)
    requires Nameless(s) && k <= |s|
    ensures Nameless(s[..k])
  {
    if k > 0 {
      NamelessPrefix(s[1..], k - 1);
      assert s[..k][1..] == s[1..][..k - 1];
      if s[0] == '{' { IndexOfPrefix(s[1..], k - 1); }
    }
  }

  lemma {:induction false} IndexOfPrefix(s: string, k: nat)
    requires k <= |s|
    ensures IndexOf(s[..k], '}') == if IndexOf(s, '}') < k then IndexOf(s, '}') else k
  {
    if k > 0 && s[0] != '}' {
      assert s[..k][1..] == s[1..][..k - 1];
      IndexOfPrefix(s[1..], k - 1);
    }
  }

  lemma {:induction false} TrimIsPrefix(s: string)
    ensures |TrimSlashes(s)| <= |s| && TrimSlashes(s) == s[..|TrimSlashes(s)|]
    ensures TrimSlashes(TrimSlashes(s)) == TrimSlashes(s)
    decreases |s|
  {
    if s != [] && s[|s| - 1] == '/' { TrimIsPrefix(s[..|s| - 1]); }
  }

  /** The shape of a shape is itself. */
  lemma ShapeTwice(template: string)
    ensures Shape(Shape(template)) == Shape(template)
  {
    var e := Erased(template);
    ErasedIsNameless(template);
    TrimIsPrefix(e);
    NamelessPrefix(e, |TrimSlashes(e)|);
    NamelessStays(TrimSlashes(e));
  }

  // -------------------------------------------------- names do not matter

  /** A template in pieces: brace-free text, and named parameters. */
  datatype Piece = Text(text: string) | Param(name: string)

  predicate Clean(pieces: seq<Piece>) {
    forall i :: 0 <= i < |pieces| ==>
      match pieces[i]
      case Text(text) => '{' !in text && '}' !in text
      case Param(name) => name != [] && '}' !in name
  }

  function Spelled(pieces: seq<Piece>): string {
    if pieces == [] then []
    else (match pieces[0] case Text(text) => text case Param(name) => "{" + name + "}") + Spelled(pieces[1..])
  }

  /** The same pieces with every parameter called by one empty name. */
  function Unnamed(pieces: seq<Piece>): seq<Piece> {
    if pieces == [] then [] else [if pieces[0].Param? then Param("") else pieces[0]] + Unnamed(pieces[1..])
  }

  lemma {:induction false} ErasedText(text: string, after: string)
    requires '{' !in text
    ensures Erased(text + after) == text + Erased(after)
  {
    if text == [] {
      assert text + after == after;
    } else {
      assert text[0] in text && (text + after)[0] == text[0] && (text + after)[1..] == text[1..] + after;
      ErasedText(text[1..], after);
    }
  }

  lemma ErasedParam(name: string, after: string)
    requires name != [] && '}' !in name
    ensures Erased("{" + name + "}" + after) == "{}" + Erased(after)
  {
    var s := "{" + name + "}" + after;
    assert s[1..] == name + ("}" + after);
    CloserAfter(name, after);
    assert s[|name| + 2..] == after;
  }

  lemma {:induction false} CloserAfter(name: string, after: string)
    requires '}' !in name
    ensures IndexOf(name + ("}" + after), '}') == |name|
  {
    var s := name + ("}" + after);
    if name == [] {
      assert s == "}" + after;
    } else {
      assert name[0] in name && s[0] == name[0] && s[1..] == name[1..] + ("}" + after);
      CloserAfter(name[1..], after);
    }
  }

  lemma {:induction false} ErasedIsUnnamed(pieces: seq<Piece>)
    requires Clean(pieces)
    ensures Erased(Spelled(pieces)) == Spelled(Unnamed(pieces))
  {
    if pieces != [] {
      var rest := pieces[1..];
      assert Clean(rest) by { forall i | 0 <= i < |rest| ensures rest[i] == pieces[i + 1] {} }
      ErasedIsUnnamed(rest);
      assert Unnamed(pieces)[1..] == Unnamed(rest);
      match pieces[0]
      case Text(text) => ErasedText(text, Spelled(rest));
      case Param(name) =>
        ErasedParam(name, Spelled(rest));
        assert "{" + "" + "}" == "{}";
    }
  }

  /** Renaming the parameters of a template changes nothing in its shape. */
  lemma ShapeIgnoresNames(a: seq<Piece>, b: seq<Piece>)
    requires Clean(a) && Clean(b) && Unnamed(a) == Unnamed(b)
    ensures Shape(Spelled(a)) == Shape(Spelled(b))
  {
    ErasedIsUnnamed(a);
    ErasedIsUnnamed(b);
  }

  // ------------------------------------------------------------ the two gates

  datatype Route = Route(verb: string, template: string)

  datatype SurfaceState = Served | Refused | Silent

  datatype RouteState = Documented | Alias | Native | Undocumented

  function Key(r: Route): (string, string) {
    (r.verb, Shape(r.template))
  }

  function Keys(routes: seq<Route>): set<(string, string)> {
    set r | r in routes :: Key(r)
  }

  /** The surface ledger: every documented operation, by what the emulator does with it. */
  method ClassifySurface(documented: seq<Route>, registered: seq<Route>, refused: set<Route>)
    returns (states: map<Route, SurfaceState>)
    ensures forall r :: r in states <==> r in documented
    ensures forall r :: r in states ==>
              states[r] == if Key(r) in Keys(registered) then Served else if r in refused then Refused else Silent
  {
    var shapes := Keys(registered);
    states := map[];
    for i := 0 to |documented|
      invariant forall r :: r in states <==> r in documented[..i]
      invariant forall r :: r in states ==>
                  states[r] == if Key(r) in Keys(registered) then Served else if r in refused then Refused else Silent
    {
      var r := documented[i];
      assert documented[..i + 1] == documented[..i] + [r];
      if Key(r) in shapes {
        states := states[r := Served];
      } else if r in refused {
        states := states[r := Refused];
      } else {
        states := states[r := Silent];
      }
    }
    assert documented[..|documented|] == documented;
  }

  /** The undocumented-routes gate: every registered route, by what documents it. */
  method ClassifyRoutes(registered: seq<Route>, documented: seq<Route>, isAlias: Route -> bool, isNative: Route -> bool)
    returns (states: map<Route, RouteState>)
    ensures forall r :: r in states <==> r in registered
    ensures forall r :: r in states ==>
              states[r] == if Key(r) in Keys(documented) then Documented
                           else if isAlias(r) then Alias else if isNative(r) then Native else Undocumented
  {
    var shapes := Keys(documented);
    states := map[];
    for i := 0 to |registered|
      invariant forall r :: r in states <==> r in registered[..i]
      invariant forall r :: r in states ==>
                  states[r] == if Key(r) in Keys(documented) then Documented
                               else if isAlias(r) then Alias else if isNative(r) then Native else Undocumented
    {
      var r := registered[i];
      assert registered[..i + 1] == registered[..i] + [r];
      if Key(r) in shapes {
        states := states[r := Documented];
      } else if isAlias(r) {
        states := states[r := Alias];
      } else if isNative(r) {
        states := states[r := Native];
      } else {
        states := states[r := Undocumented];
      }
    }
    assert registered[..|registered|] == registered;
  }

  /** What one gate calls served and the other calls documented are the same methods and shapes. */
  lemma GatesAgree(documented: seq<Route>, registered: seq<Route>, refused: set<Route>,
                   surface: map<Route, SurfaceState>, routes: map<Route, RouteState>)
    requires forall r :: r in surface <==> r in documented
    requires forall r :: r in surface ==>
               surface[r] == if Key(r) in Keys(registered) then Served else if r in refused then Refused else Silent
    requires forall r :: r in routes <==> r in registered
    requires forall r :: r in routes ==> (routes[r] == Documented <==> Key(r) in Keys(documented))
    ensures (set r | r in surface && surface[r] == Served :: Key(r)) == (set r | r in routes && routes[r] == Documented :: Key(r))
  {
    hide Key;
    var served := set r | r in surface && surface[r] == Served :: Key(r);
    var listed := set r | r in routes && routes[r] == Documented :: Key(r);
    forall k | k in served ensures k in listed {
      var r :| r in surface && surface[r] == Served && Key(r) == k;
      var other :| other in registered && Key(other) == k;
      assert other in routes && Key(r) in Keys(documented);
    }
    forall k | k in listed ensures k in served {
      var r :| r in routes && routes[r] == Documented && Key(r) == k;
      var other :| other in documented && Key(other) == k;
      assert other in surface && Key(r) in Keys(registered);
    }
  }
}
