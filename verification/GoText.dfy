/**
 The lexical structure of Go source text that all three comment scanners of
 this repository walk: comments, string literals, rune literals and everything
 else (sections "Comments", "Rune literals" and "String literals" of the Go
 Programming Language Specification).

 The three scanners differ in two ways only, and both differences are
 parameters here: which quoted literals they abandon at a newline (`Stops`) and
 which newlines inside a literal they count (`Credit`).
 */
module GoText {
  import opened Basics

  datatype Kind = Code | LineComment | BlockComment | Literal(quote: char)

  datatype Token = Token(kind: Kind, text: string)

  datatype Scanner = Drift | Clock | Logging

  predicate IsQuote(c: char) {
    c == '"' || c == '\'' || c == '`'
  }

  // The quotes whose literal ends at an unescaped newline.
  function Stops(scanner: Scanner): set<char> {
    match scanner
    case Drift => {'"', '\''}
    case Clock => {}
    case Logging => {'"'}
  }

  // ---------------------------------------------------------------- searching

  /** Just past the first star-slash, or the length of `s`. */
  function CloseOf(s: string): (n: nat)
    ensures n <= |s|
    ensures s != [] ==> n > 0
  {
    if |s| < 2 then |s|
    else if s[0] == '*' && s[1] == '/' then 2
    else 1 + CloseOf(s[1..])
  }

  /** How much of `s`, which follows an opening quote `q`, the literal takes. */
  function LiteralLen(s: string, q: char, stops: set<char>): (n: nat)
    ensures n <= |s|
    ensures s != [] ==> n > 0
  {
    if s == [] then 0
    else if q != '`' && s[0] == '\\' then
      if |s| == 1 then 1 else 2 + LiteralLen(s[2..], q, stops)
    else if s[0] == q || (s[0] == '\n' && q in stops) then 1
    else 1 + LiteralLen(s[1..], q, stops)
  }

  /** The newlines of a literal body that are not escaped. */
  function BareNewlines(s: string, q: char): nat {
    if s == [] then 0
    else if q != '`' && s[0] == '\\' then
      if |s| == 1 then 0 else BareNewlines(s[2..], q)
    else (if s[0] == '\n' then 1 else 0) + BareNewlines(s[1..], q)
  }

  // ------------------------------------------------------------------- tokens

  /** The token that opens `s`. Code is taken one character at a time. */
  function First(s: string, stops: set<char>): (t: Token)
    requires s != []
    ensures t.text != [] && t.text <= s
    ensures t.kind == Code ==> t.text == [s[0]] && !IsQuote(s[0])
  {
    if s[0] == '/' && |s| > 1 && s[1] == '/' then
      Token(LineComment, s[..IndexOf(s, '\n')])
    else if s[0] == '/' && |s| > 1 && s[1] == '*' then
      Token(BlockComment, s[..2 + CloseOf(s[2..])])
    else if IsQuote(s[0]) then
      Token(Literal(s[0]), s[..1 + LiteralLen(s[1..], s[0], stops)])
    else
      Token(Code, [s[0]])
  }

  function Tokens(s: string, stops: set<char>): seq<Token> {
    if s == [] then []
    else var t := First(s, stops); [t] + Tokens(s[|t.text|..], stops)
  }

  /** The kind of the token that holds character `p`. */
  function KindAt(s: string, p: nat, stops: set<char>): Kind
    requires p < |s|
    decreases |s|
  {
    var t := First(s, stops);
    if p < |t.text| then t.kind else KindAt(s[|t.text|..], p - |t.text|, stops)
  }

  /** The lines a scanner moves on by when it passes a token. */
  function Credit(scanner: Scanner, t: Token): nat {
    match t.kind
    case Literal(q) =>
      if q == '`' || scanner == Clock then Newlines(t.text)
      else if scanner == Drift && t.text != [] then BareNewlines(t.text[1..], q)
      else 0
    case _ => Newlines(t.text)
  }

  // --------------------------------------------------- when the scanners agree

  /** Every interpreted string and rune closes on its own line. */
  predicate Tidy(s: string) {
    forall t :: t in Tokens(s, {}) && t.kind.Literal? && t.kind.quote != '`' ==> '\n' !in t.text
  }

  /** A literal body holds an unescaped newline with text behind it. */
  predicate BareInside(s: string, q: char) {
    if s == [] || s[0] == q then false
    else if s[0] == '\\' then |s| > 1 && BareInside(s[2..], q)
    else if s[0] == '\n' then |s| > 1
    else BareInside(s[1..], q)
  }

  /** No interpreted string or rune runs over an unescaped newline. */
  predicate Unbroken(s: string)
  {
    if s == [] then true
    else
      var t := First(s, {});
      && (t.kind == Literal('"') || t.kind == Literal('\'') ==> !BareInside(s[1..], s[0]))
      && Unbroken(s[|t.text|..])
  }

  /** Tokens tile the text: nothing is dropped, nothing is read twice. */
  function Text(ts: seq<Token>): string {
    if ts == [] then [] else ts[0].text + Text(ts[1..])
  }

  lemma {:induction false} TokensTile(s: string, stops: set<char>)
    ensures Text(Tokens(s, stops)) == s
    decreases |s|
  {
    if s != [] {
      var t := First(s, stops);
      TokensTile(s[|t.text|..], stops);
      assert Tokens(s, stops)[1..] == Tokens(s[|t.text|..], stops);
      assert s == t.text + s[|t.text|..];
    }
  }

  // A stop set changes a literal exactly when it has a bare newline inside.
  lemma {:induction false} StopMatters(s: string, q: char)
    requires q != '`' && q != '\n' && q != '\\'
    ensures LiteralLen(s, q, {q}) == LiteralLen(s, q, {}) <==> !BareInside(s, q)
    decreases |s|
  {
    if s == [] || s[0] == q {
    } else if s[0] == '\\' {
      if |s| > 1 { StopMatters(s[2..], q); }
    } else if s[0] == '\n' {
      assert |s| > 1 ==> LiteralLen(s[1..], q, {}) > 0;
    } else {
      StopMatters(s[1..], q);
    }
  }

  lemma {:induction false} StopIsLocal(s: string, q: char, stops: set<char>)
    ensures LiteralLen(s, q, stops) == LiteralLen(s, q, if q in stops then {q} else {})
    decreases |s|
  {
    if s != [] {
      if q != '`' && s[0] == '\\' {
        if |s| > 1 { StopIsLocal(s[2..], q, stops); }
      } else if !(s[0] == q || (s[0] == '\n' && q in stops)) {
        StopIsLocal(s[1..], q, stops);
      }
    }
  }

  /** On text with no broken literal, no choice of stops matters. */
  lemma {:induction false} UnbrokenTokens(s: string, stops: set<char>)
    requires Unbroken(s) && '`' !in stops
    ensures Tokens(s, stops) == Tokens(s, {})
    decreases |s|
  {
    if s != [] {
      if IsQuote(s[0]) {
        StopIsLocal(s[1..], s[0], stops);
        if s[0] != '`' { StopMatters(s[1..], s[0]); }
      }
      assert First(s, stops) == First(s, {});
      UnbrokenTokens(s[|First(s, {}).text|..], stops);
    }
  }

  /**
   The comment-drift scanner and the comment blanker cut a text into the same
   tokens exactly when no interpreted string or rune runs over an unescaped
   newline; and then so does the logging scanner.
   */
  lemma ScannersAgree(s: string)
    ensures Tokens(s, Stops(Drift)) == Tokens(s, Stops(Clock)) <==> Unbroken(s)
    ensures Unbroken(s) ==> Tokens(s, Stops(Logging)) == Tokens(s, Stops(Clock))
  {
    if Unbroken(s) {
      UnbrokenTokens(s, Stops(Drift));
      UnbrokenTokens(s, Stops(Logging));
    } else {
      BrokenTokens(s);
    }
  }

  lemma {:induction false} BrokenTokens(s: string)
    requires !Unbroken(s)
    ensures Tokens(s, Stops(Drift)) != Tokens(s, Stops(Clock))
    decreases |s|
  {
    var t, u := First(s, Stops(Clock)), First(s, Stops(Drift));
    assert Tokens(s, Stops(Clock))[0] == t && Tokens(s, Stops(Drift))[0] == u;
    if IsQuote(s[0]) {
      StopIsLocal(s[1..], s[0], Stops(Drift));
      if s[0] != '`' { StopMatters(s[1..], s[0]); }
    }
    if t == u {
      BrokenTokens(s[|t.text|..]);
      assert Tokens(s, Stops(Clock))[1..] == Tokens(s[|t.text|..], Stops(Clock));
      assert Tokens(s, Stops(Drift))[1..] == Tokens(s[|t.text|..], Stops(Drift));
    }
  }

  /** Equal tokens give every character the same kind. */
  lemma {:induction false} SameKinds(s: string, p: nat, stops: set<char>)
    requires Tokens(s, stops) == Tokens(s, {}) && p < |s|
    ensures KindAt(s, p, stops) == KindAt(s, p, {})
    decreases |s|
  {
    var t := First(s, {});
    assert Tokens(s, {})[0] == t && Tokens(s, stops)[0] == First(s, stops);
    assert Tokens(s, {})[1..] == Tokens(s[|t.text|..], {});
    assert Tokens(s, stops)[1..] == Tokens(s[|t.text|..], stops);
    if p >= |t.text| {
      SameKinds(s[|t.text|..], p - |t.text|, stops);
    }
  }

  /** Tidy text is unbroken, so the scanners agree on it ... */
  lemma {:induction false} TidyIsUnbroken(s: string)
    requires Tidy(s)
    ensures Unbroken(s)
    decreases |s|
  {
    if s != [] {
      var t := First(s, {});
      var rest := s[|t.text|..];
      assert Tokens(s, {}) == [t] + Tokens(rest, {});
      assert t in Tokens(s, {});
      forall u | u in Tokens(rest, {}) ensures u in Tokens(s, {}) {}
      TidyIsUnbroken(rest);
      if t.kind == Literal('"') || t.kind == Literal('\'') {
        assert forall k :: 0 <= k < |t.text| ==> s[k] == t.text[k] && s[k] != '\n';
        NoBareInside(s[1..], s[0]);
      }
    }
  }

  lemma {:induction false} NoBareInside(s: string, q: char)
    requires q != '`'
    requires forall k :: 0 <= k < LiteralLen(s, q, {}) ==> s[k] != '\n'
    ensures !BareInside(s, q)
    decreases |s|
  {
    if s == [] || s[0] == q {
    } else if s[0] == '\\' {
      if |s| > 1 {
        assert forall k :: 0 <= k < LiteralLen(s[2..], q, {}) ==> s[2..][k] == s[k + 2];
        NoBareInside(s[2..], q);
      }
    } else {
      assert s[0] != '\n';
      assert forall k :: 0 <= k < LiteralLen(s[1..], q, {}) ==> s[1..][k] == s[k + 1];
      NoBareInside(s[1..], q);
    }
  }

  /** ... and on a literal without newlines every scanner counts the same lines. */
  lemma TidyCredit(scanner: Scanner, t: Token)
    requires t.kind.Literal? && t.kind.quote != '`' ==> '\n' !in t.text
    ensures Credit(scanner, t) == Newlines(t.text)
  {
    if t.kind.Literal? && t.kind.quote != '`' {
      NoNewlines(t.text);
      if t.text != [] { NoBareNewlines(t.text[1..], t.kind.quote); }
    }
  }

  lemma {:induction false} NoBareNewlines(s: string, q: char)
    requires '\n' !in s
    ensures BareNewlines(s, q) == 0
    decreases |s|
  {
    if s != [] {
      if q != '`' && s[0] == '\\' {
        if |s| > 1 { NoBareNewlines(s[2..], q); }
      } else {
        NoBareNewlines(s[1..], q);
      }
    }
  }
}
