/**
 The four-state comment blanker that runs before the day-boundary checker reads
 a Go test file: comments go, newlines stay, string literals survive intact.
 */
module ClockFlakiness {
  import opened Basics
  import opened GoText

  /** The newlines of `s` and nothing else. */
  function OnlyNewlines(s: string): (r: string)
    ensures |r| <= |s|
  {
    if s == [] then [] else (if s[0] == '\n' then "\n" else "") + OnlyNewlines(s[1..])
  }

  lemma {:induction false} OnlyNewlinesAre(s: string)
    ensures forall c :: c in OnlyNewlines(s) ==> c == '\n'
  {
    if s != [] { OnlyNewlinesAre(s[1..]); }
  }

  predicate IsComment(t: Token) {
    t.kind == LineComment || t.kind == BlockComment
  }

  function Kept(t: Token): string {
    if IsComment(t) then OnlyNewlines(t.text) else t.text
  }

  /** What is left of a token list once its comments are reduced to newlines. */
  function Blank(ts: seq<Token>): string {
    if ts == [] then [] else Kept(ts[0]) + Blank(ts[1..])
  }

  function Blanked(s: string): string {
    Blank(Tokens(s, Stops(Clock)))
  }

  // ------------------------------------------------------- the state machine

  datatype State = InCode | InLine | InBlock | InLiteral(quote: char)

  /** What the machine still writes when it stands in `state` before `s`. */
  ghost function Remaining(state: State, s: string): string {
    match state
    case InCode => Blanked(s)
    case InLine => Blanked(s[IndexOf(s, '\n')..])
    case InBlock => OnlyNewlines(s[..CloseOf(s)]) + Blanked(s[CloseOf(s)..])
    case InLiteral(q) =>
      var n := LiteralLen(s, q, Stops(Clock));
      s[..n] + Blanked(s[n..])
  }

  lemma BlankedUnfolds(s: string)
    requires s != []
    ensures var t := First(s, Stops(Clock)); Blanked(s) == Kept(t) + Blanked(s[|t.text|..])
  {
    var t := First(s, Stops(Clock));
    assert Tokens(s, Stops(Clock))[1..] == Tokens(s[|t.text|..], Stops(Clock));
  }

  lemma {:induction false} OnlyNewlinesOfLine(s: string)
    requires '\n' !in s
    ensures OnlyNewlines(s) == []
  {
    if s != [] { OnlyNewlinesOfLine(s[1..]); }
  }

  lemma {:induction false} OnlyNewlinesOfConcat(a: string, b: string)
    ensures OnlyNewlines(a + b) == OnlyNewlines(a) + OnlyNewlines(b)
  {
    if a == [] {
      assert a + b == b;
    } else {
      OnlyNewlinesOfConcat(a[1..], b);
      assert (a + b)[1..] == a[1..] + b && (a + b)[0] == a[0];
      Associate(if a[0] == '\n' then "\n" else "", OnlyNewlines(a[1..]), OnlyNewlines(b));
    }
  }

  // Cutting a text in two places, and writing in two pieces.
  lemma Cut(s: string, k: nat, n: nat, r: string)
    requires k + n <= |s|
    ensures s[k + n..] == s[k..][n..]
    ensures s[..k + n] + r == s[..k] + (s[k..][..n] + r)
  {}

  lemma LiteralUnfold(s: string, q: char)
    requires s != []
    ensures LiteralLen(s, q, Stops(Clock)) ==
            if q != '`' && s[0] == '\\' then if |s| == 1 then 1 else 2 + LiteralLen(s[2..], q, Stops(Clock))
            else if s[0] == q || (s[0] == '\n' && q in Stops(Clock)) then 1
            else 1 + LiteralLen(s[1..], q, Stops(Clock))
  {}

  lemma NoLiteral(q: char)
    ensures LiteralLen([], q, Stops(Clock)) == 0
  {}

  // Entering a state.
  lemma EnterLine(s: string)
    requires |s| > 1 && s[0] == '/' && s[1] == '/'
    ensures Blanked(s) == Remaining(InLine, s[2..])
  {
    BlankedUnfolds(s);
    var n := IndexOf(s, '\n');
    assert n == 1 + IndexOf(s[1..], '\n') && s[1..][1..] == s[2..];
    assert n == 2 + IndexOf(s[2..], '\n');
    assert s[n..] == s[2..][n - 2..];
    IndexOfIsFirst(s, '\n');
    OnlyNewlinesOfLine(s[..n]);
  }

  lemma EnterBlock(s: string)
    requires |s| > 1 && s[0] == '/' && s[1] == '*'
    ensures Blanked(s) == Remaining(InBlock, s[2..])
  {
    hide Blanked, OnlyNewlines, CloseOf, LiteralLen, IndexOf;
    BlankedUnfolds(s);
    var n := CloseOf(s[2..]);
    BlockOpens(s);
    assert s[..2 + n] == s[..2] + s[2..][..n] && s[2 + n..] == s[2..][n..];
    OnlyNewlinesOfConcat(s[..2], s[2..][..n]);
    OnlyNewlinesOfLine(s[..2]);
  }

  lemma BlockOpens(s: string)
    requires |s| > 1 && s[0] == '/' && s[1] == '*'
    ensures First(s, Stops(Clock)) == Token(BlockComment, s[..2 + CloseOf(s[2..])])
  {
    hide CloseOf, LiteralLen, IndexOf;
  }

  lemma EnterLiteral(s: string)
    requires s != [] && IsQuote(s[0])
    ensures Blanked(s) == [s[0]] + Remaining(InLiteral(s[0]), s[1..])
  {
    hide Blanked, OnlyNewlines, CloseOf, LiteralLen, IndexOf, Stops;
    BlankedUnfolds(s);
    var n := LiteralLen(s[1..], s[0], Stops(Clock));
    assert First(s, Stops(Clock)) == Token(Literal(s[0]), s[..1 + n]);
    Cut(s, 1, n, Blanked(s[1 + n..]));
    assert s[..1] == [s[0]];
  }

  lemma StayInCode(s: string)
    requires s != [] && First(s, Stops(Clock)).kind == Code
    ensures Blanked(s) == [s[0]] + Blanked(s[1..])
  {
    BlankedUnfolds(s);
  }

  // One character inside a comment or a literal.
  lemma InsideLine(s: string)
    requires s != []
    ensures
      if s[0] == '\n' then Remaining(InLine, s) == [s[0]] + Blanked(s[1..])
      else Remaining(InLine, s) == Remaining(InLine, s[1..])
  {
    if s[0] == '\n' {
      assert s[0..] == s;
      StayInCode(s);
    } else {
      assert s[IndexOf(s, '\n')..] == s[1..][IndexOf(s[1..], '\n')..];
    }
  }

  lemma InsideBlock(s: string)
    requires s != []
    ensures
      if |s| > 1 && s[0] == '*' && s[1] == '/' then Remaining(InBlock, s) == Blanked(s[2..])
      else Remaining(InBlock, s) == OnlyNewlines([s[0]]) + Remaining(InBlock, s[1..])
  {
    hide Blanked, OnlyNewlines;
    var n := CloseOf(s);
    if |s| > 1 && s[0] == '*' && s[1] == '/' {
      OnlyNewlinesOfLine(s[..2]);
    } else {
      if |s| == 1 {
        assert s[1..] == [];
      }
      assert n == 1 + CloseOf(s[1..]);
      assert s[..n] == [s[0]] + s[1..][..n - 1] && s[n..] == s[1..][n - 1..];
      OnlyNewlinesOfConcat([s[0]], s[1..][..n - 1]);
      Associate(OnlyNewlines([s[0]]), OnlyNewlines(s[1..][..n - 1]), Blanked(s[n..]));
    }
  }

  lemma InsideEscape(q: char, s: string)
    requires |s| > 1 && q != '`' && s[0] == '\\'
    ensures Remaining(InLiteral(q), s) == s[..2] + Remaining(InLiteral(q), s[2..])
  {
    hide Blanked, IndexOf, CloseOf, OnlyNewlines, LiteralLen;
    LiteralUnfold(s, q);
    var n := LiteralLen(s, q, Stops(Clock));
    Cut(s, 2, n - 2, Blanked(s[n..]));
  }

  lemma InsideLiteral(q: char, s: string)
    requires s != [] && !(|s| > 1 && q != '`' && s[0] == '\\')
    ensures Remaining(InLiteral(q), s) == [s[0]] + Remaining(if s[0] == q then InCode else InLiteral(q), s[1..])
  {
    hide Blanked, IndexOf, CloseOf, OnlyNewlines, LiteralLen;
    LiteralUnfold(s, q);
    var n := LiteralLen(s, q, Stops(Clock));
    assert s[..1] == [s[0]];
    if s[0] == q {
      assert n == 1;
    } else {
      if |s| == 1 {
        assert s[1..] == [];
        NoLiteral(q);
      }
      Cut(s, 1, n - 1, Blanked(s[n..]));
    }
  }

  // One turn of the loop: what is written, where the scan goes on, in which state.
  function Turn(state: State, s: string): (r: (string, nat, State))
    requires s != []
    ensures 0 < r.1 <= |s|
  {
    var opens := |s| > 1 && s[0] == '/';
    match state
    case InCode =>
      if opens && s[1] == '/' then ([], 2, InLine)
      else if opens && s[1] == '*' then ([], 2, InBlock)
      else ([s[0]], 1, if IsQuote(s[0]) then InLiteral(s[0]) else InCode)
    case InLine =>
      if s[0] == '\n' then ([s[0]], 1, InCode) else ([], 1, InLine)
    case InBlock =>
      if |s| > 1 && s[0] == '*' && s[1] == '/' then ([], 2, InCode)
      else (OnlyNewlines([s[0]]), 1, InBlock)
    case InLiteral(q) =>
      if |s| > 1 && q != '`' && s[0] == '\\' then (s[..2], 2, state)
      else ([s[0]], 1, if s[0] == q then InCode else state)
  }

  lemma TurnKeeps(state: State, s: string)
    requires s != []
    ensures var (w, k, next) := Turn(state, s); Remaining(state, s) == w + Remaining(next, s[k..])
  {
    match state
    case InCode =>
      if |s| > 1 && s[0] == '/' && s[1] == '/' { EnterLine(s); }
      else if |s| > 1 && s[0] == '/' && s[1] == '*' { EnterBlock(s); }
      else if IsQuote(s[0]) { EnterLiteral(s); }
      else { StayInCode(s); }
    case InLine => InsideLine(s);
    case InBlock => InsideBlock(s);
    case InLiteral(q) =>
      if |s| > 1 && q != '`' && s[0] == '\\' { InsideEscape(q, s); } else { InsideLiteral(q, s); }
  }

  /** Everything the machine writes from `state` on. */
  function Run(state: State, s: string): string
    decreases |s|
  {
    if s == [] then []
    else var (w, k, next) := Turn(state, s); w + Run(next, s[k..])
  }

  /** The character machine and the tokens of the reference lexer say the same. */
  lemma {:induction false} RunIsRemaining(state: State, s: string)
    ensures Run(state, s) == Remaining(state, s)
    decreases |s|
  {
    if s == [] {
      assert IndexOf(s, '\n') == CloseOf(s) == 0;
    } else {
      var (w, k, next) := Turn(state, s);
      TurnKeeps(state, s);
      RunIsRemaining(next, s[k..]);
    }
  }

  lemma RunIsBlanked(text: string)
    ensures Run(InCode, text) == Blanked(text)
  {
    RunIsRemaining(InCode, text);
  }

  // The loop invariant, and the turn of the loop that keeps it.
  ghost predicate Upto(text: string, out: string, state: State, i: nat) {
    i <= |text| && Run(InCode, text) == out + Run(state, text[i..])
  }

  lemma UptoTurn(text: string, out: string, state: State, i: nat, w: string, k: nat, next: State)
    requires i < |text| && Upto(text, out, state, i)
    requires Turn(state, text[i..]) == (w, k, next)
    ensures Upto(text, out + w, next, i + k)
  {
    assert text[i..][k..] == text[i + k..];
    Associate(out, w, Run(next, text[i + k..]));
  }

  lemma UptoStarts(text: string)
    ensures Upto(text, [], InCode, 0)
  {
    assert text[0..] == text;
  }

  lemma UptoEnds(text: string, out: string, state: State, i: nat)
    requires Upto(text, out, state, i) && i >= |text|
    ensures out == Run(InCode, text)
  {
    assert text[i..] == [];
  }

  // The two characters at `i` are `a` and `b`.
  predicate Pair(text: string, i: nat, a: char, b: char) {
    i + 1 < |text| && text[i] == a && text[i + 1] == b
  }

  // What a turn sees of the rest of the text.
  lemma TurnReads(text: string, i: nat)
    requires i < |text|
    ensures var s := text[i..];
            s[0] == text[i] && (i + 1 < |text| ==> |s| > 1 && s[1] == text[i + 1] && s[..2] == text[i..i + 2])
  {}

  method StripGoComments(text: string) returns (out: string)
    ensures out == Blanked(text)
  {
    hide Upto, Run, Blanked;
    out := [];
    var i, n := 0, |text|;
    var state := InCode;
    UptoStarts(text);
    while i < n
      invariant Upto(text, out, state, i)
    {
      var c := text[i];
      ghost var from, was, written := i, state, out;
      if state == InCode {
        if Pair(text, i, '/', '/') {
          state, i := InLine, i + 2;
        } else if Pair(text, i, '/', '*') {
          state, i := InBlock, i + 2;
        } else {
          if c == '"' || c == '`' || c == '\'' {
            state := InLiteral(c);
          }
          out, i := out + [c], i + 1;
        }
      } else if state == InLine || state == InBlock {
        if state == InLine && c == '\n' {
          state, out, i := InCode, out + [c], i + 1;
        } else if state == InBlock && Pair(text, i, '*', '/') {
          state, i := InCode, i + 2;
        } else {
          if c == '\n' { out := out + [c]; }
          i := i + 1;
        }
      } else if state.quote != '`' && c == '\\' && i + 1 < n {
        out, i := out + text[i..i + 2], i + 2;
      } else {
        if c == state.quote { state := InCode; }
        out, i := out + [c], i + 1;
      }
      ghost var w := Turn(was, text[from..]).0;
      TurnReads(text, from);
      assert out == written + w;
      UptoTurn(text, written, was, from, w, i - from, state);
    }
    UptoEnds(text, out, state, i);
    RunIsBlanked(text);
  }

  // -------------------------------------------- what blanking does to any text

  /** `a` is what is left of `b` after dropping some of its characters. */
  ghost predicate Subsequence(a: string, b: string) {
    a == [] || (b != [] && ((a[0] == b[0] && Subsequence(a[1..], b[1..])) || Subsequence(a, b[1..])))
  }

  lemma {:induction false} SubsequenceOfConcat(a: string, b: string, c: string, d: string)
    requires Subsequence(a, b) && Subsequence(c, d)
    ensures Subsequence(a + c, b + d)
    decreases |b|
  {
    if b == [] {
      assert a + c == c && b + d == d;
    } else {
      assert (b + d)[1..] == b[1..] + d;
      if a != [] && a[0] == b[0] && Subsequence(a[1..], b[1..]) {
        SubsequenceOfConcat(a[1..], b[1..], c, d);
        assert (a + c)[1..] == a[1..] + c;
      } else {
        SubsequenceOfConcat(a, b[1..], c, d);
        if a + c != [] { assert Subsequence(a + c, (b + d)[1..]); }
      }
    }
  }

  lemma {:induction false} SubsequenceOfSelf(a: string)
    ensures Subsequence(a, a)
  {
    if a != [] { SubsequenceOfSelf(a[1..]); }
  }

  lemma {:induction false} NewlinesOnly(s: string)
    ensures Subsequence(OnlyNewlines(s), s)
    ensures Newlines(OnlyNewlines(s)) == Newlines(s)
  {
    if s != [] {
      NewlinesOnly(s[1..]);
      if s[0] == '\n' {
        assert OnlyNewlines(s)[1..] == OnlyNewlines(s[1..]);
      } else {
        assert OnlyNewlines(s) == OnlyNewlines(s[1..]);
      }
    }
  }

  /** Newline for newline: no line below a comment moves. */
  lemma {:induction false} KeepsNewlines(s: string)
    ensures Newlines(Blanked(s)) == Newlines(s)
    decreases |s|
  {
    if s != [] {
      var t := First(s, Stops(Clock));
      var rest := s[|t.text|..];
      BlankedUnfolds(s);
      KeepsNewlines(rest);
      NewlinesOnly(t.text);
      NewlinesOfConcat(Kept(t), Blanked(rest));
      NewlinesOfConcat(t.text, rest);
      assert s == t.text + rest;
    }
  }

  /** Characters are dropped, never invented or moved. */
  lemma {:induction false} OnlyDrops(s: string)
    ensures Subsequence(Blanked(s), s)
    decreases |s|
  {
    if s != [] {
      var t := First(s, Stops(Clock));
      var rest := s[|t.text|..];
      BlankedUnfolds(s);
      OnlyDrops(rest);
      NewlinesOnly(t.text);
      SubsequenceOfSelf(t.text);
      SubsequenceOfConcat(Kept(t), t.text, Blanked(rest), rest);
      assert s == t.text + rest;
    }
  }

  // --------------------------------- the output, read again, has no comment left

  function AsCode(newlines: string): seq<Token> {
    if newlines == [] then [] else [Token(Code, [newlines[0]])] + AsCode(newlines[1..])
  }

  /** The tokens a text keeps, each comment replaced by its newlines. */
  function Survivors(ts: seq<Token>): seq<Token> {
    if ts == [] then []
    else (if IsComment(ts[0]) then AsCode(OnlyNewlines(ts[0].text)) else [ts[0]]) + Survivors(ts[1..])
  }

  lemma ReadNewline(b: string)
    ensures Tokens("\n" + b, Stops(Clock)) == [Token(Code, "\n")] + Tokens(b, Stops(Clock))
  {
    assert ("\n" + b)[1..] == b;
    assert First("\n" + b, Stops(Clock)) == Token(Code, "\n");
  }

  lemma {:induction false} ReadNewlines(a: string, b: string)
    requires forall c :: c in a ==> c == '\n'
    ensures Tokens(a + b, Stops(Clock)) == AsCode(a) + Tokens(b, Stops(Clock))
  {
    hide Tokens, First, AsCode;
    NewlinesUnfold(a);
    if a == [] {
      assert a + b == b && AsCode(a) + Tokens(b, Stops(Clock)) == Tokens(b, Stops(Clock));
    } else {
      ReadNewlines(a[1..], b);
      ReadNewline(a[1..] + b);
      Associate("\n", a[1..], b);
      Associate([Token(Code, "\n")], AsCode(a[1..]), Tokens(b, Stops(Clock)));
    }
  }

  lemma NewlinesUnfold(a: string)
    requires forall c :: c in a ==> c == '\n'
    ensures a == [] ==> AsCode(a) == []
    ensures a != [] ==> AsCode(a) == [Token(Code, "\n")] + AsCode(a[1..]) && a == "\n" + a[1..]
    ensures a != [] ==> forall c :: c in a[1..] ==> c == '\n'
  {
    if a != [] {
      assert a[0] in a && [a[0]] == "\n";
      assert forall c :: c in a[1..] ==> c in a;
    }
  }

  // A literal ends where it ended before, whatever now follows it.
  lemma {:induction false} LiteralKept(s: string, q: char, after: string)
    ensures var n := LiteralLen(s, q, Stops(Clock));
            (n < |s| || after == []) ==> LiteralLen(s[..n] + after, q, Stops(Clock)) == n
    decreases |s|
  {
    hide IndexOf, CloseOf, OnlyNewlines, Blanked, LiteralLen, Stops;
    var n := LiteralLen(s, q, Stops(Clock));
    if s != [] && (n < |s| || after == []) {
      LiteralUnfold(s, q);
      var out := s[..n] + after;
      assert out[0] == s[0];
      LiteralUnfold(out, q);
      if q != '`' && s[0] == '\\' {
        if |s| > 1 {
          LiteralKept(s[2..], q, after);
          assert out[2..] == s[2..][..n - 2] + after;
        }
      } else if s[0] != q && !(s[0] == '\n' && q in Stops(Clock)) {
        LiteralKept(s[1..], q, after);
        assert out[1..] == s[1..][..n - 1] + after;
      }
    } else if s == [] {
      NoLiteral(q);
    }
  }

  // Removing a comment never joins a slash to a slash or a star.
  lemma SlashStaysAlone(s: string)
    requires s != [] && First(s, Stops(Clock)).kind == Code && s[0] == '/'
    ensures Blanked(s[1..]) == [] || Blanked(s[1..])[0] !in "/*"
  {
    var rest := s[1..];
    if rest != [] {
      assert rest[0] == s[1] && rest[0] !in "/*";
      if IsQuote(rest[0]) { EnterLiteral(rest); } else { StayInCode(rest); }
    }
  }

  // The token in front of a text is found again in front of the blanked text.
  lemma BlankedNothing()
    ensures Blanked([]) == []
  {}

  lemma FirstKept(s: string)
    requires s != [] && !IsComment(First(s, Stops(Clock)))
    ensures var t := First(s, Stops(Clock));
            Blanked(s) != [] && First(Blanked(s), Stops(Clock)) == t
            && Blanked(s)[|t.text|..] == Blanked(s[|t.text|..])
  {
    hide Blanked, LiteralLen, IndexOf, CloseOf, OnlyNewlines;
    var t := First(s, Stops(Clock));
    var out := Blanked(s[|t.text|..]);
    BlankedUnfolds(s);
    assert Blanked(s) == t.text + out && Blanked(s)[0] == s[0];
    if t.kind == Code {
      if s[0] == '/' { SlashStaysAlone(s); }
    } else {
      if s[|t.text|..] == [] { BlankedNothing(); }
      LiteralKept(s[1..], s[0], out);
      assert t.text == [s[0]] + s[1..][..|t.text| - 1];
      assert Blanked(s)[1..] == s[1..][..|t.text| - 1] + out;
    }
  }

  lemma {:induction false} ReadAgain(s: string)
    ensures Tokens(Blanked(s), Stops(Clock)) == Survivors(Tokens(s, Stops(Clock)))
    decreases |s|
  {
    if s != [] {
      var t := First(s, Stops(Clock));
      var rest := s[|t.text|..];
      ReadAgain(rest);
      assert Tokens(s, Stops(Clock))[1..] == Tokens(rest, Stops(Clock));
      if IsComment(t) {
        BlankedUnfolds(s);
        OnlyNewlinesAre(t.text);
        ReadNewlines(OnlyNewlines(t.text), Blanked(rest));
      } else {
        FirstKept(s);
      }
    }
  }

  lemma {:induction false} SurvivorsAreNoComments(ts: seq<Token>)
    ensures forall t :: t in Survivors(ts) ==> !IsComment(t)
  {
    if ts != [] {
      SurvivorsAreNoComments(ts[1..]);
      if IsComment(ts[0]) { AsCodeIsCode(OnlyNewlines(ts[0].text)); }
    }
  }

  lemma {:induction false} AsCodeIsCode(s: string)
    ensures forall t :: t in AsCode(s) ==> t.kind == Code
  {
    if s != [] { AsCodeIsCode(s[1..]); }
  }

  lemma {:induction false} BlankKeepsTheRest(ts: seq<Token>)
    requires forall t :: t in ts ==> !IsComment(t)
    ensures Blank(ts) == Text(ts)
  {
    if ts != [] { BlankKeepsTheRest(ts[1..]); }
  }

  /** Blanking leaves no comment behind, so blanking twice is blanking once. */
  lemma Idempotent(s: string)
    ensures forall t :: t in Tokens(Blanked(s), Stops(Clock)) ==> !IsComment(t)
    ensures Blanked(Blanked(s)) == Blanked(s)
  {
    ReadAgain(s);
    SurvivorsAreNoComments(Tokens(s, Stops(Clock)));
    BlankKeepsTheRest(Tokens(Blanked(s), Stops(Clock)));
    TokensTile(Blanked(s), Stops(Clock));
  }

  /** The literals of a text come through unchanged and in order. */
  function Literals(ts: seq<Token>): seq<Token> {
    if ts == [] then []
    else (if ts[0].kind.Literal? then [ts[0]] else []) + Literals(ts[1..])
  }

  lemma KeepsLiterals(s: string)
    ensures Literals(Tokens(Blanked(s), Stops(Clock))) == Literals(Tokens(s, Stops(Clock)))
  {
    ReadAgain(s);
    SurvivingLiterals(Tokens(s, Stops(Clock)));
  }

  lemma {:induction false} SurvivingLiterals(ts: seq<Token>)
    ensures Literals(Survivors(ts)) == Literals(ts)
  {
    if ts != [] {
      SurvivingLiterals(ts[1..]);
      var head := if IsComment(ts[0]) then AsCode(OnlyNewlines(ts[0].text)) else [ts[0]];
      LiteralsOfConcat(head, Survivors(ts[1..]));
      if IsComment(ts[0]) { NoLiterals(OnlyNewlines(ts[0].text)); }
    }
  }

  lemma {:induction false} NoLiterals(s: string)
    ensures Literals(AsCode(s)) == []
  {
    if s != [] { NoLiterals(s[1..]); assert AsCode(s)[1..] == AsCode(s[1..]); }
  }

  lemma {:induction false} LiteralsOfConcat(a: seq<Token>, b: seq<Token>)
    ensures Literals(a + b) == Literals(a) + Literals(b)
  {
    if a == [] {
      assert a + b == b;
    } else {
      LiteralsOfConcat(a[1..], b);
      assert (a + b)[1..] == a[1..] + b && (a + b)[0] == a[0];
      Associate(if a[0].kind.Literal? then [a[0]] else [], Literals(a[1..]), Literals(b));
    }
  }
}
