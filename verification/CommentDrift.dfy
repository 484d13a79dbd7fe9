/**
 The line-tracking scanner that hands every Go comment, line by line, to the
 comment-drift checker.
 */
module CommentDrift {
  import opened Basics
  import opened GoText
  import ClockFlakiness

  /** One line of comment: its line number, its text, and the offsets scanned for it. */
  datatype Span = Span(line: nat, body: string, from: nat, to: nat)

  /** A block comment, split at its newlines. */
  function Chunks(s: string, at: nat, line: nat): seq<Span>
    decreases |s|
  {
    var n := IndexOf(s, '\n');
    var head := Span(line, s[..n], at, at + n);
    if n < |s| then [head] + Chunks(s[n + 1..], at + n + 1, line + 1) else [head]
  }

  function SpansOf(t: Token, at: nat, line: nat): seq<Span> {
    match t.kind
    case LineComment => if |t.text| < 2 then [] else [Span(line, t.text[2..], at, at + |t.text|)]
    case BlockComment => Chunks(t.text, at, line)
    case _ => []
  }

  /** The comment lines of `s`, which stands at offset `at` on line `line`. */
  function SpansFrom(s: string, at: nat, line: nat): seq<Span>
    decreases |s|
  {
    if s == [] then []
    else
      var t := First(s, Stops(Drift));
      SpansOf(t, at, line) + SpansFrom(s[|t.text|..], at + |t.text|, line + Credit(Drift, t))
  }

  function Spans(text: string): seq<Span> {
    SpansFrom(text, 0, 1)
  }

  // ------------------------------------------------------------- the scanner

  // What is left of the text; an escape on the last character overshoots it.
  function Rest(text: string, i: nat): string {
    if i <= |text| then text[i..] else []
  }

  ghost predicate Upto(text: string, spans: seq<Span>, i: nat, line: nat) {
    Spans(text) == spans + SpansFrom(Rest(text, i), i, line)
  }

  lemma SpansUnfold(s: string, at: nat, line: nat)
    requires s != []
    ensures var t := First(s, Stops(Drift));
            SpansFrom(s, at, line)
            == SpansOf(t, at, line) + SpansFrom(s[|t.text|..], at + |t.text|, line + Credit(Drift, t))
  {}

  lemma NoSpans(at: nat, line: nat)
    ensures SpansFrom([], at, line) == []
  {}

  lemma UptoToken(text: string, spans: seq<Span>, i: nat, line: nat, more: seq<Span>, j: nat, next: nat)
    requires i < |text| && Upto(text, spans, i, line)
    requires more == SpansOf(At(text, i), i, line) && next == line + Credit(Drift, At(text, i))
    requires j == i + |At(text, i).text| || (j > |text| && i + |At(text, i).text| == |text|)
    ensures Upto(text, spans + more, j, next)
  {
    hide SpansFrom, SpansOf, First, Credit;
    var k := i + |At(text, i).text|;
    assert text[i..][k - i..] == text[k..];
    SpansUnfold(text[i..], i, line);
    Associate(spans, more, SpansFrom(text[k..], k, next));
    if j > |text| {
      assert text[k..] == [] == Rest(text, j);
      NoSpans(k, next);
      NoSpans(j, next);
    }
  }

  lemma {:induction false} RawBareNewlines(s: string)
    ensures BareNewlines(s, '`') == Newlines(s)
  {
    if s != [] { RawBareNewlines(s[1..]); }
  }

  lemma LiteralCredit(s: string)
    requires s != [] && IsQuote(s[0])
    ensures var t := First(s, Stops(Drift));
            && t.kind == Literal(s[0]) && |t.text| == 1 + LiteralLen(s[1..], s[0], Stops(Drift))
            && t.text[1..] == s[1..][..|t.text| - 1]
            && Credit(Drift, t) == BareNewlines(s[1..][..|t.text| - 1], s[0])
  {
    var t := First(s, Stops(Drift));
    assert t.text[1..] == s[1..][..|t.text| - 1];
    if s[0] == '`' {
      assert t.text == [s[0]] + t.text[1..];
      RawBareNewlines(t.text[1..]);
    }
  }

  // Inside a literal: it ends at `end`, where the line counter will read `target`.
  ghost predicate InLiteral(text: string, q: char, i: nat, line: nat, end: nat, target: nat) {
    if i <= |text| then
      && end == i + LiteralLen(text[i..], q, Stops(Drift))
      && target == line + BareNewlines(text[i..][..end - i], q)
    else end == |text| && target == line
  }

  lemma LiteralStep(text: string, q: char, i: nat, line: nat, end: nat, target: nat)
    requires i < |text| && IsQuote(q) && InLiteral(text, q, i, line, end, target)
    ensures
      if text[i] == '\n' then
        if q != '`' then end == i + 1 && target == line + 1
        else InLiteral(text, q, i + 1, line + 1, end, target)
      else if q != '`' && text[i] == '\\' then InLiteral(text, q, i + 2, line, end, target)
      else if text[i] == q then end == i + 1 && target == line
      else InLiteral(text, q, i + 1, line, end, target)
  {
    var s := text[i..];
    var n := end - i;
    assert s[1..] == text[i + 1..] && s[..n][1..] == s[1..][..n - 1];
    assert s[..n][0] == s[0];
    if q != '`' && s[0] == '\\' {
      if |s| > 1 {
        assert s[2..] == text[i + 2..] && s[..n][2..] == s[2..][..n - 2];
      }
    }
  }

  // What the scanner reads at `i`, by the character that stands there.
  ghost function At(text: string, i: nat): Token
    requires i < |text|
  {
    First(text[i..], Stops(Drift))
  }

  lemma CodeAt(text: string, i: nat, line: nat)
    requires i < |text| && !IsQuote(text[i])
    requires text[i] == '/' && i + 1 < |text| ==> text[i + 1] !in "/*"
    ensures |At(text, i).text| == 1 && SpansOf(At(text, i), i, line) == []
    ensures Credit(Drift, At(text, i)) == if text[i] == '\n' then 1 else 0
  {
    assert text[i..][0] == text[i] && (i + 1 < |text| ==> text[i..][1] == text[i + 1]);
    assert At(text, i) == Token(Code, [text[i]]);
    assert [text[i]][0] == text[i] && [text[i]][1..] == [] && Newlines([]) == 0;
  }

  lemma LineAt(text: string, i: nat, line: nat)
    requires i + 1 < |text| && text[i] == '/' && text[i + 1] == '/'
    ensures var end := i + IndexOf(text[i..], '\n');
            && i + 2 <= end && |At(text, i).text| == end - i && Credit(Drift, At(text, i)) == 0
            && SpansOf(At(text, i), i, line) == [Span(line, text[i + 2..end], i, end)]
  {
    var s := text[i..];
    var n := IndexOf(s, '\n');
    assert s[0] == '/' && s[1] == '/' && n == 1 + IndexOf(s[1..], '\n') && s[1..][0] == '/';
    IndexOfIsFirst(s, '\n');
    NoNewlines(s[..n]);
    assert At(text, i) == Token(LineComment, s[..n]);
    assert s[..n][2..] == text[i + 2..i + n];
  }

  lemma BlockAt(text: string, i: nat, line: nat)
    requires i + 1 < |text| && text[i] == '/' && text[i + 1] == '*'
    ensures var body := text[i..i + 2 + CloseOf(text[i + 2..])];
            && At(text, i).text == body && Credit(Drift, At(text, i)) == Newlines(body)
            && SpansOf(At(text, i), i, line) == Chunks(body, i, line)
  {
    var s := text[i..];
    assert s[0] == '/' && s[1] == '*' && s[2..] == text[i + 2..];
  }

  lemma LiteralAt(text: string, i: nat, line: nat)
    requires i < |text| && IsQuote(text[i])
    ensures SpansOf(At(text, i), i, line) == []
    ensures InLiteral(text, text[i], i + 1, line, i + |At(text, i).text|, line + Credit(Drift, At(text, i)))
  {
    var s := text[i..];
    assert s[0] == text[i] && s[1..] == text[i + 1..];
    LiteralCredit(s);
  }

  lemma LiteralEnds(text: string, q: char, i: nat, line: nat, end: nat, target: nat)
    requires InLiteral(text, q, i, line, end, target) && i >= |text|
    ensures end == |text| && target == line
  {
    if i == |text| { assert text[i..] == []; }
  }

  method CommentSpans(text: string) returns (spans: seq<Span>)
    ensures spans == Spans(text)
  {
    hide First, At, Credit, SpansOf, SpansFrom, Chunks, LiteralLen, IndexOf, CloseOf, Newlines, BareNewlines,
         InLiteral, Upto;
    var i: nat, line: nat, n := 0, 1, |text|;
    spans := [];
    UptoStart(text);
    while i < n
      invariant Upto(text, spans, i, line)
    {
      var ch := text[i];
      assert spans + [] == spans;
      ghost var from, was, written := i, line, spans;
      if ch == '\n' {
        CodeAt(text, i, line);
        line, i := line + 1, i + 1;
      } else if ch == '/' && i + 1 < n && text[i + 1] == '/' {
        LineAt(text, i, line);
        var end := i + IndexOf(text[i..], '\n');
        spans := spans + [Span(line, text[i + 2..end], i, end)];
        i := end;
      } else if ch == '/' && i + 1 < n && text[i + 1] == '*' {
        BlockAt(text, i, line);
        var end := i + 2 + CloseOf(text[i + 2..]);
        var body := text[i..end];
        spans := AppendChunks(spans, body, i, line);
        line, i := line + Newlines(body), end;
      } else if ch == '"' || ch == '\'' || ch == '`' {
        LiteralAt(text, i, line);
        i := i + 1;
        ghost var end, target := from + |At(text, from).text|, was + Credit(Drift, At(text, from));
        while i < n
          invariant InLiteral(text, ch, i, line, end, target)
        {
          LiteralStep(text, ch, i, line, end, target);
          if text[i] == '\n' {
            line := line + 1;
            if ch != '`' {
              break;
            }
          } else if ch != '`' && text[i] == '\\' {
            i := i + 1;
          } else if text[i] == ch {
            break;
          }
          i := i + 1;
        }
        if i >= n { LiteralEnds(text, ch, i, line, end, target); }
        i := i + 1;
      } else {
        CodeAt(text, i, line);
        i := i + 1;
      }
      UptoToken(text, written, from, was, SpansOf(At(text, from), from, was), i, line);
    }
    UptoEnd(text, spans, i, line);
  }

  lemma UptoStart(text: string)
    ensures Upto(text, [], 0, 1)
  {
    assert text[0..] == text;
  }

  lemma UptoEnd(text: string, spans: seq<Span>, i: nat, line: nat)
    requires Upto(text, spans, i, line) && i >= |text|
    ensures spans == Spans(text)
  {
    assert Rest(text, i) == [];
  }

  ghost predicate UptoChunk(all: seq<Span>, spans: seq<Span>, rest: string, from: nat, line: nat) {
    all == spans + Chunks(rest, from, line)
  }

  lemma ChunksUnfold(s: string, at: nat, line: nat)
    ensures var n := IndexOf(s, '\n');
            var head := Span(line, s[..n], at, at + n);
            Chunks(s, at, line) == if n < |s| then [head] + Chunks(s[n + 1..], at + n + 1, line + 1) else [head]
  {
    hide IndexOf;
  }

  lemma UptoNextChunk(all: seq<Span>, spans: seq<Span>, rest: string, from: nat, line: nat)
    requires UptoChunk(all, spans, rest, from, line)
    ensures var n := IndexOf(rest, '\n');
            var more := spans + [Span(line, rest[..n], from, from + n)];
            if n == |rest| then all == more
            else UptoChunk(all, more, rest[n + 1..], from + n + 1, line + 1)
  {
    hide Chunks, IndexOf;
    var n := IndexOf(rest, '\n');
    ChunksUnfold(rest, from, line);
    if n < |rest| {
      Associate(spans, [Span(line, rest[..n], from, from + n)], Chunks(rest[n + 1..], from + n + 1, line + 1));
    }
  }

  method AppendChunks(before: seq<Span>, body: string, at: nat, line: nat) returns (spans: seq<Span>)
    ensures spans == before + Chunks(body, at, line)
  {
    hide Chunks, IndexOf;
    spans := before;
    var rest, from: nat, offset: nat := body, at, 0;
    ghost var all := before + Chunks(body, at, line);
    while true
      invariant UptoChunk(all, spans, rest, from, line + offset)
      decreases |rest|
    {
      UptoNextChunk(all, spans, rest, from, line + offset);
      var n := IndexOf(rest, '\n');
      spans := spans + [Span(line + offset, rest[..n], from, from + n)];
      if n == |rest| {
        break;
      }
      rest, from, offset := rest[n + 1..], from + n + 1, offset + 1;
    }
  }

  // ---------------------------------------------------- every span is in place

  /** A span is a piece of one line of the text and carries that line's number. */
  ghost predicate InPlace(text: string, sp: Span) {
    && sp.from <= sp.to <= |text|
    && '\n' !in text[sp.from..sp.to]
    && (text[sp.from..sp.to] == sp.body || (sp.from + 2 <= sp.to && text[sp.from + 2..sp.to] == sp.body))
    && sp.line == 1 + Newlines(text[..sp.from])
  }

  ghost predicate AllInPlace(text: string, spans: seq<Span>) {
    forall sp :: sp in spans ==> InPlace(text, sp)
  }

  lemma AllConcat(text: string, a: seq<Span>, b: seq<Span>)
    requires AllInPlace(text, a) && AllInPlace(text, b)
    ensures AllInPlace(text, a + b)
  {}

  lemma ChunkInPlace(before: string, chunk: string, after: string)
    requires '\n' !in chunk
    ensures AllInPlace(before + chunk + after, [Span(1 + Newlines(before), chunk, |before|, |before| + |chunk|)])
  {
    var text := before + chunk + after;
    assert text[|before|..|before| + |chunk|] == chunk && text[..|before|] == before;
  }

  lemma {:induction false} ChunksInPlace(before: string, s: string, after: string, line: nat)
    requires line == 1 + Newlines(before)
    ensures AllInPlace(before + s + after, Chunks(s, |before|, line))
    decreases |s|
  {
    hide Chunks, IndexOf, InPlace;
    ChunksUnfold(s, |before|, line);
    var n := IndexOf(s, '\n');
    var text := before + s + after;
    var head := Span(line, s[..n], |before|, |before| + n);
    IndexOfIsFirst(s, '\n');
    assert text == before + s[..n] + (s[n..] + after);
    ChunkInPlace(before, s[..n], s[n..] + after);
    if n < |s| {
      var upto := before + s[..n + 1];
      assert s == s[..n + 1] + s[n + 1..];
      Associate(before, s[..n + 1], s[n + 1..]);
      assert upto + s[n + 1..] + after == text;
      NewlinesOfConcat(before, s[..n + 1]);
      NewlinesOfConcat(s[..n], "\n");
      assert s[..n + 1] == s[..n] + "\n";
      NoNewlines(s[..n]);
      assert Newlines("\n") == 1;
      ChunksInPlace(upto, s[n + 1..], after, line + 1);
      AllConcat(text, [head], Chunks(s[n + 1..], |upto|, line + 1));
    }
  }

  lemma LineHasNoNewline(s: string)
    requires s != [] && First(s, Stops(Drift)).kind == LineComment
    ensures '\n' !in First(s, Stops(Drift)).text
  {
    hide IndexOf, CloseOf, LiteralLen;
    IndexOfIsFirst(s, '\n');
  }

  lemma TokenInPlace(before: string, s: string, line: nat)
    requires line == 1 + Newlines(before) && s != []
    ensures AllInPlace(before + s, SpansOf(First(s, Stops(Drift)), |before|, line))
  {
    hide First, InPlace, Chunks, Newlines;
    var t := First(s, Stops(Drift));
    var rest := s[|t.text|..];
    assert s == t.text + rest;
    assert before + s == before + t.text + rest;
    if t.kind == BlockComment {
      ChunksInPlace(before, t.text, rest, line);
    } else if t.kind == LineComment && |t.text| >= 2 {
      LineHasNoNewline(s);
      LineInPlace(before, t.text, rest);
    }
  }

  lemma Middle(a: string, b: string, c: string)
    ensures (a + b + c)[|a|..|a| + |b|] == b && (a + b + c)[..|a|] == a
  {}

  lemma LineAtPlace(text: string, i: nat, j: nat)
    requires i + 2 <= j <= |text| && '\n' !in text[i..j]
    ensures InPlace(text, Span(1 + Newlines(text[..i]), text[i..j][2..], i, j))
  {
    hide Newlines;
    assert text[i + 2..j] == text[i..j][2..];
  }

  lemma LineInPlace(before: string, comment: string, after: string)
    requires |comment| >= 2 && '\n' !in comment
    ensures InPlace(before + comment + after,
                    Span(1 + Newlines(before), comment[2..], |before|, |before| + |comment|))
  {
    hide Newlines, InPlace;
    Middle(before, comment, after);
    LineAtPlace(before + comment + after, |before|, |before| + |comment|);
  }

  // -------------------------------- and exactly when the line numbers are true

  /** A literal body holds a newline behind a backslash. */
  predicate EscapesNewline(s: string, q: char) {
    if s == [] then false
    else if q != '`' && s[0] == '\\' then |s| > 1 && (s[1] == '\n' || EscapesNewline(s[2..], q))
    else EscapesNewline(s[1..], q)
  }

  predicate Miscounts(t: Token) {
    t.kind.Literal? && t.text != [] && EscapesNewline(t.text[1..], t.kind.quote)
  }

  predicate CommentFree(ts: seq<Token>) {
    ts == [] || (!CommentKind(ts[0].kind) && CommentFree(ts[1..]))
  }

  /** No literal with an escaped newline has a comment anywhere behind it. */
  predicate Counted(ts: seq<Token>) {
    ts == [] || if Miscounts(ts[0]) then CommentFree(ts[1..]) else Counted(ts[1..])
  }

  lemma {:induction false} BareAndEscaped(s: string, q: char)
    ensures BareNewlines(s, q) <= Newlines(s)
    ensures BareNewlines(s, q) == Newlines(s) <==> !EscapesNewline(s, q)
    decreases |s|
  {
    if s != [] {
      if q != '`' && s[0] == '\\' {
        if |s| > 1 {
          BareAndEscaped(s[2..], q);
          assert s[1..][1..] == s[2..];
          assert Newlines(s[1..]) == (if s[1] == '\n' then 1 else 0) + Newlines(s[2..]);
        } else {
          assert s[1..] == [];
        }
      } else {
        BareAndEscaped(s[1..], q);
      }
    }
  }

  lemma CreditMisses(s: string)
    requires s != []
    ensures var t := First(s, Stops(Drift));
            && Credit(Drift, t) <= Newlines(t.text)
            && (Credit(Drift, t) == Newlines(t.text) <==> !Miscounts(t))
  {
    var t := First(s, Stops(Drift));
    if t.kind.Literal? {
      BareAndEscaped(t.text[1..], t.kind.quote);
      assert t.text[0] == s[0];
      if t.kind.quote == '`' { RawBareNewlines(t.text[1..]); }
    }
  }

  // A comment always yields a span, which starts on the line the counter says.
  lemma CommentYields(s: string, at: nat, line: nat)
    requires s != [] && CommentKind(First(s, Stops(Drift)).kind)
    ensures var ss := SpansOf(First(s, Stops(Drift)), at, line); ss != [] && ss[0].from == at && ss[0].line == line
  {
    var t := First(s, Stops(Drift));
    if t.kind == LineComment {
      assert s[1..][1..] == s[2..];
      assert IndexOf(s, '\n') == 1 + IndexOf(s[1..], '\n') == 2 + IndexOf(s[2..], '\n');
    } else {
      ChunksUnfold(t.text, at, line);
    }
  }

  lemma AllParts(text: string, a: seq<Span>, b: seq<Span>)
    ensures AllInPlace(text, a + b) <==> AllInPlace(text, a) && AllInPlace(text, b)
  {
    hide InPlace;
    assert forall sp :: sp in a ==> sp in a + b;
    assert forall sp :: sp in b ==> sp in a + b;
  }

  // Once the counter has fallen behind, any later comment is out of place.
  lemma {:induction false} BehindForGood(before: string, s: string, line: nat)
    requires line < 1 + Newlines(before)
    ensures AllInPlace(before + s, SpansFrom(s, |before|, line)) <==> CommentFree(Tokens(s, Stops(Drift)))
    decreases |s|
  {
    hide SpansFrom, SpansOf, First, Credit, InPlace, Newlines, Miscounts;
    if s == [] {
      NoSpans(|before|, line);
    } else {
      var t := First(s, Stops(Drift));
      var rest := s[|t.text|..];
      TokensUnfold(s);
      SpansUnfold(s, |before|, line);
      AllParts(before + s, SpansOf(t, |before|, line), SpansFrom(rest, |before + t.text|, line + Credit(Drift, t)));
      assert before + s == before + t.text + rest;
      NewlinesOfConcat(before, t.text);
      CreditMisses(s);
      BehindForGood(before + t.text, rest, line + Credit(Drift, t));
      if CommentKind(t.kind) {
        CommentYields(s, |before|, line);
        OutOfPlace(before, s, SpansOf(t, |before|, line));
      } else {
        NoneInPlace(t, |before|, line, before + s);
      }
    }
  }

  lemma OutOfPlace(before: string, s: string, spans: seq<Span>)
    requires spans != [] && spans[0].from == |before| && spans[0].line < 1 + Newlines(before)
    ensures !AllInPlace(before + s, spans)
  {
    assert (before + s)[..|before|] == before;
    assert !InPlace(before + s, spans[0]) && spans[0] in spans;
  }

  lemma NoneInPlace(t: Token, at: nat, line: nat, text: string)
    requires !CommentKind(t.kind)
    ensures AllInPlace(text, SpansOf(t, at, line))
  {}

  lemma TokensUnfold(s: string)
    requires s != []
    ensures var t := First(s, Stops(Drift));
            && Tokens(s, Stops(Drift)) != [] && Tokens(s, Stops(Drift))[0] == t
            && Tokens(s, Stops(Drift))[1..] == Tokens(s[|t.text|..], Stops(Drift))
  {}

  lemma {:induction false} InPlaceIff(before: string, s: string, line: nat)
    requires line == 1 + Newlines(before)
    ensures AllInPlace(before + s, SpansFrom(s, |before|, line)) <==> Counted(Tokens(s, Stops(Drift)))
    decreases |s|
  {
    hide SpansFrom, SpansOf, First, Credit, InPlace, Newlines, Miscounts;
    if s == [] {
      NoSpans(|before|, line);
    } else {
      var t := First(s, Stops(Drift));
      var rest := s[|t.text|..];
      TokensUnfold(s);
      SpansUnfold(s, |before|, line);
      AllParts(before + s, SpansOf(t, |before|, line), SpansFrom(rest, |before + t.text|, line + Credit(Drift, t)));
      assert before + s == before + t.text + rest;
      NewlinesOfConcat(before, t.text);
      CreditMisses(s);
      TokenInPlace(before, s, line);
      if Miscounts(t) {
        BehindForGood(before + t.text, rest, line + Credit(Drift, t));
      } else {
        InPlaceIff(before + t.text, rest, line + Credit(Drift, t));
      }
    }
  }

  /**
   Every comment line carries its true line number exactly when no comment
   follows an interpreted string or rune that holds an escaped newline.
   */
  lemma LinesAreTrueIff(text: string)
    ensures AllInPlace(text, Spans(text)) <==> Counted(Tokens(text, Stops(Drift)))
  {
    assert [] + text == text;
    InPlaceIff([], text, 1);
  }

  /** One such text: a quote, an escaped newline, a quote, and a comment. */
  lemma EscapedNewlineDrifts()
    ensures var text := ['"', '\\', '\n', '"', '/', '/']; !AllInPlace(text, Spans(text))
  {
    hide AllInPlace, Spans, IndexOf, CloseOf, Newlines, BareNewlines;
    var text := ['"', '\\', '\n', '"', '/', '/'];
    var body := text[1..];
    assert body[2..][0] == '"';
    assert LiteralLen(body, '"', Stops(Drift)) == 2 + LiteralLen(body[2..], '"', Stops(Drift)) == 3;
    assert First(text, Stops(Drift)) == Token(Literal('"'), text[..4]);
    TokensUnfold(text);
    var rest := text[4..];
    assert rest == ['/', '/'];
    assert First(rest, Stops(Drift)).kind == LineComment;
    TokensUnfold(rest);
    assert text[..4][1..][0] == '\\' && text[..4][1..][1] == '\n';
    assert Miscounts(First(text, Stops(Drift)));
    LinesAreTrueIff(text);
  }

  /** Tidy text has no such literal. */
  lemma LinesAreTrue(text: string)
    requires Tidy(text)
    ensures AllInPlace(text, Spans(text))
  {
    TidyIsUnbroken(text);
    UnbrokenTokens(text, Stops(Drift));
    TidyIsCounted(Tokens(text, {}));
    LinesAreTrueIff(text);
  }

  lemma {:induction false} TidyIsCounted(ts: seq<Token>)
    requires forall t :: t in ts && t.kind.Literal? && t.kind.quote != '`' ==> '\n' !in t.text
    ensures Counted(ts)
  {
    if ts != [] {
      var t := ts[0];
      assert t in ts;
      TidyIsCounted(ts[1..]);
      if t.kind.Literal? && t.text != [] {
        BareAndEscaped(t.text[1..], t.kind.quote);
        if t.kind.quote == '`' {
          RawBareNewlines(t.text[1..]);
        } else {
          NoNewlines(t.text[1..]);
        }
      }
    }
  }

  // ----------------------------------- the ranges are exactly what is blanked

  predicate Covered(spans: seq<Span>, p: nat) {
    exists k :: 0 <= k < |spans| && spans[k].from <= p < spans[k].to
  }

  predicate CommentKind(k: Kind) {
    k == LineComment || k == BlockComment
  }

  lemma CoveredConcat(a: seq<Span>, b: seq<Span>, p: nat)
    ensures Covered(a + b, p) <==> Covered(a, p) || Covered(b, p)
  {
    if Covered(a, p) {
      var k :| 0 <= k < |a| && a[k].from <= p < a[k].to;
      assert (a + b)[k] == a[k];
    }
    if Covered(b, p) {
      var k :| 0 <= k < |b| && b[k].from <= p < b[k].to;
      assert (a + b)[|a| + k] == b[k];
    }
  }

  lemma CoveredOne(sp: Span, p: nat)
    ensures Covered([sp], p) <==> sp.from <= p < sp.to
  {
    assert [sp][0] == sp;
  }

  lemma {:induction false} ChunksCover(s: string, at: nat, line: nat, p: nat)
    ensures Covered(Chunks(s, at, line), p) <==> at <= p < at + |s| && s[p - at] != '\n'
    decreases |s|
  {
    hide Chunks, IndexOf, Covered;
    ChunksUnfold(s, at, line);
    IndexOfIsFirst(s, '\n');
    var n := IndexOf(s, '\n');
    var head := [Span(line, s[..n], at, at + n)];
    assert at <= p < at + n ==> s[..n][p - at] == s[p - at];
    CoveredOne(head[0], p);
    if n < |s| {
      ChunksCover(s[n + 1..], at + n + 1, line + 1, p);
      CoveredConcat(head, Chunks(s[n + 1..], at + n + 1, line + 1), p);
      assert at + n < p < at + |s| ==> s[n + 1..][p - (at + n + 1)] == s[p - at];
    } else {
      assert Chunks(s, at, line) == head;
    }
  }

  lemma NotCovered(p: nat)
    ensures !Covered([], p)
  {}

  lemma KindSplits(s: string, p: int)
    requires s != []
    ensures var t := First(s, Stops(Drift));
            && (0 <= p < |t.text| ==> KindAt(s, p, Stops(Drift)) == t.kind)
            && (|t.text| <= p < |s| ==>
                  && KindAt(s, p, Stops(Drift)) == KindAt(s[|t.text|..], p - |t.text|, Stops(Drift))
                  && s[|t.text|..][p - |t.text|] == s[p])
  {}

  lemma {:induction false} SpansCover(s: string, at: nat, line: nat, p: nat)
    ensures Covered(SpansFrom(s, at, line), p) <==>
            at <= p < at + |s| && CommentKind(KindAt(s, p - at, Stops(Drift))) && s[p - at] != '\n'
    decreases |s|
  {
    hide SpansFrom, SpansOf, First, Credit, Covered, KindAt;
    if s != [] {
      var t := First(s, Stops(Drift));
      var rest, next := s[|t.text|..], line + Credit(Drift, t);
      SpansCover(rest, at + |t.text|, next, p);
      SpansUnfold(s, at, line);
      CoveredConcat(SpansOf(t, at, line), SpansFrom(rest, at + |t.text|, next), p);
      TokenCovers(s, at, line, p);
      KindSplits(s, p - at);
    } else {
      NoSpans(at, line);
      NotCovered(p);
    }
  }

  lemma TokenCovers(s: string, at: nat, line: nat, p: nat)
    requires s != []
    ensures var t := First(s, Stops(Drift));
            Covered(SpansOf(t, at, line), p) <==>
            at <= p < at + |t.text| && CommentKind(t.kind) && s[p - at] != '\n'
  {
    var t := First(s, Stops(Drift));
    if t.kind == BlockComment {
      ChunksCover(t.text, at, line, p);
    } else if t.kind == LineComment {
      var n := IndexOf(s, '\n');
      assert n == 1 + IndexOf(s[1..], '\n') == 2 + IndexOf(s[1..][1..], '\n');
      IndexOfIsFirst(s, '\n');
      assert at <= p < at + n ==> s[..n][p - at] == s[p - at];
      CoveredOne(Span(line, t.text[2..], at, at + |t.text|), p);
    }
  }

  /** `s` without the positions a span covers. */
  function Erase(s: string, at: nat, spans: seq<Span>): string {
    if s == [] then []
    else (if Covered(spans, at) then "" else [s[0]]) + Erase(s[1..], at + 1, spans)
  }

  // The spans cover, of the text that stands at `at`, the characters `gone`.
  ghost predicate Covers(spans: seq<Span>, at: nat, gone: seq<bool>) {
    forall p {:trigger gone[p]} :: 0 <= p < |gone| ==> (Covered(spans, at + p) <==> gone[p])
  }

  ghost function Gone(s: string): seq<bool> {
    seq(|s|, p requires 0 <= p < |s| => CommentKind(KindAt(s, p, Stops(Clock))) && s[p] != '\n')
  }

  lemma CoversRest(spans: seq<Span>, at: nat, gone: seq<bool>, k: nat)
    requires k <= |gone| && Covers(spans, at, gone)
    ensures Covers(spans, at, gone[..k]) && Covers(spans, at + k, gone[k..])
  {
    forall p | 0 <= p < |gone[k..]| ensures Covered(spans, at + k + p) <==> gone[k..][p] {
      assert gone[k..][p] == gone[k + p];
      assert at + k + p == at + (k + p);
    }
  }

  lemma GoneSplits(s: string)
    requires s != []
    ensures var t := First(s, Stops(Clock));
            && Gone(s)[|t.text|..] == Gone(s[|t.text|..])
            && forall p :: 0 <= p < |t.text| ==> (Gone(s)[..|t.text|][p] <==> CommentKind(t.kind) && t.text[p] != '\n')
  {}

  lemma {:induction false} EraseByKind(s: string, at: nat, spans: seq<Span>)
    requires Covers(spans, at, Gone(s))
    ensures Erase(s, at, spans) == ClockFlakiness.Blanked(s)
    decreases |s|
  {
    hide ClockFlakiness.Blanked, Erase, First, Covered;
    if s != [] {
      var t := First(s, Stops(Clock));
      var rest := s[|t.text|..];
      CoversRest(spans, at, Gone(s), |t.text|);
      GoneSplits(s);
      EraseByKind(rest, at + |t.text|, spans);
      ClockFlakiness.BlankedUnfolds(s);
      EraseToken(t, at, spans, Gone(s)[..|t.text|]);
      EraseConcat(t.text, rest, at, spans);
      assert s == t.text + rest;
    } else {
      EraseNothing(at, spans);
    }
  }

  lemma EraseNothing(at: nat, spans: seq<Span>)
    ensures Erase([], at, spans) == ClockFlakiness.Blanked([]) == []
  {}

  lemma {:induction false} EraseConcat(a: string, b: string, at: nat, spans: seq<Span>)
    ensures Erase(a + b, at, spans) == Erase(a, at, spans) + Erase(b, at + |a|, spans)
  {
    hide Covered;
    if a == [] {
      assert a + b == b;
    } else {
      assert (a + b)[1..] == a[1..] + b;
      EraseConcat(a[1..], b, at + 1, spans);
    }
  }

  lemma {:induction false} EraseToken(t: Token, at: nat, spans: seq<Span>, gone: seq<bool>)
    requires |gone| == |t.text| && Covers(spans, at, gone)
    requires forall p :: 0 <= p < |t.text| ==> (gone[p] <==> CommentKind(t.kind) && t.text[p] != '\n')
    ensures Erase(t.text, at, spans) == ClockFlakiness.Kept(t)
    decreases |t.text|
  {
    if t.text != [] {
      CoversRest(spans, at, gone, 1);
      EraseToken(t.(text := t.text[1..]), at + 1, spans, gone[1..]);
      assert gone[0] <==> Covered(spans, at + 0);
      assert t.text == [t.text[0]] + t.text[1..];
    }
  }

  /**
   Where no literal is broken, erasing exactly the ranges of the drift scanner
   gives exactly the output of the comment blanker.
   */
  lemma BlankingTheRanges(text: string)
    requires Unbroken(text)
    ensures Erase(text, 0, Spans(text)) == ClockFlakiness.Blanked(text)
  {
    hide Unbroken, Tokens, KindAt, SpansFrom, Covered, Erase, ClockFlakiness.Blanked;
    UnbrokenTokens(text, Stops(Drift));
    forall p | 0 <= p < |text| ensures Covered(Spans(text), 0 + p) <==> Gone(text)[p] {
      SpansCover(text, 0, 1, p);
      SameKinds(text, p, Stops(Drift));
    }
    EraseByKind(text, 0, Spans(text));
  }
}
