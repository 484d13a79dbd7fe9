/**
 The scanner that finds every `log.X(...)` call of a Go source, with its line,
 its leading format string and the extent of the whole call.
 */
module LoggingQuality {
  import opened Basics
  import opened GoText

  /** A call: where it starts, its line, the function, the format string, where it ends. */
  datatype Site = Site(at: nat, line: nat, func: string, literal: Option<string>, end: nat)

  const LOG_FUNCS := ["Printf", "Println", "Print", "Fatalf", "Fatalln", "Fatal", "Panicf", "Panicln", "Panic"]

  // The whitespace that is skipped by hand, narrower than that of a regular expression.
  predicate IsGap(c: char) {
    c in {' ', '\t', '\r', '\n'}
  }

  function WordEnd(text: string, i: nat): (j: nat)
    requires i <= |text|
    ensures i <= j <= |text|
    decreases |text| - i
  {
    if i < |text| && IsWord(text[i]) then WordEnd(text, i + 1) else i
  }

  function SpaceEnd(text: string, i: nat): (j: nat)
    requires i <= |text|
    ensures i <= j <= |text|
    decreases |text| - i
  {
    if i < |text| && IsSpace(text[i]) then SpaceEnd(text, i + 1) else i
  }

  function GapEnd(text: string, i: nat): (j: nat)
    requires i <= |text|
    ensures i <= j <= |text|
    decreases |text| - i
  {
    if i < |text| && IsGap(text[i]) then GapEnd(text, i + 1) else i
  }

  // --------------------------------------------------------- the call pattern

  predicate Boundary(text: string, i: nat)
    requires i <= |text|
  {
    i == 0 || !IsWord(text[i - 1])
  }

  /** A log call that opens at `i`: its function, and the offset past the parenthesis. */
  function LogCall(text: string, i: nat): (r: Option<(string, nat)>)
    requires i <= |text|
    ensures r.Some? ==> i + 4 < r.value.1 <= |text|
  {
    if i + 4 <= |text| && Boundary(text, i) && text[i..i + 4] == "log." then
      var j := WordEnd(text, i + 4);
      var k := SpaceEnd(text, j);
      if text[i + 4..j] in LOG_FUNCS && k < |text| && text[k] == '(' then Some((text[i + 4..j], k + 1)) else None
    else None
  }

  // ----------------------------------------------------------- string literals

  function SkipEnd(text: string, i: nat): (j: nat)
    requires i < |text|
    ensures i < j <= |text|
  {
    i + 1 + LiteralLen(text[i + 1..], '"', Stops(Logging))
  }

  method SkipInterpreted(text: string, i: nat) returns (end: nat)
    requires i < |text| && text[i] == '"'
    ensures end == SkipEnd(text, i)
  {
    var j: nat := i + 1;
    while j < |text|
      invariant j <= |text| ==> SkipEnd(text, i) == j + LiteralLen(text[j..], '"', Stops(Logging))
      invariant j > |text| ==> SkipEnd(text, i) == |text|
    {
      LiteralTurn(text, j);
      if text[j] == '\\' {
        j := j + 2;
        continue;
      }
      if text[j] == '"' || text[j] == '\n' {
        return j + 1;
      }
      j := j + 1;
    }
    return |text|;
  }

  lemma LiteralTurn(text: string, j: nat)
    requires j < |text|
    ensures var n := LiteralLen(text[j..], '"', Stops(Logging));
            if text[j] == '\\' then
              if j + 1 == |text| then n == 1 else n == 2 + LiteralLen(text[j + 2..], '"', Stops(Logging))
            else if text[j] == '"' || text[j] == '\n' then n == 1
            else n == 1 + LiteralLen(text[j + 1..], '"', Stops(Logging))
  {
    assert text[j..][0] == text[j] && text[j..][1..] == text[j + 1..];
    if j + 2 <= |text| { assert text[j..][2..] == text[j + 2..]; }
  }

  const ESCAPES: map<char, char> :=
    map['n' := '\n', 't' := '\t', 'r' := '\r', '"' := '"', '\\' := '\\', '\'' := '\'',
        'a' := 7 as char, 'b' := 8 as char, 'f' := 12 as char, 'v' := 11 as char, '0' := '\0']

  function Unescaped(raw: string): string {
    if raw == [] then []
    else if raw[0] == '\\' && |raw| > 1 then
      (if raw[1] in ESCAPES then [ESCAPES[raw[1]]] else raw[..2]) + Unescaped(raw[2..])
    else [raw[0]] + Unescaped(raw[1..])
  }

  method Unescape(raw: string) returns (out: string)
    ensures out == Unescaped(raw)
  {
    out := [];
    var i := 0;
    assert raw[0..] == raw;
    while i < |raw|
      invariant 0 <= i <= |raw|
      invariant Unescaped(raw) == out + Unescaped(raw[i..])
    {
      UnescapeTurn(raw, i, out);
      if raw[i] == '\\' && i + 1 < |raw| {
        out := out + if raw[i + 1] in ESCAPES then [ESCAPES[raw[i + 1]]] else raw[i..i + 2];
        i := i + 2;
        continue;
      }
      out := out + [raw[i]];
      i := i + 1;
    }
    assert raw[i..] == [];
  }

  lemma UnescapeTurn(raw: string, i: nat, out: string)
    requires i < |raw|
    ensures out + Unescaped(raw[i..]) ==
      if raw[i] == '\\' && i + 1 < |raw| then
        out + (if raw[i + 1] in ESCAPES then [ESCAPES[raw[i + 1]]] else raw[i..i + 2]) + Unescaped(raw[i + 2..])
      else out + [raw[i]] + Unescaped(raw[i + 1..])
  {
    var s := raw[i..];
    assert s[0] == raw[i] && s[1..] == raw[i + 1..];
    if i + 1 < |raw| {
      assert s[1] == raw[i + 1] && s[2..] == raw[i + 2..] && s[..2] == raw[i..i + 2];
    }
  }

  /** How Go source spells a value inside an interpreted literal. */
  function Escaped(value: string): string {
    if value == [] then []
    else
      (match value[0]
       case '\n' => "\\n"
       case '\t' => "\\t"
       case '\r' => "\\r"
       case '"' => "\\\""
       case '\\' => "\\\\"
       case c => [c]) + Escaped(value[1..])
  }

  /** Decoding undoes spelling, on every value. */
  lemma {:induction false} UnescapeUndoes(value: string)
    ensures Unescaped(Escaped(value)) == value
  {
    if value != [] {
      UnescapeUndoes(value[1..]);
      var raw := Escaped(value);
      if value[0] in {'\n', '\t', '\r', '"', '\\'} {
        assert raw[2..] == Escaped(value[1..]);
      } else {
        assert raw[1..] == Escaped(value[1..]);
      }
    }
  }

  /** What stands between the quotes of a literal: no quote and no newline but behind a backslash. */
  predicate IsBody(raw: string) {
    if raw == [] then true
    else if raw[0] == '\\' then |raw| > 1 && IsBody(raw[2..])
    else raw[0] !in {'"', '\n'} && IsBody(raw[1..])
  }

  lemma {:induction false} SpelledIsBody(value: string)
    ensures IsBody(Escaped(value))
  {
    if value != [] {
      SpelledIsBody(value[1..]);
      var raw := Escaped(value);
      if value[0] in {'\n', '\t', '\r', '"', '\\'} {
        assert raw[2..] == Escaped(value[1..]);
      } else {
        assert raw[1..] == Escaped(value[1..]);
      }
    }
  }

  /** A literal is skipped whole, up to and with its closing quote, whatever escapes it holds. */
  lemma {:induction false} BodyLength(s: string, body: string)
    requires IsBody(body) && body + "\"" <= s
    ensures LiteralLen(s, '"', Stops(Logging)) == |body| + 1
    decreases |body|
  {
    assert s[..|body| + 1] == body + "\"";
    assert s[0] == (body + "\"")[0];
    if body != [] {
      var k := if body[0] == '\\' then 2 else 1;
      assert s[k..][..|body| + 1 - k] == body[k..] + "\"";
      BodyLength(s[k..], body[k..]);
    }
  }

  // ---------------------------------------------------- the leading argument

  /** The body of the literal at `i`, decoded. */
  function Piece(text: string, i: nat): string
    requires i < |text|
  {
    var end := SkipEnd(text, i);
    if i + 1 < end then Unescaped(text[i + 1..end - 1]) else []
  }

  /** Where the next literal of a `+` chain opens. */
  function Next(text: string, end: nat): (r: Option<nat>)
    requires end <= |text|
    ensures r.Some? ==> end < r.value < |text| && text[r.value] == '"'
  {
    var plus := GapEnd(text, end);
    if plus < |text| && text[plus] == '+' then
      var k := GapEnd(text, plus + 1);
      if k < |text| && text[k] == '"' then Some(k) else None
    else None
  }

  function Folded(text: string, i: nat): (r: (string, nat))
    requires i < |text| && text[i] == '"'
    decreases |text| - i
  {
    var end := SkipEnd(text, i);
    match Next(text, end)
    case None => (Piece(text, i), end)
    case Some(k) => var (rest, last) := Folded(text, k); (Piece(text, i) + rest, last)
  }

  function Leading(text: string, start: nat): (Option<string>, nat)
    requires start <= |text|
  {
    var i := GapEnd(text, start);
    if i < |text| && text[i] == '"' then var (value, end) := Folded(text, i); (Some(value), end) else (None, start)
  }

  method SkipGap(text: string, i: nat) returns (j: nat)
    requires i <= |text|
    ensures j == GapEnd(text, i)
  {
    j := i;
    while j < |text| && IsGap(text[j])
      invariant i <= j <= |text| && GapEnd(text, i) == GapEnd(text, j)
    {
      j := j + 1;
    }
  }

  ghost predicate Folding(all: (string, nat), parts: string, text: string, i: nat) {
    i < |text| && text[i] == '"' && all == (parts + Folded(text, i).0, Folded(text, i).1)
  }

  lemma FoldingTurn(all: (string, nat), parts: string, text: string, i: nat)
    requires Folding(all, parts, text, i)
    ensures var end := SkipEnd(text, i);
            match Next(text, end)
            case None => all == (parts + Piece(text, i), end)
            case Some(k) => Folding(all, parts + Piece(text, i), text, k)
  {
    hide SkipEnd, Piece;
    match Next(text, SkipEnd(text, i))
    case None =>
    case Some(k) => assert parts + (Piece(text, i) + Folded(text, k).0) == parts + Piece(text, i) + Folded(text, k).0;
  }

  method LeadingLiteral(text: string, start: nat) returns (value: Option<string>, end: nat)
    requires start <= |text|
    ensures (value, end) == Leading(text, start)
  {
    hide Unescaped, LiteralLen, Folded, GapEnd, SkipEnd, Folding;
    var i := SkipGap(text, start);
    if i >= |text| || text[i] != '"' {
      return None, start;
    }
    var parts := [];
    ghost var all := Folded(text, i);
    FoldingStarts(text, i);
    while true
      invariant i < |text| && text[i] == '"' && Folding(all, parts, text, i)
      decreases |text| - i
    {
      FoldingTurn(all, parts, text, i);
      end := SkipInterpreted(text, i);
      var piece := [];
      if i + 1 < end {
        piece := Unescape(text[i + 1..end - 1]);
      }
      parts := parts + piece;
      var j := SkipGap(text, end);
      if j < |text| && text[j] == '+' {
        j := SkipGap(text, j + 1);
        if j < |text| && text[j] == '"' {
          i := j;
          continue;
        }
      }
      return Some(parts), end;
    }
  }

  lemma FoldingStarts(text: string, i: nat)
    requires i < |text| && text[i] == '"'
    ensures Folding(Folded(text, i), [], text, i)
  {
    assert [] + Folded(text, i).0 == Folded(text, i).0;
  }

  /** What follows a literal of a chain: a plus, the space on either side of it, and the next literal. */
  datatype Link = Link(before: string, after: string, body: string)

  function Lit(body: string): (r: string)
    ensures |r| == |body| + 2
  {
    "\"" + body + "\""
  }

  /** A chain of literals as Go source writes it. */
  function Chain(first: string, links: seq<Link>): string
    decreases |links|
  {
    Lit(first) + if links == [] then []
    else links[0].before + "+" + links[0].after + Chain(links[0].body, links[1..])
  }

  /** The decoded bodies of all its literals, one after the other. */
  function Concat(first: string, links: seq<Link>): string
    decreases |links|
  {
    if links == [] then Unescaped(first) else Unescaped(first) + Concat(links[0].body, links[1..])
  }

  predicate AllLinks(links: seq<Link>) {
    forall l :: l in links ==> AllGap(l.before) && AllGap(l.after) && IsBody(l.body)
  }

  predicate AllGap(s: string) {
    forall c :: c in s ==> IsGap(c)
  }

  // `s` stands in `text` at `i`.
  predicate Stands(text: string, i: nat, s: string) {
    i + |s| <= |text| && text[i..i + |s|] == s
  }

  lemma StandsParts(text: string, i: nat, a: string, b: string)
    requires Stands(text, i, a + b)
    ensures Stands(text, i, a) && Stands(text, i + |a|, b)
    ensures a != [] ==> text[i] == a[0]
  {
    var s := text[i..i + |a + b|];
    assert s[..|a|] == a && s[|a|..] == b;
    assert text[i..i + |a|] == s[..|a|];
    assert text[i + |a|..i + |a| + |b|] == s[|a|..];
  }

  lemma {:induction false} GapStands(text: string, i: nat, gap: string)
    requires Stands(text, i, gap) && AllGap(gap)
    ensures GapEnd(text, i) == GapEnd(text, i + |gap|)
    decreases |gap|
  {
    hide Stands, GapEnd;
    StandsBound(text, i, gap);
    if gap != [] {
      assert gap == [gap[0]] + gap[1..] && gap[0] in gap;
      StandsParts(text, i, [gap[0]], gap[1..]);
      assert forall c :: c in gap[1..] ==> c in gap;
      GapStands(text, i + 1, gap[1..]);
      OneGap(text, i);
    }
  }

  lemma OneGap(text: string, i: nat)
    requires i < |text| && IsGap(text[i])
    ensures GapEnd(text, i) == GapEnd(text, i + 1)
  {}

  lemma LiteralStands(text: string, i: nat, body: string)
    requires IsBody(body) && Stands(text, i, Lit(body))
    ensures text[i] == '"' && SkipEnd(text, i) == i + |body| + 2 && Piece(text, i) == Unescaped(body)
  {
    hide Unescaped, LiteralLen, IsBody;
    var s := Lit(body);
    assert text[i..i + |s|] == s && text[i] == s[0];
    assert text[i + 1..][..|body| + 1] == s[1..] == body + "\"";
    BodyLength(text[i + 1..], body);
    assert text[i + 1..i + 1 + |body|] == s[1..1 + |body|] == body;
  }

  lemma ChainParts(first: string, links: seq<Link>)
    requires links != []
    ensures var (before, after) := (links[0].before, links[0].after);
            Chain(first, links)
            == Lit(first) + (before + ("+" + (after + Chain(links[0].body, links[1..]))))
  {
    var (before, after) := (links[0].before, links[0].after);
    var lit, rest := Lit(first), Chain(links[0].body, links[1..]);
    assert Chain(first, links) == lit + (before + "+" + after + rest);
    assert before + "+" + after + rest == before + ("+" + (after + rest));
  }

  // Where the chain goes on behind the literal that opens it.
  function OnFrom(i: nat, first: string, link: Link): nat {
    i + |first| + 2 + |link.before| + 1 + |link.after|
  }

  // The literal that opens a chain, and where the chain goes on.
  lemma ChainStands(text: string, i: nat, first: string, links: seq<Link>)
    requires links != [] && AllLinks(links) && IsBody(first) && Stands(text, i, Chain(first, links))
    ensures var end := i + |first| + 2;
            var (plus, k) := (end + |links[0].before|, OnFrom(i, first, links[0]));
            var rest := Chain(links[0].body, links[1..]);
            && i < |text| && text[i] == '"' && SkipEnd(text, i) == end && Piece(text, i) == Unescaped(first)
            && k + |rest| == i + |Chain(first, links)| && Stands(text, k, rest)
            && end <= |text| && GapEnd(text, end) == GapEnd(text, plus)
            && plus < |text| && text[plus] == '+' && GapEnd(text, plus + 1) == GapEnd(text, k)
  {
    hide Lit, IsBody, Unescaped, GapEnd, SkipEnd, Piece, Stands, Chain;
    assert links[0] in links;
    ChainSpread(text, i, first, links);
    LiteralStands(text, i, first);
    var plus := i + |first| + 2 + |links[0].before|;
    GapStands(text, i + |first| + 2, links[0].before);
    GapStands(text, plus + 1, links[0].after);
    StandsBound(text, i, Lit(first));
  }

  lemma ChainSpread(text: string, i: nat, first: string, links: seq<Link>)
    requires links != [] && Stands(text, i, Chain(first, links))
    ensures var (end, plus) := (i + |first| + 2, i + |first| + 2 + |links[0].before|);
            var (k, rest) := (OnFrom(i, first, links[0]), Chain(links[0].body, links[1..]));
            && Stands(text, i, Lit(first)) && Stands(text, end, links[0].before) && end <= plus < |text| && text[plus] == '+'
            && Stands(text, plus + 1, links[0].after) && Stands(text, k, rest) && k + |rest| == i + |Chain(first, links)|
  {
    hide Lit, IsBody, Unescaped, Stands, Chain;
    var (before, after) := (links[0].before, links[0].after);
    var rest := Chain(links[0].body, links[1..]);
    ChainParts(first, links);
    StandsParts(text, i, Lit(first), before + ("+" + (after + rest)));
    PlusSpread(text, i + |Lit(first)|, before, after, rest);
  }

  lemma PlusSpread(text: string, i: nat, before: string, after: string, rest: string)
    requires Stands(text, i, before + ("+" + (after + rest)))
    ensures var plus := i + |before|;
            && Stands(text, i, before) && plus < |text| && text[plus] == '+'
            && Stands(text, plus + 1, after) && Stands(text, plus + 1 + |after|, rest)
  {
    hide Stands;
    StandsParts(text, i, before, "+" + (after + rest));
    StandsParts(text, i + |before|, "+", after + rest);
    StandsParts(text, i + |before| + 1, after, rest);
    StandsBound(text, i + |before|, "+");
  }

  lemma StandsBound(text: string, i: nat, s: string)
    requires Stands(text, i, s)
    ensures i + |s| <= |text|
  {}

  /**
   Every literal of a chain is folded into the value, however long the chain,
   however it is spaced and whatever escapes it holds.
   */
  lemma {:induction false} ChainFolds(text: string, i: nat, first: string, links: seq<Link>)
    requires AllLinks(links) && IsBody(first) && Stands(text, i, Chain(first, links))
    requires i + |Chain(first, links)| <= |text| && Next(text, i + |Chain(first, links)|) == None
    ensures i < |text| && text[i] == '"' && Folded(text, i) == (Concat(first, links), i + |Chain(first, links)|)
    decreases |links|
  {
    hide Stands, Unescaped, IsBody, LiteralLen, SkipEnd, Piece, Folded, Next, GapEnd, Chain, Concat, OnFrom;
    if links == [] {
      ChainOfOne(first);
      LiteralStands(text, i, first);
      StandsBound(text, i, Chain(first, links));
      FoldedUnfold(text, i);
    } else {
      ChainStands(text, i, first, links);
      var end := i + |first| + 2;
      var plus, k := end + |links[0].before|, OnFrom(i, first, links[0]);
      ChainFolds(text, k, links[0].body, links[1..]);
      NotGap(text, plus);
      NotGap(text, k);
      NextIs(text, end, plus, k);
      FoldedUnfold(text, i);
      ConcatUnfold(first, links);
    }
  }

  lemma ChainOfOne(first: string)
    ensures Chain(first, []) == Lit(first) && Concat(first, []) == Unescaped(first)
  {
    hide Lit;
  }

  lemma ConcatUnfold(first: string, links: seq<Link>)
    requires links != []
    ensures Concat(first, links) == Unescaped(first) + Concat(links[0].body, links[1..])
  {}

  function Joined(values: seq<string>): string {
    if values == [] then [] else values[0] + Joined(values[1..])
  }

  /** Literals that spell values fold into those values, one after the other. */
  lemma {:induction false} ConcatOfSpelled(first: string, values: seq<string>, links: seq<Link>)
    requires |links| == |values| && forall k :: 0 <= k < |links| ==> links[k].body == Escaped(values[k])
    ensures Concat(Escaped(first), links) == first + Joined(values)
    ensures IsBody(Escaped(first)) && forall l :: l in links ==> IsBody(l.body)
    decreases |links|
  {
    hide Escaped, Unescaped, IsBody;
    UnescapeUndoes(first);
    SpelledIsBody(first);
    if links == [] {
      assert first + [] == first;
    } else {
      ConcatOfSpelled(values[0], values[1..], links[1..]);
      assert forall l :: l in links ==> l == links[0] || l in links[1..];
    }
  }

  lemma FoldedUnfold(text: string, i: nat)
    requires i < |text| && text[i] == '"'
    ensures Next(text, SkipEnd(text, i)) == None ==> Folded(text, i) == (Piece(text, i), SkipEnd(text, i))
    ensures Next(text, SkipEnd(text, i)).Some? ==>
              var (rest, last) := Folded(text, Next(text, SkipEnd(text, i)).value);
              Folded(text, i) == (Piece(text, i) + rest, last)
  {
    hide Next, SkipEnd, Piece;
  }

  lemma NextIs(text: string, end: nat, plus: nat, k: nat)
    requires end <= plus < |text| && GapEnd(text, end) == plus && text[plus] == '+'
    requires GapEnd(text, plus + 1) == k < |text| && text[k] == '"'
    ensures Next(text, end) == Some(k)
  {}

  lemma NotGap(text: string, i: nat)
    requires i < |text| && !IsGap(text[i])
    ensures GapEnd(text, i) == i
  {}

  /** The format string of a call is the value of its whole leading chain. */
  lemma LeadingIsConcat(text: string, start: nat, indent: string, first: string, links: seq<Link>)
    requires AllLinks(links) && IsBody(first) && AllGap(indent)
    requires Stands(text, start, indent + Chain(first, links))
    requires start + |indent + Chain(first, links)| <= |text|
    requires Next(text, start + |indent + Chain(first, links)|) == None
    ensures Leading(text, start) == (Some(Concat(first, links)), start + |indent + Chain(first, links)|)
  {
    hide Chain, Folded, Concat, Stands;
    StandsBound(text, start, indent + Chain(first, links));
    StandsParts(text, start, indent, Chain(first, links));
    GapStands(text, start, indent);
    ChainFolds(text, start + |indent|, first, links);
    NotGap(text, start + |indent|);
  }

  // ----------------------------------------------------- the end of the call

  /** Where the parenthesis that is `depth` levels up closes. */
  function CallEnd(text: string, i: nat, depth: nat): (end: nat)
    requires i <= |text|
    ensures i <= end <= |text|
    decreases |text| - i
  {
    if i == |text| || depth == 0 then i
    else if text[i] == '"' then CallEnd(text, SkipEnd(text, i), depth)
    else if text[i] == '`' then CallEnd(text, RawEnd(text, i), depth)
    else CallEnd(text, i + 1, if text[i] == '(' then depth + 1 else if text[i] == ')' then depth - 1 else depth)
  }

  function RawEnd(text: string, i: nat): (end: nat)
    requires i < |text|
    ensures i < end <= |text|
  {
    var k := i + 1 + IndexOf(text[i + 1..], '`');
    if k == |text| then |text| else k + 1
  }

  method CallExtent(text: string, afterOpen: nat) returns (end: nat)
    requires afterOpen <= |text|
    ensures end == CallEnd(text, afterOpen, 1)
  {
    hide LiteralLen, IndexOf, SkipEnd;
    var i, depth: nat := afterOpen, 1;
    while i < |text| && depth != 0
      invariant afterOpen <= i <= |text|
      invariant CallEnd(text, afterOpen, 1) == CallEnd(text, i, depth)
      decreases |text| - i
    {
      var c := text[i];
      if c == '"' {
        i := SkipInterpreted(text, i);
        continue;
      }
      if c == '`' {
        var close := i + 1 + IndexOf(text[i + 1..], '`');
        i := if close == |text| then |text| else close + 1;
        continue;
      }
      if c == '(' {
        depth := depth + 1;
      } else if c == ')' {
        depth := depth - 1;
      }
      i := i + 1;
    }
    end := i;
  }

  /**
   Argument text: plain characters, literals, runes, comments, and balanced
   parentheses. What stands in a rune or a comment is not code.
   */
  datatype Arg =
    | Plain(c: char)
    | Str(body: string)
    | Raw(body: string)
    | Rune(body: string)
    | Comment(body: string)
    | Block(body: string)
    | Parens(args: seq<Arg>)

  predicate Quoteless(s: string) {
    '"' !in s && '`' !in s
  }

  /** As Go has it, but for one thing: no rune and no comment holds a quote or a backquote. */
  predicate WellFormed(args: seq<Arg>) {
    forall k :: 0 <= k < |args| ==>
      match args[k]
      case Plain(c) => c !in {'"', '`', '(', ')'}
      case Str(body) => IsBody(body)
      case Raw(body) => '`' !in body
      case Rune(body) => Quoteless(body)
      case Comment(body) => Quoteless(body) && '\n' !in body
      case Block(body) => Quoteless(body) && forall i :: 0 < i < |body| ==> !(body[i - 1] == '*' && body[i] == '/')
      case Parens(inner) => WellFormed(inner)
  }

  function WrittenOne(arg: Arg): string {
    match arg
    case Plain(c) => [c]
    case Str(body) => Lit(body)
    case Raw(body) => "`" + body + "`"
    case Rune(body) => "'" + (body + "'")
    case Comment(body) => "//" + (body + "\n")
    case Block(body) => "/*" + (body + "*/")
    case Parens(inner) => "(" + (Written(inner) + ")")
  }

  function Written(args: seq<Arg>): string {
    if args == [] then [] else WrittenOne(args[0]) + Written(args[1..])
  }

  // Opening less closing parentheses of a text, and the least there ever are of them.
  function Rise(s: string): int {
    if s == [] then 0 else (if s[0] == '(' then 1 else if s[0] == ')' then -1 else 0) + Rise(s[1..])
  }

  function Low(s: string): int {
    if s == [] then 0
    else
      var step := if s[0] == '(' then 1 else if s[0] == ')' then -1 else 0;
      if step + Low(s[1..]) < 0 then step + Low(s[1..]) else 0
  }

  /** How many more parentheses open than close in the runes and comments of the arguments. */
  function Stray(args: seq<Arg>): int {
    if args == [] then 0 else StrayOne(args[0]) + Stray(args[1..])
  }

  function StrayOne(arg: Arg): int {
    match arg
    case Rune(body) => Rise(body)
    case Comment(body) => Rise(body)
    case Block(body) => Rise(body)
    case Parens(inner) => Stray(inner)
    case _ => 0
  }

  /**
   The least number of parentheses that are open anywhere in the arguments, when
   those in runes and comments are counted with the others: below zero when one
   of them closes what was never opened.
   */
  function Dip(args: seq<Arg>): int {
    if args == [] then 0
    else
      var (first, rest) := (DipOne(args[0]), StrayOne(args[0]) + Dip(args[1..]));
      if first < rest then first else rest
  }

  function DipOne(arg: Arg): (d: int)
    ensures d <= 0
  {
    match arg
    case Rune(body) => Low(body)
    case Comment(body) => Low(body)
    case Block(body) => Low(body)
    case Parens(inner) =>
      var (inside, after) := (1 + Dip(inner), Stray(inner));
      if inside < after && inside < 0 then inside else if after < 0 then after else 0
    case _ => 0
  }

  lemma {:induction false} FirstBacktick(s: string, body: string)
    requires '`' !in body && body + "`" <= s
    ensures IndexOf(s, '`') == |body|
    decreases |body|
  {
    assert s[..|body| + 1] == body + "`" && s[0] == (body + "`")[0];
    if body != [] {
      assert body[0] in body && s[1..][..|body|] == body[1..] + "`";
      assert forall c :: c in body[1..] ==> c in body;
      FirstBacktick(s[1..], body[1..]);
    }
  }

  lemma RawStands(text: string, i: nat, body: string)
    requires '`' !in body && Stands(text, i, "`" + body + "`")
    ensures text[i] == '`' && RawEnd(text, i) == i + |body| + 2
  {
    var s := "`" + body + "`";
    assert text[i..i + |s|] == s && text[i] == s[0];
    assert text[i + 1..][..|body| + 1] == s[1..] == body + "`";
    FirstBacktick(text[i + 1..], body);
  }

  lemma WrittenSplits(args: seq<Arg>)
    requires args != [] && WellFormed(args)
    ensures Written(args) == WrittenOne(args[0]) + Written(args[1..])
    ensures WellFormed(args[1..]) && WellFormed([args[0]])
  {
    forall k | 0 <= k < |args[1..]| ensures args[1..][k] == args[k + 1] {}
  }

  lemma CallEndAt(text: string, i: nat, depth: nat)
    requires i < |text| && depth > 0
    ensures CallEnd(text, i, depth) ==
      if text[i] == '"' then CallEnd(text, SkipEnd(text, i), depth)
      else if text[i] == '`' then CallEnd(text, RawEnd(text, i), depth)
      else CallEnd(text, i + 1, if text[i] == '(' then depth + 1 else if text[i] == ')' then depth - 1 else depth)
  {}

  // What the scan does with a stretch of text: it is over by the end of it if the
  // depth gives out, and otherwise goes on behind it, deeper or less deep.
  ghost predicate Passed(text: string, i: nat, end: nat, depth: nat, low: int, rise: int) {
    && i <= end <= |text| && low <= 0 && low <= rise
    && if depth + low <= 0 then CallEnd(text, i, depth) <= end
       else CallEnd(text, i, depth) == CallEnd(text, end, depth + rise)
  }

  lemma PassedOn(text: string, i: nat, mid: nat, end: nat, depth: nat, low: int, rise: int, low2: int, rise2: int)
    requires depth > 0 && Passed(text, i, mid, depth, low, rise)
    requires mid <= end <= |text| && low2 <= 0 && low2 <= rise2
    requires depth + low > 0 ==> Passed(text, mid, end, depth + rise, low2, rise2)
    ensures Passed(text, i, end, depth, if low < rise + low2 then low else rise + low2, rise + rise2)
  {
    hide CallEnd;
  }

  lemma Stays(text: string, i: nat, end: nat, depth: nat)
    requires i <= end <= |text| && depth > 0 && CallEnd(text, i, depth) == CallEnd(text, end, depth)
    ensures Passed(text, i, end, depth, 0, 0)
  {
    hide CallEnd;
  }

  // A stretch without quotes is scanned character by character.
  lemma {:induction false} PassesText(text: string, i: nat, s: string, depth: nat)
    requires depth > 0 && Quoteless(s) && Stands(text, i, s)
    ensures i + |s| <= |text|
    ensures Passed(text, i, i + |s|, depth, Low(s), Rise(s))
    decreases |s|
  {
    hide CallEnd, Stands;
    StandsBound(text, i, s);
    if s == [] {
      Stays(text, i, i, depth);
    } else {
      assert s == [s[0]] + s[1..];
      StandsParts(text, i, [s[0]], s[1..]);
      CallEndAt(text, i, depth);
      var step := if s[0] == '(' then 1 else if s[0] == ')' then -1 else 0;
      StandsBound(text, i + 1, s[1..]);
      LowBelow(s[1..]);
      if depth + step > 0 {
        assert forall c :: c in s[1..] ==> c in s;
        PassesText(text, i + 1, s[1..], depth + step);
      } else {
        CallOver(text, i + 1);
      }
    }
  }

  lemma {:induction false} LowBelow(s: string)
    ensures Low(s) <= 0 && Low(s) <= Rise(s)
  {
    if s != [] { LowBelow(s[1..]); }
  }

  lemma {:induction false} DipBelow(args: seq<Arg>)
    ensures Dip(args) <= 0 && Dip(args) <= Stray(args)
    decreases args, 1
  {
    if args != [] {
      DipBelow(args[1..]);
      DipOneBelow(args[0]);
    }
  }

  lemma {:induction false} DipOneBelow(arg: Arg)
    ensures DipOne(arg) <= StrayOne(arg)
    decreases arg, 0
  {
    match arg {
      case Rune(body) => LowBelow(body);
      case Comment(body) => LowBelow(body);
      case Block(body) => LowBelow(body);
      case Parens(inner) => DipBelow(inner);
      case _ =>
    }
  }

  lemma {:induction false} PassesOver(text: string, i: nat, args: seq<Arg>, depth: nat)
    requires depth > 0 && WellFormed(args) && Stands(text, i, Written(args))
    ensures i + |Written(args)| <= |text|
    ensures Passed(text, i, i + |Written(args)|, depth, Dip(args), Stray(args))
    decreases args, 1
  {
    hide Written, WrittenOne, CallEnd, Passed, WellFormed, DipOne, StrayOne;
    if args == [] {
      WrittenNothing();
      StandsBound(text, i, []);
      Stays(text, i, i, depth);
    } else {
      WrittenSplits(args);
      StandsParts(text, i, WrittenOne(args[0]), Written(args[1..]));
      StandsBound(text, i, Written(args));
      var mid := i + |WrittenOne(args[0])|;
      var end := mid + |Written(args[1..])|;
      PassesOne(text, i, args[0], depth);
      DipBelow(args[1..]);
      DipOneBelow(args[0]);
      if depth + DipOne(args[0]) > 0 {
        PassesOver(text, mid, args[1..], depth + StrayOne(args[0]));
      }
      PassedOn(text, i, mid, end, depth, DipOne(args[0]), StrayOne(args[0]), Dip(args[1..]), Stray(args[1..]));
    }
  }

  lemma WrittenNothing()
    ensures Written([]) == []
  {}

  lemma {:induction false} PassesOne(text: string, i: nat, arg: Arg, depth: nat)
    requires depth > 0 && WellFormed([arg]) && Stands(text, i, WrittenOne(arg))
    ensures i + |WrittenOne(arg)| <= |text|
    ensures Passed(text, i, i + |WrittenOne(arg)|, depth, DipOne(arg), StrayOne(arg))
    decreases arg, 0
  {
    hide Written, CallEnd, Lit, IsBody, Unescaped, LiteralLen, SkipEnd, RawEnd, Piece, Stands, Dip, Stray, Rise, Low, Passed;
    assert [arg][0] == arg;
    StandsBound(text, i, WrittenOne(arg));
    match arg {
      case Plain(c) =>
        assert [c] + [] == [c];
        StandsParts(text, i, [c], []);
        CallEndAt(text, i, depth);
        Stays(text, i, i + 1, depth);
      case Str(body) =>
        LiteralStands(text, i, body);
        CallEndAt(text, i, depth);
        Stays(text, i, i + |Lit(body)|, depth);
      case Raw(body) =>
        RawStands(text, i, body);
        CallEndAt(text, i, depth);
        Stays(text, i, i + |body| + 2, depth);
      case Rune(body) => PassesBetween(text, i, "'", body, "'", depth);
      case Comment(body) => PassesBetween(text, i, "//", body, "\n", depth);
      case Block(body) => PassesBetween(text, i, "/*", body, "*/", depth);
      case Parens(inner) =>
        StandsParts(text, i, "(", Written(inner) + ")");
        StandsParts(text, i + 1, Written(inner), ")");
        PassesOver(text, i + 1, inner, depth + 1);
        DipBelow(inner);
        ParensPassed(text, i, i + 1 + |Written(inner)|, depth, Dip(inner), Stray(inner));
    }
  }

  // Text between delimiters that mean nothing to the scan.
  lemma PassesBetween(text: string, i: nat, open: string, body: string, close: string, depth: nat)
    requires depth > 0 && Quoteless(body) && Stands(text, i, open + (body + close))
    requires Meaningless(open) && Meaningless(close)
    ensures i + |open + (body + close)| <= |text|
    ensures Passed(text, i, i + |open + (body + close)|, depth, Low(body), Rise(body))
  {
    hide CallEnd, Stands, Passed, Low, Rise, Quoteless;
    StandsBound(text, i, open + (body + close));
    StandsParts(text, i, open, body + close);
    StandsParts(text, i + |open|, body, close);
    Delimiter(open);
    Delimiter(close);
    LowBelow(body);
    PassesText(text, i, open, depth);
    PassesText(text, i + |open|, body, depth);
    var end := i + |open| + |body|;
    if depth + Low(body) > 0 { PassesText(text, end, close, depth + Rise(body)); }
    PassedOn(text, i + |open|, end, end + |close|, depth, Low(body), Rise(body), 0, 0);
    PassedOn(text, i, i + |open|, end + |close|, depth, 0, 0, Low(body), Rise(body));
  }

  predicate Meaningless(s: string) {
    forall c :: c in s ==> c !in {'"', '`', '(', ')'}
  }

  lemma {:induction false} Delimiter(s: string)
    requires Meaningless(s)
    ensures Low(s) == Rise(s) == 0 && Quoteless(s)
  {
    if s != [] {
      assert s[0] in s && forall c :: c in s[1..] ==> c in s;
      Delimiter(s[1..]);
    }
  }

  lemma CallOver(text: string, i: nat)
    requires i <= |text|
    ensures CallEnd(text, i, 0) == i
  {}

  lemma ParensPassed(text: string, i: nat, close: nat, depth: nat, dip: int, stray: int)
    requires depth > 0 && i < close < |text| && text[i] == '(' && text[close] == ')'
    requires Passed(text, i + 1, close, depth + 1, dip, stray)
    ensures var low := if 1 + dip < stray && 1 + dip < 0 then 1 + dip else if stray < 0 then stray else 0;
            Passed(text, i, close + 1, depth, low, stray)
  {
    hide CallEnd;
    CallEndAt(text, i, depth);
    CallOver(text, close + 1);
    if depth + 1 + dip > 0 {
      CallEndAt(text, close, depth + 1 + stray);
    }
  }

  lemma GoesOn(text: string, i: nat, depth: nat)
    requires i < |text| && depth > 0
    ensures CallEnd(text, i, depth) > i
  {}

  /**
   A call whose arguments nest parentheses and hold literals, runes and comments
   in any way ends at its own closing parenthesis exactly when the parentheses in
   the runes and comments come out even and never close what is not open; a
   surplus of opening ones is harmless only where the whole text ends with the
   call.
   */
  lemma EndsAtItsParen(text: string, afterOpen: nat, args: seq<Arg>)
    requires WellFormed(args) && Stands(text, afterOpen, Written(args) + ")")
    ensures var own := afterOpen + |Written(args)| + 1;
            && own <= |text|
            && (CallEnd(text, afterOpen, 1) == own <==> Dip(args) == 0 && (Stray(args) == 0 || own == |text|))
            && (Dip(args) < 0 ==> CallEnd(text, afterOpen, 1) < own)
  {
    hide CallEnd, Written, WellFormed, Dip, Stray, Stands;
    var close := afterOpen + |Written(args)|;
    StandsBound(text, afterOpen, Written(args) + ")");
    StandsParts(text, afterOpen, Written(args), ")");
    PassesOver(text, afterOpen, args, 1);
    DipBelow(args);
    CallOver(text, close + 1);
    if Dip(args) == 0 {
      CallEndAt(text, close, 1 + Stray(args));
      if Stray(args) > 0 && close + 1 < |text| { GoesOn(text, close + 1, Stray(args)); }
    }
  }

  /** Such a call: it ends inside its rune. */
  lemma RuneParenEndsTheCall()
    ensures CallEnd("')')", 0, 1) == 2
  {
    var text := "')')";
    assert CallEnd(text, 2, 0) == 2;
    assert CallEnd(text, 1, 1) == 2;
  }

  /** And one that ends inside its comment. */
  lemma CommentParenEndsTheCall()
    ensures CallEnd("/* ) */)", 0, 1) == 4
  {
    var text := "/* ) */)";
    assert CallEnd(text, 4, 0) == 4;
    assert CallEnd(text, 3, 1) == 4 && CallEnd(text, 2, 1) == 4;
    assert CallEnd(text, 1, 1) == 4;
  }

  /** A quote in a rune or a comment opens a literal that is none: these calls run on past their end. */
  lemma QuoteRunsOn()
    ensures CallEnd("'\"')x", 0, 1) == 5 && CallEnd("'`')x", 0, 1) == 5
    ensures CallEnd("/*\"*/)x", 0, 1) == 7
  {
    QuoteToTheEnd("'\"')x", 1);
    QuoteToTheEnd("'`')x", 1);
    QuoteToTheEnd("/*\"*/)x", 2);
    assert CallEnd("/*\"*/)x", 1, 1) == 7;
  }

  // A quote or backquote without its like behind it takes the rest of the line, here of the text.
  lemma QuoteToTheEnd(text: string, i: nat)
    requires i < |text| && text[i] in {'"', '`'}
    requires forall k :: i < k < |text| ==> text[k] !in {'"', '`', '\n', '\\'}
    ensures CallEnd(text, i, 1) == |text|
  {
    CallEndAt(text, i, 1);
    if text[i] == '"' { LiteralToTheEnd(text[i + 1..], '"'); } else { IndexOfIsFirst(text[i + 1..], '`'); }
  }

  lemma {:induction false} LiteralToTheEnd(s: string, q: char)
    requires q !in s && '\n' !in s && '\\' !in s
    ensures LiteralLen(s, q, Stops(Logging)) == |s|
  {
    if s != [] {
      assert s[0] in s && forall c :: c in s[1..] ==> c in s;
      LiteralToTheEnd(s[1..], q);
    }
  }

  // ------------------------------------------------------------- the scanner

  function TokenAt(text: string, i: nat): (t: Token)
    requires i < |text|
    ensures t.text != [] && i + |t.text| <= |text|
  {
    First(text[i..], Stops(Logging))
  }

  // A call opens at `i`, in code.
  predicate CallAt(text: string, i: nat)
    requires i < |text|
  {
    TokenAt(text, i).kind == Code && LogCall(text, i).Some?
  }

  function SiteAt(text: string, i: nat, line: nat): Site
    requires i < |text| && CallAt(text, i)
  {
    var (func, end) := LogCall(text, i).value;
    Site(i, line, func, Leading(text, end).0, CallEnd(text, end, 1))
  }

  function SitesFrom(text: string, i: nat, line: nat): seq<Site>
    requires i <= |text|
    decreases |text| - i
  {
    if i == |text| then []
    else if CallAt(text, i) then [SiteAt(text, i, line)] + SitesFrom(text, LogCall(text, i).value.1, line)
    else SitesFrom(text, i + |TokenAt(text, i).text|, line + Credit(Logging, TokenAt(text, i)))
  }

  ghost predicate Upto(text: string, sites: seq<Site>, i: nat, line: nat) {
    i <= |text| && SitesFrom(text, 0, 1) == sites + SitesFrom(text, i, line)
  }

  lemma UptoCall(text: string, sites: seq<Site>, i: nat, line: nat)
    requires i < |text| && Upto(text, sites, i, line) && CallAt(text, i)
    ensures Upto(text, sites + [SiteAt(text, i, line)], LogCall(text, i).value.1, line)
  {
    hide SiteAt, LogCall;
    ghost var rest := SitesFrom(text, LogCall(text, i).value.1, line);
    assert sites + ([SiteAt(text, i, line)] + rest) == sites + [SiteAt(text, i, line)] + rest;
  }

  lemma UptoToken(text: string, sites: seq<Site>, i: nat, line: nat)
    requires i < |text| && Upto(text, sites, i, line) && !CallAt(text, i)
    ensures Upto(text, sites, i + |TokenAt(text, i).text|, line + Credit(Logging, TokenAt(text, i)))
  {}

  // What the scanner reads at `i`, by the character that stands there.
  lemma CodeAt(text: string, i: nat)
    requires i < |text| && !IsQuote(text[i])
    requires text[i] == '/' && i + 1 < |text| ==> text[i + 1] !in "/*"
    ensures TokenAt(text, i) == Token(Code, [text[i]])
    ensures Credit(Logging, TokenAt(text, i)) == if text[i] == '\n' then 1 else 0
  {
    assert text[i..][0] == text[i] && (i + 1 < |text| ==> text[i..][1] == text[i + 1]);
    assert [text[i]][0] == text[i] && [text[i]][1..] == [] && Newlines([]) == 0;
  }

  lemma LineAt(text: string, i: nat)
    requires i + 1 < |text| && text[i] == '/' && text[i + 1] == '/'
    ensures TokenAt(text, i).kind == LineComment && Credit(Logging, TokenAt(text, i)) == 0
    ensures |TokenAt(text, i).text| == IndexOf(text[i..], '\n')
  {
    var s := text[i..];
    assert s[0] == '/' && s[1] == '/';
    IndexOfIsFirst(s, '\n');
    NoNewlines(s[..IndexOf(s, '\n')]);
  }

  lemma BlockAt(text: string, i: nat)
    requires i + 1 < |text| && text[i] == '/' && text[i + 1] == '*'
    ensures var end := i + 2 + CloseOf(text[i + 2..]);
            TokenAt(text, i) == Token(BlockComment, text[i..end])
            && Credit(Logging, TokenAt(text, i)) == Newlines(text[i..end])
  {
    var s := text[i..];
    assert s[0] == '/' && s[1] == '*' && s[2..] == text[i + 2..];
  }

  lemma RawAt(text: string, i: nat)
    requires i < |text| && text[i] == '`'
    ensures TokenAt(text, i) == Token(Literal('`'), text[i..RawEnd(text, i)])
    ensures Credit(Logging, TokenAt(text, i)) == Newlines(text[i..RawEnd(text, i)])
  {
    var s := text[i..];
    assert s[0] == '`' && s[1..] == text[i + 1..];
    RawLength(s[1..]);
  }

  lemma {:induction false} RawLength(s: string)
    ensures LiteralLen(s, '`', Stops(Logging)) == if IndexOf(s, '`') == |s| then |s| else IndexOf(s, '`') + 1
  {
    if s != [] && s[0] != '`' { RawLength(s[1..]); }
  }

  lemma QuotedAt(text: string, i: nat)
    requires i < |text| && (text[i] == '"' || text[i] == '\'')
    ensures TokenAt(text, i).kind == Literal(text[i]) && Credit(Logging, TokenAt(text, i)) == 0
    ensures |TokenAt(text, i).text| == 1 + LiteralLen(text[i + 1..], text[i], Stops(Logging))
  {
    assert text[i..][0] == text[i] && text[i..][1..] == text[i + 1..];
  }

  lemma RuneTurn(text: string, j: nat)
    requires j < |text|
    ensures var n := LiteralLen(text[j..], '\'', Stops(Logging));
            if text[j] == '\'' then n == 1
            else if text[j] == '\\' && j + 1 == |text| then n == 1
            else if text[j] == '\\' then n == 2 + LiteralLen(text[j + 2..], '\'', Stops(Logging))
            else n == 1 + LiteralLen(text[j + 1..], '\'', Stops(Logging))
  {
    assert text[j..][0] == text[j] && text[j..][1..] == text[j + 1..];
    if j + 2 <= |text| { assert text[j..][2..] == text[j + 2..]; }
  }

  // A rune literal; unlike a string it is not given up at a newline.
  method SkipRune(text: string, i: nat) returns (end: nat)
    requires i < |text| && text[i] == '\''
    ensures end == i + 1 + LiteralLen(text[i + 1..], '\'', Stops(Logging))
  {
    hide LiteralLen;
    var j: nat := i + 1;
    ghost var stop := i + 1 + LiteralLen(text[i + 1..], '\'', Stops(Logging));
    while j < |text| && text[j] != '\''
      invariant j <= |text| ==> stop == j + LiteralLen(text[j..], '\'', Stops(Logging))
      invariant j > |text| ==> stop == |text|
    {
      RuneTurn(text, j);
      j := j + if text[j] == '\\' then 2 else 1;
    }
    if j < |text| { RuneTurn(text, j); } else if j == |text| { assert text[j..] == []; }
    end := if j + 1 < |text| then j + 1 else |text|;
  }

  method StripAndFind(text: string) returns (sites: seq<Site>)
    ensures sites == SitesFrom(text, 0, 1)
  {
    hide First, TokenAt, Credit, LiteralLen, IndexOf, CloseOf, Newlines, SitesFrom, LogCall, CallEnd, Leading, Upto;
    var i: nat, line: nat, n := 0, 1, |text|;
    sites := [];
    UptoStart(text);
    while i < n
      invariant i <= n && Upto(text, sites, i, line)
      decreases n - i
    {
      var c := text[i];
      if c == '\n' {
        CodeAt(text, i);
        NoCall(text, i);
        UptoToken(text, sites, i, line);
        line, i := line + 1, i + 1;
        continue;
      }
      if c == '/' && i + 1 < n && text[i + 1] == '/' {
        LineAt(text, i);
        UptoToken(text, sites, i, line);
        i := i + IndexOf(text[i..], '\n');
        continue;
      }
      if c == '/' && i + 1 < n && text[i + 1] == '*' {
        BlockAt(text, i);
        UptoToken(text, sites, i, line);
        var end := i + 2 + CloseOf(text[i + 2..]);
        line, i := line + Newlines(text[i..end]), end;
        continue;
      }
      if c == '`' {
        RawAt(text, i);
        UptoToken(text, sites, i, line);
        var end := RawEnd(text, i);
        line, i := line + Newlines(text[i..end]), end;
        continue;
      }
      if c == '"' {
        QuotedAt(text, i);
        UptoToken(text, sites, i, line);
        i := SkipInterpreted(text, i);
        continue;
      }
      if c == '\'' {
        QuotedAt(text, i);
        UptoToken(text, sites, i, line);
        i := SkipRune(text, i);
        continue;
      }
      CodeAt(text, i);
      var call := LogCall(text, i);
      if call.Some? {
        UptoCall(text, sites, i, line);
        var (func, end) := call.value;
        var literal, _ := LeadingLiteral(text, end);
        var close := CallExtent(text, end);
        sites := sites + [Site(i, line, func, literal, close)];
        i := end;
        continue;
      }
      UptoToken(text, sites, i, line);
      i := i + 1;
    }
    UptoEnd(text, sites, i, line);
  }

  lemma NoCall(text: string, i: nat)
    requires i < |text| && text[i] != 'l'
    ensures LogCall(text, i) == None
  {
    if i + 4 <= |text| { assert text[i..i + 4][0] == text[i]; }
  }

  lemma UptoStart(text: string)
    ensures Upto(text, [], 0, 1)
  {}

  lemma UptoEnd(text: string, sites: seq<Site>, i: nat, line: nat)
    requires Upto(text, sites, i, line) && i == |text|
    ensures sites == SitesFrom(text, 0, 1)
  {}

  // --------------------------------------------- which calls are reported

  // Inside the head of a call, up to its parenthesis, no other call opens and
  // every character is a token of code by itself.
  lemma {:induction false} WordRun(text: string, i: nat)
    requires i <= |text|
    ensures forall p :: i <= p < WordEnd(text, i) ==> IsWord(text[p])
    decreases |text| - i
  {
    if i < |text| && IsWord(text[i]) { WordRun(text, i + 1); }
  }

  lemma {:induction false} SpaceRun(text: string, i: nat)
    requires i <= |text|
    ensures forall p :: i <= p < SpaceEnd(text, i) ==> IsSpace(text[p])
    decreases |text| - i
  {
    if i < |text| && IsSpace(text[i]) { SpaceRun(text, i + 1); }
  }

  lemma HeadChars(text: string, i: nat)
    requires i < |text| && LogCall(text, i).Some?
    ensures var end := LogCall(text, i).value.1;
            && text[i] == 'l'
            && forall p :: i <= p < end ==>
                 && text[p] != '/' && !IsQuote(text[p])
                 && (i < p ==> text[p] != 'l' || !Boundary(text, p))
  {
    var j := WordEnd(text, i + 4);
    var k := SpaceEnd(text, j);
    WordRun(text, i + 4);
    SpaceRun(text, j);
    var head := text[i..i + 4];
    assert head[0] == text[i] && head[1] == text[i + 1] && head[2] == text[i + 2] && head[3] == text[i + 3];
    var func := text[i + 4..j];
    assert func != [] && func[0] == text[i + 4] && func[0] in {'P', 'F'} by { FuncStarts(func); }
    forall p | i <= p < k + 1
      ensures text[p] != '/' && !IsQuote(text[p]) && (i < p ==> text[p] != 'l' || !Boundary(text, p))
    {
      if i + 4 < p < j { assert IsWord(text[p - 1]); }
    }
  }

  lemma FuncStarts(func: string)
    requires func in LOG_FUNCS
    ensures func != [] && func[0] in {'P', 'F'}
  {}

  lemma NoCallInside(text: string, i: nat, p: nat)
    requires i < |text| && LogCall(text, i).Some? && i < p < LogCall(text, i).value.1
    ensures LogCall(text, p) == None
  {
    HeadChars(text, i);
    if text[p] != 'l' { NoCall(text, p); }
  }

  ghost predicate Reported(sites: seq<Site>, p: nat) {
    exists k :: 0 <= k < |sites| && sites[k].at == p
  }

  lemma KindSplits(text: string, i: nat, p: nat)
    requires i <= p < |text|
    ensures var j := i + |TokenAt(text, i).text|;
            KindAt(text[i..], p - i, Stops(Logging)) ==
            if p < j then TokenAt(text, i).kind else KindAt(text[j..], p - j, Stops(Logging))
  {
    hide First;
    var j := i + |TokenAt(text, i).text|;
    assert text[i..][j - i..] == text[j..];
  }

  lemma {:induction false} KindPastHead(text: string, i: nat, j: nat, p: nat)
    requires i <= j <= |text| && i <= p < |text|
    requires forall q :: i <= q < j ==> text[q] != '/' && !IsQuote(text[q])
    ensures KindAt(text[i..], p - i, Stops(Logging)) ==
            if p < j then Code else KindAt(text[j..], p - j, Stops(Logging))
    decreases j - i
  {
    hide KindAt, TokenAt;
    if i < j {
      KindSplits(text, i, p);
      CodeAt(text, i);
      if p > i { KindPastHead(text, i + 1, j, p); }
    }
  }

  lemma ReportedConcat(site: Site, sites: seq<Site>, p: nat)
    ensures Reported([site] + sites, p) <==> site.at == p || Reported(sites, p)
  {
    var all := [site] + sites;
    assert all[0] == site;
    if Reported(sites, p) {
      var k :| 0 <= k < |sites| && sites[k].at == p;
      assert all[k + 1] == sites[k];
    }
    if Reported(all, p) && site.at != p {
      var k :| 0 <= k < |all| && all[k].at == p;
      assert sites[k - 1] == all[k];
    }
  }

  lemma {:induction false} ReportedFrom(text: string, i: nat, line: nat, p: nat)
    requires i <= |text| && p < |text|
    ensures Reported(SitesFrom(text, i, line), p) <==>
            i <= p && KindAt(text[i..], p - i, Stops(Logging)) == Code && LogCall(text, p).Some?
    decreases |text| - i
  {
    hide KindAt, TokenAt, Credit, LogCall, Leading, CallEnd, Reported;
    if i == |text| {
      NoneReported(p);
    } else if CallAt(text, i) {
      var end := LogCall(text, i).value.1;
      var rest := SitesFrom(text, end, line);
      ReportedConcat(SiteAt(text, i, line), rest, p);
      ReportedFrom(text, end, line, p);
      if p >= i {
        HeadChars(text, i);
        KindPastHead(text, i, end, p);
        if i < p < end { NoCallInside(text, i, p); }
      }
    } else {
      var t := TokenAt(text, i);
      ReportedFrom(text, i + |t.text|, line + Credit(Logging, t), p);
      if p >= i {
        KindSplits(text, i, p);
        if t.kind == Code { CodeIsOne(text, i); }
      }
    }
  }

  lemma CodeIsOne(text: string, i: nat)
    requires i < |text| && TokenAt(text, i).kind == Code
    ensures |TokenAt(text, i).text| == 1
  {}

  lemma NoneReported(p: nat)
    ensures !Reported([], p)
  {}

  /** A call is reported exactly where one opens in code: none is missed or invented. */
  lemma ReportsCodeCalls(text: string, p: nat)
    requires p < |text|
    ensures Reported(SitesFrom(text, 0, 1), p) <==>
            KindAt(text, p, Stops(Logging)) == Code && LogCall(text, p).Some?
  {
    hide KindAt, LogCall, SitesFrom, Reported;
    assert text[0..] == text;
    ReportedFrom(text, 0, 1, p);
  }

  /** On unbroken text that is code for the comment blanker and the drift scanner too. */
  lemma ReportsWhereAllAgree(text: string, p: nat, scanner: Scanner)
    requires Unbroken(text) && p < |text|
    ensures Reported(SitesFrom(text, 0, 1), p) <==>
            KindAt(text, p, Stops(scanner)) == Code && LogCall(text, p).Some?
  {
    ReportsCodeCalls(text, p);
    UnbrokenTokens(text, Stops(Logging));
    UnbrokenTokens(text, Stops(scanner));
    SameKinds(text, p, Stops(Logging));
    SameKinds(text, p, Stops(scanner));
  }

  // ------------------------------------------------------- line and order

  /** A log call opens at `c`, in code. */
  predicate CodeCall(text: string, c: nat) {
    c < |text| && KindAt(text, c, Stops(Logging)) == Code && LogCall(text, c).Some?
  }

  /** The character at `p` stands in a call, before its arguments. */
  ghost predicate InHead(text: string, p: nat) {
    exists c :: 0 <= c <= p && CodeCall(text, c) && p < LogCall(text, c).value.1
  }

  predicate IsShort(kind: Kind) {
    kind.Literal? && kind.quote != '`'
  }

  /** A newline in an interpreted literal or a rune, or between the name of a call and its parenthesis. */
  ghost predicate Uncounted(text: string, p: nat)
    requires p < |text|
  {
    text[p] == '\n' && (IsShort(KindAt(text, p, Stops(Logging))) || InHead(text, p))
  }

  /** How many such newlines stand before `n`. */
  ghost function Lost(text: string, n: nat): nat
    requires n <= |text|
  {
    if n == 0 then 0 else Lost(text, n - 1) + if Uncounted(text, n - 1) then 1 else 0
  }

  lemma {:induction false} LostOver(text: string, i: nat, j: nat, all: bool)
    requires i <= j <= |text|
    requires forall p :: i <= p < j && text[p] == '\n' ==> (Uncounted(text, p) <==> all)
    ensures Lost(text, j) == Lost(text, i) + if all then Newlines(text[i..j]) else 0
    decreases j - i
  {
    hide Uncounted, Newlines;
    if i == j {
      assert text[i..j] == [];
      NoNewlines([]);
    } else {
      LostOver(text, i, j - 1, all);
      assert text[i..j] == text[i..j - 1] + [text[j - 1]];
      NewlinesOfConcat(text[i..j - 1], [text[j - 1]]);
      OneCharacter(text[j - 1]);
      if text[j - 1] != '\n' { NotLost(text, j - 1); }
    }
  }

  lemma OneCharacter(c: char)
    ensures Newlines([c]) == if c == '\n' then 1 else 0
  {
    assert [c][1..] == [];
  }

  lemma NotLost(text: string, p: nat)
    requires p < |text| && text[p] != '\n'
    ensures !Uncounted(text, p)
  {}

  lemma {:induction false} LostNone(text: string, n: nat)
    requires n <= |text|
    ensures Lost(text, n) == 0 <==> forall p :: 0 <= p < n ==> !Uncounted(text, p)
  {
    hide Uncounted;
    if n > 0 { LostNone(text, n - 1); }
  }

  lemma LinesSplit(text: string, i: nat, j: nat)
    requires i <= j <= |text|
    ensures Newlines(text[..j]) == Newlines(text[..i]) + Newlines(text[i..j])
  {
    NewlinesOfConcat(text[..i], text[i..j]);
    assert text[..j] == text[..i] + text[i..j];
  }

  // Where the scanner stands between two tokens: the rest is read as it is in the
  // whole text, no head reaches in, and the count is short by what was lost.
  ghost predicate Between(text: string, i: nat, line: nat) {
    && i <= |text|
    && (forall p :: i <= p < |text| ==> KindAt(text[i..], p - i, Stops(Logging)) == KindAt(text, p, Stops(Logging)))
    && (forall c :: 0 <= c < i && CodeCall(text, c) ==> LogCall(text, c).value.1 <= i)
    && line + Lost(text, i) == 1 + Newlines(text[..i])
  }

  lemma StartsBetween(text: string)
    ensures Between(text, 0, 1)
  {
    assert text[0..] == text && text[..0] == [];
  }

  lemma HereIsCall(text: string, i: nat, line: nat)
    requires Between(text, i, line) && i < |text|
    ensures CallAt(text, i) <==> CodeCall(text, i)
  {
    hide TokenAt, LogCall, KindAt;
    KindSplits(text, i, i);
  }

  lemma PastCall(text: string, i: nat, line: nat)
    requires Between(text, i, line) && i < |text| && CallAt(text, i)
    ensures Between(text, LogCall(text, i).value.1, line)
  {
    hide TokenAt, LogCall, KindAt, Newlines, Lost;
    var end := LogCall(text, i).value.1;
    HereIsCall(text, i, line);
    HeadChars(text, i);
    forall p | end <= p < |text| ensures KindAt(text[end..], p - end, Stops(Logging)) == KindAt(text, p, Stops(Logging)) {
      KindPastHead(text, i, end, p);
    }
    forall c | i < c < end ensures !CodeCall(text, c) {
      NoCallInside(text, i, c);
    }
    LostOver(text, i, end, true);
    LinesSplit(text, i, end);
  }

  lemma PastToken(text: string, i: nat, line: nat)
    requires Between(text, i, line) && i < |text| && !CallAt(text, i)
    ensures var t := TokenAt(text, i); Between(text, i + |t.text|, line + Credit(Logging, t))
  {
    hide TokenAt, LogCall, KindAt, Newlines, Lost;
    var t := TokenAt(text, i);
    var j := i + |t.text|;
    forall p | i <= p < |text|
      ensures KindAt(text, p, Stops(Logging)) == if p < j then t.kind else KindAt(text[j..], p - j, Stops(Logging))
    {
      KindSplits(text, i, p);
    }
    HereIsCall(text, i, line);
    if t.kind == Code { CodeIsOne(text, i); }
    assert forall c :: i <= c < j ==> !CodeCall(text, c);
    LostOver(text, i, j, IsShort(t.kind));
    LinesSplit(text, i, j);
    TokenText(text, i);
  }

  lemma TokenText(text: string, i: nat)
    requires i < |text|
    ensures TokenAt(text, i).text == text[i..i + |TokenAt(text, i).text|]
  {
    var t := TokenAt(text, i);
    assert t.text == text[i..][..|t.text|];
  }

  lemma SitesUnfold(text: string, i: nat, line: nat)
    requires i <= |text|
    ensures SitesFrom(text, i, line) ==
            if i == |text| then []
            else if CallAt(text, i) then [SiteAt(text, i, line)] + SitesFrom(text, LogCall(text, i).value.1, line)
            else SitesFrom(text, i + |TokenAt(text, i).text|, line + Credit(Logging, TokenAt(text, i)))
  {
    hide TokenAt, Credit, LogCall, Leading, CallEnd;
  }

  // Reported from `i` on, in order, each with its line but for the newlines lost before it.
  ghost predicate InOrder(text: string, sites: seq<Site>, i: nat) {
    && (forall k :: 0 <= k < |sites| ==> Placed(text, sites[k], i))
    && (forall k, l :: 0 <= k < l < |sites| ==> sites[k].at < sites[l].at)
  }

  ghost predicate Placed(text: string, site: Site, i: nat) {
    i <= site.at < |text| && site.line + Lost(text, site.at) == 1 + Newlines(text[..site.at])
  }

  lemma {:induction false} InOrderFrom(text: string, i: nat, line: nat)
    requires i <= |text| && Between(text, i, line)
    ensures InOrder(text, SitesFrom(text, i, line), i)
    decreases |text| - i
  {
    hide TokenAt, Credit, LogCall, Leading, CallEnd, Newlines, Lost, InOrder, SitesFrom, CodeCall, Between, Placed;
    SitesUnfold(text, i, line);
    HerePlaced(text, i, line);
    if i == |text| {
      NoneInOrder(text, i);
    } else if CallAt(text, i) {
      var end := LogCall(text, i).value.1;
      PastCall(text, i, line);
      InOrderFrom(text, end, line);
      InOrderOn(text, [SiteAt(text, i, line)], SitesFrom(text, end, line), i, end);
    } else {
      var t := TokenAt(text, i);
      var j := i + |t.text|;
      PastToken(text, i, line);
      InOrderFrom(text, j, line + Credit(Logging, t));
      var rest := SitesFrom(text, j, line + Credit(Logging, t));
      InOrderOn(text, [], rest, i, j);
      assert [] + rest == rest;
    }
  }

  lemma HerePlaced(text: string, i: nat, line: nat)
    requires Between(text, i, line)
    ensures i < |text| && CallAt(text, i) ==> Placed(text, SiteAt(text, i, line), i)
  {
    hide TokenAt, LogCall, Leading, CallEnd, Lost, Newlines;
  }

  lemma NoneInOrder(text: string, i: nat)
    ensures InOrder(text, [], i)
  {}

  // One site or none in front of the sites further on.
  lemma InOrderOn(text: string, own: seq<Site>, rest: seq<Site>, i: nat, j: nat)
    requires i < j <= |text| && InOrder(text, rest, j) && |own| <= 1
    requires own != [] ==> own[0].at == i && Placed(text, own[0], i)
    ensures InOrder(text, own + rest, i)
  {
    hide Newlines, Lost;
    var all := own + rest;
    assert forall k :: |own| <= k < |all| ==> all[k] == rest[k - |own|];
  }

  /** Calls come out in the order of the source, on every text. */
  lemma SitesInOrder(text: string)
    ensures var sites := SitesFrom(text, 0, 1);
            && (forall k :: 0 <= k < |sites| ==> sites[k].at < |text|)
            && (forall k, l :: 0 <= k < l < |sites| ==> sites[k].at < sites[l].at)
  {
    hide SitesFrom, Between, Lost, Newlines;
    StartsBetween(text);
    InOrderFrom(text, 0, 1);
  }

  /** Every call is reported on its own line less the newlines that went uncounted before it, on every text. */
  lemma LineIsShort(text: string, site: Site)
    requires site in SitesFrom(text, 0, 1)
    ensures site.at < |text| && site.line + Lost(text, site.at) == 1 + Newlines(text[..site.at])
  {
    hide SitesFrom, Between, Lost, Newlines;
    StartsBetween(text);
    InOrderFrom(text, 0, 1);
  }

  ghost predicate TrueLine(text: string, site: Site) {
    site.at <= |text| && site.line == 1 + Newlines(text[..site.at])
  }

  /**
   Every call carries its true line number exactly when no interpreted literal or
   rune with a newline in it, and no call split before its parenthesis, has a
   call behind it.
   */
  lemma LinesAreTrueIff(text: string)
    ensures (forall site :: site in SitesFrom(text, 0, 1) ==> TrueLine(text, site)) <==>
            forall p, c :: 0 <= p < c && CodeCall(text, c) ==> !Uncounted(text, p)
  {
    hide SitesFrom, Lost, Newlines, KindAt, LogCall, Uncounted;
    var sites := SitesFrom(text, 0, 1);
    forall site | site in sites
      ensures CodeCall(text, site.at) && (TrueLine(text, site) <==> forall p :: 0 <= p < site.at ==> !Uncounted(text, p))
    {
      LineIsShort(text, site);
      LostNone(text, site.at);
      var k :| 0 <= k < |sites| && sites[k] == site;
      assert Reported(sites, site.at);
      ReportsCodeCalls(text, site.at);
    }
    forall c | CodeCall(text, c) ensures exists site :: site in sites && site.at == c {
      ReportsCodeCalls(text, c);
      var k :| 0 <= k < |sites| && sites[k].at == c;
      assert sites[k] in sites;
    }
  }

  lemma {:induction false} TidyKind(s: string, p: nat)
    requires p < |s| && s[p] == '\n'
    requires forall t :: t in Tokens(s, Stops(Logging)) && IsShort(t.kind) ==> '\n' !in t.text
    ensures !IsShort(KindAt(s, p, Stops(Logging)))
    decreases |s|
  {
    var t := First(s, Stops(Logging));
    var rest := s[|t.text|..];
    assert Tokens(s, Stops(Logging)) == [t] + Tokens(rest, Stops(Logging));
    assert t in Tokens(s, Stops(Logging));
    if p < |t.text| {
      assert t.text[p] == s[p];
    } else {
      assert rest[p - |t.text|] == s[p];
      TidyKind(rest, p - |t.text|);
    }
  }

  /** On tidy text only a split call can do it. */
  lemma TidyLinesAreTrueIff(text: string)
    requires Tidy(text)
    ensures (forall site :: site in SitesFrom(text, 0, 1) ==> TrueLine(text, site)) <==>
            forall b, c :: 0 <= b < c && CodeCall(text, b) && CodeCall(text, c) ==> '\n' !in text[b..LogCall(text, b).value.1]
  {
    hide SitesFrom, KindAt, LogCall, TrueLine, Tokens;
    LinesAreTrueIff(text);
    TidyIsUnbroken(text);
    UnbrokenTokens(text, Stops(Logging));
    forall p: nat | p < |text| ensures Uncounted(text, p) <==> text[p] == '\n' && InHead(text, p) {
      if text[p] == '\n' { TidyKind(text, p); }
    }
    if forall p, c :: 0 <= p < c && CodeCall(text, c) ==> !Uncounted(text, p) {
      forall b, c | 0 <= b < c && CodeCall(text, b) && CodeCall(text, c)
        ensures '\n' !in text[b..LogCall(text, b).value.1]
      {
        HeadEndsBefore(text, b, c);
        forall p | b <= p < LogCall(text, b).value.1 ensures text[p] != '\n' {
          assert InHead(text, p);
        }
      }
    }
    if forall b, c :: 0 <= b < c && CodeCall(text, b) && CodeCall(text, c) ==> '\n' !in text[b..LogCall(text, b).value.1] {
      forall p, c | 0 <= p < c && CodeCall(text, c) ensures !Uncounted(text, p) {
        if InHead(text, p) {
          var b :| 0 <= b <= p && CodeCall(text, b) && p < LogCall(text, b).value.1;
          assert text[b..LogCall(text, b).value.1][p - b] == text[p];
        }
      }
    }
  }

  lemma HeadEndsBefore(text: string, b: nat, c: nat)
    requires b < c && CodeCall(text, b) && CodeCall(text, c)
    ensures LogCall(text, b).value.1 <= c
  {
    hide LogCall, KindAt;
    if c < LogCall(text, b).value.1 { NoCallInside(text, b, c); }
  }

  lemma {:induction false} WordEndIs(text: string, i: nat, j: nat)
    requires i <= j <= |text| && (forall k :: i <= k < j ==> IsWord(text[k])) && (j < |text| ==> !IsWord(text[j]))
    ensures WordEnd(text, i) == j
    decreases j - i
  {
    if i < j { WordEndIs(text, i + 1, j); }
  }

  lemma {:induction false} SpaceEndIs(text: string, i: nat, j: nat)
    requires i <= j <= |text| && (forall k :: i <= k < j ==> IsSpace(text[k])) && (j < |text| ==> !IsSpace(text[j]))
    ensures SpaceEnd(text, i) == j
    decreases j - i
  {
    if i < j { SpaceEndIs(text, i + 1, j); }
  }

  lemma PrintCall(text: string, i: nat, k: nat)
    requires i + 9 <= k < |text| && Boundary(text, i) && text[i..i + 9] == "log.Print" && text[k] == '('
    requires forall p :: i + 9 <= p < k ==> IsSpace(text[p])
    ensures LogCall(text, i) == Some(("Print", k + 1))
  {
    var head := text[i..i + 9];
    assert text[i..i + 4] == head[..4] == "log.";
    assert text[i + 4..i + 9] == head[4..] == "Print";
    assert forall p :: i + 4 <= p < i + 9 ==> text[p] == "Print"[p - (i + 4)];
    WordEndIs(text, i + 4, i + 9);
    SpaceEndIs(text, i + 9, k);
  }

  lemma AllCode(text: string)
    requires forall p :: 0 <= p < |text| ==> text[p] != '/' && !IsQuote(text[p])
    ensures forall p :: 0 <= p < |text| ==> KindAt(text, p, Stops(Logging)) == Code
  {
    hide KindAt;
    assert text[0..] == text;
    forall p | 0 <= p < |text| ensures KindAt(text, p, Stops(Logging)) == Code {
      KindPastHead(text, 0, |text|, p);
    }
  }

  /** A call split before its parenthesis, and one behind it that is reported a line too early. */
  lemma SplitCallMiscounts()
    ensures var text := "log.Print\n(x)\nlog.Print(y)";
            Tidy(text) && exists site :: site in SitesFrom(text, 0, 1) && !TrueLine(text, site)
  {
    hide KindAt, SitesFrom, LogCall, TrueLine, Tidy;
    var text := "log.Print\n(x)\nlog.Print(y)";
    AllCode(text);
    NoLiteralsAtAll(text);
    assert text[0..9] == "log.Print" && text[14..23] == "log.Print";
    PrintCall(text, 0, 10);
    PrintCall(text, 14, 23);
    assert CodeCall(text, 0) && CodeCall(text, 14);
    assert InHead(text, 9);
    assert Uncounted(text, 9);
    LinesAreTrueIff(text);
  }

  lemma {:induction false} NoLiteralsAtAll(s: string)
    requires forall p :: 0 <= p < |s| ==> s[p] != '/' && !IsQuote(s[p])
    ensures Tidy(s)
    decreases |s|
  {
    if s != [] {
      assert First(s, {}) == Token(Code, [s[0]]);
      NoLiteralsAtAll(s[1..]);
      assert Tokens(s, {}) == [First(s, {})] + Tokens(s[1..], {});
    }
  }
}
