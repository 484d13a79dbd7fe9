/**
 What a line of Go declares, by the grammar of declarations (section
 "Declarations and scope" of the Go Programming Language Specification), and
 exactly when the reader of the exported API takes notice of all of it.

 Lines are trees here, and text only once they are written out; the reader sees
 nothing but the text. White space is free wherever the grammar has it so;
 comments are gone already.
 */
module GoGrammar {
  import opened Basics
  import opened GoDeclarations

  // ------------------------------------------------------------- text

  predicate IsGap(s: string) {
    forall c :: c in s ==> IsSpace(c)
  }

  predicate IsName(s: string) {
    s != [] && !('0' <= s[0] <= '9') && forall c :: c in s ==> IsWord(c)
  }

  // Nothing that would make a name in front of `s` longer.
  predicate Apart(s: string) {
    s == [] || !IsWord(s[0])
  }

  lemma {:induction false} GapSkips(gap: string, rest: string)
    requires IsGap(gap) && (rest == [] || !IsSpace(rest[0]))
    ensures SkipSpace(gap + rest) == rest
  {
    if gap == [] {
      assert gap + rest == rest;
    } else {
      assert (gap + rest)[1..] == gap[1..] + rest && gap[0] in gap;
      assert forall c :: c in gap[1..] ==> c in gap;
      GapSkips(gap[1..], rest);
    }
  }

  lemma NameReads(name: string, after: string)
    requires IsName(name) && Apart(after)
    ensures Ident(name + after) == Some((name, after))
    ensures WordLen(name + after) == |name| && (name + after)[|name|..] == after
    ensures (name + after)[0] == name[0] && !IsSpace(name[0])
  {
    WordRuns(name, after);
    assert name[0] in name;
    assert (name + after)[..|name|] == name;
  }

  // A keyword, the space after it, and what follows.
  lemma KeywordReads(word: string, space: string, rest: string)
    requires word in ["func", "type", "const", "var"] && IsGap(space) && space != []
    requires rest == [] || !IsSpace(rest[0])
    ensures var line := word + (space + rest);
            && After(line, word) == Some(rest) && AfterAny(line) == Some(rest)
            && (forall other :: other in ["func", "type", "const", "var"] && other != word ==> After(line, other).None?)
            && (word in ["const", "var"] ==> AfterValue(line) == Some(rest))
            && (word !in ["const", "var"] ==> AfterValue(line).None?)
  {
    hide SkipSpace;
    var line := word + (space + rest);
    assert line[..|word|] == word && line[|word|..] == space + rest && line[|word|] == space[0] && space[0] in space;
    GapSkips(space, rest);
    forall other | other in ["func", "type", "const", "var"] && other != word ensures After(line, other).None? {
      if |line| >= |other| { assert line[..|other|][0] == line[0] == word[0] && other[0] != word[0]; }
    }
    OneKeyword(line);
  }

  // ------------------------------------------------------------- the grammar

  /** A further name of a list: the white space around its comma, and the name. */
  datatype Another = Another(before: string, after: string, name: string)

  datatype Names = Names(first: string, more: seq<Another>)

  function MoreText(more: seq<Another>): string {
    if more == [] then []
    else more[0].before + ("," + (more[0].after + (more[0].name + MoreText(more[1..]))))
  }

  function NamesText(names: Names): string {
    names.first + MoreText(names.more)
  }

  predicate IsList(names: Names) {
    IsName(names.first) && forall m :: m in names.more ==> IsGap(m.before) && IsGap(m.after) && IsName(m.name)
  }

  predicate InList(names: Names, name: string) {
    name == names.first || exists m :: m in names.more && m.name == name
  }

  /** One constant, variable or type: white space, a list of names, and a type, a value or both. */
  datatype Entry = Entry(lead: string, names: Names, tail: string)

  predicate IsEntry(e: Entry) {
    IsGap(e.lead) && IsList(e.names) && Apart(e.tail)
  }

  function EntryText(e: Entry): string {
    e.lead + (NamesText(e.names) + e.tail)
  }

  /** Entries on one line, semicolons between them. */
  function EntriesText(entries: seq<Entry>): string {
    if entries == [] then []
    else EntryText(entries[0]) + (if |entries| == 1 then [] else ";" + EntriesText(entries[1..]))
  }

  /**
   A top-level declaration, or a text that declares nothing: a package clause, an
   import, the end of a body. A receiver is a name or none, a star or none, a type,
   and its type arguments or a comma, if any; `tail` is whatever the grammar has
   next.
   */
  datatype Decl =
    | Func(space: string, name: string, tail: string)
    | Method(space: string, receiver: Receiver, gap: string, name: string, tail: string)
    | Type(space: string, name: string, tail: string)
    | Values(keyword: string, space: string, names: Names, tail: string)
    | Grouped(keyword: string, space: string, entries: seq<Entry>, close: Close)
    | Plain(text: string)

  /** Whether the parenthesis of a group closes on the line that opens it, and the white space around it. */
  datatype Close = Later | Here(before: string, after: string)

  datatype Receiver = Receiver(lead: string, own: string, sep: string, star: bool, starGap: string, typ: string,
                               args: string, end: string)

  predicate IsReceiver(r: Receiver) {
    && IsGap(r.lead) && IsGap(r.sep) && IsGap(r.starGap) && IsGap(r.end) && IsName(r.typ)
    && (r.own == [] || IsName(r.own))
    && (r.own == [] ==> r.sep == []) && (r.own != [] && !r.star ==> r.sep != []) && (!r.star ==> r.starGap == [])
    && (r.args == [] || Starts(SkipSpace(r.args), '[') || Starts(SkipSpace(r.args), ','))
  }

  function StarText(r: Receiver): string {
    if r.star then "*" + r.starGap else []
  }

  function ReceiverText(r: Receiver, rest: string): string {
    "(" + (r.lead + (r.own + (r.sep + (StarText(r) + (r.typ + (r.args + (r.end + (")" + rest))))))))
  }

  predicate InReceiver(c: char) {
    IsWord(c) || IsSpace(c) || c == '*'
  }

  // A closing parenthesis has something in front that no receiver has: the one that it closes, or a quote.
  predicate ClosesNothing(s: string) {
    forall i :: 0 <= i < |s| && s[i] == ')' ==> exists j :: 0 <= j < i && !InReceiver(s[j])
  }

  // The text starts with a keyword of a declaration.
  predicate OpensDecl(text: string) {
    exists word :: word in ["func", "type", "const", "var"] && word <= text && Apart(text[|word|..])
  }

  predicate IsClose(c: Close) {
    c.Here? ==> IsGap(c.before) && IsGap(c.after)
  }

  function CloseText(c: Close): string {
    if c.Here? then c.before + (")" + c.after) else []
  }

  predicate IsDecl(d: Decl) {
    match d
    case Func(space, name, tail) => IsGap(space) && space != [] && IsName(name) && Apart(tail)
    case Method(space, receiver, gap, name, tail) =>
      IsGap(space) && IsReceiver(receiver) && IsGap(gap) && IsName(name) && Starts(SkipSpace(tail), '(') && Apart(tail)
    case Type(space, name, tail) => IsGap(space) && space != [] && IsName(name) && Apart(tail)
    case Values(keyword, space, names, tail) =>
      keyword in ["const", "var"] && IsGap(space) && space != [] && IsList(names) && Apart(tail)
    case Grouped(keyword, space, entries, close) =>
      && keyword in ["const", "var", "type"] && IsGap(space) && (forall e :: e in entries ==> IsEntry(e))
      && IsClose(close) && ClosesNothing(EntriesText(entries)) && (entries == [] ==> close.Here?)
    case Plain(text) => (text == [] || !IsSpace(text[0])) && !OpensDecl(text)
  }

  /** A declaration as it is written, and what is written behind it. */
  function DeclText(d: Decl, rest: string): string {
    match d
    case Func(space, name, tail) => "func" + (space + (name + (tail + rest)))
    case Method(space, receiver, gap, name, tail) =>
      "func" + (space + ReceiverText(receiver, gap + (name + (tail + rest))))
    case Type(space, name, tail) => "type" + (space + (name + (tail + rest)))
    case Values(keyword, space, names, tail) => keyword + (space + (NamesText(names) + (tail + rest)))
    case Grouped(keyword, space, entries, close) =>
      keyword + (space + ("(" + (EntriesText(entries) + (CloseText(close) + rest))))
    case Plain(text) => text + rest
  }

  /** A declaration behind a semicolon and white space. */
  datatype Further = Further(gap: string, decl: Decl)

  /** A top-level line: white space, a declaration, and whatever others follow behind semicolons. */
  datatype TopLine = TopLine(indent: string, first: Decl, others: seq<Further>)

  predicate IsTopLine(l: TopLine) {
    && IsGap(l.indent) && IsDecl(l.first) && (forall o :: o in l.others ==> IsGap(o.gap) && IsDecl(o.decl))
    && (l.first.Grouped? && l.first.close.Later? ==> l.others == [])
  }

  function OthersText(others: seq<Further>): string {
    if others == [] then [] else ";" + (others[0].gap + DeclText(others[0].decl, OthersText(others[1..])))
  }

  function TopText(l: TopLine): string {
    l.indent + DeclText(l.first, OthersText(l.others))
  }

  // ------------------------------------------------------------- what it declares

  /** A declared name: of the package, or a method of a type. */
  datatype Id = Own(name: string) | Of(receiver: string, name: string)

  /** Another module can write it. */
  predicate Visible(id: Id) {
    Exported(id.name) && (id.Of? ==> Exported(id.receiver))
  }

  ghost predicate Declares(d: Decl, id: Id) {
    match d
    case Func(_, name, _) => id == Own(name)
    case Method(_, receiver, _, name, _) => id == Of(receiver.typ, name)
    case Type(_, name, _) => id == Own(name)
    case Values(_, _, names, _) => id.Own? && InList(names, id.name)
    case Grouped(_, _, entries, _) => id.Own? && exists e :: e in entries && InList(e.names, id.name)
    case Plain(_) => false
  }

  ghost predicate LineDeclares(l: TopLine, id: Id) {
    Declares(l.first, id) || exists o :: o in l.others && Declares(o.decl, id)
  }

  function IdText(pkg: string, id: Id): string {
    match id
    case Own(name) => pkg + "." + name
    case Of(receiver, name) => pkg + "." + receiver + "." + name
  }

  // ------------------------------------------------------------- reading a receiver

  lemma {:induction false} SkipThrough(s: string, rest: string)
    requires SkipSpace(s) != []
    ensures SkipSpace(s + rest) == SkipSpace(s) + rest
  {
    if IsSpace(s[0]) {
      assert (s + rest)[1..] == s[1..] + rest;
      SkipThrough(s[1..], rest);
    }
  }

  lemma GapIsApart(gap: string, rest: string)
    requires IsGap(gap) && Apart(rest)
    ensures Apart(gap + rest)
  {
    if gap != [] { assert (gap + rest)[0] == gap[0] && gap[0] in gap; }
  }

  // What stands behind the type of a receiver.
  function BehindType(r: Receiver, rest: string): string {
    r.args + (r.end + (")" + rest))
  }

  lemma BehindTypeReads(r: Receiver, rest: string)
    requires IsReceiver(r)
    ensures var s := BehindType(r, rest);
            && Apart(s)
            && (r.args == [] ==> SkipSpace(s) == ")" + rest)
            && (r.args != [] ==> SkipSpace(s) != [] && SkipSpace(s)[0] in ['[', ','])
  {
    GapSkips(r.end, ")" + rest);
    GapIsApart(r.end, ")" + rest);
    if r.args == [] {
      assert BehindType(r, rest) == r.end + (")" + rest);
    } else {
      SkipThrough(r.args, r.end + (")" + rest));
      assert IsSpace(r.args[0]) || SkipSpace(r.args) == r.args;
    }
  }

  // From the star on, or from the type on when there is none.
  function FromStar(r: Receiver, rest: string): string {
    StarText(r) + (r.typ + BehindType(r, rest))
  }

  lemma FromStarReads(r: Receiver, rest: string)
    requires IsReceiver(r)
    ensures var s := FromStar(r, rest);
            && s != [] && !IsSpace(s[0]) && (r.star <==> s[0] == '*')
            && (!r.star ==> s == r.typ + BehindType(r, rest))
            && (r.star ==> s[1..] == r.starGap + (r.typ + BehindType(r, rest)) && Apart(s))
            && (r.star && r.starGap == [] ==> s[1..] == r.typ + BehindType(r, rest))
            && (r.star && r.starGap != [] ==> s[1..] != [] && IsSpace(s[1..][0]))
  {
    hide SkipSpace, BehindType, WordLen, Ident;
    var behind := r.typ + BehindType(r, rest);
    var s := FromStar(r, rest);
    assert s == StarText(r) + behind;
    if r.star {
      StarReads(r.starGap, behind, s);
    } else {
      assert s == behind && s[0] == r.typ[0] && r.typ[0] in r.typ;
      SpaceIsNot();
    }
  }

  lemma StarReads(gap: string, behind: string, s: string)
    requires IsGap(gap) && s == ("*" + gap) + behind
    ensures s != [] && s[0] == '*' && !IsSpace(s[0]) && Apart(s) && s[1..] == gap + behind
    ensures gap == [] ==> s[1..] == behind
    ensures gap != [] ==> s[1..] != [] && IsSpace(s[1..][0])
  {
    if gap != [] { assert gap[0] in gap && s[1] == gap[0]; }
  }

  // The parentheses hold the name, if any, and what `FromStar` has.
  lemma ReceiverOpens(r: Receiver, rest: string)
    requires IsReceiver(r)
    ensures var (t, from) := (ReceiverText(r, rest), FromStar(r, rest));
            && Starts(t, '(') && SkipSpace(t[1..]) == r.own + (r.sep + from)
            && SkipSpace(r.sep + from) == from
            && (r.own != [] ==> Apart(r.sep + from))
  {
    hide SkipSpace;
    FromStarReads(r, rest);
    var from := FromStar(r, rest);
    var inner := r.own + (r.sep + from);
    assert StarText(r) + (r.typ + (r.args + (r.end + (")" + rest)))) == from;
    assert ReceiverText(r, rest)[1..] == r.lead + inner;
    if r.own == [] {
      assert inner == from && r.sep + from == from;
    } else {
      NameReads(r.own, []);
      assert r.own + [] == r.own && inner[0] == r.own[0];
      if r.sep != [] { assert r.sep[0] in r.sep && (r.sep + from)[0] == r.sep[0]; } else { assert r.sep + from == from; }
    }
    GapSkips(r.lead, inner);
    GapSkips(r.sep, from);
  }

  lemma NoWord(s: string)
    requires Apart(s)
    ensures WordLen(s) == 0 && s[0..] == s && Ident(s).None?
  {}

  lemma SkipStays(s: string)
    requires s == [] || !IsSpace(s[0])
    ensures SkipSpace(s) == s
  {}

  // What the loose form makes of a type and what stands behind it.
  lemma TypeIsPassed(r: Receiver, rest: string, second: string)
    requires IsReceiver(r) && second == r.typ + BehindType(r, rest)
    ensures WordLen(second) > 0
    ensures var end := SkipSpace(second[WordLen(second)..]);
            if r.args == [] then Starts(end, ')') && end[1..] == rest else !Starts(end, ')')
  {
    BehindTypeReads(r, rest);
    NameReads(r.typ, BehindType(r, rest));
  }

  lemma NoSep(r: Receiver, from: string)
    requires IsReceiver(r) && r.own == []
    ensures r.own + (r.sep + from) == from
  {}

  lemma HasName(r: Receiver)
    requires IsReceiver(r)
    ensures IsName(r.typ) && (r.own != [] ==> IsName(r.own))
    ensures !r.star ==> r.starGap == [] && (r.own != [] ==> r.sep != [])
  {}

  /** The loose form passes a receiver exactly when it has no type arguments and no space behind its star. */
  lemma PastReceiverReads(r: Receiver, rest: string)
    requires IsReceiver(r)
    ensures PastReceiver(ReceiverText(r, rest)) ==
            if r.args == [] && r.starGap == [] then Some(SkipSpace(rest)) else None
  {
    hide SkipSpace, WordLen, FromStar, BehindType, ReceiverText, IsReceiver, IsGap, IsName;
    var from, first := FromStar(r, rest), r.own + (r.sep + FromStar(r, rest));
    ReceiverOpens(r, rest);
    FromStarReads(r, rest);
    HasName(r);
    if r.own == [] { NoSep(r, from); }
    if r.own == [] && !r.star {
      assert first == from;
      TypeIsPassed(r, rest, first);
      var end := SkipSpace(first[WordLen(first)..]);
      EndIsApart(r, rest);
      SkipStays(end);
    } else {
      if r.own == [] {
        assert first == from;
        NoWord(from);
        SkipStays(from);
      } else {
        NameReads(r.own, r.sep + from);
      }
      var second := if r.star then from[1..] else from;
      if r.starGap == [] { TypeIsPassed(r, rest, second); } else { NoWord(second); }
    }
  }

  // Behind the type comes a parenthesis or a bracket.
  lemma EndIsApart(r: Receiver, rest: string)
    requires IsReceiver(r)
    ensures var first := r.typ + BehindType(r, rest);
            var end := SkipSpace(first[WordLen(first)..]);
            && end != [] && !IsSpace(end[0]) && end[0] != '*'
            && WordLen(end) == 0 && end[0..] == end
  {
    BehindTypeReads(r, rest);
    NameReads(r.typ, BehindType(r, rest));
    NoWord(SkipSpace(BehindType(r, rest)));
  }

  /**
   The strict form reads a method exactly when, besides that, there is space behind
   the keyword, a name for the receiver, and space behind that name.
   */
  lemma MethodReads(space: string, r: Receiver, gap: string, name: string, tail: string)
    requires IsGap(space) && IsReceiver(r) && IsGap(gap) && IsName(name) && Apart(tail)
    requires Starts(SkipSpace(tail), '(')
    ensures MethodOf("func" + (space + ReceiverText(r, gap + (name + tail)))) ==
            if space != [] && r.args == [] && r.starGap == [] && r.own != [] && r.sep != [] then Some((r.typ, name))
            else None
  {
    hide SkipSpace, WordLen, After, ReceiverText;
    if space == [] {
      assert space + ReceiverText(r, gap + (name + tail)) == ReceiverText(r, gap + (name + tail));
      ReceiverStarts(r, gap + (name + tail));
      NoKeywordHere("func", ReceiverText(r, gap + (name + tail))[1..]);
    } else {
      SpacedMethodReads(space, r, gap, name, tail);
    }
  }

  lemma ReceiverStarts(r: Receiver, rest: string)
    ensures var t := ReceiverText(r, rest); t == "(" + t[1..]
  {}

  lemma SpacedMethodReads(space: string, r: Receiver, gap: string, name: string, tail: string)
    requires IsGap(space) && space != [] && IsReceiver(r) && IsGap(gap) && IsName(name) && Apart(tail)
    requires Starts(SkipSpace(tail), '(')
    ensures MethodOf("func" + (space + ReceiverText(r, gap + (name + tail)))) ==
            if r.args == [] && r.starGap == [] && r.own != [] && r.sep != [] then Some((r.typ, name)) else None
  {
    hide *;
    var t := ReceiverText(r, gap + (name + tail));
    ReceiverOpens(r, gap + (name + tail));
    ParenIsNoSpace(t);
    KeywordReads("func", space, t);
    if r.own == [] {
      UnnamedReads("func" + (space + t), r, gap + (name + tail));
    } else {
      NamedReads("func" + (space + t), r, gap, name, tail);
    }
  }

  lemma ParenIsNoSpace(t: string)
    requires Starts(t, '(')
    ensures t != [] && !IsSpace(t[0])
  {}

  // Without a name, the type would have to be one, and then there is no type.
  lemma UnnamedReads(line: string, r: Receiver, rest: string)
    requires IsReceiver(r) && r.own == [] && After(line, "func") == Some(ReceiverText(r, rest))
    ensures MethodOf(line).None?
  {
    hide SkipSpace, WordLen, FromStar, BehindType, ReceiverText, After, IsReceiver;
    var from, behind := FromStar(r, rest), BehindType(r, rest);
    ReceiverOpens(r, rest);
    FromStarReads(r, rest);
    NoSep(r, from);
    if r.star {
      NoWord(from);
    } else {
      BehindTypeReads(r, rest);
      HasName(r);
      NameReads(r.typ, behind);
    }
  }

  lemma NamedReads(line: string, r: Receiver, gap: string, name: string, tail: string)
    requires IsReceiver(r) && r.own != [] && IsGap(gap) && IsName(name) && Apart(tail) && Starts(SkipSpace(tail), '(')
    requires After(line, "func") == Some(ReceiverText(r, gap + (name + tail)))
    ensures MethodOf(line) == if r.args == [] && r.starGap == [] && r.sep != [] then Some((r.typ, name)) else None
  {
    hide SkipSpace, WordLen, FromStar, BehindType, ReceiverText, After, IsReceiver, IsName, IsGap;
    var rest := gap + (name + tail);
    var from, behind := FromStar(r, rest), BehindType(r, rest);
    ReceiverOpens(r, rest);
    FromStarReads(r, rest);
    BehindTypeReads(r, rest);
    HasName(r);
    NameReads(r.own, r.sep + from);
    SepOpens(r, from);
    if r.sep != [] {
      if r.star && r.starGap != [] {
        NoWord(from[1..]);
      } else {
        NameReads(r.typ, behind);
        NameReads(name, tail);
        GapSkips(gap, name + tail);
      }
    }
  }

  lemma SepOpens(r: Receiver, from: string)
    requires IsReceiver(r) && from != [] && (r.star ==> from[0] == '*')
    ensures r.sep == [] && r.star ==> r.sep + from != [] && (r.sep + from)[0] == '*'
    ensures r.sep != [] ==> r.sep + from != [] && IsSpace((r.sep + from)[0])
  {
    if r.sep != [] { assert r.sep[0] in r.sep; }
  }

  // ------------------------------------------------------------- what the reader makes of it

  /** What the reader makes of the first declaration of a line: it records one name, reports the line, or passes by. */
  datatype Notice = Recorded(id: Id) | Reported(name: string) | Passed

  function NoticeOf(d: Decl): Notice {
    match d
    case Func(_, name, tail) => if Starts(SkipSpace(tail), '(') then Recorded(Own(name)) else Reported(name)
    case Method(space, r, _, name, _) =>
      if space == [] || r.args != [] || r.starGap != [] then Passed
      else if r.own != [] && r.sep != [] then Recorded(Of(r.typ, name))
      else Reported(name)
    case Type(_, name, tail) => if tail != [] && IsSpace(tail[0]) then Recorded(Own(name)) else Reported(name)
    case Values(_, _, names, _) => Recorded(Own(names.first))
    case Grouped(_, _, _, _) => Passed
    case Plain(_) => Passed
  }

  predicate Behind(rest: string) {
    rest == [] || rest[0] == ';'
  }

  lemma BehindTail(tail: string, rest: string)
    requires Apart(tail) && Behind(rest)
    ensures Apart(tail + rest)
    ensures Starts(SkipSpace(tail + rest), '(') <==> Starts(SkipSpace(tail), '(')
    ensures (tail + rest != [] && IsSpace((tail + rest)[0])) <==> (tail != [] && IsSpace(tail[0]))
  {
    if tail == [] { assert tail + rest == rest; }
    if SkipSpace(tail) != [] {
      SkipThrough(tail, rest);
    } else {
      AllBlank(tail);
      GapSkips(tail, rest);
    }
  }

  lemma {:induction false} AllBlank(s: string)
    requires SkipSpace(s) == []
    ensures IsGap(s)
  {
    if s != [] {
      AllBlank(s[1..]);
      assert s == [s[0]] + s[1..];
    }
  }

  // What the reader does with a line that no group opens on.
  predicate ReadsAs(line: string, notice: Notice) {
    && GroupOf(line).None?
    && match notice
       case Recorded(Of(receiver, name)) => MethodOf(line) == Some((receiver, name))
       case Recorded(Own(name)) =>
         && MethodOf(line).None?
         && (FuncOf(line) == Some(name)
             || (FuncOf(line).None? && TypeOf(line).Some? && TypeOf(line).value.0 == name)
             || (FuncOf(line).None? && TypeOf(line).None? && ValueOf(line) == Some(name)))
       case Reported(name) =>
         MethodOf(line).None? && FuncOf(line).None? && TypeOf(line).None? && ValueOf(line).None? && Declared(line) == Some(name)
       case Passed =>
         MethodOf(line).None? && FuncOf(line).None? && TypeOf(line).None? && ValueOf(line).None? && Declared(line).None?
  }

  // A keyword of no group, or a group's with no parenthesis behind it.
  lemma NoGroup(word: string, space: string, rest: string)
    requires word in ["func", "type", "const", "var"] && IsGap(space) && (rest == [] || !IsSpace(rest[0]))
    requires word == "func" || !Starts(rest, '(') || SkipSpace(rest[1..]) != []
    ensures GroupOf(word + (space + rest)).None?
  {
    hide SkipSpace;
    var line := word + (space + rest);
    GapSkips(space, rest);
    forall kind | kind in ["const", "var", "type"] ensures !OpensGroup(line, kind) {
      if |line| >= |kind| && line[..|kind|] == kind {
        assert line[..|kind|][0] == line[0] == word[0];
        assert kind == word;
        assert line[|kind|..] == space + rest;
      }
    }
  }

  lemma FuncReads(space: string, name: string, tail: string)
    requires IsGap(space) && space != [] && IsName(name) && Apart(tail)
    ensures ReadsAs("func" + (space + (name + tail)),
                    if Starts(SkipSpace(tail), '(') then Recorded(Own(name)) else Reported(name))
  {
    hide SkipSpace, WordLen, After, AfterAny, AfterValue, GroupOf, IsName;
    NameReads(name, tail);
    KeywordReads("func", space, name + tail);
    NoGroup("func", space, name + tail);
    NoParen(name, tail);
  }

  lemma NoParen(name: string, tail: string)
    requires IsName(name)
    ensures !Starts(name + tail, '(') && PastReceiver(name + tail).None?
  {
    assert name[0] in name;
  }

  lemma TypeReads(space: string, name: string, tail: string)
    requires IsGap(space) && space != [] && IsName(name) && Apart(tail)
    ensures ReadsAs("type" + (space + (name + tail)),
                    if tail != [] && IsSpace(tail[0]) then Recorded(Own(name)) else Reported(name))
  {
    hide SkipSpace, WordLen, After, AfterAny, AfterValue, GroupOf, IsName;
    NameReads(name, tail);
    KeywordReads("type", space, name + tail);
    NoParen(name, tail);
    NoGroup("type", space, name + tail);
  }

  lemma ValuesRead(keyword: string, space: string, name: string, tail: string)
    requires keyword in ["const", "var"] && IsGap(space) && space != [] && IsName(name) && Apart(tail)
    ensures ReadsAs(keyword + (space + (name + tail)), Recorded(Own(name)))
  {
    hide SkipSpace, WordLen, After, AfterAny, AfterValue, GroupOf, IsName;
    NameReads(name, tail);
    KeywordReads(keyword, space, name + tail);
    NoParen(name, tail);
    NoGroup(keyword, space, name + tail);
  }

  lemma MethodLineReads(space: string, r: Receiver, gap: string, name: string, tail: string)
    requires IsGap(space) && IsReceiver(r) && IsGap(gap) && IsName(name) && Apart(tail)
    requires Starts(SkipSpace(tail), '(')
    ensures ReadsAs("func" + (space + ReceiverText(r, gap + (name + tail))),
                    if space == [] || r.args != [] || r.starGap != [] then Passed
                    else if r.own != [] && r.sep != [] then Recorded(Of(r.typ, name))
                    else Reported(name))
  {
    if space == [] {
      hide SkipSpace, ReceiverText, ReadsAs;
      var t := ReceiverText(r, gap + (name + tail));
      assert space + t == t;
      ReceiverStarts(r, gap + (name + tail));
      UnspacedReads("func", t[1..]);
    } else {
      SpacedMethodLineReads(space, r, gap, name, tail);
    }
  }

  // A parenthesis right behind `func`.
  lemma UnspacedReads(keyword: string, rest: string)
    requires keyword == "func"
    ensures ReadsAs(keyword + ("(" + rest), Passed)
  {
    hide SkipSpace, After, GroupOf;
    NoKeywordHere(keyword, rest);
    SpaceIsNot();
    assert [] + ("(" + rest) == "(" + rest;
    NoGroup(keyword, [], "(" + rest);
  }

  lemma SpacedMethodLineReads(space: string, r: Receiver, gap: string, name: string, tail: string)
    requires IsGap(space) && space != [] && IsReceiver(r) && IsGap(gap) && IsName(name) && Apart(tail)
    requires Starts(SkipSpace(tail), '(')
    ensures ReadsAs("func" + (space + ReceiverText(r, gap + (name + tail))),
                    if r.args != [] || r.starGap != [] then Passed
                    else if r.own != [] && r.sep != [] then Recorded(Of(r.typ, name))
                    else Reported(name))
  {
    hide SkipSpace, WordLen, After, AfterAny, AfterValue, GroupOf, IsName, PastReceiver, MethodOf, ReceiverText;
    var rest := gap + (name + tail);
    var t := ReceiverText(r, rest);
    ReceiverOpens(r, rest);
    SpaceIsNot();
    KeywordReads("func", space, t);
    NoGroup("func", space, t);
    MethodReads(space, r, gap, name, tail);
    PastReceiverReads(r, rest);
    NameReads(name, tail);
    GapSkips(gap, name + tail);
    NoWord(t);
  }

  lemma SpaceIsNot()
    ensures !IsSpace('(') && !IsWord('(') && !IsWord(')') && !IsWord('*') && InReceiver('*')
  {}

  // ------------------------------------------------------------- a group on one line

  lemma {:induction false} SkipIsDrop(s: string) returns (k: nat)
    ensures k <= |s| && SkipSpace(s) == s[k..] && forall i :: 0 <= i < k ==> IsSpace(s[i])
  {
    k := 0;
    if s != [] && IsSpace(s[0]) {
      k := SkipIsDrop(s[1..]);
      k := k + 1;
    }
  }

  // `from` is `s` from `k` on, and before that there is nothing but words, white space and stars.
  ghost predicate Drops(s: string, k: nat, from: string) {
    k <= |s| && from == s[k..] && forall i :: 0 <= i < k ==> InReceiver(s[i])
  }

  lemma DropsSpace(s: string, k: nat, from: string) returns (j: nat)
    requires Drops(s, k, from)
    ensures Drops(s, j, SkipSpace(from))
  {
    var n := SkipIsDrop(from);
    j := k + n;
    assert forall i :: k <= i < j ==> s[i] == from[i - k];
  }

  lemma DropsWord(s: string, k: nat, from: string) returns (j: nat)
    requires Drops(s, k, from)
    ensures Drops(s, j, from[WordLen(from)..])
  {
    WordsOnly(from);
    j := k + WordLen(from);
    SpaceIsNot();
    forall i | k <= i < j ensures InReceiver(s[i]) {
      assert from[..WordLen(from)][i - k] == s[i];
      assert IsWord(s[i]);
    }
    assert from[WordLen(from)..] == s[j..];
  }

  /** Between the parentheses that the loose form passes there are words, white space and stars only. */
  lemma PastReceiverShape(s: string) returns (n: nat)
    requires PastReceiver("(" + s).Some?
    ensures n < |s| && s[n] == ')' && PastReceiver("(" + s).value == SkipSpace(s[n + 1..])
    ensures forall i :: 0 <= i < n ==> InReceiver(s[i])
  {
    hide SkipSpace, WordLen, InReceiver;
    assert ("(" + s)[1..] == s;
    var first := SkipSpace(s);
    SpaceIsNot();
    var k := DropsSpace(s, 0, s);
    k := DropsWord(s, k, first);
    var gap := SkipSpace(first[WordLen(first)..]);
    k := DropsSpace(s, k, first[WordLen(first)..]);
    var second := if Starts(gap, '*') then gap[1..] else gap;
    if Starts(gap, '*') {
      assert s[k] == '*' && s[k + 1..] == gap[1..];
      k := k + 1;
    }
    k := DropsWord(s, k, second);
    var end := SkipSpace(second[WordLen(second)..]);
    n := DropsSpace(s, k, second[WordLen(second)..]);
    assert s[n] == end[0] && s[n + 1..] == end[1..];
  }

  // What the loose form finds behind a group is no name.
  lemma NoNameBehind(inside: string, close: Close, rest: string)
    requires ClosesNothing(inside) && IsClose(close) && Behind(rest) && (close.Later? ==> rest == [])
    ensures var t := "(" + (inside + (CloseText(close) + rest));
            Ident(t).None? && (PastReceiver(t).Some? ==> Ident(PastReceiver(t).value).None?)
  {
    hide PastReceiver, SkipSpace;
    var s := inside + (CloseText(close) + rest);
    assert Ident("(" + s).None? by { SpaceIsNot(); }
    if PastReceiver("(" + s).Some? {
      var n := PastReceiverShape(s);
      forall i | 0 <= i < |inside| ensures s[i] == ')' ==> i != n {
        assert inside[i] == s[i];
        if s[i] == ')' {
          var j :| 0 <= j < i && !InReceiver(inside[j]);
          assert inside[j] == s[j];
        }
      }
      if close.Here? {
        ClosesHere(inside, close, rest, n);
        GapSkips(close.after, rest);
      }
    }
  }

  lemma ClosesHere(inside: string, close: Close, rest: string, n: nat)
    requires close.Here? && IsGap(close.before)
    requires var s := inside + (CloseText(close) + rest);
             && |inside| <= n < |s| && s[n] == ')' && forall i :: 0 <= i < n ==> InReceiver(s[i])
    ensures (inside + (CloseText(close) + rest))[n + 1..] == close.after + rest
  {
    var s, from := inside + (CloseText(close) + rest), inside + close.before;
    SpaceIsNot();
    assert s == from + (")" + (close.after + rest));
    forall i | 0 <= i < |from| ensures i < |inside| || s[i] != ')' {
      assert s[i] == from[i];
      if i >= |inside| { assert s[i] == close.before[i - |inside|] && close.before[i - |inside|] in close.before; }
    }
    assert s[|from|] == ')';
    assert n == |from|;
  }

  lemma NoKeywordHere(keyword: string, rest: string)
    requires keyword in ["func", "const", "var", "type"]
    ensures var line := keyword + ("(" + rest);
            After(line, "func").None? && After(line, "type").None? && After(line, "const").None? && After(line, "var").None?
  {
    var line := keyword + ("(" + rest);
    assert line[..|keyword|] == keyword && line[|keyword|] == '(';
    forall word | word in ["func", "type", "const", "var"] ensures After(line, word).None? {
      if |line| > |word| && line[..|word|] == word {
        assert line[..|word|][0] == line[0] == keyword[0];
        assert word == keyword;
      }
    }
  }

  lemma {:induction false} NotAllBlank(s: string, i: nat)
    requires i < |s| && !IsSpace(s[i])
    ensures SkipSpace(s) != []
    decreases i
  {
    if i > 0 { NotAllBlank(s[1..], i - 1); }
  }

  lemma EntriesAreNotBlank(entries: seq<Entry>, close: Close, rest: string)
    requires (forall e :: e in entries ==> IsEntry(e)) && (entries == [] ==> close.Here?)
    ensures SkipSpace(EntriesText(entries) + (CloseText(close) + rest)) != []
  {
    hide SkipSpace, EntriesText;
    var end := CloseText(close) + rest;
    SpaceIsNot();
    NoEntries();
    if entries == [] {
      assert CloseText(close)[|close.before|] == ')';
      NotAllBlank(EntriesText(entries) + end, |close.before|);
    } else {
      var e := entries[0];
      assert e in entries;
      FirstLetter(entries);
      NotAllBlank(EntriesText(entries) + end, |e.lead|);
    }
  }

  lemma NoEntries()
    ensures EntriesText([]) == [] && !IsSpace(')')
  {}

  lemma FirstLetter(entries: seq<Entry>)
    requires entries != [] && IsEntry(entries[0])
    ensures var (s, i) := (EntriesText(entries), |entries[0].lead|);
            i < |s| && s[i] == entries[0].names.first[0] && !IsSpace(s[i]) && s[..i] == entries[0].lead
  {
    hide MoreText;
    var e := entries[0];
    assert e.names.first[0] in e.names.first;
    assert EntryText(e)[|e.lead|] == NamesText(e.names)[0];
  }

  /** A group on one line, or one with entries on the line it opens on, is passed by. */
  lemma GroupedReads(keyword: string, space: string, entries: seq<Entry>, close: Close, rest: string)
    requires IsDecl(Grouped(keyword, space, entries, close)) && Behind(rest) && (close.Later? ==> rest == [])
    ensures ReadsAs(DeclText(Grouped(keyword, space, entries, close), rest), Passed)
  {
    hide SkipSpace, GroupOf, PastReceiver, EntriesText, IsEntry, After, Ident, CloseText;
    var inside := EntriesText(entries);
    var s := inside + (CloseText(close) + rest);
    var t := "(" + s;
    assert t[1..] == s;
    EntriesAreNotBlank(entries, close, rest);
    NoNameBehind(inside, close, rest);
    SpaceIsNot();
    NoGroup(keyword, space, t);
    if space == [] {
      assert space + t == t;
      NoKeywordHere(keyword, s);
    } else {
      KeywordReads(keyword, space, t);
    }
  }

  /** A text that starts with no keyword is passed by, whatever follows behind a semicolon. */
  lemma PlainReads(text: string, rest: string)
    requires IsDecl(Plain(text)) && Behind(rest)
    ensures ReadsAs(text + rest, Passed)
  {
    hide OpensDecl, After, OpensGroup, Behind;
    NoKeywordIn("func", text, rest);
    NoKeywordIn("type", text, rest);
    NoKeywordIn("const", text, rest);
    NoKeywordIn("var", text, rest);
  }

  lemma NoKeywordIn(word: string, text: string, rest: string)
    requires word in ["func", "type", "const", "var"] && !OpensDecl(text) && Behind(rest)
    ensures After(text + rest, word).None? && !OpensGroup(text + rest, word)
  {
    hide OpensDecl;
    var line := text + rest;
    if word <= line {
      LongerWord(word, text, rest);
      assert line == word + line[|word|..];
      NoSpaceBehind(word, line[|word|..]);
    }
  }

  lemma NoSpaceBehind(word: string, after: string)
    requires !Apart(after)
    ensures After(word + after, word).None? && !OpensGroup(word + after, word)
  {
    hide SkipSpace;
    SkipStays(after);
    SpaceIsNot();
    assert (word + after)[|word|..] == after;
  }

  // Where the line starts with a keyword, it starts with a longer word.
  lemma LongerWord(word: string, text: string, rest: string)
    requires word in ["func", "type", "const", "var"] && !OpensDecl(text) && Behind(rest) && word <= text + rest
    ensures !Apart((text + rest)[|word|..])
  {
    HoldsWord(word, text, rest);
    assert !Apart(text[|word|..]);
    assert (text + rest)[|word|..][0] == text[|word|..][0];
  }

  // A word without semicolon that the line starts with stands in front of the first semicolon.
  lemma HoldsWord(word: string, text: string, rest: string)
    requires ';' !in word && word <= text + rest && Behind(rest)
    ensures word <= text
  {
    var line := text + rest;
    if rest != [] { assert line[|text|] == ';'; }
    forall i | 0 <= i < |word| ensures line[i] != ';' {
      assert word[i] == line[i] && word[i] in word;
    }
  }

  // ------------------------------------------------------------- a top-level line

  lemma OthersAreBehind(others: seq<Further>)
    ensures Behind(OthersText(others))
  {}

  lemma MoreIsApart(more: seq<Another>, tail: string)
    requires (forall m :: m in more ==> IsGap(m.before)) && Apart(tail)
    ensures Apart(MoreText(more) + tail)
  {
    if more != [] {
      var rest := "," + (more[0].after + (more[0].name + MoreText(more[1..])));
      GapIsApart(more[0].before, rest);
      assert more[0] in more;
    } else {
      assert MoreText(more) + tail == tail;
    }
  }

  /** By the first declaration of a line, and by nothing else of it, the reader takes notice. */
  lemma DeclReads(d: Decl, rest: string)
    requires IsDecl(d) && Behind(rest) && (d.Grouped? && d.close.Later? ==> rest == [])
    ensures ReadsAs(DeclText(d, rest), NoticeOf(d))
  {
    hide ReadsAs, SkipSpace, ReceiverText, IsReceiver, EntriesText, IsName;
    match d {
      case Func(space, name, tail) =>
        BehindTail(tail, rest);
        FuncReads(space, name, tail + rest);
      case Method(space, r, gap, name, tail) =>
        BehindTail(tail, rest);
        MethodLineReads(space, r, gap, name, tail + rest);
      case Type(space, name, tail) =>
        BehindTail(tail, rest);
        TypeReads(space, name, tail + rest);
      case Values(keyword, space, names, tail) =>
        BehindTail(tail, rest);
        MoreIsApart(names.more, tail + rest);
        Associate(names.first, MoreText(names.more), tail + rest);
        ValuesRead(keyword, space, names.first, MoreText(names.more) + (tail + rest));
      case Grouped(keyword, space, entries, close) =>
        GroupedReads(keyword, space, entries, close, rest);
      case Plain(text) =>
        PlainReads(text, rest);
    }
  }

  lemma IndentedReads(indent: string, rest: string)
    requires IsGap(indent) && indent != []
    ensures ReadsAs(indent + rest, Passed)
  {
    var line := indent + rest;
    assert indent[0] in indent && line[0] == indent[0];
    forall word | word in ["func", "type", "const", "var"] ensures |line| >= |word| ==> line[..|word|] != word {
      if |line| >= |word| { assert line[..|word|][0] == line[0] && !IsSpace(word[0]); }
    }
    assert GroupOf(line).None?;
  }

  /** A field of the body that opens on line `k`, as an id of the type `name`. */
  ghost predicate IsFieldId(pkg: string, code: seq<string>, k: nat, name: string, id: string)
    requires k < |code|
  {
    '{' in code[k] && exists f :: f in Fields(Split(Body(code[k..]).0, '\n'), 0).0 && id == pkg + "." + name + "." + f
  }

  // What the reader leaves for a line, by the notice it takes of it.
  ghost predicate Leaves(pkg: string, code: seq<string>, k: nat, notice: Notice, r: Reading)
    requires k < |code|
  {
    match notice
    case Passed => r.ids == [] && r.unread == []
    case Reported(name) => r.ids == [] && r.unread == if Exported(name) then [Strip(code[k])] else []
    case Recorded(id) =>
      && (Visible(id) ==> IdText(pkg, id) in r.ids)
      && (forall x :: x in r.ids ==>
            || x == IdText(pkg, id)
            || (id.Own? && TypeOf(code[k]).Some? && IsFieldId(pkg, code, k, id.name, x)))
      && (forall u :: u in r.unread ==> Exported(u))
  }

  lemma {:induction false} MissedAreExported(lines: seq<string>, depth: int, u: string)
    requires u in Fields(lines, depth).1
    ensures Exported(u)
  {
    hide Strip, Code, Net, FieldNames;
    if lines != [] {
      var line := Strip(Code(lines[0]));
      if u in Fields(lines[1..], depth + Net(line)).1 { MissedAreExported(lines[1..], depth + Net(line), u); }
    }
  }

  lemma {:induction false} SkipLands(s: string)
    ensures SkipSpace(s) != [] ==> !IsSpace(SkipSpace(s)[0])
  {
    if s != [] && IsSpace(s[0]) { SkipLands(s[1..]); }
  }

  lemma {:induction false} TrimKeepsFirst(s: string)
    ensures s != [] && !IsSpace(s[0]) ==> TrimEnd(s) != [] && TrimEnd(s)[0] == s[0]
    ensures s == [] ==> TrimEnd(s) == []
  {
    if s != [] && IsSpace(s[|s| - 1]) && !IsSpace(s[0]) { TrimKeepsFirst(s[..|s| - 1]); }
  }

  lemma StripFirst(s: string)
    ensures Strip(s) == [] <==> SkipSpace(s) == []
    ensures Strip(s) != [] ==> Strip(s)[0] == SkipSpace(s)[0]
  {
    hide SkipSpace, TrimEnd;
    SkipLands(s);
    TrimKeepsFirst(SkipSpace(s));
  }

  lemma {:induction false} MembersAreExported(lines: seq<string>, u: string)
    requires u in Members(lines)
    ensures Exported(u)
  {
    hide Strip, Code, SkipSpace;
    if lines != [] {
      if u in Members(lines[1..]) {
        MembersAreExported(lines[1..], u);
      } else {
        var (line, code) := (lines[0], Code(lines[0]));
        CodeIsSlashless(line);
        StripFirst(line);
        StripFirst(code);
        SkipThrough(code, line[|code|..]);
        assert code + line[|code|..] == line;
      }
    }
  }

  lemma BodyLeaves(pkg: string, code: seq<string>, k: nat, name: string, rest: string)
    requires k < |code| && '{' in code[k]
    ensures var r := ReadBody(pkg, code, k, name, rest, Top);
            && (forall x :: x in r.ids ==> IsFieldId(pkg, code, k, name, x))
            && (forall u :: u in r.unread ==> Exported(u))
  {
    hide Fields, Body, HasWord, Split, Members;
    var lines := Split(Body(code[k..]).0, '\n');
    var r := ReadBody(pkg, code, k, name, rest, Top);
    forall x | x in r.ids ensures IsFieldId(pkg, code, k, name, x) {
      QualifiedAre(pkg + "." + name, Fields(lines, 0).0, x);
      var f :| f in Fields(lines, 0).0 && x == pkg + "." + name + "." + f;
    }
    forall u | u in r.unread ensures Exported(u) {
      if u in Fields(lines, 0).1 { MissedAreExported(lines, 0, u); } else { MembersAreExported(lines, u); }
    }
  }

  lemma TopLeaves(pkg: string, code: seq<string>, k: nat, notice: Notice)
    requires k < |code| && ReadsAs(code[k], notice)
    ensures Leaves(pkg, code, k, notice, ReadTop(pkg, code, k))
  {
    hide GroupOf, MethodOf, FuncOf, TypeOf, ValueOf, Declared, ReadBody, Strip, IsFieldId;
    if notice.Recorded? && notice.id.Own? && FuncOf(code[k]).None? && TypeOf(code[k]).Some? {
      TypeRest(code[k]);
      var (name, rest) := TypeOf(code[k]).value;
      if '{' in rest { BodyLeaves(pkg, code, k, name, rest); }
    }
  }

  // ------------------------------------------------------------- ids are not confused

  predicate IsId(id: Id) {
    IsName(id.name) && (id.Of? ==> IsName(id.receiver))
  }

  lemma NamesHaveNoDot(name: string)
    requires IsName(name)
    ensures '.' !in name
  {
    assert !IsWord('.');
  }

  lemma {:induction false} FirstDot(a: string, b: string)
    requires '.' !in a
    ensures IndexOf(a + ("." + b), '.') == |a|
  {
    if a == [] {
      assert a + ("." + b) == "." + b;
    } else {
      assert (a + ("." + b))[1..] == a[1..] + ("." + b) && a[0] in a;
      FirstDot(a[1..], b);
    }
  }

  lemma OneDot(a: string, b: string, c: string, d: string)
    requires '.' !in a && '.' !in c && a + ("." + b) == c + ("." + d)
    ensures a == c && b == d
  {
    var s, t := a + ("." + b), c + ("." + d);
    FirstDot(a, b);
    FirstDot(c, d);
    assert s[..|a|] == a && t[..|c|] == c;
    assert s[|a| + 1..] == b && t[|c| + 1..] == d;
  }

  function Suffix(id: Id): string {
    match id
    case Own(name) => name
    case Of(receiver, name) => receiver + ("." + name)
  }

  lemma IdsDiffer(pkg: string, a: Id, b: Id)
    requires IsId(a) && IsId(b) && IdText(pkg, a) == IdText(pkg, b)
    ensures a == b
  {
    IdTextIs(pkg, a);
    IdTextIs(pkg, b);
    SamePrefix(pkg + ".", Suffix(a), Suffix(b));
    NamesHaveNoDot(a.name);
    NamesHaveNoDot(b.name);
    if a.Of? {
      NamesHaveNoDot(a.receiver);
      assert Suffix(a)[|a.receiver|] == '.';
    }
    if b.Of? {
      NamesHaveNoDot(b.receiver);
      assert Suffix(b)[|b.receiver|] == '.';
    }
    if a.Of? && b.Of? { OneDot(a.receiver, a.name, b.receiver, b.name); }
  }

  lemma IdTextIs(pkg: string, id: Id)
    ensures IdText(pkg, id) == (pkg + ".") + Suffix(id)
  {}

  lemma SamePrefix(p: string, a: string, b: string)
    requires p + a == p + b
    ensures a == b
  {
    assert (p + a)[|p|..] == a && (p + b)[|p|..] == b;
  }

  // A field's id is that of a declared name only for a method of the same type by the same name.
  lemma FieldIdIs(pkg: string, id: Id, name: string, f: string)
    requires IsId(id) && IsName(name) && IdText(pkg, id) == pkg + "." + name + "." + f
    ensures id == Of(name, f)
  {
    IdTextIs(pkg, id);
    assert pkg + "." + name + "." + f == (pkg + ".") + (name + ("." + f));
    SamePrefix(pkg + ".", Suffix(id), name + ("." + f));
    NamesHaveNoDot(name);
    NamesHaveNoDot(id.name);
    assert (name + ("." + f))[|name|] == '.';
    if id.Of? {
      NamesHaveNoDot(id.receiver);
      OneDot(id.receiver, id.name, name, f);
    }
  }

  // ------------------------------------------------------------- when nothing is lost

  /** The name leaves an id, or its line is named as unread. */
  predicate Accounted(pkg: string, line: string, r: Reading, id: Id) {
    IdText(pkg, id) in r.ids || Strip(line) in r.unread
  }

  /** The check on a line and a name it declares. */
  predicate Noticed(l: TopLine, id: Id) {
    && l.indent == []
    && match NoticeOf(l.first)
       case Recorded(one) => id == one
       case Reported(name) => Exported(name)
       case Passed => false
  }

  /** As Go has it: a type has no field by the name of one of its methods. */
  ghost predicate FieldsAndMethodsDiffer(code: seq<string>, k: nat, l: TopLine)
    requires k < |code|
  {
    l.first.Type? && '{' in code[k] ==>
      forall id :: LineDeclares(l, id) && id.Of? && id.receiver == l.first.name ==>
        id.name !in Fields(Split(Body(code[k..]).0, '\n'), 0).0
  }

  lemma DeclaredIsId(d: Decl, id: Id)
    requires IsDecl(d) && Declares(d, id)
    ensures IsId(id)
  {
    if d.Grouped? {
      var e :| e in d.entries && InList(e.names, id.name);
      assert IsEntry(e);
    }
  }

  lemma KeywordIsNotExported(d: Decl, rest: string)
    requires IsDecl(d) && NoticeOf(d).Recorded?
    ensures var line := DeclText(d, rest); line != [] && !IsSpace(line[0]) && !Exported(line) && !Exported(Strip(line))
  {
    hide EntriesText, ReceiverText, IsEntry, IsReceiver, CloseText, OpensDecl, SkipSpace;
    var line := DeclText(d, rest);
    StripFirst(line);
    SkipStays(line);
  }

  lemma NoticedIsId(d: Decl)
    requires IsDecl(d) && NoticeOf(d).Recorded?
    ensures IsId(NoticeOf(d).id) && Declares(d, NoticeOf(d).id)
  {
    hide SkipSpace;
  }

  /**
   A visible name that a top-level line declares is accounted for exactly when
   the line is not indented and its first declaration either declares just this
   name in a form the reader records, or is reported as a whole. The forms passed
   by are methods with no space behind `func` or with space behind the star, receivers
   with type arguments, groups with anything on the line that opens them, second
   names, and second declarations.
   */
  lemma TopLineIff(pkg: string, code: seq<string>, k: nat, l: TopLine, id: Id)
    requires k < |code| && IsTopLine(l) && code[k] == TopText(l) && FieldsAndMethodsDiffer(code, k, l)
    requires LineDeclares(l, id) && Visible(id)
    ensures Accounted(pkg, code[k], ReadLine(pkg, code, k, Top), id) <==> Noticed(l, id)
  {
    hide ReadTop, DeclText, OthersText, Strip, NoticeOf, Declares, IsDecl, Exported, IdText;
    var rest := OthersText(l.others);
    OthersAreBehind(l.others);
    NoOthers();
    if Declares(l.first, id) {
      DeclaredIsId(l.first, id);
    } else {
      var o :| o in l.others && Declares(o.decl, id);
      DeclaredIsId(o.decl, id);
    }
    if l.indent == [] {
      assert code[k] == DeclText(l.first, rest);
      DeclReads(l.first, rest);
      TopLeaves(pkg, code, k, NoticeOf(l.first));
      if NoticeOf(l.first).Recorded? {
        KeywordIsNotExported(l.first, rest);
        RecordedOnly(pkg, code, k, l, id);
      }
    } else {
      IndentedReads(l.indent, DeclText(l.first, rest));
      TopLeaves(pkg, code, k, Passed);
    }
  }

  lemma NoOthers()
    ensures OthersText([]) == []
  {}

  lemma RecordedOnly(pkg: string, code: seq<string>, k: nat, l: TopLine, id: Id)
    requires k < |code| && IsTopLine(l) && NoticeOf(l.first).Recorded? && l.indent == []
    requires code[k] == DeclText(l.first, OthersText(l.others))
    requires Leaves(pkg, code, k, NoticeOf(l.first), ReadTop(pkg, code, k))
    requires FieldsAndMethodsDiffer(code, k, l) && LineDeclares(l, id) && IsId(id) && Visible(id)
    ensures IdText(pkg, id) in ReadTop(pkg, code, k).ids <==> id == NoticeOf(l.first).id
  {
    hide ReadTop, DeclText, OthersText, Strip, Declares, Exported, IdText, Fields, Body, Split;
    var one := NoticeOf(l.first).id;
    NoticedIsId(l.first);
    if IdText(pkg, id) in ReadTop(pkg, code, k).ids {
      if IdText(pkg, id) == IdText(pkg, one) {
        IdsDiffer(pkg, id, one);
      } else {
        OnlyTypesAreTypes(l.first, OthersText(l.others));
        var f :| f in Fields(Split(Body(code[k..]).0, '\n'), 0).0 && IdText(pkg, id) == pkg + "." + one.name + "." + f;
        FieldIdIs(pkg, id, one.name, f);
      }
    }
  }

  lemma OnlyTypesAreTypes(d: Decl, rest: string)
    requires IsDecl(d) && NoticeOf(d).Recorded? && TypeOf(DeclText(d, rest)).Some?
    ensures d.Type? && NoticeOf(d).id == Own(d.name)
  {
    hide SkipSpace, Ident, ReceiverText, NamesText, IsReceiver;
    var line := DeclText(d, rest);
    assert line[..4][0] == 't' == line[0];
  }

  /** In a walked text, what is noticed on an inspected top-level line is among the ids or the unread lines. */
  lemma TopLineInWalk(pkg: string, text: string, k: nat, l: TopLine, id: Id)
    requires var code := CodeLines(text);
             && k < |code| && PlaceOf(pkg, code, k) == At(Top) && IsTopLine(l) && code[k] == TopText(l)
             && FieldsAndMethodsDiffer(code, k, l)
    requires LineDeclares(l, id) && Visible(id) && Noticed(l, id)
    ensures var code := CodeLines(text);
            || IdText(pkg, id) in Ids(pkg, code, 0, Top)
            || Strip(code[k]) in Unread(pkg, code, 0, Top)
  {
    hide CodeLines, PlaceFrom, ReadLine, IsTopLine, TopText, FieldsAndMethodsDiffer, Strip, IdText;
    var code := CodeLines(text);
    TopLineIff(pkg, code, k, l, id);
    InspectedCounts(pkg, code, 0, Top, k);
  }

  // ------------------------------------------------------------- a line of a group

  predicate IsGroupLine(entries: seq<Entry>, closer: string) {
    entries != [] && (forall e :: e in entries ==> IsEntry(e)) && Apart(closer)
  }

  predicate EntryDeclares(entries: seq<Entry>, name: string) {
    exists e :: e in entries && InList(e.names, name)
  }

  // The name that opens a line of entries, and what follows it.
  lemma EntriesOpen(entries: seq<Entry>, closer: string) returns (after: string)
    requires IsGroupLine(entries, closer)
    ensures EntriesText(entries) + closer == entries[0].lead + (entries[0].names.first + after) && Apart(after)
  {
    hide MoreText, EntriesText;
    var e := entries[0];
    assert e in entries;
    var more := MoreText(e.names.more);
    var rest := (if |entries| == 1 then [] else ";" + EntriesText(entries[1..])) + closer;
    EntriesUnfold(entries);
    after := more + (e.tail + rest);
    EntryApart(e, rest);
    Reassociate(e.lead, e.names.first, more, e.tail, if |entries| == 1 then [] else ";" + EntriesText(entries[1..]), closer);
  }

  lemma EntriesUnfold(entries: seq<Entry>)
    requires entries != []
    ensures EntriesText(entries)
            == EntryText(entries[0]) + (if |entries| == 1 then [] else ";" + EntriesText(entries[1..]))
  {}

  lemma EntryApart(e: Entry, rest: string)
    requires IsEntry(e) && Apart(rest)
    ensures Apart(MoreText(e.names.more) + (e.tail + rest))
  {
    assert Apart(e.tail + rest) by { if e.tail == [] { assert e.tail + rest == rest; } }
    MoreIsApart(e.names.more, e.tail + rest);
  }

  lemma Reassociate(a: string, b: string, c: string, d: string, e: string, f: string)
    ensures (a + ((b + c) + d)) + e + f == a + (b + (c + (d + (e + f))))
  {
    assert (a + ((b + c) + d)) + e + f == a + (((b + c) + d) + (e + f));
    assert ((b + c) + d) + (e + f) == b + (c + (d + (e + f)));
  }

  lemma {:induction false} TrimPast(a: string, b: string)
    requires a != [] && !IsSpace(a[|a| - 1])
    ensures TrimEnd(a + b) == a + TrimEnd(b)
    decreases |b|
  {
    if b == [] {
      assert a + b == a;
    } else {
      var s := a + b;
      assert s[|s| - 1] == b[|b| - 1];
      if IsSpace(b[|b| - 1]) {
        assert s[..|s| - 1] == a + b[..|b| - 1];
        TrimPast(a, b[..|b| - 1]);
      }
    }
  }

  lemma {:induction false} TrimIsPrefix(s: string)
    ensures TrimEnd(s) <= s
  {
    if s != [] && IsSpace(s[|s| - 1]) { TrimIsPrefix(s[..|s| - 1]); }
  }

  // A name in front of a line is the name in front of the line stripped.
  lemma StripReads(lead: string, name: string, after: string)
    requires IsGap(lead) && IsName(name) && Apart(after)
    ensures Strip(lead + (name + after)) == name + TrimEnd(after) && Apart(TrimEnd(after))
    ensures Ident(Strip(lead + (name + after))) == Some((name, TrimEnd(after)))
  {
    assert name[0] in name && name[|name| - 1] in name;
    GapSkips(lead, name + after);
    TrimPast(name, after);
    TrimIsPrefix(after);
    NameReads(name, TrimEnd(after));
  }

  /**
   Of the visible names that a line inside a group declares, the reader records
   the first and no other: not the further names of its list, nor what follows a
   semicolon.
   */
  lemma GroupLineIff(pkg: string, code: seq<string>, k: nat, kind: string, entries: seq<Entry>,
                     closer: string, name: string)
    requires k < |code| && IsGroupLine(entries, closer) && code[k] == EntriesText(entries) + closer
    requires EntryDeclares(entries, name) && Exported(name)
    ensures pkg + "." + name in ReadLine(pkg, code, k, Group(kind)).ids <==> name == entries[0].names.first
  {
    hide EntriesText, Strip, Fields, Body, Split, ReadBody, Ident;
    var first := entries[0].names.first;
    assert entries[0] in entries;
    var after := EntriesOpen(entries, closer);
    StripReads(entries[0].lead, first, after);
    GroupLineOpens(entries[0].lead, first + after);
    StripKeeps(code[k], '{');
    var r := ReadLine(pkg, code, k, Group(kind));
    var (_, rest) := Ident(Strip(code[k])).value;
    var e :| e in entries && InList(e.names, name);
    assert IsEntry(e) && IsId(Own(name)) && IsId(Own(first));
    if kind == "type" && '{' in rest {
      BodyLeavesAt(pkg, code, k, first, rest, Group(kind));
    }
    if pkg + "." + name in r.ids {
      FirstOnly(pkg, code, k, name, first);
    }
  }

  lemma GroupLineOpens(lead: string, rest: string)
    requires IsGap(lead) && rest != [] && IsWord(rest[0])
    ensures !Starts(lead + rest, ')')
  {
    if lead != [] { assert lead[0] in lead && (lead + rest)[0] == lead[0]; } else { assert lead + rest == rest; }
    assert !IsSpace(')');
  }

  lemma BodyLeavesAt(pkg: string, code: seq<string>, k: nat, name: string, rest: string, level: Level)
    requires k < |code| && '{' in code[k]
    ensures forall x :: x in ReadBody(pkg, code, k, name, rest, level).ids ==> IsFieldId(pkg, code, k, name, x)
  {
    hide Fields, Body, HasWord, Split, Members;
    BodyLeaves(pkg, code, k, name, rest);
    assert ReadBody(pkg, code, k, name, rest, level).ids == ReadBody(pkg, code, k, name, rest, Top).ids;
  }

  lemma FirstOnly(pkg: string, code: seq<string>, k: nat, name: string, first: string)
    requires k < |code| && IsName(name) && IsName(first)
    requires pkg + "." + name == pkg + "." + first || IsFieldId(pkg, code, k, first, pkg + "." + name)
    ensures name == first
  {
    hide Fields, Body, Split;
    if pkg + "." + name == pkg + "." + first {
      IdsDiffer(pkg, Own(name), Own(first));
    } else {
      var f :| f in Fields(Split(Body(code[k..]).0, '\n'), 0).0 && pkg + "." + name == pkg + "." + first + "." + f;
      FieldIdIs(pkg, Own(name), first, f);
    }
  }

  // ------------------------------------------------------------- one of each form that is lost

  // A file of one line leaves what the line leaves.
  lemma OneLineFile(pkg: string, line: string)
    ensures var r := ReadLine(pkg, [line], 0, Top);
            Ids(pkg, [line], 0, Top) == r.ids && Unread(pkg, [line], 0, Top) == r.unread
  {
    hide ReadTop;
    var r := ReadLine(pkg, [line], 0, Top);
    assert Ids(pkg, [line], 0, Top) == r.ids + Ids(pkg, [line], r.next, r.level);
    assert Unread(pkg, [line], 0, Top) == r.unread + Unread(pkg, [line], r.next, r.level);
  }

  lemma PassedFile(pkg: string, line: string)
    requires ReadsAs(line, Passed)
    ensures Ids(pkg, [line], 0, Top) == [] && Unread(pkg, [line], 0, Top) == []
  {
    hide ReadTop, Ids, Unread, ReadsAs;
    TopLeaves(pkg, [line], 0, Passed);
    OneLineFile(pkg, line);
  }

  /** A file of one declaration that the reader passes by: nothing is recorded and nothing reported. */
  lemma PassedDecl(pkg: string, d: Decl)
    requires IsDecl(d) && NoticeOf(d) == Passed
    ensures Ids(pkg, [DeclText(d, [])], 0, Top) == [] && Unread(pkg, [DeclText(d, [])], 0, Top) == []
  {
    hide ReadsAs, DeclText, IsDecl;
    DeclReads(d, []);
    PassedFile(pkg, DeclText(d, []));
  }

  /** A method whose receiver has type parameters. */
  lemma GenericReceiverIsSilent(pkg: string)
    ensures var d := Method(" ", Receiver([], "l", " ", true, [], "L", "[T]", []), " ", "P", "()");
            && IsDecl(d) && Declares(d, Of("L", "P")) && Visible(Of("L", "P")) && DeclText(d, []) == "func (l *L[T]) P()"
            && Ids(pkg, ["func (l *L[T]) P()"], 0, Top) == [] && Unread(pkg, ["func (l *L[T]) P()"], 0, Top) == []
  {
    hide Ids, Unread;
    var d := Method(" ", Receiver([], "l", " ", true, [], "L", "[T]", []), " ", "P", "()");
    assert DeclText(d, []) == "func (l *L[T]) P()";
    PassedDecl(pkg, d);
  }

  /** A method with no space between `func` and its receiver. */
  lemma UnspacedMethodIsSilent(pkg: string)
    ensures var d := Method([], Receiver([], "l", " ", true, [], "L", [], []), " ", "P", "()");
            && IsDecl(d) && Declares(d, Of("L", "P")) && Visible(Of("L", "P")) && DeclText(d, []) == "func(l *L) P()"
            && Ids(pkg, ["func(l *L) P()"], 0, Top) == [] && Unread(pkg, ["func(l *L) P()"], 0, Top) == []
  {
    hide Ids, Unread;
    var d := Method([], Receiver([], "l", " ", true, [], "L", [], []), " ", "P", "()");
    assert DeclText(d, []) == "func(l *L) P()";
    PassedDecl(pkg, d);
  }

  /** A method with space behind the star of its receiver. */
  lemma SpacedStarIsSilent(pkg: string)
    ensures var d := Method(" ", Receiver([], "l", " ", true, " ", "L", [], []), " ", "P", "()");
            && IsDecl(d) && Declares(d, Of("L", "P")) && Visible(Of("L", "P")) && DeclText(d, []) == "func (l * L) P()"
            && Ids(pkg, ["func (l * L) P()"], 0, Top) == [] && Unread(pkg, ["func (l * L) P()"], 0, Top) == []
  {
    hide Ids, Unread;
    var d := Method(" ", Receiver([], "l", " ", true, " ", "L", [], []), " ", "P", "()");
    assert DeclText(d, []) == "func (l * L) P()";
    PassedDecl(pkg, d);
  }

  /** An indented declaration. */
  lemma IndentedIsSilent(pkg: string)
    ensures var l := TopLine("\t", Func(" ", "F", "()"), []);
            && IsTopLine(l) && LineDeclares(l, Own("F")) && Visible(Own("F")) && TopText(l) == "\tfunc F()"
            && Ids(pkg, ["\tfunc F()"], 0, Top) == [] && Unread(pkg, ["\tfunc F()"], 0, Top) == []
  {
    hide Ids, Unread, ReadsAs;
    var l := TopLine("\t", Func(" ", "F", "()"), []);
    NoOthers();
    assert DeclText(l.first, []) == "func F()" && TopText(l) == "\tfunc F()";
    IndentedReads("\t", "func F()");
    PassedFile(pkg, "\tfunc F()");
  }

  /** A declaration behind a package clause. */
  lemma BehindPackageIsSilent(pkg: string)
    ensures var l := TopLine([], Plain("package p"), [Further(" ", Func(" ", "F", "()"))]);
            && IsTopLine(l) && LineDeclares(l, Own("F")) && Visible(Own("F")) && TopText(l) == "package p; func F()"
            && Ids(pkg, ["package p; func F()"], 0, Top) == [] && Unread(pkg, ["package p; func F()"], 0, Top) == []
  {
    hide *;
    var l := PackageLine();
    PassedFile(pkg, "package p; func F()");
  }

  lemma PackageLine() returns (l: TopLine)
    ensures l == TopLine([], Plain("package p"), [Further(" ", Func(" ", "F", "()"))]) && IsTopLine(l)
    ensures LineDeclares(l, Own("F")) && Visible(Own("F")) && TopText(l) == "package p; func F()"
    ensures ReadsAs("package p; func F()", Passed)
  {
    hide ReadsAs, OpensDecl, OthersText, DeclText, IsName;
    var o := Further(" ", Func(" ", "F", "()"));
    l := TopLine([], Plain("package p"), [o]);
    assert o in l.others;
    FuncText(o);
    OpensWithAnother("package p");
    PlainText("package p", OthersText(l.others));
    BehindText("package p", "; func F()", "package p; func F()");
  }

  lemma FuncText(o: Further)
    requires o == Further(" ", Func(" ", "F", "()"))
    ensures OthersText([o]) == "; func F()" && IsDecl(o.decl)
  {
    hide OthersText;
    OneFurther(o);
    assert DeclText(o.decl, []) == "func F()";
  }

  lemma BehindText(text: string, rest: string, line: string)
    requires IsDecl(Plain(text)) && Behind(rest) && line == text + rest
    ensures ReadsAs(line, Passed)
  {
    hide ReadsAs, IsDecl;
    PlainReads(text, rest);
  }

  lemma PlainText(text: string, rest: string)
    ensures DeclText(Plain(text), rest) == text + rest && [] + (text + rest) == text + rest
  {}

  lemma OneFurther(o: Further)
    ensures OthersText([o]) == ";" + (o.gap + DeclText(o.decl, []))
  {}

  lemma OpensWithAnother(text: string)
    requires text != [] && text[0] !in ['f', 't', 'c', 'v']
    ensures !OpensDecl(text)
  {}

  /** The second declaration of a line: the first leaves its id, the second nothing. */
  lemma SecondDeclarationIsSilent(pkg: string)
    ensures var line := "var A int; var B int";
            var l := TopLine([], OneVar("A"), [Further(" ", OneVar("B"))]);
            && IsTopLine(l) && LineDeclares(l, Own("B")) && Visible(Own("B")) && TopText(l) == line
            && pkg + "." + "A" in Ids(pkg, [line], 0, Top)
            && pkg + "." + "B" !in Ids(pkg, [line], 0, Top) && line !in Unread(pkg, [line], 0, Top)
  {
    hide Ids, Unread, FieldsAndMethodsDiffer, Strip, TopText, IsTopLine, LineDeclares, IdText;
    var line := "var A int; var B int";
    var l := TwoVars();
    NotOfType([line], 0, l);
    OneOfLine(pkg, line, l, Own("A"));
    OneOfLine(pkg, line, l, Own("B"));
    OwnText(pkg, "A");
    OwnText(pkg, "B");
    StripStays(line);
  }

  function OneVar(name: string): Decl {
    Values("var", " ", Names(name, []), " int")
  }

  lemma TwoVars() returns (l: TopLine)
    ensures l == TopLine([], OneVar("A"), [Further(" ", OneVar("B"))]) && IsTopLine(l)
    ensures TopText(l) == "var A int; var B int" && LineDeclares(l, Own("A")) && LineDeclares(l, Own("B"))
  {
    hide OthersText, DeclText, IsDecl, InList;
    var o := Further(" ", OneVar("B"));
    l := TopLine([], OneVar("A"), [o]);
    assert o in l.others;
    OneFurther(o);
    OneVarText("A", OthersText([o]));
    OneVarText("B", []);
  }

  lemma OneVarText(name: string, rest: string)
    requires IsName(name)
    ensures DeclText(OneVar(name), rest) == "var " + (name + (" int" + rest)) && IsDecl(OneVar(name))
    ensures InList(Names(name, []), name)
  {
    NoMore();
    assert name + [] == name;
  }

  lemma OwnText(pkg: string, name: string)
    ensures IdText(pkg, Own(name)) == pkg + "." + name
  {}

  lemma NoMore()
    ensures MoreText([]) == []
  {}

  lemma StripStays(s: string)
    requires s != [] && !IsSpace(s[0]) && !IsSpace(s[|s| - 1])
    ensures Strip(s) == s
  {}

  lemma NotOfType(code: seq<string>, k: nat, l: TopLine)
    requires k < |code| && !l.first.Type?
    ensures FieldsAndMethodsDiffer(code, k, l)
  {}

  lemma AccountedMeans(pkg: string, line: string, r: Reading, id: Id)
    ensures Accounted(pkg, line, r, id) <==> IdText(pkg, id) in r.ids || Strip(line) in r.unread
  {}

  lemma OneOfLine(pkg: string, line: string, l: TopLine, id: Id)
    requires IsTopLine(l) && line == TopText(l) && FieldsAndMethodsDiffer([line], 0, l)
    requires LineDeclares(l, id) && Visible(id)
    ensures Noticed(l, id) <==> IdText(pkg, id) in Ids(pkg, [line], 0, Top) || Strip(line) in Unread(pkg, [line], 0, Top)
  {
    hide *;
    OneLineFile(pkg, line);
    TopLineIff(pkg, [line], 0, l, id);
    AccountedMeans(pkg, line, ReadLine(pkg, [line], 0, Top), id);
  }

  /** A group on one line. */
  lemma OneLineGroupIsSilent(pkg: string)
    ensures var d := Grouped("const", " ", [Entry([], Names("A", []), " = 1")], Here([], []));
            && IsDecl(d) && Declares(d, Own("A")) && Visible(Own("A")) && DeclText(d, []) == "const (A = 1)"
            && Ids(pkg, ["const (A = 1)"], 0, Top) == [] && Unread(pkg, ["const (A = 1)"], 0, Top) == []
  {
    hide Ids, Unread;
    var e := Entry([], Names("A", []), " = 1");
    var d := Grouped("const", " ", [e], Here([], []));
    assert e in d.entries;
    assert EntryText(e) == "A = 1";
    assert EntriesText([e]) == "A = 1";
    assert DeclText(d, []) == "const (A = 1)";
    PassedDecl(pkg, d);
  }

  /** The second name of a line inside a group. */
  lemma SecondOfGroupIsSilent(pkg: string, code: seq<string>, k: nat, kind: string)
    requires k < |code| && code[k] == "A, B = 1, 2"
    ensures pkg + "." + "B" !in ReadLine(pkg, code, k, Group(kind)).ids
  {
    hide ReadLine;
    var names := Names("A", [Another([], " ", "B")]);
    var e := Entry([], names, " = 1, 2");
    assert MoreText(names.more) == ", B" by { assert names.more[1..] == []; }
    assert names.more[0] in names.more;
    assert EntryText(e) == "A, B = 1, 2";
    assert EntriesText([e]) == "A, B = 1, 2" && "A, B = 1, 2" + [] == "A, B = 1, 2";
    assert e in [e] && InList(names, "B");
    GroupLineIff(pkg, code, k, kind, [e], [], "B");
  }
}
