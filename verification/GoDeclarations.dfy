/**
 Reading the exported Go API of a package off its source text, one line at a
 time: which lines are read, which bodies are skipped, and what an exported
 declaration in a form the loose pattern knows leaves behind: an id, or a line
 named as unread.
 */
module GoDeclarations {
  import opened Basics

  // ------------------------------------------------------------- one line

  /** Go's export rule. */
  predicate Exported(name: string) {
    name != [] && 'A' <= name[0] <= 'Z'
  }

  function WordLen(s: string): (n: nat)
    ensures n <= |s|
  {
    if s != [] && IsWord(s[0]) then 1 + WordLen(s[1..]) else 0
  }

  /** The identifier `s` starts with, and what follows it. */
  function Ident(s: string): Option<(string, string)> {
    if s != [] && IsWord(s[0]) && !('0' <= s[0] <= '9') then Some((s[..WordLen(s)], s[WordLen(s)..])) else None
  }

  /** A line without its line comment. */
  function Code(line: string): string {
    if line == [] || (|line| > 1 && line[0] == '/' && line[1] == '/') then []
    else [line[0]] + Code(line[1..])
  }

  predicate Starts(s: string, c: char) {
    s != [] && s[0] == c
  }

  /** What follows a keyword and the space after it. */
  function After(s: string, word: string): Option<string> {
    if |s| > |word| && s[..|word|] == word && IsSpace(s[|word|]) then Some(SkipSpace(s[|word|..])) else None
  }

  /** What follows the keyword of a declaration. */
  function AfterValue(s: string): Option<string> {
    if After(s, "const").Some? then After(s, "const") else After(s, "var")
  }

  function AfterAny(s: string): Option<string> {
    if After(s, "func").Some? then After(s, "func")
    else if After(s, "type").Some? then After(s, "type")
    else AfterValue(s)
  }

  /** Past a parenthesised receiver in the loosest form: a type, perhaps a name, perhaps a star. */
  function PastReceiver(s: string): Option<string> {
    if !Starts(s, '(') then None
    else
      var first := SkipSpace(s[1..]);
      var gap := SkipSpace(first[WordLen(first)..]);
      var starred := Starts(gap, '*');
      var second := if starred then gap[1..] else gap;
      var end := SkipSpace(second[WordLen(second)..]);
      if (WordLen(second) > 0 || (!starred && WordLen(first) > 0)) && Starts(end, ')') then Some(SkipSpace(end[1..]))
      else None
  }

  /** The name a top-level line declares, in a form the loose pattern knows. */
  function Declared(line: string): Option<string> {
    match AfterAny(line)
    case None => None
    case Some(t) =>
      var u := if PastReceiver(t).Some? then PastReceiver(t).value else t;
      if Ident(u).Some? then Some(Ident(u).value.0) else None
  }

  /** `func (r *T) Name(`: the receiver's type and the name. */
  function MethodOf(line: string): Option<(string, string)> {
    match After(line, "func")
    case None => None
    case Some(t) =>
      if !Starts(t, '(') then None
      else
        var first := SkipSpace(t[1..]);
        var gap := first[WordLen(first)..];
        if WordLen(first) == 0 || gap == [] || !IsSpace(gap[0]) then None
        else
          var typ := if Starts(SkipSpace(gap), '*') then SkipSpace(gap)[1..] else SkipSpace(gap);
          match Ident(typ)
          case None => None
          case Some((receiver, end)) =>
            if !Starts(SkipSpace(end), ')') then None
            else
              match Ident(SkipSpace(SkipSpace(end)[1..]))
              case None => None
              case Some((name, rest)) => if Starts(SkipSpace(rest), '(') then Some((receiver, name)) else None
  }

  /** `func Name(`. */
  function FuncOf(line: string): Option<string> {
    match After(line, "func")
    case None => None
    case Some(t) =>
      if Ident(t).Some? && Starts(SkipSpace(Ident(t).value.1), '(') then Some(Ident(t).value.0) else None
  }

  /** `type Name rest`. */
  function TypeOf(line: string): Option<(string, string)> {
    match After(line, "type")
    case None => None
    case Some(t) =>
      match Ident(t)
      case None => None
      case Some((name, rest)) => if rest != [] && IsSpace(rest[0]) then Some((name, SkipSpace(rest))) else None
  }

  /** `const Name` or `var Name`. */
  function ValueOf(line: string): Option<string> {
    match AfterValue(line)
    case None => None
    case Some(t) => if Ident(t).Some? then Some(Ident(t).value.0) else None
  }

  predicate OpensGroup(line: string, kind: string) {
    && |line| >= |kind| && line[..|kind|] == kind
    && var t := SkipSpace(line[|kind|..]);
       Starts(t, '(') && SkipSpace(t[1..]) == []
  }

  /** The keyword of a grouped declaration that opens on this line. */
  function GroupOf(line: string): Option<string> {
    if OpensGroup(line, "const") then Some("const")
    else if OpensGroup(line, "var") then Some("var")
    else if OpensGroup(line, "type") then Some("type")
    else None
  }

  // The four keywords begin with four letters.
  lemma OneKeyword(line: string)
    ensures After(line, "func").Some? ==> AfterAny(line) == After(line, "func")
    ensures After(line, "type").Some? ==> AfterAny(line) == After(line, "type")
    ensures AfterValue(line).Some? ==> AfterAny(line) == AfterValue(line)
  {
    hide SkipSpace;
    forall word | word in ["func", "type", "const", "var"] && After(line, word).Some? ensures line[0] == word[0] {
      assert line[..|word|][0] == word[0];
    }
  }

  lemma ParenAlone(t: string)
    requires Starts(t, '(') && SkipSpace(t[1..]) == []
    ensures PastReceiver(t).None? && Ident(t).None?
  {}

  lemma GroupDeclaresNothing(line: string, kind: string)
    requires kind in ["const", "var", "type"] && OpensGroup(line, kind)
    ensures Declared(line).None?
  {
    hide PastReceiver, Ident, SkipSpace;
    assert line[..|kind|][0] == kind[0];
    ParenAlone(SkipSpace(line[|kind|..]));
    OneKeyword(line);
    forall word | word in ["func", "type", "const", "var"] && After(line, word).Some? ensures word == kind {
      assert line[..|word|][0] == word[0];
    }
  }

  /** Every strict form declares the name the loose form finds. */
  lemma StrictIsLoose(line: string)
    ensures MethodOf(line).Some? ==> Declared(line) == Some(MethodOf(line).value.1)
    ensures FuncOf(line).Some? ==> Declared(line) == FuncOf(line)
    ensures TypeOf(line).Some? ==> Declared(line) == Some(TypeOf(line).value.0)
    ensures ValueOf(line).Some? ==> Declared(line) == ValueOf(line)
    ensures GroupOf(line).Some? ==> Declared(line).None?
  {
    OneKeyword(line);
    hide After, AfterAny, AfterValue, SkipSpace, OpensGroup;
    if GroupOf(line).Some? { GroupDeclaresNothing(line, GroupOf(line).value); }
  }

  // ------------------------------------------------------------- a body

  function Joined(lines: seq<string>): string {
    if lines == [] then []
    else if |lines| == 1 then lines[0]
    else lines[0] + "\n" + Joined(lines[1..])
  }

  /** Opening braces less closing braces. */
  function Net(s: string): int {
    if s == [] then 0 else (if s[0] == '{' then 1 else if s[0] == '}' then -1 else 0) + Net(s[1..])
  }

  /** Just past the brace that brings `depth` open braces back to none, or the end of `s`. */
  function CloseOf(s: string, depth: nat): (n: nat)
    ensures n <= |s|
  {
    if s == [] || depth == 0 then 0
    else 1 + CloseOf(s[1..], if s[0] == '{' then depth + 1 else if s[0] == '}' then depth - 1 else depth)
  }

  /** Everything after the brace that opens on the first of these lines. */
  function Opened(code: seq<string>): string
    requires code != [] && '{' in code[0]
  {
    BraceIn(code);
    Joined(code)[IndexOf(Joined(code), '{') + 1..]
  }

  /** The body that opens on the first of these lines, and how many lines further down it ends. */
  function Body(code: seq<string>): (string, nat)
    requires code != [] && '{' in code[0]
  {
    var text, inside := Joined(code), Opened(code);
    var close := CloseOf(inside, 1);
    BraceIn(code);
    (inside[..if close == 0 then 0 else close - 1], Newlines(text[..IndexOf(text, '{') + 1 + close]))
  }

  lemma {:induction false} FoundAt(s: string, c: char)
    requires c in s
    ensures IndexOf(s, c) < |s|
  {
    if s[0] != c { FoundAt(s[1..], c); }
  }

  lemma BraceIn(code: seq<string>)
    requires code != [] && '{' in code[0]
    ensures '{' in Joined(code) && IndexOf(Joined(code), '{') < |Joined(code)|
  {
    var i :| 0 <= i < |code[0]| && code[0][i] == '{';
    assert Joined(code)[i] == '{';
    FoundAt(Joined(code), '{');
  }

  lemma {:induction false} NetOfConcat(a: string, b: string)
    ensures Net(a + b) == Net(a) + Net(b)
  {
    if a == [] {
      assert a + b == b;
    } else {
      assert (a + b)[0] == a[0] && (a + b)[1..] == a[1..] + b;
      NetOfConcat(a[1..], b);
    }
  }

  /** The end is the first place where the braces balance, if there is one. */
  lemma {:induction false} CloseBalances(s: string, depth: nat)
    requires depth > 0
    ensures var n := CloseOf(s, depth);
            && (forall k :: 0 <= k < n ==> depth + Net(s[..k]) > 0)
            && (n < |s| ==> depth + Net(s[..n]) == 0)
            && depth + Net(s[..n]) >= 0
            && (depth + Net(s[..n]) == 0 ==> n > 0 && s[n - 1] == '}')
  {
    if s != [] {
      var d: nat := if s[0] == '{' then depth + 1 else if s[0] == '}' then depth - 1 else depth;
      var n := CloseOf(s, depth);
      assert forall k :: 0 < k <= |s| ==> s[..k][0] == s[0] && s[..k][1..] == s[1..][..k - 1];
      if d > 0 {
        CloseBalances(s[1..], d);
      }
    }
  }

  lemma {:induction false} NewlinesOfPrefix(lines: seq<string>, n: nat)
    requires n <= |Joined(lines)| && forall l :: l in lines ==> '\n' !in l
    ensures Newlines(Joined(lines)[..n]) < |lines| || lines == []
  {
    hide Newlines;
    assert lines != [] ==> lines[0] in lines;
    if |lines| == 1 {
      NoNewlines(lines[0][..n]);
    } else if |lines| > 1 {
      var head, rest := lines[0] + "\n", Joined(lines[1..]);
      if n <= |lines[0]| {
        assert (head + rest)[..n] == lines[0][..n];
        NoNewlines(lines[0][..n]);
      } else {
        assert (head + rest)[..n] == lines[0] + ("\n" + rest[..n - |head|]);
        NoNewlines(lines[0]);
        NewlinesOfConcat(lines[0], "\n" + rest[..n - |head|]);
        NewlinesOfConcat("\n", rest[..n - |head|]);
        OneNewline();
        NewlinesOfPrefix(lines[1..], n - |head|);
      }
    } else {
      assert Joined(lines)[..n] == [];
    }
  }

  lemma OneNewline()
    ensures Newlines("\n") == 1
  {}

  /** The names one line of a struct body declares: a comma list, a space, a type. */
  function FieldNames(line: string): Option<seq<string>>
    decreases |line|
  {
    match Ident(line)
    case None => None
    case Some((name, t)) =>
      var u := SkipSpace(t);
      var more := if Starts(u, ',') && WordLen(line) > 0 then FieldNames(SkipSpace(u[1..])) else None;
      if more.Some? then Some([name] + more.value)
      else if u != [] && t != [] && IsSpace(t[0]) then Some([name])
      else None
  }

  function OnlyExported(names: seq<string>): seq<string> {
    if names == [] then []
    else (if Exported(names[0]) then [names[0]] else []) + OnlyExported(names[1..])
  }

  /** What one line of a struct body leaves, with `depth` braces open before it: exported fields, or itself unread. */
  function FieldOf(line: string, depth: int): (seq<string>, seq<string>) {
    if depth != 0 || line == [] then ([], [])
    else
      match FieldNames(line)
      case Some(names) => (OnlyExported(names), [])
      case None => ([], if Exported(line) then [line] else [])
  }

  /** The exported fields of a struct body from `depth` open braces on, and the exported lines that name none. */
  function Fields(lines: seq<string>, depth: int): (seq<string>, seq<string>) {
    if lines == [] then ([], [])
    else
      var line := Strip(Code(lines[0]));
      var (own, more) := (FieldOf(line, depth), Fields(lines[1..], depth + Net(line)));
      (own.0 + more.0, own.1 + more.1)
  }

  /** A method of an interface whose name is exported. */
  predicate IsMember(line: string) {
    Exported(line) && Starts(SkipSpace(line[WordLen(line)..]), '(')
  }

  function Members(lines: seq<string>): seq<string> {
    if lines == [] then []
    else (if IsMember(Strip(Code(lines[0]))) then [Strip(lines[0])] else []) + Members(lines[1..])
  }

  predicate WordAt(s: string, i: nat, word: string) {
    && i + |word| <= |s| && s[i..i + |word|] == word
    && (i == 0 || !IsWord(s[i - 1])) && (i + |word| == |s| || !IsWord(s[i + |word|]))
  }

  predicate HasWord(s: string, word: string) {
    exists i :: 0 <= i <= |s| && WordAt(s, i, word)
  }

  // ------------------------------------------------------------- the walk

  datatype Level = Top | Group(kind: string)

  /** What an inspected line leaves behind: ids, lines named as unread, where to go on and at what level. */
  datatype Reading = Reading(ids: seq<string>, unread: seq<string>, next: nat, level: Level)

  function Qualified(name: string, fields: seq<string>): seq<string> {
    if fields == [] then [] else [name + "." + fields[0]] + Qualified(name, fields[1..])
  }

  /** A type's body at line `k`: skipped, and read on the way past when the type is exported. */
  function ReadBody(pkg: string, code: seq<string>, k: nat, name: string, rest: string, level: Level): Reading
    requires k < |code| && '{' in code[k]
  {
    var (body, down) := Body(code[k..]);
    var next := k + down + 1;
    if !Exported(name) then Reading([], [], next, level)
    else if HasWord(rest, "struct") then
      var (fields, missed) := Fields(Split(body, '\n'), 0);
      Reading(Qualified(pkg + "." + name, fields), missed, next, level)
    else Reading([], Members(Split(body, '\n')), next, level)
  }

  function IdIf(pkg: string, name: string): seq<string> {
    if Exported(name) then [pkg + "." + name] else []
  }

  /** A type declaration, at either level: its own id, then its body. */
  function ReadType(pkg: string, code: seq<string>, k: nat, name: string, rest: string, level: Level): Reading
    requires k < |code| && ('{' in rest ==> '{' in code[k])
  {
    var id := IdIf(pkg, name);
    if '{' in rest then
      var r := ReadBody(pkg, code, k, name, rest, level);
      r.(ids := id + r.ids)
    else Reading(id, [], k + 1, level)
  }

  function ReadEntry(pkg: string, code: seq<string>, k: nat, kind: string): Reading
    requires k < |code|
  {
    if Starts(code[k], ')') then Reading([], [], k + 1, Top)
    else
      match Ident(Strip(code[k]))
      case None => Reading([], [], k + 1, Group(kind))
      case Some((name, rest)) =>
        StripKeeps(code[k], '{');
        if kind == "type" then ReadType(pkg, code, k, name, rest, Group(kind))
        else Reading(IdIf(pkg, name), [], k + 1, Group(kind))
  }

  function ReadTop(pkg: string, code: seq<string>, k: nat): Reading
    requires k < |code|
  {
    var line := code[k];
    if GroupOf(line).Some? then Reading([], [], k + 1, Group(GroupOf(line).value))
    else if MethodOf(line).Some? then
      var (receiver, name) := MethodOf(line).value;
      Reading(if Exported(receiver) && Exported(name) then [pkg + "." + receiver + "." + name] else [], [], k + 1, Top)
    else if FuncOf(line).Some? then Reading(IdIf(pkg, FuncOf(line).value), [], k + 1, Top)
    else if TypeOf(line).Some? then
      TypeRest(line);
      ReadType(pkg, code, k, TypeOf(line).value.0, TypeOf(line).value.1, Top)
    else if ValueOf(line).Some? then Reading(IdIf(pkg, ValueOf(line).value), [], k + 1, Top)
    else if Declared(line).Some? && Exported(Declared(line).value) then Reading([], [Strip(line)], k + 1, Top)
    else Reading([], [], k + 1, Top)
  }

  function ReadLine(pkg: string, code: seq<string>, k: nat, level: Level): (r: Reading)
    requires k < |code|
    ensures r.next > k
  {
    match level
    case Top => ReadTop(pkg, code, k)
    case Group(kind) => ReadEntry(pkg, code, k, kind)
  }

  lemma {:induction false} SkipSpaceKeeps(s: string, c: char)
    ensures c in SkipSpace(s) ==> c in s
  {
    if s != [] && IsSpace(s[0]) { SkipSpaceKeeps(s[1..], c); }
  }

  lemma {:induction false} TrimKeeps(s: string, c: char)
    ensures c in TrimEnd(s) ==> c in s
  {
    if s != [] && IsSpace(s[|s| - 1]) { TrimKeeps(s[..|s| - 1], c); }
  }

  lemma StripKeeps(s: string, c: char)
    ensures Ident(Strip(s)).Some? ==> c in Ident(Strip(s)).value.1 ==> c in s
  {
    SkipSpaceKeeps(s, c);
    TrimKeeps(SkipSpace(s), c);
  }

  lemma TypeRest(line: string)
    requires TypeOf(line).Some?
    ensures '{' in TypeOf(line).value.1 ==> '{' in line
  {
    var t := SkipSpace(line[4..]);
    SkipSpaceKeeps(line[4..], '{');
    SkipSpaceKeeps(Ident(t).value.1, '{');
  }

  // The whole walk, from line `k` at a level.
  function Ids(pkg: string, code: seq<string>, k: nat, level: Level): seq<string>
    decreases |code| - k
  {
    if k >= |code| then []
    else
      var r := ReadLine(pkg, code, k, level);
      r.ids + Ids(pkg, code, r.next, r.level)
  }

  function Unread(pkg: string, code: seq<string>, k: nat, level: Level): seq<string>
    decreases |code| - k
  {
    if k >= |code| then []
    else
      var r := ReadLine(pkg, code, k, level);
      r.unread + Unread(pkg, code, r.next, r.level)
  }

  /** Where the walk leaves a line: inspected at a level, or inside the body that opens on another line. */
  datatype Place = At(level: Level) | Inside(opener: nat)

  function PlaceFrom(pkg: string, code: seq<string>, k: nat, level: Level, line: nat): Place
    requires k <= line < |code|
    decreases |code| - k
  {
    var r := ReadLine(pkg, code, k, level);
    if line == k then At(level)
    else if line < r.next then Inside(k)
    else PlaceFrom(pkg, code, r.next, r.level, line)
  }

  function PlaceOf(pkg: string, code: seq<string>, line: nat): Place
    requires line < |code|
  {
    PlaceFrom(pkg, code, 0, Top, line)
  }

  lemma {:induction false} InsideFrom(pkg: string, code: seq<string>, k: nat, level: Level, opener: nat, line: nat)
    requires k <= line < |code|
    ensures PlaceFrom(pkg, code, k, level, line) == Inside(opener) <==>
            && k <= opener < line
            && PlaceFrom(pkg, code, k, level, opener).At?
            && line < ReadLine(pkg, code, opener, PlaceFrom(pkg, code, k, level, opener).level).next
    decreases |code| - k
  {
    hide ReadLine;
    var r := ReadLine(pkg, code, k, level);
    if line >= r.next {
      InsideFrom(pkg, code, r.next, r.level, opener, line);
      if k < opener < r.next {
        assert PlaceFrom(pkg, code, k, level, opener) == Inside(k);
      }
    }
  }

  /**
   Every line is inspected or lies in a skipped body, never both, and in no more
   than one body: it is inside the body of `opener` exactly when `opener` is an
   inspected line above it whose body reaches it.
   */
  lemma EveryLineOnce(pkg: string, code: seq<string>, line: nat, opener: nat)
    requires line < |code|
    ensures PlaceOf(pkg, code, line) == Inside(opener) <==>
            && opener < line
            && PlaceOf(pkg, code, opener).At?
            && line < ReadLine(pkg, code, opener, PlaceOf(pkg, code, opener).level).next
  {
    InsideFrom(pkg, code, 0, Top, opener, line);
  }

  lemma {:induction false} InspectedCounts(pkg: string, code: seq<string>, k: nat, level: Level, line: nat)
    requires k <= line < |code| && PlaceFrom(pkg, code, k, level, line).At?
    ensures var r := ReadLine(pkg, code, line, PlaceFrom(pkg, code, k, level, line).level);
            && (forall id :: id in r.ids ==> id in Ids(pkg, code, k, level))
            && (forall l :: l in r.unread ==> l in Unread(pkg, code, k, level))
    decreases |code| - k
  {
    hide ReadLine;
    var r := ReadLine(pkg, code, k, level);
    if line != k { InspectedCounts(pkg, code, r.next, r.level, line); }
  }

  // ------------------------------------------------- nothing silent, nothing invented

  /**
   A top-level line that declares an exported name in a form the loose pattern
   knows leaves that name's id, or is named as unread, or is a method of a
   receiver no other module can name.
   */
  lemma NothingSilent(pkg: string, code: seq<string>, line: nat)
    requires line < |code| && PlaceOf(pkg, code, line) == At(Top)
    requires Declared(code[line]).Some? && Exported(Declared(code[line]).value)
    ensures var (name, found) := (Declared(code[line]).value, MethodOf(code[line]));
            if found.Some? then
              && found.value.1 == name
              && (Exported(found.value.0) ==> pkg + "." + found.value.0 + "." + name in Ids(pkg, code, 0, Top))
            else
              || pkg + "." + name in Ids(pkg, code, 0, Top)
              || Strip(code[line]) in Unread(pkg, code, 0, Top)
  {
    hide Ids, Unread, PlaceFrom, Declared, GroupOf, MethodOf, FuncOf, TypeOf, ValueOf, ReadBody;
    StrictIsLoose(code[line]);
    InspectedCounts(pkg, code, 0, Top, line);
    LeavesName(pkg, code, line);
  }

  lemma LeavesName(pkg: string, code: seq<string>, line: nat)
    requires line < |code| && Declared(code[line]).Some? && Exported(Declared(code[line]).value)
    requires GroupOf(code[line]).None?
    requires MethodOf(code[line]).Some? ==> Declared(code[line]) == Some(MethodOf(code[line]).value.1)
    requires FuncOf(code[line]).Some? ==> Declared(code[line]) == FuncOf(code[line])
    requires TypeOf(code[line]).Some? ==> Declared(code[line]) == Some(TypeOf(code[line]).value.0)
    requires ValueOf(code[line]).Some? ==> Declared(code[line]) == ValueOf(code[line])
    ensures var (r, name, found) := (ReadLine(pkg, code, line, Top), Declared(code[line]).value, MethodOf(code[line]));
            if found.Some? then Exported(found.value.0) ==> pkg + "." + found.value.0 + "." + name in r.ids
            else pkg + "." + name in r.ids || Strip(code[line]) in r.unread
  {
    hide Declared, GroupOf, MethodOf, FuncOf, TypeOf, ValueOf, ReadBody, Strip;
    if MethodOf(code[line]).None? && FuncOf(code[line]).None? && TypeOf(code[line]).Some? {
      TypeRest(code[line]);
      var (name, rest) := TypeOf(code[line]).value;
      var r := ReadType(pkg, code, line, name, rest, Top);
      assert r.ids[0] == pkg + "." + name;
    }
  }

  /** Inside a group, every line that starts with an exported name leaves that name's id. */
  lemma EntriesAreIds(pkg: string, code: seq<string>, line: nat, kind: string)
    requires line < |code| && PlaceOf(pkg, code, line) == At(Group(kind)) && !Starts(code[line], ')')
    requires Ident(Strip(code[line])).Some? && Exported(Ident(Strip(code[line])).value.0)
    ensures pkg + "." + Ident(Strip(code[line])).value.0 in Ids(pkg, code, 0, Top)
  {
    hide Ids, PlaceFrom, Ident, ReadBody, Strip;
    InspectedCounts(pkg, code, 0, Top, line);
    var (name, rest) := Ident(Strip(code[line])).value;
    StripKeeps(code[line], '{');
    assert ReadLine(pkg, code, line, Group(kind)).ids[0] == pkg + "." + name;
  }

  // A name another module could write.
  predicate Public(name: string) {
    Exported(name) && forall c :: c in name ==> IsWord(c)
  }

  ghost predicate Proper(pkg: string, id: string) {
    || (exists n :: Public(n) && id == pkg + "." + n)
    || (exists t, n :: Public(t) && Public(n) && id == pkg + "." + t + "." + n)
  }

  lemma {:induction false} WordsOnly(s: string)
    ensures forall c :: c in s[..WordLen(s)] ==> IsWord(c)
  {
    if s != [] && IsWord(s[0]) {
      WordsOnly(s[1..]);
      assert s[..WordLen(s)] == [s[0]] + s[1..][..WordLen(s[1..])];
    }
  }

  lemma IdentIsPublic(s: string)
    requires Ident(s).Some? && Exported(Ident(s).value.0)
    ensures Public(Ident(s).value.0)
  {
    WordsOnly(s);
  }

  lemma {:induction false} FieldNamesPublic(line: string, name: string)
    requires FieldNames(line).Some? && name in FieldNames(line).value && Exported(name)
    ensures Public(name)
    decreases |line|
  {
    var (first, t) := Ident(line).value;
    var u := SkipSpace(t);
    if name == first {
      IdentIsPublic(line);
    } else {
      FieldNamesPublic(SkipSpace(u[1..]), name);
    }
  }

  lemma {:induction false} OnlyExportedAre(names: seq<string>, name: string)
    ensures name in OnlyExported(names) <==> name in names && Exported(name)
  {
    if names != [] { OnlyExportedAre(names[1..], name); }
  }

  lemma {:induction false} FieldsPublic(lines: seq<string>, depth: int, name: string)
    requires name in Fields(lines, depth).0
    ensures Public(name)
  {
    hide FieldNames, Strip, Code, Net;
    if lines != [] {
      var line := Strip(Code(lines[0]));
      var rest := Fields(lines[1..], depth + Net(line)).0;
      if name in rest {
        FieldsPublic(lines[1..], depth + Net(line), name);
      } else {
        OnlyExportedAre(FieldNames(line).value, name);
        FieldNamesPublic(line, name);
      }
    }
  }

  lemma {:induction false} QualifiedAre(name: string, fields: seq<string>, id: string)
    ensures id in Qualified(name, fields) <==> exists f :: f in fields && id == name + "." + f
  {
    if fields != [] {
      QualifiedAre(name, fields[1..], id);
      if id in Qualified(name, fields[1..]) {
        var f :| f in fields[1..] && id == name + "." + f;
        assert f in fields;
      }
      assert id == name + "." + fields[0] ==> fields[0] in fields;
    }
  }

  lemma BodyIdsProper(pkg: string, code: seq<string>, k: nat, name: string, rest: string, level: Level, id: string)
    requires k < |code| && '{' in code[k] && (Exported(name) ==> Public(name))
    requires id in ReadBody(pkg, code, k, name, rest, level).ids
    ensures Proper(pkg, id)
  {
    hide Fields, Body, HasWord, Split, Public, Members;
    var (body, _) := Body(code[k..]);
    var fields := Fields(Split(body, '\n'), 0).0;
    QualifiedAre(pkg + "." + name, fields, id);
    var f :| f in fields && id == pkg + "." + name + "." + f;
    FieldsPublic(Split(body, '\n'), 0, f);
  }

  lemma TypeIdsProper(pkg: string, code: seq<string>, k: nat, name: string, rest: string, level: Level, id: string)
    requires k < |code| && ('{' in rest ==> '{' in code[k]) && (Exported(name) ==> Public(name))
    requires id in ReadType(pkg, code, k, name, rest, level).ids
    ensures Proper(pkg, id)
  {
    hide ReadBody, Public;
    if '{' in rest && id in ReadBody(pkg, code, k, name, rest, level).ids {
      BodyIdsProper(pkg, code, k, name, rest, level, id);
    }
  }

  lemma NamesPublic(line: string)
    ensures MethodOf(line).Some? && Exported(MethodOf(line).value.0) ==> Public(MethodOf(line).value.0)
    ensures MethodOf(line).Some? && Exported(MethodOf(line).value.1) ==> Public(MethodOf(line).value.1)
    ensures FuncOf(line).Some? && Exported(FuncOf(line).value) ==> Public(FuncOf(line).value)
    ensures TypeOf(line).Some? && Exported(TypeOf(line).value.0) ==> Public(TypeOf(line).value.0)
    ensures ValueOf(line).Some? && Exported(ValueOf(line).value) ==> Public(ValueOf(line).value)
  {
    hide SkipSpace, After, AfterValue, Exported, Public, Ident, WordLen;
    forall s | Ident(s).Some? && Exported(Ident(s).value.0) ensures Public(Ident(s).value.0) { IdentIsPublic(s); }
  }

  lemma LineIdsProper(pkg: string, code: seq<string>, k: nat, level: Level, id: string)
    requires k < |code| && id in ReadLine(pkg, code, k, level).ids
    ensures Proper(pkg, id)
  {
    hide GroupOf, MethodOf, FuncOf, TypeOf, ValueOf, Declared, ReadType, Ident, Strip, Public;
    var line := code[k];
    NamesPublic(line);
    StripKeeps(line, '{');
    if level.Group? {
      var (name, rest) := Ident(Strip(line)).value;
      if Exported(name) { IdentIsPublic(Strip(line)); }
      if level.kind == "type" { TypeIdsProper(pkg, code, k, name, rest, level, id); }
    } else if MethodOf(line).Some? {
      var (receiver, name) := MethodOf(line).value;
      assert id == pkg + "." + receiver + "." + name && Public(receiver) && Public(name);
    } else if FuncOf(line).None? && TypeOf(line).Some? {
      TypeRest(line);
      TypeIdsProper(pkg, code, k, TypeOf(line).value.0, TypeOf(line).value.1, Top, id);
    }
  }

  /** Whatever the text, every id names something another module could write: each part of it is exported. */
  lemma {:induction false} NothingUnexported(pkg: string, code: seq<string>, k: nat, level: Level, id: string)
    requires id in Ids(pkg, code, k, level)
    ensures Proper(pkg, id)
    decreases |code| - k
  {
    hide ReadLine, Proper;
    var r := ReadLine(pkg, code, k, level);
    if id in r.ids { LineIdsProper(pkg, code, k, level, id); } else { NothingUnexported(pkg, code, r.next, r.level, id); }
  }

  // ------------------------------------------------------------- inside a body

  /** How many braces of a struct body are open where line `j` of it starts. */
  function FieldDepth(lines: seq<string>, j: nat): int
    requires j <= |lines|
  {
    if j == 0 then 0 else Net(Strip(Code(lines[0]))) + FieldDepth(lines[1..], j - 1)
  }

  lemma {:induction false} FieldLine(lines: seq<string>, depth: int, j: nat)
    requires j < |lines| && depth + FieldDepth(lines, j) == 0 && Strip(Code(lines[j])) != []
    ensures var line := Strip(Code(lines[j]));
            match FieldNames(line)
            case Some(names) => forall n :: n in names && Exported(n) ==> n in Fields(lines, depth).0
            case None => Exported(line) ==> line in Fields(lines, depth).1
  {
    hide FieldNames, Strip, Code, Net;
    var line := Strip(Code(lines[0]));
    if j == 0 {
      if FieldNames(line).Some? {
        forall n ensures n in OnlyExported(FieldNames(line).value) <==> n in FieldNames(line).value && Exported(n) {
          OnlyExportedAre(FieldNames(line).value, n);
        }
      }
    } else {
      assert lines[1..][j - 1] == lines[j];
      FieldLine(lines[1..], depth + Net(line), j - 1);
    }
  }

  /** The type a line declares, at either level: its name and what follows. */
  function TypeAt(line: string, level: Level): Option<(string, string)> {
    match level
    case Top => TypeOf(line)
    case Group(kind) => if kind != "type" || Starts(line, ')') then None else Ident(Strip(line))
  }

  lemma TypeIsNothingElse(line: string)
    requires TypeOf(line).Some?
    ensures GroupOf(line).None? && MethodOf(line).None? && FuncOf(line).None?
  {
    StrictIsLoose(line);
    var head := line[..4];
    assert head[0] == 't' && "func"[0] == 'f' && "const"[0] == 'c' && "var"[0] == 'v';
    assert head != "func";
  }

  lemma TypeIsRead(pkg: string, code: seq<string>, line: nat, level: Level)
    requires line < |code| && TypeAt(code[line], level).Some?
    ensures var (name, rest) := TypeAt(code[line], level).value;
            && ('{' in rest ==> '{' in code[line])
            && ReadLine(pkg, code, line, level) == ReadType(pkg, code, line, name, rest, level)
  {
    hide GroupOf, MethodOf, FuncOf, TypeOf, Ident, Strip, ReadType;
    if level.Top? {
      TypeIsNothingElse(code[line]);
      TypeRest(code[line]);
    } else {
      StripKeeps(code[line], '{');
    }
  }

  /**
   Inside the body of an exported struct no line at the struct's own depth is
   passed over: each exported name it declares leaves an id, and an exported line
   that declares none is named as unread.
   */
  lemma FieldsAreAccounted(pkg: string, code: seq<string>, line: nat, level: Level, j: nat)
    requires line < |code| && PlaceOf(pkg, code, line) == At(level) && TypeAt(code[line], level).Some?
    requires var (name, rest) := TypeAt(code[line], level).value;
             Exported(name) && '{' in rest && HasWord(rest, "struct")
    requires '{' in code[line]
    requires var lines := Split(Body(code[line..]).0, '\n');
             j < |lines| && FieldDepth(lines, j) == 0 && Strip(Code(lines[j])) != []
    ensures var typeName := TypeAt(code[line], level).value.0;
            var field := Strip(Code(Split(Body(code[line..]).0, '\n')[j]));
            match FieldNames(field)
            case Some(names) =>
              forall n :: n in names && Exported(n) ==> pkg + "." + typeName + "." + n in Ids(pkg, code, 0, Top)
            case None => Exported(field) ==> field in Unread(pkg, code, 0, Top)
  {
    hide TypeAt, FieldDepth, FieldNames, Strip, Code, Body, HasWord, Ids, Unread, PlaceFrom, ReadLine, Split, Fields;
    InspectedCounts(pkg, code, 0, Top, line);
    TypeIsRead(pkg, code, line, level);
    var typeName := TypeAt(code[line], level).value.0;
    var lines := Split(Body(code[line..]).0, '\n');
    FieldLine(lines, 0, j);
    var fields := Fields(lines, 0).0;
    forall n | n in fields ensures pkg + "." + typeName + "." + n in ReadLine(pkg, code, line, level).ids {
      QualifiedAre(pkg + "." + typeName, fields, pkg + "." + typeName + "." + n);
    }
  }

  lemma {:induction false} MemberLine(lines: seq<string>, j: nat)
    requires j < |lines| && IsMember(Strip(Code(lines[j])))
    ensures Strip(lines[j]) in Members(lines)
  {
    hide IsMember, Strip, Code;
    if j > 0 {
      assert lines[1..][j - 1] == lines[j];
      MemberLine(lines[1..], j - 1);
    }
  }

  /** The exported methods of an exported interface are named as unread, every one. */
  lemma MembersAreNamed(pkg: string, code: seq<string>, line: nat, level: Level, j: nat)
    requires line < |code| && PlaceOf(pkg, code, line) == At(level) && TypeAt(code[line], level).Some?
    requires var (name, rest) := TypeAt(code[line], level).value;
             Exported(name) && '{' in rest && !HasWord(rest, "struct")
    requires '{' in code[line]
    requires var lines := Split(Body(code[line..]).0, '\n'); j < |lines| && IsMember(Strip(Code(lines[j])))
    ensures Strip(Split(Body(code[line..]).0, '\n')[j]) in Unread(pkg, code, 0, Top)
  {
    hide TypeAt, Strip, Code, Body, HasWord, Ids, Unread, PlaceFrom, ReadLine, Split, Members, IsMember;
    InspectedCounts(pkg, code, 0, Top, line);
    TypeIsRead(pkg, code, line, level);
    MemberLine(Split(Body(code[line..]).0, '\n'), j);
  }

  // --------------------------------------------------- the two readings of a body agree

  // No two slashes side by side.
  predicate Slashless(s: string) {
    forall i :: 0 < i < |s| && s[i] == '/' ==> s[i - 1] != '/'
  }

  lemma {:induction false} CodeIsSlashless(s: string)
    ensures Slashless(Code(s)) && |Code(s)| <= |s| && Code(s) == s[..|Code(s)|]
  {
    if s == [] || (|s| > 1 && s[0] == '/' && s[1] == '/') {
    } else {
      CodeIsSlashless(s[1..]);
      assert Code(s) == [s[0]] + Code(s[1..]);
      assert s[..|Code(s)|] == [s[0]] + s[1..][..|Code(s)| - 1];
    }
  }

  lemma {:induction false} SlashlessIsCode(s: string)
    requires Slashless(s)
    ensures Code(s) == s
  {
    if s != [] {
      assert Slashless(s[1..]);
      assert |s| > 1 && s[0] == '/' ==> s[1] != '/';
      SlashlessIsCode(s[1..]);
    }
  }

  predicate AllSlashless(lines: seq<string>) {
    forall l :: l in lines ==> Slashless(l)
  }

  lemma {:induction false} JoinedIsSlashless(lines: seq<string>)
    requires AllSlashless(lines)
    ensures Slashless(Joined(lines))
  {
    if |lines| == 1 {
      assert lines[0] in lines;
    } else if |lines| > 1 {
      assert lines[0] in lines;
      JoinedIsSlashless(lines[1..]);
      SlashlessAround(lines[0], Joined(lines[1..]));
    }
  }

  lemma SlashlessAround(a: string, b: string)
    requires Slashless(a) && Slashless(b)
    ensures Slashless(a + "\n" + b)
  {
    var s := a + "\n" + b;
    forall i | 0 < i < |s| && s[i] == '/' ensures s[i - 1] != '/' {
      if i > |a| + 1 { assert s[i] == b[i - |a| - 1] && s[i - 1] == b[i - |a| - 2]; }
    }
  }

  lemma {:induction false} NetOfSkip(s: string)
    ensures Net(SkipSpace(s)) == Net(s)
  {
    if s != [] && IsSpace(s[0]) { NetOfSkip(s[1..]); }
  }

  lemma {:induction false} NetOfTrim(s: string)
    ensures Net(TrimEnd(s)) == Net(s)
  {
    if s != [] && IsSpace(s[|s| - 1]) {
      NetOfTrim(s[..|s| - 1]);
      assert s == s[..|s| - 1] + [s[|s| - 1]];
      NetOfConcat(s[..|s| - 1], [s[|s| - 1]]);
      assert Net([s[|s| - 1]]) == 0;
    }
  }

  lemma SlashlessPart(s: string, i: nat, j: nat)
    requires Slashless(s) && i <= j <= |s|
    ensures Slashless(s[i..j])
  {}

  lemma NetOfLine(line: string)
    requires Slashless(line)
    ensures Net(Strip(Code(line))) == Net(line)
  {
    SlashlessIsCode(line);
    NetOfSkip(line);
    NetOfTrim(SkipSpace(line));
  }

  lemma NetOfOne()
    ensures Net([]) == 0 && Net("\n") == 0
  {}

  lemma SplitUnfold(s: string)
    ensures var n := IndexOf(s, '\n');
            Split(s, '\n') == if n < |s| then [s[..n]] + Split(s[n + 1..], '\n') else [s]
  {
    hide IndexOf;
  }

  // Line by line, the braces counted are those of the text up to some point of it.
  lemma {:induction false} DepthIsNet(s: string, j: nat) returns (p: nat)
    requires Slashless(s) && j <= |Split(s, '\n')|
    ensures p <= |s| && FieldDepth(Split(s, '\n'), j) == Net(s[..p])
    ensures j == |Split(s, '\n')| ==> p == |s|
    decreases |s|
  {
    hide Strip, Code, Slashless, Net, Split, IndexOf;
    SplitUnfold(s);
    NetOfOne();
    p := 0;
    if j > 0 {
      var n := IndexOf(s, '\n');
      SlashlessPart(s, 0, n);
      assert s[0..n] == s[..n];
      NetOfLine(s[..n]);
      if n < |s| {
        IndexOfIsFirst(s, '\n');
        SlashlessPart(s, n + 1, |s|);
        assert s[n + 1..|s|] == s[n + 1..];
        assert Split(s, '\n')[1..] == Split(s[n + 1..], '\n');
        var q := DepthIsNet(s[n + 1..], j - 1);
        p := n + 1 + q;
        assert s[..p] == s[..n] + ("\n" + s[n + 1..][..q]);
        NetOfConcat(s[..n], "\n" + s[n + 1..][..q]);
        NetOfConcat("\n", s[n + 1..][..q]);
      } else {
        p := |s|;
        assert s[..n] == s;
      }
    }
  }

  /**
   Where a body ends and how deep its lines stand are counted twice, once over
   the whole text and once line by line, and the two agree: no line of a body
   stands outside it, and if the body is closed its lines balance exactly.
   */
  lemma BodyAndFieldsAgree(code: seq<string>, j: nat)
    requires code != [] && '{' in code[0] && AllSlashless(code)
    requires j <= |Split(Body(code).0, '\n')|
    ensures FieldDepth(Split(Body(code).0, '\n'), j) >= 0
    ensures 1 + Net(Opened(code)[..CloseOf(Opened(code), 1)]) == 0 ==>
            FieldDepth(Split(Body(code).0, '\n'), |Split(Body(code).0, '\n')|) == 0
  {
    hide FieldDepth, Net, Split, Slashless, IndexOf, CloseOf, Joined;
    BraceIn(code);
    JoinedIsSlashless(code);
    var text := Joined(code);
    var start := IndexOf(text, '{') + 1;
    var inside := text[start..];
    var close := CloseOf(inside, 1);
    var body := Body(code).0;
    CloseBalances(inside, 1);
    NetOfOne();
    var size: nat := if close == 0 then 0 else close - 1;
    assert body == inside[..size] == text[start..start + size];
    SlashlessPart(text, start, start + size);
    var p := DepthIsNet(body, j);
    assert body[..p] == inside[..p];
    assert inside[..0] == [];
    var all := DepthIsNet(body, |Split(body, '\n')|);
    assert body[..all] == body;
    if 1 + Net(inside[..close]) == 0 {
      assert inside[..close] == body + "}";
      NetOfConcat(body, "}");
      NetOfClose();
    }
  }

  lemma NetOfClose()
    ensures Net("}") == -1
  {}

  // ------------------------------------------------------------- from the text

  function Codes(lines: seq<string>): seq<string> {
    seq(|lines|, i requires 0 <= i < |lines| => Code(lines[i]))
  }

  /** The lines of a file, each without its line comment. */
  function CodeLines(text: string): seq<string> {
    Codes(Split(text, '\n'))
  }

  /** The whole text without its line comments. */
  function StripText(text: string): string
    decreases |text|
  {
    if text == [] then []
    else if |text| > 1 && text[0] == '/' && text[1] == '/' then StripText(text[1 + IndexOf(text[1..], '\n')..])
    else [text[0]] + StripText(text[1..])
  }

  lemma {:induction false} SplitIsPlain(s: string)
    ensures forall l :: l in Split(s, '\n') ==> '\n' !in l
    decreases |s|
  {
    hide Split, IndexOf;
    SplitUnfold(s);
    IndexOfIsFirst(s, '\n');
    var n := IndexOf(s, '\n');
    assert s[..n] == s[0..n];
    if n < |s| { SplitIsPlain(s[n + 1..]); } else { assert s[..n] == s; }
  }

  lemma CodeIsPlain(text: string)
    ensures AllSlashless(CodeLines(text)) && forall l :: l in CodeLines(text) ==> '\n' !in l
  {
    hide Code, Split;
    SplitIsPlain(text);
    var lines := Split(text, '\n');
    forall l | l in CodeLines(text) ensures Slashless(l) && '\n' !in l {
      var i :| 0 <= i < |lines| && l == Code(lines[i]);
      CodeIsSlashless(lines[i]);
      assert lines[i] in lines && l <= lines[i];
      assert forall k :: 0 <= k < |l| ==> l[k] == lines[i][k];
    }
  }

  /** A skipped body ends on a line of the file, whatever braces are missing. */
  lemma BodiesEndInside(pkg: string, text: string, line: nat, level: Level)
    requires line < |CodeLines(text)|
    ensures ReadLine(pkg, CodeLines(text), line, level).next <= |CodeLines(text)|
  {
    hide CodeLines, Ident, Strip, GroupOf, MethodOf, FuncOf, TypeOf, ValueOf, Declared;
    hide Joined, Newlines, IndexOf, CloseOf, Fields, Split, HasWord, Members;
    var code := CodeLines(text);
    CodeIsPlain(text);
    StripKeeps(code[line], '{');
    if TypeOf(code[line]).Some? { TypeRest(code[line]); }
    if '{' in code[line] {
      var from := code[line..];
      BraceIn(from);
      NewlinesOfPrefix(from, IndexOf(Joined(from), '{') + 1 + CloseOf(Opened(from), 1));
    }
  }

  // One line of text in front of more text.
  lemma {:induction false} StripTextLine(head: string, tail: string)
    requires '\n' !in head && (tail == [] || tail[0] == '\n')
    ensures StripText(head + tail) == Code(head) + StripText(tail)
  {
    var text := head + tail;
    if head == [] {
      assert text == tail;
    } else if |head| > 1 && head[0] == '/' && head[1] == '/' {
      LineRuns(head[1..], tail);
      assert text[1..] == head[1..] + tail;
      assert text[|head|..] == tail;
    } else {
      assert text[1..] == head[1..] + tail;
      StripTextLine(head[1..], tail);
      assert !(|text| > 1 && text[0] == '/' && text[1] == '/');
      assert Code(head) == [head[0]] + Code(head[1..]);
    }
  }

  lemma {:induction false} LineRuns(head: string, tail: string)
    requires '\n' !in head && (tail == [] || tail[0] == '\n')
    ensures IndexOf(head + tail, '\n') == |head|
  {
    if head == [] {
      assert head + tail == tail;
    } else {
      assert (head + tail)[1..] == head[1..] + tail;
      LineRuns(head[1..], tail);
    }
  }

  lemma SplitAfter(head: string, tail: string)
    requires '\n' !in head
    ensures Split(head + ("\n" + tail), '\n') == [head] + Split(tail, '\n') && Split(head, '\n') == [head]
  {
    hide Split, IndexOf;
    var text := head + ("\n" + tail);
    LineRuns(head, "\n" + tail);
    LineRuns(head, []);
    assert head + [] == head;
    SplitUnfold(text);
    SplitUnfold(head);
    assert text[..|head|] == head && text[|head| + 1..] == tail && head[..|head|] == head;
  }

  lemma {:induction false} StripTextLines(text: string)
    ensures Split(StripText(text), '\n') == CodeLines(text)
    decreases |text|
  {
    hide StripText, Split, Code, IndexOf;
    SplitUnfold(text);
    IndexOfIsFirst(text, '\n');
    var n := IndexOf(text, '\n');
    var head, tail := text[..n], text[n..];
    assert text == head + tail;
    StripTextLine(head, tail);
    CodeIsSlashless(head);
    StripTextEnds();
    if n < |text| {
      var rest := text[n + 1..];
      assert tail == "\n" + rest;
      StripTextNewline(rest);
      StripTextLines(rest);
      SplitAfter(Code(head), StripText(rest));
      CodesOfCons(head, Split(rest, '\n'));
    } else {
      SplitAfter(Code(head), []);
      assert Code(head) + [] == Code(head);
      CodesOfCons(text, []);
      assert head == text && [text] + [] == [text] && [Code(text)] + [] == [Code(text)];
    }
  }

  lemma CodesOfCons(head: string, lines: seq<string>)
    ensures Codes([head] + lines) == [Code(head)] + Codes(lines)
  {}

  lemma StripTextEnds()
    ensures StripText([]) == []
  {}

  lemma StripTextNewline(rest: string)
    ensures StripText("\n" + rest) == "\n" + StripText(rest)
  {
    assert ("\n" + rest)[1..] == rest;
  }

  /**
   Comments do not count: stripping every line comment of the text first changes
   neither the number of lines nor anything that is read.
   */
  lemma CommentsDoNotCount(pkg: string, text: string)
    ensures |Split(StripText(text), '\n')| == |Split(text, '\n')|
    ensures Ids(pkg, CodeLines(StripText(text)), 0, Top) == Ids(pkg, CodeLines(text), 0, Top)
    ensures Unread(pkg, CodeLines(StripText(text)), 0, Top) == Unread(pkg, CodeLines(text), 0, Top)
  {
    hide Ids, Unread, Split, StripText, Code;
    StripTextLines(text);
    CodeIsPlain(text);
    var code := CodeLines(text);
    forall i | 0 <= i < |code| ensures Code(code[i]) == code[i] {
      assert code[i] in code;
      SlashlessIsCode(code[i]);
    }
    assert Codes(code) == code;
  }

  // --------------------------------------------------- what is silent after all

  lemma {:induction false} WordRuns(name: string, after: string)
    requires (forall c :: c in name ==> IsWord(c)) && (after == [] || !IsWord(after[0]))
    ensures WordLen(name + after) == |name|
  {
    if name == [] {
      assert name + after == after;
    } else {
      assert (name + after)[1..] == name[1..] + after;
      WordRuns(name[1..], after);
    }
  }

  lemma OneValue(pkg: string, code: seq<string>, t: string)
    requires |code| == 1 && After(code[0], "var") == Some(t) && Ident(t).Some? && Exported(Ident(t).value.0)
    ensures Ids(pkg, code, 0, Top) == [pkg + "." + Ident(t).value.0] && Unread(pkg, code, 0, Top) == []
  {
    hide SkipSpace, ReadType, Declared, IsSpace;
    var head := code[0][..3];
    assert head[0] == 'v' && "const"[0] == 'c' && "type"[0] == 't' && "func"[0] == 'f';
    assert code[0][0] == 'v';
    forall word | word in ["const", "type", "func"] ensures After(code[0], word).None? && !OpensGroup(code[0], word) {
      if |code[0]| >= |word| { assert code[0][..|word|][0] == 'v'; }
    }
    assert !OpensGroup(code[0], "var");
    assert ReadTop(pkg, code, 0) == Reading([pkg + "." + Ident(t).value.0], [], 1, Top);
  }

  /**
   A `var` line that declares two names records the first alone, and names
   nothing as unread: the second is lost exactly when it is another name.
   */
  lemma SecondNameIsSilent(pkg: string, a: string, b: string)
    requires Public(a) && Public(b)
    ensures var code := ["var " + (a + (", " + b + " int"))];
            && Unread(pkg, code, 0, Top) == []
            && (pkg + "." + b in Ids(pkg, code, 0, Top) <==> a == b)
  {
    var rest := ", " + b + " int";
    var line := "var " + (a + rest);
    var code := [line];
    assert line[0] == 'v' && line[3] == ' ' && line[..3] == "var" && line[3..] == " " + (a + rest);
    assert line[3..][1..] == a + rest && (a + rest)[0] == a[0];
    WordRuns(a, rest);
    assert (a + rest)[..|a|] == a;
    assert SkipSpace(line[3..]) == a + rest;
    assert After(line, "var") == Some(a + rest);
    assert Ident(a + rest).Some?;
    OneValue(pkg, code, a + rest);
    if pkg + "." + b == pkg + "." + a {
      assert (pkg + "." + b)[|pkg| + 1..] == b && (pkg + "." + a)[|pkg| + 1..] == a;
    }
  }

  // ------------------------------------------------------------- the readers

  lemma CodesFrom(lines: seq<string>, k: nat)
    requires k <= |lines|
    ensures Codes(lines[k..]) == Codes(lines)[k..]
  {}

  /** The brace-matched body that opens on a line, and the line it ends on. */
  method Braced(lines: seq<string>, start: nat) returns (body: string, end: nat)
    requires start < |lines| && '{' in Code(lines[start])
    ensures body == Body(Codes(lines)[start..]).0 && end == start + Body(Codes(lines)[start..]).1
  {
    hide Joined, IndexOf, Newlines, Code;
    CodesFrom(lines, start);
    var code := Codes(lines[start..]);
    var text := Joined(code);
    BraceIn(code);
    var brace := IndexOf(text, '{');
    var depth, index := 1, brace + 1;
    while index < |text| && depth != 0
      invariant brace + 1 <= index <= |text| && depth >= 0
      invariant brace + 1 + CloseOf(text[brace + 1..], 1) == index + CloseOf(text[index..], depth)
    {
      assert text[index..][1..] == text[index + 1..];
      if text[index] == '{' {
        depth := depth + 1;
      } else if text[index] == '}' {
        depth := depth - 1;
      }
      index := index + 1;
    }
    assert Opened(code) == text[brace + 1..];
    body := text[brace + 1..if index - 1 < brace + 1 then brace + 1 else index - 1];
    end := start + Newlines(text[..index]);
  }

  lemma FieldsStep(lines: seq<string>, i: nat, depth: int, names: seq<string>, unread: seq<string>)
    requires i < |lines|
    ensures var line := Strip(Code(lines[i]));
            var (own, before) := (FieldOf(line, depth), Fields(lines[i..], depth));
            var after := Fields(lines[i + 1..], depth + Net(line));
            && names + before.0 == names + own.0 + after.0
            && unread + before.1 == unread + own.1 + after.1
  {
    hide FieldOf, Net, Code, Strip;
    assert lines[i..][1..] == lines[i + 1..];
  }

  /** The exported fields of a struct body, and the exported lines read as no field. */
  method StructFields(body: string) returns (names: seq<string>, unread: seq<string>)
    ensures (names, unread) == Fields(Split(body, '\n'), 0)
  {
    hide FieldNames, Net, Code, Strip, Split, Fields;
    var lines := Split(body, '\n');
    names, unread := [], [];
    var depth: int := 0;
    assert lines[0..] == lines;
    for i := 0 to |lines|
      invariant names + Fields(lines[i..], depth).0 == Fields(lines, 0).0
      invariant unread + Fields(lines[i..], depth).1 == Fields(lines, 0).1
    {
      FieldsStep(lines, i, depth, names, unread);
      var line := Strip(Code(lines[i]));
      var here := depth;
      depth := depth + Net(line);
      if here != 0 || line == [] {
        continue;
      }
      var field := FieldNames(line);
      if field.None? {
        if Exported(line) {
          unread := unread + [line];
        }
        continue;
      }
      names := names + OnlyExported(field.value);
    }
    NoFields(depth);
    assert lines[|lines|..] == [];
    assert names == Fields(lines, 0).0 && unread == Fields(lines, 0).1;
  }

  lemma NoFields(depth: int)
    ensures Fields([], depth) == ([], [])
  {}

  method BodyAt(pkg: string, lines: seq<string>, k: nat, name: string, rest: string, level: Level) returns (r: Reading)
    requires k < |lines| && '{' in Code(lines[k])
    ensures r == ReadBody(pkg, Codes(lines), k, name, rest, level)
  {
    hide Body, Fields, Members, Split, HasWord, Code;
    var body, end := Braced(lines, k);
    var ids, unread := [], [];
    if Exported(name) {
      if HasWord(rest, "struct") {
        var fields, missed := StructFields(body);
        ids := Qualified(pkg + "." + name, fields);
        unread := missed;
      } else {
        unread := Members(Split(body, '\n'));
      }
    }
    r := Reading(ids, unread, end + 1, level);
  }

  /** A line inside a group. */
  method EntryLine(pkg: string, lines: seq<string>, k: nat, kind: string) returns (r: Reading)
    requires k < |lines|
    ensures r == ReadEntry(pkg, Codes(lines), k, kind)
  {
    hide ReadBody, Ident, Strip, Code;
    var line := Code(lines[k]);
    r := Reading([], [], k + 1, Group(kind));
    if Starts(line, ')') {
      return r.(level := Top);
    }
    var entry := Ident(Strip(line));
    if entry.None? {
      return;
    }
    var (name, rest) := entry.value;
    if kind == "type" && '{' in rest {
      StripKeeps(line, '{');
      r := BodyAt(pkg, lines, k, name, rest, Group(kind));
    }
    if Exported(name) {
      r := r.(ids := [pkg + "." + name] + r.ids);
    }
  }

  /** A line at top level. */
  method TopLine(pkg: string, lines: seq<string>, k: nat) returns (r: Reading)
    requires k < |lines|
    ensures r == ReadTop(pkg, Codes(lines), k)
  {
    hide ReadBody, GroupOf, MethodOf, FuncOf, TypeOf, ValueOf, Declared, Strip, Code;
    var line := Code(lines[k]);
    r := Reading([], [], k + 1, Top);
    if GroupOf(line).Some? {
      return r.(level := Group(GroupOf(line).value));
    }
    if MethodOf(line).Some? {
      var (receiver, name) := MethodOf(line).value;
      if Exported(receiver) && Exported(name) {
        r := r.(ids := [pkg + "." + receiver + "." + name]);
      }
      return;
    }
    if FuncOf(line).Some? {
      if Exported(FuncOf(line).value) {
        r := r.(ids := [pkg + "." + FuncOf(line).value]);
      }
      return;
    }
    if TypeOf(line).Some? {
      var (name, rest) := TypeOf(line).value;
      if '{' in rest {
        TypeRest(line);
        r := BodyAt(pkg, lines, k, name, rest, Top);
      }
      if Exported(name) {
        r := r.(ids := [pkg + "." + name] + r.ids);
      }
      return;
    }
    if ValueOf(line).Some? {
      if Exported(ValueOf(line).value) {
        r := r.(ids := [pkg + "." + ValueOf(line).value]);
      }
      return;
    }
    if Declared(line).Some? && Exported(Declared(line).value) {
      r := r.(unread := [Strip(line)]);
    }
  }

  /** One file: the exported ids it declares and the lines left unread, as the walk has them. */
  method ReadGoApi(pkg: string, text: string) returns (ids: seq<string>, unread: seq<string>)
    ensures ids == Ids(pkg, CodeLines(text), 0, Top)
    ensures unread == Unread(pkg, CodeLines(text), 0, Top)
  {
    hide ReadTop, ReadEntry, Code, Split, Ids, Unread;
    ids, unread := [], [];
    var lines := Split(text, '\n');
    ghost var code := CodeLines(text);
    var index: nat, level := 0, Top;
    while index < |lines|
      invariant ids + Ids(pkg, code, index, level) == Ids(pkg, code, 0, Top)
      invariant unread + Unread(pkg, code, index, level) == Unread(pkg, code, 0, Top)
      decreases |lines| - index
    {
      WalkOn(pkg, code, index, level, ids, unread);
      var r;
      if level.Group? {
        r := EntryLine(pkg, lines, index, level.kind);
      } else {
        r := TopLine(pkg, lines, index);
      }
      assert r == ReadLine(pkg, code, index, level);
      ids, unread, index, level := ids + r.ids, unread + r.unread, r.next, r.level;
    }
    WalkEnds(pkg, code, index, level);
  }

  lemma WalkEnds(pkg: string, code: seq<string>, k: nat, level: Level)
    requires k >= |code|
    ensures Ids(pkg, code, k, level) == [] && Unread(pkg, code, k, level) == []
  {}

  lemma WalkOn(pkg: string, code: seq<string>, k: nat, level: Level, ids: seq<string>, unread: seq<string>)
    requires k < |code|
    ensures var r := ReadLine(pkg, code, k, level);
            && ids + Ids(pkg, code, k, level) == ids + r.ids + Ids(pkg, code, r.next, r.level)
            && unread + Unread(pkg, code, k, level) == unread + r.unread + Unread(pkg, code, r.next, r.level)
  {
    hide ReadLine;
  }
}
