/**
 What a line of a struct body declares, by the grammar of struct types (section
 "Struct types" of the Go Programming Language Specification), and exactly when
 the reader of the exported API takes notice of all of it.
 */
module StructGrammar {
  import opened Basics
  import opened GoDeclarations
  import opened GoGrammar

  /** One field, or several of one type, or an embedded type. */
  datatype Field =
    | Named(names: Names, gap: string, typ: string)
    | Embedded(star: bool, qualifier: Option<string>, name: string, tail: string)

  predicate IsField(f: Field) {
    match f
    case Named(names, gap, typ) =>
      IsList(names) && IsGap(gap) && gap != [] && typ != [] && !IsSpace(typ[0]) && typ[0] != ','
    case Embedded(_, qualifier, name, tail) =>
      && (qualifier.Some? ==> IsName(qualifier.value)) && IsName(name)
      && Apart(tail) && (tail != [] ==> SkipSpace(tail) != [] && SkipSpace(tail)[0] != ',')
  }

  function FieldText(f: Field, rest: string): string {
    match f
    case Named(names, gap, typ) => NamesText(names) + (gap + (typ + rest))
    case Embedded(star, qualifier, name, tail) =>
      (if star then "*" else []) + ((if qualifier.Some? then qualifier.value + "." else []) + (name + (tail + rest)))
  }

  /** A line of a struct body: a field, and whatever others follow behind semicolons. */
  datatype FieldLine = FieldLine(first: Field, others: seq<Field>)

  predicate IsFieldLine(l: FieldLine) {
    IsField(l.first) && forall f :: f in l.others ==> IsField(f)
  }

  function OtherFields(others: seq<Field>): string {
    if others == [] then [] else ";" + (" " + FieldText(others[0], OtherFields(others[1..])))
  }

  function FieldLineText(l: FieldLine): string {
    FieldText(l.first, OtherFields(l.others))
  }

  /** An embedded type is a field by its own name. */
  predicate FieldDeclares(f: Field, name: string) {
    match f
    case Named(names, _, _) => InList(names, name)
    case Embedded(_, _, own, _) => name == own
  }

  predicate FieldLineDeclares(l: FieldLine, name: string) {
    FieldDeclares(l.first, name) || exists f :: f in l.others && FieldDeclares(f, name)
  }

  /** The check on a line of a struct and a field it declares. */
  predicate FieldNoticed(l: FieldLine, name: string) {
    match l.first
    case Named(names, _, _) => InList(names, name)
    case Embedded(star, qualifier, own, tail) =>
      if star then false
      else if qualifier.Some? then Exported(qualifier.value)
      else if tail != [] && IsSpace(tail[0]) then name == own
      else Exported(own)
  }

  function NameSeq(first: string, more: seq<Another>): seq<string>
    decreases |more|
  {
    [first] + if more == [] then [] else NameSeq(more[0].name, more[1..])
  }

  lemma {:induction false} NameSeqIs(first: string, more: seq<Another>, name: string)
    ensures name in NameSeq(first, more) <==> InList(Names(first, more), name)
    decreases |more|
  {
    if more != [] {
      NameSeqIs(more[0].name, more[1..], name);
      if m :| m in more && m.name == name { assert m == more[0] || m in more[1..]; }
      assert more[0] in more;
    }
  }

  /** A list of names in front of a type is read whole. */
  lemma {:induction false} ListReads(first: string, more: seq<Another>, gap: string, typ: string)
    requires IsList(Names(first, more)) && IsGap(gap) && gap != [] && typ != [] && !IsSpace(typ[0]) && typ[0] != ','
    ensures FieldNames(first + (MoreText(more) + (gap + typ))) == Some(NameSeq(first, more))
    decreases |more|
  {
    hide SkipSpace, WordLen, IsName;
    var t := MoreText(more) + (gap + typ);
    GapThenType(gap, typ);
    MoreIsApart(more, gap + typ);
    NameReads(first, t);
    if more == [] {
      assert t == gap + typ;
      GapSkips(gap, typ);
      assert NameSeq(first, more) == [first];
    } else {
      var m := more[0];
      assert m in more;
      var next := m.name + (MoreText(more[1..]) + (gap + typ));
      assert t == m.before + ("," + (m.after + next));
      GapSkips(m.before, "," + (m.after + next));
      CommaIsNoSpace();
      NotSpaced(m.name, MoreText(more[1..]) + (gap + typ));
      GapSkips(m.after, next);
      assert ("," + (m.after + next))[1..] == m.after + next;
      assert m.name + (MoreText(more[1..]) + (gap + typ)) == next;
      ListReads(m.name, more[1..], gap, typ);
    }
  }

  lemma GapThenType(gap: string, typ: string)
    requires IsGap(gap) && gap != []
    ensures Apart(gap + typ) && gap + typ != [] && IsSpace((gap + typ)[0])
  {
    assert gap[0] in gap && (gap + typ)[0] == gap[0];
  }

  lemma CommaIsNoSpace()
    ensures !IsSpace(',')
  {}

  lemma NotSpaced(name: string, rest: string)
    requires IsName(name)
    ensures name + rest != [] && !IsSpace((name + rest)[0])
  {
    assert name[0] in name;
  }

  lemma BehindField(tail: string, rest: string)
    requires Apart(tail) && Behind(rest) && (tail != [] ==> SkipSpace(tail) != [] && SkipSpace(tail)[0] != ',')
    ensures Apart(tail + rest) && (SkipSpace(tail + rest) != [] ==> SkipSpace(tail + rest)[0] != ',')
    ensures tail != [] ==> SkipSpace(tail + rest) != []
    ensures (tail + rest != [] && IsSpace((tail + rest)[0])) <==> (tail != [] && IsSpace(tail[0]))
  {
    BehindTail(tail, rest);
    if tail == [] { assert tail + rest == rest; } else { SkipThrough(tail, rest); }
  }

  /** An embedded type is no list of names, but for one with white space behind it. */
  lemma EmbeddedReads(f: Field, rest: string)
    requires f.Embedded? && IsField(f) && Behind(rest)
    ensures FieldNames(FieldText(f, rest)) ==
            if !f.star && f.qualifier.None? && f.tail != [] && IsSpace(f.tail[0]) then Some([f.name]) else None
    ensures Exported(FieldText(f, rest)) <==>
            !f.star && Exported(if f.qualifier.Some? then f.qualifier.value else f.name)
  {
    hide SkipSpace, WordLen, IsName;
    var after := f.tail + rest;
    BehindField(f.tail, rest);
    var text := FieldText(f, rest);
    if f.star {
      assert text[0] == '*';
    } else if f.qualifier.Some? {
      var q := f.qualifier.value;
      assert text == q + ("." + (f.name + after));
      NameReads(q, "." + (f.name + after));
      DotStays(f.name + after);
    } else {
      assert text == f.name + after;
      NameReads(f.name, after);
    }
  }

  lemma DotStays(s: string)
    ensures SkipSpace("." + s) == "." + s && !IsSpace('.')
  {}

  lemma NamedReads(f: Field, rest: string)
    requires f.Named? && IsField(f)
    ensures FieldNames(FieldText(f, rest)) == Some(NameSeq(f.names.first, f.names.more))
  {
    hide FieldNames, MoreText, NameSeq;
    var (first, more) := (f.names.first, f.names.more);
    Associate(first, MoreText(more), f.gap + (f.typ + rest));
    ListReads(first, more, f.gap, f.typ + rest);
  }

  lemma OtherFieldsAreBehind(others: seq<Field>)
    ensures Behind(OtherFields(others))
  {}

  /**
   A visible field that a line of a struct declares leaves an id, or its line is
   named as unread, exactly when the first field of the line says so: it is one
   of the names of its list, or the first field embeds a type whose spelling
   begins with an exported name and has no white space behind it, or it is that
   type. A pointer, or a type of a package, passes unnoticed and takes the rest
   of the line with it.
   */
  lemma FieldLineIff(l: FieldLine, name: string)
    requires IsFieldLine(l) && FieldLineDeclares(l, name) && Exported(name)
    ensures var (ids, unread) := FieldOf(FieldLineText(l), 0);
            (name in ids || FieldLineText(l) in unread) <==> FieldNoticed(l, name)
  {
    hide FieldText, FieldNames, OtherFields, IsField;
    var rest := OtherFields(l.others);
    OtherFieldsAreBehind(l.others);
    FieldLineIsText(l);
    match l.first {
      case Named(names, _, _) =>
        NamedReads(l.first, rest);
        NameSeqIs(names.first, names.more, name);
        OnlyExportedAre(NameSeq(names.first, names.more), name);
      case Embedded(star, qualifier, own, tail) =>
        EmbeddedReads(l.first, rest);
        if !star && qualifier.None? && tail != [] && IsSpace(tail[0]) { OnlyExportedAre([own], name); }
    }
  }

  lemma FieldLineIsText(l: FieldLine)
    requires IsField(l.first)
    ensures FieldLineText(l) != []
  {
    hide SkipSpace, OtherFields;
  }

  /** In a walked text, what is noticed on a line of an exported struct is among the ids or the unread lines. */
  lemma FieldInWalk(pkg: string, text: string, k: nat, level: Level, j: nat, l: FieldLine, name: string)
    requires var code := CodeLines(text);
             && k < |code| && PlaceOf(pkg, code, k) == At(level) && TypeAt(code[k], level).Some? && '{' in code[k]
             && var (typ, rest) := TypeAt(code[k], level).value;
                Exported(typ) && '{' in rest && HasWord(rest, "struct")
    requires var lines := Split(Body(CodeLines(text)[k..]).0, '\n');
             && j < |lines| && FieldDepth(lines, j) == 0 && Strip(Code(lines[j])) == FieldLineText(l)
    requires IsFieldLine(l) && FieldLineDeclares(l, name) && Exported(name) && FieldNoticed(l, name)
    ensures var code := CodeLines(text);
            || pkg + "." + TypeAt(code[k], level).value.0 + "." + name in Ids(pkg, code, 0, Top)
            || FieldLineText(l) in Unread(pkg, code, 0, Top)
  {
    hide CodeLines, TypeAt, FieldDepth, FieldNames, Strip, Code, Body, HasWord, Ids, Unread, PlaceFrom, Split, FieldNoticed;
    var code := CodeLines(text);
    FieldLineIsText(l);
    FieldsAreAccounted(pkg, code, k, level, j);
    FieldLineIff(l, name);
    var field := FieldLineText(l);
    if FieldNames(field).Some? { OnlyExportedAre(FieldNames(field).value, name); }
  }

  // ------------------------------------------------------------- one of each form that is lost

  /** An embedded pointer, an embedded type of a package, and a field behind a semicolon. */
  lemma EmbeddedIsSilent()
    ensures FieldOf("*Base", 0) == ([], []) && FieldOf("pkg.Base", 0) == ([], [])
    ensures FieldOf("X int; Y int", 0) == (["X"], [])
  {
    hide FieldNames, FieldText;
    var star := Embedded(true, None, "Base", []);
    var qualified := Embedded(false, Some("pkg"), "Base", []);
    assert FieldText(star, []) == "*Base" && FieldText(qualified, []) == "pkg.Base" by { Spelled(); }
    EmbeddedReads(star, []);
    EmbeddedReads(qualified, []);
    var x := Named(Names("X", []), " ", "int");
    var rest := "; Y int";
    assert FieldText(x, rest) == "X int; Y int" by { Spelled(); }
    NamedReads(x, rest);
    assert NameSeq("X", []) == ["X"] && OnlyExported(["X"]) == ["X"] by { Singles(); }
  }

  lemma Spelled()
    ensures FieldText(Embedded(true, None, "Base", []), []) == "*Base"
    ensures FieldText(Embedded(false, Some("pkg"), "Base", []), []) == "pkg.Base"
    ensures FieldText(Named(Names("X", []), " ", "int"), "; Y int") == "X int; Y int"
  {}

  lemma Singles()
    ensures NameSeq("X", []) == ["X"] && OnlyExported(["X"]) == ["X"]
  {
    assert OnlyExported([]) == [];
  }
}
