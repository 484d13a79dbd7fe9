/**
 Telling prose from fenced code in a Markdown document, line by line.
 */
module DocFences {
  import opened Basics

  datatype Marker = Marker(mark: char, length: nat)

  function RunOf(s: string, c: char): nat {
    if s != [] && s[0] == c then 1 + RunOf(s[1..], c) else 0
  }

  /** The run of three or more backticks or tildes a line starts with. */
  function MarkerOf(line: string): Option<Marker> {
    var s := SkipSpace(line);
    if s != [] && s[0] in "`~" && RunOf(s, s[0]) >= 3 then Some(Marker(s[0], RunOf(s, s[0]))) else None
  }

  /** A fence ends at a marker of its own character that is at least as long. */
  predicate Ends(opener: Marker, marker: Option<Marker>) {
    marker.Some? && marker.value.mark == opener.mark && marker.value.length >= opener.length
  }

  /** Line `c` ends the fence that line `o` opens. */
  predicate Closes(lines: seq<string>, o: nat, c: nat)
    requires o < |lines| && c < |lines|
  {
    MarkerOf(lines[o]).Some? && Ends(MarkerOf(lines[o]).value, MarkerOf(lines[c]))
  }

  /**
   A line is in a fence when some marker line above it, itself in no fence, is
   not closed in between.
   */
  ghost predicate InFence(lines: seq<string>, i: nat)
    requires i <= |lines|
    decreases i
  {
    exists o :: 0 <= o < i && MarkerOf(lines[o]).Some? && !InFence(lines, o) && forall c :: o < c < i ==> !Closes(lines, o, c)
  }

  ghost predicate Opens(lines: seq<string>, o: nat, i: nat)
    requires o < i <= |lines|
  {
    MarkerOf(lines[o]).Some? && !InFence(lines, o) && forall c :: o < c < i ==> !Closes(lines, o, c)
  }

  lemma InFenceMeans(lines: seq<string>, i: nat)
    requires i <= |lines|
    ensures InFence(lines, i) <==> exists o :: 0 <= o < i && Opens(lines, o, i)
  {
    hide MarkerOf;
    if InFence(lines, i) {
      var o :| 0 <= o < i && MarkerOf(lines[o]).Some? && !InFence(lines, o) && forall c :: o < c < i ==> !Closes(lines, o, c);
      assert Opens(lines, o, i);
    }
    if o :| 0 <= o < i && Opens(lines, o, i) {
      assert MarkerOf(lines[o]).Some? && !InFence(lines, o);
    }
  }

  datatype Scanned = Scanned(lineno: nat, line: string, inFence: bool)

  lemma InFenceBelow(lines: seq<string>, o: nat, p: nat, i: nat)
    requires o < p <= i <= |lines| && Opens(lines, o, i)
    ensures InFence(lines, p)
  {
    InFenceMeans(lines, p);
    assert Opens(lines, o, p);
  }

  // At most one fence is open at a time.
  lemma OneOpener(lines: seq<string>, i: nat, o: nat, p: nat)
    requires o < i <= |lines| && p < i && Opens(lines, o, i) && Opens(lines, p, i)
    ensures o == p
  {
    if o < p { InFenceBelow(lines, o, p, i); }
    if p < o { InFenceBelow(lines, p, o, i); }
  }

  // What one line does to the open fence.
  lemma FenceStep(lines: seq<string>, i: nat)
    requires i < |lines|
    ensures MarkerOf(lines[i]).None? ==> (InFence(lines, i + 1) <==> InFence(lines, i))
    ensures MarkerOf(lines[i]).Some? && !InFence(lines, i) ==> Opens(lines, i, i + 1)
    ensures forall o :: 0 <= o < i && Opens(lines, o, i) ==>
              (if Closes(lines, o, i) then !InFence(lines, i + 1) else Opens(lines, o, i + 1))
  {
    hide MarkerOf, InFence;
    InFenceMeans(lines, i);
    InFenceMeans(lines, i + 1);
    if MarkerOf(lines[i]).None? {
      PlainStep(lines, i);
    }
    forall o | 0 <= o < i && Opens(lines, o, i)
      ensures if Closes(lines, o, i) then !InFence(lines, i + 1) else Opens(lines, o, i + 1)
    {
      if Closes(lines, o, i) { ClosedBy(lines, o, i); }
    }
  }

  lemma PlainStep(lines: seq<string>, i: nat)
    requires i < |lines| && MarkerOf(lines[i]).None?
    ensures InFence(lines, i + 1) <==> InFence(lines, i)
  {
    hide MarkerOf, InFence;
    var n := i + 1;
    InFenceMeans(lines, i);
    InFenceMeans(lines, n);
    assert !Opens(lines, i, n);
    forall o | 0 <= o < i ensures Opens(lines, o, n) <==> Opens(lines, o, i) {
      assert !Closes(lines, o, i);
    }
    if o :| 0 <= o < i && Opens(lines, o, i) { assert Opens(lines, o, n); }
    if o :| 0 <= o < n && Opens(lines, o, n) { assert Opens(lines, o, i); }
  }

  lemma ClosedBy(lines: seq<string>, o: nat, i: nat)
    requires o < i < |lines| && Opens(lines, o, i) && Closes(lines, o, i)
    ensures !InFence(lines, i + 1)
  {
    hide InFence;
    var n := i + 1;
    InFenceBelow(lines, o, i, i);
    InFenceMeans(lines, n);
    forall p | 0 <= p < n ensures !Opens(lines, p, n) {
      if p < i && Opens(lines, p, i) { OneOpener(lines, i, o, p); }
    }
  }

  // One scanned line, as it should be.
  ghost predicate Right(lines: seq<string>, sc: Scanned, i: nat)
    requires i <= |lines|
  {
    && 1 <= sc.lineno <= i && sc.line == lines[sc.lineno - 1]
    && MarkerOf(sc.line).None? && (sc.inFence <==> InFence(lines, sc.lineno - 1))
  }

  // The first `i` lines, scanned: every line that is no marker, in order.
  ghost predicate ScannedSo(lines: seq<string>, out: seq<Scanned>, i: nat) {
    && i <= |lines|
    && (forall k :: 0 <= k < |out| ==> Right(lines, out[k], i))
    && (forall k, l :: 0 <= k < l < |out| ==> out[k].lineno < out[l].lineno)
    && (forall j :: 0 <= j < i && MarkerOf(lines[j]).None? ==> Listed(out, j + 1))
  }

  ghost predicate Listed(out: seq<Scanned>, lineno: nat) {
    exists k :: 0 <= k < |out| && out[k].lineno == lineno
  }

  lemma ListedMore(out: seq<Scanned>, sc: Scanned, lineno: nat)
    ensures Listed(out + [sc], lineno) <==> Listed(out, lineno) || sc.lineno == lineno
  {
    var more := out + [sc];
    assert more[|out|] == sc;
    if Listed(out, lineno) {
      var k :| 0 <= k < |out| && out[k].lineno == lineno;
      assert more[k] == out[k];
    }
  }

  lemma RightOn(lines: seq<string>, out: seq<Scanned>, i: nat)
    requires i < |lines| && forall k :: 0 <= k < |out| ==> Right(lines, out[k], i)
    ensures forall k :: 0 <= k < |out| ==> Right(lines, out[k], i + 1) && out[k].lineno < i + 1
  {
    hide InFence, MarkerOf;
  }

  lemma ScannedNext(lines: seq<string>, out: seq<Scanned>, i: nat)
    requires i < |lines| && ScannedSo(lines, out, i)
    ensures MarkerOf(lines[i]).Some? ==> ScannedSo(lines, out, i + 1)
    ensures MarkerOf(lines[i]).None? ==> ScannedSo(lines, out + [Scanned(i + 1, lines[i], InFence(lines, i))], i + 1)
  {
    hide MarkerOf, InFence, Right, Listed;
    RightOn(lines, out, i);
    var sc := Scanned(i + 1, lines[i], InFence(lines, i));
    forall j | 0 <= j < i && MarkerOf(lines[j]).None? ensures Listed(out + [sc], j + 1) {
      ListedMore(out, sc, j + 1);
    }
    ListedMore(out, sc, i + 1);
    LastRight(lines, i);
  }

  lemma LastRight(lines: seq<string>, i: nat)
    requires i < |lines|
    ensures MarkerOf(lines[i]).None? ==> Right(lines, Scanned(i + 1, lines[i], InFence(lines, i)), i + 1)
  {}

  /** The scan yields every line that is no marker, in order, and marks exactly the fenced ones. */
  method ScanLines(lines: seq<string>) returns (out: seq<Scanned>)
    ensures ScannedSo(lines, out, |lines|)
  {
    hide MarkerOf, InFence, Opens, ScannedSo;
    out := [];
    var opener: Option<Marker> := None;
    ghost var at: nat := 0;
    NothingOpen(lines);
    for i := 0 to |lines|
      invariant opener.Some? <==> InFence(lines, i)
      invariant opener.Some? ==> at < i && Opens(lines, at, i) && MarkerOf(lines[at]) == opener
      invariant ScannedSo(lines, out, i)
    {
      FenceStep(lines, i);
      ScannedNext(lines, out, i);
      var marker := MarkerOf(lines[i]);
      if marker.Some? {
        if opener == None {
          opener := marker;
          at := i;
          OpenIsIn(lines, i, i + 1);
          continue;
        }
        if marker.value.mark == opener.value.mark && marker.value.length >= opener.value.length {
          opener := None;
          continue;
        }
        OpenIsIn(lines, at, i + 1);
        continue;
      }
      if opener.Some? {
        assert !Closes(lines, at, i);
      }
      out := out + [Scanned(i + 1, lines[i], opener.Some?)];
    }
  }

  lemma NothingOpen(lines: seq<string>)
    ensures !InFence(lines, 0) && ScannedSo(lines, [], 0)
  {}

  lemma OpenIsIn(lines: seq<string>, o: nat, i: nat)
    requires o < i <= |lines| && Opens(lines, o, i)
    ensures InFence(lines, i)
  {
    InFenceMeans(lines, i);
  }

  /** A marker of the other character, or a shorter one, inside a fence is content: the fence goes on. */
  lemma QuotedMarkerIsContent(lines: seq<string>, i: nat, o: nat)
    requires o < i < |lines| && Opens(lines, o, i)
    requires var (opener, marker) := (MarkerOf(lines[o]).value, MarkerOf(lines[i]));
             marker.Some? && (marker.value.mark != opener.mark || marker.value.length < opener.length)
    ensures InFence(lines, i + 1) && Opens(lines, o, i + 1)
  {
    FenceStep(lines, i);
    OpenIsIn(lines, o, i + 1);
  }
}
