/**
  The output filter of the interface-builder compile script: clipping notes are
  dropped, and a section header is shown only when something of its section is.
 */
module SectionFilter {
  import opened Sequences

  type Line = seq<char>

  predicate HasAt(line: Line, k: nat, word: Line) {
    k + |word| <= |line| && line[k..k + |word|] == word
  }

  // The pattern /\*.*\*/ at the start of the line.
  predicate IsHeader(line: Line) {
    HasAt(line, 0, "/*") && exists k :: 2 <= k <= |line| && HasAt(line, k, "*/")
  }

  // The pattern .*note:.*is clipping its content.
  predicate IsClippingNote(line: Line) {
    exists i, j :: 0 <= i <= |line| && i + 5 <= j <= |line| && HasAt(line, i, "note:") && HasAt(line, j, "is clipping its content")
  }

  // A word stands at k when the line is the first k characters, the word and the rest.
  lemma HasAtSplits(line: Line, k: nat, word: Line)
    requires HasAt(line, k, word)
    ensures line == line[..k] + word + line[k + |word|..]
  {
  }

  lemma SplitHasAt(a: Line, word: Line, b: Line)
    ensures HasAt(a + word + b, |a|, word)
  {
  }

  // A header is "/*", anything, "*/", anything.
  lemma HeaderExactly(line: Line)
    ensures IsHeader(line) <==> exists a: Line, b: Line :: line == "/*" + a + "*/" + b
  {
    if IsHeader(line) {
      var k :| 2 <= k <= |line| && HasAt(line, k, "*/");
      HasAtSplits(line, k, "*/");
      assert line[..k] == "/*" + line[2..k];
      assert line == "/*" + line[2..k] + "*/" + line[k + 2..];
    }
    if a: Line, b: Line :| line == "/*" + a + "*/" + b {
      SplitHasAt("/*" + a, "*/", b);
      assert line[0..2] == "/*";
    }
  }

  lemma NoteSplits(line: Line, i: nat, j: nat)
    requires i + 5 <= j <= |line| && HasAt(line, i, "note:") && HasAt(line, j, "is clipping its content")
    ensures exists a: Line, b: Line, c: Line :: line == a + "note:" + b + "is clipping its content" + c
  {
    var front, clips := line[..j], "is clipping its content";
    HasAtSplits(line, j, clips);
    assert front[i..i + 5] == line[i..i + 5];
    HasAtSplits(front, i, "note:");
    assert line == front[..i] + "note:" + front[i + 5..] + "is clipping its content" + line[j + |clips|..];
  }

  lemma SplitIsNote(a: Line, b: Line, c: Line)
    ensures IsClippingNote(a + "note:" + b + "is clipping its content" + c)
  {
    var clips := "is clipping its content";
    var front := a + "note:" + b;
    var line := front + clips + c;
    SplitHasAt(front, clips, c);
    SplitHasAt(a, "note:", b);
    assert line[|a|..|a| + 5] == front[|a|..|a| + 5];
    assert HasAt(line, |a|, "note:") && HasAt(line, |front|, "is clipping its content");
  }

  // A clipping note has the two phrases in this order, with anything around them.
  lemma ClippingNoteExactly(line: Line)
    ensures IsClippingNote(line) <==>
            exists a: Line, b: Line, c: Line :: line == a + "note:" + b + "is clipping its content" + c
  {
    if IsClippingNote(line) {
      var i, j :| 0 <= i <= |line| && i + 5 <= j <= |line| && HasAt(line, i, "note:") && HasAt(line, j, "is clipping its content");
      NoteSplits(line, i, j);
    }
    if a: Line, b: Line, c: Line :| line == a + "note:" + b + "is clipping its content" + c {
      SplitIsNote(a, b, c);
    }
  }

  // ---- what the output should be ----

  // Suppressed lines: notes that are not headers.
  predicate Suppressed(line: Line) {
    !IsHeader(line) && IsClippingNote(line)
  }

  function DropSuppressed(lines: seq<Line>): seq<Line> {
    if lines == [] then []
    else (if Suppressed(lines[0]) then [] else [lines[0]]) + DropSuppressed(lines[1..])
  }

  // A header stays only in front of a line of its own section.
  function DropEmptySections(lines: seq<Line>): seq<Line> {
    if lines == [] then []
    else if IsHeader(lines[0]) && (|lines| == 1 || IsHeader(lines[1])) then DropEmptySections(lines[1..])
    else [lines[0]] + DropEmptySections(lines[1..])
  }

  function Filtered(lines: seq<Line>): seq<Line> {
    DropEmptySections(DropSuppressed(lines))
  }

  // A line shown by itself.
  predicate Plain(line: Line) {
    !IsHeader(line) && !Suppressed(line)
  }

  // The same, line by line: a header stays if a plain line follows it before the
  // next header, any other line stays unless it is suppressed.
  ghost predicate Kept(lines: seq<Line>, i: nat)
    requires i < |lines|
  {
    if IsHeader(lines[i]) then LeadsToPlain(lines, i + 1) else Plain(lines[i])
  }

  ghost predicate LeadsToPlain(lines: seq<Line>, k: nat) {
    exists j :: k <= j < |lines| && Plain(lines[j]) && forall m :: k <= m < j ==> !IsHeader(lines[m])
  }

  // The kept lines from position k on, each once, in order.
  ghost function Select(lines: seq<Line>, k: nat): seq<Line>
    requires k <= |lines|
    decreases |lines| - k
  {
    if k == |lines| then [] else (if Kept(lines, k) then [lines[k]] else []) + Select(lines, k + 1)
  }

  // ---- the loop ----

  datatype Pending = NoHeader | Header(line: Line)

  function AsLines(p: Pending): seq<Line> {
    if p.NoHeader? then [] else [p.line]
  }

  // A second header in a row makes the first one vanish.
  lemma HeaderReplaces(current: Pending, header: Line, rest: seq<Line>)
    requires IsHeader(header) && (current.Header? ==> IsHeader(current.line))
    ensures DropEmptySections(AsLines(current) + ([header] + rest)) == DropEmptySections([header] + rest)
  {
    if current.Header? {
      assert ([current.line] + ([header] + rest))[1..] == [header] + rest;
    } else {
      assert [] + ([header] + rest) == [header] + rest;
    }
  }

  // A plain line brings its pending header out.
  lemma LineShows(current: Pending, line: Line, rest: seq<Line>)
    requires Plain(line) && (current.Header? ==> IsHeader(current.line))
    ensures DropEmptySections(AsLines(current) + ([line] + rest)) == AsLines(current) + [line] + DropEmptySections(rest)
  {
    assert ([line] + rest)[1..] == rest;
    if current.Header? {
      assert ([current.line] + ([line] + rest))[1..] == [line] + rest;
    } else {
      assert [] + ([line] + rest) == [line] + rest;
    }
  }

  // What one more line makes of the rest.
  lemma NextLine(lines: seq<Line>, i: nat)
    requires i < |lines|
    ensures var rest := DropSuppressed(lines[i + 1..]);
            DropSuppressed(lines[i..]) == if Suppressed(lines[i]) then rest else [lines[i]] + rest
  {
    assert lines[i..][1..] == lines[i + 1..];
    Units(DropSuppressed(lines[i + 1..]));
  }

  // The loop's invariant: what is printed, then what becomes of the rest.
  ghost predicate Printed(lines: seq<Line>, i: nat, current: Pending, out: seq<Line>)
    requires i <= |lines|
  {
    && (current.Header? ==> IsHeader(current.line))
    && Filtered(lines) == out + DropEmptySections(AsLines(current) + DropSuppressed(lines[i..]))
  }

  lemma PrintStep(lines: seq<Line>, i: nat, current: Pending, out: seq<Line>)
    requires i < |lines| && Printed(lines, i, current, out)
    ensures IsHeader(lines[i]) ==> Printed(lines, i + 1, Header(lines[i]), out)
    ensures Plain(lines[i]) ==> Printed(lines, i + 1, NoHeader, out + AsLines(current) + [lines[i]])
    ensures Suppressed(lines[i]) ==> Printed(lines, i + 1, current, out)
  {
    var line, rest := lines[i], DropSuppressed(lines[i + 1..]);
    NextLine(lines, i);
    if IsHeader(line) {
      HeaderReplaces(current, line, rest);
    } else if Plain(line) {
      LineShows(current, line, rest);
      Units(rest);
      Associative(out, AsLines(current), [line]);
      Associative(out, AsLines(current) + [line], DropEmptySections(rest));
    }
  }

  // A header still pending at the end is not printed.
  lemma PrintEnds(lines: seq<Line>, current: Pending, out: seq<Line>)
    requires Printed(lines, |lines|, current, out)
    ensures out == Filtered(lines)
  {
    assert DropSuppressed(lines[|lines|..]) == [];
    Units(AsLines(current));
    Units(out);
    if current.Header? {
      assert [current.line][1..] == [];
      assert DropEmptySections([current.line]) == DropEmptySections([]);
    }
  }

  method FilterLines(lines: seq<Line>) returns (out: seq<Line>)
    ensures out == Filtered(lines)
  {
    out := [];
    var current := NoHeader;
    Units(lines);
    Units(DropSuppressed(lines));
    Units(Filtered(lines));
    for i := 0 to |lines|
      invariant Printed(lines, i, current, out)
    {
      var line := lines[i];
      PrintStep(lines, i, current, out);
      if IsHeader(line) {
        current := Header(line);
      } else if !IsClippingNote(line) {
        Units(out);
        if current.Header? {
          out := out + [current.line];
          current := NoHeader;
        }
        out := out + [line];
      }
    }
    PrintEnds(lines, current, out);
  }

  // ---- the two descriptions agree ----

  lemma LeadsToPlainStep(lines: seq<Line>, k: nat)
    requires k < |lines|
    ensures LeadsToPlain(lines, k) <==> Plain(lines[k]) || (!IsHeader(lines[k]) && LeadsToPlain(lines, k + 1))
  {
    if LeadsToPlain(lines, k + 1) && !IsHeader(lines[k]) {
      var j :| k + 1 <= j < |lines| && Plain(lines[j]) && forall m :: k + 1 <= m < j ==> !IsHeader(lines[m]);
      assert forall m :: k <= m < j ==> !IsHeader(lines[m]);
    }
    if LeadsToPlain(lines, k) && !Plain(lines[k]) {
      var j :| k <= j < |lines| && Plain(lines[j]) && forall m :: k <= m < j ==> !IsHeader(lines[m]);
      assert k + 1 <= j;
    }
  }

  lemma {:induction false} FirstUnsuppressed(lines: seq<Line>, k: nat)
    requires k <= |lines|
    ensures var d := DropSuppressed(lines[k..]); LeadsToPlain(lines, k) <==> d != [] && !IsHeader(d[0])
    ensures var d := DropSuppressed(lines[k..]); d != [] ==> !Suppressed(d[0])
    decreases |lines| - k
  {
    if k < |lines| {
      FirstUnsuppressed(lines, k + 1);
      LeadsToPlainStep(lines, k);
      assert lines[k..][1..] == lines[k + 1..];
    }
  }

  lemma {:induction false} SelectIsFiltered(lines: seq<Line>, k: nat)
    requires k <= |lines|
    ensures Select(lines, k) == Filtered(lines[k..])
    decreases |lines| - k
  {
    if k < |lines| {
      SelectIsFiltered(lines, k + 1);
      FirstUnsuppressed(lines, k + 1);
      assert lines[k..][1..] == lines[k + 1..];
      var d := DropSuppressed(lines[k + 1..]);
      if Suppressed(lines[k]) {
        assert [] + d == d;
      } else {
        assert ([lines[k]] + d)[1..] == d;
      }
    }
  }

  // What the filter prints is exactly the kept lines, each once, in order.
  lemma FilterKeepsExactly(lines: seq<Line>)
    ensures Filtered(lines) == Select(lines, 0)
  {
    SelectIsFiltered(lines, 0);
    assert lines[0..] == lines;
  }

  // ---- filtering again changes nothing ----

  // Line i may stay, and if it is a header a line of its section follows.
  ghost predicate Settled(lines: seq<Line>, i: nat)
    requires i < |lines|
  {
    !Suppressed(lines[i]) && (IsHeader(lines[i]) ==> i + 1 < |lines| && !IsHeader(lines[i + 1]))
  }

  ghost predicate WellSectioned(lines: seq<Line>) {
    forall i :: 0 <= i < |lines| ==> Settled(lines, i)
  }

  lemma {:induction false} DropSuppressedClean(lines: seq<Line>)
    ensures forall i :: 0 <= i < |DropSuppressed(lines)| ==> !Suppressed(DropSuppressed(lines)[i])
  {
    if lines != [] { DropSuppressedClean(lines[1..]); }
  }

  lemma {:induction false} SectionsFilled(lines: seq<Line>)
    requires forall i :: 0 <= i < |lines| ==> !Suppressed(lines[i])
    ensures WellSectioned(DropEmptySections(lines))
    ensures lines != [] && !IsHeader(lines[0]) ==> DropEmptySections(lines) != [] && DropEmptySections(lines)[0] == lines[0]
  {
    if lines != [] {
      SectionsFilled(lines[1..]);
      var rest, r := DropEmptySections(lines[1..]), DropEmptySections(lines);
      if r != rest {
        forall i | 0 <= i < |r| ensures Settled(r, i) {
          if i > 0 { assert Settled(rest, i - 1); }
        }
      }
    }
  }

  lemma {:induction false} WellSectionedStays(lines: seq<Line>)
    requires WellSectioned(lines)
    ensures DropSuppressed(lines) == lines && DropEmptySections(lines) == lines
  {
    if lines != [] {
      forall i | 0 <= i < |lines| - 1 ensures Settled(lines[1..], i) {
        assert Settled(lines, i + 1);
      }
      WellSectionedStays(lines[1..]);
      assert Settled(lines, 0);
      assert lines == [lines[0]] + lines[1..];
    }
  }

  lemma FilterTwice(lines: seq<Line>)
    ensures Filtered(Filtered(lines)) == Filtered(lines)
  {
    DropSuppressedClean(lines);
    SectionsFilled(DropSuppressed(lines));
    WellSectionedStays(Filtered(lines));
  }
}
