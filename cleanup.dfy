/**
 * cleanupWhitespace, the tidying applied to a message body before it is shown:
 * CR LF and lone CR become LF, spaces and tabs at the end of each line go, runs
 * of four or more line feeds shrink to three, and the whole text is trimmed.
 */
module Cleanup {
  import opened GoStrings

  const Quad: string := "\n\n\n\n"
  const Triple: string := "\n\n\n"

  /** No space or tab stands right before a line feed. */
  predicate NoBlankBeforeNewline(s: string) {
    forall i :: 0 < i < |s| && s[i] == '\n' ==> !IsBlank(s[i - 1])
  }

  /** No line ends in a space or a tab, the last line included. */
  predicate NoTrailingBlanks(s: string) {
    NoBlankBeforeNewline(s) && (s == [] || !IsBlank(s[|s| - 1]))
  }

  /** The first two statements: CR LF, then every remaining CR, become LF. */
  function NormalizeNewlines(text: string): string {
    ReplaceAll(ReplaceAll(text, "\r\n", "\n"), "\r", "\n")
  }

  /** strings.TrimRight(line, " \t") applied to every line. */
  function TrimEach(lines: seq<string>): seq<string> {
    seq(|lines|, i requires 0 <= i < |lines| => TrimRightBy(lines[i], IsBlank))
  }

  /** The collapse loop: while four line feeds in a row remain, replace each run of four
      by three. Every pass shortens the text, so the loop ends. */
  function Collapse(t: string): (r: string)
    ensures !Contains(r, Quad)
    decreases |t|
  {
    if Contains(t, Quad) then
      ReplaceAllShrinks(t, Quad, Triple);
      Collapse(ReplaceAll(t, Quad, Triple))
    else t
  }

  /** What cleanupWhitespace returns. */
  function Cleaned(text: string): string {
    TrimSpace(Collapse(Join(TrimEach(Split(NormalizeNewlines(text), '\n')), "\n")))
  }

  /**
   * cleanupWhitespace: the lines are held in an array and trimmed in place, then joined,
   * collapsed and trimmed as a whole.
   */
  method CleanupWhitespace(text: string) returns (r: string)
    ensures r == Cleaned(text)
    ensures '\r' !in r
    ensures !Contains(r, Quad)
    ensures NoTrailingBlanks(r)
    ensures r == [] || (!IsSpace(r[0]) && !IsSpace(r[|r| - 1]))
    ensures NonSpace(r) == NonSpace(text)
  {
    var t := ReplaceAll(text, "\r\n", "\n");
    t := ReplaceAll(t, "\r", "\n");
    var pieces := Split(t, '\n');
    var lines := new string[|pieces|](i requires 0 <= i < |pieces| => pieces[i]);
    for i := 0 to lines.Length
      invariant forall k :: 0 <= k < i ==> lines[k] == TrimRightBy(pieces[k], IsBlank)
      invariant forall k :: i <= k < lines.Length ==> lines[k] == pieces[k]
    {
      lines[i] := TrimRightBy(lines[i], IsBlank);
    }
    assert lines[..] == TrimEach(pieces);
    t := Join(lines[..], "\n");
    ghost var joined := t;
    while Contains(t, Quad)
      invariant Collapse(t) == Collapse(joined)
      decreases |t|
    {
      ReplaceAllShrinks(t, Quad, Triple);
      t := ReplaceAll(t, Quad, Triple);
    }
    r := TrimSpace(t);
    CleanedHasNoCarriageReturn(text);
    CleanedHasNoQuad(text);
    CleanedHasNoTrailingBlanks(text);
    CleanedKeepsNonSpace(text);
  }

  /** The stages of Cleaned, named for the proofs below. */
  function Lines(text: string): seq<string> {
    TrimEach(Split(NormalizeNewlines(text), '\n'))
  }

  lemma CleanedSlice(text: string)
    ensures var c := Collapse(Join(Lines(text), "\n"));
      var a := LeadingSpace(c);
      Cleaned(text) == c[a..a + |Cleaned(text)|]
  {
  }

  /** The output holds no carriage return. */
  lemma CleanedHasNoCarriageReturn(text: string)
    ensures '\r' !in Cleaned(text)
  {
    var n := NormalizeNewlines(text);
    var pieces := Split(n, '\n');
    var lines := Lines(text);
    var joined := Join(lines, "\n");
    ReplaceAllRemoves(ReplaceAll(text, "\r\n", "\n"), '\r', "\n");
    SplitAbsent(n, '\n', '\r');
    forall i | 0 <= i < |lines|
      ensures '\r' !in lines[i]
    {
      assert lines[i] == pieces[i][..|lines[i]|];
    }
    JoinAbsent(lines, "\n", '\r');
    CollapseAbsent(joined, '\r');
    CleanedSlice(text);
  }

  /** The output never holds four line feeds in a row. */
  lemma CleanedHasNoQuad(text: string)
    ensures !Contains(Cleaned(text), Quad)
  {
    NoQuadTrimmed(Collapse(Join(Lines(text), "\n")));
  }

  /** Trimming cannot create four line feeds in a row. */
  lemma NoQuadTrimmed(c: string)
    requires !Contains(c, Quad)
    ensures !Contains(TrimSpace(c), Quad)
  {
    NoQuadInSlice(c, LeadingSpace(c), LeadingSpace(c) + |TrimSpace(c)|);
  }

  lemma NoQuadInSlice(c: string, lo: nat, hi: nat)
    requires lo <= hi <= |c| && !Contains(c, Quad)
    ensures !Contains(c[lo..hi], Quad)
  {
    if Contains(c[lo..hi], Quad) {
      ContainsInSlice(c, Quad, lo, hi);
    }
  }

  /** No line of the output ends in a space or a tab. */
  lemma CleanedHasNoTrailingBlanks(text: string)
    ensures NoTrailingBlanks(Cleaned(text))
  {
    var pieces := Split(NormalizeNewlines(text), '\n');
    var lines := Lines(text);
    var joined := Join(lines, "\n");
    var c := Collapse(joined);
    var r := Cleaned(text);
    forall i | 0 <= i < |lines|
      ensures NoTrailingBlanks(lines[i])
    {
      TrimmedLineHasNoTrailingBlanks(pieces[i]);
    }
    JoinNoBlankBeforeNewline(lines);
    CollapseNoBlankBeforeNewline(joined);
    CleanedSlice(text);
    SliceNoBlankBeforeNewline(c, LeadingSpace(c), LeadingSpace(c) + |r|);
    if r != [] {
      BlankIsSpace(r[|r| - 1]);
    }
  }

  /** The output has the input's non-space characters, in the same order. */
  lemma CleanedKeepsNonSpace(text: string)
    ensures NonSpace(Cleaned(text)) == NonSpace(text)
  {
    var t1 := ReplaceAll(text, "\r\n", "\n");
    var n := NormalizeNewlines(text);
    var joined := Join(Lines(text), "\n");
    NonSpaceAllSpace("\r\n");
    NonSpaceAllSpace("\r");
    NonSpaceAllSpace("\n");
    ReplaceAllKeepsNonSpace(text, "\r\n", "\n");
    ReplaceAllKeepsNonSpace(t1, "\r", "\n");
    JoinTrimEachKeepsNonSpace(Split(n, '\n'));
    JoinSplit(n, '\n');
    CollapseKeepsNonSpace(joined);
    TrimSpaceKeepsNonSpace(Collapse(joined));
  }

  /** Cleaning cleaned text changes nothing. */
  lemma CleanedIdempotent(text: string)
    ensures Cleaned(Cleaned(text)) == Cleaned(text)
  {
    var r := Cleaned(text);
    CleanedHasNoCarriageReturn(text);
    CleanedHasNoQuad(text);
    CleanedHasNoTrailingBlanks(text);
    AbsentNotContained(r, "\r\n");
    AbsentNotContained(r, "\r");
    ReplaceAllNoMatch(r, "\r\n", "\n");
    ReplaceAllNoMatch(r, "\r", "\n");
    assert NormalizeNewlines(r) == r;
    var pieces := Split(r, '\n');
    SplitPiecesTrimmed(r);
    assert TrimEach(pieces) == pieces;
    JoinSplit(r, '\n');
    assert Collapse(r) == r;
    TrimSpaceOfTrimmed(r);
  }

  // ---- facts about the individual steps ----

  /** A line without line feeds, trimmed of trailing blanks, ends in no blank. */
  lemma TrimmedLineHasNoTrailingBlanks(line: string)
    requires '\n' !in line
    ensures NoTrailingBlanks(TrimRightBy(line, IsBlank))
  {
    var r := TrimRightBy(line, IsBlank);
    assert forall i :: 0 <= i < |r| ==> r[i] == line[i];
  }

  /** A character absent from a string is absent from every piece of its split. */
  lemma {:induction false} SplitAbsent(s: string, sep: char, c: char)
    requires c !in s
    ensures forall i :: 0 <= i < |Split(s, sep)| ==> c !in Split(s, sep)[i]
    decreases |s|
  {
    if s != [] {
      SplitAbsent(s[1..], sep, c);
    }
  }

  lemma {:induction false} JoinAbsent(xs: seq<string>, sep: string, c: char)
    requires forall i :: 0 <= i < |xs| ==> c !in xs[i]
    requires c !in sep
    ensures c !in Join(xs, sep)
    decreases |xs|
  {
    if |xs| > 1 {
      JoinAbsent(xs[1..], sep, c);
    }
  }

  lemma {:induction false} CollapseAbsent(t: string, c: char)
    requires c !in t && c !in Triple
    ensures c !in Collapse(t)
    decreases |t|
  {
    if Contains(t, Quad) {
      ReplaceAllShrinks(t, Quad, Triple);
      ReplaceAllAbsent(t, Quad, Triple, c);
      CollapseAbsent(ReplaceAll(t, Quad, Triple), c);
    }
  }

  /** A pattern that starts with a character the text lacks does not occur in it. */
  lemma {:induction false} AbsentNotContained(s: string, sub: string)
    requires sub != [] && sub[0] !in s
    ensures !Contains(s, sub)
    decreases |s|
  {
    if s != [] {
      if |sub| <= |s| {
        assert s[..|sub|][0] == s[0];
      }
      assert forall x :: x in s[1..] ==> x in s;
      AbsentNotContained(s[1..], sub);
    }
  }

  /** ReplaceAll with a pattern that does not occur returns its input. */
  lemma {:induction false} ReplaceAllNoMatch(s: string, pat: string, rep: string)
    requires pat != [] && !Contains(s, pat)
    ensures ReplaceAll(s, pat, rep) == s
    decreases |s|
  {
    if s != [] {
      ReplaceAllNoMatch(s[1..], pat, rep);
      assert s == [s[0]] + s[1..];
    }
  }

  lemma NoBlankBeforeNewlineAppend(a: string, b: string)
    requires NoBlankBeforeNewline(a) && NoBlankBeforeNewline(b)
    requires a != [] && b != [] && b[0] == '\n' ==> !IsBlank(a[|a| - 1])
    ensures NoBlankBeforeNewline(a + b)
  {
    var s := a + b;
    forall i | 0 < i < |s| && s[i] == '\n'
      ensures !IsBlank(s[i - 1])
    {
      if i > |a| {
        assert s[i] == b[i - |a|] && s[i - 1] == b[i - 1 - |a|];
      } else if i == |a| {
        assert s[i] == b[0];
      }
    }
  }

  lemma SliceNoBlankBeforeNewline(s: string, lo: nat, hi: nat)
    requires lo <= hi <= |s| && NoBlankBeforeNewline(s)
    ensures NoBlankBeforeNewline(s[lo..hi])
  {
    var t := s[lo..hi];
    forall i | 0 < i < |t| && t[i] == '\n'
      ensures !IsBlank(t[i - 1])
    {
      assert t[i] == s[lo + i] && t[i - 1] == s[lo + i - 1];
    }
  }

  /** Lines that do not end in a blank, joined with line feeds, have no blank before any
      line feed. */
  lemma {:induction false} JoinNoBlankBeforeNewline(xs: seq<string>)
    requires forall i :: 0 <= i < |xs| ==> NoTrailingBlanks(xs[i])
    ensures NoBlankBeforeNewline(Join(xs, "\n"))
    decreases |xs|
  {
    if |xs| > 1 {
      var rest := Join(xs[1..], "\n");
      JoinNoBlankBeforeNewline(xs[1..]);
      NoBlankBeforeNewlineAppend("\n", rest);
      NoBlankBeforeNewlineAppend(xs[0], "\n" + rest);
      assert Join(xs, "\n") == xs[0] + ("\n" + rest);
    } else if |xs| == 1 {
      assert NoTrailingBlanks(xs[0]);
    }
  }

  /** Replacing runs of four line feeds by three keeps blanks away from line feeds. */
  lemma {:induction false} ReplaceQuadNoBlankBeforeNewline(s: string)
    requires NoBlankBeforeNewline(s)
    ensures NoBlankBeforeNewline(ReplaceAll(s, Quad, Triple))
    decreases |s|
  {
    if s != [] {
      if HasPrefix(s, Quad) {
        SliceNoBlankBeforeNewline(s, |Quad|, |s|);
        ReplaceQuadNoBlankBeforeNewline(s[|Quad|..]);
        NoBlankBeforeNewlineAppend(Triple, ReplaceAll(s[|Quad|..], Quad, Triple));
      } else {
        var tail := ReplaceAll(s[1..], Quad, Triple);
        SliceNoBlankBeforeNewline(s, 1, |s|);
        ReplaceQuadNoBlankBeforeNewline(s[1..]);
        if s[1..] != [] {
          ReplaceAllHead(s[1..], Quad, Triple);
          assert tail[0] == s[1];
        }
        NoBlankBeforeNewlineAppend([s[0]], tail);
      }
    }
  }

  lemma {:induction false} CollapseNoBlankBeforeNewline(t: string)
    requires NoBlankBeforeNewline(t)
    ensures NoBlankBeforeNewline(Collapse(t))
    decreases |t|
  {
    if Contains(t, Quad) {
      ReplaceAllShrinks(t, Quad, Triple);
      ReplaceQuadNoBlankBeforeNewline(t);
      CollapseNoBlankBeforeNewline(ReplaceAll(t, Quad, Triple));
    }
  }

  /** Trimming each line keeps the non-space characters of the joined text. */
  lemma {:induction false} JoinTrimEachKeepsNonSpace(xs: seq<string>)
    ensures NonSpace(Join(TrimEach(xs), "\n")) == NonSpace(Join(xs, "\n"))
    decreases |xs|
  {
    if |xs| > 0 {
      TrimLineKeepsNonSpace(xs[0]);
    }
    if |xs| > 1 {
      var ys := TrimEach(xs);
      assert ys[1..] == TrimEach(xs[1..]);
      JoinTrimEachKeepsNonSpace(xs[1..]);
      JoinConsNonSpace(xs, "\n");
      JoinConsNonSpace(ys, "\n");
    }
  }

  lemma TrimLineKeepsNonSpace(line: string)
    ensures NonSpace(TrimRightBy(line, IsBlank)) == NonSpace(line)
  {
    forall c | IsBlank(c)
      ensures IsSpace(c)
    {
      BlankIsSpace(c);
    }
    TrimRightKeepsNonSpace(line, IsBlank);
  }

  /** The non-space characters of a join, split after its first element. */
  lemma JoinConsNonSpace(xs: seq<string>, sep: string)
    requires |xs| > 1
    ensures NonSpace(Join(xs, sep)) == NonSpace(xs[0]) + NonSpace(sep) + NonSpace(Join(xs[1..], sep))
  {
    NonSpaceAppend(xs[0] + sep, Join(xs[1..], sep));
    NonSpaceAppend(xs[0], sep);
  }

  lemma {:induction false} CollapseKeepsNonSpace(t: string)
    ensures NonSpace(Collapse(t)) == NonSpace(t)
    decreases |t|
  {
    if Contains(t, Quad) {
      ReplaceAllShrinks(t, Quad, Triple);
      NonSpaceAllSpace(Quad);
      NonSpaceAllSpace(Triple);
      ReplaceAllKeepsNonSpace(t, Quad, Triple);
      CollapseKeepsNonSpace(ReplaceAll(t, Quad, Triple));
    }
  }

  /** In a text whose lines do not end in blanks, no piece of its split ends in a blank. */
  lemma {:induction false} SplitPiecesTrimmed(s: string)
    requires NoTrailingBlanks(s)
    ensures forall i :: 0 <= i < |Split(s, '\n')| ==>
      Split(s, '\n')[i] == [] || !IsBlank(Split(s, '\n')[i][|Split(s, '\n')[i]| - 1])
    decreases |s|
  {
    if s != [] {
      var t := s[1..];
      SliceNoBlankBeforeNewline(s, 1, |s|);
      assert t != [] ==> t[|t| - 1] == s[|s| - 1];
      SplitPiecesTrimmed(t);
      var rest := Split(t, '\n');
      if s[0] != '\n' && rest[0] == [] {
        assert t == [] || t[0] == '\n';
        assert t != [] ==> s[1] == '\n';
      }
    }
  }
}
