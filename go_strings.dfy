/**
 * The parts of Go's `strings` package that the mail client relies on, as
 * functions over `seq<char>`, with the facts the rest of the model needs.
 */
module GoStrings {

  /** unicode.IsSpace: the ASCII white space, NEL, NBSP and the Unicode Z categories. */
  predicate IsSpace(c: char) {
    c == '\t' || c == '\n' || c == '\U{000B}' || c == '\U{000C}' || c == '\r' || c == ' '
    || c == '\U{0085}' || c == '\U{00A0}' || c == '\U{1680}'
    || ('\U{2000}' <= c <= '\U{200A}')
    || c == '\U{2028}' || c == '\U{2029}' || c == '\U{202F}' || c == '\U{205F}' || c == '\U{3000}'
  }

  /** The cutset " \t" that cleanupWhitespace passes to strings.TrimRight. */
  predicate IsBlank(c: char) {
    c == ' ' || c == '\t'
  }

  lemma BlankIsSpace(c: char)
    ensures IsBlank(c) ==> IsSpace(c)
  {
  }

  /** strings.HasPrefix */
  predicate HasPrefix(s: string, p: string) {
    |p| <= |s| && s[..|p|] == p
  }

  /** strings.Contains: `sub` occurs somewhere in `s`. */
  predicate Contains(s: string, sub: string)
    decreases |s|
  {
    HasPrefix(s, sub) || (s != [] && Contains(s[1..], sub))
  }

  lemma ContainsAt(s: string, sub: string, i: nat)
    requires i + |sub| <= |s| && s[i..i + |sub|] == sub
    ensures Contains(s, sub)
    decreases i
  {
    if i > 0 {
      assert s[1..][i - 1..i - 1 + |sub|] == s[i..i + |sub|];
      ContainsAt(s[1..], sub, i - 1);
    }
  }

  /** An occurrence inside a slice is an occurrence in the whole string. */
  lemma ContainsInSlice(s: string, sub: string, a: nat, b: nat)
    requires a <= b <= |s|
    requires Contains(s[a..b], sub)
    ensures Contains(s, sub)
  {
    var i := ContainsWitness(s[a..b], sub);
    assert forall k :: 0 <= k < |sub| ==> sub[k] == s[a..b][i + k] == s[a + i + k];
    assert s[a + i..a + i + |sub|] == sub;
    ContainsAt(s, sub, a + i);
  }

  lemma ContainsWitness(s: string, sub: string) returns (i: nat)
    requires Contains(s, sub)
    ensures i + |sub| <= |s| && s[i..i + |sub|] == sub
    decreases |s|
  {
    if HasPrefix(s, sub) {
      i := 0;
    } else {
      var j := ContainsWitness(s[1..], sub);
      assert s[1..][j..j + |sub|] == s[j + 1..j + 1 + |sub|];
      i := j + 1;
    }
  }

  /** strings.TrimRight with a cutset given as a predicate. */
  function TrimRightBy(s: string, cut: char -> bool): (r: string)
    ensures |r| <= |s| && r == s[..|r|]
    ensures r == [] || !cut(r[|r| - 1])
    ensures forall i :: |r| <= i < |s| ==> cut(s[i])
    decreases |s|
  {
    if s != [] && cut(s[|s| - 1]) then TrimRightBy(s[..|s| - 1], cut) else s
  }

  /** The number of white-space characters at the front of `s`. */
  function LeadingSpace(s: string): (n: nat)
    ensures n <= |s|
    ensures forall i :: 0 <= i < n ==> IsSpace(s[i])
    ensures n < |s| ==> !IsSpace(s[n])
    decreases |s|
  {
    if s != [] && IsSpace(s[0]) then 1 + LeadingSpace(s[1..]) else 0
  }

  /** strings.TrimSpace: drop leading and trailing Unicode white space. */
  function TrimSpace(s: string): (r: string)
    ensures r == [] || (!IsSpace(r[0]) && !IsSpace(r[|r| - 1]))
    ensures LeadingSpace(s) + |r| <= |s| && r == s[LeadingSpace(s)..LeadingSpace(s) + |r|]
    ensures forall i :: LeadingSpace(s) + |r| <= i < |s| ==> IsSpace(s[i])
  {
    var a := LeadingSpace(s);
    var r := TrimRightBy(s[a..], IsSpace);
    assert forall i :: a + |r| <= i < |s| ==> s[i] == s[a..][i - a];
    r
  }

  /** TrimSpace gives the empty string exactly when every character is white space. */
  lemma TrimSpaceEmpty(s: string)
    ensures TrimSpace(s) == [] <==> forall i :: 0 <= i < |s| ==> IsSpace(s[i])
  {
    var r := TrimSpace(s);
    var a := LeadingSpace(s);
    if r != [] {
      assert s[a] == r[0];
    }
  }

  /** A string with no white space at either end is its own TrimSpace. */
  lemma TrimSpaceOfTrimmed(s: string)
    requires s == [] || (!IsSpace(s[0]) && !IsSpace(s[|s| - 1]))
    ensures TrimSpace(s) == s
  {
    var r := TrimSpace(s);
    if s != [] {
      assert LeadingSpace(s) == 0;
      assert |r| == |s|;
    }
  }

  /** Leading white space does not change TrimSpace. */
  lemma {:induction false} TrimSpaceSkipsLeading(w: string, s: string)
    requires forall i :: 0 <= i < |w| ==> IsSpace(w[i])
    requires s == [] || (!IsSpace(s[0]) && !IsSpace(s[|s| - 1]))
    ensures TrimSpace(w + s) == s
  {
    var t := w + s;
    var r := TrimSpace(t);
    if s == [] {
      assert t == w;
      TrimSpaceEmpty(t);
    } else {
      LeadingSpaceSkips(w, s);
      assert t[|t| - 1] == s[|s| - 1];
      assert |r| == |s|;
      assert r == t[|w|..] == s;
    }
  }

  lemma {:induction false} LeadingSpaceSkips(w: string, s: string)
    requires forall i :: 0 <= i < |w| ==> IsSpace(w[i])
    requires s != [] && !IsSpace(s[0])
    ensures LeadingSpace(w + s) == |w|
    decreases |w|
  {
    if w != [] {
      assert (w + s)[1..] == w[1..] + s;
      LeadingSpaceSkips(w[1..], s);
    } else {
      assert w + s == s;
    }
  }

  /** strings.Join */
  function Join(xs: seq<string>, sep: string): string
    decreases |xs|
  {
    if |xs| == 0 then "" else if |xs| == 1 then xs[0] else xs[0] + sep + Join(xs[1..], sep)
  }

  /** strings.Split with a one-character separator (the only kind the client uses). */
  function Split(s: string, sep: char): (r: seq<string>)
    ensures |r| >= 1
    ensures forall i :: 0 <= i < |r| ==> sep !in r[i]
    decreases |s|
  {
    if s == [] then [[]]
    else
      var rest := Split(s[1..], sep);
      if s[0] == sep then [[]] + rest else [[s[0]] + rest[0]] + rest[1..]
  }

  /** Joining the pieces of a split with the separator gives the string back. */
  lemma {:induction false} JoinSplit(s: string, sep: char)
    ensures Join(Split(s, sep), [sep]) == s
    decreases |s|
  {
    if s != [] {
      var rest := Split(s[1..], sep);
      JoinSplit(s[1..], sep);
      if s[0] != sep && |rest| > 1 {
        assert Join(rest, [sep]) == rest[0] + [sep] + Join(rest[1..], [sep]);
      }
    }
  }

  /** Splitting a string with no separator in front of `t` extends the first piece of `t`. */
  lemma {:induction false} SplitPrepend(x: string, t: string, sep: char)
    requires sep !in x
    ensures Split(x + t, sep) == [x + Split(t, sep)[0]] + Split(t, sep)[1..]
    decreases |x|
  {
    if x == [] {
      var st := Split(t, sep);
      assert x + t == t;
      assert x + st[0] == st[0];
      assert st == [st[0]] + st[1..];
    } else {
      var st := Split(t, sep);
      assert (x + t)[0] == x[0] && x[0] != sep;
      assert (x + t)[1..] == x[1..] + t;
      SplitPrepend(x[1..], t, sep);
      var rest := Split(x[1..] + t, sep);
      assert rest[0] == x[1..] + st[0] && rest[1..] == st[1..];
      assert Split(x + t, sep) == [[x[0]] + rest[0]] + rest[1..];
      assert [x[0]] + (x[1..] + st[0]) == x + st[0];
    }
  }

  /** Splitting a joined list of separator-free pieces gives the pieces back. */
  lemma {:induction false} SplitJoin(xs: seq<string>, sep: char)
    requires |xs| >= 1
    requires forall i :: 0 <= i < |xs| ==> sep !in xs[i]
    ensures Split(Join(xs, [sep]), sep) == xs
    decreases |xs|
  {
    if |xs| == 1 {
      SplitPrepend(xs[0], [], sep);
      assert xs[0] + [] == xs[0];
    } else {
      var t := [sep] + Join(xs[1..], [sep]);
      assert Join(xs, [sep]) == xs[0] + t;
      SplitPrepend(xs[0], t, sep);
      SplitJoin(xs[1..], sep);
      assert t[0] == sep && t[1..] == Join(xs[1..], [sep]);
      assert Split(t, sep) == [[]] + xs[1..];
      assert xs[0] + [] == xs[0];
      assert xs == [xs[0]] + xs[1..];
    }
  }

  /** A string holding the separator splits into at least two pieces. */
  lemma {:induction false} SplitCount(s: string, sep: char)
    requires sep in s
    ensures |Split(s, sep)| >= 2
    decreases |s|
  {
    if s[0] != sep {
      SplitCount(s[1..], sep);
    }
  }

  /** A string that ends with the separator splits into pieces whose last one is empty. */
  lemma {:induction false} SplitTrailingSeparator(s: string, sep: char)
    requires s != [] && s[|s| - 1] == sep
    ensures Split(s, sep)[|Split(s, sep)| - 1] == []
    decreases |s|
  {
    if |s| > 1 {
      var t := s[1..];
      assert t[|t| - 1] == sep;
      SplitTrailingSeparator(t, sep);
      SplitCount(t, sep);
    }
  }

  /** strings.ReplaceAll for a non-empty pattern: left to right, non-overlapping. */
  function ReplaceAll(s: string, pat: string, rep: string): string
    requires pat != []
    decreases |s|
  {
    if s == [] then []
    else if HasPrefix(s, pat) then rep + ReplaceAll(s[|pat|..], pat, rep)
    else [s[0]] + ReplaceAll(s[1..], pat, rep)
  }

  /** A character absent from the input and the replacement is absent from the result. */
  lemma {:induction false} ReplaceAllAbsent(s: string, pat: string, rep: string, c: char)
    requires pat != []
    requires c !in s && c !in rep
    ensures c !in ReplaceAll(s, pat, rep)
    decreases |s|
  {
    if s != [] {
      if HasPrefix(s, pat) {
        ReplaceAllAbsent(s[|pat|..], pat, rep, c);
      } else {
        ReplaceAllAbsent(s[1..], pat, rep, c);
      }
    }
  }

  /** Replacing every one-character pattern `c` by text without `c` removes every `c`. */
  lemma {:induction false} ReplaceAllRemoves(s: string, c: char, rep: string)
    requires c !in rep
    ensures c !in ReplaceAll(s, [c], rep)
    decreases |s|
  {
    if s != [] {
      if HasPrefix(s, [c]) {
        ReplaceAllRemoves(s[1..], c, rep);
      } else {
        assert s[0] != c;
        ReplaceAllRemoves(s[1..], c, rep);
      }
    }
  }

  /** When the pattern occurs and the replacement is shorter, the result is shorter. */
  lemma {:induction false} ReplaceAllShrinks(s: string, pat: string, rep: string)
    requires pat != [] && |rep| < |pat|
    ensures |ReplaceAll(s, pat, rep)| <= |s|
    ensures Contains(s, pat) ==> |ReplaceAll(s, pat, rep)| < |s|
    decreases |s|
  {
    if s != [] {
      if HasPrefix(s, pat) {
        ReplaceAllShrinks(s[|pat|..], pat, rep);
      } else {
        ReplaceAllShrinks(s[1..], pat, rep);
      }
    }
  }

  /** A non-empty input gives a non-empty result that starts with the same character,
      provided the replacement starts with the pattern's first character. */
  lemma {:induction false} ReplaceAllHead(s: string, pat: string, rep: string)
    requires pat != [] && rep != [] && rep[0] == pat[0]
    requires s != []
    ensures var r := ReplaceAll(s, pat, rep); r != [] && r[0] == s[0]
  {
  }

  /** The characters that are not white space, in order. */
  function NonSpace(s: string): string
    decreases |s|
  {
    if s == [] then [] else (if IsSpace(s[0]) then [] else [s[0]]) + NonSpace(s[1..])
  }

  lemma {:induction false} NonSpaceAppend(a: string, b: string)
    ensures NonSpace(a + b) == NonSpace(a) + NonSpace(b)
    decreases |a|
  {
    if a == [] {
      assert a + b == b;
    } else {
      var head := if IsSpace(a[0]) then [] else [a[0]];
      assert (a + b)[0] == a[0];
      assert (a + b)[1..] == a[1..] + b;
      NonSpaceAppend(a[1..], b);
      calc {
        NonSpace(a + b);
        head + NonSpace(a[1..] + b);
        head + (NonSpace(a[1..]) + NonSpace(b));
        (head + NonSpace(a[1..])) + NonSpace(b);
        NonSpace(a) + NonSpace(b);
      }
    }
  }

  lemma {:induction false} NonSpaceAllSpace(s: string)
    requires forall i :: 0 <= i < |s| ==> IsSpace(s[i])
    ensures NonSpace(s) == []
    decreases |s|
  {
    if s != [] {
      NonSpaceAllSpace(s[1..]);
    }
  }

  /** Replacing white space by white space keeps the non-space characters. */
  lemma {:induction false} ReplaceAllKeepsNonSpace(s: string, pat: string, rep: string)
    requires pat != []
    requires NonSpace(pat) == [] && NonSpace(rep) == []
    ensures NonSpace(ReplaceAll(s, pat, rep)) == NonSpace(s)
    decreases |s|
  {
    if s != [] {
      if HasPrefix(s, pat) {
        ReplaceAllKeepsNonSpace(s[|pat|..], pat, rep);
        NonSpaceAppend(rep, ReplaceAll(s[|pat|..], pat, rep));
        assert s == pat + s[|pat|..];
        NonSpaceAppend(pat, s[|pat|..]);
      } else {
        ReplaceAllKeepsNonSpace(s[1..], pat, rep);
        NonSpaceAppend([s[0]], ReplaceAll(s[1..], pat, rep));
        assert s == [s[0]] + s[1..];
        NonSpaceAppend([s[0]], s[1..]);
      }
    }
  }

  /** TrimSpace keeps the non-space characters. */
  lemma TrimSpaceKeepsNonSpace(s: string)
    ensures NonSpace(TrimSpace(s)) == NonSpace(s)
  {
    var r := TrimSpace(s);
    var a := LeadingSpace(s);
    assert s == s[..a] + r + s[a + |r|..];
    NonSpaceAppend(s[..a] + r, s[a + |r|..]);
    NonSpaceAppend(s[..a], r);
    NonSpaceAllSpace(s[..a]);
    NonSpaceAllSpace(s[a + |r|..]);
  }

  /** Dropping trailing white space keeps the non-space characters. */
  lemma TrimRightKeepsNonSpace(s: string, cut: char -> bool)
    requires forall c :: cut(c) ==> IsSpace(c)
    ensures NonSpace(TrimRightBy(s, cut)) == NonSpace(s)
  {
    var r := TrimRightBy(s, cut);
    assert s == r + s[|r|..];
    NonSpaceAppend(r, s[|r|..]);
    NonSpaceAllSpace(s[|r|..]);
  }
}
