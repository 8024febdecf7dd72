/**
 * The list title of a message, `Email.Title`: subjects longer than 60 bytes are cut
 * to 57 bytes and "..." is appended. Go measures and slices strings in bytes, so the
 * model works on the UTF-8 encoding of the subject (RFC 3629).
 */
module Titles {

  type byte = x: int | 0 <= x < 256

  const TitleLimit: nat := 60
  const TitleCut: nat := 57
  const Ellipsis: string := "..."

  /** The UTF-8 encoding of one Unicode scalar value. */
  function EncodeChar(c: char): (r: seq<byte>)
    ensures 1 <= |r| <= 4
    ensures (c as int < 0x80) <==> |r| == 1
    ensures |r| == 1 ==> r[0] == c as int
    ensures |r| > 1 ==> r[0] >= 0xC0 && forall k :: 1 <= k < |r| ==> 0x80 <= r[k] < 0xC0
  {
    var cp := c as int;
    if cp < 0x80 then [cp]
    else if cp < 0x800 then [0xC0 + cp / 64, 0x80 + cp % 64]
    else if cp < 0x10000 then [0xE0 + cp / 4096, 0x80 + (cp / 64) % 64, 0x80 + cp % 64]
    else [0xF0 + cp / 262144, 0x80 + (cp / 4096) % 64, 0x80 + (cp / 64) % 64, 0x80 + cp % 64]
  }

  /** The UTF-8 encoding of a string: the bytes Go's `len` and slicing see. */
  function Utf8(s: string): seq<byte>
    decreases |s|
  {
    if s == [] then [] else EncodeChar(s[0]) + Utf8(s[1..])
  }

  lemma {:induction false} Utf8Append(a: string, b: string)
    ensures Utf8(a + b) == Utf8(a) + Utf8(b)
    decreases |a|
  {
    if a != [] {
      assert (a + b)[0] == a[0];
      assert (a + b)[1..] == a[1..] + b;
      Utf8Append(a[1..], b);
    } else {
      assert a + b == b;
    }
  }

  /** ASCII text encodes byte for byte. */
  lemma {:induction false} Utf8Ascii(s: string)
    requires forall i :: 0 <= i < |s| ==> s[i] as int < 0x80
    ensures |Utf8(s)| == |s|
    ensures forall i :: 0 <= i < |s| ==> Utf8(s)[i] == s[i] as int
    decreases |s|
  {
    if s != [] {
      Utf8Ascii(s[1..]);
    }
  }

  /** In every UTF-8 encoding, a lead byte (0xC0 and up) is followed by a continuation byte. */
  predicate LeadBytesContinued(b: seq<byte>) {
    forall i :: 0 <= i < |b| && b[i] >= 0xC0 ==> i + 1 < |b| && 0x80 <= b[i + 1] < 0xC0
  }

  lemma {:induction false} Utf8LeadBytesContinued(s: string)
    ensures LeadBytesContinued(Utf8(s))
    decreases |s|
  {
    if s != [] {
      Utf8LeadBytesContinued(s[1..]);
      var head, tail := EncodeChar(s[0]), Utf8(s[1..]);
      var b := head + tail;
      forall i | 0 <= i < |b| && b[i] >= 0xC0
        ensures i + 1 < |b| && 0x80 <= b[i + 1] < 0xC0
      {
        if i >= |head| {
          assert b[i] == tail[i - |head|];
          assert b[i + 1] == tail[i + 1 - |head|];
        }
      }
    }
  }

  /** Email.Title as written: byte length, byte slice. */
  function TitleAsWritten(subject: string): (r: seq<byte>)
    ensures |r| <= TitleLimit
    ensures |Utf8(subject)| <= TitleLimit ==> r == Utf8(subject)
    ensures |Utf8(subject)| > TitleLimit ==> |r| == TitleLimit && r[TitleCut..] == Utf8(Ellipsis)
    ensures |Utf8(subject)| > TitleLimit ==> r[..TitleCut] == Utf8(subject)[..TitleCut]
  {
    Utf8Ascii(Ellipsis);
    var b := Utf8(subject);
    if |b| > TitleLimit then b[..TitleCut] + Utf8(Ellipsis) else b
  }

  /** Counterexample: 56 ASCII letters, then "é" (two bytes), then more text. The 57-byte
      cut keeps only the lead byte of "é", and the title is not the UTF-8 of any string. */
  lemma TitleAsWrittenSplitsCharacter()
    ensures var subject := seq(56, _ => 'a') + "é" + "bbbbb";
      forall t: string :: Utf8(t) != TitleAsWritten(subject)
  {
    var subject := seq(56, _ => 'a') + "é" + "bbbbb";
    var ascii, rest := seq(56, _ => 'a'), "é" + "bbbbb";
    assert subject == ascii + rest;
    Utf8Append(ascii, rest);
    Utf8Ascii(ascii);
    Utf8Append("é", "bbbbb");
    Utf8Ascii("bbbbb");
    Utf8Ascii(Ellipsis);
    assert "é"[0] == 'é' && "é"[1..] == [];
    assert Utf8("é") == [0xC3, 0xA9];
    var b := Utf8(subject);
    assert |b| == 63 && b[56] == 0xC3;
    var title := TitleAsWritten(subject);
    assert title == b[..57] + Utf8(Ellipsis);
    assert title[56] == 0xC3 && title[57] == '.' as int;
    assert !LeadBytesContinued(title);
    forall t: string
      ensures Utf8(t) != title
    {
      Utf8LeadBytesContinued(t);
    }
  }

  /** The number of leading characters of `s` whose encoding fits in `budget` bytes. */
  function FitPrefix(s: string, budget: nat): (k: nat)
    ensures k <= |s|
    ensures |Utf8(s[..k])| <= budget
    ensures k < |s| ==> |Utf8(s[..k + 1])| > budget
    decreases |s|
  {
    if s == [] then 0
    else if |EncodeChar(s[0])| > budget then
      assert s[..1][1..] == [];
      0
    else
      var k := 1 + FitPrefix(s[1..], budget - |EncodeChar(s[0])|);
      assert s[..k] == [s[0]] + s[1..][..k - 1];
      assert k < |s| ==> s[..k + 1] == [s[0]] + s[1..][..k];
      k
  }

  /** Email.Title cutting at a character boundary: the longest character prefix that fits
      in 57 bytes, then "...". */
  function Title(subject: string): (r: string)
    ensures |Utf8(subject)| <= TitleLimit ==> r == subject
    ensures |Utf8(r)| <= TitleLimit
    ensures |Utf8(subject)| > TitleLimit ==>
      exists k :: 0 <= k <= |subject| && r == subject[..k] + Ellipsis
        && |Utf8(subject[..k])| <= TitleCut && Utf8(subject[..k]) == Utf8(subject)[..|Utf8(subject[..k])|]
        && (k < |subject| ==> |Utf8(subject[..k + 1])| > TitleCut)
  {
    if |Utf8(subject)| > TitleLimit then
      var k := FitPrefix(subject, TitleCut);
      CutFits(subject, k);
      subject[..k] + Ellipsis
    else subject
  }

  /** A character prefix that fits in 57 bytes, with "..." after it, fits in 60 bytes, and
      its encoding is a byte prefix of the subject's. */
  lemma CutFits(subject: string, k: nat)
    requires k <= |subject| && |Utf8(subject[..k])| <= TitleCut
    ensures |Utf8(subject[..k] + Ellipsis)| <= TitleLimit
    ensures |Utf8(subject[..k])| <= |Utf8(subject)|
    ensures Utf8(subject[..k]) == Utf8(subject)[..|Utf8(subject[..k])|]
  {
    Utf8Append(subject[..k], Ellipsis);
    Utf8Append(subject[..k], subject[k..]);
    assert subject[..k] + subject[k..] == subject;
  }

  /** Whenever byte 57 falls on a character boundary (always, for ASCII subjects) the
      corrected title is byte for byte the title the source builds. */
  lemma TitleAgreesAtBoundary(subject: string, k: nat)
    requires k <= |subject| && |Utf8(subject[..k])| == TitleCut
    ensures Utf8(Title(subject)) == TitleAsWritten(subject)
  {
    Utf8Append(subject[..k], subject[k..]);
    assert subject[..k] + subject[k..] == subject;
    if |Utf8(subject)| > TitleLimit {
      var j := FitPrefix(subject, TitleCut);
      if j < k {
        PrefixUtf8Monotone(subject, j + 1, k);
      } else if j > k {
        PrefixUtf8Monotone(subject, k, j);
      }
      assert j == k;
      Utf8Append(subject[..k], Ellipsis);
    }
  }

  /** On the subject that breaks the source's title, the corrected title keeps the 56
      letters, drops the "é" that does not fit whole, and appends "...". */
  lemma TitleKeepsWholeCharacters()
    ensures var subject := seq(56, _ => 'a') + "é" + "bbbbb";
      Title(subject) == seq(56, _ => 'a') + Ellipsis
  {
    var ascii := seq(56, _ => 'a');
    var subject := ascii + "é" + "bbbbb";
    assert subject == ascii + ("é" + "bbbbb");
    Utf8Append(ascii, "é" + "bbbbb");
    Utf8Append("é", "bbbbb");
    Utf8Ascii(ascii);
    Utf8Ascii("bbbbb");
    assert "é"[0] == 'é' && "é"[1..] == [];
    assert |Utf8("é")| == 2;
    assert subject[..56] == ascii;
    assert subject[..57] == ascii + "é";
    Utf8Append(ascii, "é");
    assert |Utf8(subject)| == 63;
    var k :| 0 <= k <= |subject| && Title(subject) == subject[..k] + Ellipsis
      && |Utf8(subject[..k])| <= TitleCut && (k < |subject| ==> |Utf8(subject[..k + 1])| > TitleCut);
    if k < 56 {
      PrefixUtf8Monotone(subject, k + 1, 56);
    } else if k > 56 {
      PrefixUtf8Monotone(subject, 57, k);
    }
  }

  /** Longer character prefixes have longer encodings. */
  lemma PrefixUtf8Monotone(s: string, i: nat, j: nat)
    requires i <= j <= |s|
    ensures |Utf8(s[..i])| <= |Utf8(s[..j])|
    ensures i < j ==> |Utf8(s[..i])| < |Utf8(s[..j])|
  {
    assert s[..j] == s[..i] + s[i..j];
    Utf8Append(s[..i], s[i..j]);
  }
}
