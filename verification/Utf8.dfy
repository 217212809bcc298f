/** UTF-8 text (section 3 of RFC 3629): what a Rust `str` holds, and where it may be cut. */
module Utf8 {
  type Byte = b: nat | b < 256

  /** A Unicode scalar value, Rust's `char`. */
  type Scalar = c: nat | c <= 0x10FFFF && !(0xD800 <= c <= 0xDFFF)

  /** `char::len_utf8`. */
  function Len(c: Scalar): nat {
    if c < 0x80 then 1 else if c < 0x800 then 2 else if c < 0x10000 then 3 else 4
  }

  function EncodeChar(c: Scalar): (bytes: seq<Byte>)
    ensures |bytes| == Len(c)
  {
    if c < 0x80 then [c]
    else if c < 0x800 then [0xC0 + c / 64, 0x80 + c % 64]
    else if c < 0x10000 then [0xE0 + c / 4096, 0x80 + c / 64 % 64, 0x80 + c % 64]
    else [0xF0 + c / 262144, 0x80 + c / 4096 % 64, 0x80 + c / 64 % 64, 0x80 + c % 64]
  }

  function Encode(cs: seq<Scalar>): seq<Byte> {
    if cs == [] then [] else EncodeChar(cs[0]) + Encode(cs[1..])
  }

  predicate Continuation(b: Byte) {
    0x80 <= b < 0xC0
  }

  /** `is_char_boundary`. */
  predicate Boundary(s: seq<Byte>, i: nat) {
    i == |s| || (i < |s| && !Continuation(s[i]))
  }

  /** The byte sequences a `str` can hold. */
  ghost predicate IsText(s: seq<Byte>) {
    exists cs :: Encode(cs) == s
  }

  // ---------------------------------------------------------------- single characters

  lemma CharShape(c: Scalar)
    ensures !Continuation(EncodeChar(c)[0])
    ensures forall i :: 0 < i < Len(c) ==> Continuation(EncodeChar(c)[i])
    ensures Len(c) == 1 <==> EncodeChar(c)[0] < 0x80
    ensures Len(c) == 2 <==> 0xC0 <= EncodeChar(c)[0] < 0xE0
    ensures Len(c) == 3 <==> 0xE0 <= EncodeChar(c)[0] < 0xF0
    ensures Len(c) == 4 <==> 0xF0 <= EncodeChar(c)[0]
  {
  }

  /** The scalar value an encoding stands for, read back from its bytes. */
  function DecodeChar(bytes: seq<Byte>): int
    requires 1 <= |bytes| <= 4
  {
    var b0 := bytes[0] as int;
    if |bytes| == 1 then b0
    else
      var b1 := bytes[1] as int - 0x80;
      if |bytes| == 2 then (b0 - 0xC0) * 64 + b1
      else
        var b2 := bytes[2] as int - 0x80;
        if |bytes| == 3 then ((b0 - 0xE0) * 64 + b1) * 64 + b2
        else
          var b3 := bytes[3] as int - 0x80;
          (((b0 - 0xF0) * 64 + b1) * 64 + b2) * 64 + b3
  }

  lemma DecodesBack(c: Scalar)
    ensures DecodeChar(EncodeChar(c)) == c
  {
    if Len(c) == 3 {
      assert c / 64 == c / 4096 * 64 + c / 64 % 64;
    } else if Len(c) == 4 {
      assert c / 4096 == c / 262144 * 64 + c / 4096 % 64;
      assert c / 64 == c / 4096 * 64 + c / 64 % 64;
    }
  }

  lemma CharInjective(c: Scalar, d: Scalar)
    requires EncodeChar(c) == EncodeChar(d)
    ensures c == d
  {
    DecodesBack(c);
    DecodesBack(d);
  }

  // ---------------------------------------------------------------- text

  lemma EncodeCons(c: Scalar, cs: seq<Scalar>)
    ensures Encode([c] + cs) == EncodeChar(c) + Encode(cs)
  {
    hide EncodeChar;
    assert ([c] + cs)[1..] == cs;
  }

  lemma Associative(a: seq<Byte>, b: seq<Byte>, c: seq<Byte>)
    ensures (a + b) + c == a + (b + c)
  {
  }

  lemma {:induction false} EncodeAppend(a: seq<Scalar>, b: seq<Scalar>)
    ensures Encode(a + b) == Encode(a) + Encode(b)
  {
    hide EncodeChar;
    if a == [] {
      assert a + b == b;
    } else {
      var rest := a[1..];
      assert a == [a[0]] + rest && a + b == [a[0]] + (rest + b);
      EncodeCons(a[0], rest);
      EncodeCons(a[0], rest + b);
      EncodeAppend(rest, b);
      Associative(EncodeChar(a[0]), Encode(rest), Encode(b));
    }
  }

  lemma EncodeSplit(cs: seq<Scalar>, k: nat)
    requires k <= |cs|
    ensures Encode(cs) == Encode(cs[..k]) + Encode(cs[k..])
  {
    assert cs == cs[..k] + cs[k..];
    EncodeAppend(cs[..k], cs[k..]);
  }

  /** A prefix of the bytes that is itself text is a prefix of the characters. */
  lemma {:induction false} PrefixDecodes(ds: seq<Scalar>, cs: seq<Scalar>)
    requires Encode(ds) <= Encode(cs)
    ensures ds <= cs
    decreases |ds|
  {
    hide EncodeChar;
    if ds != [] {
      var d := EncodeChar(ds[0]);
      assert Encode(ds)[0] == d[0] && Encode(cs)[0] == d[0];
      var c := EncodeChar(cs[0]);
      assert Encode(cs)[0] == c[0];
      CharShape(ds[0]);
      CharShape(cs[0]);
      assert |c| == |d|;
      assert c == Encode(cs)[..|d|] == Encode(ds)[..|d|] == d;
      CharInjective(ds[0], cs[0]);
      assert Encode(ds)[|d|..] == Encode(ds[1..]) && Encode(cs)[|d|..] == Encode(cs[1..]);
      PrefixDecodes(ds[1..], cs[1..]);
    }
  }

  /** No boundary inside a character; the later ones are those of the rest. */
  lemma BoundaryPastFirst(first: seq<Byte>, rest: seq<Byte>, i: nat)
    requires first != [] && (forall j :: 0 < j < |first| ==> Continuation(first[j]))
    requires i > 0 && Boundary(first + rest, i)
    ensures |first| <= i && Boundary(rest, i - |first|)
  {
    var s := first + rest;
    assert forall j :: 0 <= j < |first| ==> s[j] == first[j];
    assert forall j :: |first| <= j < |s| ==> s[j] == rest[j - |first|];
  }

  /** A character boundary of the bytes is the end of some prefix of the characters. */
  lemma {:induction false} BoundarySplits(cs: seq<Scalar>, i: nat) returns (k: nat)
    requires Boundary(Encode(cs), i)
    ensures k <= |cs| && |Encode(cs[..k])| == i
    ensures Encode(cs)[..i] == Encode(cs[..k]) && Encode(cs)[i..] == Encode(cs[k..])
    decreases |cs|
  {
    hide EncodeChar;
    k := 0;
    if i > 0 {
      CharShape(cs[0]);
      BoundaryPastFirst(EncodeChar(cs[0]), Encode(cs[1..]), i);
      var j := BoundarySplits(cs[1..], i - Len(cs[0]));
      k := j + 1;
      assert cs[..k] == [cs[0]] + cs[1..][..j];
      EncodeCons(cs[0], cs[1..][..j]);
    }
    EncodeSplit(cs, k);
  }

  /** The end of a prefix of the characters is a boundary of the bytes. */
  lemma PrefixEndsOnBoundary(cs: seq<Scalar>, k: nat)
    requires k <= |cs|
    ensures Encode(cs[..k]) <= Encode(cs) && Boundary(Encode(cs), |Encode(cs[..k])|)
  {
    hide EncodeChar;
    EncodeSplit(cs, k);
    if k < |cs| {
      CharShape(cs[k]);
      assert Encode(cs[k..])[0] == EncodeChar(cs[k])[0];
      assert Encode(cs)[|Encode(cs[..k])|] == Encode(cs[k..])[0];
    }
  }

  /** Text cut at a boundary is text on both sides, with the same boundaries. */
  lemma CutIsText(s: seq<Byte>, i: nat)
    requires IsText(s) && Boundary(s, i)
    ensures IsText(s[..i]) && IsText(s[i..])
  {
    var cs :| Encode(cs) == s;
    var k := BoundarySplits(cs, i);
  }

  lemma SliceIsText(s: seq<Byte>, lo: nat, hi: nat)
    requires IsText(s) && lo <= hi && Boundary(s, lo) && Boundary(s, hi)
    ensures IsText(s[lo..hi])
  {
    CutIsText(s, lo);
    assert hi < |s| ==> s[lo..][hi - lo] == s[hi];
    CutIsText(s[lo..], hi - lo);
    assert s[lo..][..hi - lo] == s[lo..hi];
  }

  /** Text starts on a boundary, and the byte after an ASCII byte is on one. */
  lemma {:induction false} AsciiEndsOnBoundary(s: seq<Byte>, i: nat)
    requires IsText(s) && i <= |s| && (i > 0 ==> s[i - 1] < 0x80)
    ensures Boundary(s, i)
  {
    var cs :| Encode(cs) == s;
    if i == 0 {
      if cs != [] {
        CharShape(cs[0]);
      }
    } else {
      var k := BoundarySplits(cs, i - 1);
      assert s[i - 1] == s[i - 1..][0];
      FirstCharAscii(cs[k..]);
      assert i < |s| ==> s[i - 1..][1] == s[i];
    }
  }

  /** An ASCII byte at the start of text is a character by itself. */
  lemma FirstCharAscii(cs: seq<Scalar>)
    requires Encode(cs) != [] && Encode(cs)[0] < 0x80
    ensures Boundary(Encode(cs), 1)
  {
    hide EncodeChar;
    CharShape(cs[0]);
    assert Encode(cs)[0] == EncodeChar(cs[0])[0];
    if |cs| > 1 {
      CharShape(cs[1]);
      assert Encode(cs)[1] == Encode(cs[1..])[0] == EncodeChar(cs[1])[0];
    }
  }

  lemma TextPrefixEndsOnBoundary(t: seq<Byte>, s: seq<Byte>)
    requires IsText(s) && IsText(t) && t <= s
    ensures Boundary(s, |t|)
  {
    var cs :| Encode(cs) == s;
    var ds :| Encode(ds) == t;
    PrefixDecodes(ds, cs);
    PrefixEndsOnBoundary(cs, |ds|);
    assert cs[..|ds|] == ds;
  }

  /** Text found inside text starts and ends on boundaries. */
  lemma MatchEndsOnBoundary(s: seq<Byte>, t: seq<Byte>, i: nat)
    requires IsText(s) && IsText(t) && t != []
    requires i + |t| <= |s| && s[i..i + |t|] == t
    ensures Boundary(s, i) && Boundary(s, i + |t|)
  {
    AsciiEndsOnBoundary(t, 0);
    assert s[i] == s[i..i + |t|][0] == t[0];
    CutIsText(s, i);
    assert s[i..][..|t|] == t;
    TextPrefixEndsOnBoundary(t, s[i..]);
    assert i + |t| < |s| ==> s[i..][|t|] == s[i + |t|];
  }
}
