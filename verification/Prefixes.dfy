/** The longest common prefix of a list of strings, cut at a character boundary. */
module Prefixes {
  import opened Options
  import opened Utf8

  /** Two strings have their first `k` characters in common. */
  predicate Agree(a: seq<Scalar>, b: seq<Scalar>, k: nat) {
    k <= |a| && k <= |b| && forall i :: 0 <= i < k ==> a[i] == b[i]
  }

  /** The number of leading characters two strings share. */
  function SharedChars(a: seq<Scalar>, b: seq<Scalar>): (k: nat)
    ensures Agree(a, b, k)
    ensures k < |a| && k < |b| ==> a[k] != b[k]
  {
    if a == [] || b == [] || a[0] != b[0] then 0
    else
      assert a == [a[0]] + a[1..] && b == [b[0]] + b[1..];
      1 + SharedChars(a[1..], b[1..])
  }

  /** The byte length of the characters two strings share: the sum the loop takes the minimum of. */
  function SharedBytes(a: seq<Scalar>, b: seq<Scalar>): nat {
    if a == [] || b == [] || a[0] != b[0] then 0 else Len(a[0]) + SharedBytes(a[1..], b[1..])
  }

  lemma {:induction false} SharedBytesAreEncoded(a: seq<Scalar>, b: seq<Scalar>)
    ensures SharedBytes(a, b) == |Encode(b[..SharedChars(a, b)])|
  {
    if !(a == [] || b == [] || a[0] != b[0]) {
      SharedBytesAreEncoded(a[1..], b[1..]);
      var k := SharedChars(a[1..], b[1..]);
      assert b[..k + 1] == [b[0]] + b[1..][..k];
      assert b[..k + 1][1..] == b[1..][..k];
    }
  }

  /** Every string starts with the bytes `p`. */
  ghost predicate CommonTo(p: seq<Byte>, strings: seq<seq<Scalar>>) {
    forall s :: s in strings ==> p <= Encode(s)
  }

  /** `p` is common to all strings and ends on a character boundary of the first, and no longer
      common prefix of the bytes does. */
  ghost predicate LongestCommonText(p: seq<Byte>, strings: seq<seq<Scalar>>)
    requires strings != []
  {
    && CommonTo(p, strings)
    && Boundary(Encode(strings[0]), |p|)
    && forall n :: |p| < n <= |Encode(strings[0])| && CommonTo(Encode(strings[0])[..n], strings) ==>
         !Boundary(Encode(strings[0]), n)
  }

  lemma LongerPrefixLongerBytes(cs: seq<Scalar>, j: nat, k: nat)
    requires j <= k <= |cs|
    ensures |Encode(cs[..j])| <= |Encode(cs[..k])|
  {
    EncodeSplit(cs[..k], j);
    assert cs[..k][..j] == cs[..j];
  }

  method LongestCommonPrefix(strings: seq<seq<Scalar>>) returns (prefix: Option<seq<Byte>>)
    ensures prefix.Some? ==> strings != [] && prefix.value != [] && LongestCommonText(prefix.value, strings)
    ensures prefix.None? ==> strings == [] || LongestCommonText([], strings)
  {
    if strings == [] {
      return None;
    }
    var first := strings[0];
    var len := |Encode(first)|;
    ghost var k := |first|;
    assert first[..k] == first;
    for i := 1 to |strings|
      invariant k <= |first| && len == |Encode(first[..k])|
      invariant forall j :: 0 <= j < i ==> Agree(first, strings[j], k)
      invariant k == |first| || exists j :: 0 <= j < i && !Agree(first, strings[j], k + 1)
    {
      var shared := SharedBytes(strings[i], first);
      ghost var c := SharedChars(strings[i], first);
      SharedBytesAreEncoded(strings[i], first);
      if c <= k {
        LongerPrefixLongerBytes(first, c, k);
      } else {
        LongerPrefixLongerBytes(first, k, c);
      }
      len := if shared < len then shared else len;
      k := if c < k then c else k;
      assert len == |Encode(first[..k])|;
    }
    PrefixEndsOnBoundary(first, k);
    LongestByCharacters(strings, k);
    prefix := if len == 0 then None else Some(Encode(first)[..len]);
    assert Encode(first)[..len] == Encode(first[..k]);
  }

  lemma LongestByCharacters(strings: seq<seq<Scalar>>, k: nat)
    requires strings != [] && k <= |strings[0]|
    requires forall j :: 0 <= j < |strings| ==> Agree(strings[0], strings[j], k)
    requires k == |strings[0]| || exists j :: 0 <= j < |strings| && !Agree(strings[0], strings[j], k + 1)
    ensures LongestCommonText(Encode(strings[0][..k]), strings)
  {
    var first := strings[0];
    var p := Encode(first[..k]);
    PrefixEndsOnBoundary(first, k);
    forall s | s in strings
      ensures p <= Encode(s)
    {
      PrefixEndsOnBoundary(s, k);
      assert s[..k] == first[..k];
    }
    forall n | |p| < n <= |Encode(first)| && CommonTo(Encode(first)[..n], strings) && Boundary(Encode(first), n)
      ensures false
    {
      var j := BoundarySplits(first, n);
      if j <= k {
        LongerPrefixLongerBytes(first, j, k);
      } else {
        forall i | 0 <= i < |strings|
          ensures Agree(first, strings[i], k + 1)
        {
          assert strings[i] in strings;
          PrefixDecodes(first[..j], strings[i]);
          assert strings[i][..j] == first[..j];
          assert forall t :: 0 <= t < j ==> strings[i][t] == strings[i][..j][t] == first[..j][t] == first[t];
        }
      }
    }
  }

  /** The result depends on which strings there are, not on their order or how often they occur. */
  lemma LongestIsUnique(p: seq<Byte>, xs: seq<seq<Scalar>>, q: seq<Byte>, ys: seq<seq<Scalar>>)
    requires xs != [] && ys != [] && forall s :: s in xs <==> s in ys
    requires LongestCommonText(p, xs) && LongestCommonText(q, ys)
    ensures p == q
  {
    assert xs[0] in ys && ys[0] in xs;
    LongestIsNotLonger(p, xs, q, ys);
    LongestIsNotLonger(q, ys, p, xs);
    assert p == Encode(xs[0])[..|p|] && q == Encode(xs[0])[..|q|];
  }

  lemma LongestIsNotLonger(p: seq<Byte>, xs: seq<seq<Scalar>>, q: seq<Byte>, ys: seq<seq<Scalar>>)
    requires xs != [] && ys != [] && forall s :: s in xs <==> s in ys
    requires LongestCommonText(p, xs) && LongestCommonText(q, ys)
    ensures |q| <= |p|
  {
    assert ys[0] in ys && xs[0] in xs;
    var k := BoundarySplits(ys[0], |q|);
    var ds := ys[0][..k];
    assert q == Encode(ds);
    PrefixDecodes(ds, xs[0]);
    PrefixEndsOnBoundary(xs[0], |ds|);
    assert xs[0][..|ds|] == ds;
    assert Encode(xs[0])[..|q|] == q;
  }
}
