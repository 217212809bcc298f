/** Searches in a string's bytes that both translation scanners use. */
module ByteScan {
  import opened Options
  import opened Utf8

  const NEWLINE: Byte := 10
  const QUOTE: Byte := 34
  const OPEN_PAREN: Byte := 40
  const SLASH: Byte := 47

  /** A slice of a `str`: it panics unless both ends are on character boundaries, and is text itself. */
  function Slice(s: seq<Byte>, lo: nat, hi: nat): (slice: seq<Byte>)
    requires IsText(s) && lo <= hi && Boundary(s, lo) && Boundary(s, hi)
    ensures IsText(slice)
  {
    SliceIsText(s, lo, hi);
    s[lo..hi]
  }

  predicate AsciiAlphanumeric(b: Byte) {
    (48 <= b <= 57) || (65 <= b <= 90) || (97 <= b <= 122)
  }

  predicate AsciiWhitespace(b: Byte) {
    b == 32 || b == 9 || b == 10 || b == 12 || b == 13
  }

  /** A byte of a macro or function name. */
  predicate IdentifierByte(b: Byte) {
    AsciiAlphanumeric(b) || b == 95
  }

  /** `bytes[from..].iter().position(..)`, as an absolute index. */
  function FindByte(s: seq<Byte>, b: Byte, from: nat): (found: Option<nat>)
    requires from <= |s|
    ensures found.Some? ==> from <= found.value < |s| && s[found.value] == b
    decreases |s| - from
  {
    if from == |s| then None
    else if s[from] == b then Some(from)
    else FindByte(s, b, from + 1)
  }

  lemma {:induction false} FindByteIsFirst(s: seq<Byte>, b: Byte, from: nat)
    requires from <= |s|
    ensures var found := FindByte(s, b, from);
      forall i :: from <= i < (if found.Some? then found.value else |s|) ==> s[i] != b
    decreases |s| - from
  {
    if from < |s| && s[from] != b {
      FindByteIsFirst(s, b, from + 1);
    }
  }

  function Newlines(s: seq<Byte>): nat {
    if s == [] then 0
    else Newlines(s[..|s| - 1]) + if s[|s| - 1] == NEWLINE then 1 else 0
  }

  lemma {:induction false} NewlinesSplit(s: seq<Byte>, i: nat, j: nat)
    requires i <= j <= |s|
    ensures Newlines(s[..j]) == Newlines(s[..i]) + Newlines(s[i..j])
  {
    if i == j {
      assert s[i..j] == [];
    } else {
      NewlinesSplit(s, i, j - 1);
      assert s[..j][..j - 1] == s[..j - 1];
      assert s[i..j][..j - 1 - i] == s[i..j - 1];
    }
  }

  /** The start of the line that holds position `p`: after the last newline before it. */
  function LineStart(s: seq<Byte>, p: nat): (start: nat)
    requires p <= |s|
    ensures start <= p && (start > 0 ==> s[start - 1] == NEWLINE)
  {
    if p == 0 then 0 else if s[p - 1] == NEWLINE then p else LineStart(s, p - 1)
  }

  /** No newline follows the start of the line. */
  lemma {:induction false} LineStartIsLast(s: seq<Byte>, p: nat)
    requires p <= |s|
    ensures forall i :: LineStart(s, p) <= i < p ==> s[i] != NEWLINE
  {
    if p > 0 && s[p - 1] != NEWLINE {
      LineStartIsLast(s, p - 1);
    }
  }

  /** `contains("//")`. */
  predicate HasLineComment(s: seq<Byte>) {
    exists i :: 0 <= i < |s| - 1 && s[i] == SLASH && s[i + 1] == SLASH
  }

  /** Two slashes stand before `p` on its line. */
  predicate InLineComment(s: seq<Byte>, p: nat)
    requires p <= |s|
  {
    HasLineComment(s[LineStart(s, p)..p])
  }

  /** Two slashes stand side by side at `i`, with no newline between them and `p`. */
  predicate SlashesOnLine(s: seq<Byte>, i: nat, p: nat)
    requires p <= |s|
  {
    i + 1 < p && s[i] == SLASH && s[i + 1] == SLASH && forall j :: i <= j < p ==> s[j] != NEWLINE
  }

  /** A position is in a line comment if and only if two slashes stand before it on its own line. */
  lemma InLineCommentIff(s: seq<Byte>, p: nat)
    requires p <= |s|
    ensures InLineComment(s, p) <==> exists i: nat :: SlashesOnLine(s, i, p)
  {
    var start := LineStart(s, p);
    assert start > 0 ==> s[start - 1] == NEWLINE;
    LineStartIsLast(s, p);
    if InLineComment(s, p) {
      var i :| 0 <= i < p - start - 1 && s[start..p][i] == SLASH && s[start..p][i + 1] == SLASH;
      assert SlashesOnLine(s, start + i, p);
    }
    if i: nat :| SlashesOnLine(s, i, p) {
      assert s[start..p][i - start] == SLASH && s[start..p][i - start + 1] == SLASH;
    }
  }

  /** `Newlines` counts every newline. */
  lemma {:induction false} NewlinesAreCounted(s: seq<Byte>)
    ensures Newlines(s) == multiset(s)[NEWLINE]
  {
    if s != [] {
      NewlinesAreCounted(s[..|s| - 1]);
      assert s == s[..|s| - 1] + [s[|s| - 1]];
    }
  }
}
