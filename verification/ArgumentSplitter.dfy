/** `call_arguments`: the calls of a function in a source text, and their arguments. */
module ArgumentSplitter {
  import opened Options
  import opened Utf8
  import opened ByteScan

  const CLOSE_PAREN: Byte := 41
  const STAR: Byte := 42
  const COMMA: Byte := 44
  const SEMICOLON: Byte := 59
  const BACKSLASH: Byte := 92

  // ---------------------------------------------------------------- comments, strings, nesting

  /** What a byte belongs to. The three `Open`/`Close` modes are the second byte of a two-byte
      comment delimiter. */
  datatype Mode = Code | LineOpen | LineComment | BlockOpen | BlockComment | BlockClose | Str(escaped: bool)

  datatype Lex = Lex(mode: Mode, nesting: nat)

  predicate OpensBracket(b: Byte) {
    b == OPEN_PAREN || b == 91 || b == 123
  }

  predicate ClosesBracket(b: Byte) {
    b == CLOSE_PAREN || b == 93 || b == 125
  }

  function Peek(s: seq<Byte>, i: nat): Option<Byte> {
    if i < |s| then Some(s[i]) else None
  }

  /** The state after a byte, one byte at a time, with one byte of lookahead. */
  function Advance(l: Lex, b: Byte, next: Option<Byte>): Lex {
    match l.mode
    case LineOpen => l.(mode := LineComment)
    case BlockOpen => l.(mode := BlockComment)
    case BlockClose => l.(mode := Code)
    case LineComment => if b == NEWLINE then l.(mode := Code) else l
    case BlockComment => if b == STAR && next == Some(SLASH) then l.(mode := BlockClose) else l
    case Str(escaped) =>
      if escaped then l.(mode := Str(false))
      else if b == BACKSLASH then l.(mode := Str(true))
      else if b == QUOTE then l.(mode := Code)
      else l
    case Code =>
      if b == SLASH && next == Some(SLASH) then l.(mode := LineOpen)
      else if b == SLASH && next == Some(STAR) then l.(mode := BlockOpen)
      else if b == QUOTE then l.(mode := Str(false))
      else if OpensBracket(b) then l.(nesting := l.nesting + 1)
      else if ClosesBracket(b) then l.(nesting := if l.nesting == 0 then 0 else l.nesting - 1)
      else l
  }

  /** The state before byte `i` of an argument list opened at `open`. */
  function LexAt(s: seq<Byte>, open: nat, i: nat): Lex
    requires open < i <= |s|
  {
    if i == open + 1 then Lex(Code, 0)
    else Advance(LexAt(s, open, i - 1), s[i - 1], Peek(s, i))
  }

  /** Byte `i` is at nesting 0 of the argument list, outside strings and comments. */
  predicate TopLevel(s: seq<Byte>, open: nat, i: nat)
    requires open < i < |s|
  {
    LexAt(s, open, i) == Lex(Code, 0)
  }

  predicate IsCut(s: seq<Byte>, open: nat, i: nat)
    requires open < i < |s|
  {
    s[i] == COMMA && TopLevel(s, open, i)
  }

  predicate IsClose(s: seq<Byte>, open: nat, i: nat)
    requires open < i < |s|
  {
    s[i] == CLOSE_PAREN && TopLevel(s, open, i)
  }

  /** The first closing parenthesis at or after `i` that ends the argument list. */
  function FindClose(s: seq<Byte>, open: nat, i: nat): (found: Option<nat>)
    requires open < i <= |s|
    ensures found.Some? ==> i <= found.value < |s| && IsClose(s, open, found.value)
    decreases |s| - i
  {
    if i == |s| then None
    else if IsClose(s, open, i) then Some(i)
    else FindClose(s, open, i + 1)
  }

  /** The cuts before byte `i`, in order. */
  function Cuts(s: seq<Byte>, open: nat, i: nat): seq<nat>
    requires open < i <= |s|
  {
    if i == open + 1 then []
    else Cuts(s, open, i - 1) + if IsCut(s, open, i - 1) then [i - 1] else []
  }

  /** The stretches of `s` from `start` that end at the given places, which they do not include. */
  function Pieces(s: seq<Byte>, start: nat, ends: seq<nat>): (pieces: seq<seq<Byte>>)
    requires Ascending(start, ends, |s|)
    ensures |pieces| == |ends|
    decreases |ends|
  {
    if ends == [] then [] else [s[start..ends[0]]] + Pieces(s, ends[0] + 1, ends[1..])
  }

  /** Increasing places below `limit`, none before `start`. */
  predicate Ascending(start: nat, ends: seq<nat>, limit: nat)
    decreases |ends|
  {
    if ends == [] then start <= limit
    else start <= ends[0] < limit && Ascending(ends[0] + 1, ends[1..], limit)
  }

  /** Where the next piece starts. */
  function AfterLast(start: nat, ends: seq<nat>): nat {
    if ends == [] then start else ends[|ends| - 1] + 1
  }

  lemma {:induction false} AscendingAppend(start: nat, ends: seq<nat>, limit: nat, e: nat)
    requires Ascending(start, ends, limit) && AfterLast(start, ends) <= e < limit
    ensures Ascending(start, ends + [e], limit)
    decreases |ends|
  {
    if ends != [] {
      assert (ends + [e])[1..] == ends[1..] + [e];
      AscendingAppend(ends[0] + 1, ends[1..], limit, e);
    }
  }

  lemma {:induction false} PiecesAppend(s: seq<Byte>, start: nat, ends: seq<nat>, e: nat)
    requires Ascending(start, ends, |s|) && AfterLast(start, ends) <= e < |s|
    ensures Ascending(start, ends + [e], |s|)
    ensures Pieces(s, start, ends + [e]) == Pieces(s, start, ends) + [s[AfterLast(start, ends)..e]]
    decreases |ends|
  {
    AscendingAppend(start, ends, |s|, e);
    if ends == [] {
      assert (ends + [e])[1..] == [];
    } else {
      var rest := ends[1..];
      assert ends + [e] == [ends[0]] + (rest + [e]) && (ends + [e])[1..] == rest + [e];
      PiecesAppend(s, ends[0] + 1, rest, e);
      assert AfterLast(ends[0] + 1, rest) == AfterLast(start, ends);
      var first, last := s[start..ends[0]], s[AfterLast(start, ends)..e];
      assert [first] + (Pieces(s, ends[0] + 1, rest) + [last]) == ([first] + Pieces(s, ends[0] + 1, rest)) + [last];
    }
  }

  lemma {:induction false} CutsAscend(s: seq<Byte>, open: nat, i: nat)
    requires open < i <= |s|
    ensures Ascending(open + 1, Cuts(s, open, i), |s|) && AfterLast(open + 1, Cuts(s, open, i)) <= i
  {
    hide LexAt, TopLevel, Ascending;
    if i == open + 1 {
      NothingAscends(open + 1, |s|);
    } else {
      CutsAscend(s, open, i - 1);
      if IsCut(s, open, i - 1) {
        AscendingAppend(open + 1, Cuts(s, open, i - 1), |s|, i - 1);
      } else {
        assert Cuts(s, open, i) == Cuts(s, open, i - 1);
      }
    }
  }

  lemma NothingAscends(start: nat, limit: nat)
    requires start <= limit
    ensures Ascending(start, [], limit)
  {
  }

  lemma {:induction false} CutsAreAllCuts(s: seq<Byte>, open: nat, i: nat, c: nat)
    requires open < i <= |s|
    ensures c in Cuts(s, open, i) <==> open < c < i && IsCut(s, open, c)
  {
    hide LexAt, TopLevel;
    if i > open + 1 {
      CutsAreAllCuts(s, open, i - 1, c);
    }
  }

  /** The arguments of the call whose list opens at `open`, before they are trimmed; the last one
      of a list that never closes is not among them. */
  function Arguments(s: seq<Byte>, open: nat): seq<seq<Byte>>
    requires open < |s|
  {
    match FindClose(s, open, open + 1)
    case None =>
      CutsAscend(s, open, |s|);
      Pieces(s, open + 1, Cuts(s, open, |s|))
    case Some(close) =>
      CutsAscend(s, open, close);
      AscendingAppend(open + 1, Cuts(s, open, close), |s|, close);
      Pieces(s, open + 1, Cuts(s, open, close) + [close])
  }

  /** Where the scan of the argument list stops. */
  function EndOfCall(s: seq<Byte>, open: nat): (end: nat)
    requires open < |s|
    ensures open < end <= |s|
  {
    match FindClose(s, open, open + 1)
    case None => |s|
    case Some(close) => close + 1
  }

  // ---------------------------------------------------------------- splitting loses nothing

  function Join(pieces: seq<seq<Byte>>): seq<Byte> {
    if pieces == [] then []
    else if |pieces| == 1 then pieces[0]
    else pieces[0] + [COMMA] + Join(pieces[1..])
  }

  lemma {:induction false} JoinPieces(s: seq<Byte>, start: nat, ends: seq<nat>)
    requires ends != [] && Ascending(start, ends, |s|)
    requires forall k :: 0 <= k < |ends| - 1 ==> ends[k] < |s| && s[ends[k]] == COMMA
    ensures start <= ends[|ends| - 1] < |s| && Join(Pieces(s, start, ends)) == s[start..ends[|ends| - 1]]
    ensures |Pieces(s, start, ends)| == |ends|
    decreases |ends|
  {
    var first, rest := ends[0], ends[1..];
    FirstPiece(s, start, ends);
    hide Join, Pieces, Ascending;
    OnePiece(s[start..first]);
    if rest != [] {
      forall k | 0 <= k < |rest| - 1
        ensures rest[k] < |s| && s[rest[k]] == COMMA
      {
        assert rest[k] == ends[k + 1];
      }
      JoinPieces(s, first + 1, rest);
      JoinCons(s[start..first], Pieces(s, first + 1, rest));
      SlicesTogether(s, start, first, rest[|rest| - 1]);
    }
  }

  lemma FirstPiece(s: seq<Byte>, start: nat, ends: seq<nat>)
    requires ends != [] && Ascending(start, ends, |s|)
    ensures start <= ends[0] < |s| && Ascending(ends[0] + 1, ends[1..], |s|)
    ensures Pieces(s, start, ends) == [s[start..ends[0]]] + Pieces(s, ends[0] + 1, ends[1..])
    ensures |ends| == 1 ==> Pieces(s, start, ends) == [] + [s[start..ends[0]]]
  {
  }

  lemma OnePiece(piece: seq<Byte>)
    ensures Join([] + [piece]) == piece
  {
  }

  lemma JoinCons(piece: seq<Byte>, rest: seq<seq<Byte>>)
    requires rest != []
    ensures Join([piece] + rest) == piece + [COMMA] + Join(rest)
  {
    assert ([piece] + rest)[1..] == rest;
  }

  lemma SlicesTogether(s: seq<Byte>, i: nat, j: nat, k: nat)
    requires i <= j < k <= |s|
    ensures s[i..k] == s[i..j] + [s[j]] + s[j + 1..k]
  {
  }

  /** When a call closes, its arguments joined by commas are exactly the source between its
      parentheses, one more than there are cuts; and the cuts are exactly the commas at nesting 0
      outside strings and comments. */
  lemma ArgumentsRejoin(s: seq<Byte>, open: nat)
    requires open < |s| && FindClose(s, open, open + 1).Some?
    ensures var close := FindClose(s, open, open + 1).value;
      && Join(Arguments(s, open)) == s[open + 1..close]
      && |Arguments(s, open)| == |Cuts(s, open, close)| + 1
      && forall c: nat :: c in Cuts(s, open, close) <==> open < c < close && IsCut(s, open, c)
  {
    hide LexAt, FindClose, TopLevel;
    var close := FindClose(s, open, open + 1).value;
    var cuts := Cuts(s, open, close);
    forall c: nat
      ensures c in cuts <==> open < c < close && IsCut(s, open, c)
    {
      CutsAreAllCuts(s, open, close, c);
    }
    CutsAscend(s, open, close);
    AscendingAppend(open + 1, cuts, |s|, close);
    var ends := cuts + [close];
    forall k | 0 <= k < |ends| - 1
      ensures ends[k] < |s| && s[ends[k]] == COMMA
    {
      assert ends[k] == cuts[k] && cuts[k] in cuts;
    }
    JoinPieces(s, open + 1, ends);
  }

  /** The closing parenthesis is the first one at nesting 0 outside strings and comments. */
  lemma {:induction false} CloseIsFirst(s: seq<Byte>, open: nat, i: nat, j: nat)
    requires open < i <= j < |s|
    requires FindClose(s, open, i).None? || j < FindClose(s, open, i).value
    ensures !IsClose(s, open, j)
    decreases |s| - i
  {
    hide LexAt;
    if i < j {
      CloseIsFirst(s, open, i + 1, j);
    }
  }

  lemma {:induction false} JoinAppend(pieces: seq<seq<Byte>>, last: seq<Byte>)
    requires pieces != []
    ensures Join(pieces + [last]) == Join(pieces) + [COMMA] + last
  {
    hide Join;
    var first, rest := pieces[0], pieces[1..];
    assert pieces + [last] == [first] + (rest + [last]);
    JoinCons(first, rest + [last]);
    if rest == [] {
      OnePiece(first);
      OnePiece(last);
      assert pieces == [] + [first] && rest + [last] == [] + [last];
    } else {
      JoinAppend(rest, last);
      assert pieces == [first] + rest;
      JoinCons(first, rest);
      assert first + [COMMA] + (Join(rest) + [COMMA] + last) == first + [COMMA] + Join(rest) + [COMMA] + last;
    }
  }

  /** When a call does not close, its arguments are the pieces up to its last cut, and the rest of the
      source after it is no argument. */
  lemma UnclosedArgumentsRejoin(s: seq<Byte>, open: nat)
    requires open < |s| && FindClose(s, open, open + 1).None?
    ensures var cuts := Cuts(s, open, |s|);
      && AfterLast(open + 1, cuts) <= |s| && |Arguments(s, open)| == |cuts|
      && Join(Arguments(s, open) + [s[AfterLast(open + 1, cuts)..]]) == s[open + 1..]
      && forall c: nat :: c in cuts <==> open < c < |s| && IsCut(s, open, c)
  {
    hide LexAt, FindClose, TopLevel, Join, Pieces, Ascending, Cuts;
    var cuts := Cuts(s, open, |s|);
    forall c: nat
      ensures c in cuts <==> open < c < |s| && IsCut(s, open, c)
    {
      CutsAreAllCuts(s, open, |s|, c);
    }
    CutsAscend(s, open, |s|);
    var rest := s[AfterLast(open + 1, cuts)..];
    if cuts == [] {
      OnePiece(rest);
    } else {
      var last := cuts[|cuts| - 1];
      assert last in cuts;
      forall k | 0 <= k < |cuts| - 1
        ensures cuts[k] < |s| && s[cuts[k]] == COMMA
      {
        assert cuts[k] in cuts;
      }
      JoinPieces(s, open + 1, cuts);
      JoinAppend(Pieces(s, open + 1, cuts), rest);
      SlicesTogether(s, open + 1, last, |s|);
      assert s[open + 1..] == s[open + 1..|s|] && rest == s[last + 1..|s|];
    }
  }

  /** The scan of a call stops just after its closing parenthesis, or at the end of the source. */
  lemma EndOfCallIff(s: seq<Byte>, open: nat, close: nat)
    requires open < close <= |s|
    requires forall j :: open < j < close ==> !IsClose(s, open, j)
    requires close < |s| ==> IsClose(s, open, close)
    ensures EndOfCall(s, open) == if close < |s| then close + 1 else |s|
  {
    hide IsClose;
    if close < |s| {
      assert FindClose(s, open, open + 1).None? || close < FindClose(s, open, open + 1).value ==> false by {
        if FindClose(s, open, open + 1).None? || close < FindClose(s, open, open + 1).value {
          CloseIsFirst(s, open, open + 1, close);
        }
      }
    }
  }

  // ---------------------------------------------------------------- scanning one call

  /** The lexer flags of the scanning loop, as a state. */
  function FlagsLex(lineComment: bool, blockComment: bool, delimiter: Option<Byte>, escaped: bool, nesting: nat): Lex {
    Lex(if lineComment then LineComment
        else if blockComment then BlockComment
        else if delimiter.Some? then Str(escaped)
        else Code, nesting)
  }

  /** One step of the scan keeps its results up to date. */
  ghost predicate Scanned(s: seq<Byte>, open: nat, index: nat, start: nat, arguments: seq<seq<Byte>>) {
    && open < index <= |s|
    && FindClose(s, open, open + 1) == FindClose(s, open, index)
    && Ascending(open + 1, Cuts(s, open, index), |s|)
    && arguments == Pieces(s, open + 1, Cuts(s, open, index))
    && start == AfterLast(open + 1, Cuts(s, open, index)) <= index
    && s[start - 1] < 0x80
  }

  lemma ScannedStart(s: seq<Byte>, open: nat)
    requires open < |s| && s[open] < 0x80
    ensures Scanned(s, open, open + 1, open + 1, [])
  {
    hide LexAt;
  }

  lemma ScannedPass(s: seq<Byte>, open: nat, index: nat, start: nat, arguments: seq<seq<Byte>>)
    requires Scanned(s, open, index, start, arguments) && index < |s|
    requires !IsCut(s, open, index) && !IsClose(s, open, index)
    ensures Scanned(s, open, index + 1, start, arguments)
  {
    hide LexAt, TopLevel;
    assert Cuts(s, open, index + 1) == Cuts(s, open, index);
  }

  lemma ScannedCut(s: seq<Byte>, open: nat, index: nat, start: nat, arguments: seq<seq<Byte>>)
    requires Scanned(s, open, index, start, arguments) && index < |s| && IsCut(s, open, index)
    ensures Scanned(s, open, index + 1, index + 1, arguments + [s[start..index]])
  {
    hide LexAt, TopLevel;
    PiecesAppend(s, open + 1, Cuts(s, open, index), index);
  }

  lemma ScannedClose(s: seq<Byte>, open: nat, index: nat, start: nat, arguments: seq<seq<Byte>>)
    requires Scanned(s, open, index, start, arguments) && index < |s| && IsClose(s, open, index)
    ensures Arguments(s, open) == arguments + [s[start..index]] && EndOfCall(s, open) == index + 1
  {
    hide LexAt, TopLevel;
    PiecesAppend(s, open + 1, Cuts(s, open, index), index);
  }

  lemma ScannedEnd(s: seq<Byte>, open: nat, start: nat, arguments: seq<seq<Byte>>)
    requires Scanned(s, open, |s|, start, arguments)
    ensures Arguments(s, open) == arguments && EndOfCall(s, open) == |s|
  {
    hide LexAt;
  }

  lemma SlicesAtBoundaries(s: seq<Byte>, start: nat, index: nat)
    requires IsText(s) && 0 < start <= index < |s| && s[start - 1] < 0x80 && s[index] < 0x80
    ensures Boundary(s, start) && Boundary(s, index)
  {
    hide IsText;
    AsciiEndsOnBoundary(s, start);
  }

  /** The inner loop. The program stores each argument trimmed of white space. */
  method ScanArguments(source: seq<Byte>, open: nat) returns (arguments: seq<seq<Byte>>, index: nat)
    requires IsText(source) && open < |source| && source[open] == OPEN_PAREN
    ensures arguments == Arguments(source, open) && index == EndOfCall(source, open)
    ensures forall k :: 0 <= k < |arguments| ==> IsText(arguments[k])
  {
    hide LexAt, IsText, Scanned;
    arguments := [];
    var argumentStart: nat := open + 1;
    var nesting: nat := 0;
    index := open + 1;
    var stringDelimiter: Option<Byte> := None;
    var escaped, lineComment, blockComment := false, false, false;
    ScannedStart(source, open);
    LexStart(source, open);
    while index < |source|
      invariant Scanned(source, open, index, argumentStart, arguments)
      invariant open < index <= |source| && open < argumentStart <= index && source[argumentStart - 1] < 0x80
      invariant LexAt(source, open, index) == FlagsLex(lineComment, blockComment, stringDelimiter, escaped, nesting)
      invariant !(lineComment && blockComment) && (stringDelimiter.Some? ==> !lineComment && !blockComment)
      invariant stringDelimiter.Some? ==> stringDelimiter == Some(QUOTE)
      invariant escaped ==> stringDelimiter.Some?
      invariant forall k :: 0 <= k < |arguments| ==> IsText(arguments[k])
      decreases |source| - index
    {
      var byte := source[index];
      var next := Peek(source, index + 1);
      LexStep(source, open, index);
      if lineComment {
        if byte == NEWLINE {
          lineComment := false;
        }
        ScannedPass(source, open, index, argumentStart, arguments);
        index := index + 1;
      } else if blockComment {
        ScannedPass(source, open, index, argumentStart, arguments);
        if byte == STAR && next == Some(SLASH) {
          blockComment := false;
          LexStep(source, open, index + 1);
          ScannedPass(source, open, index + 1, argumentStart, arguments);
          index := index + 2;
        } else {
          index := index + 1;
        }
      } else if stringDelimiter.Some? {
        if escaped {
          escaped := false;
        } else if byte == BACKSLASH {
          escaped := true;
        } else if byte == stringDelimiter.value {
          stringDelimiter := None;
        }
        ScannedPass(source, open, index, argumentStart, arguments);
        index := index + 1;
      } else if byte == SLASH && (next == Some(SLASH) || next == Some(STAR)) {
        lineComment, blockComment := next == Some(SLASH), next == Some(STAR);
        ScannedPass(source, open, index, argumentStart, arguments);
        LexStep(source, open, index + 1);
        ScannedPass(source, open, index + 1, argumentStart, arguments);
        index := index + 2;
      } else if byte == QUOTE {
        stringDelimiter := Some(byte);
        ScannedPass(source, open, index, argumentStart, arguments);
        index := index + 1;
      } else if byte == CLOSE_PAREN && nesting == 0 {
        SlicesAtBoundaries(source, argumentStart, index);
        ScannedClose(source, open, index, argumentStart, arguments);
        arguments := arguments + [Slice(source, argumentStart, index)];
        index := index + 1;
        return;
      } else if byte == COMMA && nesting == 0 {
        SlicesAtBoundaries(source, argumentStart, index);
        ScannedCut(source, open, index, argumentStart, arguments);
        arguments := arguments + [Slice(source, argumentStart, index)];
        argumentStart := index + 1;
        index := index + 1;
      } else {
        ScannedPass(source, open, index, argumentStart, arguments);
        if OpensBracket(byte) {
          nesting := nesting + 1;
        } else if ClosesBracket(byte) {
          nesting := if nesting == 0 then 0 else nesting - 1;
        }
        index := index + 1;
      }
    }
    ScannedEnd(source, open, argumentStart, arguments);
  }

  lemma LexStart(s: seq<Byte>, open: nat)
    requires open < |s|
    ensures LexAt(s, open, open + 1) == Lex(Code, 0)
  {
  }

  lemma LexStep(s: seq<Byte>, open: nat, i: nat)
    requires open < i < |s|
    ensures LexAt(s, open, i + 1) == Advance(LexAt(s, open, i), s[i], Peek(s, i + 1))
  {
  }

  // ---------------------------------------------------------------- what comments and strings are

  /** A line comment: from two slashes in code up to and including the first newline after them, nothing
      is code, and the nesting does not change. */
  lemma {:induction false} LineCommentIsSkipped(s: seq<Byte>, open: nat, i: nat, j: nat)
    requires open < i && i + 2 <= j <= |s| && LexAt(s, open, i).mode == Code
    requires s[i] == SLASH && s[i + 1] == SLASH && forall k :: i + 2 <= k < j ==> s[k] != NEWLINE
    ensures forall k :: i < k <= j ==> LexAt(s, open, k).mode != Code
    ensures LexAt(s, open, j) == Lex(LineComment, LexAt(s, open, i).nesting)
    ensures j < |s| && s[j] == NEWLINE ==> LexAt(s, open, j + 1) == LexAt(s, open, i)
    decreases j
  {
    hide LexAt;
    LexStep(s, open, i);
    LexStep(s, open, i + 1);
    if i + 2 < j {
      LineCommentIsSkipped(s, open, i, j - 1);
      LexStep(s, open, j - 1);
    }
    if j < |s| {
      LexStep(s, open, j);
    }
  }

  predicate StarSlash(s: seq<Byte>, k: nat) {
    k + 1 < |s| && s[k] == STAR && s[k + 1] == SLASH
  }

  /** A block comment: from a slash and a star in code up to and including the first star and slash after
      both; block comments do not nest. */
  lemma {:induction false} BlockCommentIsSkipped(s: seq<Byte>, open: nat, i: nat, j: nat)
    requires open < i && i + 2 <= j <= |s| && LexAt(s, open, i).mode == Code
    requires s[i] == SLASH && s[i + 1] == STAR && forall k :: i + 2 <= k < j ==> !StarSlash(s, k)
    ensures forall k :: i < k <= j ==> LexAt(s, open, k).mode != Code
    ensures LexAt(s, open, j) == Lex(BlockComment, LexAt(s, open, i).nesting)
    ensures StarSlash(s, j) ==> LexAt(s, open, j + 1).mode != Code && LexAt(s, open, j + 2) == LexAt(s, open, i)
    decreases j
  {
    hide LexAt;
    LexStep(s, open, i);
    LexStep(s, open, i + 1);
    if i + 2 < j {
      BlockCommentIsSkipped(s, open, i, j - 1);
      assert !StarSlash(s, j - 1);
      LexStep(s, open, j - 1);
    }
    if StarSlash(s, j) {
      LexStep(s, open, j);
      LexStep(s, open, j + 1);
    }
  }

  /** How many backslashes stand directly before `k`, back to `from`. */
  function Backslashes(s: seq<Byte>, from: nat, k: nat): nat
    requires k <= |s|
  {
    if k > from && s[k - 1] == BACKSLASH then Backslashes(s, from, k - 1) + 1 else 0
  }

  /** A quote that is not escaped, in the string opened at `i`: an even number of its backslashes stands
      before it. */
  predicate ClosesString(s: seq<Byte>, i: nat, k: nat)
    requires k < |s|
  {
    s[k] == QUOTE && Backslashes(s, i + 1, k) % 2 == 0
  }

  /** A string literal: from a quote in code up to and including the first quote after it that is not
      escaped. */
  lemma {:induction false} StringIsSkipped(s: seq<Byte>, open: nat, i: nat, j: nat)
    requires open < i < j <= |s| && LexAt(s, open, i).mode == Code
    requires s[i] == QUOTE && forall k :: i < k < j ==> !ClosesString(s, i, k)
    ensures forall k :: i < k <= j ==> LexAt(s, open, k).mode != Code
    ensures LexAt(s, open, j) == Lex(Str(Backslashes(s, i + 1, j) % 2 == 1), LexAt(s, open, i).nesting)
    ensures j < |s| && ClosesString(s, i, j) ==> LexAt(s, open, j + 1) == LexAt(s, open, i)
    decreases j
  {
    hide LexAt;
    LexStep(s, open, i);
    if i + 1 < j {
      StringIsSkipped(s, open, i, j - 1);
      assert !ClosesString(s, i, j - 1);
      LexStep(s, open, j - 1);
    }
    if j < |s| {
      LexStep(s, open, j);
    }
  }

  /** Any other byte of code: an opening bracket nests, a closing one ends the innermost bracket, whatever
      its kind, and the rest changes nothing. */
  lemma CodeByte(s: seq<Byte>, open: nat, i: nat)
    requires open < i < |s| && LexAt(s, open, i).mode == Code && s[i] != QUOTE
    requires !(s[i] == SLASH && i + 1 < |s| && s[i + 1] in {SLASH, STAR})
    ensures var n := LexAt(s, open, i).nesting;
      LexAt(s, open, i + 1) ==
        if s[i] in {40, 91, 123} then Lex(Code, n + 1)
        else if s[i] in {41, 93, 125} && n > 0 then Lex(Code, n - 1)
        else Lex(Code, n)
  {
    hide LexAt;
    LexStep(s, open, i);
  }

  // ---------------------------------------------------------------- finding the calls

  /** `source[from..].find(t)`, as an absolute index. */
  function FindText(s: seq<Byte>, t: seq<Byte>, from: nat): (found: Option<nat>)
    requires from <= |s|
    ensures found.Some? ==> from <= found.value && found.value + |t| <= |s|
    ensures found.Some? ==> s[found.value..found.value + |t|] == t
    decreases |s| - from
  {
    if from + |t| > |s| then None
    else if s[from..from + |t|] == t then Some(from)
    else if from == |s| then None
    else FindText(s, t, from + 1)
  }

  /** A reported call: where its callee starts, where its list opens and where the scan stops. */
  datatype Call = Call(start: nat, open: nat, end: nat)

  /** One turn of the outer loop: stop, go on from another place, or report a call. */
  datatype Turn = Stop | Skip(next: nat) | Take(call: Call)

  predicate SeparatorIn(s: seq<Byte>) {
    exists i :: 0 <= i < |s| && (s[i] == COMMA || s[i] == SEMICOLON)
  }

  function TurnAt(s: seq<Byte>, callee: seq<Byte>, from: nat): (turn: Turn)
    requires from <= |s|
    ensures turn.Skip? ==> from + |callee| <= turn.next <= |s|
    ensures turn.Take? ==>
      from <= turn.call.start && turn.call.start + |callee| <= turn.call.open < turn.call.end <= |s|
  {
    match FindText(s, callee, from)
    case None => Stop
    case Some(start) =>
      var after := start + |callee|;
      if (after < |s| && IdentifierByte(s[after])) || InLineComment(s, start) then Skip(after)
      else
        match FindByte(s, OPEN_PAREN, after)
        case None => Stop
        case Some(open) =>
          if SeparatorIn(s[after..open]) then Skip(after) else Take(Call(start, open, EndOfCall(s, open)))
  }

  /** The calls reported from `from` on. */
  function Calls(s: seq<Byte>, callee: seq<Byte>, from: nat): seq<Call>
    requires callee != [] && from <= |s|
    decreases |s| - from
  {
    match TurnAt(s, callee, from)
    case Stop => []
    case Skip(next) => Calls(s, callee, next)
    case Take(call) => [call] + Calls(s, callee, call.end)
  }

  datatype Reported = Reported(line: nat, arguments: seq<seq<Byte>>)

  ghost predicate Reports(s: seq<Byte>, calls: seq<Call>, reported: seq<Reported>) {
    && |reported| == |calls|
    && forall k :: 0 <= k < |calls| ==>
         && calls[k].start <= |s| && calls[k].open < |s|
         && reported[k] == Reported(1 + Newlines(s[..calls[k].start]), Arguments(s, calls[k].open))
  }

  lemma ReportsAppend(s: seq<Byte>, calls: seq<Call>, reported: seq<Reported>, call: Call)
    requires Reports(s, calls, reported) && call.start <= |s| && call.open < |s|
    ensures Reports(s, calls + [call], reported + [Reported(1 + Newlines(s[..call.start]), Arguments(s, call.open))])
  {
    hide Arguments, Newlines;
  }

  lemma CallsStep(s: seq<Byte>, callee: seq<Byte>, from: nat)
    requires callee != [] && from <= |s|
    ensures Calls(s, callee, from) == match TurnAt(s, callee, from)
                                      case Stop => []
                                      case Skip(next) => Calls(s, callee, next)
                                      case Take(call) => [call] + Calls(s, callee, call.end)
  {
    hide TurnAt;
  }

  /** The outer loop. Every slice it takes is between character boundaries, and it terminates for
      every callee that is not empty. */
  method CallArguments(source: seq<Byte>, callee: seq<Byte>) returns (reported: seq<Reported>)
    requires IsText(source) && IsText(callee) && callee != []
    ensures Reports(source, Calls(source, callee, 0), reported)
  {
    hide TurnAt, Calls, IsText, Arguments, Newlines;
    reported := [];
    ghost var calls: seq<Call> := [];
    var searchStart: nat := 0;
    AsciiEndsOnBoundary(source, 0);
    while true
      invariant searchStart <= |source| && Boundary(source, searchStart)
      invariant Reports(source, calls, reported)
      invariant Calls(source, callee, 0) == calls + Calls(source, callee, searchStart)
      decreases |source| - searchStart
    {
      var turn := TakeTurn(source, callee, searchStart);
      CallsStep(source, callee, searchStart);
      match turn {
        case Stop =>
          assert calls + [] == calls;
          return;
        case Skip(next) =>
          searchStart := next;
        case Take(call) =>
          var arguments, index := ScanArguments(source, call.open);
          EndOnBoundary(source, call.open);
          var line := 1 + Newlines(source[..call.start]);
          ReportsAppend(source, calls, reported, call);
          reported := reported + [Reported(line, arguments)];
          ghost var rest := Calls(source, callee, call.end);
          assert calls + ([call] + rest) == (calls + [call]) + rest;
          calls := calls + [call];
          searchStart := index;
      }
    }
  }

  /** One turn, with the slices the program takes. */
  method TakeTurn(source: seq<Byte>, callee: seq<Byte>, searchStart: nat) returns (turn: Turn)
    requires IsText(source) && IsText(callee) && callee != []
    requires searchStart <= |source| && Boundary(source, searchStart)
    ensures turn == TurnAt(source, callee, searchStart)
    ensures turn.Skip? ==> Boundary(source, turn.next)
    ensures turn.Take? ==> source[turn.call.open] == OPEN_PAREN && turn.call.end == EndOfCall(source, turn.call.open)
  {
    hide IsText, EndOfCall, HasLineComment, FindText, FindByte;
    var found := FindText(source, callee, searchStart);
    if found.None? {
      return Stop;
    }
    var callStart := found.value;
    var afterCallee := callStart + |callee|;
    MatchEndsOnBoundary(source, callee, callStart);
    if afterCallee < |source| && IdentifierByte(source[afterCallee]) {
      return Skip(afterCallee);
    }
    AsciiEndsOnBoundary(source, LineStart(source, callStart));
    if HasLineComment(Slice(source, LineStart(source, callStart), callStart)) {
      return Skip(afterCallee);
    }
    var open := FindByte(source, OPEN_PAREN, afterCallee);
    if open.None? {
      return Stop;
    }
    if SeparatorIn(Slice(source, afterCallee, open.value)) {
      return Skip(afterCallee);
    }
    turn := Take(Call(callStart, open.value, EndOfCall(source, open.value)));
  }

  lemma EndOnBoundary(s: seq<Byte>, open: nat)
    requires IsText(s) && open < |s|
    ensures Boundary(s, EndOfCall(s, open))
  {
    hide IsText, LexAt;
    if FindClose(s, open, open + 1).Some? {
      AsciiEndsOnBoundary(s, EndOfCall(s, open));
    }
  }

  // ---------------------------------------------------------------- what the calls are

  /** Calls at or after `from`, in order, each ending before the next begins. */
  ghost predicate Disjoint(s: seq<Byte>, callee: seq<Byte>, from: nat, calls: seq<Call>) {
    && (forall k :: 0 <= k < |calls| ==>
          && from <= calls[k].start < calls[k].open < calls[k].end <= |s|
          && calls[k].start + |callee| <= calls[k].open
          && s[calls[k].start..calls[k].start + |callee|] == callee)
    && (forall j, k :: 0 <= j < k < |calls| ==> calls[j].end <= calls[k].start)
  }

  lemma DisjointCons(s: seq<Byte>, callee: seq<Byte>, from: nat, call: Call, rest: seq<Call>)
    requires from <= call.start < call.open < call.end <= |s| && callee != []
    requires call.start + |callee| <= call.open && s[call.start..call.start + |callee|] == callee
    requires Disjoint(s, callee, call.end, rest)
    ensures Disjoint(s, callee, from, [call] + rest)
  {
  }

  /** The reported calls are calls of the callee, disjoint and in the order of the source. */
  lemma {:induction false} CallsAreDisjoint(s: seq<Byte>, callee: seq<Byte>, from: nat)
    requires callee != [] && from <= |s|
    ensures Disjoint(s, callee, from, Calls(s, callee, from))
    decreases |s| - from
  {
    hide Calls, Disjoint, EndOfCall, HasLineComment, FindText, FindByte, LineStart;
    CallsStep(s, callee, from);
    match TurnAt(s, callee, from)
    case Stop => NoCallsDisjoint(s, callee, from);
    case Skip(next) =>
      CallsAreDisjoint(s, callee, next);
      DisjointEarlier(s, callee, from, next, Calls(s, callee, next));
    case Take(call) =>
      CallsAreDisjoint(s, callee, call.end);
      DisjointCons(s, callee, from, call, Calls(s, callee, call.end));
  }

  lemma NoCallsDisjoint(s: seq<Byte>, callee: seq<Byte>, from: nat)
    ensures Disjoint(s, callee, from, [])
  {
  }

  lemma DisjointEarlier(s: seq<Byte>, callee: seq<Byte>, from: nat, later: nat, calls: seq<Call>)
    requires from <= later && Disjoint(s, callee, later, calls)
    ensures Disjoint(s, callee, from, calls)
  {
  }

  predicate Occurs(s: seq<Byte>, callee: seq<Byte>, p: nat) {
    p + |callee| <= |s| && s[p..p + |callee|] == callee
  }

  lemma {:induction false} FindTextIsFirst(s: seq<Byte>, t: seq<Byte>, from: nat)
    requires from <= |s|
    ensures FindText(s, t, from).Some? ==> Occurs(s, t, FindText(s, t, from).value)
    ensures forall p :: from <= p < (if FindText(s, t, from).Some? then FindText(s, t, from).value else |s| + 1) ==>
              !Occurs(s, t, p)
    decreases |s| - from
  {
    if from + |t| <= |s| && s[from..from + |t|] != t && from < |s| {
      FindTextIsFirst(s, t, from + 1);
    }
  }

  /** The callee at `p` is called, with its argument list opened at `open`: it is no part of a longer name
      and not commented out, and `open` is the first parenthesis after it, no comma or semicolon between. */
  predicate CalledAt(s: seq<Byte>, callee: seq<Byte>, p: nat, open: nat) {
    var after := p + |callee|;
    && Occurs(s, callee, p) && after <= open < |s|
    && !IdentifierByte(s[after]) && !InLineComment(s, p)
    && s[open] == OPEN_PAREN && forall i :: after <= i < open ==> s[i] !in {OPEN_PAREN, COMMA, SEMICOLON}
  }

  /** Where the search goes on after an occurrence of the callee. */
  function SearchedTo(s: seq<Byte>, callee: seq<Byte>, p: nat): nat
    requires Occurs(s, callee, p)
  {
    var open := FindByte(s, OPEN_PAREN, p + |callee|);
    if open.Some? && CalledAt(s, callee, p, open.value) then EndOfCall(s, open.value) else p + |callee|
  }

  /** The occurrence at `p` is not part of an earlier one, nor in the arguments of an earlier call, that is
      itself reached. */
  predicate Reached(s: seq<Byte>, callee: seq<Byte>, p: nat)
    decreases p
  {
    && Occurs(s, callee, p)
    && forall b :: 0 <= b < p && Reached(s, callee, b) ==> SearchedTo(s, callee, b) <= p
  }

  ghost predicate Clear(s: seq<Byte>, callee: seq<Byte>, from: nat) {
    forall b :: 0 <= b < from && Reached(s, callee, b) ==> SearchedTo(s, callee, b) <= from
  }

  lemma CalledAtIff(s: seq<Byte>, callee: seq<Byte>, p: nat, open: nat)
    requires callee != [] && Occurs(s, callee, p)
    ensures CalledAt(s, callee, p, open) <==>
      && !(p + |callee| < |s| && IdentifierByte(s[p + |callee|])) && !InLineComment(s, p)
      && FindByte(s, OPEN_PAREN, p + |callee|) == Some(open) && !SeparatorIn(s[p + |callee|..open])
  {
    hide HasLineComment, LineStart, FindByte, IdentifierByte;
    var after := p + |callee|;
    FindByteIsFirst(s, OPEN_PAREN, after);
    if after <= open < |s| {
      var between := s[after..open];
      assert forall i :: after <= i < open ==> s[i] == between[i - after];
      assert forall i :: 0 <= i < |between| ==> between[i] == s[after + i];
    }
  }

  /** What one turn makes of the first occurrence. */
  lemma TurnIs(s: seq<Byte>, callee: seq<Byte>, from: nat, p: nat)
    requires callee != [] && from <= |s| && FindText(s, callee, from) == Some(p)
    ensures Occurs(s, callee, p)
    ensures var open := FindByte(s, OPEN_PAREN, p + |callee|);
      TurnAt(s, callee, from) ==
        if open.Some? && CalledAt(s, callee, p, open.value) then Take(Call(p, open.value, SearchedTo(s, callee, p)))
        else if open.None? && TurnAt(s, callee, from).Stop? then Stop
        else Skip(SearchedTo(s, callee, p))
  {
    hide InLineComment, FindByte, FindText, EndOfCall, CalledAt, SeparatorIn, IdentifierByte;
    var open := FindByte(s, OPEN_PAREN, p + |callee|);
    if open.Some? {
      CalledAtIff(s, callee, p, open.value);
    }
  }

  lemma ClearStep(s: seq<Byte>, callee: seq<Byte>, from: nat, p: nat)
    requires callee != [] && from <= |s| && FindText(s, callee, from) == Some(p) && Clear(s, callee, from)
    ensures from <= p && Reached(s, callee, p) && Clear(s, callee, SearchedTo(s, callee, p))
    ensures p < SearchedTo(s, callee, p) <= |s|
  {
    hide FindText, EndOfCall, CalledAt, FindByte, SearchedTo;
    FindTextIsFirst(s, callee, from);
    SearchedToIsLater(s, callee, p);
    assert forall b :: from <= b < p ==> !Occurs(s, callee, b);
    forall b | 0 <= b < SearchedTo(s, callee, p) && Reached(s, callee, b)
      ensures SearchedTo(s, callee, b) <= SearchedTo(s, callee, p)
    {
      if b > p {
        NotReachedInside(s, callee, p, b);
      }
    }
  }

  lemma NotReachedInside(s: seq<Byte>, callee: seq<Byte>, b: nat, p: nat)
    requires Reached(s, callee, b) && Reached(s, callee, p) && b < p
    ensures SearchedTo(s, callee, b) <= p
  {
    hide SearchedTo, Occurs;
  }

  lemma SearchedToIsLater(s: seq<Byte>, callee: seq<Byte>, p: nat)
    requires callee != [] && Occurs(s, callee, p)
    ensures p < SearchedTo(s, callee, p) <= |s|
  {
    hide EndOfCall;
  }

  lemma {:induction false} ReportedFromIff(s: seq<Byte>, callee: seq<Byte>, from: nat, p: nat, open: nat)
    requires callee != [] && from <= p <= |s| && Clear(s, callee, from) && open < |s|
    ensures Call(p, open, EndOfCall(s, open)) in Calls(s, callee, from)
            <==> Reached(s, callee, p) && CalledAt(s, callee, p, open)
    decreases p - from
  {
    hide Calls, Disjoint, Reached, Clear, CalledAt, EndOfCall, FindText, FindByte, SearchedTo;
    var call := Call(p, open, EndOfCall(s, open));
    var found := FindText(s, callee, from);
    FindTextIsFirst(s, callee, from);
    CallsStep(s, callee, from);
    ReachedOccurs(s, callee, p, open);
    if found.None? {
      assert TurnAt(s, callee, from).Stop?;
    } else {
      var start := found.value;
      TurnIs(s, callee, from, start);
      ClearStep(s, callee, from, start);
      var next := SearchedTo(s, callee, start);
      if start <= p {
        NotCalledBefore(s, callee, start, p, open);
      }
      if p < next {
        CallsStartLater(s, callee, next, call);
      }
      if TurnAt(s, callee, from).Take? {
        assert TurnAt(s, callee, from).call.end == next;
      }
      if start < p && next <= p && !TurnAt(s, callee, from).Stop? {
        ReportedFromIff(s, callee, next, p, open);
      }
    }
  }

  lemma ReachedOccurs(s: seq<Byte>, callee: seq<Byte>, p: nat, open: nat)
    ensures CalledAt(s, callee, p, open) ==> Occurs(s, callee, p)
  {
  }

  /** The only call that an occurrence makes is the one whose list opens at the first parenthesis; without
      one there is no call later either; and what the search has passed is not reached. */
  lemma NotCalledBefore(s: seq<Byte>, callee: seq<Byte>, start: nat, p: nat, open: nat)
    requires callee != [] && Occurs(s, callee, start) && Reached(s, callee, start) && start <= p
    ensures FindByte(s, OPEN_PAREN, start + |callee|).None? ==> !CalledAt(s, callee, p, open)
    ensures CalledAt(s, callee, start, open) ==> FindByte(s, OPEN_PAREN, start + |callee|) == Some(open)
    ensures start < p < SearchedTo(s, callee, start) ==> !Reached(s, callee, p)
  {
    hide EndOfCall, FindByte, SearchedTo, IdentifierByte, InLineComment, Reached;
    FindByteIsFirst(s, OPEN_PAREN, start + |callee|);
    if start < p && Reached(s, callee, p) {
      NotReachedInside(s, callee, start, p);
    }
  }

  lemma CallsStartLater(s: seq<Byte>, callee: seq<Byte>, from: nat, call: Call)
    requires callee != [] && from <= |s| && call.start < from
    ensures call !in Calls(s, callee, from)
  {
    hide Calls, EndOfCall;
    CallsAreDisjoint(s, callee, from);
  }

  lemma {:induction false} ReportedCallsEnd(s: seq<Byte>, callee: seq<Byte>, from: nat, call: Call)
    requires callee != [] && from <= |s| && call in Calls(s, callee, from)
    ensures call.start <= |s| && call.open < |s| && call.end == EndOfCall(s, call.open)
    decreases |s| - from
  {
    hide Calls, EndOfCall, HasLineComment, FindText, FindByte, LineStart;
    CallsStep(s, callee, from);
    match TurnAt(s, callee, from)
    case Stop =>
    case Skip(next) => ReportedCallsEnd(s, callee, next, call);
    case Take(first) =>
      if call != first {
        ReportedCallsEnd(s, callee, first.end, call);
      }
  }

  /** Which calls are reported of the whole source: each occurrence of the callee that is called and that
      no reached occurrence before it covers, with its argument list, and no others. */
  lemma CallIsReportedIff(s: seq<Byte>, callee: seq<Byte>, call: Call)
    requires callee != []
    ensures call in Calls(s, callee, 0) <==>
      && CalledAt(s, callee, call.start, call.open) && call.end == EndOfCall(s, call.open)
      && forall b :: 0 <= b < call.start && Reached(s, callee, b) ==> SearchedTo(s, callee, b) <= call.start
  {
    hide Calls, CalledAt, EndOfCall;
    if call in Calls(s, callee, 0) {
      ReportedCallsEnd(s, callee, 0, call);
    }
    ReachedOccurs(s, callee, call.start, call.open);
    if call.start <= |s| && call.open < |s| {
      ReportedFromIff(s, callee, 0, call.start, call.open);
    }
  }

  /** A turn that skips makes progress exactly when the callee is not empty. */
  lemma SkipAdvancesIff(s: seq<Byte>, callee: seq<Byte>, from: nat)
    requires from <= |s| && TurnAt(s, callee, from).Skip?
    ensures TurnAt(s, callee, from).next > from <==> callee != []
  {
    hide HasLineComment, LineStart;
    if callee == [] {
      assert s[from..from + |callee|] == callee;
    }
  }

  /** With an empty callee the outer loop can stand still for ever. */
  lemma EmptyCalleeCanStandStill()
    ensures TurnAt([97], [], 0) == Skip(0)
  {
    var s: seq<Byte> := [97];
    assert s[0..0] == [];
    assert FindText([97], [], 0) == Some(0);
  }
}
