/** `literal_translation_keys`: the string literals passed to the translation macros, each with
    its line number. */
module KeyScanner {
  import opened Options
  import opened Utf8
  import opened ByteScan

  const BANG: Byte := 33
  const T: seq<Byte> := [116]
  const T_STATIC: seq<Byte> := [116, 95, 115, 116, 97, 116, 105, 99]

  datatype Key = Key(line: nat, text: seq<Byte>)

  // ---------------------------------------------------------------- what is at one `!`

  /** The start of the identifier that ends at `bang`. */
  function IdentifierStart(s: seq<Byte>, bang: nat): (start: nat)
    requires bang <= |s|
    ensures start <= bang
    ensures start > 0 ==> !IdentifierByte(s[start - 1])
  {
    if bang > 0 && IdentifierByte(s[bang - 1]) then IdentifierStart(s, bang - 1) else bang
  }

  lemma {:induction false} IdentifierStartsWith(s: seq<Byte>, bang: nat, i: nat)
    requires bang <= |s| && IdentifierStart(s, bang) <= i < bang
    ensures IdentifierByte(s[i])
  {
    if i < bang - 1 {
      IdentifierStartsWith(s, bang - 1, i);
    }
  }

  function SkipWhitespace(s: seq<Byte>, i: nat): (j: nat)
    ensures i <= j && (i <= |s| ==> j <= |s|)
    decreases |s| - i
  {
    if i < |s| && AsciiWhitespace(s[i]) then SkipWhitespace(s, i + 1) else i
  }

  predicate KeyByte(b: Byte) {
    97 <= b <= 122 || 48 <= b <= 57 || b == 45
  }

  predicate KeyText(t: seq<Byte>) {
    forall i :: 0 <= i < |t| ==> KeyByte(t[i])
  }

  /** What the scanner makes of one `!`: no literal call, a call whose literal never ends, or a
      call whose identifier starts at `start` and whose literal is `open..close`. */
  datatype Attempt = Miss | Unterminated | Literal(start: nat, open: nat, close: nat)

  function AttemptAt(s: seq<Byte>, bang: nat): (a: Attempt)
    requires bang < |s|
    ensures a.Literal? ==> a.start == IdentifierStart(s, bang) && bang < a.open <= a.close < |s|
    ensures a.Literal? ==> s[a.close] == QUOTE && s[a.open - 1] == QUOTE
  {
    var start := IdentifierStart(s, bang);
    if !LiveMacroName(s, start, bang) then Miss else LiteralAfter(s, start, bang)
  }

  /** One of the macro names, not commented out. */
  predicate LiveMacroName(s: seq<Byte>, start: nat, bang: nat)
    requires start <= bang <= |s|
  {
    (s[start..bang] == T || s[start..bang] == T_STATIC) && !InLineComment(s, start)
  }

  /** The literal that opens the argument list after `bang`. */
  function LiteralAfter(s: seq<Byte>, start: nat, bang: nat): (a: Attempt)
    requires bang < |s|
    ensures a.Literal? ==> a.start == start && bang < a.open <= a.close < |s|
    ensures a.Literal? ==> s[a.close] == QUOTE && s[a.open - 1] == QUOTE
  {
    var paren := SkipWhitespace(s, bang + 1);
    if paren >= |s| || s[paren] != OPEN_PAREN then Miss
    else
      var quote := SkipWhitespace(s, paren + 1);
      if quote >= |s| || s[quote] != QUOTE then Miss
      else
        match FindByte(s, QUOTE, quote + 1)
        case None => Unterminated
        case Some(close) => Literal(start, quote + 1, close)
  }

  // ---------------------------------------------------------------- the whole source

  /** A reported key, with the position of its macro identifier and where its literal ends. */
  datatype Found = Found(start: nat, close: nat, text: seq<Byte>)

  /** The keys reported from resume point `index` on. */
  function KeysFrom(s: seq<Byte>, index: nat): seq<Found>
    requires index <= |s|
    decreases |s| - index
  {
    match FindByte(s, BANG, index)
    case None => []
    case Some(bang) =>
      match AttemptAt(s, bang)
      case Miss => KeysFrom(s, bang + 1)
      case Unterminated => []
      case Literal(start, open, close) => ReportLiteral(s, start, open, close) + KeysFrom(s, close + 1)
  }

  /** A literal is reported when it has the form of a key. */
  function ReportLiteral(s: seq<Byte>, start: nat, open: nat, close: nat): seq<Found>
    requires open <= close <= |s|
  {
    if KeyText(s[open..close]) then [Found(start, close, s[open..close])] else []
  }

  /** The line of a position, counted from the start of the source. */
  function LineOf(s: seq<Byte>, p: nat): nat
    requires p <= |s|
  {
    1 + Newlines(s[..p])
  }

  /** The keys as they are reported, each with the absolute line of its macro identifier. */
  ghost predicate Reports(s: seq<Byte>, found: seq<Found>, keys: seq<Key>) {
    && |keys| == |found|
    && forall k :: 0 <= k < |keys| ==>
         found[k].start <= |s| && keys[k] == Key(LineOf(s, found[k].start), found[k].text)
  }

  /** A resume point: the start, or just after a `!` or a `"`. */
  predicate ResumePoint(s: seq<Byte>, index: nat) {
    index <= |s| && (index > 0 ==> s[index - 1] == BANG || s[index - 1] == QUOTE)
  }

  /** The backward identifier scan never crosses the resume point before it. */
  lemma IdentifierAfterResumePoint(s: seq<Byte>, index: nat, bang: nat)
    requires ResumePoint(s, index) && index <= bang < |s|
    ensures index <= IdentifierStart(s, bang)
  {
    if index > 0 {
      assert !IdentifierByte(s[index - 1]);
    }
  }

  /** The scanner's progress: what is reported so far and what is still to come, and the line of
      the last place counted to. */
  ghost predicate Progress(s: seq<Byte>, index: nat, counted: nat, line: nat, found: seq<Found>, keys: seq<Key>) {
    && ResumePoint(s, index) && counted <= index && Boundary(s, counted)
    && line == LineOf(s, counted)
    && Reports(s, found, keys)
    && KeysFrom(s, 0) == found + KeysFrom(s, index)
  }

  lemma ProgressAtStart(s: seq<Byte>)
    requires IsText(s)
    ensures Progress(s, 0, 0, 1, [], [])
  {
    hide KeysFrom;
    AsciiEndsOnBoundary(s, 0);
    assert s[..0] == [];
  }

  /** Nothing is reported up to the new resume point. */
  lemma PassOver(s: seq<Byte>, index: nat, counted: nat, line: nat, found: seq<Found>, keys: seq<Key>, index': nat)
    requires Progress(s, index, counted, line, found, keys)
    requires index <= index' && ResumePoint(s, index') && KeysFrom(s, index) == KeysFrom(s, index')
    ensures Progress(s, index', counted, line, found, keys)
  {
    hide KeysFrom, Newlines;
  }

  /** One key is reported: counting on from the last place gives its absolute line. */
  lemma ReportOne(s: seq<Byte>, index: nat, counted: nat, line: nat, found: seq<Found>, keys: seq<Key>,
                  f: Found, index': nat)
    requires Progress(s, index, counted, line, found, keys)
    requires index <= f.start <= index' && ResumePoint(s, index') && Boundary(s, f.start)
    requires KeysFrom(s, index) == [f] + KeysFrom(s, index')
    ensures var line' := line + Newlines(s[counted..f.start]);
      Progress(s, index', f.start, line', found + [f], keys + [Key(line', f.text)])
  {
    hide KeysFrom;
    NewlinesSplit(s, counted, f.start);
    assert found + ([f] + KeysFrom(s, index')) == (found + [f]) + KeysFrom(s, index');
    ReportsAppend(s, found, keys, f);
  }

  lemma ReportsAppend(s: seq<Byte>, found: seq<Found>, keys: seq<Key>, f: Found)
    requires Reports(s, found, keys) && f.start <= |s|
    ensures Reports(s, found + [f], keys + [Key(LineOf(s, f.start), f.text)])
  {
  }

  lemma KeysEnd(s: seq<Byte>, index: nat)
    requires index <= |s| && FindByte(s, BANG, index) == None
    ensures KeysFrom(s, index) == [] && forall found: seq<Found> :: found + [] == found
  {
  }

  lemma KeysStep(s: seq<Byte>, index: nat, bang: nat)
    requires index <= |s| && FindByte(s, BANG, index) == Some(bang)
    ensures KeysFrom(s, index) == KeysAfter(s, AttemptAt(s, bang), bang)
  {
    hide AttemptAt, FindByte, IdentifierStart, ReportLiteral;
  }

  /** What an attempt at `bang` reports, and the keys from where the scan goes on. */
  function KeysAfter(s: seq<Byte>, a: Attempt, bang: nat): seq<Found>
    requires bang < |s| && (a.Literal? ==> a.open <= a.close < |s|)
  {
    match a
    case Miss => KeysFrom(s, bang + 1)
    case Unterminated => []
    case Literal(start, open, close) => ReportLiteral(s, start, open, close) + KeysFrom(s, close + 1)
  }

  /** The scanner, counting only the newlines since the last reported key. Every slice it takes is
      in range and between character boundaries. */
  method LiteralTranslationKeys(source: seq<Byte>) returns (keys: seq<Key>)
    requires IsText(source)
    ensures Reports(source, KeysFrom(source, 0), keys)
    ensures forall k :: 0 <= k < |keys| ==> IsText(keys[k].text)
  {
    hide AttemptAt, KeysFrom, Newlines, IsText, InLineComment, IdentifierStart;
    keys := [];
    ghost var found: seq<Found> := [];
    var index: nat, lineScanStart: nat, line: nat := 0, 0, 1;
    ProgressAtStart(source);
    var next := FindByte(source, BANG, index);
    while next.Some?
      invariant index <= |source| && next == FindByte(source, BANG, index)
      invariant Progress(source, index, lineScanStart, line, found, keys)
      invariant forall k :: 0 <= k < |keys| ==> IsText(keys[k].text)
      decreases |source| - index
    {
      var bang := next.value;
      var attempt := TryMacro(source, bang);
      KeysStep(source, index, bang);
      match attempt {
        case Miss =>
          PassOver(source, index, lineScanStart, line, found, keys, bang + 1);
          index := bang + 1;
        case Unterminated =>
          assert found + [] == found;
          return;
        case Literal(identifierStart, open, close) =>
          IdentifierAfterResumePoint(source, index, bang);
          IdentifierBoundaries(source, bang);
          LiteralBoundaries(source, open, close);
          var text := Slice(source, open, close);
          if KeyText(text) {
            ghost var f := Found(identifierStart, close, text);
            ReportOne(source, index, lineScanStart, line, found, keys, f, close + 1);
            line := line + Newlines(Slice(source, lineScanStart, identifierStart));
            lineScanStart := identifierStart;
            keys := keys + [Key(line, text)];
            found := found + [f];
          } else {
            PassOver(source, index, lineScanStart, line, found, keys, close + 1);
          }
          index := close + 1;
      }
      next := FindByte(source, BANG, index);
    }
    KeysEnd(source, index);
  }

  /** What the scanner makes of the `!` at `bang`. */
  method TryMacro(source: seq<Byte>, bang: nat) returns (attempt: Attempt)
    requires IsText(source) && bang < |source| && source[bang] == BANG
    ensures attempt == AttemptAt(source, bang)
  {
    var identifierStart := FindIdentifierStart(source, bang);
    IdentifierBoundaries(source, bang);
    var identifier := Slice(source, identifierStart, bang);
    if !(identifier == T || identifier == T_STATIC) || CommentedOut(source, identifierStart) {
      assert !LiveMacroName(source, identifierStart, bang);
      return Miss;
    }
    attempt := TryLiteral(source, identifierStart, bang);
  }

  method TryLiteral(source: seq<Byte>, identifierStart: nat, bang: nat) returns (attempt: Attempt)
    requires bang < |source|
    ensures attempt == LiteralAfter(source, identifierStart, bang)
  {
    var cursor := SkipSpaces(source, bang + 1);
    if cursor >= |source| || source[cursor] != OPEN_PAREN {
      return Miss;
    }
    cursor := SkipSpaces(source, cursor + 1);
    if cursor >= |source| || source[cursor] != QUOTE {
      return Miss;
    }
    var end := FindByte(source, QUOTE, cursor + 1);
    attempt := if end.None? then Unterminated else Literal(identifierStart, cursor + 1, end.value);
  }

  method FindIdentifierStart(source: seq<Byte>, bang: nat) returns (start: nat)
    requires bang <= |source|
    ensures start == IdentifierStart(source, bang)
  {
    start := bang;
    while start > 0 && IdentifierByte(source[start - 1])
      invariant start <= bang
      invariant IdentifierStart(source, bang) == IdentifierStart(source, start)
    {
      start := start - 1;
    }
  }

  method SkipSpaces(source: seq<Byte>, from: nat) returns (cursor: nat)
    requires from <= |source|
    ensures cursor == SkipWhitespace(source, from)
  {
    cursor := from;
    while cursor < |source| && AsciiWhitespace(source[cursor])
      invariant from <= cursor <= |source|
      invariant SkipWhitespace(source, from) == SkipWhitespace(source, cursor)
    {
      cursor := cursor + 1;
    }
  }

  /** The line of `p`, up to `p`, sliced and searched for a line comment. */
  function CommentedOut(source: seq<Byte>, p: nat): (commented: bool)
    requires IsText(source) && p <= |source| && Boundary(source, p)
    ensures commented == InLineComment(source, p)
  {
    AsciiEndsOnBoundary(source, LineStart(source, p));
    HasLineComment(Slice(source, LineStart(source, p), p))
  }

  lemma IdentifierBoundaries(source: seq<Byte>, bang: nat)
    requires IsText(source) && bang < |source| && source[bang] == BANG
    ensures Boundary(source, bang) && Boundary(source, IdentifierStart(source, bang))
  {
    var start := IdentifierStart(source, bang);
    if start < bang {
      IdentifierStartsWith(source, bang, start);
    }
  }

  lemma LiteralBoundaries(source: seq<Byte>, open: nat, close: nat)
    requires IsText(source) && 0 < open <= close < |source| && source[open - 1] == QUOTE && source[close] == QUOTE
    ensures Boundary(source, open) && Boundary(source, close)
  {
    AsciiEndsOnBoundary(source, open);
  }

  // ---------------------------------------------------------------- what the keys are

  /** The `!` at `bang` belongs to a live macro call whose literal is the reported key `f`. */
  predicate CallAt(s: seq<Byte>, bang: nat, f: Found) {
    && bang < |s| && s[bang] == BANG
    && var a := AttemptAt(s, bang);
      a.Literal? && f == Found(a.start, a.close, s[a.open..a.close]) && KeyText(f.text)
  }

  ghost predicate CallsMacro(s: seq<Byte>, f: Found) {
    exists bang: nat :: CallAt(s, bang, f)
  }

  /** Keys that are live macro calls at or after `index`, in order, none inside another's literal. */
  ghost predicate InOrder(s: seq<Byte>, index: nat, found: seq<Found>) {
    && (forall k :: 0 <= k < |found| ==> CallsMacro(s, found[k]) && index <= found[k].start)
    && (forall j, k :: 0 <= j < k < |found| ==> found[j].close < found[k].start)
  }

  lemma InOrderCons(s: seq<Byte>, index: nat, f: Found, rest: seq<Found>)
    requires CallsMacro(s, f) && index <= f.start <= f.close && InOrder(s, f.close + 1, rest)
    ensures InOrder(s, index, [f] + rest)
  {
    hide CallsMacro;
  }

  lemma InOrderEarlier(s: seq<Byte>, index: nat, later: nat, found: seq<Found>)
    requires index <= later && InOrder(s, later, found)
    ensures InOrder(s, index, found)
  {
    hide CallsMacro;
  }

  /** Every reported key is the literal argument of a translation macro that is not commented out,
      and the keys come in the order of the source, none inside another's literal. */
  lemma {:induction false} KeysAreLiteralCalls(s: seq<Byte>, index: nat)
    requires ResumePoint(s, index)
    ensures InOrder(s, index, KeysFrom(s, index))
    decreases |s| - index
  {
    hide AttemptAt, InOrder, CallsMacro, CallAt, KeysFrom;
    var next := FindByte(s, BANG, index);
    if next.None? {
      KeysEnd(s, index);
      NothingInOrder(s, index);
    } else {
      var bang := next.value;
      KeysStep(s, index, bang);
      IdentifierAfterResumePoint(s, index, bang);
      match AttemptAt(s, bang)
      case Miss =>
        KeysAreLiteralCalls(s, bang + 1);
        InOrderEarlier(s, index, bang + 1, KeysFrom(s, bang + 1));
      case Unterminated =>
        NothingInOrder(s, index);
      case Literal(start, open, close) =>
        KeysAreLiteralCalls(s, close + 1);
        var rest := KeysFrom(s, close + 1);
        if KeyText(s[open..close]) {
          var f := Found(start, close, s[open..close]);
          ReportedIsCall(s, bang, f);
          InOrderCons(s, index, f, rest);
        } else {
          InOrderEarlier(s, index, close + 1, rest);
          assert [] + rest == rest;
        }
    }
  }

  lemma NothingInOrder(s: seq<Byte>, index: nat)
    ensures InOrder(s, index, [])
  {
  }

  lemma ReportedIsCall(s: seq<Byte>, bang: nat, f: Found)
    requires bang < |s| && s[bang] == BANG
    requires AttemptAt(s, bang).Literal?
    requires var a := AttemptAt(s, bang); f == Found(a.start, a.close, s[a.open..a.close]) && KeyText(f.text)
    ensures CallsMacro(s, f)
  {
    hide AttemptAt;
    assert CallAt(s, bang, f);
  }

  /** The literal of the call at `b` reaches past `bang`, or never ends. */
  predicate Swallows(s: seq<Byte>, b: nat, bang: nat)
    requires b < |s|
  {
    b < bang && (AttemptAt(s, b).Unterminated? || (AttemptAt(s, b).Literal? && bang <= AttemptAt(s, b).close))
  }

  /** The `!` at `bang` is not swallowed by one before it that is not swallowed itself. */
  predicate Reached(s: seq<Byte>, bang: nat)
    requires bang < |s|
    decreases bang
  {
    s[bang] == BANG && forall b :: 0 <= b < bang && Reached(s, b) ==> !Swallows(s, b, bang)
  }

  /** Nothing reached before `index` swallows anything from `index` on. */
  ghost predicate Clear(s: seq<Byte>, index: nat)
    requires index <= |s|
  {
    forall b :: 0 <= b < index && Reached(s, b) ==> !Swallows(s, b, index)
  }

  lemma ClearStep(s: seq<Byte>, index: nat, next: nat)
    requires index <= |s| && Clear(s, index) && FindByte(s, BANG, index) == Some(next)
    ensures Reached(s, next)
    ensures AttemptAt(s, next).Miss? ==> Clear(s, next + 1)
    ensures AttemptAt(s, next).Literal? ==> Clear(s, AttemptAt(s, next).close + 1)
    ensures forall bang :: next < bang < |s| && Reached(s, bang) ==> !Swallows(s, next, bang)
  {
    hide AttemptAt, FindByte;
    FindByteIsFirst(s, BANG, index);
    assert forall b :: index <= b < next ==> !Reached(s, b);
    assert forall b :: 0 <= b < next && Reached(s, b) ==> !Swallows(s, b, next);
  }

  /** A literal call with a proper key is reported if and only if its `!` is reached. */
  lemma {:induction false} ReportedIff(s: seq<Byte>, index: nat, bang: nat, f: Found)
    requires index <= bang && CallAt(s, bang, f) && Clear(s, index)
    ensures f in KeysFrom(s, index) <==> Reached(s, bang)
    decreases bang - index
  {
    hide AttemptAt, KeysFrom, Reached, Clear, FindByte, InOrder, IdentifierStart;
    var found := FindByte(s, BANG, index);
    FindByteIsFirst(s, BANG, index);
    var next := found.value;
    KeysStep(s, index, next);
    ClearStep(s, index, next);
    var a := AttemptAt(s, next);
    if next == bang {
      assert f in ReportLiteral(s, a.start, a.open, a.close);
    } else {
      IdentifierAfterResumePoint(s, next + 1, bang);
      match a
      case Miss =>
        ReportedIff(s, next + 1, bang, f);
      case Unterminated =>
        assert Swallows(s, next, bang);
      case Literal(start, open, close) =>
        assert f !in ReportLiteral(s, start, open, close);
        if close < bang {
          ReportedIff(s, close + 1, bang, f);
        } else {
          assert Swallows(s, next, bang);
          NotReportedLater(s, close + 1, f);
        }
    }
  }

  lemma NotReportedLater(s: seq<Byte>, index: nat, f: Found)
    requires ResumePoint(s, index) && f.start < index
    ensures f !in KeysFrom(s, index)
  {
    hide KeysFrom, CallsMacro;
    KeysAreLiteralCalls(s, index);
  }

  /** Which keys are reported of the whole source: a live literal call with a proper key is, if and only
      if no reached call before it has it in its literal or behind a literal that never ends. */
  lemma KeyIsReportedIff(s: seq<Byte>, bang: nat, f: Found)
    requires CallAt(s, bang, f)
    ensures f in KeysFrom(s, 0) <==> forall b :: 0 <= b < bang && Reached(s, b) ==> !Swallows(s, b, bang)
  {
    ReportedIff(s, 0, bang, f);
  }

  // ---------------------------------------------------------------- what a literal call is

  predicate AllWhitespace(s: seq<Byte>, lo: nat, hi: nat)
    requires hi <= |s|
  {
    forall i :: lo <= i < hi ==> AsciiWhitespace(s[i])
  }

  /** A macro name of its own, `t` or `t_static`, ends at `bang` and is not commented out. */
  ghost predicate NamesMacro(s: seq<Byte>, start: nat, bang: nat)
    requires start <= bang < |s|
  {
    && s[bang] == BANG
    && (s[start..bang] == T || s[start..bang] == T_STATIC)
    && (start > 0 ==> !IdentifierByte(s[start - 1]))
    && forall i: nat :: !SlashesOnLine(s, i, start)
  }

  /** A parenthesis and a quote follow `bang`, with nothing but white space before each. */
  ghost predicate OpensLiteral(s: seq<Byte>, bang: nat, open: nat)
    requires bang < open <= |s|
  {
    && s[open - 1] == QUOTE
    && exists paren :: bang < paren < open - 1 && s[paren] == OPEN_PAREN
         && AllWhitespace(s, bang + 1, paren) && AllWhitespace(s, paren + 1, open - 1)
  }

  /** A call of a translation macro with a literal that ends at `close`, the first quote after it opens, or
      never ends. */
  ghost predicate LiteralCall(s: seq<Byte>, start: nat, bang: nat, open: nat, close: nat) {
    && start <= bang < open <= close <= |s|
    && NamesMacro(s, start, bang) && OpensLiteral(s, bang, open)
    && (forall i :: open <= i < close ==> s[i] != QUOTE)
    && (close < |s| ==> s[close] == QUOTE)
  }

  lemma {:induction false} SkipWhitespaceIff(s: seq<Byte>, i: nat, j: nat)
    requires i <= j <= |s|
    ensures SkipWhitespace(s, i) == j <==> AllWhitespace(s, i, j) && (j < |s| ==> !AsciiWhitespace(s[j]))
    decreases |s| - i
  {
    if i < j && AsciiWhitespace(s[i]) {
      SkipWhitespaceIff(s, i + 1, j);
    }
  }

  lemma {:induction false} IdentifierStartIff(s: seq<Byte>, bang: nat, start: nat)
    requires start <= bang <= |s|
    ensures IdentifierStart(s, bang) == start <==>
      (forall i :: start <= i < bang ==> IdentifierByte(s[i])) && (start > 0 ==> !IdentifierByte(s[start - 1]))
  {
    var first := IdentifierStart(s, bang);
    forall i | first <= i < bang
      ensures IdentifierByte(s[i])
    {
      IdentifierStartsWith(s, bang, i);
    }
  }

  lemma MacroNameIff(s: seq<Byte>, start: nat, bang: nat)
    requires start <= bang < |s| && s[bang] == BANG
    ensures NamesMacro(s, start, bang) <==>
      IdentifierStart(s, bang) == start && LiveMacroName(s, start, bang)
  {
    hide InLineComment, IdentifierStart;
    InLineCommentIff(s, start);
    IdentifierStartIff(s, bang, start);
    if s[start..bang] == T || s[start..bang] == T_STATIC {
      forall i | start <= i < bang
        ensures IdentifierByte(s[i])
      {
        assert s[i] == s[start..bang][i - start];
      }
    }
  }

  /** The quote that opens the literal is where skipping white space, a parenthesis and white space leads. */
  lemma OpensLiteralIff(s: seq<Byte>, bang: nat, open: nat)
    requires bang < open <= |s|
    ensures OpensLiteral(s, bang, open) <==>
      var paren := SkipWhitespace(s, bang + 1);
      && paren < |s| && s[paren] == OPEN_PAREN
      && SkipWhitespace(s, paren + 1) == open - 1 && s[open - 1] == QUOTE
  {
    hide AllWhitespace, SkipWhitespace;
    var found := SkipWhitespace(s, bang + 1);
    SkipWhitespaceIff(s, bang + 1, found);
    if found < open - 1 {
      SkipWhitespaceIff(s, found + 1, open - 1);
    }
    if OpensLiteral(s, bang, open) {
      var paren :| bang < paren < open - 1 && s[paren] == OPEN_PAREN
        && AllWhitespace(s, bang + 1, paren) && AllWhitespace(s, paren + 1, open - 1);
      SkipWhitespaceIff(s, bang + 1, paren);
    }
  }

  lemma LiteralAfterIff(s: seq<Byte>, start: nat, bang: nat, open: nat)
    requires bang < |s| && bang < open <= |s|
    ensures OpensLiteral(s, bang, open) ==>
      LiteralAfter(s, start, bang) ==
        match FindByte(s, QUOTE, open) case None => Unterminated case Some(close) => Literal(start, open, close)
    ensures LiteralAfter(s, start, bang).Literal? && LiteralAfter(s, start, bang).open == open ==>
      OpensLiteral(s, bang, open)
  {
    hide OpensLiteral, FindByte, SkipWhitespace;
    OpensLiteralIff(s, bang, open);
  }

  /** What the scanner makes of a `!` is what is there: a call with a literal that ends, or one whose literal
      never ends, or neither. */
  lemma AttemptIff(s: seq<Byte>, bang: nat, start: nat, open: nat, close: nat)
    requires bang < |s| && s[bang] == BANG && close < |s|
    ensures AttemptAt(s, bang) == Literal(start, open, close) <==> LiteralCall(s, start, bang, open, close)
  {
    hide FindByte, OpensLiteral, LiteralAfter, LiveMacroName, NamesMacro, IdentifierStart;
    if start <= bang < open <= close {
      MacroNameIff(s, start, bang);
      LiteralAfterIff(s, start, bang, open);
      FindByteIff(s, QUOTE, open, close);
    }
  }

  lemma FindByteIff(s: seq<Byte>, b: Byte, from: nat, i: nat)
    requires from <= i < |s|
    ensures FindByte(s, b, from) == Some(i) <==> s[i] == b && forall j :: from <= j < i ==> s[j] != b
  {
    FindByteIsFirst(s, b, from);
  }

  lemma UnterminatedIff(s: seq<Byte>, bang: nat)
    requires bang < |s| && s[bang] == BANG
    ensures AttemptAt(s, bang) == Unterminated <==>
      exists start: nat, open: nat :: LiteralCall(s, start, bang, open, |s|)
  {
    hide FindByte, OpensLiteral, LiveMacroName, NamesMacro, IdentifierStart;
    var first := IdentifierStart(s, bang);
    MacroNameIff(s, first, bang);
    if AttemptAt(s, bang) == Unterminated {
      var paren := SkipWhitespace(s, bang + 1);
      var quote := SkipWhitespace(s, paren + 1);
      OpensLiteralIff(s, bang, quote + 1);
      FindByteIsFirst(s, QUOTE, quote + 1);
      assert LiteralCall(s, first, bang, quote + 1, |s|);
    }
    if start: nat, open: nat :| LiteralCall(s, start, bang, open, |s|) {
      MacroNameIff(s, start, bang);
      LiteralAfterIff(s, start, bang, open);
      FindByteIsFirst(s, QUOTE, open);
    }
  }

  /** A reported key is what is there: the literal of a call that ends, all lower-case letters, digits and
      hyphens. */
  lemma CallAtIff(s: seq<Byte>, bang: nat, f: Found)
    requires f.close < |s|
    ensures CallAt(s, bang, f) <==>
      exists open: nat ::
        LiteralCall(s, f.start, bang, open, f.close) && f.text == s[open..f.close] && KeyCharacters(f.text)
  {
    hide AttemptAt, LiteralCall, KeyText, KeyCharacters;
    KeyTextIff(f.text);
    if bang < |s| && s[bang] == BANG {
      forall open: nat
        ensures AttemptAt(s, bang) == Literal(f.start, open, f.close) <==> LiteralCall(s, f.start, bang, open, f.close)
      {
        AttemptIff(s, bang, f.start, open, f.close);
      }
      var a := AttemptAt(s, bang);
      assert CallAt(s, bang, f) ==> a == Literal(f.start, a.open, f.close);
    } else {
      CallsAreAtBangs(s, bang, f);
    }
  }

  predicate KeyCharacters(t: seq<Byte>) {
    forall b :: b in t ==> 'a' as int <= b <= 'z' as int || '0' as int <= b <= '9' as int || b == '-' as int
  }

  lemma KeyTextIff(t: seq<Byte>)
    ensures KeyText(t) <==> KeyCharacters(t)
  {
    assert forall i :: 0 <= i < |t| ==> t[i] in t;
  }

  lemma CallsAreAtBangs(s: seq<Byte>, bang: nat, f: Found)
    ensures forall open: nat :: LiteralCall(s, f.start, bang, open, f.close) ==> bang < |s| && s[bang] == BANG
  {
    hide OpensLiteral;
  }

  /** The key on the second line of `//`, newline, `t!("a")` is reported, on line 2. */
  lemma CommentEndsWithItsLine()
    ensures var s: seq<Byte> := [47, 47, 10, 116, 33, 40, 34, 97, 34, 41];
      Found(3, 8, [97]) in KeysFrom(s, 0) && LineOf(s, 3) == 2
  {
    hide KeysFrom, AttemptAt;
    var s: seq<Byte> := [47, 47, 10, 116, 33, 40, 34, 97, 34, 41];
    var f := Found(3, 8, [97]);
    assert NamesMacro(s, 3, 4);
    assert OpensLiteral(s, 4, 7) by {
      assert 4 < 5 < 6 && s[5] == OPEN_PAREN && AllWhitespace(s, 5, 5) && AllWhitespace(s, 6, 6);
    }
    AttemptIff(s, 4, 3, 7, 8);
    assert CallAt(s, 4, f);
    assert forall b :: 0 <= b < 4 ==> !Reached(s, b);
    KeyIsReportedIff(s, 4, f);
    NewlinesAreCounted(s[..3]);
    assert s[..3] == [47, 47, 10];
  }
}
