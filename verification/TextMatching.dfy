/** White space in text: trimming, the history search that relies on it, and the keybindings file. */
module TextMatching {
  import opened Options
  import opened Utf8

  type Text = seq<Scalar>

  /** `char::is_whitespace`: the Unicode White_Space property. */
  predicate White(c: Scalar) {
    || 9 <= c <= 13 || c == 0x20 || c == 0x85 || c == 0xA0 || c == 0x1680
    || 0x2000 <= c <= 0x200A || c == 0x2028 || c == 0x2029 || c == 0x202F || c == 0x205F || c == 0x3000
  }

  predicate NoWhite(t: Text) {
    forall i :: 0 <= i < |t| ==> !White(t[i])
  }

  function TrimStart(t: Text): Text {
    if t != [] && White(t[0]) then TrimStart(t[1..]) else t
  }

  function TrimEnd(t: Text): (r: Text)
    ensures r <= t
    ensures r != [] ==> !White(r[|r| - 1])
    ensures forall i :: |r| <= i < |t| ==> White(t[i])
  {
    if t != [] && White(t[|t| - 1]) then TrimEnd(t[..|t| - 1]) else t
  }

  /** `str::trim`. */
  function Trim(t: Text): Text {
    TrimEnd(TrimStart(t))
  }

  lemma {:induction false} TrimStartStartsDark(t: Text)
    ensures TrimStart(t) != [] ==> !White(TrimStart(t)[0])
  {
    if t != [] && White(t[0]) {
      TrimStartStartsDark(t[1..]);
    }
  }

  /** What is left after trimming starts and ends with a character that is not white space. */
  lemma TrimmedEnds(t: Text)
    ensures Trim(t) != [] ==> !White(Trim(t)[0]) && !White(Trim(t)[|Trim(t)| - 1])
  {
    TrimStartStartsDark(t);
    assert Trim(t) != [] ==> Trim(t)[0] == TrimStart(t)[0];
  }

  predicate AllWhite(t: Text) {
    forall i :: 0 <= i < |t| ==> White(t[i])
  }

  lemma {:induction false} TrimStartTakesWhite(t: Text) returns (white: Text)
    ensures t == white + TrimStart(t) && AllWhite(white)
  {
    white := [];
    if t != [] && White(t[0]) {
      var rest := TrimStartTakesWhite(t[1..]);
      white := [t[0]] + rest;
    }
  }

  /** Trimming takes white space off both ends and nothing else. */
  lemma TrimTakesWhiteEnds(t: Text) returns (before: Text, after: Text)
    ensures t == before + Trim(t) + after && AllWhite(before) && AllWhite(after)
    ensures Trim(t) != [] ==> !White(Trim(t)[0]) && !White(Trim(t)[|Trim(t)| - 1])
  {
    hide White;
    TrimmedEnds(t);
    before := TrimStartTakesWhite(t);
    var start := TrimStart(t);
    after := start[|Trim(t)|..];
    assert start == Trim(t) + after;
  }

  // ---------------------------------------------------------------- history search

  /** A suggestion: its text, and how many of its leading bytes are highlighted. */
  datatype Suggestion = Suggestion(text: Text, matched: nat)

  /** `history_prefix_search`. */
  function HistoryPrefixSearch(prefix: Text, options: seq<Text>): seq<Suggestion> {
    if options == [] then []
    else
      var query := Trim(prefix);
      (if query <= options[0] then [Suggestion(Trim(options[0]), |Encode(query)|)] else [])
      + HistoryPrefixSearch(prefix, options[1..])
  }

  /** An option that starts with the trimmed query still does once it is trimmed itself. */
  lemma MatchSurvivesTrimming(query: Text, option: Text)
    requires query != [] ==> !White(query[0]) && !White(query[|query| - 1])
    requires query <= option
    ensures query <= Trim(option)
  {
    if query != [] {
      assert option[0] == query[0];
      assert TrimStart(option) == option;
      var kept := TrimEnd(option);
      assert option[|query| - 1] == query[|query| - 1];
      assert |kept| >= |query|;
      assert kept[..|query|] == option[..|query|] == query;
    }
  }

  /** A non-empty trimmed query finds an option exactly when the option does not start with white
      space and, trimmed, starts with the query. */
  lemma MatchIff(query: Text, option: Text)
    requires query != [] && !White(query[0]) && !White(query[|query| - 1])
    ensures query <= option <==> option != [] && !White(option[0]) && query <= Trim(option)
  {
    if query <= option {
      MatchSurvivesTrimming(query, option);
      assert option[0] == query[0];
    }
  }

  /** What the search finds: an empty query everything, any other query the options that do not start with
      white space and, trimmed, start with the query. */
  predicate Finds(query: Text, option: Text) {
    query == [] || (option != [] && !White(option[0]) && query <= Trim(option))
  }

  /** Wherever an option stands in the history, it contributes its own suggestion, in its place, if and
      only if it is found. */
  lemma {:induction false} SuggestedIff(prefix: Text, before: seq<Text>, option: Text, after: seq<Text>)
    ensures HistoryPrefixSearch(prefix, before + [option] + after) ==
      HistoryPrefixSearch(prefix, before)
      + (if Finds(Trim(prefix), option) then [Suggestion(Trim(option), |Encode(Trim(prefix))|)] else [])
      + HistoryPrefixSearch(prefix, after)
  {
    hide Finds, Encode, Trim, HistoryPrefixSearch;
    NothingSuggested(prefix);
    SuggestedCons(prefix, option, after);
    if before == [] {
      assert before + [option] + after == [option] + after;
    } else {
      var rest := before[1..];
      assert before + [option] + after == [before[0]] + (rest + [option] + after) && before == [before[0]] + rest;
      SuggestedCons(prefix, before[0], rest + [option] + after);
      SuggestedCons(prefix, before[0], rest);
      SuggestedIff(prefix, rest, option, after);
    }
  }

  lemma NothingSuggested(prefix: Text)
    ensures HistoryPrefixSearch(prefix, []) == []
  {
  }

  lemma SuggestedCons(prefix: Text, option: Text, rest: seq<Text>)
    ensures HistoryPrefixSearch(prefix, [option] + rest) ==
      (if Finds(Trim(prefix), option) then [Suggestion(Trim(option), |Encode(Trim(prefix))|)] else [])
      + HistoryPrefixSearch(prefix, rest)
  {
    hide Finds, Encode, Trim;
    FindsIff(prefix, option);
    assert ([option] + rest)[1..] == rest;
  }

  lemma FindsIff(prefix: Text, option: Text)
    ensures Trim(prefix) <= option <==> Finds(Trim(prefix), option)
  {
    hide White, Trim;
    TrimmedEnds(prefix);
    if Trim(prefix) != [] {
      MatchIff(Trim(prefix), option);
    }
  }

  /** The entry " ls" is shown as "ls" but not found by the query "ls". */
  lemma SpacedEntryIsNotFound()
    ensures Trim([32, 108, 115]) == [108, 115]
    ensures HistoryPrefixSearch([108, 115], [[32, 108, 115]]) == []
  {
    var entry, ls: Text := [32, 108, 115], [108, 115];
    assert entry[1..] == ls;
    assert TrimStart(entry) == ls && TrimStart(ls) == ls;
    assert TrimEnd(ls) == ls;
    assert HistoryPrefixSearch(ls, [entry][1..]) == [];
  }

  /** Every suggestion begins with the trimmed query, so its highlighted bytes spell the query. */
  lemma {:induction false} HighlightSpellsTheQuery(prefix: Text, options: seq<Text>)
    ensures forall s :: s in HistoryPrefixSearch(prefix, options) ==>
      && Trim(prefix) <= s.text
      && s.matched <= |Encode(s.text)| && Encode(s.text)[..s.matched] == Encode(Trim(prefix))
  {
    hide EncodeChar, White;
    if options != [] {
      HighlightSpellsTheQuery(prefix, options[1..]);
      var query := Trim(prefix);
      if query <= options[0] {
        TrimmedEnds(prefix);
        MatchSurvivesTrimming(query, options[0]);
        var text := Trim(options[0]);
        EncodeSplit(text, |query|);
        assert text[..|query|] == query;
      }
    }
  }

  // ---------------------------------------------------------------- keybindings

  const SPACE: Scalar := 32
  /** "none", how a removed keybinding is written. */
  const REMOVED: Text := [110, 111, 110, 101]

  /** A keybinding a user has chosen; the keystrokes of the first kind are at least one. */
  datatype Keybinding<K> = Keystrokes(keystrokes: seq<K>) | Removed

  function Join(words: seq<Text>): Text {
    if words == [] then []
    else if |words| == 1 then words[0]
    else words[0] + [SPACE] + Join(words[1..])
  }

  function Printed<K>(normalized: K -> Text, keystrokes: seq<K>): (words: seq<Text>)
    ensures |words| == |keystrokes| && forall i :: 0 <= i < |words| ==> words[i] == normalized(keystrokes[i])
  {
    seq(|keystrokes|, i requires 0 <= i < |keystrokes| => normalized(keystrokes[i]))
  }

  /** `PersistedTrigger::from`. */
  function Print<K>(normalized: K -> Text, k: Keybinding<K>): Text {
    match k
    case Keystrokes(keystrokes) => Join(Printed(normalized, keystrokes))
    case Removed => REMOVED
  }

  function WordLength(t: Text): (n: nat)
    ensures n <= |t| && (t != [] && !White(t[0]) ==> n > 0)
  {
    if t == [] || White(t[0]) then 0 else 1 + WordLength(t[1..])
  }

  /** `split_whitespace`. */
  function SplitWhitespace(t: Text): seq<Text>
    decreases |t|
  {
    if t == [] then []
    else if White(t[0]) then SplitWhitespace(t[1..])
    else [t[..WordLength(t)]] + SplitWhitespace(t[WordLength(t)..])
  }

  function ParseAll<K>(parse: Text -> Option<K>, words: seq<Text>): Option<seq<K>> {
    if words == [] then Some([])
    else
      var before := ParseAll(parse, words[..|words| - 1]);
      var last := parse(words[|words| - 1]);
      if before.Some? && last.Some? then Some(before.value + [last.value]) else None
  }

  /** `UserDefinedKeybinding::try_from`; None when it fails. */
  function Parse<K>(parse: Text -> Option<K>, t: Text): Option<Keybinding<K>> {
    if t == REMOVED then Some(Removed)
    else
      match ParseAll(parse, SplitWhitespace(t))
      case None => None
      case Some(keystrokes) => if keystrokes == [] then None else Some(Keystrokes(keystrokes))
  }

  /** The parsing loop, pushing one keystroke at a time. */
  method ParseTrigger<K>(parse: Text -> Option<K>, trigger: Text) returns (k: Option<Keybinding<K>>)
    ensures k == Parse(parse, trigger)
  {
    if trigger == REMOVED {
      return Some(Removed);
    }
    var words := SplitWhitespace(trigger);
    var keystrokes: seq<K> := [];
    for i := 0 to |words|
      invariant ParseAll(parse, words[..i]) == Some(keystrokes)
    {
      assert words[..i + 1][..i] == words[..i];
      var parsed := parse(words[i]);
      if parsed.None? {
        FailedPrefix(parse, words, i + 1);
        return None;
      }
      keystrokes := keystrokes + [parsed.value];
    }
    assert words[..|words|] == words;
    k := if |keystrokes| == 0 then None else Some(Keystrokes(keystrokes));
  }

  lemma {:induction false} FailedPrefix<K>(parse: Text -> Option<K>, words: seq<Text>, i: nat)
    requires i <= |words| && ParseAll(parse, words[..i]).None?
    ensures ParseAll(parse, words).None?
    decreases |words| - i
  {
    if i == |words| {
      assert words[..i] == words;
    } else {
      assert words[..i + 1][..i] == words[..i];
      FailedPrefix(parse, words, i + 1);
    }
  }

  /** The words parse, one by one and in order, exactly when each of them does. */
  lemma {:induction false} ParseAllIff<K>(parse: Text -> Option<K>, words: seq<Text>)
    ensures ParseAll(parse, words).Some? <==> forall i :: 0 <= i < |words| ==> parse(words[i]).Some?
    ensures ParseAll(parse, words).Some? ==>
      && |ParseAll(parse, words).value| == |words|
      && forall i :: 0 <= i < |words| ==> parse(words[i]) == Some(ParseAll(parse, words).value[i])
  {
    if words != [] {
      var last := |words| - 1;
      ParseAllIff(parse, words[..last]);
      assert forall i :: 0 <= i < last ==> words[..last][i] == words[i];
    }
  }

  /** Printed words are separated by single spaces. */
  lemma {:induction false} JoinAppend(words: seq<Text>, last: Text)
    ensures Join(words + [last]) == if words == [] then last else Join(words) + [0x20] + last
  {
    var all := words + [last];
    if |words| == 1 {
      assert all[1..] == [last];
    } else if |words| > 1 {
      JoinAppend(words[1..], last);
      assert all[1..] == words[1..] + [last];
    }
  }

  /** What is read from the file: `none` is a removed keybinding; anything else is its words in order,
      if there are any and every one of them is a keystroke; and otherwise it is refused. */
  lemma ParseIff<K>(parse: Text -> Option<K>, t: Text)
    ensures Parse(parse, t) == Some(Removed) <==> t == REMOVED
    ensures forall ks :: Parse(parse, t) == Some(Keystrokes(ks)) <==>
      var words := SplitWhitespace(t);
      && t != REMOVED && words != [] && |ks| == |words|
      && forall i :: 0 <= i < |words| ==> parse(words[i]) == Some(ks[i])
  {
    hide SplitWhitespace;
    ParseAllIff(parse, SplitWhitespace(t));
    forall ks | |ks| == |SplitWhitespace(t)| && ParseAll(parse, SplitWhitespace(t)).Some?
                && forall i :: 0 <= i < |ks| ==> parse(SplitWhitespace(t)[i]) == Some(ks[i])
      ensures ks == ParseAll(parse, SplitWhitespace(t)).value
    {
    }
  }

  /** A keystroke prints as one word that parses back to it. */
  predicate PrintsBack<K(==)>(normalized: K -> Text, parse: Text -> Option<K>, k: K) {
    normalized(k) != [] && NoWhite(normalized(k)) && parse(normalized(k)) == Some(k)
  }

  predicate Words(words: seq<Text>) {
    forall i :: 0 <= i < |words| ==> words[i] != [] && NoWhite(words[i])
  }

  lemma {:induction false} WordLengthOf(word: Text, rest: Text)
    requires NoWhite(word) && (rest != [] ==> White(rest[0]))
    ensures WordLength(word + rest) == |word|
  {
    if word == [] {
      assert word + rest == rest;
    } else {
      assert (word + rest)[1..] == word[1..] + rest;
      WordLengthOf(word[1..], rest);
    }
  }

  lemma {:induction false} SplitUndoesJoin(words: seq<Text>)
    requires Words(words)
    ensures SplitWhitespace(Join(words)) == words
  {
    hide White;
    if words != [] {
      var word, rest := words[0], words[1..];
      SpaceIsWhite();
      if rest == [] {
        WordLengthOf(word, []);
        assert word + [] == word;
        assert word[|word|..] == [] && word[..|word|] == word;
        assert words == [word];
      } else {
        var t := Join(words);
        assert t == word + ([SPACE] + Join(rest));
        WordLengthOf(word, [SPACE] + Join(rest));
        assert t[..|word|] == word && t[|word|..] == [SPACE] + Join(rest);
        assert ([SPACE] + Join(rest))[1..] == Join(rest);
        SplitUndoesJoin(rest);
        assert words == [word] + rest;
      }
    }
  }

  /** The gaps and the words in turn. */
  function Interleave(gaps: seq<Text>, words: seq<Text>): Text
    requires |gaps| == |words| + 1
  {
    if words == [] then gaps[0] else gaps[0] + words[0] + Interleave(gaps[1..], words[1..])
  }

  /** White space around and between words, some of it between any two. */
  predicate Gaps(gaps: seq<Text>) {
    && (forall i :: 0 <= i < |gaps| ==> AllWhite(gaps[i]))
    && forall i :: 0 < i < |gaps| - 1 ==> gaps[i] != []
  }

  lemma {:induction false} WordLengthIsDark(t: Text)
    ensures NoWhite(t[..WordLength(t)])
    ensures WordLength(t) < |t| ==> White(t[WordLength(t)])
  {
    if !(t == [] || White(t[0])) {
      WordLengthIsDark(t[1..]);
      assert t[..WordLength(t)] == [t[0]] + t[1..][..WordLength(t[1..])];
    }
  }

  /** `t` is these words with white space around and between them. */
  ghost predicate Spaces(t: Text, gaps: seq<Text>, words: seq<Text>) {
    && |gaps| == |words| + 1 && Gaps(gaps) && Words(words)
    && t == Interleave(gaps, words)
    && (t != [] && White(t[0]) <==> gaps[0] != [])
  }

  lemma MoreSpace(c: Scalar, t: Text, gaps: seq<Text>, words: seq<Text>)
    requires White(c) && Spaces(t, gaps, words)
    ensures Spaces([c] + t, [[c] + gaps[0]] + gaps[1..], words)
  {
    hide White, Words;
    var gaps' := [[c] + gaps[0]] + gaps[1..];
    assert gaps'[1..] == gaps[1..];
  }

  lemma OneMoreWord(word: Text, t: Text, gaps: seq<Text>, words: seq<Text>)
    requires word != [] && NoWhite(word) && (t != [] ==> White(t[0]))
    requires Spaces(t, gaps, words)
    ensures Spaces(word + t, [[]] + gaps, [word] + words)
  {
    hide White;
    assert ([[]] + gaps)[1..] == gaps && ([word] + words)[1..] == words;
    assert [] + word + t == word + t;
  }

  /** On any text, the words are the stretches without white space that white space separates, in order:
      put back into their gaps they make up the text. */
  lemma {:induction false} SplitKeepsTheWords(t: Text) returns (gaps: seq<Text>)
    ensures |gaps| == |SplitWhitespace(t)| + 1 && Spaces(t, gaps, SplitWhitespace(t))
    decreases |t|
  {
    hide White, Spaces, Gaps, Words, NoWhite;
    if t == [] {
      gaps := NoWords();
    } else if White(t[0]) {
      var rest := SplitKeepsTheWords(t[1..]);
      MoreSpace(t[0], t[1..], rest, SplitWhitespace(t[1..]));
      gaps := [[t[0]] + rest[0]] + rest[1..];
      assert t == [t[0]] + t[1..];
    } else {
      var n := WordLength(t);
      WordLengthIsDark(t);
      var rest := SplitKeepsTheWords(t[n..]);
      OneMoreWord(t[..n], t[n..], rest, SplitWhitespace(t[n..]));
      gaps := [[]] + rest;
      assert t == t[..n] + t[n..];
    }
  }

  lemma NoWords() returns (gaps: seq<Text>)
    ensures gaps == [[]] && Spaces([], gaps, [])
  {
    gaps := [[]];
  }

  lemma SpaceIsWhite()
    ensures White(SPACE)
  {
  }

  lemma {:induction false} ParseUndoesPrint<K>(normalized: K -> Text, parse: Text -> Option<K>, keystrokes: seq<K>)
    requires forall i :: 0 <= i < |keystrokes| ==> PrintsBack(normalized, parse, keystrokes[i])
    ensures ParseAll(parse, Printed(normalized, keystrokes)) == Some(keystrokes)
  {
    if keystrokes != [] {
      var n := |keystrokes| - 1;
      ParseUndoesPrint(normalized, parse, keystrokes[..n]);
      assert Printed(normalized, keystrokes)[..n] == Printed(normalized, keystrokes[..n]);
      assert keystrokes == keystrokes[..n] + [keystrokes[n]];
    }
  }

  /** Only a single keystroke can print as the word for a removed keybinding. */
  lemma PrintsAsRemovedIff(words: seq<Text>)
    requires Words(words) && words != []
    ensures Join(words) == REMOVED <==> |words| == 1 && words[0] == REMOVED
  {
    if |words| > 1 {
      SpaceIsWhite();
      assert Join(words)[|words[0]|] == SPACE;
      assert NoWhite(REMOVED);
    }
  }

  /** Round trip: a keybinding is read back as it was written, unless it is a single keystroke
      that prints as the word for a removed keybinding; and then it is read back as removed. */
  lemma KeybindingRoundTrip<K>(normalized: K -> Text, parse: Text -> Option<K>, k: Keybinding<K>)
    requires k.Keystrokes? ==>
      && k.keystrokes != []
      && forall i :: 0 <= i < |k.keystrokes| ==> PrintsBack(normalized, parse, k.keystrokes[i])
    ensures Parse(parse, Print(normalized, k)) == Some(k) <==>
      !(k.Keystrokes? && |k.keystrokes| == 1 && normalized(k.keystrokes[0]) == REMOVED)
    ensures Parse(parse, Print(normalized, k)).Some?
  {
    if k.Keystrokes? {
      var words := Printed(normalized, k.keystrokes);
      assert Words(words) by {
        assert forall i :: 0 <= i < |words| ==> PrintsBack(normalized, parse, k.keystrokes[i]);
      }
      PrintsAsRemovedIff(words);
      SplitUndoesJoin(words);
      ParseUndoesPrint(normalized, parse, k.keystrokes);
    }
  }

  /** A keystroke that prints as "none" is read back as a removed keybinding. */
  lemma KeystrokeNoneIsReadAsRemoved()
    ensures var normalized, parse := (k: int) => REMOVED, (t: Text) => if t == REMOVED then Some(0) else None;
      && PrintsBack(normalized, parse, 0)
      && Parse(parse, Print(normalized, Keystrokes([0]))) == Some(Removed)
  {
    var normalized, parse := (k: int) => REMOVED, (t: Text) => if t == REMOVED then Some(0) else None;
    assert Printed(normalized, [0]) == [REMOVED];
  }
}
