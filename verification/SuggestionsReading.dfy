/** What a reply offers, said without the parser: exactly the lines that end in a spelled-out array are read. */
module SuggestionsReading {
  import opened Wrappers
  import opened PythonText
  import opened Suggestions
  import opened SuggestionsProperties

  // ---- the array ----------------------------------------------------------

  lemma SpelledUnicode(s: string) returns (t: Token)
    requires ReadUnicode(s).Read?
    ensures t.Valid() && ['\\', 'u'] + s == t.Print() + ReadUnicode(s).rest && t.Meaning() == ReadUnicode(s).value
  {
    var digits := s[..4];
    if IsHigh(Hex4(digits)) {
      t := Pair(digits, s[6..10]);
      assert s == digits + (['\\', 'u'] + s[6..10]) + s[10..];
    } else {
      t := Hex(digits);
      assert s == digits + s[4..];
    }
  }

  /** Every character that is read was written in one of the ways there are. */
  lemma SpelledChar(s: string) returns (t: Token)
    requires ReadChar(s).Read?
    ensures t.Valid() && s == t.Print() + ReadChar(s).rest && t.Meaning() == ReadChar(s).value
  {
    if s[0] != '\\' {
      t := Raw(s[0]);
    } else if s[1] == 'u' {
      assert s == ['\\', 'u'] + s[2..];
      t := SpelledUnicode(s[2..]);
    } else {
      t := Short(s[1]);
      assert s == ['\\', s[1]] + s[2..];
    }
  }

  lemma {:induction false} SpelledString(s: string) returns (tokens: seq<Token>)
    requires ReadString(s).Read?
    ensures ValidTokens(tokens) && s == PrintTokens(tokens) + (['"'] + ReadString(s).rest)
    ensures MeaningOf(tokens) == ReadString(s).value
    decreases |s|
  {
    if s != [] && s[0] == '"' {
      tokens := [];
      assert s == [] + (['"'] + s[1..]);
    } else {
      var t := SpelledChar(s);
      var more := SpelledString(ReadChar(s).rest);
      tokens := [t] + more;
      assert tokens[1..] == more;
      Assoc(t.Print(), PrintTokens(more), ['"'] + ReadString(s).rest);
    }
  }

  lemma {:induction false} SkippedBlank(s: string) returns (blank: string)
    requires '\n' !in s
    ensures IsBlank(blank) && s == blank + SkipJsonSpace(s) && '\n' !in SkipJsonSpace(s)
  {
    blank := [];
    if s != [] && IsJsonSpace(s[0]) {
      blank := SkippedBlank(s[1..]);
      blank := [s[0]] + blank;
    }
  }

  function Indent(blank: string, items: seq<Item>): (r: seq<Item>)
    requires items != []
    ensures |r| == |items|
  {
    [items[0].(before := blank)] + items[1..]
  }

  lemma IndentedItem(blank: string, item: Item)
    requires item.Valid() && item.before == "" && IsBlank(blank)
    ensures item.(before := blank).Valid() && PrintItem(item.(before := blank)) == blank + PrintItem(item)
  {
    var quoted := ['"'] + (PrintTokens(item.tokens) + (['"'] + item.after));
    assert "" + quoted == quoted;
  }

  lemma SameTokens(a: seq<Item>, b: seq<Item>)
    requires ValidItems(a) && ValidItems(b) && |a| == |b| && forall i :: 0 <= i < |a| ==> a[i].tokens == b[i].tokens
    ensures Chips(a) == Chips(b)
  {
  }

  /** Blanks before the first item. */
  lemma Indented(blank: string, items: seq<Item>)
    requires items != [] && ValidItems(items) && items[0].before == "" && IsBlank(blank)
    ensures ValidItems(Indent(blank, items)) && Chips(Indent(blank, items)) == Chips(items)
    ensures PrintItems(Indent(blank, items)) == blank + PrintItems(items)
  {
    var r := Indent(blank, items);
    IndentedItem(blank, items[0]);
    SameTokens(r, items);
    assert r[1..] == items[1..];
    Assoc(blank, PrintItem(items[0]), if |items| == 1 then "]" else [','] + PrintItems(items[1..]));
  }

  /** A string, its blanks, and what follows them. */
  lemma SpelledItem(s: string) returns (item: Item)
    requires s != [] && s[0] == '"' && ReadString(s[1..]).Read? && '\n' !in s
    ensures item.Valid() && item.before == "" && MeaningOf(item.tokens) == ReadString(s[1..]).value
    ensures s == PrintItem(item) + SkipJsonSpace(ReadString(s[1..]).rest)
    ensures '\n' !in SkipJsonSpace(ReadString(s[1..]).rest)
  {
    var rest := ReadString(s[1..]).rest;
    var tokens := SpelledString(s[1..]);
    NoBreakBehind(['"'] + PrintTokens(tokens) + ['"'], rest, s);
    var after := SkippedBlank(rest);
    item := Item("", tokens, after);
    var more := SkipJsonSpace(rest);
    assert s == ['"'] + (PrintTokens(tokens) + (['"'] + (after + more)));
    Assoc(['"'], after, more);
    Assoc(PrintTokens(tokens), ['"'] + after, more);
    Assoc(['"'], PrintTokens(tokens) + (['"'] + after), more);
    assert PrintItem(item) == ['"'] + (PrintTokens(tokens) + (['"'] + after));
  }

  lemma NoBreakBehind(front: string, rest: string, s: string)
    requires s == front + rest && '\n' !in s
    ensures '\n' !in rest
  {
    forall i | 0 <= i < |rest| ensures rest[i] != '\n' { assert s[|front| + i] == rest[i]; }
  }

  /** Every array that is read was written item by item. */
  lemma {:induction false} SpelledItems(s: string) returns (items: seq<Item>)
    requires ReadItems(s).Read? && '\n' !in s
    ensures items != [] && ValidItems(items) && items[0].before == ""
    ensures s == PrintItems(items) + ReadItems(s).rest && Chips(items) == ReadItems(s).value
    decreases |s|
  {
    var item := SpelledItem(s);
    var after := SkipJsonSpace(ReadString(s[1..]).rest);
    if after[0] == ']' {
      items := [item];
      assert after == "]" + after[1..];
      Assoc(PrintItem(item), "]", after[1..]);
    } else {
      NoBreakBehind([','], after[1..], after);
      var blank := SkippedBlank(after[1..]);
      assert |SkipJsonSpace(after[1..])| < |s|;
      var more := SpelledItems(SkipJsonSpace(after[1..]));
      Indented(blank, more);
      items := NextItem(s, item, after, blank, more, ReadItems(s).rest);
    }
  }

  lemma NextItem(s: string, item: Item, after: string, blank: string, more: seq<Item>, rest: string)
    returns (items: seq<Item>)
    requires item.Valid() && item.before == "" && s == PrintItem(item) + after && after != [] && after[0] == ','
    requires more != [] && ValidItems(more) && ValidItems(Indent(blank, more))
    requires PrintItems(Indent(blank, more)) == blank + PrintItems(more)
    requires after[1..] == blank + (PrintItems(more) + rest) && Chips(Indent(blank, more)) == Chips(more)
    ensures items != [] && ValidItems(items) && items[0].before == ""
    ensures s == PrintItems(items) + rest && Chips(items) == [MeaningOf(item.tokens)] + Chips(more)
  {
    var tail := Indent(blank, more);
    items := [item] + tail;
    ChipsCons(item, tail);
    assert PrintItems(items) == PrintItem(item) + ([','] + PrintItems(tail)) by { assert items[1..] == tail; }
    Assoc(blank, PrintItems(more), rest);
    CommaThen(after, PrintItems(tail), rest);
    Assoc(PrintItem(item), [','] + PrintItems(tail), rest);
  }

  lemma CommaThen(after: string, printed: string, rest: string)
    requires after != [] && after[0] == ',' && after[1..] == printed + rest
    ensures after == ([','] + printed) + rest
  {
    assert after == [','] + after[1..];
    Assoc([','], printed, rest);
  }

  lemma ChipsCons(item: Item, tail: seq<Item>)
    requires item.Valid() && ValidItems(tail)
    ensures ValidItems([item] + tail) && Chips([item] + tail) == [MeaningOf(item.tokens)] + Chips(tail)
  {
  }

  /** Blanks behind the closing bracket would end the line. */
  lemma EndsInBlank(s: string, front: string, rest: string)
    requires s == front + rest && s != [] && SkipJsonSpace(rest) == []
    ensures rest != [] ==> IsJsonSpace(s[|s| - 1])
  {
    AllSpace(rest);
    if rest != [] { assert s[|s| - 1] == rest[|rest| - 1]; }
  }

  /** On one line and up to its bracket, `json.loads` gives a non-empty list only for its spellings. */
  lemma SpelledArray(s: string, list: seq<string>) returns (items: seq<Item>)
    requires ParseStringArray(s) == Some(list) && list != []
    requires s != [] && s[0] == '[' && s[|s| - 1] == ']' && '\n' !in s
    ensures items != [] && ValidItems(items) && PrintArray(items) == s && Chips(items) == list
  {
    assert SkipJsonSpace(s) == s;
    NoBreakBehind([s[0]], s[1..], s);
    var blank := SkippedBlank(s[1..]);
    var inside := SkipJsonSpace(s[1..]);
    var found := SpelledItems(inside);
    var rest := ReadItems(inside).rest;
    Assoc(['['], blank, inside);
    Assoc(['['] + blank, PrintItems(found), rest);
    EndsInBlank(s, ['['] + blank + PrintItems(found), rest);
    Indented(blank, found);
    items := Indent(blank, found);
    assert PrintItems(found) + [] == PrintItems(found);
  }

  lemma {:induction false} AllSpace(s: string)
    requires SkipJsonSpace(s) == []
    ensures forall i :: 0 <= i < |s| ==> IsJsonSpace(s[i])
  {
    if s != [] { AllSpace(s[1..]); }
  }

  // ---- the line -----------------------------------------------------------

  /** `said` is the text without its trailing whitespace. */
  ghost predicate Trimmed(text: string, said: string) {
    && said <= text && Blank(text[|said|..]) && (said != [] ==> !IsSpace(said[|said| - 1]))
  }

  ghost predicate BracketedLine(group: string) {
    |group| >= 2 && group[0] == '[' && group[|group| - 1] == ']' && '\n' !in group
  }

  /** At `p` the marker stands before this group, with nothing but whitespace between and behind. */
  ghost predicate LineAt(text: string, p: nat, group: string) {
    && p <= |text| && BracketedLine(group)
    && exists gap, trail :: Blank(gap) && Blank(trail) && text == text[..p] + (MARKER + (gap + (group + trail)))
  }

  /** The first such line, and it spells this list. */
  ghost predicate Offers(text: string, p: nat, list: seq<string>) {
    && (forall k: nat, group :: k < p ==> !LineAt(text, k, group))
    && exists items :: items != [] && ValidItems(items) && Chips(items) == list && LineAt(text, p, PrintArray(items))
  }

  /** What a reply says and which chips it offers: a list only if the text ends in a line that spells it, and then what
      stands before that line; otherwise the text. */
  ghost predicate Says(text: string, said: string, chips: Option<seq<string>>) {
    match chips
    case None => Trimmed(text, said) && forall p: nat, list :: !Offers(text, p, list)
    case Some(list) => exists p: nat :: p <= |text| && Offers(text, p, list) && Trimmed(text[..p], said)
  }

  lemma RStripTrims(text: string)
    ensures Trimmed(text, RStrip(text))
  {
    var back := RStripCuts(text);
    assert text[|RStrip(text)|..] == back;
    EndsTight(text);
  }

  lemma {:induction false} EndsTight(text: string)
    ensures RStrip(text) != [] ==> !IsSpace(RStrip(text)[|RStrip(text)| - 1])
  {
    if text != [] && IsSpace(text[|text| - 1]) { EndsTight(text[..|text| - 1]); }
  }

  lemma LineMatches(text: string, p: nat, group: string)
    requires LineAt(text, p, group)
    ensures MatchAt(text, p) == Some(group)
  {
    var gap, trail :| Blank(gap) && Blank(trail) && text == text[..p] + (MARKER + (gap + (group + trail)));
    MatchesArray(text[..p], gap, group, trail);
  }

  /** A text cut at a point, at the end of a gap behind it, and before a trail. */
  lemma CutInFour(text: string, p: nat, from: nat, gap: string, trail: string, q: nat, end: nat)
    requires p <= from <= q <= end <= |text| && text[p..from] == MARKER
    requires text[from..] == gap + text[q..] && text == text[..end] + trail
    ensures text == text[..p] + (MARKER + (gap + (text[q..end] + trail)))
  {
    assert text[end..] == trail;
    assert text[q..] == text[q..end] + text[end..];
    assert text[p..] == text[p..from] + text[from..];
    assert text == text[..p] + text[p..];
  }

  lemma MatchIsLine(text: string, p: nat)
    requires p <= |text| && MatchAt(text, p).Some?
    ensures LineAt(text, p, MatchAt(text, p).value)
  {
    var from := p + |MARKER|;
    var skipped := SkipSpace(text[from..]);
    var gap := SkipCuts(text[from..]);
    var trail := RStripCuts(text);
    var q, end := |text| - |skipped|, |RStrip(text)|;
    BetweenIsOneLine(text, q, end);
    assert text[q..] == skipped by { SuffixOf(text, from, gap, skipped); }
    CutInFour(text, p, from, gap, trail, q, end);
  }

  lemma SuffixOf(text: string, from: nat, gap: string, skipped: string)
    requires from <= |text| && text[from..] == gap + skipped
    ensures text[|text| - |skipped|..] == skipped
  {
    assert text[from..][|gap|..] == skipped;
  }

  lemma BetweenIsOneLine(text: string, q: nat, end: nat)
    requires q <= end <= |text| && Bracketed(text, q, end).Some?
    ensures BracketedLine(text[q..end])
  {
    var group := text[q..end];
    forall i | 0 <= i < |group| ensures group[i] != '\n' {
      if 0 < i < |group| - 1 { assert group[i] == text[q + 1..end - 1][i - 1]; }
    }
  }

  lemma {:induction false} SearchFinds(text: string, from: nat)
    requires from <= |text|
    ensures match Search(text, from)
            case None => forall k :: from <= k <= |text| ==> MatchAt(text, k).None?
            case Some((p, group)) =>
              MatchAt(text, p) == Some(group) && forall k :: from <= k < p ==> MatchAt(text, k).None?
    decreases |text| - from
  {
    if MatchAt(text, from).None? && from < |text| { SearchFinds(text, from + 1); }
  }

  lemma NoLineIfNoMatch(text: string, n: nat)
    requires forall k :: 0 <= k < n && k <= |text| ==> MatchAt(text, k).None?
    ensures forall k: nat, group :: k < n ==> !LineAt(text, k, group)
  {
    forall k: nat, group | k < n ensures !LineAt(text, k, group) {
      if LineAt(text, k, group) { LineMatches(text, k, group); }
    }
  }

  /** An offer is where the search ends, and its list is what is read there. */
  lemma OfferIsFound(text: string, p: nat, list: seq<string>)
    requires Offers(text, p, list)
    ensures Search(text, 0).Some? && Search(text, 0).value.0 == p
    ensures ParseStringArray(Search(text, 0).value.1) == Some(list) && list != []
  {
    var items :| items != [] && ValidItems(items) && Chips(items) == list && LineAt(text, p, PrintArray(items));
    LineMatches(text, p, PrintArray(items));
    ArrayReads(items);
    SearchFinds(text, 0);
    var (k, group) := Search(text, 0).value;
    if k < p { MatchIsLine(text, k); }
  }

  lemma FoundIsOffer(text: string, p: nat, group: string, list: seq<string>)
    requires Search(text, 0) == Some((p, group)) && ParseStringArray(group) == Some(list) && list != []
    ensures Offers(text, p, list)
  {
    SearchFinds(text, 0);
    MatchIsLine(text, p);
    NoLineIfNoMatch(text, p);
    var items := SpelledArray(group, list);
    assert LineAt(text, p, PrintArray(items));
  }

  /** What is kept and what is offered, for every text: the chips are read exactly when the text ends in a line that
      spells them, and then the line is cut off; otherwise only trailing whitespace is. */
  lemma ParseSays(text: string)
    ensures Says(text, ParseSuggestions(text).0, ParseSuggestions(text).1)
  {
    RStripTrims(text);
    match ParseSuggestions(text).1
    case None =>
      forall p: nat, list ensures !Offers(text, p, list) {
        if Offers(text, p, list) { OfferIsFound(text, p, list); }
      }
    case Some(list) =>
      var (p, group) := Search(text, 0).value;
      FoundIsOffer(text, p, group, list);
      RStripTrims(text[..p]);
  }

  lemma TrimmedIsRStrip(text: string, said: string)
    requires Trimmed(text, said)
    ensures RStrip(text) == said
  {
    assert text == said + text[|said|..];
    RStripSkips(said, text[|said|..]);
  }

  lemma OfferIfRead(text: string)
    ensures ParseSuggestions(text).1.Some? ==> exists p: nat :: Offers(text, p, ParseSuggestions(text).1.value)
  {
    ParseSays(text);
  }

  /** And nothing else is what it says. */
  lemma SaysIff(text: string, said: string, chips: Option<seq<string>>)
    ensures Says(text, said, chips) <==> ParseSuggestions(text) == (said, chips)
  {
    ParseSays(text);
    if Says(text, said, chips) {
      match chips
      case None =>
        TrimmedIsRStrip(text, said);
        OfferIfRead(text);
      case Some(list) =>
        var p: nat :| p <= |text| && Offers(text, p, list) && Trimmed(text[..p], said);
        OfferIsFound(text, p, list);
        TrimmedIsRStrip(text[..p], said);
    }
  }
}
