/** Reading chips undoes writing them. */
module SuggestionsProperties {
  import opened Wrappers
  import opened PythonText
  import opened Suggestions

  // ---- strings ------------------------------------------------------------

  lemma HexReads(digits: string, rest: string)
    requires IsHex4(digits) && !IsHigh(Hex4(digits)) && !IsLow(Hex4(digits))
    ensures ReadUnicode(digits + rest) == Read(Hex4(digits) as char, rest)
  {
    assert (digits + rest)[..4] == digits && (digits + rest)[4..] == rest;
  }

  lemma PairReads(high: string, low: string, rest: string)
    requires IsHex4(high) && IsHex4(low) && IsHigh(Hex4(high)) && IsLow(Hex4(low))
    ensures ReadUnicode(high + (['\\', 'u'] + low) + rest) == Read(PairChar(Hex4(high), Hex4(low)), rest)
  {
    var s := high + (['\\', 'u'] + low) + rest;
    assert s[..4] == high && s[4] == '\\' && s[5] == 'u' && s[6..10] == low && s[10..] == rest;
  }

  /** Any way of writing a character reads as that character. */
  lemma TokenReads(t: Token, rest: string)
    requires t.Valid()
    ensures t.Print() != [] && t.Print()[0] != '"' && (t.Print() + rest)[0] == t.Print()[0]
    ensures ReadChar(t.Print() + rest) == Read(t.Meaning(), rest)
  {
    var s := t.Print() + rest;
    match t
    case Raw(c) => assert s[1..] == rest;
    case Short(letter) => assert s[2..] == rest;
    case Hex(digits) =>
      assert s[2..] == digits + rest;
      HexReads(digits, rest);
    case Pair(high, low) =>
      assert s[2..] == high + (['\\', 'u'] + low) + rest;
      PairReads(high, low, rest);
  }

  lemma Assoc(a: string, b: string, c: string)
    ensures (a + b) + c == a + (b + c)
  {
  }

  lemma {:induction false} StringReads(tokens: seq<Token>, rest: string)
    requires ValidTokens(tokens)
    ensures ReadString(PrintTokens(tokens) + (['"'] + rest)) == Read(MeaningOf(tokens), rest)
  {
    var s := PrintTokens(tokens) + (['"'] + rest);
    if tokens == [] {
      assert s == ['"'] + rest;
      assert s[1..] == rest;
    } else {
      var tail := PrintTokens(tokens[1..]) + (['"'] + rest);
      Assoc(tokens[0].Print(), PrintTokens(tokens[1..]), ['"'] + rest);
      assert s == tokens[0].Print() + tail;
      TokenReads(tokens[0], tail);
      StringReads(tokens[1..], rest);
    }
  }

  // ---- arrays -------------------------------------------------------------

  lemma {:induction false} SkipsBlank(blank: string, rest: string)
    requires IsBlank(blank) && (rest == [] || !IsJsonSpace(rest[0]))
    ensures SkipJsonSpace(blank + rest) == rest
  {
    if blank == [] {
      assert blank + rest == rest;
    } else {
      assert (blank + rest)[1..] == blank[1..] + rest;
      SkipsBlank(blank[1..], rest);
    }
  }

  /** An item followed by a comma or the bracket. */
  lemma ItemReads(item: Item, rest: string) returns (quoted: string)
    requires item.Valid() && rest != [] && !IsJsonSpace(rest[0])
    ensures SkipJsonSpace(PrintItem(item) + rest) == ['"'] + quoted
    ensures ReadString(quoted).Read? && ReadString(quoted).value == MeaningOf(item.tokens)
    ensures SkipJsonSpace(ReadString(quoted).rest) == rest
  {
    quoted := PrintTokens(item.tokens) + (['"'] + (item.after + rest));
    var inner := ['"'] + item.after;
    assert PrintItem(item) + rest == item.before + (['"'] + quoted) by {
      Assoc(item.before, ['"'] + (PrintTokens(item.tokens) + inner), rest);
      Assoc(['"'], PrintTokens(item.tokens) + inner, rest);
      Assoc(PrintTokens(item.tokens), inner, rest);
      Assoc(['"'], item.after, rest);
    }
    SkipsBlank(item.before, ['"'] + quoted);
    StringReads(item.tokens, item.after + rest);
    SkipsBlank(item.after, rest);
  }

  /** The last item, and any other. */
  lemma LastItemReads(quoted: string)
    requires ReadString(quoted).Read? && SkipJsonSpace(ReadString(quoted).rest) == "]"
    ensures ReadItems(['"'] + quoted) == Read([ReadString(quoted).value], [])
  {
    assert (['"'] + quoted)[1..] == quoted;
    assert "]"[1..] == [];
  }

  lemma NextItemReads(quoted: string, rest: string, items: seq<string>)
    requires ReadString(quoted).Read? && SkipJsonSpace(ReadString(quoted).rest) == [','] + rest
    requires ReadItems(SkipJsonSpace(rest)) == Read(items, [])
    ensures ReadItems(['"'] + quoted) == Read([ReadString(quoted).value] + items, [])
  {
    assert (['"'] + quoted)[1..] == quoted;
    assert ([','] + rest)[1..] == rest;
  }

  lemma OneItemReads(item: Item)
    requires item.Valid()
    ensures var s := SkipJsonSpace(PrintItem(item) + "]");
            s != [] && s[0] == '"' && ReadItems(s) == Read([MeaningOf(item.tokens)], [])
  {
    var quoted := ItemReads(item, "]");
    LastItemReads(quoted);
  }

  lemma MoreItemsRead(item: Item, rest: string, items: seq<string>)
    requires item.Valid() && ReadItems(SkipJsonSpace(rest)) == Read(items, [])
    ensures var s := SkipJsonSpace(PrintItem(item) + ([','] + rest));
            s != [] && s[0] == '"' && ReadItems(s) == Read([MeaningOf(item.tokens)] + items, [])
  {
    var quoted := ItemReads(item, [','] + rest);
    NextItemReads(quoted, rest, items);
  }

  lemma {:induction false} ItemsRead(items: seq<Item>)
    requires items != [] && ValidItems(items)
    ensures SkipJsonSpace(PrintItems(items)) != [] && SkipJsonSpace(PrintItems(items))[0] == '"'
    ensures ReadItems(SkipJsonSpace(PrintItems(items))) == Read(Chips(items), [])
  {
    if |items| == 1 {
      OneItemReads(items[0]);
      assert Chips(items) == [MeaningOf(items[0].tokens)];
    } else {
      ItemsRead(items[1..]);
      MoreItemsRead(items[0], PrintItems(items[1..]), Chips(items[1..]));
      assert Chips(items) == [MeaningOf(items[0].tokens)] + Chips(items[1..]);
    }
  }

  /** `json.loads` undoes every single-line way of writing a non-empty array of strings. */
  lemma ArrayReads(items: seq<Item>)
    requires items != [] && ValidItems(items)
    ensures ParseStringArray(PrintArray(items)) == Some(Chips(items))
  {
    var s := PrintArray(items);
    assert SkipJsonSpace(s) == s;
    assert s[1..] == PrintItems(items);
    ItemsRead(items);
  }

  lemma {:induction false} PrintTokensOneLine(tokens: seq<Token>)
    requires ValidTokens(tokens)
    ensures '\n' !in PrintTokens(tokens)
  {
    if tokens != [] {
      PrintTokensOneLine(tokens[1..]);
      TokenOneLine(tokens[0]);
    }
  }

  lemma TokenOneLine(t: Token)
    requires t.Valid()
    ensures '\n' !in t.Print()
  {
  }

  lemma {:induction false} PrintItemsOneLine(items: seq<Item>)
    requires items != [] && ValidItems(items)
    ensures '\n' !in PrintItems(items)
    ensures PrintItems(items)[|PrintItems(items)| - 1] == ']'
  {
    PrintTokensOneLine(items[0].tokens);
    assert '\n' !in PrintItem(items[0]);
    if |items| > 1 { PrintItemsOneLine(items[1..]); }
  }

  // ---- finding the line ---------------------------------------------------

  /** The marker does not overlap itself, so a body without it adds no earlier occurrence. */
  lemma MarkerFirstAtEnd(body: string, tail: string, p: nat)
    requires p < |body| && !MarkerAt(body, p)
    ensures !MarkerAt(body + (MARKER + tail), p)
  {
    var text := body + (MARKER + tail);
    if p + |MARKER| <= |body| {
      assert text[p..p + |MARKER|] == body[p..p + |MARKER|];
    } else if p + |MARKER| <= |text| {
      var last := p + |MARKER| - 1;
      assert text[last] == MARKER[last - |body|];
      ColonOnlyAtEnd(last - |body|);
      assert text[p..p + |MARKER|][|MARKER| - 1] == text[last];
      assert MARKER[|MARKER| - 1] == ':';
    }
  }

  lemma ColonOnlyAtEnd(k: nat)
    requires k < |MARKER| - 1
    ensures MARKER[k] != ':'
  {
    assert MARKER == ['S', 'U', 'G', 'G', 'E', 'S', 'T', 'I', 'O', 'N', 'S', ':'];
  }

  lemma {:induction false} SearchSkips(text: string, p: nat, q: nat)
    requires p <= q <= |text| && MatchAt(text, q).Some?
    requires forall i :: p <= i < q ==> !MarkerAt(text, i)
    ensures Search(text, p) == Some((q, MatchAt(text, q).value))
    decreases q - p
  {
    if p < q { SearchSkips(text, p + 1, q); }
  }

  lemma RStripText(body: string, gap: string, chips: string, trail: string)
    requires Blank(trail) && chips != [] && chips[|chips| - 1] == ']'
    ensures RStrip(body + (MARKER + (gap + (chips + trail)))) == body + (MARKER + (gap + chips))
  {
    var front := body + (MARKER + (gap + chips));
    Assoc(gap, chips, trail);
    Assoc(MARKER, gap + chips, trail);
    Assoc(body, MARKER + (gap + chips), trail);
    assert front[|front| - 1] == chips[|chips| - 1];
    RStripSkips(front, trail);
  }

  lemma SliceMiddle(a: string, b: string, c: string)
    ensures (a + (b + c))[|a|..|a| + |b|] == b && (a + (b + c))[|a| + |b|..] == c
  {
  }

  /** The group matched at the marker is exactly the array. */
  lemma MatchesArray(body: string, gap: string, chips: string, trail: string)
    requires Blank(gap) && Blank(trail) && |chips| >= 2
    requires chips[0] == '[' && chips[|chips| - 1] == ']' && '\n' !in chips
    ensures MatchAt(body + (MARKER + (gap + (chips + trail))), |body|) == Some(chips)
  {
    SpanOfGroup(body, gap, chips, trail);
    Assoc(body, MARKER, gap + (chips + trail));
    Assoc(body + MARKER, gap, chips + trail);
    BracketsFound(body + MARKER + gap, chips, trail);
  }

  /** Where the group starts, and where the text ends but for whitespace. */
  lemma SpanOfGroup(body: string, gap: string, chips: string, trail: string)
    requires Blank(gap) && Blank(trail) && |chips| >= 2 && chips[0] == '[' && chips[|chips| - 1] == ']'
    ensures var text, q := body + (MARKER + (gap + (chips + trail))), |body| + |MARKER| + |gap|;
            && MarkerAt(text, |body|) && |text| - |SkipSpace(text[|body| + |MARKER|..])| == q
            && |RStrip(text)| == q + |chips|
  {
    SliceMiddle(body, MARKER, gap + (chips + trail));
    SkipSkips(gap, chips + trail);
    RStripText(body, gap, chips, trail);
  }

  lemma BracketsFound(front: string, chips: string, trail: string)
    requires |chips| >= 2 && chips[0] == '[' && chips[|chips| - 1] == ']' && '\n' !in chips
    ensures Bracketed(front + (chips + trail), |front|, |front| + |chips|) == Some(chips)
  {
    var text, end := front + (chips + trail), |front| + |chips|;
    SliceMiddle(front, chips, trail);
    assert text[|front|] == chips[0] && text[end - 1] == chips[|chips| - 1];
    assert text[|front| + 1..end - 1] == chips[1..|chips| - 1];
  }

  /** Parsing undoes printing: any body without the marker, any blanks, any single-line way of writing any
      non-empty list of strings, any trailing whitespace. */
  lemma ParseUndoesPrint(body: string, gap: string, items: seq<Item>, trail: string)
    requires forall p :: 0 <= p < |body| ==> !MarkerAt(body, p)
    requires Blank(gap) && Blank(trail) && items != [] && ValidItems(items)
    ensures ParseSuggestions(body + (MARKER + (gap + (PrintArray(items) + trail))))
         == (RStrip(body), Some(Chips(items)))
  {
    var chips := PrintArray(items);
    var tail := gap + (chips + trail);
    var text := body + (MARKER + tail);
    PrintItemsOneLine(items);
    MatchesArray(body, gap, chips, trail);
    forall p | 0 <= p < |body| ensures !MarkerAt(text, p) { MarkerFirstAtEnd(body, tail, p); }
    SearchSkips(text, 0, |body|);
    ArrayReads(items);
    assert text[..|body|] == body;
  }

  // ---- every list has a spelling ------------------------------------------

  function HexChar(n: int): (c: char)
    requires 0 <= n < 16
    ensures IsHex(c) && HexDigit(c) == n
  {
    if n < 10 then ('0' as int + n) as char else ('a' as int + n - 10) as char
  }

  /** Control characters in hexadecimal, quote and backslash escaped, anything else as it is. */
  function SpellChar(c: char): (t: Token)
    ensures t.Valid() && t.Meaning() == c
  {
    if c == '"' || c == '\\' then Short(c)
    else if c >= ' ' then Raw(c)
    else Hex(['0', '0', HexChar(c as int / 16), HexChar(c as int % 16)])
  }

  function Spell(s: string): (tokens: seq<Token>)
    ensures ValidTokens(tokens) && MeaningOf(tokens) == s
  {
    if s == [] then [] else [SpellChar(s[0])] + Spell(s[1..])
  }

  function Spellings(list: seq<string>): (items: seq<Item>)
    ensures |items| == |list| && ValidItems(items) && Chips(items) == list
  {
    seq(|list|, i requires 0 <= i < |list| => Item("", Spell(list[i]), ""))
  }

  /** Whatever the strings of a non-empty list hold, the list can be written behind a body, and is read back. */
  lemma EveryListIsRead(body: string, gap: string, list: seq<string>, trail: string)
    requires forall p :: 0 <= p < |body| ==> !MarkerAt(body, p)
    requires Blank(gap) && Blank(trail) && list != []
    ensures ParseSuggestions(body + (MARKER + (gap + (PrintArray(Spellings(list)) + trail))))
         == (RStrip(body), Some(list))
  {
    ParseUndoesPrint(body, gap, Spellings(list), trail);
  }

  lemma {:induction false} NoMatchWithoutMarker(text: string, p: nat)
    requires p <= |text| && forall q :: p <= q <= |text| ==> !MarkerAt(text, q)
    ensures Search(text, p) == None
    decreases |text| - p
  {
    if p < |text| { NoMatchWithoutMarker(text, p + 1); }
  }

  /** A text without the marker loses only its trailing whitespace. */
  lemma PlainTextUntouched(text: string)
    requires forall p :: 0 <= p <= |text| ==> !MarkerAt(text, p)
    ensures ParseSuggestions(text) == (RStrip(text), None)
  {
    NoMatchWithoutMarker(text, 0);
  }
}
