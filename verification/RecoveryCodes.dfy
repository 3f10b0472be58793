/** How a recovery code is written, and how what the user types is read back. */
module RecoveryCodes {
  import opened Ascii
  import opened PythonText
  import opened Texts

  /** The alphabet 23456789ABCDEFGHJKMNPQRSTVWXYZ. */
  predicate IsSymbol(c: char) {
    || '2' <= c <= '9' || 'A' <= c <= 'H' || c == 'J' || c == 'K' || c == 'M' || c == 'N'
    || 'P' <= c <= 'T' || 'V' <= c <= 'Z'
  }

  const ALPHABET: string := "23456789ABCDEFGHJKMNPQRSTVWXYZ"

  /** The alphabet has thirty symbols, listed without repetition. */
  lemma ThirtySymbols()
    ensures |ALPHABET| == 30 && forall i, j :: 0 <= i < j < |ALPHABET| ==> ALPHABET[i] < ALPHABET[j]
    ensures forall c :: IsSymbol(c) <==> c in ALPHABET
  {
    Ascending(ALPHABET);
    forall c | IsSymbol(c) ensures c in ALPHABET { Listed(c); }
  }

  lemma {:induction false} Ascending(s: string)
    requires forall i :: 0 <= i < |s| - 1 ==> s[i] < s[i + 1]
    ensures forall i, j :: 0 <= i < j < |s| ==> s[i] < s[j]
  {
    if |s| > 1 {
      Ascending(s[1..]);
      forall i, j | 0 <= i < j < |s| ensures s[i] < s[j] {
        if i == 0 && j > 1 { assert s[1] == s[1..][0] < s[1..][j - 1]; }
        if i > 0 { assert s[1..][i - 1] < s[1..][j - 1]; }
      }
    }
  }

  lemma Listed(c: char)
    requires IsSymbol(c)
    ensures c in ALPHABET
  {
    var k := c as int;
    var at := if c <= '9' then k - 50 else if c <= 'H' then k - 57 else if c <= 'K' then k - 58
              else if c <= 'N' then k - 59 else if c <= 'T' then k - 60 else k - 61;
    assert ALPHABET[at] == c;
  }

  const GROUP_LENGTH: nat := 4
  const GROUP_COUNT: nat := 3
  const TOTAL_CODES: nat := 10

  /** Cut into groups of four, joined by hyphens. */
  function Grouped(raw: string): string {
    if |raw| <= GROUP_LENGTH then raw else raw[..GROUP_LENGTH] + ("-" + Grouped(raw[GROUP_LENGTH..]))
  }

  function Squeeze(code: string): string { Texts.Upper(Remove(Remove(code, '-'), ' ')) }

  function Normalize(code: string): string { PythonText.Strip(Squeeze(code)) }

  /** What `verify_during_login` takes for a time-based code: six digits once spaces are gone. */
  predicate LooksLikeTotp(code: string) {
    var stripped := Remove(PythonText.Strip(code), ' ');
    |stripped| == 6 && forall i :: 0 <= i < |stripped| ==> IsDigit(stripped[i])
  }

  ghost predicate OverAlphabet(raw: string) { forall i :: 0 <= i < |raw| ==> IsSymbol(raw[i]) }

  /** A code as drawn: twelve symbols of the alphabet. */
  ghost predicate IsRaw(raw: string) { |raw| == GROUP_LENGTH * GROUP_COUNT && OverAlphabet(raw) }

  /** `v` is `raw` with spaces and hyphens put in anywhere and any letters in lower case. */
  ghost predicate IsVariant(v: string, raw: string) {
    if v == [] then raw == []
    else if v[0] == '-' || v[0] == ' ' then IsVariant(v[1..], raw)
    else raw != [] && UpperChar(v[0]) == raw[0] && IsVariant(v[1..], raw[1..])
  }

  ghost predicate Margin(s: string) { forall i :: 0 <= i < |s| ==> PythonText.IsSpace(s[i]) || s[i] == '-' }

  /** `v` is a variant of `raw` between margins of any whitespace and hyphens. */
  ghost predicate IsSpelling(v: string, raw: string) {
    exists i, j :: 0 <= i <= j <= |v| && Margin(v[..i]) && IsVariant(v[i..j], raw) && Margin(v[j..])
  }

  // ---- squeezing ----------------------------------------------------------

  predicate Dropped(c: char) { c == '-' || c == ' ' }

  lemma RemoveStep(s: string, c: char, d: char)
    ensures Remove([c] + s, d) == (if c == d then [] else [c]) + Remove(s, d)
  {
    assert ([c] + s)[1..] == s;
  }

  lemma UpperStep(c: char, s: string)
    ensures Texts.Upper([c] + s) == [UpperChar(c)] + Texts.Upper(s)
  {
  }

  lemma SqueezeStep(v: string)
    requires v != []
    ensures Squeeze(v) == (if Dropped(v[0]) then [] else [UpperChar(v[0])]) + Squeeze(v[1..])
  {
    var rest := Remove(v[1..], '-');
    assert v == [v[0]] + v[1..];
    RemoveStep(v[1..], v[0], '-');
    RemoveStep(rest, v[0], ' ');
    UpperStep(v[0], Remove(rest, ' '));
  }

  lemma {:induction false} SqueezeJoin(a: string, b: string)
    ensures Squeeze(a + b) == Squeeze(a) + Squeeze(b)
  {
    if a == [] {
      assert a + b == b;
    } else {
      var head := if Dropped(a[0]) then [] else [UpperChar(a[0])];
      assert Squeeze(a) == head + Squeeze(a[1..]) by { SqueezeStep(a); }
      assert Squeeze(a + b) == head + Squeeze(a[1..] + b) by {
        assert (a + b)[1..] == a[1..] + b;
        SqueezeStep(a + b);
      }
      SqueezeJoin(a[1..], b);
      Regroup(head, Squeeze(a[1..]), Squeeze(b));
    }
  }

  lemma Regroup(a: string, b: string, c: string)
    ensures a + (b + c) == (a + b) + c
  {
  }

  /** A cut of the squeezed string comes from a cut of the string. */
  lemma {:induction false} SqueezeSplit(v: string, a: string, b: string) returns (i: nat)
    requires Squeeze(v) == a + b
    ensures i <= |v| && Squeeze(v[..i]) == a && Squeeze(v[i..]) == b
  {
    if a == [] {
      i := 0;
      assert v[..0] == [] && v[0..] == v && a + b == b;
    } else {
      SqueezeStep(v);
      if Dropped(v[0]) {
        i := SqueezeSplit(v[1..], a, b);
      } else {
        assert (a + b)[1..] == a[1..] + b;
        i := SqueezeSplit(v[1..], a[1..], b);
      }
      i := i + 1;
      assert v[..i][1..] == v[1..][..i - 1] && v[1..][i - 1..] == v[i..];
      SqueezeStep(v[..i]);
    }
  }

  lemma {:induction false} SqueezeIff(v: string, raw: string)
    ensures Squeeze(v) == raw <==> IsVariant(v, raw)
  {
    if v != [] {
      SqueezeStep(v);
      if Dropped(v[0]) {
        SqueezeIff(v[1..], raw);
      } else if raw != [] {
        SqueezeIff(v[1..], raw[1..]);
        assert raw == [raw[0]] + raw[1..];
      }
    }
  }

  lemma {:induction false} SqueezedMargin(v: string)
    ensures Blank(Squeeze(v)) <==> Margin(v)
  {
    if v != [] {
      SqueezeStep(v);
      SqueezedMargin(v[1..]);
      MarginCons(v[0], v[1..]);
      assert v == [v[0]] + v[1..];
      if !Dropped(v[0]) { BlankCons(UpperChar(v[0]), Squeeze(v[1..])); }
    }
  }

  lemma MarginCons(c: char, s: string)
    ensures Margin([c] + s) <==> (PythonText.IsSpace(c) || c == '-') && Margin(s)
  {
    assert ([c] + s)[0] == c;
    assert forall i :: 0 <= i < |s| ==> ([c] + s)[i + 1] == s[i];
  }

  lemma BlankCons(c: char, s: string)
    ensures Blank([c] + s) <==> PythonText.IsSpace(c) && Blank(s)
  {
    assert ([c] + s)[0] == c;
    assert forall i :: 0 <= i < |s| ==> ([c] + s)[i + 1] == s[i];
  }

  // ---- stripping ----------------------------------------------------------

  /** No space at either end. */
  ghost predicate Tight(s: string) {
    s != [] ==> !PythonText.IsSpace(s[0]) && !PythonText.IsSpace(s[|s| - 1])
  }

  /** Stripping leaves what lies between blank margins. */
  lemma StripIsCore(front: string, core: string, back: string)
    requires Blank(front) && Blank(back) && Tight(core)
    ensures PythonText.Strip(front + (core + back)) == core
  {
    if core == [] {
      assert front + (core + back) == (front + back) + [];
      SkipSkips(front + back, []);
    } else {
      SkipSkips(front, core + back);
      RStripSkips(core, back);
    }
  }

  lemma StripOfPadded(front: string, raw: string, back: string)
    requires OverAlphabet(raw) && Blank(front) && Blank(back)
    ensures PythonText.Strip(front + (raw + back)) == raw
  {
    SymbolsAreNotSpace(raw);
    StripIsCore(front, raw, back);
  }

  lemma SymbolsAreNotSpace(raw: string)
    requires OverAlphabet(raw)
    ensures forall i :: 0 <= i < |raw| ==> !PythonText.IsSpace(raw[i]) && raw[i] != '-' && UpperChar(raw[i]) == raw[i]
  {
  }

  // ---- reading back -------------------------------------------------------

  /** Every spelling of a code reads back as the code. */
  lemma SpellingsNormalize(v: string, raw: string)
    requires OverAlphabet(raw) && IsSpelling(v, raw)
    ensures Normalize(v) == raw
  {
    var i, j :| 0 <= i <= j <= |v| && Margin(v[..i]) && IsVariant(v[i..j], raw) && Margin(v[j..]);
    assert v == v[..i] + (v[i..j] + v[j..]);
    SqueezeJoin(v[..i], v[i..j] + v[j..]);
    SqueezeJoin(v[i..j], v[j..]);
    SqueezedMargin(v[..i]);
    SqueezeIff(v[i..j], raw);
    SqueezedMargin(v[j..]);
    StripOfPadded(Squeeze(v[..i]), raw, Squeeze(v[j..]));
  }

  /** Nothing else reads back as the code. */
  lemma NormalizedIsSpelling(v: string)
    ensures IsSpelling(v, Normalize(v))
  {
    var front := SkipCuts(Squeeze(v));
    var back := RStripCuts(SkipSpace(Squeeze(v)));
    var i := SqueezeSplit(v, front, Normalize(v) + back);
    var k := SqueezeSplit(v[i..], Normalize(v), back);
    assert v[i..][..k] == v[i..i + k] && v[i..][k..] == v[i + k..];
    SqueezedMargin(v[..i]);
    SqueezeIff(v[i..i + k], Normalize(v));
    SqueezedMargin(v[i + k..]);
  }

  /** What the user types reads back as a code exactly when it is a spelling of it. */
  lemma NormalizeIff(v: string, raw: string)
    requires OverAlphabet(raw)
    ensures Normalize(v) == raw <==> IsSpelling(v, raw)
  {
    if IsSpelling(v, raw) { SpellingsNormalize(v, raw); }
    if Normalize(v) == raw { NormalizedIsSpelling(v); }
  }

  // ---- the printed form ---------------------------------------------------

  lemma {:induction false} VariantOfItself(raw: string)
    requires OverAlphabet(raw)
    ensures IsVariant(raw, raw)
  {
    SymbolsAreNotSpace(raw);
    if raw != [] { VariantOfItself(raw[1..]); }
  }

  lemma {:induction false} VariantJoin(v: string, raw: string, v': string, raw': string)
    requires IsVariant(v, raw) && IsVariant(v', raw')
    ensures IsVariant(v + v', raw + raw')
  {
    if v == [] {
      assert v + v' == v' && raw + raw' == raw';
    } else {
      assert (v + v')[1..] == v[1..] + v';
      if v[0] == '-' || v[0] == ' ' {
        VariantJoin(v[1..], raw, v', raw');
      } else {
        assert (raw + raw')[1..] == raw[1..] + raw';
        VariantJoin(v[1..], raw[1..], v', raw');
      }
    }
  }

  lemma {:induction false} GroupedIsVariant(raw: string)
    requires OverAlphabet(raw)
    ensures IsVariant(Grouped(raw), raw)
  {
    if |raw| <= GROUP_LENGTH {
      VariantOfItself(raw);
    } else {
      var head, tail := raw[..GROUP_LENGTH], raw[GROUP_LENGTH..];
      VariantOfItself(head);
      GroupedIsVariant(tail);
      assert ("-" + Grouped(tail))[1..] == Grouped(tail);
      VariantJoin(head, head, "-" + Grouped(tail), tail);
      assert head + tail == raw;
    }
  }

  lemma VariantIsSpelling(v: string, raw: string)
    requires IsVariant(v, raw)
    ensures IsSpelling(v, raw)
  {
    assert v[0..|v|] == v && Margin(v[..0]) && Margin(v[|v|..]);
  }

  /** A code as shown has the form XXXX-XXXX-XXXX, and reads back as drawn. */
  lemma GroupedReadsBack(raw: string)
    requires IsRaw(raw)
    ensures Grouped(raw) == raw[..4] + ("-" + (raw[4..8] + ("-" + raw[8..])))
    ensures Normalize(Grouped(raw)) == raw
  {
    assert raw[4..][..4] == raw[4..8] && raw[4..][4..] == raw[8..];
    assert Grouped(raw[4..]) == raw[4..8] + ("-" + raw[8..]);
    GroupedIsVariant(raw);
    VariantIsSpelling(Grouped(raw), raw);
    SpellingsNormalize(Grouped(raw), raw);
  }

  // ---- the recovery branch ------------------------------------------------

  /** How many characters are not whitespace. */
  function Ink(s: string): nat {
    if s == [] then 0 else (if PythonText.IsSpace(s[0]) then 0 else 1) + Ink(s[1..])
  }

  lemma {:induction false} InkJoin(a: string, b: string)
    ensures Ink(a + b) == Ink(a) + Ink(b)
  {
    if a == [] {
      assert a + b == b;
    } else {
      assert (a + b)[1..] == a[1..] + b;
      InkJoin(a[1..], b);
    }
  }

  lemma {:induction false} BlankHasNoInk(s: string)
    requires Blank(s)
    ensures Ink(s) == 0
  {
    if s != [] { BlankHasNoInk(s[1..]); }
  }

  lemma StripKeepsInk(s: string)
    ensures Ink(PythonText.Strip(s)) == Ink(s)
  {
    var front := SkipCuts(s);
    var back := RStripCuts(SkipSpace(s));
    BlankHasNoInk(front);
    BlankHasNoInk(back);
    InkJoin(front, SkipSpace(s));
    InkJoin(PythonText.Strip(s), back);
  }

  lemma {:induction false} RemoveKeepsInk(s: string)
    ensures Ink(s) == Ink(Remove(s, ' ')) <= |Remove(s, ' ')|
  {
    if s != [] {
      RemoveKeepsInk(s[1..]);
      assert ([s[0]] + Remove(s[1..], ' '))[1..] == Remove(s[1..], ' ');
    }
  }

  lemma {:induction false} VariantHasInk(v: string, raw: string)
    requires OverAlphabet(raw) && IsVariant(v, raw)
    ensures Ink(v) >= |raw|
  {
    if v != [] {
      if v[0] == '-' || v[0] == ' ' {
        VariantHasInk(v[1..], raw);
      } else {
        assert IsSymbol(raw[0]);
        VariantHasInk(v[1..], raw[1..]);
      }
    }
  }

  /** No spelling of a code is taken for a time-based one. */
  lemma SpellingsAreNotTotp(v: string, raw: string)
    requires IsRaw(raw) && IsSpelling(v, raw)
    ensures !LooksLikeTotp(v)
  {
    var i, j :| 0 <= i <= j <= |v| && Margin(v[..i]) && IsVariant(v[i..j], raw) && Margin(v[j..]);
    assert v == v[..i] + (v[i..j] + v[j..]);
    InkJoin(v[..i], v[i..j] + v[j..]);
    InkJoin(v[i..j], v[j..]);
    VariantHasInk(v[i..j], raw);
    StripKeepsInk(v);
    RemoveKeepsInk(PythonText.Strip(v));
  }

  // ---- the time-based branch ----------------------------------------------

  ghost predicate SixDigits(s: string) { |s| == 6 && forall i :: 0 <= i < |s| ==> '0' <= s[i] <= '9' }

  /** `v` is `s` with spaces put in anywhere. */
  ghost predicate Spaced(v: string, s: string) {
    if v == [] then s == []
    else if v[0] == ' ' then Spaced(v[1..], s)
    else s != [] && v[0] == s[0] && Spaced(v[1..], s[1..])
  }

  /** `v` is six digits, with spaces between them and any whitespace around. */
  ghost predicate TypesDigits(v: string, digits: string) {
    && SixDigits(digits)
    && exists i, j :: 0 <= i <= j <= |v| && Blank(v[..i]) && Spaced(v[i..j], digits) && Blank(v[j..])
  }

  lemma {:induction false} SpacedIff(v: string, s: string)
    ensures Spaced(v, s) <==> Remove(v, ' ') == s
  {
    if v != [] {
      if v[0] == ' ' {
        SpacedIff(v[1..], s);
      } else if s != [] {
        SpacedIff(v[1..], s[1..]);
        assert s == [s[0]] + s[1..];
      }
    }
  }

  lemma {:induction false} RemoveJoin(a: string, b: string)
    ensures Remove(a + b, ' ') == Remove(a, ' ') + Remove(b, ' ')
  {
    if a == [] {
      assert a + b == b;
    } else {
      assert (a + b)[1..] == a[1..] + b;
      RemoveJoin(a[1..], b);
    }
  }

  lemma {:induction false} RemoveKeepsBlank(s: string)
    requires Blank(s)
    ensures Blank(Remove(s, ' '))
  {
    if s != [] { RemoveKeepsBlank(s[1..]); }
  }

  /** Without spaces at its ends, a string keeps its first and last character. */
  lemma RemoveKeepsTight(s: string)
    requires Tight(s)
    ensures Tight(Remove(s, ' '))
  {
    if s != [] {
      var n := |s| - 1;
      assert s == [s[0]] + s[1..] && s == s[..n] + [s[n]];
      RemoveStep(s[1..], s[0], ' ');
      RemoveJoin(s[..n], [s[n]]);
    }
  }

  lemma RemoveOfParts(front: string, core: string, back: string)
    ensures Remove(front + (core + back), ' ') == Remove(front, ' ') + (Remove(core, ' ') + Remove(back, ' '))
  {
    RemoveJoin(front, core + back);
    RemoveJoin(core, back);
  }

  /** It does not matter whether spaces are removed before or after stripping. */
  lemma StripRemoveCommute(v: string)
    ensures PythonText.Strip(Remove(v, ' ')) == Remove(PythonText.Strip(v), ' ')
  {
    var front := SkipCuts(v);
    var back := RStripCuts(SkipSpace(v));
    StripIsTight(v);
    RemoveOfParts(front, PythonText.Strip(v), back);
    RemoveKeepsBlank(front);
    RemoveKeepsTight(PythonText.Strip(v));
    RemoveKeepsBlank(back);
    StripIsCore(Remove(front, ' '), Remove(PythonText.Strip(v), ' '), Remove(back, ' '));
  }

  lemma {:induction false} SkipIsTight(s: string)
    ensures SkipSpace(s) == [] || !PythonText.IsSpace(SkipSpace(s)[0])
  {
    if s != [] && PythonText.IsSpace(s[0]) { SkipIsTight(s[1..]); }
  }

  lemma {:induction false} RStripIsTight(s: string)
    ensures RStrip(s) == [] || !PythonText.IsSpace(RStrip(s)[|RStrip(s)| - 1])
  {
    if s != [] && PythonText.IsSpace(s[|s| - 1]) { RStripIsTight(s[..|s| - 1]); }
  }

  lemma StripIsTight(s: string)
    ensures Tight(PythonText.Strip(s))
  {
    SkipIsTight(s);
    RStripIsTight(SkipSpace(s));
  }

  lemma SixDigitsAreTight(s: string)
    requires SixDigits(s)
    ensures Tight(s)
  {
    assert '0' <= s[0] <= '9' && '0' <= s[5] <= '9';
  }

  lemma TypedDigitsStrip(v: string, digits: string)
    requires TypesDigits(v, digits)
    ensures Remove(PythonText.Strip(v), ' ') == digits
  {
    var i, j :| 0 <= i <= j <= |v| && Blank(v[..i]) && Spaced(v[i..j], digits) && Blank(v[j..]);
    var front, mid, back := v[..i], v[i..j], v[j..];
    assert v == front + (mid + back);
    SpacedIff(mid, digits);
    RemoveOfParts(front, mid, back);
    RemoveKeepsBlank(front);
    RemoveKeepsBlank(back);
    SixDigitsAreTight(digits);
    StripIsCore(Remove(front, ' '), digits, Remove(back, ' '));
    StripRemoveCommute(v);
  }

  lemma StrippedIsTyped(v: string)
    requires SixDigits(Remove(PythonText.Strip(v), ' '))
    ensures TypesDigits(v, Remove(PythonText.Strip(v), ' '))
  {
    var core := PythonText.Strip(v);
    var front := SkipCuts(v);
    var back := RStripCuts(SkipSpace(v));
    assert v == front + (core + back);
    var i, j := |front|, |front| + |core|;
    assert v[..i] == front && v[i..j] == core && v[j..] == back;
    SpacedIff(v[i..j], Remove(core, ' '));
  }

  /** What the user types is taken for a time-based code exactly when it is six digits with spaces put in, and these
      digits are what is checked. */
  lemma TypesDigitsIff(v: string, digits: string)
    ensures TypesDigits(v, digits) <==> LooksLikeTotp(v) && digits == Remove(PythonText.Strip(v), ' ')
  {
    if TypesDigits(v, digits) { TypedDigitsStrip(v, digits); }
    if LooksLikeTotp(v) { StrippedIsTyped(v); }
  }
}
