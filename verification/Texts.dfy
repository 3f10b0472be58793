/** The string functions of the text operations. Whitespace is the full Unicode White_Space set; casing is ASCII. */
module Texts {
  import opened Ascii

  predicate IsSpace(c: char) {
    || '\t' <= c <= '\r' || c == ' ' || c == '\U{85}' || c == '\U{a0}' || c == '\U{1680}'
    || '\U{2000}' <= c <= '\U{200a}' || '\U{2028}' <= c <= '\U{2029}'
    || c == '\U{202f}' || c == '\U{205f}' || c == '\U{3000}'
  }

  predicate IsAlnum(c: char) { IsDigit(c) || 'a' <= c <= 'z' || 'A' <= c <= 'Z' }

  function LowerChar(c: char): char {
    if 'A' <= c <= 'Z' then ((c as int) + 32) as char else c
  }

  function UpperChar(c: char): char {
    if 'a' <= c <= 'z' then ((c as int) - 32) as char else c
  }

  predicate AllSpace(s: string) { forall i :: 0 <= i < |s| ==> IsSpace(s[i]) }

  predicate NoSpace(s: string) { forall i :: 0 <= i < |s| ==> !IsSpace(s[i]) }

  // ---- strip_chars -------------------------------------------------------

  function TrimLeft(s: string): (r: string)
    ensures |r| <= |s|
    ensures r != [] ==> !IsSpace(r[0])
  {
    if s != [] && IsSpace(s[0]) then TrimLeft(s[1..]) else s
  }

  function TrimRight(s: string): (r: string)
    ensures r <= s
    ensures r != [] ==> !IsSpace(r[|r| - 1])
  {
    if s != [] && IsSpace(s[|s| - 1]) then TrimRight(s[..|s| - 1]) else s
  }

  lemma {:induction false} TrimLeftCuts(s: string) returns (front: string)
    ensures s == front + TrimLeft(s) && AllSpace(front)
  {
    front := [];
    if s != [] && IsSpace(s[0]) {
      front := TrimLeftCuts(s[1..]);
      front := [s[0]] + front;
    }
  }

  lemma {:induction false} TrimRightCuts(s: string) returns (back: string)
    ensures s == TrimRight(s) + back && AllSpace(back)
  {
    back := [];
    if s != [] && IsSpace(s[|s| - 1]) {
      back := TrimRightCuts(s[..|s| - 1]);
      back := back + [s[|s| - 1]];
      assert s == s[..|s| - 1] + [s[|s| - 1]];
    }
  }

  function Strip(s: string): string { TrimRight(TrimLeft(s)) }

  ghost predicate Stripped(s: string) { s == [] || (!IsSpace(s[0]) && !IsSpace(s[|s| - 1])) }

  /** What `Strip` removes is whitespace at the two ends, and no more can be removed. */
  lemma StripRemovesEndsOnly(s: string) returns (front: string, back: string)
    ensures s == front + Strip(s) + back
    ensures AllSpace(front) && AllSpace(back) && Stripped(Strip(s))
  {
    front := TrimLeftCuts(s);
    back := TrimRightCuts(TrimLeft(s));
    assert front + (Strip(s) + back) == front + Strip(s) + back;
  }

  /** Stripping is the only way to cut whitespace off both ends: the core is unique. */
  lemma StripIsUnique(s: string, front: string, core: string, back: string)
    requires s == front + core + back && AllSpace(front) && AllSpace(back) && Stripped(core)
    ensures Strip(s) == core
  {
    if core == [] {
      assert s == (front + back) + [];
      TrimLeftSkips(front + back, []);
    } else {
      TrimLeftSkips(front, core + back);
      assert s == front + (core + back);
      TrimRightSkips(core, back);
    }
  }

  lemma {:induction false} TrimLeftSkips(front: string, rest: string)
    requires AllSpace(front) && (rest == [] || !IsSpace(rest[0]))
    ensures TrimLeft(front + rest) == rest
  {
    if front == [] {
      assert front + rest == rest;
    } else {
      assert (front + rest)[1..] == front[1..] + rest;
      TrimLeftSkips(front[1..], rest);
    }
  }

  lemma {:induction false} TrimRightSkips(rest: string, back: string)
    requires AllSpace(back) && (rest == [] || !IsSpace(rest[|rest| - 1]))
    ensures TrimRight(rest + back) == rest
  {
    if back == [] {
      assert rest + back == rest;
    } else {
      assert (rest + back)[..|rest + back| - 1] == rest + back[..|back| - 1];
      TrimRightSkips(rest, back[..|back| - 1]);
    }
  }

  // ---- replace_all(r"\s+", " ") ------------------------------------------

  function Collapse(s: string): (r: string)
    decreases |s|
  {
    if s == [] then []
    else if IsSpace(s[0]) then
      assert |TrimLeft(s)| < |s|;
      " " + Collapse(TrimLeft(s))
    else [s[0]] + Collapse(s[1..])
  }

  /** Every whitespace character is a single plain space. */
  ghost predicate Collapsed(s: string) {
    forall i :: 0 <= i < |s| && IsSpace(s[i]) ==> s[i] == ' ' && (i + 1 < |s| ==> !IsSpace(s[i + 1]))
  }

  lemma {:induction false} CollapseCollapses(s: string)
    ensures Collapsed(Collapse(s))
    ensures s != [] ==> Collapse(s) != [] && (IsSpace(Collapse(s)[0]) <==> IsSpace(s[0]))
    decreases |s|
  {
    if s != [] {
      CollapseCollapses(if IsSpace(s[0]) then TrimLeft(s) else s[1..]);
    }
  }

  lemma {:induction false} CollapseFixes(s: string)
    requires Collapsed(s)
    ensures Collapse(s) == s
    decreases |s|
  {
    if s != [] {
      if IsSpace(s[0]) {
        assert TrimLeft(s) == s[1..] by {
          TrimLeftSkips(s[..1], s[1..]);
          assert s[..1] + s[1..] == s;
        }
      }
      assert forall i :: 0 <= i < |s[1..]| ==> s[1..][i] == s[i + 1];
      CollapseFixes(s[1..]);
    }
  }

  lemma TrimmedAway(s: string)
    requires TrimLeft(s) == []
    ensures AllSpace(s)
  {
    var front := TrimLeftCuts(s);
    assert front + [] == front;
  }

  lemma {:induction false} CollapseKeepsStripped(s: string)
    requires s != [] && !IsSpace(s[|s| - 1])
    ensures Collapse(s) != [] && !IsSpace(Collapse(s)[|Collapse(s)| - 1])
    decreases |s|
  {
    if |s| > 1 {
      var t := if IsSpace(s[0]) then TrimLeft(s) else s[1..];
      if IsSpace(s[0]) {
        var front := TrimLeftCuts(s);
        assert t != [] by { if t == [] { TrimmedAway(s); assert false; } }
      }
      CollapseKeepsStripped(t);
    }
  }

  // ---- casing ------------------------------------------------------------

  datatype Case = LowerCase | UpperCase | TitleCase | Preserve

  function Lower(s: string): string { seq(|s|, i requires 0 <= i < |s| => LowerChar(s[i])) }

  function Upper(s: string): string { seq(|s|, i requires 0 <= i < |s| => UpperChar(s[i])) }

  /** A letter is upper-cased exactly when no letter or digit precedes it. */
  function Title(s: string): string {
    seq(|s|, i requires 0 <= i < |s| =>
      if i > 0 && IsAlnum(s[i - 1]) then LowerChar(s[i]) else UpperChar(s[i]))
  }

  function ApplyCase(casing: Case, s: string): string {
    match casing
    case LowerCase => Lower(s)
    case UpperCase => Upper(s)
    case TitleCase => Title(s)
    case Preserve => s
  }

  /** Casing moves no whitespace: same length, same whitespace at the same places. */
  lemma CaseKeepsSpaces(casing: Case, s: string)
    ensures |ApplyCase(casing, s)| == |s|
    ensures forall i :: 0 <= i < |s| && IsSpace(s[i]) ==> ApplyCase(casing, s)[i] == s[i]
    ensures forall i :: 0 <= i < |s| && !IsSpace(s[i]) ==> !IsSpace(ApplyCase(casing, s)[i])
  {
  }

  lemma CaseIdempotent(casing: Case, s: string)
    ensures ApplyCase(casing, ApplyCase(casing, s)) == ApplyCase(casing, s)
  {
    var t := ApplyCase(casing, s);
    assert |ApplyCase(casing, t)| == |t|;
    assert forall i :: 0 <= i < |s| ==> IsAlnum(t[i]) == IsAlnum(s[i]);
    assert forall i :: 0 <= i < |t| ==> ApplyCase(casing, t)[i] == t[i];
  }

  // ---- splitting into words ----------------------------------------------

  /** The length of the leading run of non-whitespace. */
  function WordLength(s: string): (n: nat)
    ensures n <= |s| && NoSpace(s[..n]) && (n < |s| ==> IsSpace(s[n]))
  {
    if s == [] || IsSpace(s[0]) then 0 else
      var n := WordLength(s[1..]);
      assert s[..n + 1] == [s[0]] + s[1..][..n];
      n + 1
  }

  /** The maximal runs of non-whitespace, left to right. */
  function Words(s: string): (ws: seq<string>)
    ensures forall k :: 0 <= k < |ws| ==> ws[k] != [] && NoSpace(ws[k])
    decreases |s|
  {
    var t := TrimLeft(s);
    if t == [] then [] else [t[..WordLength(t)]] + Words(t[WordLength(t)..])
  }

  function JoinWords(ws: seq<string>): string {
    if ws == [] then [] else if |ws| == 1 then ws[0] else ws[0] + " " + JoinWords(ws[1..])
  }

  lemma {:induction false} CollapseWordThen(w: string, rest: string)
    requires NoSpace(w)
    ensures Collapse(w + rest) == w + Collapse(rest)
  {
    if w == [] {
      assert w + rest == rest;
    } else {
      assert (w + rest)[1..] == w[1..] + rest;
      CollapseWordThen(w[1..], rest);
      assert w + Collapse(rest) == [w[0]] + (w[1..] + Collapse(rest));
    }
  }

  lemma TrimRightThen(front: string, rest: string)
    requires TrimRight(rest) != []
    ensures TrimRight(front + rest) == front + TrimRight(rest)
  {
    var back := TrimRightCuts(rest);
    var core := TrimRight(rest);
    assert front + rest == (front + core) + back;
    TrimRightSkips(front + core, back);
  }

  lemma TrimsCommute(s: string)
    requires TrimLeft(s) != []
    ensures TrimRight(s) != [] && TrimLeft(TrimRight(s)) == TrimRight(TrimLeft(s)) && TrimRight(TrimLeft(s)) != []
  {
    var t := TrimLeft(s);
    var front := TrimLeftCuts(s);
    var back := TrimRightCuts(t);
    assert TrimRight(t) != [];
    TrimRightThen(front, t);
    TrimLeftSkips(front, TrimRight(t));
  }

  /** The first word and what follows it. */
  lemma WordsStep(t: string, n: nat)
    requires t != [] && !IsSpace(t[0]) && n == WordLength(t)
    ensures n > 0 && Words(t) == [t[..n]] + Words(t[n..])
  {
    assert TrimLeft(t) == t;
  }

  lemma WordsSkipLeading(s: string)
    ensures Words(s) == Words(TrimLeft(s))
  {
    assert TrimLeft(TrimLeft(s)) == TrimLeft(s);
  }

  lemma CollapseSpaceThen(s: string)
    requires s != [] && IsSpace(s[0])
    ensures Collapse(s) == " " + Collapse(TrimLeft(s))
  {
  }

  lemma {:induction false} CollapseTrimmedIsWords(t: string)
    requires t == [] || !IsSpace(t[0])
    ensures Collapse(TrimRight(t)) == JoinWords(Words(t))
    decreases |t|
  {
    if t != [] {
      var n := WordLength(t);
      WordsStep(t, n);
      var w, rest := t[..n], t[n..];
      assert t == w + rest;
      if TrimLeft(rest) == [] {
        LastWord(w, rest);
      } else {
        InnerWord(w, rest);
        CollapseTrimmedIsWords(TrimLeft(rest));
        WordsSkipLeading(rest);
        assert Words(rest) != [];
        assert Words(t)[1..] == Words(rest);
      }
    }
  }

  lemma LastWord(w: string, rest: string)
    requires w != [] && NoSpace(w) && TrimLeft(rest) == []
    ensures Collapse(TrimRight(w + rest)) == w && Words(rest) == []
  {
    TrimmedAway(rest);
    TrimRightSkips(w, rest);
    CollapseWordThen(w, []);
    assert w + [] == w;
  }

  lemma InnerWord(w: string, rest: string)
    requires NoSpace(w) && rest != [] && IsSpace(rest[0]) && TrimLeft(rest) != []
    ensures Collapse(TrimRight(w + rest)) == w + " " + Collapse(TrimRight(TrimLeft(rest)))
  {
    TrimsCommute(rest);
    TrimRightThen(w, rest);
    CollapseWordThen(w, TrimRight(rest));
    assert TrimRight(rest)[0] == rest[0];
    CollapseSpaceThen(TrimRight(rest));
  }

  /** Stripping and collapsing is splitting into words and joining them with one space, for every input. */
  lemma StripCollapseIsJoinedWords(s: string)
    ensures Collapse(Strip(s)) == JoinWords(Words(s))
  {
    CollapseTrimmedIsWords(TrimLeft(s));
    assert TrimLeft(TrimLeft(s)) == TrimLeft(s);
  }

  // ---- the pipeline of one cell ------------------------------------------

  datatype CleanOptions = CleanOptions(strip: bool, collapse: bool, casing: Case)

  function Clean(o: CleanOptions, s: string): string {
    var stripped := if o.strip then Strip(s) else s;
    var collapsed := if o.collapse then Collapse(stripped) else stripped;
    ApplyCase(o.casing, collapsed)
  }

  lemma CleanIsWords(o: CleanOptions, s: string)
    requires o.strip && o.collapse
    ensures Clean(o, s) == ApplyCase(o.casing, JoinWords(Words(s)))
  {
    StripCollapseIsJoinedWords(s);
  }

  /** The texts a pipeline leaves alone. */
  ghost predicate Settled(o: CleanOptions, t: string) {
    && (o.strip ==> Stripped(t))
    && (o.collapse ==> Collapsed(t))
    && ApplyCase(o.casing, t) == t
  }

  lemma SettledIsFixed(o: CleanOptions, t: string)
    requires Settled(o, t)
    ensures Clean(o, t) == t
  {
    if o.strip { StripIsUnique(t, [], t, []); }
    if o.collapse { CollapseFixes(t); }
  }

  lemma CaseKeepsSettled(o: CleanOptions, s: string)
    requires o.strip ==> Stripped(s)
    requires o.collapse ==> Collapsed(s)
    ensures Settled(o, ApplyCase(o.casing, s))
  {
    CaseIdempotent(o.casing, s);
    CaseKeepsSpaces(o.casing, s);
  }

  lemma CleanSettles(o: CleanOptions, s: string)
    ensures Settled(o, Clean(o, s))
  {
    var stripped := if o.strip then Strip(s) else s;
    if o.strip { var front, back := StripRemovesEndsOnly(s); }
    var collapsed := if o.collapse then Collapse(stripped) else stripped;
    if o.collapse {
      CollapseCollapses(stripped);
      if o.strip && stripped != [] { CollapseKeepsStripped(stripped); }
    }
    CaseKeepsSettled(o, collapsed);
  }

  /** Every combination of options is idempotent. */
  lemma CleanIdempotent(o: CleanOptions, s: string)
    ensures Clean(o, Clean(o, s)) == Clean(o, s)
  {
    CleanSettles(o, s);
    SettledIsFixed(o, Clean(o, s));
  }
}
