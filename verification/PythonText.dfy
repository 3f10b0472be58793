/** The `str` methods of Python that the services call. */
module PythonText {

  /** Python's `str.isspace`, which is also the `\s` of its regular expressions. */
  predicate IsSpace(c: char) {
    || '\t' <= c <= '\r' || '\U{1c}' <= c <= ' ' || c == '\U{85}' || c == '\U{a0}' || c == '\U{1680}'
    || '\U{2000}' <= c <= '\U{200a}' || c == '\U{2028}' || c == '\U{2029}'
    || c == '\U{202f}' || c == '\U{205f}' || c == '\U{3000}'
  }

  function RStrip(s: string): (r: string)
    ensures r <= s
  {
    if s != [] && IsSpace(s[|s| - 1]) then RStrip(s[..|s| - 1]) else s
  }

  function SkipSpace(s: string): (r: string)
    ensures |r| <= |s|
  {
    if s != [] && IsSpace(s[0]) then SkipSpace(s[1..]) else s
  }

  function Strip(s: string): string { RStrip(SkipSpace(s)) }

  /** `s.replace(c, "")` for one character. */
  function Remove(s: string, c: char): (r: string)
    ensures |r| <= |s|
  {
    if s == [] then [] else if s[0] == c then Remove(s[1..], c) else [s[0]] + Remove(s[1..], c)
  }

  // ---- what stripping does ------------------------------------------------

  ghost predicate Blank(s: string) { forall i :: 0 <= i < |s| ==> IsSpace(s[i]) }

  lemma {:induction false} SkipSkips(front: string, rest: string)
    requires Blank(front) && (rest == [] || !IsSpace(rest[0]))
    ensures SkipSpace(front + rest) == rest
  {
    if front == [] {
      assert front + rest == rest;
    } else {
      assert (front + rest)[1..] == front[1..] + rest;
      SkipSkips(front[1..], rest);
    }
  }

  lemma {:induction false} RStripSkips(rest: string, back: string)
    requires Blank(back) && (rest == [] || !IsSpace(rest[|rest| - 1]))
    ensures RStrip(rest + back) == rest
  {
    if back == [] {
      assert rest + back == rest;
    } else {
      assert (rest + back)[..|rest + back| - 1] == rest + back[..|back| - 1];
      RStripSkips(rest, back[..|back| - 1]);
    }
  }

  lemma {:induction false} SkipCuts(s: string) returns (front: string)
    ensures s == front + SkipSpace(s) && Blank(front)
  {
    front := [];
    if s != [] && IsSpace(s[0]) {
      front := SkipCuts(s[1..]);
      front := [s[0]] + front;
    }
  }

  lemma {:induction false} RStripCuts(s: string) returns (back: string)
    ensures s == RStrip(s) + back && Blank(back)
  {
    back := [];
    if s != [] && IsSpace(s[|s| - 1]) {
      back := RStripCuts(s[..|s| - 1]);
      back := back + [s[|s| - 1]];
      assert s == s[..|s| - 1] + [s[|s| - 1]];
    }
  }
}
