/** The trailing `SUGGESTIONS:[...]` line of an assistant turn, and the JSON array of strings in it. */
module Suggestions {
  import opened Wrappers
  import opened PythonText

  // ---- json.loads, as far as arrays of strings ----------------------------

  datatype Read<T> = Fail | Read(value: T, rest: string)

  predicate IsJsonSpace(c: char) { c == ' ' || c == '\t' || c == '\r' || c == '\n' }

  function SkipJsonSpace(s: string): (r: string)
    ensures |r| <= |s|
  {
    if s != [] && IsJsonSpace(s[0]) then SkipJsonSpace(s[1..]) else s
  }

  predicate IsHex(c: char) { '0' <= c <= '9' || 'a' <= c <= 'f' || 'A' <= c <= 'F' }

  function HexDigit(c: char): (n: int)
    requires IsHex(c)
    ensures 0 <= n < 16
  {
    if c <= '9' then c as int - '0' as int
    else if c <= 'F' then c as int - 'A' as int + 10
    else c as int - 'a' as int + 10
  }

  predicate IsHex4(s: string) { |s| == 4 && IsHex(s[0]) && IsHex(s[1]) && IsHex(s[2]) && IsHex(s[3]) }

  function Hex4(s: string): (n: int)
    requires IsHex4(s)
    ensures 0 <= n < 0x10000
  {
    0x1000 * HexDigit(s[0]) + 0x100 * HexDigit(s[1]) + 0x10 * HexDigit(s[2]) + HexDigit(s[3])
  }

  predicate IsHigh(n: int) { 0xd800 <= n < 0xdc00 }

  predicate IsLow(n: int) { 0xdc00 <= n < 0xe000 }

  /** The character a surrogate pair stands for. */
  function PairChar(high: int, low: int): char
    requires IsHigh(high) && IsLow(low)
  {
    (0x10000 + (high - 0xd800) * 0x400 + (low - 0xdc00)) as char
  }

  function ShortEscape(c: char): Option<char> {
    if c == '"' || c == '\\' || c == '/' then Some(c)
    else if c == 'b' then Some('\U{08}')
    else if c == 'f' then Some('\U{0c}')
    else if c == 'n' then Some('\n')
    else if c == 'r' then Some('\r')
    else if c == 't' then Some('\t')
    else None
  }

  /** One character after a backslash-u. A lone surrogate is not a character of the model. */
  function ReadUnicode(s: string): (r: Read<char>)
    ensures r.Read? ==> |r.rest| < |s|
  {
    if |s| < 4 || !IsHex4(s[..4]) then Fail
    else
      var n := Hex4(s[..4]);
      if IsHigh(n) then
        if |s| >= 10 && s[4] == '\\' && s[5] == 'u' && IsHex4(s[6..10]) && IsLow(Hex4(s[6..10]))
        then Read(PairChar(n, Hex4(s[6..10])), s[10..]) else Fail
      else if IsLow(n) then Fail
      else Read(n as char, s[4..])
  }

  /** One character of a string, escaped or not; `s` is not at the closing quote. */
  function ReadChar(s: string): (r: Read<char>)
    ensures r.Read? ==> |r.rest| < |s|
  {
    if s == [] || s[0] < ' ' || s[0] == '"' then Fail
    else if s[0] != '\\' then Read(s[0], s[1..])
    else if |s| == 1 then Fail
    else if s[1] == 'u' then ReadUnicode(s[2..])
    else match ShortEscape(s[1]) case None => Fail case Some(c) => Read(c, s[2..])
  }

  /** The rest of a string, past its opening quote. */
  function ReadString(s: string): (r: Read<string>)
    ensures r.Read? ==> |r.rest| < |s|
    decreases |s|
  {
    if s != [] && s[0] == '"' then Read([], s[1..])
    else match ReadChar(s)
      case Fail => Fail
      case Read(c, rest) =>
        match ReadString(rest)
        case Fail => Fail
        case Read(tail, rest') => Read([c] + tail, rest')
  }

  /** The elements of an array and its closing bracket; anything but a string fails. */
  function ReadItems(s: string): (r: Read<seq<string>>)
    decreases |s|
  {
    if s == [] || s[0] != '"' then Fail
    else match ReadString(s[1..])
      case Fail => Fail
      case Read(item, rest) =>
        var after := SkipJsonSpace(rest);
        if after == [] then Fail
        else if after[0] == ']' then Read([item], after[1..])
        else if after[0] == ',' then
          (match ReadItems(SkipJsonSpace(after[1..]))
           case Fail => Fail
           case Read(items, rest') => Read([item] + items, rest'))
        else Fail
  }

  /** `Some` exactly for the text of an array of strings. */
  function ParseStringArray(s: string): Option<seq<string>> {
    var t := SkipJsonSpace(s);
    if t == [] || t[0] != '[' then None
    else
      var inside := SkipJsonSpace(t[1..]);
      if inside != [] && inside[0] == ']' then (if SkipJsonSpace(inside[1..]) == [] then Some([]) else None)
      else match ReadItems(inside)
        case Fail => None
        case Read(items, rest) => if SkipJsonSpace(rest) == [] then Some(items) else None
  }

  // ---- the pattern --------------------------------------------------------

  const MARKER: string := "SUGGESTIONS:"

  predicate MarkerAt(text: string, p: nat) {
    p + |MARKER| <= |text| && text[p..p + |MARKER|] == MARKER
  }

  /** The text from a bracket at `q` to a bracket before `end`, on one line. */
  function Bracketed(text: string, q: nat, end: nat): Option<string>
    requires q <= |text| && end <= |text|
  {
    if end < q + 2 || text[q] != '[' || text[end - 1] != ']' || '\n' in text[q + 1..end - 1] then None
    else Some(text[q..end])
  }

  /** The bracketed group of a match that starts at `p`. Only whitespace may follow the closing bracket,
      so that bracket is the last character of the text that is not whitespace. */
  function MatchAt(text: string, p: nat): Option<string> {
    if !MarkerAt(text, p) then None
    else Bracketed(text, |text| - |SkipSpace(text[p + |MARKER|..])|, |RStrip(text)|)
  }

  /** The leftmost match at or after `p`. */
  function Search(text: string, p: nat): (r: Option<(nat, string)>)
    requires p <= |text|
    ensures r.Some? ==> p <= r.value.0 <= |text|
    decreases |text| - p
  {
    match MatchAt(text, p)
    case Some(group) => Some((p, group))
    case None => if p == |text| then None else Search(text, p + 1)
  }

  function ParseSuggestions(text: string): (r: (string, Option<seq<string>>))
    ensures r.1.Some? ==> r.1.value != []
  {
    match Search(text, 0)
    case None => (RStrip(text), None)
    case Some((p, group)) =>
      match ParseStringArray(group)
      case None => (RStrip(text), None)
      case Some(items) =>
        if items == [] then (RStrip(text), None) else (RStrip(text[..p]), Some(items))
  }

  // ---- writing an array of strings ----------------------------------------

  /** One character of a JSON string as it may be written. */
  datatype Token = Raw(c: char) | Short(letter: char) | Hex(digits: string) | Pair(high: string, low: string) {

    predicate Valid() {
      match this
      case Raw(c) => c >= ' ' && c != '"' && c != '\\'
      case Short(letter) => letter != 'u' && ShortEscape(letter).Some?
      case Hex(digits) => IsHex4(digits) && !IsHigh(Hex4(digits)) && !IsLow(Hex4(digits))
      case Pair(high, low) => IsHex4(high) && IsHex4(low) && IsHigh(Hex4(high)) && IsLow(Hex4(low))
    }

    function Print(): string
      requires Valid()
    {
      match this
      case Raw(c) => [c]
      case Short(letter) => ['\\', letter]
      case Hex(digits) => ['\\', 'u'] + digits
      case Pair(high, low) => ['\\', 'u'] + (high + (['\\', 'u'] + low))
    }

    function Meaning(): char
      requires Valid()
    {
      match this
      case Raw(c) => c
      case Short(letter) => ShortEscape(letter).value
      case Hex(digits) => Hex4(digits) as char
      case Pair(high, low) => PairChar(Hex4(high), Hex4(low))
    }
  }

  predicate ValidTokens(tokens: seq<Token>) { forall i :: 0 <= i < |tokens| ==> tokens[i].Valid() }

  function PrintTokens(tokens: seq<Token>): string
    requires ValidTokens(tokens)
  {
    if tokens == [] then [] else tokens[0].Print() + PrintTokens(tokens[1..])
  }

  function MeaningOf(tokens: seq<Token>): string
    requires ValidTokens(tokens)
  {
    if tokens == [] then [] else [tokens[0].Meaning()] + MeaningOf(tokens[1..])
  }

  /** A string of the array with the blanks around it. The line has no break, so the blanks have none either. */
  datatype Item = Item(before: string, tokens: seq<Token>, after: string) {
    predicate Valid() { IsBlank(before) && ValidTokens(tokens) && IsBlank(after) }
  }

  predicate IsBlank(s: string) { forall i :: 0 <= i < |s| ==> s[i] == ' ' || s[i] == '\t' || s[i] == '\r' }

  predicate ValidItems(items: seq<Item>) { forall i :: 0 <= i < |items| ==> items[i].Valid() }

  function PrintItem(item: Item): string
    requires item.Valid()
  {
    item.before + (['"'] + (PrintTokens(item.tokens) + (['"'] + item.after)))
  }

  function PrintItems(items: seq<Item>): string
    requires items != [] && ValidItems(items)
  {
    PrintItem(items[0]) + if |items| == 1 then "]" else [','] + PrintItems(items[1..])
  }

  function PrintArray(items: seq<Item>): string
    requires items != [] && ValidItems(items)
  {
    ['['] + PrintItems(items)
  }

  function Chips(items: seq<Item>): seq<string>
    requires ValidItems(items)
  {
    seq(|items|, i requires 0 <= i < |items| => MeaningOf(items[i].tokens))
  }
}
