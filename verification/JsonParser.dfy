/**
 What the recursive-descent parser computes, on the text that is left to read.

 Reading at the end of the text yields the terminating NUL.  `Overrun` marks the one
 place where the code steps over that terminator: a backslash that is the last
 character of the text, inside a string.
 */
module JsonParser {
  import opened Wrappers
  import opened OrderedMaps
  import opened JsonTree

  const MAX_DEPTH := 32

  datatype Failure = Refused | Threw | Overrun
  datatype Parsed<+T> = Got(value: T, rest: string) | Fail(failure: Failure)

  predicate IsWs(c: char) { c == ' ' || c == '\t' || c == '\n' || c == '\r' }
  predicate IsDigit(c: char) { '0' <= c <= '9' }

  function Peek(s: string): char { if s == "" then '\0' else s[0] }

  function SkipWs(s: string): (r: string)
    ensures |r| <= |s| && !IsWs(Peek(r))
  {
    if s != "" && IsWs(s[0]) then SkipWs(s[1..]) else s
  }

  function SkipDigits(s: string): (r: string)
    ensures |r| <= |s| && !IsDigit(Peek(r))
  {
    if s != "" && IsDigit(s[0]) then SkipDigits(s[1..]) else s
  }

  // ---- Strings --------------------------------------------------------------

  function Unescape(c: char): char {
    if c == 'n' then '\n' else if c == 't' then '\t' else c
  }

  function Prefixed(c: char, p: Parsed<string>): Parsed<string> {
    if p.Got? then Got([c] + p.value, p.rest) else p
  }

  /** The characters after an opening quote; a missing closing quote is tolerated. */
  function StringBody(s: string): (p: Parsed<string>)
    ensures p.Got? ==> |p.rest| <= |s|
  {
    if Peek(s) == '\0' then Got("", s)
    else if s[0] == '"' then Got("", s[1..])
    else if s[0] != '\\' then Prefixed(s[0], StringBody(s[1..]))
    else if |s| == 1 then Fail(Overrun)
    else Prefixed(Unescape(s[1]), StringBody(s[2..]))
  }

  function ParseString(s: string): (p: Parsed<string>)
    ensures p.Got? ==> |p.rest| < |s|
  {
    if Peek(s) != '"' then Fail(Refused) else StringBody(s[1..])
  }

  // ---- Numbers --------------------------------------------------------------

  function AfterInteger(s: string): (r: string)
    ensures |r| <= |s|
  {
    SkipDigits(if Peek(s) == '-' then s[1..] else s)
  }

  function AfterFraction(s: string): (r: string)
    ensures |r| <= |s|
  {
    if Peek(s) == '.' then SkipDigits(s[1..]) else s
  }

  function AfterExponent(s: string): (r: string)
    ensures |r| <= |s|
  {
    if Peek(s) == 'e' || Peek(s) == 'E' then
      var t := s[1..];
      SkipDigits(if Peek(t) == '+' || Peek(t) == '-' then t[1..] else t)
    else s
  }

  /** What is left after the longest number at the front of `s`. */
  function NumberRest(s: string): (r: string)
    ensures |r| <= |s|
  {
    AfterExponent(AfterFraction(AfterInteger(s)))
  }

  predicate IsFloat(s: string) {
    Peek(AfterInteger(s)) == '.' || Peek(AfterInteger(s)) == 'e' || Peek(AfterInteger(s)) == 'E'
  }

  function DigitValue(c: char): nat
    requires IsDigit(c)
  {
    (c - '0') as nat
  }

  function DigitsValue(ds: string): nat
    requires AllDigits(ds)
  {
    if ds == "" then 0
    else 10 * DigitsValue(ds[..|ds| - 1]) + DigitValue(ds[|ds| - 1])
  }

  predicate AllDigits(ds: string) { forall i :: 0 <= i < |ds| ==> IsDigit(ds[i]) }

  /** `std::stol`; `None` is the exception for no digits or for a value outside `long`. */
  function Stol(num: string): Option<int> {
    var negative := num != "" && num[0] == '-';
    var ds := if negative then num[1..] else num;
    if ds == "" || !AllDigits(ds) then None
    else
      var n: int := DigitsValue(ds);
      var n := if negative then -n else n;
      if LONG_MIN <= n <= LONG_MAX then Some(n) else None
  }

  function NumberValue(num: string, isFloat: bool, lib: FloatLib): Option<JsonNode> {
    if isFloat then
      (match lib.stod(num) case Some(d) => Some(Float(d)) case None => None)
    else
      (match Stol(num) case Some(i) => Some(Int(i)) case None => None)
  }

  function ParseNumber(s: string, lib: FloatLib): (p: Parsed<JsonNode>)
    ensures p.Got? ==> |p.rest| <= |s|
  {
    var rest := NumberRest(s);
    match NumberValue(s[..|s| - |rest|], IsFloat(s), lib)
    case Some(v) => Got(v, rest)
    case None => Fail(Threw)
  }

  // ---- Values ---------------------------------------------------------------

  function ParseValue(s: string, depth: nat, lib: FloatLib): (p: Parsed<JsonNode>)
    ensures p.Got? ==> |p.rest| < |s|
    decreases |s|, 0
  {
    if depth > MAX_DEPTH then Fail(Refused) else
    var t := SkipWs(s);
    var c := Peek(t);
    if c == '\0' then Fail(Refused)
    else if c == '"' then
      (match ParseString(t) case Got(str, rest) => Got(String(str), rest) case Fail(e) => Fail(e))
    else if c == '{' then
      var u := SkipWs(t[1..]);
      if Peek(u) == '}' then Got(Object([]), u[1..]) else ParseMembers(u, depth, [], lib)
    else if c == '[' then
      var u := SkipWs(t[1..]);
      if Peek(u) == ']' then Got(Array([]), u[1..]) else ParseElements(u, depth, [], lib)
    else if "true" <= t then Got(Bool(true), t[4..])
    else if "false" <= t then Got(Bool(false), t[5..])
    else if "null" <= t then Got(Null, t[4..])
    else if c == '-' || IsDigit(c) then
      NumberConsumes(t);
      ParseNumber(t, lib)
    else Fail(Refused)
  }

  /** The loop over the elements of an array; `acc` holds those already read. */
  function ParseElements(s: string, depth: nat, acc: seq<JsonNode>, lib: FloatLib): (p: Parsed<JsonNode>)
    ensures p.Got? ==> |p.rest| < |s|
    decreases |s|, 1
  {
    match ParseValue(s, depth + 1, lib)
    case Fail(e) => Fail(e)
    case Got(v, r) =>
      var t := SkipWs(r);
      if Peek(t) == ',' then ParseElements(t[1..], depth, acc + [v], lib)
      else if Peek(t) == ']' then Got(Array(acc + [v]), t[1..])
      else Fail(Refused)
  }

  /** One `"key": value` of an object. */
  function ParseMember(s: string, depth: nat, lib: FloatLib): (p: Parsed<Entry<JsonNode>>)
    ensures p.Got? ==> |p.rest| < |s|
    decreases |s|, 1
  {
    match ParseString(SkipWs(s))
    case Fail(e) => Fail(e)
    case Got(key, r) =>
      var t := SkipWs(r);
      if Peek(t) != ':' then Fail(Refused) else
      match ParseValue(t[1..], depth + 1, lib)
      case Fail(e) => Fail(e)
      case Got(v, q) => Got(Entry(key, v), q)
  }

  /** The loop over the members of an object; a repeated key overwrites. */
  function ParseMembers(s: string, depth: nat, acc: seq<Entry<JsonNode>>, lib: FloatLib): (p: Parsed<JsonNode>)
    ensures p.Got? ==> |p.rest| < |s|
    decreases |s|, 2
  {
    match ParseMember(s, depth, lib)
    case Fail(e) => Fail(e)
    case Got(m, q) =>
      var obj := Put(acc, m.key, m.value);
      var u := SkipWs(q);
      if Peek(u) == ',' then ParseMembers(u[1..], depth, obj, lib)
      else if Peek(u) == '}' then Got(Object(obj), u[1..])
      else Fail(Refused)
  }

  lemma NumberConsumes(s: string)
    requires Peek(s) == '-' || IsDigit(Peek(s))
    ensures |NumberRest(s)| < |s|
  {
  }
}
