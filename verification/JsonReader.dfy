/**
 The parser as it is written: functions that move a shared cursor over a
 NUL-terminated text in while loops, each proved to compute what `JsonParser`
 says and to leave the cursor just after what it read, never past the terminator.
 */
module JsonReader {
  import opened Wrappers
  import opened OrderedMaps
  import opened JsonTree
  import opened JsonParser

  datatype Outcome<+T> = Ok(value: T) | Error(failure: Failure)

  function OutcomeOf<T>(p: Parsed<T>): Outcome<T> {
    match p case Got(v, _) => Ok(v) case Fail(e) => Error(e)
  }

  /**
   `const char*& p`: a pointer into a NUL-terminated text is the text from it up to
   the terminator.  It can only move forward, and `Advance` demands that it stays
   within that text.
   */
  class Cursor {
    var p: string

    constructor (text: string)
      ensures p == text
    {
      p := text;
    }

    /** `*p` */
    function Current(): char
      reads this
    {
      Peek(p)
    }

    method Advance(n: nat)
      requires n <= |p|
      modifies this
      ensures p == old(p)[n..]
    {
      p := p[n..];
    }
  }

  method SkipBlanks(c: Cursor)
    modifies c
    ensures c.p == SkipWs(old(c.p))
  {
    while IsWs(c.Current())
      invariant SkipWs(c.p) == SkipWs(old(c.p))
      decreases |c.p|
    {
      c.Advance(1);
    }
  }

  method SkipNumerals(c: Cursor)
    modifies c
    ensures c.p == SkipDigits(old(c.p))
  {
    while IsDigit(c.Current())
      invariant SkipDigits(c.p) == SkipDigits(old(c.p))
      decreases |c.p|
    {
      c.Advance(1);
    }
  }

  function PrefixedBy(acc: string, p: Parsed<string>): Parsed<string> {
    if p.Got? then Got(acc + p.value, p.rest) else p
  }

  lemma PrefixedSnoc(acc: string, ch: char, p: Parsed<string>)
    ensures PrefixedBy(acc, Prefixed(ch, p)) == PrefixedBy(acc + [ch], p)
  {
    if p.Got? { assert acc + ([ch] + p.value) == (acc + [ch]) + p.value; }
  }

  method ReadString(c: Cursor) returns (r: Outcome<string>)
    modifies c
    ensures r == OutcomeOf(ParseString(old(c.p)))
    ensures ParseString(old(c.p)).Got? ==> c.p == ParseString(old(c.p)).rest
  {
    if c.Current() != '"' { return Error(Refused); }
    c.Advance(1);
    ghost var body := StringBody(c.p);
    var s := "";
    if body.Got? { assert "" + body.value == body.value; }
    while c.Current() != '\0' && c.Current() != '"'
      invariant PrefixedBy(s, StringBody(c.p)) == body
      decreases |c.p|
    {
      ghost var here, sofar := c.p, s;
      if c.Current() == '\\' {
        c.Advance(1);
        if c.p == "" { return Error(Overrun); }
        s := s + [Unescape(c.Current())];
        c.Advance(1);
        assert c.p == here[2..];
        PrefixedSnoc(sofar, Unescape(here[1]), StringBody(here[2..]));
      } else {
        s := s + [c.Current()];
        c.Advance(1);
        PrefixedSnoc(sofar, here[0], StringBody(here[1..]));
      }
    }
    assert s + "" == s;
    if c.Current() == '"' { c.Advance(1); }
    r := Ok(s);
  }

  method ScanNumber(c: Cursor) returns (isFloat: bool)
    modifies c
    ensures c.p == NumberRest(old(c.p)) && isFloat == IsFloat(old(c.p))
  {
    ghost var s := c.p;
    isFloat := false;
    if c.Current() == '-' { c.Advance(1); }
    SkipNumerals(c);
    assert c.p == AfterInteger(s);
    if c.Current() == '.' {
      isFloat := true;
      c.Advance(1);
      SkipNumerals(c);
    }
    ghost var t := c.p;
    assert t == AfterFraction(AfterInteger(s));
    if c.Current() == 'e' || c.Current() == 'E' {
      isFloat := true;
      c.Advance(1);
      if c.Current() == '+' || c.Current() == '-' { c.Advance(1); }
      SkipNumerals(c);
    }
    assert c.p == AfterExponent(t);
  }

  method ReadNumber(c: Cursor, lib: FloatLib) returns (r: Outcome<JsonNode>)
    modifies c
    ensures r == OutcomeOf(ParseNumber(old(c.p), lib))
    ensures ParseNumber(old(c.p), lib).Got? ==> c.p == ParseNumber(old(c.p), lib).rest
  {
    var start := c.p;
    var isFloat := ScanNumber(c);
    var num := start[..|start| - |c.p|];
    if isFloat {
      match lib.stod(num) {
        case Some(d) => r := Ok(Float(d));
        case None => r := Error(Threw);
      }
    } else {
      match Stol(num) {
        case Some(i) => r := Ok(Int(i));
        case None => r := Error(Threw);
      }
    }
  }

  method ReadValue(c: Cursor, depth: nat, lib: FloatLib) returns (r: Outcome<JsonNode>)
    modifies c
    ensures r == OutcomeOf(ParseValue(old(c.p), depth, lib))
    ensures ParseValue(old(c.p), depth, lib).Got? ==> c.p == ParseValue(old(c.p), depth, lib).rest
    decreases |c.p|, 0
  {
    if depth > MAX_DEPTH { return Error(Refused); }
    SkipBlanks(c);
    ghost var t := c.p;
    if c.Current() == '\0' { return Error(Refused); }
    if c.Current() == '"' {
      var s := ReadString(c);
      match s {
        case Ok(str) => return Ok(String(str));
        case Error(e) => return Error(e);
      }
    }
    if c.Current() == '{' {
      c.Advance(1);
      SkipBlanks(c);
      if c.Current() == '}' { c.Advance(1); return Ok(Object([])); }
      r := ReadMembers(c, depth, lib);
      return;
    }
    if c.Current() == '[' {
      c.Advance(1);
      SkipBlanks(c);
      if c.Current() == ']' { c.Advance(1); return Ok(Array([])); }
      r := ReadElements(c, depth, lib);
      return;
    }
    if "true" <= c.p { c.Advance(4); return Ok(Bool(true)); }
    if "false" <= c.p { c.Advance(5); return Ok(Bool(false)); }
    if "null" <= c.p { c.Advance(4); return Ok(Null); }
    if c.Current() == '-' || IsDigit(c.Current()) {
      r := ReadNumber(c, lib);
      return;
    }
    r := Error(Refused);
  }

  method ReadElements(c: Cursor, depth: nat, lib: FloatLib) returns (r: Outcome<JsonNode>)
    modifies c
    ensures r == OutcomeOf(ParseElements(old(c.p), depth, [], lib))
    ensures ParseElements(old(c.p), depth, [], lib).Got? ==> c.p == ParseElements(old(c.p), depth, [], lib).rest
    decreases |c.p|, 1
  {
    ghost var whole := ParseElements(c.p, depth, [], lib);
    var arr := [];
    while true
      invariant ParseElements(c.p, depth, arr, lib) == whole
      decreases |c.p|
    {
      var val := ReadValue(c, depth + 1, lib);
      if val.Error? { return Error(val.failure); }
      SkipBlanks(c);
      if c.Current() == ',' {
        arr := arr + [val.value];
        c.Advance(1);
      } else if c.Current() == ']' {
        arr := arr + [val.value];
        c.Advance(1);
        return Ok(Array(arr));
      } else {
        return Error(Refused);
      }
    }
  }

  method ReadMembers(c: Cursor, depth: nat, lib: FloatLib) returns (r: Outcome<JsonNode>)
    modifies c
    ensures r == OutcomeOf(ParseMembers(old(c.p), depth, [], lib))
    ensures ParseMembers(old(c.p), depth, [], lib).Got? ==> c.p == ParseMembers(old(c.p), depth, [], lib).rest
    decreases |c.p|, 2
  {
    ghost var whole := ParseMembers(c.p, depth, [], lib);
    var obj: seq<Entry<JsonNode>> := [];
    while true
      invariant ParseMembers(c.p, depth, obj, lib) == whole
      decreases |c.p|
    {
      var member := ReadMember(c, depth, lib);
      if member.Error? { return Error(member.failure); }
      obj := Put(obj, member.value.key, member.value.value);
      SkipBlanks(c);
      if c.Current() == ',' {
        c.Advance(1);
      } else if c.Current() == '}' {
        c.Advance(1);
        return Ok(Object(obj));
      } else {
        return Error(Refused);
      }
    }
  }

  method ReadMember(c: Cursor, depth: nat, lib: FloatLib) returns (r: Outcome<Entry<JsonNode>>)
    modifies c
    ensures r == OutcomeOf(ParseMember(old(c.p), depth, lib))
    ensures ParseMember(old(c.p), depth, lib).Got? ==> c.p == ParseMember(old(c.p), depth, lib).rest
    decreases |c.p|, 1
  {
    SkipBlanks(c);
    var key := ReadString(c);
    if key.Error? { return Error(key.failure); }
    SkipBlanks(c);
    if c.Current() != ':' { return Error(Refused); }
    c.Advance(1);
    var val := ReadValue(c, depth + 1, lib);
    match val {
      case Ok(v) => r := Ok(Entry(key.value, v));
      case Error(e) => r := Error(e);
    }
  }

  // ---- deserializeJson --------------------------------------------------------

  datatype DeserializationResult = Success | EmptyInput | InvalidInput | Exception | OutOfBounds

  /** What `deserializeJson` answers for a text, and the tree it stores on success. */
  function Deserialized(json: string, lib: FloatLib): (DeserializationResult, Option<JsonNode>) {
    if Peek(json) == '\0' then (EmptyInput, None)
    else
      match ParseValue(json, 0, lib)
      case Got(v, _) => (Success, Some(v))
      case Fail(Refused) => (InvalidInput, None)
      case Fail(Threw) => (Exception, None)
      case Fail(Overrun) => (OutOfBounds, None)
  }

  class JsonDocument {
    var node: JsonNode

    constructor ()
      ensures node == Null
    {
      node := Null;
    }

    /** A document keeps its old tree unless the whole parse succeeds. */
    method DeserializeJson(json: string, lib: FloatLib) returns (e: DeserializationResult)
      modifies this
      ensures e == Deserialized(json, lib).0
      ensures node == match Deserialized(json, lib).1 case Some(v) => v case None => old(node)
    {
      if json == "" || json[0] == '\0' { return EmptyInput; }
      var c := new Cursor(json);
      var r := ReadValue(c, 0, lib);
      match r {
        case Ok(v) => node := v; e := Success;
        case Error(Refused) => e := InvalidInput;
        case Error(Threw) => e := Exception;
        case Error(Overrun) => e := OutOfBounds;
      }
    }
  }
}
