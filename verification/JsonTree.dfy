/**
 The JSON document tree and its printer.

 A `JsonNode` of the C++ code carries one field per kind and a tag; here each kind
 is a constructor.  An object is a `std::map`, so its members are an ascending
 sequence of entries.  A double is its 64-bit pattern: what `std::stod` reads and
 what an `ostringstream` prints is the business of the `FloatLib` handed in.
 */
module JsonTree {
  import opened Wrappers
  import opened OrderedMaps

  datatype JsonNode =
    | Null
    | Bool(b: bool)
    | Int(i: int)
    | Float(bits: bv64)
    | String(s: string)
    | Array(elements: seq<JsonNode>)
    | Object(members: seq<Entry<JsonNode>>)

  /** The C++ library's conversions between text and double. */
  datatype FloatLib = FloatLib(stod: string -> Option<bv64>, show: bv64 -> string)

  /** `long` on the 64-bit host the emulator runs on. */
  const LONG_MIN: int := -0x8000_0000_0000_0000
  const LONG_MAX: int := 0x7FFF_FFFF_FFFF_FFFF

  function Max(a: nat, b: nat): nat { if a < b then b else a }

  /** How many brackets deep a tree goes; a scalar or an empty container is 0. */
  function Height(v: JsonNode): nat {
    match v
    case Array(es) => if es == [] then 0 else 1 + ElementsHeight(es)
    case Object(ms) => if ms == [] then 0 else 1 + MembersHeight(ms)
    case _ => 0
  }

  function ElementsHeight(es: seq<JsonNode>): nat {
    if es == [] then 0 else Max(Height(es[0]), ElementsHeight(es[1..]))
  }

  function MembersHeight(ms: seq<Entry<JsonNode>>): nat {
    if ms == [] then 0 else Max(Height(ms[0].value), MembersHeight(ms[1..]))
  }

  // ---- Printing -----------------------------------------------------------

  function PrintNat(n: nat): string {
    if n < 10 then [Digit(n)] else PrintNat(n / 10) + [Digit(n % 10)]
  }

  function Digit(d: nat): char
    requires d < 10
  {
    '0' + d as char
  }

  function PrintInt(i: int): string {
    if i < 0 then "-" + PrintNat(-i) else PrintNat(i)
  }

  /** The serializer escapes three characters and copies every other one. */
  function EscapeChar(c: char): string {
    if c == '"' then "\\\"" else if c == '\\' then "\\\\" else if c == '\n' then "\\n" else [c]
  }

  function Escape(s: string): string {
    if s == "" then "" else EscapeChar(s[0]) + Escape(s[1..])
  }

  function Print(v: JsonNode, lib: FloatLib): string {
    match v
    case Null => "null"
    case Bool(b) => if b then "true" else "false"
    case Int(i) => PrintInt(i)
    case Float(bits) => lib.show(bits)
    case String(s) => "\"" + Escape(s) + "\""
    case Array(es) => "[" + PrintElements(es, lib) + "]"
    case Object(ms) => "{" + PrintMembers(ms, lib) + "}"
  }

  function PrintElements(es: seq<JsonNode>, lib: FloatLib): string {
    if es == [] then ""
    else Print(es[0], lib) + (if |es| == 1 then "" else "," + PrintElements(es[1..], lib))
  }

  /** Keys are printed raw, without escaping. */
  function PrintMember(m: Entry<JsonNode>, lib: FloatLib): string {
    "\"" + m.key + "\":" + Print(m.value, lib)
  }

  function PrintMembers(ms: seq<Entry<JsonNode>>, lib: FloatLib): string {
    if ms == [] then ""
    else PrintMember(ms[0], lib) + (if |ms| == 1 then "" else "," + PrintMembers(ms[1..], lib))
  }

  // ---- The trees the serializer is meant for -------------------------------

  predicate NulFree(s: string) { '\0' !in s }

  /** A key that survives being printed raw. */
  predicate PlainKey(k: string) { '"' !in k && '\\' !in k && '\0' !in k }

  /** Integers fit `long`, strings hold no NUL, keys are plain and in map order, no doubles. */
  predicate Printable(v: JsonNode) {
    match v
    case Int(i) => LONG_MIN <= i <= LONG_MAX
    case Float(_) => false
    case String(s) => NulFree(s)
    case Array(es) => forall k :: 0 <= k < |es| ==> Printable(es[k])
    case Object(ms) =>
      && Ascending(ms)
      && forall k :: 0 <= k < |ms| ==> PlainKey(ms[k].key) && Printable(ms[k].value)
    case _ => true
  }
}

/** `_serializeNode` and `serializeJson`: the printer as it is written, appending to a stream. */
module JsonSerializer {
  import opened OrderedMaps
  import opened JsonTree

  /** `std::ostringstream`. */
  class StringStream {
    var text: string

    constructor ()
      ensures text == ""
    {
      text := "";
    }

    method Append(s: string)
      modifies this
      ensures text == old(text) + s
    {
      text := text + s;
    }
  }

  method SerializeString(s: string, os: StringStream)
    modifies os
    ensures os.text == old(os.text) + ("\"" + Escape(s) + "\"")
  {
    os.Append("\"");
    var start := os.text;
    for i := 0 to |s|
      invariant os.text == start + Escape(s[..i])
    {
      EscapeSnoc(s[..i], s[i]);
      assert s[..i] + [s[i]] == s[..i + 1];
      os.Append(EscapeChar(s[i]));
    }
    assert s[..|s|] == s;
    os.Append("\"");
  }

  lemma {:induction false} EscapeSnoc(s: string, c: char)
    ensures Escape(s + [c]) == Escape(s) + EscapeChar(c)
  {
    if s != "" {
      EscapeSnoc(s[1..], c);
      assert (s + [c])[1..] == s[1..] + [c];
    }
  }

  method SerializeNode(node: JsonNode, os: StringStream, lib: FloatLib)
    modifies os
    ensures os.text == old(os.text) + Print(node, lib)
    decreases node
  {
    match node {
      case Null => os.Append("null");
      case Bool(b) => os.Append(if b then "true" else "false");
      case Int(i) => os.Append(PrintInt(i));
      case Float(bits) => os.Append(lib.show(bits));
      case String(s) => SerializeString(s, os);
      case Array(es) => SerializeElements(es, os, lib);
      case Object(ms) => SerializeMembers(ms, os, lib);
    }
  }

  method SerializeElements(es: seq<JsonNode>, os: StringStream, lib: FloatLib)
    modifies os
    ensures os.text == old(os.text) + ("[" + PrintElements(es, lib) + "]")
    decreases es
  {
    hide Print, PrintElements;
    os.Append("[");
    var start := os.text;
    NothingPrinted(start, lib);
    for i := 0 to |es|
      invariant os.text == start + PrintElements(es[..i], lib)
    {
      OneMoreElement(start, es, i, lib);
      if i > 0 { os.Append(","); }
      SerializeNode(es[i], os, lib);
    }
    assert es[..|es|] == es;
    os.Append("]");
  }

  method SerializeMembers(ms: seq<Entry<JsonNode>>, os: StringStream, lib: FloatLib)
    modifies os
    ensures os.text == old(os.text) + ("{" + PrintMembers(ms, lib) + "}")
    decreases ms
  {
    hide Print, PrintMember, PrintMembers;
    os.Append("{");
    var start := os.text;
    NothingPrinted(start, lib);
    for i := 0 to |ms|
      invariant os.text == start + PrintMembers(ms[..i], lib)
    {
      OneMoreMember(start, ms, i, lib);
      if i > 0 { os.Append(","); }
      SerializeMember(ms[i], os, lib);
    }
    assert ms[..|ms|] == ms;
    os.Append("}");
  }

  method SerializeMember(m: Entry<JsonNode>, os: StringStream, lib: FloatLib)
    modifies os
    ensures os.text == old(os.text) + PrintMember(m, lib)
    decreases m
  {
    os.Append("\"" + m.key + "\":");
    SerializeNode(m.value, os, lib);
  }

  lemma NothingPrinted(start: string, lib: FloatLib)
    ensures start + PrintElements([], lib) == start && start + PrintMembers([], lib) == start
  {
  }

  /** One turn of the loop over the elements: a comma unless it is the first, and the element. */
  lemma OneMoreElement(start: string, es: seq<JsonNode>, i: nat, lib: FloatLib)
    requires i < |es|
    ensures start + PrintElements(es[..i + 1], lib)
         == (if i > 0 then start + PrintElements(es[..i], lib) + "," else start + PrintElements(es[..i], lib))
            + Print(es[i], lib)
  {
    hide Print, PrintElements;
    ElementsSnoc(es[..i], es[i], lib);
    assert es[..i] + [es[i]] == es[..i + 1];
  }

  lemma OneMoreMember(start: string, ms: seq<Entry<JsonNode>>, i: nat, lib: FloatLib)
    requires i < |ms|
    ensures start + PrintMembers(ms[..i + 1], lib)
         == (if i > 0 then start + PrintMembers(ms[..i], lib) + "," else start + PrintMembers(ms[..i], lib))
            + PrintMember(ms[i], lib)
  {
    hide Print, PrintMember, PrintMembers;
    MembersSnoc(ms[..i], ms[i], lib);
    assert ms[..i] + [ms[i]] == ms[..i + 1];
  }

  lemma {:induction false} ElementsSnoc(es: seq<JsonNode>, e: JsonNode, lib: FloatLib)
    ensures PrintElements(es + [e], lib)
         == PrintElements(es, lib) + ((if es == [] then "" else ",") + Print(e, lib))
  {
    hide Print;
    if es == [] {
      assert es + [e] == [e];
    } else {
      ElementsSnoc(es[1..], e, lib);
      assert (es + [e])[1..] == es[1..] + [e];
      if |es| == 1 { assert es[1..] == []; }
    }
  }

  lemma {:induction false} MembersSnoc(ms: seq<Entry<JsonNode>>, m: Entry<JsonNode>, lib: FloatLib)
    ensures PrintMembers(ms + [m], lib)
         == PrintMembers(ms, lib)
            + ((if ms == [] then "" else ",") + PrintMember(m, lib))
  {
    hide PrintMember;
    if ms == [] {
      assert ms + [m] == [m];
    } else {
      MembersSnoc(ms[1..], m, lib);
      assert (ms + [m])[1..] == ms[1..] + [m];
      if |ms| == 1 { assert ms[1..] == []; }
    }
  }

  method SerializeJson(doc: JsonNode, lib: FloatLib) returns (out: string)
    ensures out == Print(doc, lib)
  {
    var os := new StringStream();
    SerializeNode(doc, os, lib);
    out := os.text;
  }
}
