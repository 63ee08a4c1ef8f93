/** Printing a tree writes one particular spelling of it. */
module JsonPrinted {
  import opened Wrappers
  import opened OrderedMaps
  import opened JsonTree
  import opened JsonParser
  import opened JsonNumbers
  import opened JsonGrammar

  ghost function StringUnits(s: string): seq<Unit> {
    if s == "" then []
    else [if s[0] == '\n' then Escaped('n')
          else if s[0] == '"' || s[0] == '\\' then Escaped(s[0])
          else Plain(s[0])] + StringUnits(s[1..])
  }

  ghost function KeyUnits(k: string): seq<Unit> {
    if k == "" then [] else [Plain(k[0])] + KeyUnits(k[1..])
  }

  /** The spelling without blanks that the serializer writes. */
  ghost function PrintedAs(v: JsonNode): Spelling
    decreases v
  {
    match v
    case Int(i) => Number(PrintInt(i))
    case String(s) => Text(StringUnits(s))
    case Array(es) => ArrayOf(PrintedItems(es), "")
    case Object(ms) => ObjectOf(PrintedPairs(ms), "")
    case _ => Word(v)
  }

  ghost function PrintedItems(es: seq<JsonNode>): seq<Item>
    decreases es
  {
    if es == [] then [] else [Item("", PrintedAs(es[0]), "")] + PrintedItems(es[1..])
  }

  ghost function PrintedPairs(ms: seq<Entry<JsonNode>>): seq<Pair>
    decreases ms
  {
    if ms == [] then []
    else [Pair("", KeyUnits(ms[0].key), "", Item("", PrintedAs(ms[0].value), ""))] + PrintedPairs(ms[1..])
  }

  // ---- Decimal integers -------------------------------------------------------

  lemma {:induction false} PrintNatDigits(n: nat)
    ensures PrintNat(n) != "" && AllDigits(PrintNat(n)) && DigitsValue(PrintNat(n)) == n
  {
    if n >= 10 {
      PrintNatDigits(n / 10);
      var s := PrintNat(n);
      assert s[..|s| - 1] == PrintNat(n / 10);
    } else {
      assert PrintNat(n)[..0] == "";
    }
  }

  /** `std::stol` reads back what the stream printed exactly when it fits `long`. */
  lemma StolOfPrinted(i: int)
    ensures Stol(PrintInt(i)) == if -0x8000_0000_0000_0000 <= i <= 0x7FFF_FFFF_FFFF_FFFF then Some(i) else None
  {
    var n := if i < 0 then -i else i;
    PrintNatDigits(n);
    if i < 0 { assert PrintInt(i)[1..] == PrintNat(n); }
  }

  lemma PrintedIntLexeme(i: int)
    ensures Peek(PrintInt(i)) == '-' || IsDigit(Peek(PrintInt(i)))
    ensures Lexeme(PrintInt(i)) && !Pointed(PrintInt(i))
  {
    hide Lexeme, Pointed;
    var n := if i < 0 then -i else i;
    PrintNatDigits(n);
    if i < 0 { assert PrintInt(i)[1..] == PrintNat(n); }
    IntegersAreLexemes(PrintInt(i));
  }

  // ---- Strings and keys -------------------------------------------------------

  lemma {:induction false} StringIsPrinted(s: string, rest: string)
    ensures Escape(s) + rest == SpellUnits(StringUnits(s), rest)
  {
    if s == "" {
      assert Escape(s) + rest == rest;
    } else {
      StringIsPrinted(s[1..], rest);
      var us := StringUnits(s);
      assert us[1..] == StringUnits(s[1..]);
      var more := Escape(s[1..]) + rest;
      assert Escape(s) + rest == EscapeChar(s[0]) + more;
      assert EscapeChar(s[0]) + more == if us[0].Escaped? then ['\\'] + ([us[0].c] + more) else [s[0]] + more;
    }
  }

  lemma {:induction false} StringMeaning(s: string)
    requires NulFree(s)
    ensures ValidUnits(StringUnits(s)) && Decoded(StringUnits(s)) == s
  {
    if s != "" {
      StringMeaning(s[1..]);
      assert StringUnits(s)[1..] == StringUnits(s[1..]);
      assert s == [s[0]] + s[1..];
    }
  }

  lemma TextIsPrinted(s: string, rest: string)
    ensures "\"" + Escape(s) + "\"" + rest == SpellText(StringUnits(s), rest)
  {
    StringIsPrinted(s, ['"'] + rest);
    assert "\"" + Escape(s) + "\"" + rest == ['"'] + (Escape(s) + (['"'] + rest));
  }

  lemma {:induction false} KeyIsPrinted(k: string, rest: string)
    requires PlainKey(k)
    ensures k + rest == SpellUnits(KeyUnits(k), rest)
    ensures ValidUnits(KeyUnits(k)) && Decoded(KeyUnits(k)) == k
  {
    KeyMeaning(k);
    if k == "" {
      assert k + rest == rest;
    } else {
      hide Decoded, ValidUnits;
      KeyIsPrinted(k[1..], rest);
      assert KeyUnits(k)[1..] == KeyUnits(k[1..]);
      assert k + rest == [k[0]] + (k[1..] + rest);
    }
  }

  lemma {:induction false} KeyMeaning(k: string)
    requires PlainKey(k)
    ensures ValidUnits(KeyUnits(k)) && Decoded(KeyUnits(k)) == k
  {
    if k != "" {
      KeyMeaning(k[1..]);
      assert KeyUnits(k)[1..] == KeyUnits(k[1..]);
      assert k == [k[0]] + k[1..];
    }
  }

  // ---- Trees --------------------------------------------------------------------

  lemma {:induction false} PrintIsSpelling(v: JsonNode, rest: string, lib: FloatLib)
    requires Printable(v)
    ensures Print(v, lib) + rest == Spell(PrintedAs(v), rest)
    decreases v
  {
    match v {
      case String(s) =>
        TextIsPrinted(s, rest);
      case Array(es) =>
        ElementsAreSpelled(es, rest, lib);
      case Object(ms) =>
        MembersAreSpelled(ms, rest, lib);
      case _ =>
    }
  }

  lemma {:induction false} ElementsAreSpelled(es: seq<JsonNode>, rest: string, lib: FloatLib)
    requires forall k :: 0 <= k < |es| ==> Printable(es[k])
    ensures "[" + PrintElements(es, lib) + "]" + rest == Spell(ArrayOf(PrintedItems(es), ""), rest)
    decreases es
  {
    if es == [] {
      assert "" + ([']'] + rest) == [']'] + rest;
      assert "[" + "" + "]" + rest == ['['] + ([']'] + rest);
    } else {
      ElementTails(es, rest, lib);
      assert "[" + PrintElements(es, lib) + "]" + rest == ['['] + (PrintElements(es, lib) + ([']'] + rest));
    }
  }

  lemma {:induction false} ElementTails(es: seq<JsonNode>, rest: string, lib: FloatLib)
    requires es != [] && forall k :: 0 <= k < |es| ==> Printable(es[k])
    ensures PrintElements(es, lib) + ([']'] + rest) == SpellItems(PrintedItems(es), rest)
    decreases es, 0
  {
    var items := PrintedItems(es);
    assert items[1..] == PrintedItems(es[1..]);
    var tail := if |es| == 1 then [']'] + rest else [','] + (PrintElements(es[1..], lib) + ([']'] + rest));
    if |es| > 1 { ElementTails(es[1..], rest, lib); } else { assert es[1..] == []; }
    PrintIsSpelling(es[0], tail, lib);
    assert PrintElements(es, lib) + ([']'] + rest) == Print(es[0], lib) + tail;
    BareItem(PrintedAs(es[0]), tail);
  }

  lemma BareItem(c: Spelling, tail: string)
    ensures SpellItem(Item("", c, ""), tail) == Spell(c, tail)
  {
    assert "" + tail == tail;
    assert "" + Spell(c, tail) == Spell(c, tail);
  }

  lemma {:induction false} MembersAreSpelled(ms: seq<Entry<JsonNode>>, rest: string, lib: FloatLib)
    requires forall k :: 0 <= k < |ms| ==> PlainKey(ms[k].key) && Printable(ms[k].value)
    ensures "{" + PrintMembers(ms, lib) + "}" + rest == Spell(ObjectOf(PrintedPairs(ms), ""), rest)
    decreases ms
  {
    if ms == [] {
      assert "" + (['}'] + rest) == ['}'] + rest;
      assert "{" + "" + "}" + rest == ['{'] + (['}'] + rest);
    } else {
      MemberTails(ms, rest, lib);
      assert "{" + PrintMembers(ms, lib) + "}" + rest == ['{'] + (PrintMembers(ms, lib) + (['}'] + rest));
    }
  }

  lemma {:induction false} MemberTails(ms: seq<Entry<JsonNode>>, rest: string, lib: FloatLib)
    requires ms != [] && forall k :: 0 <= k < |ms| ==> PlainKey(ms[k].key) && Printable(ms[k].value)
    ensures PrintMembers(ms, lib) + (['}'] + rest) == SpellPairs(PrintedPairs(ms), rest)
    decreases ms, 0
  {
    var pairs := PrintedPairs(ms);
    assert pairs[1..] == PrintedPairs(ms[1..]);
    var tail := if |ms| == 1 then ['}'] + rest else [','] + (PrintMembers(ms[1..], lib) + (['}'] + rest));
    if |ms| > 1 { MemberTails(ms[1..], rest, lib); } else { assert ms[1..] == []; }
    PrintIsSpelling(ms[0].value, tail, lib);
    assert PrintMembers(ms, lib) + (['}'] + rest) == PrintMember(ms[0], lib) + tail;
    MemberIsSpelled(ms[0], tail, lib);
  }

  lemma MemberIsSpelled(m: Entry<JsonNode>, tail: string, lib: FloatLib)
    requires PlainKey(m.key) && Print(m.value, lib) + tail == Spell(PrintedAs(m.value), tail)
    ensures PrintMember(m, lib) + tail
         == SpellPair(Pair("", KeyUnits(m.key), "", Item("", PrintedAs(m.value), "")), tail)
  {
    BareItem(PrintedAs(m.value), tail);
    var colon := [':'] + Spell(PrintedAs(m.value), tail);
    QuotedMember(m.key, Print(m.value, lib), tail);
    KeyIsPrinted(m.key, ['"'] + colon);
    BarePair(KeyUnits(m.key), colon);
  }

  lemma QuotedMember(key: string, value: string, tail: string)
    ensures "\"" + key + "\":" + value + tail == ['"'] + (key + (['"'] + ([':'] + (value + tail))))
  {
  }

  lemma BarePair(us: seq<Unit>, colon: string)
    ensures "" + SpellText(us, "" + colon) == SpellText(us, colon)
  {
    assert "" + colon == colon;
  }

  lemma {:induction false} PrintedMeaning(v: JsonNode, lib: FloatLib)
    requires Printable(v)
    ensures Valid(PrintedAs(v), lib) && Meaning(PrintedAs(v), lib) == v
    ensures Depth(PrintedAs(v)) == Height(v)
    decreases v
  {
    hide PrintInt, Lexeme, Pointed, StringUnits, Decoded, PrintedItems, PrintedPairs;
    hide ItemValues, PairValues, ItemsDepth, PairsDepth, ElementsHeight, MembersHeight, ValidItem, ValidPair;
    match v {
      case Int(i) => PrintedIntMeaning(i, lib);
      case String(s) => StringMeaning(s);
      case Array(es) => PrintedItemsMeaning(es, lib);
      case Object(ms) => PrintedPairsMeaning([], ms, lib);
      case _ =>
    }
  }

  lemma PrintedIntMeaning(i: int, lib: FloatLib)
    requires LONG_MIN <= i <= LONG_MAX
    ensures Valid(Number(PrintInt(i)), lib) && Meaning(Number(PrintInt(i)), lib) == Int(i)
  {
    hide Lexeme, Pointed, Stol, PrintInt;
    PrintedIntLexeme(i);
    StolOfPrinted(i);
  }

  lemma {:induction false} PrintedItemsMeaning(es: seq<JsonNode>, lib: FloatLib)
    requires forall k :: 0 <= k < |es| ==> Printable(es[k])
    ensures |PrintedItems(es)| == |es|
    ensures forall i :: 0 <= i < |es| ==> ValidItem(PrintedItems(es)[i], lib)
    ensures ItemValues(PrintedItems(es), lib) == es && ItemsDepth(PrintedItems(es)) == ElementsHeight(es)
    decreases es
  {
    if es != [] {
      PrintedMeaning(es[0], lib);
      PrintedItemsMeaning(es[1..], lib);
      assert PrintedItems(es)[1..] == PrintedItems(es[1..]);
      assert ValidItem(PrintedItems(es)[0], lib);
    }
  }

  lemma {:induction false} PrintedPairsMeaning(done: seq<Entry<JsonNode>>, ms: seq<Entry<JsonNode>>, lib: FloatLib)
    requires Ascending(done + ms)
    requires forall k :: 0 <= k < |ms| ==> PlainKey(ms[k].key) && Printable(ms[k].value)
    ensures |PrintedPairs(ms)| == |ms|
    ensures forall i :: 0 <= i < |ms| ==> ValidPair(PrintedPairs(ms)[i], lib)
    ensures PairValues(done, PrintedPairs(ms), lib) == done + ms
    ensures PairsDepth(PrintedPairs(ms)) == MembersHeight(ms)
    decreases ms
  {
    if ms != [] {
      var m := ms[0];
      PrintedMeaning(m.value, lib);
      KeyIsPrinted(m.key, "");
      assert (done + [m]) + ms[1..] == done + ms;
      assert Ascending(done + [m]) by {
        assert forall i :: 0 <= i < |done + [m]| ==> (done + [m])[i] == (done + ms)[i];
      }
      PutLast(done, m.key, m.value);
      PrintedPairsMeaning(done + [m], ms[1..], lib);
      assert PrintedPairs(ms)[1..] == PrintedPairs(ms[1..]);
      assert ValidPair(PrintedPairs(ms)[0], lib);
    } else {
      assert done + ms == done;
    }
  }
}
