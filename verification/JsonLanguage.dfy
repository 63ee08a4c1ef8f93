/** The parser accepts every spelling that is shallow enough, and answers its meaning. */
module JsonCompleteness {
  import opened OrderedMaps
  import opened JsonTree
  import opened JsonParser
  import opened JsonNumbers
  import opened JsonGrammar

  /** What the parser must answer for a spelling found at nesting level `depth`. */
  ghost function Answer(c: Spelling, rest: string, depth: nat, lib: FloatLib): Parsed<JsonNode> {
    if depth + Depth(c) <= MAX_DEPTH then Got(Meaning(c, lib), rest) else Fail(Refused)
  }

  /** Blanks, strings, words and lexemes cannot be mistaken for one another. */
  lemma Starts(c: Spelling, rest: string, lib: FloatLib)
    requires Valid(c, lib)
    ensures Spell(c, rest) != ""
    ensures !IsWs(Spell(c, rest)[0]) && Spell(c, rest)[0] !in ",]}:\0"
    ensures SkipWs(Spell(c, rest)) == Spell(c, rest)
  {
  }

  lemma {:induction false} StringIsRead(us: seq<Unit>, rest: string)
    requires ValidUnits(us)
    ensures StringBody(SpellUnits(us, ['"'] + rest)) == Got(Decoded(us), rest)
  {
    if us == [] {
      assert (['"'] + rest)[1..] == rest;
    } else {
      StringIsRead(us[1..], rest);
      var more := SpellUnits(us[1..], ['"'] + rest);
      var s := SpellUnits(us, ['"'] + rest);
      assert ValidUnit(us[0]);
      match us[0] {
        case Plain(c) => assert s[1..] == more;
        case Escaped(c) => assert s[2..] == more;
      }
    }
  }

  lemma TextIsRead(us: seq<Unit>, rest: string)
    requires ValidUnits(us)
    ensures ParseString(SpellText(us, rest)) == Got(Decoded(us), rest)
  {
    StringIsRead(us, rest);
    assert SpellText(us, rest)[1..] == SpellUnits(us, ['"'] + rest);
  }

  lemma BlanksBeforeValue(s: string, depth: nat, lib: FloatLib)
    ensures ParseValue(SkipWs(s), depth, lib) == ParseValue(s, depth, lib)
  {
  }

  lemma BlanksBeforeElements(s: string, depth: nat, acc: seq<JsonNode>, lib: FloatLib)
    ensures ParseElements(SkipWs(s), depth, acc, lib) == ParseElements(s, depth, acc, lib)
  {
    BlanksBeforeValue(s, depth + 1, lib);
  }

  lemma BlanksBeforeMembers(s: string, depth: nat, acc: seq<Entry<JsonNode>>, lib: FloatLib)
    ensures ParseMembers(SkipWs(s), depth, acc, lib) == ParseMembers(s, depth, acc, lib)
  {
  }

  lemma ScalarIsRead(c: Spelling, rest: string, depth: nat, lib: FloatLib)
    requires c.Word? || c.Number? || c.Text?
    requires Valid(c, lib) && EndsBefore(c, rest) && depth <= MAX_DEPTH
    ensures ParseValue(Spell(c, rest), depth, lib) == Got(Meaning(c, lib), rest)
  {
    Starts(c, rest, lib);
    match c {
      case Word(v) => WordIsRead(v, rest, depth, lib);
      case Text(us) => TextIsRead(us, rest);
      case Number(l) => NumberIsRead(c, rest, depth, lib);
    }
  }

  lemma WordIsRead(v: JsonNode, rest: string, depth: nat, lib: FloatLib)
    requires (v == Null || v.Bool?) && depth <= MAX_DEPTH
    ensures ParseValue(WordText(v) + rest, depth, lib) == Got(v, rest)
  {
    var s := WordText(v) + rest;
    assert SkipWs(s) == s;
    assert s[|WordText(v)|..] == rest;
  }

  lemma NumberIsRead(c: Spelling, rest: string, depth: nat, lib: FloatLib)
    requires c.Number? && Valid(c, lib) && EndsBefore(c, rest) && depth <= MAX_DEPTH
    ensures ParseValue(Spell(c, rest), depth, lib) == Got(Meaning(c, lib), rest)
  {
    hide NumberRest, NumberValue, IsFloat, Lexeme, Pointed, CannotGrow;
    var s := c.lexeme + rest;
    Starts(c, rest, lib);
    ReadExactly(c.lexeme, rest);
    LexemeCut(c.lexeme, rest);
    FloatsArePointed(c.lexeme);
    assert s[..|s| - |rest|] == c.lexeme;
    assert ParseNumber(s, lib) == Got(Meaning(c, lib), rest);
  }

  /** The text after a value inside a container cannot prolong a number. */
  lemma ItemEnds(it: Item, tail: string, lib: FloatLib)
    requires ValidItem(it, lib) && Peek(tail) in ",]}"
    ensures EndsBefore(it.value, it.after + tail)
  {
    if it.value.Number? {
      assert Peek(it.after + tail) == if it.after == "" then Peek(tail) else it.after[0];
      LexemeStops(it.value.lexeme, it.after + tail);
    }
  }

  lemma {:induction false} ValueIsRead(ws: string, c: Spelling, rest: string, depth: nat, lib: FloatLib)
    requires Blank(ws) && Valid(c, lib) && EndsBefore(c, rest)
    ensures ParseValue(ws + Spell(c, rest), depth, lib) == Answer(c, rest, depth, lib)
    decreases c
  {
    var s := Spell(c, rest);
    Starts(c, rest, lib);
    SkipBlank(ws, s);
    BlanksBeforeValue(ws + s, depth, lib);
    if depth <= MAX_DEPTH {
      match c {
        case ArrayOf(items, pad) => ArrayIsRead(c, rest, depth, lib);
        case ObjectOf(pairs, pad) => ObjectIsRead(c, rest, depth, lib);
        case _ => ScalarIsRead(c, rest, depth, lib);
      }
    }
  }

  lemma {:induction false} ArrayIsRead(c: Spelling, rest: string, depth: nat, lib: FloatLib)
    requires c.ArrayOf? && Valid(c, lib) && depth <= MAX_DEPTH
    ensures ParseValue(Spell(c, rest), depth, lib) == Answer(c, rest, depth, lib)
    decreases c, 0
  {
    var s := Spell(c, rest);
    if c.items == [] {
      assert s[1..] == c.pad + ([']'] + rest);
      SkipBlank(c.pad, [']'] + rest);
      assert ([']'] + rest)[1..] == rest;
      assert Blank(c.pad) && SkipWs(s[1..]) == [']'] + rest;
      assert Meaning(c, lib) == Array([]);
    } else {
      hide SpellItems, ParseElements, ItemValues, ItemsDepth, SkipWs;
      var inner := SpellItems(c.items, rest);
      assert s[1..] == inner;
      Starts(c, rest, lib);
      ItemsStart(c.items, rest, lib);
      BlanksBeforeElements(inner, depth, [], lib);
      ItemsAreRead(c.items, rest, depth, [], lib);
      assert [] + ItemValues(c.items, lib) == ItemValues(c.items, lib);
    }
  }

  /** What stands in a nonempty array does not look like its end. */
  lemma ItemsStart(items: seq<Item>, rest: string, lib: FloatLib)
    requires items != [] && forall i :: 0 <= i < |items| ==> ValidItem(items[i], lib)
    ensures Peek(SkipWs(SpellItems(items, rest))) !in ",]}:\0"
  {
    var it := items[0];
    var tail := if |items| == 1 then [']'] + rest else [','] + SpellItems(items[1..], rest);
    assert ValidItem(it, lib);
    Starts(it.value, it.after + tail, lib);
    SkipBlank(it.before, Spell(it.value, it.after + tail));
  }

  lemma {:induction false} ItemsAreRead(items: seq<Item>, rest: string, depth: nat, acc: seq<JsonNode>, lib: FloatLib)
    requires items != [] && forall i :: 0 <= i < |items| ==> ValidItem(items[i], lib)
    ensures ParseElements(SpellItems(items, rest), depth, acc, lib)
         == if depth + 1 + ItemsDepth(items) <= MAX_DEPTH then Got(Array(acc + ItemValues(items, lib)), rest)
            else Fail(Refused)
    decreases items
  {
    hide ParseValue, Meaning, Depth, Spell, Valid;
    var it := items[0];
    var tail := if |items| == 1 then [']'] + rest else [','] + SpellItems(items[1..], rest);
    assert ValidItem(it, lib);
    ItemEnds(it, tail, lib);
    ValueIsRead(it.before, it.value, it.after + tail, depth + 1, lib);
    SkipBlank(it.after, tail);
    var v := Meaning(it.value, lib);
    if |items| == 1 {
      assert items[1..] == [];
      assert tail[1..] == rest;
      assert acc + ([v] + []) == acc + [v];
    } else {
      assert tail[1..] == SpellItems(items[1..], rest);
      ItemsAreRead(items[1..], rest, depth, acc + [v], lib);
      assert (acc + [v]) + ItemValues(items[1..], lib) == acc + ItemValues(items, lib);
    }
  }

  lemma {:induction false} ObjectIsRead(c: Spelling, rest: string, depth: nat, lib: FloatLib)
    requires c.ObjectOf? && Valid(c, lib) && depth <= MAX_DEPTH
    ensures ParseValue(Spell(c, rest), depth, lib) == Answer(c, rest, depth, lib)
    decreases c, 0
  {
    var s := Spell(c, rest);
    if c.pairs == [] {
      assert s[1..] == c.pad + (['}'] + rest);
      SkipBlank(c.pad, ['}'] + rest);
      assert (['}'] + rest)[1..] == rest;
      assert Blank(c.pad) && SkipWs(s[1..]) == ['}'] + rest;
      assert Meaning(c, lib) == Object([]);
    } else {
      hide SpellPairs, ParseMembers, PairValues, PairsDepth, SkipWs;
      var inner := SpellPairs(c.pairs, rest);
      assert s[1..] == inner;
      Starts(c, rest, lib);
      PairsStart(c.pairs, rest, lib);
      BlanksBeforeMembers(inner, depth, [], lib);
      PairsAreRead(c.pairs, rest, depth, [], lib);
    }
  }

  lemma PairsStart(pairs: seq<Pair>, rest: string, lib: FloatLib)
    requires pairs != [] && forall i :: 0 <= i < |pairs| ==> ValidPair(pairs[i], lib)
    ensures Peek(SkipWs(SpellPairs(pairs, rest))) == '"'
  {
    var p := pairs[0];
    var tail := if |pairs| == 1 then ['}'] + rest else [','] + SpellPairs(pairs[1..], rest);
    assert ValidPair(p, lib);
    SkipBlank(p.before, SpellText(p.key, p.beforeColon + ([':'] + SpellItem(p.item, tail))));
  }

  lemma {:induction false} PairIsRead(p: Pair, tail: string, depth: nat, lib: FloatLib)
    requires ValidPair(p, lib) && Peek(tail) in ",]}"
    ensures ParseMember(SpellPair(p, tail), depth, lib)
         == if depth + 1 + Depth(p.item.value) <= MAX_DEPTH
            then Got(Entry(Decoded(p.key), Meaning(p.item.value, lib)), p.item.after + tail)
            else Fail(Refused)
    decreases p
  {
    var colon := [':'] + SpellItem(p.item, tail);
    var key := SpellText(p.key, p.beforeColon + colon);
    SkipBlank(p.before, key);
    TextIsRead(p.key, p.beforeColon + colon);
    SkipBlank(p.beforeColon, colon);
    assert colon[1..] == SpellItem(p.item, tail);
    ItemEnds(p.item, tail, lib);
    ValueIsRead(p.item.before, p.item.value, p.item.after + tail, depth + 1, lib);
  }

  lemma {:induction false} PairsAreRead(pairs: seq<Pair>, rest: string, depth: nat, acc: seq<Entry<JsonNode>>, lib: FloatLib)
    requires pairs != [] && forall i :: 0 <= i < |pairs| ==> ValidPair(pairs[i], lib)
    ensures ParseMembers(SpellPairs(pairs, rest), depth, acc, lib)
         == if depth + 1 + PairsDepth(pairs) <= MAX_DEPTH then Got(Object(PairValues(acc, pairs, lib)), rest)
            else Fail(Refused)
    decreases pairs
  {
    hide ParseMember, Meaning, Depth, Spell, Valid, Decoded, SpellPair;
    var p := pairs[0];
    var tail := if |pairs| == 1 then ['}'] + rest else [','] + SpellPairs(pairs[1..], rest);
    assert ValidPair(p, lib) && ValidItem(p.item, lib);
    PairIsRead(p, tail, depth, lib);
    SkipBlank(p.item.after, tail);
    if |pairs| == 1 {
      assert pairs[1..] == [];
      assert tail[1..] == rest;
    } else {
      assert tail[1..] == SpellPairs(pairs[1..], rest);
      PairsAreRead(pairs[1..], rest, depth, Put(acc, Decoded(p.key), Meaning(p.item.value, lib)), lib);
    }
  }
}

/** Conversely, whatever the parser accepts is a spelling of its answer. */
module JsonSoundness {
  import opened OrderedMaps
  import opened JsonTree
  import opened JsonParser
  import opened JsonNumbers
  import opened JsonGrammar
  import opened JsonCompleteness

  lemma {:induction false} UnitsOf(s: string) returns (us: seq<Unit>, closed: bool)
    requires StringBody(s).Got?
    ensures ValidUnits(us) && Decoded(us) == StringBody(s).value
    ensures closed ==> s == SpellUnits(us, ['"'] + StringBody(s).rest)
    ensures !closed ==> s == SpellUnits(us, StringBody(s).rest) && Peek(StringBody(s).rest) == '\0'
  {
    if Peek(s) == '\0' {
      us, closed := [], false;
    } else if s[0] == '"' {
      us, closed := [], true;
      assert s == ['"'] + s[1..];
    } else {
      var n := if s[0] == '\\' then 2 else 1;
      us, closed := UnitsOf(s[n..]);
      var u := if s[0] == '\\' then Escaped(s[1]) else Plain(s[0]);
      assert ([u] + us)[1..] == us;
      assert s == if n == 2 then ['\\'] + ([s[1]] + s[2..]) else [s[0]] + s[1..];
      us := [u] + us;
    }
  }

  /** A string that another token follows must have been closed. */
  lemma TextOf(s: string) returns (us: seq<Unit>)
    requires ParseString(s).Got? && Peek(SkipWs(ParseString(s).rest)) != '\0'
    ensures ValidUnits(us) && Decoded(us) == ParseString(s).value
    ensures s == SpellText(us, ParseString(s).rest)
  {
    var closed;
    us, closed := UnitsOf(s[1..]);
    assert s == ['"'] + s[1..];
  }

  lemma NumberOf(s: string, lib: FloatLib) returns (c: Spelling)
    requires (Peek(s) == '-' || IsDigit(Peek(s))) && ParseNumber(s, lib).Got?
    ensures c.Number? && Valid(c, lib) && Meaning(c, lib) == ParseNumber(s, lib).value
    ensures s == c.lexeme + ParseNumber(s, lib).rest && EndsBefore(c, ParseNumber(s, lib).rest)
  {
    hide NumberRest, NumberValue, IsFloat, Lexeme, Pointed, CannotGrow;
    NumberConsumes(s);
    var l := LexemeOf(s);
    assert l == s[..|s| - |NumberRest(s)|];
    LexemeCut(l, NumberRest(s));
    ReadExactly(l, NumberRest(s));
    FloatsArePointed(l);
    c := Number(l);
  }

  /** A value without blanks before it that is not a container. */
  lemma ScalarOf(t: string, depth: nat, lib: FloatLib) returns (c: Spelling, closed: bool)
    requires SkipWs(t) == t && Peek(t) !in "{[" && ParseValue(t, depth, lib).Got?
    ensures Valid(c, lib) && Depth(c) == 0 && Meaning(c, lib) == ParseValue(t, depth, lib).value
    ensures var rest := ParseValue(t, depth, lib).rest;
            if closed then t == Spell(c, rest) && EndsBefore(c, rest)
            else c.Text? && t == ['"'] + SpellUnits(c.units, rest) && Peek(rest) == '\0'
  {
    closed := true;
    if Peek(t) == '"' {
      var us;
      us, closed := UnitsOf(t[1..]);
      c := Text(us);
      assert t == ['"'] + t[1..];
    } else if "true" <= t {
      c := Word(Bool(true));
      assert t == "true" + t[4..];
    } else if "false" <= t {
      c := Word(Bool(false));
      assert t == "false" + t[5..];
    } else if "null" <= t {
      c := Word(Null);
      assert t == "null" + t[4..];
    } else {
      c := NumberOf(t, lib);
    }
  }

  lemma {:induction false} SpellingOf(s: string, depth: nat, lib: FloatLib)
    returns (ws: string, c: Spelling, closed: bool)
    requires ParseValue(s, depth, lib).Got?
    ensures Blank(ws) && Valid(c, lib) && depth + Depth(c) <= MAX_DEPTH
    ensures Meaning(c, lib) == ParseValue(s, depth, lib).value
    ensures var rest := ParseValue(s, depth, lib).rest;
            if closed then s == ws + Spell(c, rest) && EndsBefore(c, rest)
            else c.Text? && s == ws + (['"'] + SpellUnits(c.units, rest)) && Peek(rest) == '\0'
    decreases |s|, 1
  {
    ws := BlanksOf(s);
    var t := SkipWs(s);
    BlanksBeforeValue(s, depth, lib);
    closed := true;
    if Peek(t) == '[' {
      c := ArrayFor(t, depth, lib);
    } else if Peek(t) == '{' {
      c := ObjectFor(t, depth, lib);
    } else {
      c, closed := ScalarOf(t, depth, lib);
    }
  }

  lemma NoBlankHere(t: string)
    requires !IsWs(Peek(t))
    ensures SkipWs(t) == t
  {
  }

  lemma NoBlank()
    ensures Blank("")
  {
  }

  lemma {:induction false} ArrayFor(t: string, depth: nat, lib: FloatLib) returns (c: Spelling)
    requires Peek(t) == '[' && ParseValue(t, depth, lib).Got?
    ensures c.ArrayOf? && Valid(c, lib) && depth + Depth(c) <= MAX_DEPTH
    ensures Meaning(c, lib) == ParseValue(t, depth, lib).value
    ensures t == Spell(c, ParseValue(t, depth, lib).rest)
    decreases |t|, 0
  {
    hide SkipWs, Blank;
    assert SkipWs(t) == t by { NoBlankHere(t); }
    var inner := t[1..];
    assert t == ['['] + inner;
    var u := SkipWs(inner);
    if Peek(u) == ']' {
      var pad := BlanksOf(inner);
      c := ArrayOf([], pad);
      assert u == [']'] + u[1..];
    } else {
      BlanksBeforeElements(inner, depth, [], lib);
      var items := ItemsOf(inner, depth, [], lib);
      c := ArrayOf(items, "");
      NoBlank();
      assert [] + ItemValues(items, lib) == ItemValues(items, lib);
    }
  }

  lemma {:induction false} ObjectFor(t: string, depth: nat, lib: FloatLib) returns (c: Spelling)
    requires Peek(t) == '{' && ParseValue(t, depth, lib).Got?
    ensures c.ObjectOf? && Valid(c, lib) && depth + Depth(c) <= MAX_DEPTH
    ensures Meaning(c, lib) == ParseValue(t, depth, lib).value
    ensures t == Spell(c, ParseValue(t, depth, lib).rest)
    decreases |t|, 0
  {
    hide SkipWs, Blank;
    assert SkipWs(t) == t by { NoBlankHere(t); }
    var inner := t[1..];
    assert t == ['{'] + inner;
    var u := SkipWs(inner);
    if Peek(u) == '}' {
      var pad := BlanksOf(inner);
      c := ObjectOf([], pad);
      assert u == ['}'] + u[1..];
    } else {
      BlanksBeforeMembers(inner, depth, [], lib);
      var pairs := PairsOf(inner, depth, [], lib);
      c := ObjectOf(pairs, "");
      NoBlank();
    }
  }

  /** One value with its blanks, when a bracket or a comma follows it. */
  lemma {:induction false} ItemOf(s: string, depth: nat, lib: FloatLib) returns (it: Item)
    requires ParseValue(s, depth, lib).Got? && Peek(SkipWs(ParseValue(s, depth, lib).rest)) != '\0'
    ensures ValidItem(it, lib) && depth + Depth(it.value) <= MAX_DEPTH
    ensures Meaning(it.value, lib) == ParseValue(s, depth, lib).value
    ensures s == SpellItem(it, SkipWs(ParseValue(s, depth, lib).rest))
    decreases |s|, 2
  {
    var ws, c, closed := SpellingOf(s, depth, lib);
    var after := BlanksOf(ParseValue(s, depth, lib).rest);
    it := Item(ws, c, after);
  }

  lemma {:induction false} ItemsOf(s: string, depth: nat, acc: seq<JsonNode>, lib: FloatLib) returns (items: seq<Item>)
    requires ParseElements(s, depth, acc, lib).Got?
    ensures items != [] && forall i :: 0 <= i < |items| ==> ValidItem(items[i], lib)
    ensures depth + 1 + ItemsDepth(items) <= MAX_DEPTH
    ensures ParseElements(s, depth, acc, lib).value == Array(acc + ItemValues(items, lib))
    ensures s == SpellItems(items, ParseElements(s, depth, acc, lib).rest)
    decreases |s|, 3
  {
    hide SkipWs, ParseValue, Meaning, Depth, SpellItem, ValidItem;
    var it := ItemOf(s, depth + 1, lib);
    var v := Meaning(it.value, lib);
    var t := SkipWs(ParseValue(s, depth + 1, lib).rest);
    assert t == [t[0]] + t[1..];
    if Peek(t) == ',' {
      var more := ItemsOf(t[1..], depth, acc + [v], lib);
      items := [it] + more;
      MoreItems(it, more, acc, lib);
    } else {
      items := [it];
      MoreItems(it, [], acc, lib);
      assert acc + [v] + [] == acc + [v];
    }
  }

  lemma MoreItems(it: Item, more: seq<Item>, acc: seq<JsonNode>, lib: FloatLib)
    ensures ([it] + more)[1..] == more
    ensures acc + ItemValues([it] + more, lib) == acc + [Meaning(it.value, lib)] + ItemValues(more, lib)
  {
    assert ([it] + more)[1..] == more;
  }

  lemma {:induction false} PairOf(s: string, depth: nat, lib: FloatLib) returns (p: Pair)
    requires ParseMember(s, depth, lib).Got? && Peek(SkipWs(ParseMember(s, depth, lib).rest)) != '\0'
    ensures ValidPair(p, lib) && depth + 1 + Depth(p.item.value) <= MAX_DEPTH
    ensures ParseMember(s, depth, lib).value == Entry(Decoded(p.key), Meaning(p.item.value, lib))
    ensures s == SpellPair(p, SkipWs(ParseMember(s, depth, lib).rest))
    decreases |s|, 2
  {
    hide SkipWs, ParseString, ParseValue, Meaning, Depth, Decoded, SpellItem, SpellText, ValidItem, ValidUnits;
    var before := BlanksOf(s);
    var key := TextOf(SkipWs(s));
    var r := ParseString(SkipWs(s)).rest;
    var beforeColon := BlanksOf(r);
    var t := SkipWs(r);
    assert t == [':'] + t[1..];
    var it := ItemOf(t[1..], depth + 1, lib);
    p := Pair(before, key, beforeColon, it);
  }

  lemma {:induction false} PairsOf(s: string, depth: nat, acc: seq<Entry<JsonNode>>, lib: FloatLib) returns (pairs: seq<Pair>)
    requires ParseMembers(s, depth, acc, lib).Got?
    ensures pairs != [] && forall i :: 0 <= i < |pairs| ==> ValidPair(pairs[i], lib)
    ensures depth + 1 + PairsDepth(pairs) <= MAX_DEPTH
    ensures ParseMembers(s, depth, acc, lib).value == Object(PairValues(acc, pairs, lib))
    ensures s == SpellPairs(pairs, ParseMembers(s, depth, acc, lib).rest)
    decreases |s|, 3
  {
    hide SkipWs, ParseMember, Meaning, Depth, Decoded, SpellPair, ValidPair;
    var p := PairOf(s, depth, lib);
    var m := ParseMember(s, depth, lib).value;
    var t := SkipWs(ParseMember(s, depth, lib).rest);
    assert t == [t[0]] + t[1..];
    if Peek(t) == ',' {
      var more := PairsOf(t[1..], depth, Put(acc, m.key, m.value), lib);
      pairs := [p] + more;
      assert pairs[1..] == more;
    } else {
      pairs := [p];
      assert pairs[1..] == [];
    }
  }
}
