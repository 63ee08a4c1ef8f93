/**
 The texts on which the parser does not answer at all: it steps over the terminator, or
 the library throws because it cannot convert a number.

 A `Stuck` is the concrete syntax tree of such a text up to the place where it happens:
 complete values with their commas, and at the end of the innermost open bracket an open
 string or a number.
 */
module JsonFailures {
  import opened OrderedMaps
  import opened JsonTree
  import opened JsonParser
  import opened JsonNumbers
  import opened JsonGrammar
  import opened JsonCompleteness
  import opened JsonSoundness
  import opened JsonTheorems
  import opened JsonReader

  datatype Stuck =
    | OpenText(units: seq<Unit>)
    | BadNumber(lexeme: string)
    | InArray(items: seq<Item>, before: string, inner: Stuck)
    | InKey(pairs: seq<Pair>, before: string, units: seq<Unit>)
    | InMember(pairs: seq<Pair>, before: string, key: seq<Unit>, beforeColon: string, afterColon: string, inner: Stuck)

  // ---- Writing it out -----------------------------------------------------------

  /** A string that ends, with the text, in a backslash. */
  ghost function SpellOpen(us: seq<Unit>): string { ['"'] + SpellUnits(us, ['\\']) }

  /** Items with a comma behind each. */
  ghost function SpellDone(items: seq<Item>, tail: string): string {
    if items == [] then tail else SpellItem(items[0], [','] + SpellDone(items[1..], tail))
  }

  ghost function SpellDonePairs(pairs: seq<Pair>, tail: string): string {
    if pairs == [] then tail else SpellPair(pairs[0], [','] + SpellDonePairs(pairs[1..], tail))
  }

  ghost function SpellStuck(b: Stuck, rest: string): string {
    match b
    case OpenText(us) => SpellOpen(us)
    case BadNumber(l) => l + rest
    case InArray(items, before, inner) => ['['] + SpellDone(items, before + SpellStuck(inner, rest))
    case InKey(pairs, before, us) => ['{'] + SpellDonePairs(pairs, before + SpellOpen(us))
    case InMember(pairs, before, key, beforeColon, afterColon, inner) =>
      ['{'] + SpellDonePairs(pairs, before + SpellKey(key, beforeColon, afterColon + SpellStuck(inner, rest)))
  }

  ghost function SpellKey(key: seq<Unit>, beforeColon: string, tail: string): string {
    SpellText(key, beforeColon + ([':'] + tail))
  }

  ghost predicate ValidItems(items: seq<Item>, lib: FloatLib) { forall i :: 0 <= i < |items| ==> ValidItem(items[i], lib) }
  ghost predicate ValidPairs(pairs: seq<Pair>, lib: FloatLib) { forall i :: 0 <= i < |pairs| ==> ValidPair(pairs[i], lib) }

  /** A number that is read whole and that the library cannot convert: no digits, or not in range. */
  ghost predicate Unconvertible(l: string, lib: FloatLib) {
    && (Peek(l) == '-' || IsDigit(Peek(l)))
    && Lexeme(l)
    && NumberValue(l, Pointed(l), lib).None?
  }

  ghost predicate ValidStuck(b: Stuck, rest: string, lib: FloatLib) {
    match b
    case OpenText(us) => ValidUnits(us)
    case BadNumber(l) => Unconvertible(l, lib) && CannotGrow(l, rest)
    case InArray(items, before, inner) => ValidItems(items, lib) && Blank(before) && ValidStuck(inner, rest, lib)
    case InKey(pairs, before, us) => ValidPairs(pairs, lib) && Blank(before) && ValidUnits(us)
    case InMember(pairs, before, key, beforeColon, afterColon, inner) =>
      && ValidPairs(pairs, lib) && Blank(before) && ValidUnits(key) && Blank(beforeColon) && Blank(afterColon)
      && ValidStuck(inner, rest, lib)
  }

  /** How deep the brackets nest that the parser has seen by then. */
  ghost function StuckDepth(b: Stuck): nat {
    match b
    case OpenText(_) => 0
    case BadNumber(_) => 0
    case InArray(items, _, inner) => 1 + Max(ItemsDepth(items), StuckDepth(inner))
    case InKey(pairs, _, _) => if pairs == [] then 0 else 1 + PairsDepth(pairs)
    case InMember(pairs, _, _, _, _, inner) => 1 + Max(PairsDepth(pairs), StuckDepth(inner))
  }

  /** What goes wrong. */
  function Cause(b: Stuck): Failure {
    match b
    case OpenText(_) => Overrun
    case BadNumber(_) => Threw
    case InArray(_, _, inner) => Cause(inner)
    case InKey(_, _, _) => Overrun
    case InMember(_, _, _, _, _, inner) => Cause(inner)
  }

  // ---- Such texts fail ------------------------------------------------------------

  lemma StuckStarts(b: Stuck, rest: string, lib: FloatLib)
    requires ValidStuck(b, rest, lib)
    ensures SpellStuck(b, rest) != "" && SpellStuck(b, rest)[0] !in ",]}:\0"
    ensures SkipWs(SpellStuck(b, rest)) == SpellStuck(b, rest)
  {
  }

  lemma OpenTextFails(us: seq<Unit>)
    requires ValidUnits(us)
    ensures ParseString(SpellOpen(us)) == Fail(Overrun)
  {
    DanglingOverruns(us);
    assert SpellOpen(us)[1..] == SpellUnits(us, ['\\']);
  }

  lemma BadNumberFails(l: string, rest: string, depth: nat, lib: FloatLib)
    requires Unconvertible(l, lib) && CannotGrow(l, rest) && depth <= MAX_DEPTH
    ensures ParseValue(l + rest, depth, lib) == Fail(Threw)
  {
    hide NumberRest, NumberValue, IsFloat, Lexeme, Pointed, CannotGrow;
    var s := l + rest;
    ReadExactly(l, rest);
    LexemeCut(l, rest);
    FloatsArePointed(l);
    assert s[..|s| - |rest|] == l;
    assert s != "" && s[0] == l[0] && SkipWs(s) == s;
    assert ParseNumber(s, lib) == Fail(Threw);
  }

  lemma {:induction false} DoneItemsAreRead(items: seq<Item>, tail: string, depth: nat, acc: seq<JsonNode>, lib: FloatLib)
    requires ValidItems(items, lib) && depth + 1 + ItemsDepth(items) <= MAX_DEPTH
    ensures ParseElements(SpellDone(items, tail), depth, acc, lib)
         == ParseElements(tail, depth, acc + ItemValues(items, lib), lib)
    decreases items
  {
    hide ParseValue, Meaning, Depth, Spell, Valid;
    if items == [] {
      assert acc + [] == acc;
    } else {
      var it := items[0];
      var more := [','] + SpellDone(items[1..], tail);
      assert ValidItem(it, lib);
      ItemEnds(it, more, lib);
      ValueIsRead(it.before, it.value, it.after + more, depth + 1, lib);
      SkipBlank(it.after, more);
      var v := Meaning(it.value, lib);
      assert more[1..] == SpellDone(items[1..], tail);
      DoneItemsAreRead(items[1..], tail, depth, acc + [v], lib);
      assert (acc + [v]) + ItemValues(items[1..], lib) == acc + ItemValues(items, lib);
    }
  }

  lemma {:induction false} DonePairsAreRead(pairs: seq<Pair>, tail: string, depth: nat, acc: seq<Entry<JsonNode>>, lib: FloatLib)
    requires ValidPairs(pairs, lib) && (pairs != [] ==> depth + 1 + PairsDepth(pairs) <= MAX_DEPTH)
    ensures ParseMembers(SpellDonePairs(pairs, tail), depth, acc, lib)
         == ParseMembers(tail, depth, PairValues(acc, pairs, lib), lib)
    decreases pairs
  {
    hide ParseMember, Meaning, Depth, Spell, Valid, Decoded, SpellPair;
    if pairs != [] {
      var p := pairs[0];
      var more := [','] + SpellDonePairs(pairs[1..], tail);
      assert ValidPair(p, lib) && ValidItem(p.item, lib);
      PairIsRead(p, more, depth, lib);
      SkipBlank(p.item.after, more);
      assert more[1..] == SpellDonePairs(pairs[1..], tail);
      DonePairsAreRead(pairs[1..], tail, depth, Put(acc, Decoded(p.key), Meaning(p.item.value, lib)), lib);
    }
  }

  /** What the brackets contain does not look like their end. */
  lemma DoneStarts(items: seq<Item>, tail: string, lib: FloatLib)
    requires ValidItems(items, lib) && Peek(SkipWs(tail)) !in ",]}:\0"
    ensures Peek(SkipWs(SpellDone(items, tail))) !in ",]}:\0"
  {
    if items != [] {
      var it := items[0];
      var more := it.after + ([','] + SpellDone(items[1..], tail));
      assert ValidItem(it, lib);
      Starts(it.value, more, lib);
      SkipBlank(it.before, Spell(it.value, more));
    }
  }

  lemma DonePairsStart(pairs: seq<Pair>, tail: string, lib: FloatLib)
    requires ValidPairs(pairs, lib) && Peek(SkipWs(tail)) == '"'
    ensures Peek(SkipWs(SpellDonePairs(pairs, tail))) == '"'
  {
    if pairs != [] {
      var p := pairs[0];
      var more := p.beforeColon + ([':'] + SpellItem(p.item, [','] + SpellDonePairs(pairs[1..], tail)));
      assert ValidPair(p, lib);
      SkipBlank(p.before, SpellText(p.key, more));
    }
  }

  lemma {:induction false} StuckFails(ws: string, b: Stuck, rest: string, depth: nat, lib: FloatLib)
    requires Blank(ws) && ValidStuck(b, rest, lib) && depth + StuckDepth(b) <= MAX_DEPTH
    ensures ParseValue(ws + SpellStuck(b, rest), depth, lib) == Fail(Cause(b))
    decreases b, 2
  {
    var s := SpellStuck(b, rest);
    StuckStarts(b, rest, lib);
    SkipBlank(ws, s);
    BlanksBeforeValue(ws + s, depth, lib);
    match b {
      case OpenText(us) => OpenTextFails(us);
      case BadNumber(l) => BadNumberFails(l, rest, depth, lib);
      case InArray(items, before, inner) => StuckArrayFails(b, rest, depth, lib);
      case _ => StuckObjectFails(b, rest, depth, lib);
    }
  }

  lemma {:induction false} StuckArrayFails(b: Stuck, rest: string, depth: nat, lib: FloatLib)
    requires b.InArray? && ValidStuck(b, rest, lib) && depth + StuckDepth(b) <= MAX_DEPTH
    ensures ParseValue(SpellStuck(b, rest), depth, lib) == Fail(Cause(b))
    decreases b, 0
  {
    hide SpellDone, ParseElements, ItemValues, ItemsDepth, SkipWs;
    var tail := b.before + SpellStuck(b.inner, rest);
    var inner := SpellDone(b.items, tail);
    StuckStarts(b, rest, lib);
    assert SpellStuck(b, rest)[1..] == inner;
    StuckStarts(b.inner, rest, lib);
    SkipBlank(b.before, SpellStuck(b.inner, rest));
    DoneStarts(b.items, tail, lib);
    BlanksBeforeElements(inner, depth, [], lib);
    DoneItemsAreRead(b.items, tail, depth, [], lib);
    StuckFails(b.before, b.inner, rest, depth + 1, lib);
    ElementFails(tail, depth, [] + ItemValues(b.items, lib), lib);
  }

  lemma ElementFails(s: string, depth: nat, acc: seq<JsonNode>, lib: FloatLib)
    requires ParseValue(s, depth + 1, lib).Fail?
    ensures ParseElements(s, depth, acc, lib) == Fail(ParseValue(s, depth + 1, lib).failure)
  {
  }

  /** What stands behind the complete members of an open object. */
  ghost function LastMember(b: Stuck, rest: string): string
    requires b.InKey? || b.InMember?
  {
    if b.InKey? then SpellOpen(b.units)
    else SpellKey(b.key, b.beforeColon, b.afterColon + SpellStuck(b.inner, rest))
  }

  lemma {:induction false} StuckObjectFails(b: Stuck, rest: string, depth: nat, lib: FloatLib)
    requires (b.InKey? || b.InMember?) && ValidStuck(b, rest, lib) && depth + StuckDepth(b) <= MAX_DEPTH
    ensures ParseValue(SpellStuck(b, rest), depth, lib) == Fail(Cause(b))
    decreases b, 1
  {
    hide SpellOpen, SpellKey, ParseMember, SpellDonePairs;
    var key := LastMember(b, rest);
    var tail := b.before + key;
    var inner := SpellDonePairs(b.pairs, tail);
    assert SpellStuck(b, rest)[1..] == inner;
    LastMemberStarts(b, rest);
    SkipBlank(b.before, key);
    DonePairsStart(b.pairs, tail, lib);
    BlanksBeforeMembers(inner, depth, [], lib);
    DonePairsAreRead(b.pairs, tail, depth, [], lib);
    LastMemberFails(b, rest, depth, lib);
  }

  lemma LastMemberStarts(b: Stuck, rest: string)
    requires b.InKey? || b.InMember?
    ensures Peek(LastMember(b, rest)) == '"' && SkipWs(LastMember(b, rest)) == LastMember(b, rest)
  {
  }

  lemma {:induction false} LastMemberFails(b: Stuck, rest: string, depth: nat, lib: FloatLib)
    requires (b.InKey? || b.InMember?) && ValidStuck(b, rest, lib) && depth + StuckDepth(b) <= MAX_DEPTH
    ensures ParseMember(b.before + LastMember(b, rest), depth, lib) == Fail(Cause(b))
    decreases b, 0
  {
    hide ParseValue, SpellText, SpellStuck, ParseString;
    LastMemberStarts(b, rest);
    SkipBlank(b.before, LastMember(b, rest));
    if b.InKey? {
      OpenTextFails(b.units);
    } else {
      var more := b.afterColon + SpellStuck(b.inner, rest);
      TextIsRead(b.key, b.beforeColon + ([':'] + more));
      SkipBlank(b.beforeColon, [':'] + more);
      assert ([':'] + more)[1..] == more;
      StuckFails(b.afterColon, b.inner, rest, depth + 1, lib);
    }
  }

  // ---- No others do -----------------------------------------------------------------

  predicate Fails<T>(p: Parsed<T>) { p == Fail(Overrun) || p == Fail(Threw) }

  lemma OpenTextOf(t: string) returns (us: seq<Unit>)
    requires Fails(ParseString(t))
    ensures ValidUnits(us) && t == SpellOpen(us) && ParseString(t) == Fail(Overrun)
  {
    OnlyOverrun(t[1..]);
    us := DanglingUnits(t[1..]);
    assert t == ['"'] + t[1..];
  }

  lemma {:induction false} OnlyOverrun(s: string)
    ensures StringBody(s) != Fail(Threw) && StringBody(s) != Fail(Refused)
  {
    if Peek(s) != '\0' && s[0] != '"' {
      if s[0] != '\\' { OnlyOverrun(s[1..]); } else if |s| > 1 { OnlyOverrun(s[2..]); }
    }
  }

  lemma BadNumberOf(t: string, lib: FloatLib) returns (l: string)
    requires (Peek(t) == '-' || IsDigit(Peek(t))) && Fails(ParseNumber(t, lib))
    ensures Unconvertible(l, lib) && t == l + NumberRest(t) && CannotGrow(l, NumberRest(t))
    ensures ParseNumber(t, lib) == Fail(Threw)
  {
    hide NumberRest, NumberValue, IsFloat, Lexeme, Pointed, CannotGrow;
    NumberConsumes(t);
    l := LexemeOf(t);
    assert l == t[..|t| - |NumberRest(t)|];
    LexemeCut(l, NumberRest(t));
    ReadExactly(l, NumberRest(t));
    FloatsArePointed(l);
  }

  lemma {:induction false} StuckOf(s: string, depth: nat, lib: FloatLib) returns (ws: string, b: Stuck, rest: string)
    requires Fails(ParseValue(s, depth, lib))
    ensures Blank(ws) && ValidStuck(b, rest, lib) && depth + StuckDepth(b) <= MAX_DEPTH
    ensures ParseValue(s, depth, lib) == Fail(Cause(b)) && s == ws + SpellStuck(b, rest)
    decreases |s|, 1
  {
    ws := BlanksOf(s);
    var t := SkipWs(s);
    BlanksBeforeValue(s, depth, lib);
    rest := "";
    if Peek(t) == '"' {
      var us := OpenTextOf(t);
      b := OpenText(us);
    } else if Peek(t) == '[' {
      b, rest := StuckArrayOf(t, depth, lib);
    } else if Peek(t) == '{' {
      b, rest := StuckObjectOf(t, depth, lib);
    } else {
      var l := BadNumberOf(t, lib);
      b, rest := BadNumber(l), NumberRest(t);
    }
  }

  lemma {:induction false} StuckArrayOf(t: string, depth: nat, lib: FloatLib) returns (b: Stuck, rest: string)
    requires Peek(t) == '[' && Fails(ParseValue(t, depth, lib))
    ensures ValidStuck(b, rest, lib) && depth + StuckDepth(b) <= MAX_DEPTH
    ensures ParseValue(t, depth, lib) == Fail(Cause(b)) && t == SpellStuck(b, rest)
    decreases |t|, 0
  {
    hide SkipWs, Blank;
    assert SkipWs(t) == t by { NoBlankHere(t); }
    var inner := t[1..];
    assert t == ['['] + inner;
    BlanksBeforeElements(inner, depth, [], lib);
    var items, before, c;
    items, before, c, rest := StuckElementsOf(inner, depth, [], lib);
    b := InArray(items, before, c);
  }

  lemma {:induction false} StuckElementsOf(s: string, depth: nat, acc: seq<JsonNode>, lib: FloatLib)
    returns (items: seq<Item>, before: string, b: Stuck, rest: string)
    requires Fails(ParseElements(s, depth, acc, lib))
    ensures ValidItems(items, lib) && Blank(before) && ValidStuck(b, rest, lib)
    ensures depth + 1 + Max(ItemsDepth(items), StuckDepth(b)) <= MAX_DEPTH
    ensures ParseElements(s, depth, acc, lib) == Fail(Cause(b))
    ensures s == SpellDone(items, before + SpellStuck(b, rest))
    decreases |s|, 2
  {
    hide SkipWs, ParseValue, Meaning, Depth, SpellItem, ValidItem, SpellStuck, ValidStuck, StuckDepth, Cause, Blank;
    if ParseValue(s, depth + 1, lib).Fail? {
      before, b, rest := StuckOf(s, depth + 1, lib);
      items := [];
    } else {
      var it := ItemOf(s, depth + 1, lib);
      var t := SkipWs(ParseValue(s, depth + 1, lib).rest);
      assert t == [t[0]] + t[1..];
      var more;
      more, before, b, rest := StuckElementsOf(t[1..], depth, acc + [ParseValue(s, depth + 1, lib).value], lib);
      items := [it] + more;
      assert items[1..] == more;
    }
  }

  lemma {:induction false} StuckObjectOf(t: string, depth: nat, lib: FloatLib) returns (b: Stuck, rest: string)
    requires Peek(t) == '{' && Fails(ParseValue(t, depth, lib))
    ensures ValidStuck(b, rest, lib) && depth + StuckDepth(b) <= MAX_DEPTH
    ensures ParseValue(t, depth, lib) == Fail(Cause(b)) && t == SpellStuck(b, rest)
    decreases |t|, 0
  {
    hide SkipWs, Blank, SpellStuck, ValidStuck, StuckDepth, Cause;
    assert SkipWs(t) == t by { NoBlankHere(t); }
    var inner := t[1..];
    assert t == ['{'] + inner;
    BlanksBeforeMembers(inner, depth, [], lib);
    b, rest := StuckMembersOf(inner, depth, [], lib);
  }

  lemma {:induction false} StuckMembersOf(s: string, depth: nat, acc: seq<Entry<JsonNode>>, lib: FloatLib)
    returns (b: Stuck, rest: string)
    requires depth <= MAX_DEPTH && Fails(ParseMembers(s, depth, acc, lib))
    ensures b.InKey? || b.InMember?
    ensures ValidStuck(b, rest, lib) && depth + StuckDepth(b) <= MAX_DEPTH
    ensures ParseMembers(s, depth, acc, lib) == Fail(Cause(b)) && ['{'] + s == SpellStuck(b, rest)
    decreases |s|, 3
  {
    hide SkipWs, ParseMember, Meaning, Depth, SpellPair, ValidPair, SpellStuck, ValidStuck, StuckDepth, Cause, Blank;
    if ParseMember(s, depth, lib).Fail? {
      b, rest := StuckMemberOf(s, depth, lib);
    } else {
      var p := PairOf(s, depth, lib);
      var m := ParseMember(s, depth, lib).value;
      var t := SkipWs(ParseMember(s, depth, lib).rest);
      assert t == [t[0]] + t[1..];
      var c;
      c, rest := StuckMembersOf(t[1..], depth, Put(acc, m.key, m.value), lib);
      b := c.(pairs := [p] + c.pairs);
      OnePairMore(p, c, t[1..], rest, depth, lib);
    }
  }

  lemma OnePairMore(p: Pair, b: Stuck, s: string, rest: string, depth: nat, lib: FloatLib)
    requires b.InKey? || b.InMember?
    requires ValidPair(p, lib) && depth + 1 + Depth(p.item.value) <= MAX_DEPTH
    requires ValidStuck(b, rest, lib) && depth + StuckDepth(b) <= MAX_DEPTH && ['{'] + s == SpellStuck(b, rest)
    ensures var c := b.(pairs := [p] + b.pairs);
      && ValidStuck(c, rest, lib) && depth + StuckDepth(c) <= MAX_DEPTH && Cause(c) == Cause(b)
      && SpellStuck(c, rest) == ['{'] + SpellPair(p, [','] + s)
  {
    hide Valid, Spell, Depth, SpellPair, ValidPair;
    var c := b.(pairs := [p] + b.pairs);
    assert c.pairs[1..] == b.pairs;
    assert s == (['{'] + s)[1..] == SpellStuck(b, rest)[1..];
  }

  lemma {:induction false} StuckMemberOf(s: string, depth: nat, lib: FloatLib) returns (b: Stuck, rest: string)
    requires depth <= MAX_DEPTH && Fails(ParseMember(s, depth, lib))
    ensures b.InKey? || b.InMember?
    ensures ValidStuck(b, rest, lib) && depth + StuckDepth(b) <= MAX_DEPTH
    ensures ParseMember(s, depth, lib) == Fail(Cause(b)) && ['{'] + s == SpellStuck(b, rest)
    decreases |s|, 2
  {
    hide SkipWs, ParseValue, Blank, ValidUnits, Valid, Spell, SpellText;
    var before := BlanksOf(s);
    var q := SkipWs(s);
    if ParseString(q).Fail? {
      var us := OpenTextOf(q);
      b, rest := InKey([], before, us), "";
    } else {
      var key := TextOf(q);
      var r := ParseString(q).rest;
      var beforeColon := BlanksOf(r);
      var t := SkipWs(r);
      assert t == [':'] + t[1..];
      var ws, c;
      ws, c, rest := StuckOf(t[1..], depth + 1, lib);
      b := InMember([], before, key, beforeColon, ws, c);
    }
  }

  // ---- What deserializing answers -----------------------------------------------------

  ghost predicate GetsStuck(s: string, ws: string, b: Stuck, rest: string, depth: nat, lib: FloatLib) {
    Blank(ws) && ValidStuck(b, rest, lib) && depth + StuckDepth(b) <= 32 && s == ws + SpellStuck(b, rest)
  }

  /** The parser fails for one of these two reasons exactly on the stuck texts that are shallow enough. */
  lemma ParserGetsStuck(s: string, e: Failure, depth: nat, lib: FloatLib)
    requires e != Refused
    ensures ParseValue(s, depth, lib) == Fail(e)
       <==> exists ws, b, rest :: GetsStuck(s, ws, b, rest, depth, lib) && Cause(b) == e
  {
    if ParseValue(s, depth, lib) == Fail(e) {
      var ws, b, rest := StuckOf(s, depth, lib);
      assert GetsStuck(s, ws, b, rest, depth, lib);
    }
    forall ws, b, rest | GetsStuck(s, ws, b, rest, depth, lib) && Cause(b) == e
      ensures ParseValue(s, depth, lib) == Fail(e)
    {
      StuckFails(ws, b, rest, depth, lib);
    }
  }

  /** So an exception leaves `deserializeJson` exactly when the next number token of a text
      accepted so far cannot be converted, and the terminator is passed exactly when it ends in
      a backslash inside a string. */
  lemma DeserializingGetsStuck(s: string, lib: FloatLib)
    ensures Deserialized(s, lib).0 == Exception
       <==> exists ws, b, rest :: GetsStuck(s, ws, b, rest, 0, lib) && Cause(b) == Threw
    ensures Deserialized(s, lib).0 == OutOfBounds
       <==> exists ws, b, rest :: GetsStuck(s, ws, b, rest, 0, lib) && Cause(b) == Overrun
  {
    ParserGetsStuck(s, Threw, 0, lib);
    ParserGetsStuck(s, Overrun, 0, lib);
  }

  /** The shortest texts of the two kinds: a quote and a backslash, and a lone minus. */
  lemma ShortestFailures(lib: FloatLib)
    ensures Deserialized("\"\\", lib).0 == OutOfBounds
    ensures Deserialized("-", lib).0 == Exception
  {
    var s := "\"\\";
    assert s[1..] == "\\";
    var t := "-";
    assert t[1..] == "";
  }
}
