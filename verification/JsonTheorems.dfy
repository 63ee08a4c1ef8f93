/** The statements a user of the JSON header relies on. */
module JsonTheorems {
  import opened Wrappers
  import opened OrderedMaps
  import opened JsonTree
  import opened JsonParser
  import opened JsonNumbers
  import opened JsonGrammar
  import opened JsonCompleteness
  import opened JsonSoundness
  import opened JsonPrinted
  import opened JsonReader

  // ---- The language -----------------------------------------------------------

  /** `s` is a spelling of `v`, nested no deeper than allowed, and then `rest`. */
  ghost predicate Written(ws: string, c: Spelling, s: string, v: JsonNode, rest: string, depth: nat, lib: FloatLib) {
    && Blank(ws) && Valid(c, lib) && Meaning(c, lib) == v && depth + Depth(c) <= 32
    && ((s == ws + Spell(c, rest) && EndsBefore(c, rest)) || Unclosed(ws, c, s, rest))
  }

  /** The one tolerance of the parser: the text may stop inside a string. */
  ghost predicate Unclosed(ws: string, c: Spelling, s: string, rest: string) {
    c.Text? && s == ws + (['"'] + SpellUnits(c.units, rest)) && Peek(rest) == '\0'
  }

  lemma {:induction false} UnclosedIsRead(us: seq<Unit>, rest: string)
    requires ValidUnits(us) && Peek(rest) == '\0'
    ensures StringBody(SpellUnits(us, rest)) == Got(Decoded(us), rest)
  {
    if us != [] {
      UnclosedIsRead(us[1..], rest);
      var s := SpellUnits(us, rest);
      assert ValidUnit(us[0]);
      assert s[if us[0].Plain? then 1 else 2..] == SpellUnits(us[1..], rest);
    }
  }

  /** The parser accepts exactly the spellings nested at most 32 deep, and answers their meaning. */
  lemma ParserAcceptsTheLanguage(s: string, v: JsonNode, rest: string, depth: nat, lib: FloatLib)
    ensures ParseValue(s, depth, lib) == Got(v, rest)
       <==> exists ws, c :: Written(ws, c, s, v, rest, depth, lib)
  {
    if ParseValue(s, depth, lib) == Got(v, rest) {
      var ws, c, closed := SpellingOf(s, depth, lib);
      assert Written(ws, c, s, v, rest, depth, lib);
    }
    forall ws, c | Written(ws, c, s, v, rest, depth, lib)
      ensures ParseValue(s, depth, lib) == Got(v, rest)
    {
      if Unclosed(ws, c, s, rest) {
        UnclosedIsRead(c.units, rest);
        var t := ['"'] + SpellUnits(c.units, rest);
        assert t[1..] == SpellUnits(c.units, rest);
        SkipBlank(ws, t);
      } else {
        ValueIsRead(ws, c, rest, depth, lib);
      }
    }
  }

  // ---- Print, then parse --------------------------------------------------------

  /** A whole text that is a spelling between blanks. */
  lemma SpellingIsDeserialized(ws: string, c: Spelling, after: string, lib: FloatLib)
    requires Blank(ws) && Valid(c, lib) && EndsBefore(c, after)
    ensures Deserialized(ws + Spell(c, after), lib)
         == if Depth(c) <= 32 then (Success, Some(Meaning(c, lib))) else (InvalidInput, None)
  {
    hide ParseValue, Spell, Valid, Meaning, Depth;
    Starts(c, after, lib);
    assert Peek(ws + Spell(c, after)) != '\0';
    ValueIsRead(ws, c, after, 0, lib);
  }

  /** Every printable tree comes back unchanged, unless it nests more than 32 deep. */
  lemma RoundTrip(v: JsonNode, lib: FloatLib)
    requires Printable(v)
    ensures Deserialized(Print(v, lib), lib)
         == if Height(v) <= 32 then (Success, Some(v)) else (InvalidInput, None)
  {
    hide Deserialized, Spell, Valid, Meaning, Depth, Print, PrintedAs;
    var c := PrintedAs(v);
    var s := Print(v, lib);
    PrintedMeaning(v, lib);
    PrintIsSpelling(v, "", lib);
    assert s + "" == s && "" + s == s;
    EndsAtTerminator(c, lib);
    SpellingIsDeserialized("", c, "", lib);
  }

  lemma EndsAtTerminator(c: Spelling, lib: FloatLib)
    requires Valid(c, lib)
    ensures EndsBefore(c, "")
  {
    if c.Number? { assert c.lexeme + "" == c.lexeme; }
  }

  /** A spelling with all its blanks taken out. */
  ghost function Stripped(c: Spelling): Spelling
    decreases c
  {
    match c
    case ArrayOf(items, _) => ArrayOf(StrippedItems(items), "")
    case ObjectOf(pairs, _) => ObjectOf(StrippedPairs(pairs), "")
    case _ => c
  }

  ghost function StrippedItems(items: seq<Item>): seq<Item>
    decreases items
  {
    if items == [] then [] else [Item("", Stripped(items[0].value), "")] + StrippedItems(items[1..])
  }

  ghost function StrippedPairs(pairs: seq<Pair>): seq<Pair>
    decreases pairs
  {
    if pairs == [] then []
    else [Pair("", pairs[0].key, "", Item("", Stripped(pairs[0].item.value), ""))] + StrippedPairs(pairs[1..])
  }

  lemma {:induction false} BlanksMeanNothing(c: Spelling, lib: FloatLib)
    ensures Meaning(Stripped(c), lib) == Meaning(c, lib) && Depth(Stripped(c)) == Depth(c)
    decreases c
  {
    match c {
      case ArrayOf(items, _) => ItemBlanksMeanNothing(items, lib);
      case ObjectOf(pairs, _) => PairBlanksMeanNothing([], pairs, lib);
      case _ =>
    }
  }

  lemma {:induction false} ItemBlanksMeanNothing(items: seq<Item>, lib: FloatLib)
    ensures ItemValues(StrippedItems(items), lib) == ItemValues(items, lib)
    ensures ItemsDepth(StrippedItems(items)) == ItemsDepth(items) && |StrippedItems(items)| == |items|
    decreases items
  {
    if items != [] {
      BlanksMeanNothing(items[0].value, lib);
      ItemBlanksMeanNothing(items[1..], lib);
      assert StrippedItems(items)[1..] == StrippedItems(items[1..]);
    }
  }

  lemma {:induction false} PairBlanksMeanNothing(acc: seq<Entry<JsonNode>>, pairs: seq<Pair>, lib: FloatLib)
    ensures PairValues(acc, StrippedPairs(pairs), lib) == PairValues(acc, pairs, lib)
    ensures PairsDepth(StrippedPairs(pairs)) == PairsDepth(pairs) && |StrippedPairs(pairs)| == |pairs|
    decreases pairs
  {
    if pairs != [] {
      var p := pairs[0];
      BlanksMeanNothing(p.item.value, lib);
      PairBlanksMeanNothing(Put(acc, Decoded(p.key), Meaning(p.item.value, lib)), pairs[1..], lib);
      assert StrippedPairs(pairs)[1..] == StrippedPairs(pairs[1..]);
    }
  }

  /** Blanks put before, between and after the tokens of a printed tree change nothing. */
  lemma BlanksAreIgnored(v: JsonNode, ws: string, c: Spelling, after: string, lib: FloatLib)
    requires Printable(v) && Stripped(c) == PrintedAs(v)
    requires Blank(ws) && Blank(after) && Valid(c, lib)
    ensures Deserialized(ws + Spell(c, after), lib) == Deserialized(Print(v, lib), lib)
  {
    hide Deserialized, Spell, Meaning, Depth, Print, PrintedAs, Stripped;
    RoundTrip(v, lib);
    PrintedMeaning(v, lib);
    BlanksMeanNothing(c, lib);
    EndsBeforeBlanks(c, after, lib);
    SpellingIsDeserialized(ws, c, after, lib);
  }

  lemma EndsBeforeBlanks(c: Spelling, after: string, lib: FloatLib)
    requires Valid(c, lib) && Blank(after)
    ensures EndsBefore(c, after)
  {
    if c.Number? { LexemeStops(c.lexeme, after); }
  }

  // ---- Parse, print, parse ------------------------------------------------------

  /** What every parsed tree satisfies. */
  ghost predicate Stored(v: JsonNode) {
    match v
    case Int(i) => LONG_MIN <= i <= LONG_MAX
    case Array(es) => forall k :: 0 <= k < |es| ==> Stored(es[k])
    case Object(ms) => Ascending(ms) && forall k :: 0 <= k < |ms| ==> Stored(ms[k].value)
    case _ => true
  }

  /** No doubles, no NUL in a string, and only keys that survive raw printing. */
  ghost predicate Clean(v: JsonNode) {
    match v
    case Float(_) => false
    case String(s) => NulFree(s)
    case Array(es) => forall k :: 0 <= k < |es| ==> Clean(es[k])
    case Object(ms) => forall k :: 0 <= k < |ms| ==> PlainKey(ms[k].key) && Clean(ms[k].value)
    case _ => true
  }

  lemma {:induction false} StoredAndCleanIsPrintable(v: JsonNode)
    requires Stored(v) && Clean(v)
    ensures Printable(v)
    decreases v
  {
    match v {
      case Array(es) =>
        forall k | 0 <= k < |es| ensures Printable(es[k]) { StoredAndCleanIsPrintable(es[k]); }
      case Object(ms) =>
        forall k | 0 <= k < |ms| ensures Printable(ms[k].value) { StoredAndCleanIsPrintable(ms[k].value); }
      case _ =>
    }
  }

  ghost predicate Shallow(ms: seq<Entry<JsonNode>>, h: nat) {
    forall k :: 0 <= k < |ms| ==> Stored(ms[k].value) && Height(ms[k].value) <= h
  }

  lemma {:induction false} ShallowMembers(ms: seq<Entry<JsonNode>>, h: nat)
    requires Shallow(ms, h)
    ensures MembersHeight(ms) <= h
  {
    if ms != [] { ShallowMembers(ms[1..], h); }
  }

  lemma {:induction false} MeaningIsStored(c: Spelling, lib: FloatLib)
    requires Valid(c, lib)
    ensures Stored(Meaning(c, lib)) && Height(Meaning(c, lib)) <= Depth(c)
    decreases c
  {
    match c {
      case ArrayOf(items, _) => ItemsAreStored(items, lib);
      case ObjectOf(pairs, _) =>
        PairsAreStored([], pairs, PairsDepth(pairs), lib);
        ShallowMembers(PairValues([], pairs, lib), PairsDepth(pairs));
      case _ =>
    }
  }

  lemma {:induction false} ItemsAreStored(items: seq<Item>, lib: FloatLib)
    requires forall i :: 0 <= i < |items| ==> ValidItem(items[i], lib)
    ensures forall k :: 0 <= k < |ItemValues(items, lib)| ==> Stored(ItemValues(items, lib)[k])
    ensures ElementsHeight(ItemValues(items, lib)) <= ItemsDepth(items)
    decreases items
  {
    if items != [] {
      assert ValidItem(items[0], lib);
      MeaningIsStored(items[0].value, lib);
      ItemsAreStored(items[1..], lib);
      assert ItemValues(items, lib)[1..] == ItemValues(items[1..], lib);
    }
  }

  lemma {:induction false} PairsAreStored(acc: seq<Entry<JsonNode>>, pairs: seq<Pair>, h: nat, lib: FloatLib)
    requires Ascending(acc) && Shallow(acc, h) && PairsDepth(pairs) <= h
    requires forall i :: 0 <= i < |pairs| ==> ValidPair(pairs[i], lib)
    ensures Ascending(PairValues(acc, pairs, lib)) && Shallow(PairValues(acc, pairs, lib), h)
    ensures pairs != [] ==> PairValues(acc, pairs, lib) != []
    decreases pairs
  {
    if pairs != [] {
      var p := pairs[0];
      assert ValidPair(p, lib) && ValidItem(p.item, lib);
      MeaningIsStored(p.item.value, lib);
      PutLaws(acc, Decoded(p.key), Meaning(p.item.value, lib));
      PairsAreStored(Put(acc, Decoded(p.key), Meaning(p.item.value, lib)), pairs[1..], h, lib);
    }
  }

  /** A text that was parsed once is parsed the same way after any number of reprints. */
  lemma ReprintedTextIsStable(s: string, lib: FloatLib)
    requires ParseValue(s, 0, lib).Got? && Clean(ParseValue(s, 0, lib).value)
    ensures var v := ParseValue(s, 0, lib).value;
            Printable(v) && Deserialized(Print(v, lib), lib) == (Success, Some(v))
  {
    var v := ParseValue(s, 0, lib).value;
    var ws, c, closed := SpellingOf(s, 0, lib);
    MeaningIsStored(c, lib);
    StoredAndCleanIsPrintable(v);
    RoundTrip(v, lib);
  }

  // ---- Keys are printed raw -------------------------------------------------------

  lemma {:induction false} FirstQuote(t: string, n: nat)
    requires n < |t| && t[n] == '"' && '"' !in t[..n] && StringBody(t).Got?
    ensures var v := StringBody(t).value;
            || (exists i :: 0 <= i < n && i < |v| && v[i] == '"')
            || |v| < n
            || (|v| == n && '\\' !in t[..n] && '\0' !in t[..n])
    decreases n
  {
    var v := StringBody(t).value;
    if n > 0 && t[0] != '\0' {
      var k := if t[0] == '\\' then 2 else 1;
      if k <= n {
        var u := t[k..];
        assert u[..n - k] == t[k..n];
        FirstQuote(u, n - k);
        var w := StringBody(u).value;
        assert v[1..] == w;
        if i :| 0 <= i < n - k && i < |w| && w[i] == '"' { assert v[i + 1] == '"'; }
      } else {
        assert v[0] == '"';
      }
    }
  }

  /** A key comes back from its raw printed form exactly when it is plain. */
  lemma KeyComesBack(k: string, rest: string)
    ensures var p := StringBody(k + (['"'] + rest));
            (p.Got? && p.value == k) <==> PlainKey(k)
  {
    if PlainKey(k) {
      KeyIsPrinted(k, ['"'] + rest);
      KeyIsPrinted(k, "");
      StringIsRead(KeyUnits(k), rest);
    } else {
      var t := k + (['"'] + rest);
      if StringBody(t).Got? {
        var n := FirstQuoteAt(t, |k|);
        FirstQuote(t, n);
        assert t[..|k|] == k;
        assert t[..n] == k[..n];
      }
    }
  }

  lemma FirstQuoteAt(t: string, at: nat) returns (n: nat)
    requires at < |t| && t[at] == '"'
    ensures n <= at && t[n] == '"' && '"' !in t[..n]
  {
    n := 0;
    while t[n] != '"'
      invariant n <= at && '"' !in t[..n]
      decreases at - n
    {
      n := n + 1;
    }
  }

  /** Once read, a key stays in the object. */
  lemma {:induction false} KeyStays(s: string, depth: nat, acc: seq<Entry<JsonNode>>, k: string, lib: FloatLib)
    requires Ascending(acc) && Lookup(acc, k).Some? && ParseMembers(s, depth, acc, lib).Got?
    ensures var v := ParseMembers(s, depth, acc, lib).value;
            v.Object? && Lookup(v.members, k).Some?
    decreases |s|
  {
    var p := ParseMember(s, depth, lib);
    PutLaws(acc, p.value.key, p.value.value);
    var u := SkipWs(p.rest);
    if Peek(u) == ',' { KeyStays(u[1..], depth, Put(acc, p.value.key, p.value.value), k, lib); }
  }

  /** So an object with one member survives print and parse exactly when its key is plain. */
  lemma OneMemberObject(k: string, x: JsonNode, lib: FloatLib)
    requires Printable(x) && Height(x) < 32
    ensures var v := Object([Entry(k, x)]);
            Deserialized(Print(v, lib), lib) == (Success, Some(v)) <==> PlainKey(k)
  {
    var v := Object([Entry(k, x)]);
    var s := Print(v, lib);
    var ms := [Entry(k, x)];
    assert ms[1..] == [];
    assert MembersHeight(ms) == Max(Height(ms[0].value), MembersHeight([]));
    if PlainKey(k) {
      assert Printable(v);
      RoundTrip(v, lib);
    } else if ParseValue(s, 0, lib).Got? {
      var after := [':'] + (Print(x, lib) + "}");
      var inner := ['"'] + (k + (['"'] + after));
      assert PrintMembers(ms, lib) == PrintMember(ms[0], lib) + "";
      QuotedMember(k, Print(x, lib), "}");
      assert s == ['{'] + inner;
      assert s[1..] == inner && inner[1..] == k + (['"'] + after);
      assert SkipWs(s) == s && SkipWs(inner) == inner;
      KeyComesBack(k, after);
      assert ParseValue(s, 0, lib) == ParseMembers(inner, 0, [], lib);
      WrongKeyStays(inner, k, lib);
    }
  }

  lemma WrongKeyStays(s: string, k: string, lib: FloatLib)
    requires ParseMembers(s, 0, [], lib).Got? && SkipWs(s) == s
    requires ParseString(s).Got? ==> ParseString(s).value != k
    ensures forall x :: ParseMembers(s, 0, [], lib).value != Object([Entry(k, x)])
  {
    var p := ParseMember(s, 0, lib);
    var first := [Entry(p.value.key, p.value.value)];
    assert Put([], p.value.key, p.value.value) == first;
    assert Lookup(first, p.value.key).Some?;
    var u := SkipWs(p.rest);
    if Peek(u) == ',' { KeyStays(u[1..], 0, first, p.value.key, lib); }
    forall x ensures ParseMembers(s, 0, [], lib).value != Object([Entry(k, x)]) {
      assert [Entry(k, x)][1..] == [];
    }
  }

  // ---- Staying inside the text ------------------------------------------------------

  /** A string runs over the terminator exactly when it ends in a lone backslash. */
  lemma StringOverrun(s: string)
    ensures ParseString(s) == Fail(Overrun)
       <==> exists us :: ValidUnits(us) && s == ['"'] + SpellUnits(us, ['\\'])
  {
    if ParseString(s) == Fail(Overrun) {
      var us := DanglingUnits(s[1..]);
      assert s == ['"'] + s[1..];
    }
    forall us | ValidUnits(us) && s == ['"'] + SpellUnits(us, ['\\'])
      ensures ParseString(s) == Fail(Overrun)
    {
      assert s[1..] == SpellUnits(us, ['\\']);
      DanglingOverruns(us);
    }
  }

  lemma {:induction false} DanglingUnits(s: string) returns (us: seq<Unit>)
    requires StringBody(s) == Fail(Overrun)
    ensures ValidUnits(us) && s == SpellUnits(us, ['\\'])
  {
    if s[0] == '\\' && |s| == 1 {
      us := [];
    } else {
      var n := if s[0] == '\\' then 2 else 1;
      us := DanglingUnits(s[n..]);
      var u := if s[0] == '\\' then Escaped(s[1]) else Plain(s[0]);
      assert ([u] + us)[1..] == us;
      assert s == if n == 2 then ['\\'] + ([s[1]] + s[2..]) else [s[0]] + s[1..];
      us := [u] + us;
    }
  }

  lemma {:induction false} DanglingOverruns(us: seq<Unit>)
    requires ValidUnits(us)
    ensures StringBody(SpellUnits(us, ['\\'])) == Fail(Overrun)
  {
    if us != [] {
      DanglingOverruns(us[1..]);
      var s := SpellUnits(us, ['\\']);
      assert ValidUnit(us[0]);
      assert s[if us[0].Plain? then 1 else 2..] == SpellUnits(us[1..], ['\\']);
    }
  }

  /** `r` is what is left of `s`, or at least ends where `s` ends. */
  ghost predicate EndOf(r: string, s: string) {
    r != "" ==> s != "" && s[|s| - 1] == r[|r| - 1]
  }

  lemma {:induction false} UnitsEnd(us: seq<Unit>, rest: string)
    ensures EndOf(rest, SpellUnits(us, rest))
  {
    if us != [] { UnitsEnd(us[1..], rest); }
  }

  lemma {:induction false} SpellingEnds(c: Spelling, rest: string)
    ensures EndOf(rest, Spell(c, rest))
    decreases c
  {
    match c {
      case Text(us) => UnitsEnd(us, ['"'] + rest);
      case ArrayOf(items, _) => if items != [] { ItemsEnd(items, rest); }
      case ObjectOf(pairs, _) => if pairs != [] { PairsEnd(pairs, rest); }
      case _ =>
    }
  }

  lemma {:induction false} ItemsEnd(items: seq<Item>, rest: string)
    requires items != []
    ensures EndOf(rest, SpellItems(items, rest))
    decreases items
  {
    if |items| > 1 { ItemsEnd(items[1..], rest); }
    var it := items[0];
    SpellingEnds(it.value, it.after + if |items| == 1 then [']'] + rest else [','] + SpellItems(items[1..], rest));
  }

  lemma {:induction false} PairsEnd(pairs: seq<Pair>, rest: string)
    requires pairs != []
    ensures EndOf(rest, SpellPairs(pairs, rest))
    decreases pairs
  {
    if |pairs| > 1 { PairsEnd(pairs[1..], rest); }
    PairEnds(pairs[0], if |pairs| == 1 then ['}'] + rest else [','] + SpellPairs(pairs[1..], rest));
  }

  lemma {:induction false} PairEnds(p: Pair, tail: string)
    requires tail != ""
    ensures EndOf(tail, SpellPair(p, tail))
    decreases p
  {
    hide Spell, SpellUnits;
    SpellingEnds(p.item.value, p.item.after + tail);
    UnitsEnd(p.key, ['"'] + (p.beforeColon + ([':'] + SpellItem(p.item, tail))));
  }

  lemma ValueRestEnds(s: string, depth: nat, lib: FloatLib)
    requires ParseValue(s, depth, lib).Got?
    ensures EndOf(ParseValue(s, depth, lib).rest, s)
  {
    hide EndOf, ParseValue, Spell, SpellUnits, Valid, Meaning, Depth;
    var ws, c, closed := SpellingOf(s, depth, lib);
    var rest := ParseValue(s, depth, lib).rest;
    if closed {
      SpellingEnds(c, rest);
      BeforeEnds(ws, Spell(c, rest), rest);
    } else {
      UnitsEnd(c.units, rest);
      BeforeEnds(['"'], SpellUnits(c.units, rest), rest);
      BeforeEnds(ws, ['"'] + SpellUnits(c.units, rest), rest);
    }
  }

  lemma BeforeEnds(before: string, t: string, rest: string)
    requires EndOf(rest, t)
    ensures EndOf(rest, before + t)
  {
  }

  /** The last character, if there is one, is no backslash. */
  ghost predicate EndsWell(s: string) { s == "" || s[|s| - 1] != '\\' }

  lemma BlanksEndWell(s: string)
    requires EndsWell(s)
    ensures EndsWell(SkipWs(s))
  {
    var ws := BlanksOf(s);
  }

  lemma TailEndsWell(s: string)
    requires EndsWell(s) && s != ""
    ensures EndsWell(s[1..])
  {
  }

  lemma ValueEndsWell(s: string, depth: nat, lib: FloatLib)
    requires EndsWell(s) && ParseValue(s, depth, lib).Got?
    ensures EndsWell(ParseValue(s, depth, lib).rest)
  {
    ValueRestEnds(s, depth, lib);
  }

  lemma StringEndsWell(s: string)
    requires EndsWell(s)
    ensures ParseString(s) != Fail(Overrun)
    ensures ParseString(s).Got? ==> EndsWell(ParseString(s).rest)
  {
    var key := ParseString(s);
    if key == Fail(Overrun) {
      var us := DanglingUnits(s[1..]);
      UnitsEnd(us, ['\\']);
    } else if key.Got? {
      var us, closed := UnitsOf(s[1..]);
      UnitsEnd(us, if closed then ['"'] + key.rest else key.rest);
    }
  }

  /** On a text that does not end in a backslash the cursor never passes the terminator. */
  lemma NoOverrun(s: string, depth: nat, lib: FloatLib)
    requires EndsWell(s)
    ensures ParseValue(s, depth, lib) != Fail(Overrun)
    decreases |s|, 0
  {
    hide EndsWell, SkipWs;
    var t := SkipWs(s);
    BlanksEndWell(s);
    BlanksBeforeValue(s, depth, lib);
    StringEndsWell(t);
    if t != "" && t[0] in "[{" {
      TailEndsWell(t);
      BlanksEndWell(t[1..]);
      if t[0] == '[' {
        ElementsNoOverrun(SkipWs(t[1..]), depth, [], lib);
      } else {
        MembersNoOverrun(SkipWs(t[1..]), depth, [], lib);
      }
    }
  }

  lemma ElementsNoOverrun(s: string, depth: nat, acc: seq<JsonNode>, lib: FloatLib)
    requires EndsWell(s)
    ensures ParseElements(s, depth, acc, lib) != Fail(Overrun)
    decreases |s|, 1
  {
    hide EndsWell, SkipWs;
    NoOverrun(s, depth + 1, lib);
    var p := ParseValue(s, depth + 1, lib);
    if p.Got? {
      ValueEndsWell(s, depth + 1, lib);
      BlanksEndWell(p.rest);
      var t := SkipWs(p.rest);
      if Peek(t) == ',' {
        TailEndsWell(t);
        ElementsNoOverrun(t[1..], depth, acc + [p.value], lib);
      }
    }
  }

  lemma MembersNoOverrun(s: string, depth: nat, acc: seq<Entry<JsonNode>>, lib: FloatLib)
    requires EndsWell(s)
    ensures ParseMembers(s, depth, acc, lib) != Fail(Overrun)
    decreases |s|, 2
  {
    hide EndsWell, SkipWs;
    MemberNoOverrun(s, depth, lib);
    var p := ParseMember(s, depth, lib);
    if p.Got? {
      BlanksEndWell(p.rest);
      var u := SkipWs(p.rest);
      if Peek(u) == ',' {
        TailEndsWell(u);
        MembersNoOverrun(u[1..], depth, Put(acc, p.value.key, p.value.value), lib);
      }
    }
  }

  lemma MemberNoOverrun(s: string, depth: nat, lib: FloatLib)
    requires EndsWell(s)
    ensures ParseMember(s, depth, lib) != Fail(Overrun)
    ensures ParseMember(s, depth, lib).Got? ==> EndsWell(ParseMember(s, depth, lib).rest)
    decreases |s|, 1
  {
    hide EndsWell, SkipWs;
    BlanksEndWell(s);
    StringEndsWell(SkipWs(s));
    var key := ParseString(SkipWs(s));
    if key.Got? {
      BlanksEndWell(key.rest);
      var t := SkipWs(key.rest);
      if Peek(t) == ':' {
        TailEndsWell(t);
        NoOverrun(t[1..], depth + 1, lib);
        if ParseValue(t[1..], depth + 1, lib).Got? { ValueEndsWell(t[1..], depth + 1, lib); }
      }
    }
  }
}
