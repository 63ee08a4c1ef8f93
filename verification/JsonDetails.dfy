/** What the tables and constants of the JSON header are, said character by character. */
module JsonDetails {
  import opened Wrappers
  import opened OrderedMaps
  import opened JsonTree
  import opened JsonParser
  import opened JsonNumbers
  import opened JsonGrammar
  import opened JsonCompleteness
  import opened JsonPrinted
  import opened JsonTheorems
  import opened JsonReader

  // ---- Escapes --------------------------------------------------------------------

  /** A string means one character for each of its units: after a backslash `t` and `n` are a
      tab and a newline, and every other character is itself. */
  lemma {:induction false} UnitsMean(us: seq<Unit>)
    ensures |Decoded(us)| == |us|
    ensures forall i :: 0 <= i < |us| ==>
      Decoded(us)[i] == match us[i] {
        case Plain(c) => c
        case Escaped(c) => if c == 't' then '\t' else if c == 'n' then '\n' else c
      }
  {
    if us != [] { UnitsMean(us[1..]); }
  }

  /** A string written with its quotes, backslashes, newlines and tabs escaped. */
  function Quoted(s: string): string {
    if s == "" then "\""
    else
      (match s[0]
       case '\n' => "\\n"
       case '\t' => "\\t"
       case '"' => "\\\""
       case '\\' => "\\\\"
       case c => [c]) + Quoted(s[1..])
  }

  ghost function QuotedUnits(s: string): seq<Unit> {
    if s == "" then []
    else
      [match s[0]
       case '\n' => Escaped('n')
       case '\t' => Escaped('t')
       case '"' => Escaped('"')
       case '\\' => Escaped('\\')
       case c => Plain(c)] + QuotedUnits(s[1..])
  }

  lemma {:induction false} QuotedIsSpelled(s: string)
    requires '\0' !in s
    ensures SpellUnits(QuotedUnits(s), ['"']) == Quoted(s)
    ensures ValidUnits(QuotedUnits(s)) && Decoded(QuotedUnits(s)) == s
  {
    if s != "" {
      QuotedIsSpelled(s[1..]);
      var us := QuotedUnits(s);
      assert us[1..] == QuotedUnits(s[1..]);
      assert s == [s[0]] + s[1..];
    }
  }

  /** So any string without NUL comes back from its escaped form. */
  lemma EscapedTextComesBack(s: string, lib: FloatLib)
    requires '\0' !in s
    ensures Deserialized("\"" + Quoted(s), lib) == (Success, Some(String(s)))
  {
    hide Deserialized, Decoded;
    QuotedIsSpelled(s);
    var c := Text(QuotedUnits(s));
    assert ['"'] + [] == ['"'] && Spell(c, "") == "\"" + Quoted(s);
    assert "" + Spell(c, "") == Spell(c, "");
    SpellingIsDeserialized("", c, "", lib);
  }

  /** The serializer escapes quotes, backslashes and newlines, and nothing else. */
  lemma {:induction false} PrintedUnits(s: string)
    ensures |StringUnits(s)| == |s|
    ensures forall i :: 0 <= i < |s| ==>
      StringUnits(s)[i] == if s[i] == '\n' then Escaped('n')
                           else if s[i] == '"' || s[i] == '\\' then Escaped(s[i])
                           else Plain(s[i])
  {
    if s != "" { PrintedUnits(s[1..]); }
  }

  // ---- Blanks -----------------------------------------------------------------------

  /** Spaces, tabs, newlines and carriage returns are blanks, and no other character is. */
  lemma FourBlanks(c: char, s: string, depth: nat, lib: FloatLib)
    ensures c == ' ' || c == '\t' || c == '\n' || c == '\r' ==>
      Blank([c]) && ParseValue([c] + s, depth, lib) == ParseValue(s, depth, lib)
    ensures c != ' ' && c != '\t' && c != '\n' && c != '\r' ==> !Blank([c]) && SkipWs([c] + s) == [c] + s
  {
    assert [c][0] == c && ([c] + s)[1..] == s;
    if c in {' ', '\t', '\n', '\r'} {
      BlanksBeforeValue([c] + s, depth, lib);
      BlanksBeforeValue(s, depth, lib);
    }
  }

  predicate AllBlank(s: string) { forall i :: 0 <= i < |s| ==> s[i] in " \t\n\r" }

  function TwoItems(b: string, c: string, d: string, e: string, f: string): string {
    ['['] + (b + ("1" + (c + ([','] + (d + ("2" + (e + ([']'] + f))))))))
  }

  function OneMember(b: string, c: string, d: string, e: string, f: string): string {
    ['{'] + (b + (['"'] + (['k'] + (['"'] + (c + ([':'] + (d + ("1" + (e + (['}'] + f))))))))))
  }

  /** Where blanks may stand: around the text, after brackets and around values, commas, keys and colons. */
  lemma BlanksEverywhere(a: string, b: string, c: string, d: string, e: string, f: string, lib: FloatLib)
    requires AllBlank(a) && AllBlank(b) && AllBlank(c) && AllBlank(d) && AllBlank(e) && AllBlank(f)
    ensures Deserialized(a + TwoItems(b, c, d, e, f), lib) == (Success, Some(Array([Int(1), Int(2)])))
    ensures Deserialized(a + OneMember(b, c, d, e, f), lib) == (Success, Some(Object([Entry("k", Int(1))])))
    ensures Deserialized(a + (['['] + (b + ([']'] + f))), lib) == (Success, Some(Array([])))
    ensures Deserialized(a + (['{'] + (b + (['}'] + f))), lib) == (Success, Some(Object([])))
  {
    hide Deserialized, Spell, Valid, Meaning, Depth;
    BlankArray(b, c, d, e, f, lib);
    BlankObject(b, c, d, e, f, lib);
    BlankEmpty(b, f, lib);
    var items := ArrayOf([Item(b, Number("1"), c), Item(d, Number("2"), e)], "");
    var pairs := ObjectOf([Pair(b, [Plain('k')], c, Item(d, Number("1"), e))], "");
    SpellingIsDeserialized(a, items, f, lib);
    SpellingIsDeserialized(a, pairs, f, lib);
    SpellingIsDeserialized(a, ArrayOf([], b), f, lib);
    SpellingIsDeserialized(a, ObjectOf([], b), f, lib);
  }

  lemma OneAndTwo(lib: FloatLib)
    ensures Valid(Number("1"), lib) && Meaning(Number("1"), lib) == Int(1)
    ensures Valid(Number("2"), lib) && Meaning(Number("2"), lib) == Int(2)
  {
    hide Lexeme, Pointed;
    OneDigit(1);
    OneDigit(2);
    PrintedIntMeaning(1, lib);
    PrintedIntMeaning(2, lib);
  }

  /** A number between blanks. */
  lemma BlankNumber(b: string, l: string, c: string, tail: string, lib: FloatLib)
    requires AllBlank(b) && AllBlank(c) && Valid(Number(l), lib)
    ensures ValidItem(Item(b, Number(l), c), lib) && Depth(Number(l)) == 0
    ensures SpellItem(Item(b, Number(l), c), tail) == b + (l + (c + tail))
  {
  }

  lemma BlankArray(b: string, c: string, d: string, e: string, f: string, lib: FloatLib)
    requires AllBlank(b) && AllBlank(c) && AllBlank(d) && AllBlank(e)
    ensures var s := ArrayOf([Item(b, Number("1"), c), Item(d, Number("2"), e)], "");
      && Valid(s, lib) && Depth(s) == 1 && Meaning(s, lib) == Array([Int(1), Int(2)])
      && Spell(s, f) == TwoItems(b, c, d, e, f)
  {
    hide SpellItems, SpellItem, ItemValues, ItemsDepth, ValidItem, Lexeme, Pointed, NumberValue;
    OneAndTwo(lib);
    var i, j := Item(b, Number("1"), c), Item(d, Number("2"), e);
    BlankNumber(b, "1", c, [','] + SpellItem(j, [']'] + f), lib);
    BlankNumber(d, "2", e, [']'] + f, lib);
    ItemsInRow(i, j, f);
    ItemsMean(i, j, lib);
  }

  lemma ItemsInRow(i: Item, j: Item, f: string)
    ensures SpellItems([i, j], f) == SpellItem(i, [','] + SpellItem(j, [']'] + f))
  {
    hide SpellItem;
    assert [i, j][1..] == [j];
  }

  lemma ItemsMean(i: Item, j: Item, lib: FloatLib)
    requires Depth(i.value) == 0 && Depth(j.value) == 0
    ensures ItemValues([i, j], lib) == [Meaning(i.value, lib), Meaning(j.value, lib)] && ItemsDepth([i, j]) == 0
  {
    hide Meaning, Depth;
    assert [i, j][1..] == [j] && [j][1..] == [];
    assert ItemValues([j], lib) == [Meaning(j.value, lib)] && ItemsDepth([j]) == 0;
  }

  lemma BlankObject(b: string, c: string, d: string, e: string, f: string, lib: FloatLib)
    requires AllBlank(b) && AllBlank(c) && AllBlank(d) && AllBlank(e)
    ensures var s := ObjectOf([Pair(b, [Plain('k')], c, Item(d, Number("1"), e))], "");
      && Valid(s, lib) && Depth(s) == 1 && Meaning(s, lib) == Object([Entry("k", Int(1))])
      && Spell(s, f) == OneMember(b, c, d, e, f)
  {
    hide SpellPairs, PairValues, PairsDepth, ValidItem, SpellItem, SpellUnits, Decoded, ValidUnits, Lexeme, Pointed, NumberValue;
    OneAndTwo(lib);
    BlankNumber(d, "1", e, ['}'] + f, lib);
    var p := Pair(b, [Plain('k')], c, Item(d, Number("1"), e));
    BlankPairText(p, f, d + ("1" + (e + (['}'] + f))));
    BlankPairMeaning(p, lib);
  }

  lemma BlankPairText(p: Pair, f: string, item: string)
    requires p.key == [Plain('k')] && SpellItem(p.item, ['}'] + f) == item
    ensures SpellPairs([p], f) == p.before + (['"'] + (['k'] + (['"'] + (p.beforeColon + ([':'] + item)))))
  {
    hide SpellItem;
    var colon := p.beforeColon + ([':'] + item);
    assert p.key[1..] == [];
    assert SpellUnits(p.key, ['"'] + colon) == ['k'] + (['"'] + colon);
  }

  lemma BlankPairMeaning(p: Pair, lib: FloatLib)
    requires p.key == [Plain('k')] && Meaning(p.item.value, lib) == Int(1) && Depth(p.item.value) == 0
    ensures PairValues([], [p], lib) == [Entry("k", Int(1))] && PairsDepth([p]) == 0 && ValidUnits(p.key)
  {
    hide Meaning, Depth;
    assert p.key[1..] == [] && [p][1..] == [];
    assert Decoded([]) == "" && ['k'] + [] == "k";
    assert Put([], "k", Int(1)) == [Entry("k", Int(1))];
    assert PairValues([Entry("k", Int(1))], [], lib) == [Entry("k", Int(1))];
    assert PairsDepth([]) == 0;
  }

  lemma BlankEmpty(b: string, f: string, lib: FloatLib)
    requires AllBlank(b)
    ensures Valid(ArrayOf([], b), lib) && Depth(ArrayOf([], b)) == 0 && Meaning(ArrayOf([], b), lib) == Array([])
    ensures Valid(ObjectOf([], b), lib) && Depth(ObjectOf([], b)) == 0 && Meaning(ObjectOf([], b), lib) == Object([])
    ensures Spell(ArrayOf([], b), f) == ['['] + (b + ([']'] + f))
    ensures Spell(ObjectOf([], b), f) == ['{'] + (b + (['}'] + f))
  {
  }

  // ---- Nesting ----------------------------------------------------------------------

  function Brackets(n: nat): string { if n == 0 then "[]" else "[" + Brackets(n - 1) + "]" }

  function Nested(n: nat): JsonNode { if n == 0 then Array([]) else Array([Nested(n - 1)]) }

  lemma {:induction false} NestedArray(n: nat, lib: FloatLib)
    ensures Print(Nested(n), lib) == Brackets(n) && Printable(Nested(n)) && Height(Nested(n)) == n
  {
    if n == 0 {
      assert "[" + "" + "]" == "[]";
    } else {
      NestedArray(n - 1, lib);
      var es := [Nested(n - 1)];
      assert es[1..] == [] && ElementsHeight(es[1..]) == 0 && ElementsHeight(es) == n - 1;
    }
  }

  /** 33 pairs of brackets are accepted, 34 are not. */
  lemma BracketsNest(n: nat, lib: FloatLib)
    ensures Deserialized(Brackets(n), lib)
         == if n <= 32 then (Success, Some(Nested(n))) else (InvalidInput, None)
  {
    hide Deserialized, Print;
    NestedArray(n, lib);
    RoundTrip(Nested(n), lib);
  }

  // ---- Numbers ----------------------------------------------------------------------

  /** Leading zeros do not count. */
  lemma {:induction false} LeadingZero(ds: string)
    requires AllDigits(ds)
    ensures DigitsValue("0" + ds) == DigitsValue(ds)
  {
    if ds == "" {
      assert "0"[..0] == "" && "0" + ds == "0";
    } else {
      var n := |ds| - 1;
      LeadingZero(ds[..n]);
      assert ("0" + ds)[..n + 1] == "0" + ds[..n] && ("0" + ds)[n + 1] == ds[n];
    }
  }

  lemma SomeIntegers()
    ensures PrintInt(-120) == "-120" && PrintInt(0) == "0" && PrintInt(7) == "7"
    ensures Stol("-120") == Some(-120) && Stol("007") == Some(7) && Stol("-") == None
  {
    hide Stol, PrintNat;
    HundredTwenty();
    OneDigit(0);
    OneDigit(7);
    StolOfPrinted(-120);
    assert "-" + "120" == "-120";
    Sevens();
  }

  lemma HundredTwenty()
    ensures PrintNat(120) == "120"
  {
    assert PrintNat(120) == PrintNat(12) + ['0'] && PrintNat(12) == PrintNat(1) + ['2'] && PrintNat(1) == ['1'];
  }

  lemma Sevens()
    ensures Stol("007") == Some(7) && Stol("-") == None
  {
    assert "7"[..0] == "" && DigitsValue("7") == 7;
    LeadingZero("7");
    LeadingZero("07");
    assert "0" + "7" == "07" && "0" + "07" == "007";
    assert "-"[1..] == "";
  }

  /** Numbers of the grammar with all their parts, and some texts that are none. */
  lemma SomeLexemes()
    ensures Lexeme("-1.5E+2") && Lexeme("0e-7") && Lexeme("12")
    ensures !Lexeme("1.5.") && !Lexeme("--1") && !Lexeme("1e5e") && !Lexeme("+1") && !Lexeme("1:") && !Lexeme("1/")
  {
    hide Lexeme;
    AllParts();
    NoExponent();
    NotLexemes();
    NoOtherDigits();
  }

  lemma AllParts()
    ensures Lexeme("-1.5E+2")
  {
    assert "-1.5E+2" == "-1" + (".5" + "E+2");
    assert "-1"[1..] == "1" && ".5"[1..] == "5" && "E+2"[2..] == "2";
    assert Parts("-1.5E+2", "-1", ".5", "E+2");
  }

  lemma NoExponent()
    ensures Lexeme("0e-7") && Lexeme("12")
  {
    assert "0e-7" == "0" + ("" + "e-7") && "e-7"[2..] == "7";
    assert Parts("0e-7", "0", "", "e-7");
    IntegersAreLexemes("12");
  }

  lemma NotLexemes()
    ensures !Lexeme("1.5.") && !Lexeme("--1") && !Lexeme("1e5e") && !Lexeme("+1")
  {
    hide Lexeme;
    LexemesAreScanned("1.5.");
    LexemesAreScanned("--1");
    LexemesAreScanned("1e5e");
    LexemesAreScanned("+1");
    assert "1.5."[1..] == ".5." && ".5."[1..] == "5." && "5."[1..] == ".";
    assert "--1"[1..] == "-1";
    assert "1e5e"[1..] == "e5e" && "e5e"[1..] == "5e" && "5e"[1..] == "e";
  }

  lemma NoOtherDigits()
    ensures !Lexeme("1:") && !Lexeme("1/")
  {
    hide Lexeme;
    LexemesAreScanned("1:");
    LexemesAreScanned("1/");
    assert "1:"[1..] == ":" && "1/"[1..] == "/";
  }

  /** A whole text that is a number: an integer by its value, a float by what the library makes of it. */
  lemma NumberComesFromText(l: string, lib: FloatLib)
    requires (Peek(l) == '-' || IsDigit(Peek(l))) && Lexeme(l)
    ensures if '.' in l || 'e' in l || 'E' in l then
              match lib.stod(l)
              case Some(d) => Deserialized(l, lib) == (Success, Some(Float(d)))
              case None => Deserialized(l, lib) == (Exception, None)
            else
              match Stol(l)
              case Some(i) => Deserialized(l, lib) == (Success, Some(Int(i)))
              case None => Deserialized(l, lib) == (Exception, None)
  {
    hide Lexeme, NumberRest, IsFloat, Stol;
    LexemesAreScanned(l);
    FloatsArePointed(l);
    assert l[..|l|] == l && SkipWs(l) == l;
  }

  // ---- Results ----------------------------------------------------------------------

  /** `deserializeJson` reports an empty input exactly for a text without a first character. */
  lemma EmptyInputIsEmpty(s: string, lib: FloatLib)
    ensures Deserialized(s, lib).0 == EmptyInput <==> s == "" || s[0] == '\0'
    ensures Deserialized(s, lib).0 == Success <==> Deserialized(s, lib).1.Some?
  {
  }

  /** Map order is that of the first character that differs; a proper beginning comes first. */
  lemma {:induction false} LessIsLexicographic(a: string, b: string)
    ensures Less(a, b) <==>
      exists n :: 0 <= n <= |a| && n < |b| && a[..n] == b[..n] && (n == |a| || a[n] < b[n])
  {
    if Less(a, b) {
      var n := FirstDifference(a, b);
      assert a[..n] == b[..n];
    } else if n :| 0 <= n <= |a| && n < |b| && a[..n] == b[..n] && (n == |a| || a[n] < b[n]) {
      DifferenceDecides(a, b, n);
    }
  }

  lemma {:induction false} FirstDifference(a: string, b: string) returns (n: nat)
    requires Less(a, b)
    ensures n <= |a| && n < |b| && a[..n] == b[..n] && (n == |a| || a[n] < b[n])
  {
    if a == "" || a[0] < b[0] {
      n := 0;
    } else {
      n := FirstDifference(a[1..], b[1..]);
      assert a[..n + 1] == [a[0]] + a[1..][..n] && b[..n + 1] == [b[0]] + b[1..][..n];
      n := n + 1;
    }
  }

  lemma {:induction false} DifferenceDecides(a: string, b: string, n: nat)
    requires n <= |a| && n < |b| && a[..n] == b[..n] && (n == |a| || a[n] < b[n])
    ensures Less(a, b)
  {
    if n > 0 {
      assert a[0] == a[..n][0] == b[..n][0] == b[0];
      assert a[1..][..n - 1] == a[..n][1..] == b[..n][1..] == b[1..][..n - 1];
      DifferenceDecides(a[1..], b[1..], n - 1);
    }
  }

  // ---- Some texts -------------------------------------------------------------------

  /** `test_arduinojson.cpp`: an array of three numbers, printed and read. */
  lemma ThreeNumbers(lib: FloatLib)
    ensures Print(Array([Int(1), Int(2), Int(3)]), lib) == "[1,2,3]"
    ensures Deserialized("[1,2,3]", lib) == (Success, Some(Array([Int(1), Int(2), Int(3)])))
  {
    var es := [Int(1), Int(2), Int(3)];
    OneDigit(1);
    OneDigit(2);
    OneDigit(3);
    assert es[1..] == [Int(2), Int(3)] && es[1..][1..] == [Int(3)];
    assert PrintElements([Int(3)], lib) == "3";
    assert PrintElements(es[1..], lib) == "2,3";
    assert PrintElements(es, lib) == "1,2,3";
    RoundTrip(Array(es), lib);
  }

  lemma OneDigit(i: nat)
    requires i < 10
    ensures PrintInt(i) == ['0' + i as char]
  {
  }

  /** And an object of two members, in map order. */
  lemma TwoMembers(lib: FloatLib)
    ensures var v := Object([Entry("a", Int(1)), Entry("b", Bool(true))]);
      && Print(v, lib) == "{\"a\":1,\"b\":true}"
      && Deserialized("{\"a\":1,\"b\":true}", lib) == (Success, Some(v))
  {
    hide Deserialized, Print, PrintMember, PrintMembers;
    var a, b := Entry("a", Int(1)), Entry("b", Bool(true));
    TwoMemberTexts(lib);
    MembersInRow(a, b, lib);
    assert "\"a\":1" + ("," + "\"b\":true") == "\"a\":1,\"b\":true";
    ObjectText([a, b], lib);
    assert "{" + "\"a\":1,\"b\":true" + "}" == "{\"a\":1,\"b\":true}";
    RoundTrip(Object([a, b]), lib);
  }

  lemma TwoMemberTexts(lib: FloatLib)
    ensures PrintMember(Entry("a", Int(1)), lib) == "\"a\":1"
    ensures PrintMember(Entry("b", Bool(true)), lib) == "\"b\":true"
  {
    OneDigit(1);
    assert "\"a\":" + "1" == "\"a\":1" && "\"b\":" + "true" == "\"b\":true";
    assert "\"" + "b" + "\":" == "\"b\":";
  }

  lemma MembersInRow(a: Entry<JsonNode>, b: Entry<JsonNode>, lib: FloatLib)
    ensures PrintMembers([a, b], lib) == PrintMember(a, lib) + ("," + PrintMember(b, lib))
  {
    assert [a, b][1..] == [b];
  }

  lemma ObjectText(ms: seq<Entry<JsonNode>>, lib: FloatLib)
    ensures Print(Object(ms), lib) == "{" + PrintMembers(ms, lib) + "}"
  {
  }

  /** The three words. */
  lemma Words(lib: FloatLib)
    ensures Print(Null, lib) == "null" && Deserialized("null", lib) == (Success, Some(Null))
    ensures Print(Bool(true), lib) == "true" && Deserialized("true", lib) == (Success, Some(Bool(true)))
    ensures Print(Bool(false), lib) == "false" && Deserialized("false", lib) == (Success, Some(Bool(false)))
  {
    hide Deserialized;
    RoundTrip(Null, lib);
    RoundTrip(Bool(true), lib);
    RoundTrip(Bool(false), lib);
  }

  /** No text, and a key without quotes. */
  lemma Invalid(lib: FloatLib)
    ensures Deserialized("", lib).0 == EmptyInput
    ensures Deserialized("{invalid}", lib).0 == InvalidInput
  {
    assert "{invalid}"[1..] == "invalid}";
  }
}
