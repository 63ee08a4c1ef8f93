/**
 The language of the parser, described without its loops and its recursion.

 A `Spelling` is a concrete syntax tree: it fixes every blank, every escape and
 every digit of a text.  `Spell` writes it out, `Meaning` says which tree it stands
 for.  JsonTheorems.ParserAcceptsTheLanguage says that the parser accepts exactly the
 spellings whose brackets nest at most 32 deep, and answers their meaning.
 */
module JsonGrammar {
  import opened OrderedMaps
  import opened JsonTree
  import opened JsonParser
  import opened JsonNumbers

  datatype Unit = Plain(c: char) | Escaped(c: char)

  datatype Spelling =
    | Word(node: JsonNode)
    | Number(lexeme: string)
    | Text(units: seq<Unit>)
    | ArrayOf(items: seq<Item>, pad: string)
    | ObjectOf(pairs: seq<Pair>, pad: string)

  /** A value with the blanks around it. */
  datatype Item = Item(before: string, value: Spelling, after: string)

  /** A member: blanks, key, blanks, colon, value with its blanks. */
  datatype Pair = Pair(before: string, key: seq<Unit>, beforeColon: string, item: Item)

  // ---- Writing a spelling out -----------------------------------------------
  // Every function takes the text that follows, so that no proof has to move
  // parentheses in a concatenation.

  ghost function SpellUnits(us: seq<Unit>, rest: string): string {
    if us == [] then rest
    else match us[0]
      case Plain(c) => [c] + SpellUnits(us[1..], rest)
      case Escaped(c) => ['\\'] + ([c] + SpellUnits(us[1..], rest))
  }

  ghost function SpellText(us: seq<Unit>, rest: string): string {
    ['"'] + SpellUnits(us, ['"'] + rest)
  }

  ghost function WordText(v: JsonNode): string {
    if v == Bool(true) then "true" else if v == Bool(false) then "false" else "null"
  }

  ghost function Spell(c: Spelling, rest: string): string
    decreases c
  {
    match c
    case Word(v) => WordText(v) + rest
    case Number(l) => l + rest
    case Text(us) => SpellText(us, rest)
    case ArrayOf(items, pad) =>
      ['['] + (if items == [] then pad + ([']'] + rest) else SpellItems(items, rest))
    case ObjectOf(pairs, pad) =>
      ['{'] + (if pairs == [] then pad + (['}'] + rest) else SpellPairs(pairs, rest))
  }

  ghost function SpellItem(it: Item, rest: string): string
    decreases it
  {
    it.before + Spell(it.value, it.after + rest)
  }

  ghost function SpellItems(items: seq<Item>, rest: string): string
    requires items != []
    decreases items
  {
    SpellItem(items[0], if |items| == 1 then [']'] + rest else [','] + SpellItems(items[1..], rest))
  }

  ghost function SpellPair(p: Pair, rest: string): string
    decreases p
  {
    p.before + SpellText(p.key, p.beforeColon + ([':'] + SpellItem(p.item, rest)))
  }

  ghost function SpellPairs(pairs: seq<Pair>, rest: string): string
    requires pairs != []
    decreases pairs
  {
    SpellPair(pairs[0], if |pairs| == 1 then ['}'] + rest else [','] + SpellPairs(pairs[1..], rest))
  }

  // ---- Which spellings belong to the language -------------------------------

  ghost predicate Blank(s: string) { forall i :: 0 <= i < |s| ==> s[i] in {' ', '\t', '\n', '\r'} }

  ghost predicate ValidUnit(u: Unit) {
    u.Plain? ==> u.c != '"' && u.c != '\\' && u.c != '\0'
  }

  ghost predicate ValidUnits(us: seq<Unit>) { forall i :: 0 <= i < |us| ==> ValidUnit(us[i]) }

  /** A number that starts with a sign or a digit and that the library can convert. */
  ghost predicate ValidLexeme(l: string, lib: FloatLib) {
    && (Peek(l) == '-' || IsDigit(Peek(l)))
    && Lexeme(l)
    && NumberValue(l, Pointed(l), lib).Some?
  }

  ghost predicate Valid(c: Spelling, lib: FloatLib)
    decreases c
  {
    match c
    case Word(v) => v == Null || v.Bool?
    case Number(l) => ValidLexeme(l, lib)
    case Text(us) => ValidUnits(us)
    case ArrayOf(items, pad) => Blank(pad) && forall i :: 0 <= i < |items| ==> ValidItem(items[i], lib)
    case ObjectOf(pairs, pad) => Blank(pad) && forall i :: 0 <= i < |pairs| ==> ValidPair(pairs[i], lib)
  }

  ghost predicate ValidItem(it: Item, lib: FloatLib)
    decreases it
  {
    Blank(it.before) && Blank(it.after) && Valid(it.value, lib)
  }

  ghost predicate ValidPair(p: Pair, lib: FloatLib)
    decreases p
  {
    Blank(p.before) && ValidUnits(p.key) && Blank(p.beforeColon) && ValidItem(p.item, lib)
  }

  // ---- What a spelling means --------------------------------------------------

  ghost function Decoded(us: seq<Unit>): string {
    if us == [] then ""
    else [if us[0] == Escaped('n') then '\n' else if us[0] == Escaped('t') then '\t' else us[0].c] + Decoded(us[1..])
  }

  ghost function Meaning(c: Spelling, lib: FloatLib): JsonNode
    decreases c
  {
    match c
    case Word(v) => v
    case Number(l) => (match NumberValue(l, Pointed(l), lib) case Some(v) => v case None => Null)
    case Text(us) => String(Decoded(us))
    case ArrayOf(items, _) => Array(ItemValues(items, lib))
    case ObjectOf(pairs, _) => Object(PairValues([], pairs, lib))
  }

  ghost function ItemValues(items: seq<Item>, lib: FloatLib): seq<JsonNode>
    decreases items
  {
    if items == [] then [] else [Meaning(items[0].value, lib)] + ItemValues(items[1..], lib)
  }

  /** Members are stored one after the other: of two equal keys the later one stays. */
  ghost function PairValues(acc: seq<Entry<JsonNode>>, pairs: seq<Pair>, lib: FloatLib): seq<Entry<JsonNode>>
    decreases pairs
  {
    if pairs == [] then acc
    else PairValues(Put(acc, Decoded(pairs[0].key), Meaning(pairs[0].item.value, lib)), pairs[1..], lib)
  }

  ghost function Depth(c: Spelling): nat
    decreases c
  {
    match c
    case ArrayOf(items, _) => if items == [] then 0 else 1 + ItemsDepth(items)
    case ObjectOf(pairs, _) => if pairs == [] then 0 else 1 + PairsDepth(pairs)
    case _ => 0
  }

  ghost function ItemsDepth(items: seq<Item>): nat
    decreases items
  {
    if items == [] then 0 else Max(Depth(items[0].value), ItemsDepth(items[1..]))
  }

  ghost function PairsDepth(pairs: seq<Pair>): nat
    decreases pairs
  {
    if pairs == [] then 0 else Max(Depth(pairs[0].item.value), PairsDepth(pairs[1..]))
  }

  /** Numbers are read as far as they go; nothing else depends on what follows. */
  ghost predicate EndsBefore(c: Spelling, rest: string) {
    c.Number? ==> CannotGrow(c.lexeme, rest)
  }

  // ---- Blanks and lexemes -----------------------------------------------------

  lemma {:induction false} SkipBlank(ws: string, s: string)
    requires Blank(ws)
    ensures SkipWs(ws + s) == SkipWs(s)
  {
    if ws == "" {
      assert ws + s == s;
    } else {
      assert (ws + s)[1..] == ws[1..] + s;
      SkipBlank(ws[1..], s);
    }
  }

  lemma {:induction false} BlanksOf(s: string) returns (ws: string)
    ensures Blank(ws) && s == ws + SkipWs(s)
  {
    if s != "" && IsWs(s[0]) {
      ws := BlanksOf(s[1..]);
      ws := [s[0]] + ws;
      assert s == [s[0]] + s[1..];
    } else {
      ws := "";
    }
  }
}
