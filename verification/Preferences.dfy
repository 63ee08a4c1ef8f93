/** The flat key-value store behind `Preferences`, and the nested one it stands for. */
module PrefsModel {
  import opened MachineInts
  import opened Wrappers
  import opened OrderedMaps
  import opened Division

  type Bytes = seq<byte>
  type Flat = seq<Entry<Bytes>>

  /** The one key under which a namespace's key is stored. */
  function Fqn(ns: string, key: string): string { ns + "/" + key }

  datatype Handle = Handle(ns: string, readOnly: bool)

  datatype Op =
    | Begin(name: string, readOnly: bool)
    | End
    | Clear
    | Remove(key: string)
    | PutBytes(key: string, value: Bytes)
    | GetBytes(key: string)

  datatype Answer = Flag(b: bool) | Size(n: nat) | Value(v: Option<Bytes>) | Nothing

  /** The loop of `clear`: every stored key that starts with the namespace goes. */
  function Cleared(m: Flat, prefix: string): Flat {
    if m == [] then []
    else (if prefix <= m[0].key then [] else [m[0]]) + Cleared(m[1..], prefix)
  }

  /** What the code does with one call on one handle. */
  function FlatStep(m: Flat, h: Handle, op: Op): (Flat, Handle, Answer) {
    match op
    case Begin(name, ro) => (m, Handle(name, ro), Flag(true))
    case End => (m, h.(ns := ""), Nothing)
    case Clear =>
      if h.readOnly then (m, h, Flag(false)) else (Cleared(m, h.ns + "/"), h, Flag(true))
    case Remove(key) =>
      if h.readOnly then (m, h, Flag(false))
      else (Erase(m, Fqn(h.ns, key)), h, Flag(Lookup(m, Fqn(h.ns, key)).Some?))
    case PutBytes(key, value) =>
      if h.readOnly then (m, h, Size(0)) else (Put(m, Fqn(h.ns, key), value), h, Size(|value|))
    case GetBytes(key) => (m, h, Value(Lookup(m, Fqn(h.ns, key))))
  }

  // ---- The nested store -----------------------------------------------------------

  type Nested = map<string, map<string, Bytes>>

  function Space(n: Nested, ns: string): map<string, Bytes> { if ns in n then n[ns] else map[] }

  function Find(n: Nested, ns: string, key: string): Option<Bytes> {
    if key in Space(n, ns) then Some(Space(n, ns)[key]) else None
  }

  /** What the same call means when every namespace has a dictionary of its own. */
  function NestedStep(n: Nested, h: Handle, op: Op): (Nested, Handle, Answer) {
    match op
    case Begin(name, ro) => (n, Handle(name, ro), Flag(true))
    case End => (n, h.(ns := ""), Nothing)
    case Clear => if h.readOnly then (n, h, Flag(false)) else (n[h.ns := map[]], h, Flag(true))
    case Remove(key) =>
      if h.readOnly then (n, h, Flag(false))
      else (n[h.ns := Space(n, h.ns) - {key}], h, Flag(key in Space(n, h.ns)))
    case PutBytes(key, value) =>
      if h.readOnly then (n, h, Size(0)) else (n[h.ns := Space(n, h.ns)[key := value]], h, Size(|value|))
    case GetBytes(key) => (n, h, Value(Find(n, h.ns, key)))
  }

  predicate SlashFree(ns: string) { '/' !in ns }

  ghost predicate Refines(m: Flat, n: Nested) {
    && Ascending(m)
    && forall ns, key :: SlashFree(ns) ==> Lookup(m, Fqn(ns, key)) == Find(n, ns, key)
  }

  // ---- Keys -------------------------------------------------------------------------

  /** Two namespaces share a stored key exactly when one, with its slash, begins the other with its slash. */
  lemma SharedKeys(a: string, b: string)
    ensures (exists k, l :: Fqn(a, k) == Fqn(b, l)) <==> a + "/" <= b + "/" || b + "/" <= a + "/"
  {
    if k, l :| Fqn(a, k) == Fqn(b, l) {
      var s := Fqn(a, k);
      assert s[..|a| + 1] == a + "/" && s[..|b| + 1] == b + "/";
      if |a| <= |b| { assert s[..|b| + 1][..|a| + 1] == a + "/"; } else { assert s[..|a| + 1][..|b| + 1] == b + "/"; }
    }
    if a + "/" <= b + "/" {
      assert Fqn(a, (b + "/")[|a| + 1..]) == Fqn(b, "");
    }
    if b + "/" <= a + "/" {
      assert Fqn(a, "") == Fqn(b, (a + "/")[|b| + 1..]);
    }
  }

  /** Without slashes in their names, different namespaces never alias. */
  lemma SlashFreeSeparates(a: string, b: string, key: string)
    requires SlashFree(a) && SlashFree(b)
    ensures a + "/" <= Fqn(b, key) <==> a == b
  {
    var s := Fqn(b, key);
    if a == b { assert s[..|a| + 1] == a + "/"; }
    if a + "/" <= s {
      assert s[|a|] == '/' && s[|b|] == '/';
      assert forall i :: 0 <= i < |a| ==> s[i] == (a + "/")[i] == a[i];
      assert forall i :: 0 <= i < |b| ==> s[i] == b[i];
      assert a == s[..|a|] && b == s[..|b|];
    }
  }

  lemma FqnIsInjective(a: string, k: string, b: string, l: string)
    requires SlashFree(a) && SlashFree(b)
    ensures Fqn(a, k) == Fqn(b, l) <==> a == b && k == l
  {
    if Fqn(a, k) == Fqn(b, l) {
      assert Fqn(a, k)[..|a| + 1] == a + "/";
      SlashFreeSeparates(a, b, l);
      assert Fqn(a, k)[|a| + 1..] == k && Fqn(b, l)[|b| + 1..] == l;
    }
  }

  lemma {:induction false} ClearedLookup(m: Flat, prefix: string, q: string)
    ensures Lookup(Cleared(m, prefix), q) == if prefix <= q then None else Lookup(m, q)
  {
    if m != [] {
      ClearedLookup(m[1..], prefix, q);
      var c := Cleared(m[1..], prefix);
      if prefix <= m[0].key { assert Cleared(m, prefix) == c; } else { assert Cleared(m, prefix)[1..] == c; }
    }
  }

  lemma {:induction false} ClearedAscends(m: Flat, prefix: string)
    requires Ascending(m)
    ensures Ascending(Cleared(m, prefix))
    ensures forall i :: 0 <= i < |Cleared(m, prefix)| ==> Cleared(m, prefix)[i] in m
  {
    if m != [] {
      ClearedAscends(m[1..], prefix);
      var c := Cleared(m[1..], prefix);
      if prefix <= m[0].key {
        assert Cleared(m, prefix) == c;
      } else {
        assert Cleared(m, prefix) == [m[0]] + c;
        forall i | 0 <= i < |c| ensures Less(m[0].key, c[i].key) { assert c[i] in m[1..]; }
      }
    }
  }

  // ---- Refinement, call by call --------------------------------------------------------

  lemma StepRefines(m: Flat, n: Nested, h: Handle, op: Op)
    requires Refines(m, n) && SlashFree(h.ns)
    ensures var f, g := FlatStep(m, h, op), NestedStep(n, h, op);
            Refines(f.0, g.0) && f.1 == g.1 && f.2 == g.2
  {
    hide Ascending, Less;
    match op {
      case Clear => ClearRefines(m, n, h);
      case Remove(key) => RemoveRefines(m, n, h, key);
      case PutBytes(key, value) => PutRefines(m, n, h, key, value);
      case _ =>
    }
  }

  lemma ClearRefines(m: Flat, n: Nested, h: Handle)
    requires Refines(m, n) && SlashFree(h.ns)
    ensures Refines(Cleared(m, h.ns + "/"), n[h.ns := map[]])
  {
    hide Ascending, Less, Fqn;
    ClearedAscends(m, h.ns + "/");
    forall ns, key | SlashFree(ns)
      ensures Lookup(Cleared(m, h.ns + "/"), Fqn(ns, key)) == Find(n[h.ns := map[]], ns, key)
    {
      ClearedLookup(m, h.ns + "/", Fqn(ns, key));
      SlashFreeSeparates(h.ns, ns, key);
    }
  }

  lemma RemoveRefines(m: Flat, n: Nested, h: Handle, k: string)
    requires Refines(m, n) && SlashFree(h.ns)
    ensures Refines(Erase(m, Fqn(h.ns, k)), n[h.ns := Space(n, h.ns) - {k}])
    ensures Lookup(m, Fqn(h.ns, k)).Some? <==> k in Space(n, h.ns)
  {
    hide Ascending, Less, Fqn;
    EraseLaws(m, Fqn(h.ns, k));
    forall ns, key | SlashFree(ns)
      ensures Lookup(Erase(m, Fqn(h.ns, k)), Fqn(ns, key)) == Find(n[h.ns := Space(n, h.ns) - {k}], ns, key)
    {
      FqnIsInjective(h.ns, k, ns, key);
    }
  }

  lemma PutRefines(m: Flat, n: Nested, h: Handle, k: string, v: Bytes)
    requires Refines(m, n) && SlashFree(h.ns)
    ensures Refines(Put(m, Fqn(h.ns, k), v), n[h.ns := Space(n, h.ns)[k := v]])
  {
    hide Ascending, Less, Fqn;
    PutLaws(m, Fqn(h.ns, k), v);
    forall ns, key | SlashFree(ns)
      ensures Lookup(Put(m, Fqn(h.ns, k), v), Fqn(ns, key)) == Find(n[h.ns := Space(n, h.ns)[k := v]], ns, key)
    {
      FqnIsInjective(h.ns, k, ns, key);
    }
  }

  // ---- Refinement over every run of many handles ------------------------------------------

  /** A call made on one of any number of handles. */
  datatype Call = Call(handle: nat, op: Op)

  type Handles = map<nat, Handle>

  /** A handle nobody has begun is a default-constructed one. */
  function HandleOf(hs: Handles, i: nat): Handle { if i in hs then hs[i] else Handle("", false) }

  function FlatRun(m: Flat, hs: Handles, calls: seq<Call>): (Flat, Handles, seq<Answer>)
    decreases |calls|
  {
    if calls == [] then (m, hs, [])
    else
      var c := calls[0];
      var (m', h, a) := FlatStep(m, HandleOf(hs, c.handle), c.op);
      var (m'', hs'', rest) := FlatRun(m', hs[c.handle := h], calls[1..]);
      (m'', hs'', [a] + rest)
  }

  function NestedRun(n: Nested, hs: Handles, calls: seq<Call>): (Nested, Handles, seq<Answer>)
    decreases |calls|
  {
    if calls == [] then (n, hs, [])
    else
      var c := calls[0];
      var (n', h, a) := NestedStep(n, HandleOf(hs, c.handle), c.op);
      var (n'', hs'', rest) := NestedRun(n', hs[c.handle := h], calls[1..]);
      (n'', hs'', [a] + rest)
  }

  predicate SlashFreeHandles(hs: Handles) { forall i :: i in hs ==> SlashFree(hs[i].ns) }

  predicate SlashFreeCalls(calls: seq<Call>) {
    forall i :: 0 <= i < |calls| && calls[i].op.Begin? ==> SlashFree(calls[i].op.name)
  }

  /** However the calls of many handles interleave, the flat store answers like one dictionary a namespace. */
  lemma {:induction false} RunRefines(m: Flat, n: Nested, hs: Handles, calls: seq<Call>)
    requires Refines(m, n) && SlashFreeHandles(hs) && SlashFreeCalls(calls)
    ensures var f, g := FlatRun(m, hs, calls), NestedRun(n, hs, calls);
            Refines(f.0, g.0) && f.1 == g.1 && f.2 == g.2
    decreases |calls|
  {
    hide Refines, FlatStep;
    if calls != [] {
      var c := calls[0];
      var h := HandleOf(hs, c.handle);
      StepRefines(m, n, h, c.op);
      var (m', h', _) := FlatStep(m, h, c.op);
      var (n', _, _) := NestedStep(n, h, c.op);
      RunRefines(m', n', hs[c.handle := h'], calls[1..]);
    }
  }

  /** The calls that are not on handle `i`, and their answers. */
  function Others(calls: seq<Call>, i: nat): seq<Call>
    decreases |calls|
  {
    if calls == [] then [] else (if calls[0].handle == i then [] else [calls[0]]) + Others(calls[1..], i)
  }

  function OthersAnswers(calls: seq<Call>, answers: seq<Answer>, i: nat): seq<Answer>
    requires |answers| == |calls|
    decreases |calls|
  {
    if calls == [] then []
    else (if calls[0].handle == i then [] else [answers[0]]) + OthersAnswers(calls[1..], answers[1..], i)
  }

  lemma {:induction false} OneAnswerEach(m: Flat, hs: Handles, calls: seq<Call>)
    ensures |FlatRun(m, hs, calls).2| == |calls|
    decreases |calls|
  {
    hide FlatStep;
    if calls != [] {
      var c := calls[0];
      var (m', h, _) := FlatStep(m, HandleOf(hs, c.handle), c.op);
      OneAnswerEach(m', hs[c.handle := h], calls[1..]);
    }
  }

  /** Handle `i` is never begun for writing, and never used before it is begun. */
  predicate OnlyReads(hs: Handles, calls: seq<Call>, i: nat) {
    && (forall k :: 0 <= k < |calls| && calls[k].handle == i && calls[k].op.Begin? ==> calls[k].op.readOnly)
    && (HandleOf(hs, i).readOnly || BegunFirst(calls, i))
  }

  predicate BegunFirst(calls: seq<Call>, i: nat)
    decreases |calls|
  {
    if calls == [] then true
    else if calls[0].handle == i then calls[0].op.Begin?
    else BegunFirst(calls[1..], i)
  }

  ghost predicate SameOthers(hs: Handles, gs: Handles, i: nat) {
    forall j: nat :: j != i ==> HandleOf(hs, j) == HandleOf(gs, j)
  }

  /** A handle that only reads leaves no trace in any run: without its calls the store ends up
      the same and every other handle is answered the same. */
  lemma {:induction false} ReadOnlyChangesNothing(m: Flat, hs: Handles, gs: Handles, calls: seq<Call>, i: nat)
    requires OnlyReads(hs, calls, i) && SameOthers(hs, gs, i)
    ensures |FlatRun(m, hs, calls).2| == |calls|
    ensures FlatRun(m, hs, calls).0 == FlatRun(m, gs, Others(calls, i)).0
    ensures OthersAnswers(calls, FlatRun(m, hs, calls).2, i) == FlatRun(m, gs, Others(calls, i)).2
    decreases |calls|
  {
    hide FlatStep, OnlyReads, SameOthers;
    OneAnswerEach(m, hs, calls);
    if calls != [] {
      var c, rest := calls[0], calls[1..];
      var (m', h, a) := FlatStep(m, HandleOf(hs, c.handle), c.op);
      var hs' := hs[c.handle := h];
      var after := FlatRun(m', hs', rest);
      ReaderStep(m, hs, calls, i);
      assert FlatRun(m, hs, calls) == (after.0, after.1, [a] + after.2);
      assert ([a] + after.2)[1..] == after.2;
      if c.handle == i {
        ReaderAside(hs, gs, i, h);
        ReadOnlyChangesNothing(m, hs', gs, rest, i);
        assert Others(calls, i) == Others(rest, i);
      } else {
        OtherStep(hs, gs, i, c.handle, h);
        ReadOnlyChangesNothing(m', hs', gs[c.handle := h], rest, i);
        var others := [c] + Others(rest, i);
        assert Others(calls, i) == others && others[0] == c && others[1..] == Others(rest, i);
      }
    }
  }

  lemma ReaderStep(m: Flat, hs: Handles, calls: seq<Call>, i: nat)
    requires calls != [] && OnlyReads(hs, calls, i)
    ensures var c := calls[0];
            var (m', h, _) := FlatStep(m, HandleOf(hs, c.handle), c.op);
            (c.handle == i ==> m' == m) && OnlyReads(hs[c.handle := h], calls[1..], i)
  {
    hide Put, Erase, Cleared, Lookup, Fqn;
    var c := calls[0];
    var rest := calls[1..];
    assert forall k :: 0 <= k < |rest| ==> rest[k] == calls[k + 1];
    if c.handle == i {
      assert HandleOf(hs, i).readOnly || (c.op.Begin? && c.op.readOnly);
    }
  }

  lemma ReaderAside(hs: Handles, gs: Handles, i: nat, h: Handle)
    requires SameOthers(hs, gs, i)
    ensures SameOthers(hs[i := h], gs, i)
  {
    var hs' := hs[i := h];
    forall j: nat | j != i ensures HandleOf(hs', j) == HandleOf(gs, j) {
      assert HandleOf(hs, j) == HandleOf(gs, j);
    }
  }

  lemma OtherStep(hs: Handles, gs: Handles, i: nat, j: nat, h: Handle)
    requires SameOthers(hs, gs, i) && j != i
    ensures HandleOf(hs, j) == HandleOf(gs, j) && SameOthers(hs[j := h], gs[j := h], i)
  {
    var hs', gs' := hs[j := h], gs[j := h];
    forall k: nat | k != i ensures HandleOf(hs', k) == HandleOf(gs', k) {
      assert HandleOf(hs, k) == HandleOf(gs, k);
    }
  }

  // ---- Typed integers ---------------------------------------------------------------------

  function Pow256(w: nat): nat { if w == 0 then 1 else 0x100 * Pow256(w - 1) }

  /** An integer in memory, least significant byte first. */
  function ToBytes(n: nat, w: nat): (b: Bytes)
    ensures |b| == w
    decreases w
  {
    if w == 0 then [] else [n % 0x100] + ToBytes(n / 0x100, w - 1)
  }

  function FromBytes(b: Bytes): nat {
    if b == [] then 0 else b[0] + 0x100 * FromBytes(b[1..])
  }

  lemma {:induction false} BytesRoundTrip(n: nat, w: nat)
    requires n < Pow256(w)
    ensures FromBytes(ToBytes(n, w)) == n
    decreases w
  {
    if w > 0 {
      BytesRoundTrip(n / 0x100, w - 1);
      assert ToBytes(n, w)[1..] == ToBytes(n / 0x100, w - 1);
    }
  }

  lemma {:induction false} ToBytesOfFromBytes(b: Bytes)
    ensures ToBytes(FromBytes(b), |b|) == b
  {
    if b != [] {
      ToBytesOfFromBytes(b[1..]);
      assert FromBytes(b) % 0x100 == b[0] && FromBytes(b) / 0x100 == FromBytes(b[1..]);
      assert [b[0]] + b[1..] == b;
    }
  }

  lemma {:induction false} FromBytesFits(b: Bytes)
    ensures FromBytes(b) < Pow256(|b|)
  {
    if b != [] { FromBytesFits(b[1..]); }
  }

  /** An integer type of the API: its size in bytes and whether it has a sign. */
  datatype IntType = IntType(width: nat, signed: bool) {
    predicate Holds(v: int) {
      if signed then -(Pow256(width) as int) <= 2 * v < Pow256(width) else 0 <= v < Pow256(width)
    }
  }

  /** `reinterpret_cast` of a value to its bytes, and back. */
  function Stored(t: IntType, v: int): Bytes
    requires t.Holds(v)
  {
    ToBytes(if v < 0 then v + Pow256(t.width) else v, t.width)
  }

  function Loaded(t: IntType, b: Bytes): int {
    var n := FromBytes(b);
    if t.signed && 2 * n >= Pow256(t.width) then n - Pow256(t.width) else n
  }

  /** `getT`: the default unless exactly as many bytes are stored as the type has. */
  function GetInt(t: IntType, found: Option<Bytes>, def: int): int {
    match found
    case Some(b) => if |b| == t.width then Loaded(t, b) else def
    case None => def
  }

  /** An integer read back with its own type is itself, with the other sign it is congruent
      to itself, and with another width the default is returned. */
  lemma TypedRoundTrip(t: IntType, v: int, u: IntType, def: int)
    requires t.Holds(v)
    ensures GetInt(t, Some(Stored(t, v)), def) == v
    ensures u.width == t.width ==>
      var r := GetInt(u, Some(Stored(t, v)), def);
      u.Holds(r) && (r == v || r == v + Pow256(t.width) || r == v - Pow256(t.width))
    ensures u.width != t.width ==> GetInt(u, Some(Stored(t, v)), def) == def
  {
    BytesRoundTrip(if v < 0 then v + Pow256(t.width) else v, t.width);
    FromBytesFits(Stored(t, v));
  }

  /** In memory byte `i` of a number is its digit `i` to the base 256, the lowest first. */
  lemma {:induction false} ByteAt(n: nat, w: nat, i: nat)
    requires i < w
    ensures Pow256(i) > 0 && ToBytes(n, w)[i] == n / Pow256(i) % 0x100
    decreases w
  {
    if i > 0 {
      ByteAt(n / 0x100, w - 1, i - 1);
      assert ToBytes(n, w)[i] == ToBytes(n / 0x100, w - 1)[i - 1];
      DivideTwice(n, Pow256(i - 1));
    }
  }

  lemma DivideTwice(n: nat, p: nat)
    requires p > 0
    ensures n / 0x100 / p == n / (0x100 * p)
  {
    var q, r := n / 0x100, n % 0x100;
    var a, b := q / p, q % p;
    assert n == 0x100 * (p * a + b) + r;
    assert 0x100 * (p * a + b) == a * (0x100 * p) + 0x100 * b;
    Parts(a, 0x100 * b + r, 0x100 * p);
  }

  /** The integer types of the interface: what a value needs to fit them. */
  lemma IntTypes(v: int)
    ensures IntType(1, true).Holds(v) <==> -0x80 <= v <= 0x7F
    ensures IntType(1, false).Holds(v) <==> 0 <= v <= 0xFF
    ensures IntType(2, true).Holds(v) <==> -0x8000 <= v <= 0x7FFF
    ensures IntType(2, false).Holds(v) <==> 0 <= v <= 0xFFFF
    ensures IntType(4, true).Holds(v) <==> -0x8000_0000 <= v <= 0x7FFF_FFFF
    ensures IntType(4, false).Holds(v) <==> 0 <= v <= 0xFFFF_FFFF
    ensures IntType(8, true).Holds(v) <==> -0x8000_0000_0000_0000 <= v <= 0x7FFF_FFFF_FFFF_FFFF
    ensures IntType(8, false).Holds(v) <==> 0 <= v <= 0xFFFF_FFFF_FFFF_FFFF
  {
    assert Pow256(1) == 0x100 && Pow256(2) == 0x10000 && Pow256(4) == 0x1_0000_0000;
    assert Pow256(5) == 0x100_0000_0000 && Pow256(8) == 0x1_0000_0000_0000_0000;
  }

  /** `putShort("k", 0x1234)` and `putChar("k", -1)` in memory. */
  lemma SomeBytes()
    ensures IntType(2, false).Holds(0x1234) && Stored(IntType(2, false), 0x1234) == [0x34, 0x12]
    ensures IntType(1, true).Holds(-1) && Stored(IntType(1, true), -1) == [0xFF]
  {
    IntTypes(0x1234);
    IntTypes(-1);
    assert Pow256(1) == 0x100;
    assert ToBytes(0x1234, 2) == [0x34] + ToBytes(0x12, 1) && ToBytes(0x12, 1) == [0x12] + ToBytes(0, 0);
    assert ToBytes(0xFF, 1) == [0xFF] + ToBytes(0, 0);
  }

  /** Any bytes of the right number are the bytes of one value of the type. */
  lemma LoadedIsStored(t: IntType, b: Bytes)
    requires |b| == t.width
    ensures t.Holds(Loaded(t, b)) && Stored(t, Loaded(t, b)) == b
    ensures forall v :: t.Holds(v) && Stored(t, v) == b ==> v == Loaded(t, b)
  {
    FromBytesFits(b);
    ToBytesOfFromBytes(b);
    forall v | t.Holds(v) && Stored(t, v) == b ensures v == Loaded(t, b) {
      TypedRoundTrip(t, v, t, 0);
    }
  }
}

/** The class: every handle works on the one shared store. */
module Preferences {
  import opened Wrappers
  import opened OrderedMaps
  import opened PrefsModel

  class SharedStore {
    var entries: Flat

    constructor ()
      ensures entries == []
    {
      entries := [];
    }
  }

  class Preferences {
    const store: SharedStore
    var ns: string
    var readOnly: bool

    constructor (store: SharedStore)
      ensures this.store == store && ns == "" && !readOnly
    {
      this.store := store;
      ns, readOnly := "", false;
    }

    ghost function Self(): Handle
      reads this
    {
      Handle(ns, readOnly)
    }

    method BeginWith(name: string, readOnlyMode: bool) returns (ok: bool)
      modifies this
      ensures (store.entries, Self(), Flag(ok)) == FlatStep(old(store.entries), old(Self()), Begin(name, readOnlyMode))
      ensures ok && ns == name && readOnly == readOnlyMode && store.entries == old(store.entries)
    {
      ns := name;
      readOnly := readOnlyMode;
      ok := true;
    }

    method Finish()
      modifies this
      ensures (store.entries, Self(), Nothing) == FlatStep(old(store.entries), old(Self()), End)
      ensures ns == "" && readOnly == old(readOnly) && store.entries == old(store.entries)
    {
      ns := "";
    }

    /** Walks the map once, erasing as it goes. */
    method ClearAll() returns (ok: bool)
      modifies store
      ensures (store.entries, Self(), Flag(ok)) == FlatStep(old(store.entries), old(Self()), Clear)
      ensures ok == !readOnly
      ensures forall k ::
        Lookup(store.entries, k) == if ok && ns + "/" <= k then None else Lookup(old(store.entries), k)
    {
      if readOnly { return false; }
      var prefix := ns + "/";
      var it := 0;
      ghost var whole := Cleared(store.entries, prefix);
      assert store.entries[0..] == store.entries;
      while it < |store.entries|
        invariant it <= |store.entries|
        invariant store.entries[..it] + Cleared(store.entries[it..], prefix) == whole
        decreases |store.entries| - it
      {
        ghost var m := store.entries;
        assert m[it..][0] == m[it] && m[it..][1..] == m[it + 1..];
        if prefix <= store.entries[it].key {
          store.entries := store.entries[..it] + store.entries[it + 1..];
          assert store.entries[..it] == m[..it] && store.entries[it..] == m[it + 1..];
          assert Cleared(m[it..], prefix) == Cleared(m[it + 1..], prefix);
        } else {
          assert m[..it + 1] == m[..it] + [m[it]];
          assert Cleared(m[it..], prefix) == [m[it]] + Cleared(m[it + 1..], prefix);
          it := it + 1;
        }
      }
      assert store.entries[..it] == store.entries && store.entries[it..] == [];
      assert store.entries + [] == store.entries;
      assert store.entries == Cleared(old(store.entries), prefix);
      forall k ensures Lookup(store.entries, k) == if prefix <= k then None else Lookup(old(store.entries), k) {
        ClearedLookup(old(store.entries), prefix, k);
      }
      ok := true;
    }

    method RemoveKey(key: string) returns (ok: bool)
      modifies store
      ensures (store.entries, Self(), Flag(ok)) == FlatStep(old(store.entries), old(Self()), Remove(key))
      ensures ok == (!readOnly && Lookup(old(store.entries), ns + "/" + key).Some?)
      ensures store.entries == if readOnly then old(store.entries) else Erase(old(store.entries), ns + "/" + key)
    {
      if readOnly { return false; }
      ok := Lookup(store.entries, Fqn(ns, key)).Some?;
      store.entries := Erase(store.entries, Fqn(ns, key));
    }

    /** `putString` and `putBytes`. */
    method PutRaw(key: string, value: Bytes) returns (n: nat)
      modifies store
      ensures !readOnly ==> n == |value| && store.entries == Put(old(store.entries), ns + "/" + key, value)
      ensures readOnly ==> n == 0 && store.entries == old(store.entries)
      ensures (store.entries, Self(), Size(n)) == FlatStep(old(store.entries), old(Self()), PutBytes(key, value))
    {
      if readOnly { return 0; }
      store.entries := Put(store.entries, Fqn(ns, key), value);
      n := |value|;
    }

    method PutInt(t: IntType, key: string, v: int) returns (n: nat)
      requires t.Holds(v)
      modifies store
      ensures (store.entries, Self(), Size(n)) == FlatStep(old(store.entries), old(Self()), PutBytes(key, Stored(t, v)))
      ensures !readOnly ==> n == t.width && store.entries == Put(old(store.entries), ns + "/" + key, Stored(t, v))
    {
      n := PutRaw(key, Stored(t, v));
    }

    method GetTyped(t: IntType, key: string, def: int) returns (v: int)
      ensures match Lookup(store.entries, ns + "/" + key)
              case None => v == def
              case Some(b) =>
                && (|b| != t.width ==> v == def)
                && (|b| == t.width ==> t.Holds(v) && Stored(t, v) == b)
      ensures forall w :: t.Holds(w) && Lookup(store.entries, ns + "/" + key) == Some(Stored(t, w)) ==> v == w
      ensures t.Holds(def) ==> t.Holds(v)
    {
      var it := Lookup(store.entries, Fqn(ns, key));
      match it {
        case None => v := def;
        case Some(b) =>
          if |b| != t.width { return def; }
          v := Loaded(t, b);
          LoadedIsStored(t, b);
      }
    }

    method GetString(key: string, def: Bytes) returns (s: Bytes)
      ensures s == match Lookup(store.entries, ns + "/" + key) case Some(b) => b case None => def
    {
      var it := Lookup(store.entries, Fqn(ns, key));
      s := match it case Some(b) => b case None => def;
    }

    method GetRaw(key: string, maxLen: nat) returns (buf: Bytes)
      ensures match Lookup(store.entries, ns + "/" + key)
              case Some(b) => buf == b[..if maxLen < |b| then maxLen else |b|]
              case None => buf == []
    {
      var it := Lookup(store.entries, Fqn(ns, key));
      match it {
        case Some(b) => buf := b[..if maxLen < |b| then maxLen else |b|];
        case None => buf := [];
      }
    }

    method IsKey(key: string) returns (b: bool)
      ensures b == Lookup(store.entries, ns + "/" + key).Some?
    {
      b := Lookup(store.entries, Fqn(ns, key)).Some?;
    }
  }
}
