/** What the SD_MMC mock computes: paths, byte contents, directory listings. */
module SdModel {
  import opened MachineInts
  import opened Wrappers
  import opened OrderedMaps

  datatype FileEntry = FileEntry(data: seq<byte>, isDir: bool)

  type Store = seq<Entry<FileEntry>>

  const EMPTY_FILE := FileEntry([], false)

  // ---- Paths --------------------------------------------------------------------

  function Rooted(p: string): string { if p == "" || p[0] != '/' then "/" + p else p }

  function Trimmed(s: string): string {
    if |s| > 1 && s[|s| - 1] == '/' then Trimmed(s[..|s| - 1]) else s
  }

  function Normal(p: string): string { Trimmed(Rooted(p)) }

  /** A path starts with a slash and ends in one only if it is the root. */
  predicate GoodPath(p: string) {
    p != "" && p[0] == '/' && (|p| > 1 ==> p[|p| - 1] != '/')
  }

  predicate GoodStore(st: Store) {
    Ascending(st) && forall i :: 0 <= i < |st| ==> GoodPath(st[i].key)
  }

  lemma {:induction false} TrimmedIsGood(s: string)
    requires s != "" && s[0] == '/'
    ensures GoodPath(Trimmed(s)) && Trimmed(s) <= s
    ensures GoodPath(s) ==> Trimmed(s) == s
  {
    if |s| > 1 && s[|s| - 1] == '/' { TrimmedIsGood(s[..|s| - 1]); }
  }

  /** Normalising always gives a good path and changes no good path. */
  lemma NormalIsGood(p: string)
    ensures GoodPath(Normal(p)) && (Normal(p) == p <==> GoodPath(p))
  {
    TrimmedIsGood(Rooted(p));
  }

  /** The normal path is the path, with a slash put before it if it has none, without the slashes at its end. */
  lemma {:induction false} NormalPathIs(p: string)
    ensures var rooted := if p != "" && p[0] == '/' then p else "/" + p;
      && Normal(p) <= rooted
      && (forall i :: |Normal(p)| <= i < |rooted| ==> rooted[i] == '/')
      && Normal(p) != "" && (|Normal(p)| == 1 || Normal(p)[|Normal(p)| - 1] != '/')
  {
    TrimmedIsGood(Rooted(p));
    OnlySlashesTrimmed(Rooted(p));
  }

  lemma {:induction false} OnlySlashesTrimmed(s: string)
    requires s != "" && s[0] == '/'
    ensures |Trimmed(s)| <= |s| && forall i :: |Trimmed(s)| <= i < |s| ==> s[i] == '/'
  {
    if |s| > 1 && s[|s| - 1] == '/' { OnlySlashesTrimmed(s[..|s| - 1]); }
  }

  lemma PutKeepsStore(st: Store, p: string, e: FileEntry)
    requires GoodStore(st) && GoodPath(p)
    ensures GoodStore(Put(st, p, e))
  {
    PutLaws(st, p, e);
  }

  lemma EraseKeepsStore(st: Store, p: string)
    requires GoodStore(st)
    ensures GoodStore(Erase(st, p))
  {
    EraseLaws(st, p);
  }

  // ---- File contents --------------------------------------------------------------

  function Content(st: Store, p: string): seq<byte> {
    match Lookup(st, p) case Some(e) => e.data case None => []
  }

  /** `write`: overwrite what is there, append the rest, wherever the position stands. */
  function Spliced(d: seq<byte>, pos: nat, buf: seq<byte>): seq<byte> {
    if pos >= |d| then d + buf
    else
      var overwrite := if |buf| < |d| - pos then |buf| else |d| - pos;
      d[..pos] + buf[..overwrite] + d[pos + overwrite..] + buf[overwrite..]
  }

  /** Every byte of the buffer lands at its position, and no other byte changes. */
  predicate LandsAt(d: seq<byte>, pos: nat, buf: seq<byte>, r: seq<byte>) {
    && |r| == (if pos + |buf| > |d| then pos + |buf| else |d|)
    && (forall k :: 0 <= k < |buf| ==> r[pos + k] == buf[k])
    && (forall k :: 0 <= k < |d| && !(pos <= k < pos + |buf|) ==> r[k] == d[k])
  }

  /** A write lands where the position says exactly when the position is not past the end. */
  lemma WriteLands(d: seq<byte>, pos: nat, buf: seq<byte>)
    requires buf != []
    ensures LandsAt(d, pos, buf, Spliced(d, pos, buf)) <==> pos <= |d|
  {
    var r := Spliced(d, pos, buf);
    if pos < |d| {
      var n := if |buf| < |d| - pos then |buf| else |d| - pos;
      assert |r| == (if pos + |buf| > |d| then pos + |buf| else |d|);
      forall k | 0 <= k < |buf| ensures r[pos + k] == buf[k] {
        if k >= n { assert r[pos + k] == buf[n..][k - n]; }
      }
    }
  }

  lemma WriteGrows(d: seq<byte>, pos: nat, buf: seq<byte>)
    ensures |Spliced(d, pos, buf)| == if pos >= |d| then |d| + |buf| else if pos + |buf| > |d| then pos + |buf| else |d|
  {
  }

  function ReadLength(size: nat, pos: nat, len: nat): (n: nat)
    requires pos <= size
    ensures pos + n <= size
  {
    if len < size - pos then len else size - pos
  }

  // ---- A file over any run of reads, writes and seeks --------------------------------

  datatype FileOp = Write(buf: seq<byte>) | Read(len: nat) | Seek(pos: nat)
  datatype FileState = FileState(data: seq<byte>, pos: nat)

  function Step(s: FileState, op: FileOp): FileState
    requires op.Read? ==> s.pos <= |s.data|
  {
    match op
    case Write(buf) => FileState(Spliced(s.data, s.pos, buf), s.pos + |buf|)
    case Read(len) => FileState(s.data, s.pos + ReadLength(|s.data|, s.pos, len))
    case Seek(p) => FileState(s.data, p)
  }

  /** No read of the run starts past the end, where the code's subtraction would wrap. */
  predicate ReadsInside(s: FileState, ops: seq<FileOp>)
    decreases |ops|
  {
    ops == [] || ((ops[0].Read? ==> s.pos <= |s.data|) && ReadsInside(Step(s, ops[0]), ops[1..]))
  }

  /** No byte of the run is written past the end. */
  predicate WritesInside(s: FileState, ops: seq<FileOp>)
    requires ReadsInside(s, ops)
    decreases |ops|
  {
    ops == []
    || ((ops[0].Write? && ops[0].buf != [] ==> s.pos <= |s.data|) && WritesInside(Step(s, ops[0]), ops[1..]))
  }

  function Run(s: FileState, ops: seq<FileOp>): FileState
    requires ReadsInside(s, ops)
    decreases |ops|
  {
    if ops == [] then s else Run(Step(s, ops[0]), ops[1..])
  }

  /** The simple model: a file is a map from positions to bytes. */
  ghost function Bytes(d: seq<byte>): map<nat, byte> { map i: nat | i < |d| :: d[i] }

  /** `count` positions from `pos` on. */
  ghost function Positions(pos: nat, count: nat): (r: set<nat>)
    ensures |r| == count && forall i :: i in r <==> pos <= i < pos + count
  {
    if count == 0 then {} else Positions(pos, count - 1) + {pos + count - 1}
  }

  ghost function Overlay(pos: nat, buf: seq<byte>): map<nat, byte> {
    map i | i in Positions(pos, |buf|) :: buf[i - pos]
  }

  datatype PlainFile = PlainFile(bytes: map<nat, byte>, pos: nat)

  ghost function PlainStep(s: PlainFile, op: FileOp): PlainFile {
    match op
    case Write(buf) =>
      PlainFile(s.bytes + Overlay(s.pos, buf), s.pos + |buf|)
    case Read(len) =>
      var left := |set i: nat | i in s.bytes && s.pos <= i|;
      PlainFile(s.bytes, s.pos + if len < left then len else left)
    case Seek(p) => PlainFile(s.bytes, p)
  }

  ghost function PlainRun(s: PlainFile, ops: seq<FileOp>): PlainFile
    decreases |ops|
  {
    if ops == [] then s else PlainRun(PlainStep(s, ops[0]), ops[1..])
  }

  lemma WriteIsOverlay(d: seq<byte>, pos: nat, buf: seq<byte>)
    requires pos <= |d|
    ensures Bytes(Spliced(d, pos, buf)) == Bytes(d) + Overlay(pos, buf)
  {
    var r := Spliced(d, pos, buf);
    if buf == [] {
      assert r == d;
    } else {
      WriteLands(d, pos, buf);
      forall i: nat | pos <= i < pos + |buf| ensures r[i] == buf[i - pos] {
        assert r[pos + (i - pos)] == buf[i - pos];
      }
    }
  }

  ghost function Plain(s: FileState): PlainFile { PlainFile(Bytes(s.data), s.pos) }

  lemma PlainStepAgrees(s: FileState, op: FileOp)
    requires op.Read? ==> s.pos <= |s.data|
    ensures PlainStep(Plain(s), op) == Plain(Step(s, op))
       <==> (op.Write? && op.buf != [] ==> s.pos <= |s.data|)
  {
    hide Spliced;
    match op {
      case Write(buf) =>
        if s.pos <= |s.data| {
          WriteIsOverlay(s.data, s.pos, buf);
        } else {
          WriteStrays(s.data, s.pos, buf);
        }
      case Read(len) =>
        assert (set i: nat | i in Bytes(s.data) && s.pos <= i) == Positions(s.pos, |s.data| - s.pos);
      case Seek(p) =>
    }
  }

  lemma WriteStrays(d: seq<byte>, pos: nat, buf: seq<byte>)
    requires pos > |d|
    ensures Bytes(Spliced(d, pos, buf)) == Bytes(d) + Overlay(pos, buf) <==> buf == []
  {
    if buf == [] {
      assert d + buf == d;
    } else {
      var last := pos + |buf| - 1;
      assert last in Overlay(pos, buf) && last !in Bytes(Spliced(d, pos, buf));
    }
  }

  /** The vector and the map stay the same file at every step of the run. */
  ghost predicate InStep(s: FileState, p: PlainFile, ops: seq<FileOp>)
    requires ReadsInside(s, ops)
    decreases |ops|
  {
    p == Plain(s) && (ops == [] || InStep(Step(s, ops[0]), PlainStep(p, ops[0]), ops[1..]))
  }

  /** Over every run of reads, writes and seeks: the byte vector is the map of positions at
      every step exactly when no byte is written past the end. */
  lemma {:induction false} RunAgrees(s: FileState, ops: seq<FileOp>)
    requires ReadsInside(s, ops)
    ensures InStep(s, Plain(s), ops) <==> WritesInside(s, ops)
    ensures WritesInside(s, ops) ==> PlainRun(Plain(s), ops) == Plain(Run(s, ops))
    decreases |ops|
  {
    hide Plain, Step, PlainStep;
    if ops != [] {
      PlainStepAgrees(s, ops[0]);
      var t := Step(s, ops[0]);
      RunAgrees(t, ops[1..]);
      if PlainStep(Plain(s), ops[0]) != Plain(t) { assert !InStep(t, PlainStep(Plain(s), ops[0]), ops[1..]); }
    }
  }

  /** `n` bytes from `pos` on. */
  function Chunk(d: seq<byte>, pos: nat, n: nat): seq<byte>
    requires pos + n <= |d|
  {
    d[pos..pos + n]
  }

  /** What reading in chunks of the given lengths delivers. */
  function ReadChunks(d: seq<byte>, pos: nat, lens: seq<nat>): seq<byte>
    requires pos <= |d|
    decreases |lens|
  {
    if lens == [] then []
    else
      var n := ReadLength(|d|, pos, lens[0]);
      Chunk(d, pos, n) + ReadChunks(d, pos + n, lens[1..])
  }

  function Total(lens: seq<nat>): nat { if lens == [] then 0 else lens[0] + Total(lens[1..]) }

  /** Reading in any chunks delivers the bytes from the position on. */
  lemma {:induction false} ChunksConcatenate(d: seq<byte>, pos: nat, lens: seq<nat>)
    requires pos <= |d|
    ensures ReadChunks(d, pos, lens) == Chunk(d, pos, ReadLength(|d|, pos, Total(lens)))
    decreases |lens|
  {
    hide ReadLength, Chunk;
    if lens == [] {
      NoRead(d, pos);
    } else {
      var n := ReadLength(|d|, pos, lens[0]);
      ChunksConcatenate(d, pos + n, lens[1..]);
      TwoReads(d, pos, lens[0], Total(lens[1..]));
    }
  }

  lemma NoRead(d: seq<byte>, pos: nat)
    requires pos <= |d|
    ensures Chunk(d, pos, ReadLength(|d|, pos, 0)) == []
  {
  }

  lemma TwoReads(d: seq<byte>, pos: nat, a: nat, b: nat)
    requires pos <= |d|
    ensures var n := ReadLength(|d|, pos, a);
            Chunk(d, pos, n) + Chunk(d, pos + n, ReadLength(|d|, pos + n, b))
            == Chunk(d, pos, ReadLength(|d|, pos, a + b))
  {
    var n := ReadLength(|d|, pos, a);
    assert n + ReadLength(|d|, pos + n, b) == ReadLength(|d|, pos, a + b);
  }

  // ---- Space ----------------------------------------------------------------------

  function Used(st: Store): nat { if st == [] then 0 else |st[0].value.data| + Used(st[1..]) }

  lemma {:induction false} UsedAfterPut(st: Store, p: string, e: FileEntry)
    requires Ascending(st)
    ensures Used(Put(st, p, e)) == Used(st) - |Content(st, p)| + |e.data|
    ensures |Content(st, p)| <= Used(st)
  {
    var r := Put(st, p, e);
    if st != [] {
      if p == st[0].key {
        assert r[1..] == st[1..];
      } else if Less(p, st[0].key) {
        assert r[1..] == st;
        forall i | 0 <= i < |st| ensures st[i].key != p {
          LessIrreflexive(p);
          if i > 0 { LessTransitive(p, st[0].key, st[i].key); }
        }
        LookupAbsent(st, p);
      } else {
        UsedAfterPut(st[1..], p, e);
        assert r[1..] == Put(st[1..], p, e);
      }
    } else {
      assert r[1..] == [];
    }
  }

  lemma {:induction false} UsedAfterErase(st: Store, p: string)
    ensures Used(Erase(st, p)) == Used(st) - |Content(st, p)|
  {
    if st != [] && st[0].key != p {
      UsedAfterErase(st[1..], p);
      assert Erase(st, p)[1..] == Erase(st[1..], p);
    }
  }

  /** What `write` leaves in the store. */
  function Written(st: Store, p: string, pos: nat, buf: seq<byte>): Store {
    var e := match Lookup(st, p) case Some(e) => e case None => EMPTY_FILE;
    Put(st, p, e.(data := Spliced(e.data, pos, buf)))
  }

  /** A write changes the used space by exactly the growth of its file. */
  lemma WriteUses(st: Store, p: string, pos: nat, buf: seq<byte>)
    requires Ascending(st)
    ensures Used(Written(st, p, pos, buf)) - Used(st) == |Spliced(Content(st, p), pos, buf)| - |Content(st, p)|
    ensures Content(Written(st, p, pos, buf), p) == Spliced(Content(st, p), pos, buf)
    ensures forall q :: q != p ==> Lookup(Written(st, p, pos, buf), q) == Lookup(st, q)
  {
    var e := match Lookup(st, p) case Some(e) => e case None => EMPTY_FILE;
    UsedAfterPut(st, p, e.(data := Spliced(e.data, pos, buf)));
    PutLaws(st, p, e.(data := Spliced(e.data, pos, buf)));
  }

  /** What `rename` leaves in the store, for a source that exists. */
  function Renamed(st: Store, from: string, to: string): Store
    requires Lookup(st, from).Some?
  {
    Erase(Put(st, to, Lookup(st, from).value), from)
  }

  /** Renaming moves the entry and releases what it replaces; onto the same path it deletes the file. */
  lemma RenameMoves(st: Store, from: string, to: string)
    requires Ascending(st) && Lookup(st, from).Some?
    ensures var r := Renamed(st, from, to);
      && Lookup(r, from) == None
      && (Lookup(r, to) == Lookup(st, from) <==> from != to)
      && (forall q :: q != from && q != to ==> Lookup(r, q) == Lookup(st, q))
      && Used(r) == Used(st) - |Content(st, to)|
  {
    var e := Lookup(st, from).value;
    PutLaws(st, to, e);
    EraseLaws(Put(st, to, e), from);
    UsedAfterPut(st, to, e);
    UsedAfterErase(Put(st, to, e), from);
  }

  // ---- Listing a directory ------------------------------------------------------------

  function Prefix(dir: string): string { if dir == "/" then "/" else dir + "/" }

  /** The test `openNextFile` makes on each stored path. */
  predicate IsChild(dir: string, k: string) {
    Prefix(dir) <= k && k != dir && '/' !in k[|Prefix(dir)|..]
  }

  function Children(st: Store, dir: string): seq<string> {
    if st == [] then []
    else (if IsChild(dir, st[0].key) then [st[0].key] else []) + Children(st[1..], dir)
  }

  /** `k` names something directly in `dir`: the directory, a slash and a name. */
  ghost predicate LiesIn(dir: string, k: string) {
    exists name: string :: name != "" && '/' !in name && k == (if dir == "/" then "/" + name else dir + "/" + name)
  }

  /** On good paths the string test means just that. */
  lemma ChildLiesIn(dir: string, k: string)
    requires GoodPath(dir) && GoodPath(k)
    ensures IsChild(dir, k) <==> LiesIn(dir, k)
  {
    var n := |Prefix(dir)|;
    if IsChild(dir, k) {
      assert k == Prefix(dir) + k[n..];
    }
    if name: string :| name != "" && '/' !in name && k == (if dir == "/" then "/" + name else dir + "/" + name) {
      assert k[n..] == name;
      if dir != "/" { assert |k| > |dir|; }
    }
  }

  /** The last slash is the only one with none behind it, so nothing lies in two directories. */
  lemma OneParent(a: string, b: string, k: string)
    requires GoodPath(a) && GoodPath(b) && IsChild(a, k) && IsChild(b, k)
    ensures a == b
  {
    var p, q := Prefix(a), Prefix(b);
    LastSlash(k, p);
    LastSlash(k, q);
    assert |p| == |q|;
    assert p == k[..|p|] == q;
    if a != "/" { assert (a + "/")[..|a|] == a; }
    if b != "/" { assert (b + "/")[..|b|] == b; }
  }

  lemma LastSlash(k: string, p: string)
    requires p != "" && p[|p| - 1] == '/' && p <= k && '/' !in k[|p|..]
    ensures k[|p| - 1] == '/' && forall m :: |p| <= m < |k| ==> k[m] != '/'
  {
    assert forall m :: |p| <= m < |k| ==> k[m] == k[|p|..][m - |p|];
  }

  /** A listing holds the children of the directory, each once, in ascending order. */
  lemma {:induction false} ListingIsExact(st: Store, dir: string)
    requires GoodStore(st) && GoodPath(dir)
    ensures forall k :: k in Children(st, dir) <==> Lookup(st, k).Some? && LiesIn(dir, k)
    ensures forall i, j :: 0 <= i < j < |Children(st, dir)| ==> Less(Children(st, dir)[i], Children(st, dir)[j])
  {
    if st != [] {
      var k0 := st[0].key;
      ListingIsExact(st[1..], dir);
      ChildLiesIn(dir, k0);
      var c, rest := Children(st, dir), Children(st[1..], dir);
      forall k | k in rest ensures Less(k0, k) {
        var i := LookupIndex(st[1..], k);
        assert st[i + 1].key == k;
      }
      LessIrreflexive(k0);
      if IsChild(dir, k0) { assert c == [k0] + rest; } else { assert c == rest; }
    }
  }

  /** A file put into a directory is in its listing. */
  lemma NewFileIsListed(st: Store, dir: string, name: string, e: FileEntry)
    requires GoodStore(st) && GoodPath(dir) && name != "" && '/' !in name
    ensures var k := if dir == "/" then "/" + name else dir + "/" + name;
            GoodPath(k) && Normal(k) == k && k in Children(Put(st, k, e), dir)
  {
    var k := if dir == "/" then "/" + name else dir + "/" + name;
    NormalIsGood(k);
    PutKeepsStore(st, k, e);
    PutLaws(st, k, e);
    assert LiesIn(dir, k);
    ListingIsExact(Put(st, k, e), dir);
  }

  /** `test_sd_mmc.cpp`: a directory with two files lists these two. */
  lemma MyDirectory(a: FileEntry, b: FileEntry, c: FileEntry)
    ensures Children([Entry("/mydir", a), Entry("/mydir/one.txt", b), Entry("/mydir/two.txt", c)], "/mydir")
         == ["/mydir/one.txt", "/mydir/two.txt"]
  {
    var dir := "/mydir";
    ChildOf(dir, "one.txt");
    ChildOf(dir, "two.txt");
    assert dir + "/" + "one.txt" == "/mydir/one.txt" && dir + "/" + "two.txt" == "/mydir/two.txt";
    OneChild(Entry("/mydir/two.txt", c), [], dir);
    OneChild(Entry("/mydir/one.txt", b), [Entry("/mydir/two.txt", c)], dir);
    OneChild(Entry("/mydir", a), [Entry("/mydir/one.txt", b), Entry("/mydir/two.txt", c)], dir);
  }

  lemma ChildOf(dir: string, name: string)
    requires dir != "/" && name != "" && '/' !in name
    ensures IsChild(dir, dir + "/" + name) && !IsChild(dir, dir)
  {
    assert (dir + "/" + name)[|dir| + 1..] == name;
  }

  lemma OneChild(e: Entry<FileEntry>, st: Store, dir: string)
    ensures Children([e] + st, dir) == (if IsChild(dir, e.key) then [e.key] else []) + Children(st, dir)
  {
    assert ([e] + st)[1..] == st;
  }

  /** The path the `n`-th call of `openNextFile` on a fresh handle opens, if any. */
  function NthChild(st: Store, dir: string, n: nat): Option<string> {
    var c := Children(st, dir);
    if n < |c| then Some(c[n]) else None
  }
}

/** The mock itself: a shared store, file handles over it, and the card object. */
module SdMmc {
  import opened MachineInts
  import opened Wrappers
  import opened OrderedMaps
  import opened SdModel

  method NormPath(p: string) returns (s: string)
    ensures s == Normal(p) && GoodPath(s)
  {
    s := p;
    if s == "" || s[0] != '/' { s := "/" + s; }
    NormalIsGood(p);
    while |s| > 1 && s[|s| - 1] == '/'
      invariant Trimmed(s) == Normal(p)
    {
      s := s[..|s| - 1];
    }
  }

  /** The map all handles share. */
  class Storage {
    var entries: Store

    ghost predicate Valid()
      reads this
    {
      GoodStore(entries)
    }

    constructor ()
      ensures Valid() && entries == []
    {
      entries := [];
    }
  }

  class SdmmcFile {
    const st: Storage
    const path: string
    const writeMode: bool
    var valid: bool
    var isDir: bool
    var pos: nat
    var dirIdx: nat

    /** A default-constructed handle. */
    constructor Invalid(st: Storage)
      ensures this.st == st && path == "" && !writeMode && !valid && !isDir && pos == 0 && dirIdx == 0
    {
      this.st, path, writeMode := st, "", false;
      valid, isDir, pos, dirIdx := false, false, 0, 0;
    }

    constructor Open(st: Storage, path: string, write: bool, append: bool)
      requires st.Valid() && GoodPath(path)
      modifies st
      ensures this.st == st && this.path == path && writeMode == write && dirIdx == 0
      ensures st.Valid()
      ensures write ==> (
        && valid && !isDir && pos == |Content(st.entries, path)|
        && var e := match Lookup(old(st.entries), path) case Some(e) => e case None => EMPTY_FILE;
           st.entries == Put(old(st.entries), path, if append then e else e.(data := [])))
      ensures !write ==> (
        && st.entries == old(st.entries) && pos == 0
        && valid == Lookup(st.entries, path).Some?
        && isDir == (valid && Lookup(st.entries, path).value.isDir))
    {
      this.st, this.path, writeMode := st, path, write;
      valid, isDir, pos, dirIdx := true, false, 0, 0;
      new;
      var it := Lookup(st.entries, path);
      if write {
        var e := match it case Some(e) => e case None => EMPTY_FILE;
        if !append { e := e.(data := []); }
        PutLaws(st.entries, path, e);
        PutKeepsStore(st.entries, path, e);
        st.entries := Put(st.entries, path, e);
        pos := |e.data|;
      } else if it == None {
        valid := false;
      } else {
        isDir := it.value.isDir;
      }
    }

    method Size() returns (n: nat)
      ensures n == |Content(st.entries, path)|
    {
      var it := Lookup(st.entries, path);
      n := match it case Some(e) => |e.data| case None => 0;
    }

    method ReadByte() returns (b: int)
      modifies this
      ensures if old(pos) < |Content(st.entries, path)|
              then b == Content(st.entries, path)[old(pos)] && pos == old(pos) + 1
              else b == -1 && pos == old(pos)
      ensures valid == old(valid) && isDir == old(isDir) && dirIdx == old(dirIdx)
    {
      var it := Lookup(st.entries, path);
      if it == None || pos >= |it.value.data| { return -1; }
      b := it.value.data[pos];
      pos := pos + 1;
    }

    /** Past the end the source subtracts unsigned numbers and reads foreign memory. */
    method ReadInto(len: nat) returns (buf: seq<byte>)
      requires pos <= |Content(st.entries, path)| || Lookup(st.entries, path) == None
      modifies this
      ensures Lookup(st.entries, path) == None ==> buf == [] && pos == old(pos)
      ensures Lookup(st.entries, path).Some? ==>
        var d := Content(st.entries, path);
        && buf == d[old(pos)..old(pos) + ReadLength(|d|, old(pos), len)]
        && pos == old(pos) + ReadLength(|d|, old(pos), len)
      ensures valid == old(valid) && isDir == old(isDir) && dirIdx == old(dirIdx)
    {
      var it := Lookup(st.entries, path);
      if it == None { return []; }
      var avail := |it.value.data| - pos;
      var n := if len < avail then len else avail;
      buf := it.value.data[pos..pos + n];
      pos := pos + n;
    }

    method Write(buf: seq<byte>) returns (n: nat)
      requires st.Valid() && GoodPath(path)
      modifies this, st
      ensures st.Valid()
      ensures !writeMode ==> n == 0 && st.entries == old(st.entries) && pos == old(pos)
      ensures writeMode ==> (
        && n == |buf| && pos == old(pos) + |buf|
        && st.entries == Written(old(st.entries), path, old(pos), buf))
      ensures valid == old(valid) && isDir == old(isDir) && dirIdx == old(dirIdx)
    {
      if !writeMode { return 0; }
      var it := Lookup(st.entries, path);
      var e := match it case Some(e) => e case None => EMPTY_FILE;
      var d := e.data;
      if pos < |d| {
        var overwrite := if |buf| < |d| - pos then |buf| else |d| - pos;
        d := d[..pos] + buf[..overwrite] + d[pos + overwrite..];
        if |buf| > overwrite { d := d + buf[overwrite..]; }
      } else {
        d := d + buf;
      }
      assert d == Spliced(e.data, pos, buf);
      PutKeepsStore(st.entries, path, e.(data := d));
      st.entries := Put(st.entries, path, e.(data := d));
      pos := pos + |buf|;
      n := |buf|;
    }

    method Seek(p: nat)
      modifies this
      ensures pos == p && valid == old(valid) && isDir == old(isDir) && dirIdx == old(dirIdx)
    {
      pos := p;
    }

    /** The next child of the directory, or an invalid handle once there is none. */
    method OpenNextFile() returns (f: SdmmcFile)
      requires st.Valid()
      modifies this, st
      ensures fresh(f) && f.st == st && valid == old(valid) && isDir == old(isDir) && pos == old(pos)
      ensures st.entries == old(st.entries)
      ensures match if isDir then NthChild(st.entries, path, old(dirIdx)) else None
              case Some(k) => f.valid && f.path == k && dirIdx == old(dirIdx) + 1
              case None => !f.valid && dirIdx == old(dirIdx)
    {
      if !isDir {
        f := new SdmmcFile.Invalid(st);
        return;
      }
      var prefix := if path == "/" then "/" else path + "/";
      var idx := 0;
      var m := st.entries;
      for i := 0 to |m|
        invariant st.entries == m && Children(m, path) == Children(m[..i], path) + Children(m[i..], path)
        invariant idx == |Children(m[..i], path)| && idx <= dirIdx
        invariant dirIdx == old(dirIdx) && isDir && valid == old(valid) && pos == old(pos)
      {
        var k := m[i].key;
        ChildrenSplit(m, path, i);
        if prefix <= k && k != path && '/' !in k[|prefix|..] {
          if idx == dirIdx {
            dirIdx := dirIdx + 1;
            NextIsListed(m, path, i);
            f := new SdmmcFile.Open(st, k, false, false);
            return;
          }
          idx := idx + 1;
        }
      }
      assert m[..|m|] == m && m[|m|..] == [];
      f := new SdmmcFile.Invalid(st);
    }
  }

  lemma {:induction false} ChildrenConcat(a: Store, b: Store, dir: string)
    ensures Children(a + b, dir) == Children(a, dir) + Children(b, dir)
  {
    if a == [] {
      assert a + b == b;
    } else {
      assert (a + b)[1..] == a[1..] + b;
      ChildrenConcat(a[1..], b, dir);
    }
  }

  lemma ChildrenSplit(m: Store, dir: string, i: nat)
    requires i < |m|
    ensures Children(m, dir) == Children(m[..i + 1], dir) + Children(m[i + 1..], dir)
    ensures Children(m[..i + 1], dir) == Children(m[..i], dir) + if IsChild(dir, m[i].key) then [m[i].key] else []
  {
    ChildrenConcat(m[..i + 1], m[i + 1..], dir);
    assert m[..i + 1] + m[i + 1..] == m;
    ChildrenConcat(m[..i], [m[i]], dir);
    assert m[..i + 1] == m[..i] + [m[i]] && [m[i]][1..] == [];
  }

  lemma NextIsListed(m: Store, dir: string, i: nat)
    requires GoodStore(m) && i < |m| && IsChild(dir, m[i].key)
    ensures NthChild(m, dir, |Children(m[..i], dir)|) == Some(m[i].key)
    ensures Lookup(m, m[i].key).Some?
  {
    ChildrenSplit(m, dir, i);
    LookupAt(m, i);
  }

  class SdMmcClass {
    const st: Storage

    constructor (st: Storage)
      ensures this.st == st
    {
      this.st := st;
    }

    method End()
      modifies st
      ensures st.Valid() && st.entries == []
    {
      st.entries := [];
    }

    method Open(path: string, mode: string) returns (f: SdmmcFile)
      requires st.Valid()
      modifies st
      ensures fresh(f) && f.st == st && f.path == Normal(path) && st.Valid()
      ensures f.writeMode == ('w' in mode || 'a' in mode)
      ensures !f.writeMode ==> st.entries == old(st.entries)
      ensures f.writeMode ==> (
        && f.valid && f.pos == |Content(st.entries, f.path)|
        && ('a' in mode ==> Content(st.entries, f.path) == Content(old(st.entries), f.path))
        && ('a' !in mode ==> Content(st.entries, f.path) == [])
        && (var was := Lookup(old(st.entries), f.path);
            Lookup(st.entries, f.path)
            == Some(FileEntry(if 'a' in mode && was.Some? then was.value.data else [], was.Some? && was.value.isDir)))
        && (forall q :: q != f.path ==> Lookup(st.entries, q) == Lookup(old(st.entries), q)))
    {
      var p := NormPath(path);
      var write := 'w' in mode;
      var append := 'a' in mode;
      ghost var e := match Lookup(st.entries, p) case Some(e) => e case None => EMPTY_FILE;
      PutLaws(st.entries, p, if append then e else e.(data := []));
      f := new SdmmcFile.Open(st, p, write || append, append);
    }

    method Exists(path: string) returns (b: bool)
      ensures b == Lookup(st.entries, Normal(path)).Some?
    {
      var p := NormPath(path);
      b := Lookup(st.entries, p).Some?;
    }

    method Mkdir(path: string)
      requires st.Valid()
      modifies st
      ensures st.Valid()
      ensures var e := match Lookup(old(st.entries), Normal(path)) case Some(e) => e case None => EMPTY_FILE;
              st.entries == Put(old(st.entries), Normal(path), e.(isDir := true))
    {
      var p := NormPath(path);
      var it := Lookup(st.entries, p);
      var e := match it case Some(e) => e case None => EMPTY_FILE;
      PutKeepsStore(st.entries, p, e.(isDir := true));
      st.entries := Put(st.entries, p, e.(isDir := true));
    }

    method Remove(path: string) returns (b: bool)
      requires st.Valid()
      modifies st
      ensures st.Valid() && st.entries == Erase(old(st.entries), Normal(path))
      ensures b == Lookup(old(st.entries), Normal(path)).Some?
    {
      var p := NormPath(path);
      EraseKeepsStore(st.entries, p);
      b := Lookup(st.entries, p).Some?;
      st.entries := Erase(st.entries, p);
    }

    method Rename(from: string, to: string) returns (b: bool)
      requires st.Valid()
      modifies st
      ensures st.Valid()
      ensures b == Lookup(old(st.entries), Normal(from)).Some?
      ensures st.entries == if b then Renamed(old(st.entries), Normal(from), Normal(to)) else old(st.entries)
    {
      var pf := NormPath(from);
      var pt := NormPath(to);
      var it := Lookup(st.entries, pf);
      if it == None { return false; }
      PutKeepsStore(st.entries, pt, it.value);
      st.entries := Put(st.entries, pt, it.value);
      EraseKeepsStore(st.entries, pf);
      st.entries := Erase(st.entries, pf);
      b := true;
    }

    method UsedBytes() returns (total: nat)
      ensures total == Used(st.entries)
    {
      total := 0;
      for i := 0 to |st.entries|
        invariant total + Used(st.entries[i..]) == Used(st.entries)
      {
        total := total + |st.entries[i].value.data|;
        assert st.entries[i..][1..] == st.entries[i + 1..];
      }
    }
  }

  /** What is opened for writing in a directory is listed there. */
  method MakeFile(sd: SdMmcClass, dir: string, name: string) returns (f: SdmmcFile)
    requires sd.st.Valid() && GoodPath(dir) && name != "" && '/' !in name
    modifies sd.st
    ensures sd.st.Valid() && f.path == (if dir == "/" then "/" + name else dir + "/" + name)
    ensures f.path in Children(sd.st.entries, dir)
  {
    NewFileIsListed([], dir, name, EMPTY_FILE);
    f := sd.Open(if dir == "/" then "/" + name else dir + "/" + name, "w");
    assert LiesIn(dir, f.path);
    ListingIsExact(sd.st.entries, dir);
  }

  /** A sketch's listing loop: on an unchanged store it meets every child once, in order, and then stops for good. */
  method ListDirectory(dir: SdmmcFile) returns (names: seq<string>)
    requires dir.st.Valid() && GoodPath(dir.path) && dir.isDir && dir.dirIdx == 0
    modifies dir, dir.st
    ensures dir.st.entries == old(dir.st.entries) && names == Children(dir.st.entries, dir.path)
    ensures dir.isDir && NthChild(dir.st.entries, dir.path, dir.dirIdx) == None
  {
    names := [];
    ghost var all := Children(dir.st.entries, dir.path);
    while true
      invariant dir.st.entries == old(dir.st.entries) && dir.st.Valid() && dir.isDir
      invariant dir.dirIdx <= |all| && names == all[..dir.dirIdx]
      decreases |all| - dir.dirIdx
    {
      var f := dir.OpenNextFile();
      if !f.valid { break; }
      names := names + [f.path];
    }
  }
}
