/** A value that may be missing. */
module Wrappers {
  datatype Option<+T> = None | Some(value: T)
}

/**
 `std::map<std::string, V>` as the C++ code sees it: a sequence of entries in
 strictly ascending key order, which is the order its iterators walk.
 */
module OrderedMaps {
  import opened Wrappers

  datatype Entry<+V> = Entry(key: string, value: V)

  /** `std::string::operator<`: lexicographic on bytes. */
  predicate Less(a: string, b: string) {
    b != "" && (a == "" || a[0] < b[0] || (a[0] == b[0] && Less(a[1..], b[1..])))
  }

  predicate Ascending<V>(m: seq<Entry<V>>) {
    forall i, j :: 0 <= i < j < |m| ==> Less(m[i].key, m[j].key)
  }

  /** `m.find(k)`. */
  function Lookup<V>(m: seq<Entry<V>>, k: string): Option<V> {
    if m == [] then None
    else if m[0].key == k then Some(m[0].value)
    else Lookup(m[1..], k)
  }

  /** `m[k] = v`. */
  function Put<V>(m: seq<Entry<V>>, k: string, v: V): seq<Entry<V>> {
    if m == [] then [Entry(k, v)]
    else if k == m[0].key then [Entry(k, v)] + m[1..]
    else if Less(k, m[0].key) then [Entry(k, v)] + m
    else [m[0]] + Put(m[1..], k, v)
  }

  /** `m.erase(k)`. */
  function Erase<V>(m: seq<Entry<V>>, k: string): seq<Entry<V>> {
    if m == [] then []
    else if m[0].key == k then m[1..]
    else [m[0]] + Erase(m[1..], k)
  }

  lemma {:induction false} LessIrreflexive(a: string)
    ensures !Less(a, a)
  {
    if a != "" { LessIrreflexive(a[1..]); }
  }

  lemma {:induction false} LessTransitive(a: string, b: string, c: string)
    requires Less(a, b) && Less(b, c)
    ensures Less(a, c)
  {
    if a != "" && a[0] == b[0] && b[0] == c[0] { LessTransitive(a[1..], b[1..], c[1..]); }
  }

  lemma {:induction false} LessTotal(a: string, b: string)
    ensures a == b || Less(a, b) || Less(b, a)
  {
    if a != "" && b != "" && a[0] == b[0] {
      LessTotal(a[1..], b[1..]);
      assert a == [a[0]] + a[1..] && b == [b[0]] + b[1..];
    }
  }

  /** In an ascending sequence every key is found at the one index that holds it. */
  lemma {:induction false} LookupAt<V>(m: seq<Entry<V>>, i: nat)
    requires Ascending(m) && i < |m|
    ensures Lookup(m, m[i].key) == Some(m[i].value)
  {
    if i > 0 {
      LessIrreflexive(m[i].key);
      LookupAt(m[1..], i - 1);
    }
  }

  lemma {:induction false} LookupIndex<V>(m: seq<Entry<V>>, k: string) returns (i: nat)
    requires Lookup(m, k).Some?
    ensures i < |m| && m[i] == Entry(k, Lookup(m, k).value)
  {
    if m[0].key == k {
      i := 0;
    } else {
      i := LookupIndex(m[1..], k);
      i := i + 1;
    }
  }

  /** `m[k] = v` is a map update that keeps the order. */
  lemma {:induction false} PutLaws<V>(m: seq<Entry<V>>, k: string, v: V)
    requires Ascending(m)
    ensures Ascending(Put(m, k, v))
    ensures forall q :: Lookup(Put(m, k, v), q) == if q == k then Some(v) else Lookup(m, q)
    ensures forall i :: 0 <= i < |Put(m, k, v)| ==> Put(m, k, v)[i] == Entry(k, v) || exists j :: 0 <= j < |m| && m[j] == Put(m, k, v)[i]
  {
    if m != [] {
      var p := Put(m, k, v);
      if k == m[0].key {
        assert p[1..] == m[1..];
      } else if Less(k, m[0].key) {
        forall j | 0 <= j < |m| ensures Less(k, m[j].key) {
          if j > 0 { LessTransitive(k, m[0].key, m[j].key); }
        }
        assert p[1..] == m;
      } else {
        LessTotal(k, m[0].key);
        PutLaws(m[1..], k, v);
        var q := Put(m[1..], k, v);
        assert p[1..] == q;
        forall i | 0 <= i < |q| ensures Less(m[0].key, q[i].key) {
          if q[i] != Entry(k, v) {
            var j :| 0 <= j < |m[1..]| && m[1..][j] == q[i];
          }
        }
      }
    }
  }

  /** `m.erase(k)` removes that key and nothing else. */
  lemma {:induction false} EraseLaws<V>(m: seq<Entry<V>>, k: string)
    requires Ascending(m)
    ensures Ascending(Erase(m, k))
    ensures forall q :: Lookup(Erase(m, k), q) == if q == k then None else Lookup(m, q)
    ensures forall i :: 0 <= i < |Erase(m, k)| ==> exists j :: 0 <= j < |m| && m[j] == Erase(m, k)[i]
  {
    if m != [] {
      var e := Erase(m, k);
      if m[0].key == k {
        forall i | 0 <= i < |m[1..]| ensures m[1..][i].key != k {
          LessIrreflexive(k);
        }
        LookupAbsent(m[1..], k);
      } else {
        EraseLaws(m[1..], k);
        assert e[1..] == Erase(m[1..], k);
      }
    }
  }

  lemma {:induction false} LookupAbsent<V>(m: seq<Entry<V>>, k: string)
    requires forall i :: 0 <= i < |m| ==> m[i].key != k
    ensures Lookup(m, k) == None
  {
    if m != [] { LookupAbsent(m[1..], k); }
  }

  /** Inserting keys in ascending order only ever appends. */
  lemma {:induction false} PutLast<V>(m: seq<Entry<V>>, k: string, v: V)
    requires Ascending(m + [Entry(k, v)])
    ensures Put(m, k, v) == m + [Entry(k, v)]
  {
    if m != [] {
      var whole := m + [Entry(k, v)];
      assert Less(whole[0].key, whole[|m|].key);
      LessIrreflexive(k);
      if Less(k, m[0].key) { LessTransitive(k, m[0].key, k); }
      assert whole[1..] == m[1..] + [Entry(k, v)];
      PutLast(m[1..], k, v);
    }
  }
}
