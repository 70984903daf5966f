/** Chained hash tables as values, and the hash function, of src/o2node.cpp. */
module HashChains {
  import opened Bytes

  /** A name without its zero padding: no byte is zero. */
  type Key = k: seq<Byte> | forall i :: 0 <= i < |k| ==> k[i] != 0

  datatype Entry = Entry(key: Key, id: nat)

  type Table = seq<seq<Entry>>

  // ---------------------------------------------------------------------
  // The hash function
  // ---------------------------------------------------------------------

  const TWO_32 := 0x1_0000_0000
  const TWO_64 := 0x1_0000_0000_0000_0000
  const SCRAMBLE := 2686453351680

  /** Zero padding to a word boundary, at least one zero. */
  function Padded(key: Key): (p: seq<Byte>)
    ensures |p| % 4 == 0 && |p| == |key| / 4 * 4 + 4
  {
    key + seq(4 - |key| % 4, _ => 0 as Byte)
  }

  /** A little-endian word as a signed 32-bit integer. */
  function Word(a: Byte, b: Byte, c: Byte, d: Byte): int {
    a as int + 256 * b as int + 65536 * c as int + 16777216 * (if d < 128 then d as int else d as int - 256)
  }

  function Mix(hash: nat, word: int): (h: nat)
    ensures h < TWO_32
  {
    var x := (hash + word) % TWO_64 * SCRAMBLE % TWO_64;
    Quotient(x);
    x / TWO_32
  }

  lemma Quotient(x: int)
    requires 0 <= x < TWO_64
    ensures 0 <= x / TWO_32 < TWO_32
  {
  }

  /** The words of a padded key, mixed in order. */
  function HashFrom(p: seq<Byte>, hash: nat): (h: nat)
    requires hash < TWO_32 && |p| % 4 == 0
    ensures h < TWO_32
    decreases |p|
  {
    if p == [] then hash else HashFrom(p[4..], Mix(hash, Word(p[0], p[1], p[2], p[3])))
  }

  function Hash(key: Key): (h: nat)
    ensures h < TWO_32
  {
    HashFrom(Padded(key), 0)
  }

  /** The hashes of "a" and of "abcd", which has a second word of zeros. */
  lemma KnownHashes()
    ensures Hash([97]) == 60672 && Hash([97, 98, 99, 100]) == 728737585
  {
    var p := [97 as Byte, 0, 0, 0];
    assert Padded([97]) == p && p[4..] == [];
    assert Word(97, 0, 0, 0) == 97 && Mix(0, 97) == 60672;
    assert HashFrom(p, 0) == HashFrom([], 60672);
    var q := [97 as Byte, 98, 99, 100, 0, 0, 0, 0];
    assert Padded([97, 98, 99, 100]) == q && q[4..] == [0, 0, 0, 0] && q[4..][4..] == [];
    assert Word(97, 98, 99, 100) == 1684234849 && Mix(0, 1684234849) == 1202816388;
    assert Word(0, 0, 0, 0) == 0 && Mix(1202816388, 0) == 728737585;
    assert HashFrom(q[4..], 1202816388) == HashFrom([], 728737585);
    assert HashFrom(q, 0) == HashFrom(q[4..], 1202816388);
  }

  /** Only the last word of a padded key ends in a zero byte. */
  lemma LastByteOfWord(key: Key, i: nat)
    requires i % 4 == 0 && i < |Padded(key)|
    ensures i + 4 <= |Padded(key)|
    ensures Padded(key)[i + 3] != 0 <==> i + 4 < |Padded(key)|
  {
    var q, r := i / 4, |key| / 4;
    assert i == 4 * q && |Padded(key)| == 4 * r + 4;
    assert q <= r;
    if q < r { assert i + 3 < |key|; }
  }

  /** `get_hash`: words are read until one ends in a zero byte; for a padded
      key that is the last word, and nothing beyond it is read. */
  method GetHash(key: Key) returns (hash: nat)
    ensures hash == Hash(key)
  {
    hide Mix, Padded, Word;
    var p := Padded(key);
    hash := 0;
    var i := 0;
    var more := true;
    while more
      invariant 0 <= i <= |p| && i % 4 == 0 && hash < TWO_32 && |p[i..]| % 4 == 0
      invariant more == (i < |p|)
      invariant HashFrom(p[i..], hash) == Hash(key)
      decreases |p| - i
    {
      LastByteOfWord(key, i);
      hash := Mix(hash, Word(p[i], p[i + 1], p[i + 2], p[i + 3]));
      assert p[i..][4..] == p[i + 4..];
      more := p[i + 3] != 0;
      i := i + 4;
    }
    assert p[i..] == [];
  }

  function Bucket(key: Key, n: nat): (b: nat)
    requires n > 0
    ensures b < n
  {
    Hash(key) % n
  }

  // ---------------------------------------------------------------------
  // Tables and the maps they stand for
  // ---------------------------------------------------------------------

  ghost predicate Holds(t: Table, e: Entry) {
    |t| > 0 && e in t[Bucket(e.key, |t|)]
  }

  ghost predicate Placed(t: Table) {
    forall b, i :: 0 <= b < |t| && 0 <= i < |t[b]| ==> Bucket(t[b][i].key, |t|) == b
  }

  ghost predicate DistinctKeys(es: seq<Entry>) {
    forall i, j :: 0 <= i < j < |es| ==> es[i].key != es[j].key
  }

  ghost predicate Represents(t: Table, m: map<Key, nat>) {
    && Placed(t)
    && (forall b :: 0 <= b < |t| ==> DistinctKeys(t[b]))
    && (forall e :: Holds(t, e) <==> e.key in m && m[e.key] == e.id)
  }

  function Empty(n: nat): (t: Table)
    ensures |t| == n
  {
    seq(n, _ => [])
  }

  lemma EmptyRepresents(n: nat)
    ensures Represents(Empty(n), map[])
  {
    hide Bucket;
  }

  function Inserted(t: Table, b: nat, i: nat, e: Entry): Table
    requires b < |t| && i <= |t[b]|
  {
    t[b := t[b][..i] + [e] + t[b][i..]]
  }

  function Removed(t: Table, b: nat, i: nat): Table
    requires b < |t| && i < |t[b]|
  {
    t[b := t[b][..i] + t[b][i + 1..]]
  }

  lemma InsertedRepresents(t: Table, m: map<Key, nat>, b: nat, i: nat, e: Entry)
    requires Represents(t, m) && |t| > 0 && b == Bucket(e.key, |t|) && i <= |t[b]|
    requires e.key !in m
    ensures Represents(Inserted(t, b, i, e), m[e.key := e.id])
  {
    hide Bucket;
    var t' := Inserted(t, b, i, e);
    forall j | 0 <= j < |t[b]| ensures t[b][j].key != e.key {
      assert Holds(t, t[b][j]);
    }
    forall x ensures x in t'[b] <==> x in t[b] || x == e {
      assert t[b] == t[b][..i] + t[b][i..];
    }
    forall x ensures Holds(t', x) <==> Holds(t, x) || x == e {
      assert |t'| == |t|;
    }
  }

  lemma RemovedRepresents(t: Table, m: map<Key, nat>, b: nat, i: nat)
    requires Represents(t, m) && b < |t| && i < |t[b]|
    ensures t[b][i].key in m && Represents(Removed(t, b, i), m - {t[b][i].key})
  {
    hide Bucket;
    var t' := Removed(t, b, i);
    var e := t[b][i];
    assert Holds(t, e);
    forall x ensures x in t'[b] <==> x in t[b] && x != e {
      assert t[b] == t[b][..i] + [e] + t[b][i + 1..];
    }
    forall x ensures Holds(t', x) <==> Holds(t, x) && x != e {
      assert |t'| == |t|;
    }
  }

  // ---------------------------------------------------------------------
  // Enumeration
  // ---------------------------------------------------------------------

  function Flatten(t: Table): seq<Entry> {
    if t == [] then [] else t[0] + Flatten(t[1..])
  }

  /** The map built by inserting entries one after the other. */
  function MapOf(es: seq<Entry>): map<Key, nat>
    decreases |es|
  {
    if es == [] then map[]
    else var last := es[|es| - 1]; MapOf(es[..|es| - 1])[last.key := last.id]
  }

  lemma {:induction false} FlattenMembers(t: Table, e: Entry)
    ensures e in Flatten(t) <==> exists b :: 0 <= b < |t| && e in t[b]
  {
    if t != [] {
      FlattenMembers(t[1..], e);
      if b :| 0 <= b < |t| && e in t[b] {
        if b > 0 { assert e in t[1..][b - 1]; }
      }
      if e in Flatten(t[1..]) {
        var b :| 0 <= b < |t[1..]| && e in t[1..][b];
        assert e in t[b + 1];
      }
    }
  }

  /** Keys in different buckets differ, so a flattened table repeats no key. */
  lemma {:induction false} FlattenDistinct(t: Table, n: nat, from: nat)
    requires n > 0 && from + |t| <= n
    requires forall b, i :: 0 <= b < |t| && 0 <= i < |t[b]| ==> Bucket(t[b][i].key, n) == from + b
    requires forall b :: 0 <= b < |t| ==> DistinctKeys(t[b])
    ensures DistinctKeys(Flatten(t))
    ensures forall j :: 0 <= j < |Flatten(t)| ==> from <= Bucket(Flatten(t)[j].key, n)
    decreases |t|
  {
    hide Bucket;
    if t != [] {
      assert forall b :: 0 <= b < |t[1..]| ==> t[1..][b] == t[b + 1];
      FlattenDistinct(t[1..], n, from + 1);
      assert DistinctKeys(t[0]);
    }
  }

  lemma {:induction false} MapOfDistinct(es: seq<Entry>)
    requires DistinctKeys(es)
    ensures |MapOf(es)| == |es|
    ensures forall e :: e in es <==> e.key in MapOf(es) && MapOf(es)[e.key] == e.id
    decreases |es|
  {
    if es != [] {
      var init, last := es[..|es| - 1], es[|es| - 1];
      MapOfDistinct(init);
      assert es == init + [last];
      forall k | k in MapOf(init) ensures k != last.key {
        assert Entry(k, MapOf(init)[k]) in init;
      }
      assert MapOf(es).Keys == MapOf(init).Keys + {last.key};
    }
  }

  lemma FlattenNothing()
    ensures Flatten([]) == []
  {
  }

  /** Enumerating a table visits every entry of its map exactly once. */
  lemma FlattenIsTheMap(t: Table, m: map<Key, nat>)
    requires Represents(t, m)
    ensures DistinctKeys(Flatten(t)) && |Flatten(t)| == |m| && MapOf(Flatten(t)) == m
  {
    hide Bucket, Flatten, MapOf;
    var es := Flatten(t);
    if t == [] {
      FlattenNothing();
    } else {
      FlattenDistinct(t, |t|, 0);
    }
    MapOfDistinct(es);
    forall e ensures e in es <==> e.key in m && m[e.key] == e.id {
      FlattenMembers(t, e);
      assert Holds(t, e) <==> e in es;
    }
    forall k ensures k in m <==> k in MapOf(es) {
      if k in m { assert Entry(k, m[k]) in es; }
      if k in MapOf(es) { assert Entry(k, MapOf(es)[k]) in es; }
    }
    forall k | k in m ensures m[k] == MapOf(es)[k] {
      assert Entry(k, m[k]) in es;
    }
    assert MapOf(es) == m;
  }
}
