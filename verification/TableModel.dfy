// The value of a chained hash table, and the map it stands for.
module TableModel {
  import opened Bytes

  const COPRIME := 2837
  const MAX_HT_BUCKET := 503
  const PRIME := 0x7fff_ffff // 2^31 - 1

  datatype Key = Str(s: seq<byte>) | Num(n: u32)

  datatype Entry = Entry(key: Key, value: nat)

  /** Bucket i is the chain hung at data_map[i], head first. */
  datatype Table = Table(size: nat, buckets: seq<seq<Entry>>)

  // ----- hash -----

  /** The value of a C char (signed, as on the platforms the program names). */
  function SignedChar(c: byte): int {
    if c < 128 then c else c - 256
  }

  /** C's remainder, which truncates toward zero. */
  function CRem(a: int, m: nat): int
    requires m > 0
  {
    if a >= 0 then a % m else -((-a) % m)
  }

  /** The multiplier `number` after i characters. */
  function Number(size: nat, i: nat): (r: nat)
    requires size >= 2
    ensures i > 0 ==> r < size - 1
  {
    if i == 0 then 78 else COPRIME * Number(size, i - 1) % (size - 1)
  }

  /** `hash` after i characters. */
  function StrHash(s: seq<byte>, size: nat, i: nat): int
    requires size >= 2 && i <= |s|
  {
    if i == 0 then 0 else CRem(Number(size, i - 1) * StrHash(s, size, i - 1) + SignedChar(s[i - 1]), size)
  }

  /** Multiplication and addition are modulo 2^32; so is the table size's conversion. */
  function NumHash(n: u32, size: nat): nat
    requires size >= 2
  {
    (COPRIME * n + 78) % 0x1_0000_0000 % PRIME % size
  }

  predicate SizeOK(size: nat) {
    2 <= size <= MAX_HT_BUCKET
  }

  /** NUL-free strings of 7-bit characters, and 32-bit numbers. */
  predicate KeyOK(k: Key) {
    match k
    case Str(s) => |s| < 0x1_0000_0000_0000_0000 && forall i :: 0 <= i < |s| ==> 0 < s[i] < 128
    case Num(_) => true
  }

  lemma {:induction false} StrHashRange(s: seq<byte>, size: nat, i: nat)
    requires SizeOK(size) && KeyOK(Str(s)) && i <= |s|
    ensures 0 <= StrHash(s, size, i) < size
    decreases i
  {
    if i > 0 {
      StrHashRange(s, size, i - 1);
      var number, hash := Number(size, i - 1), StrHash(s, size, i - 1);
      MulBound(number, hash, if number < hash then hash else number);
      CRemRange(number * hash + SignedChar(s[i - 1]), size);
    }
  }

  lemma {:induction false} CRemRange(a: nat, m: nat)
    requires m > 0
    ensures 0 <= CRem(a, m) < m
  {
  }

  /** Whatever its bytes, a string hashes above minus the table size and below it. */
  lemma {:induction false} StrHashBounds(s: seq<byte>, size: nat, i: nat)
    requires SizeOK(size) && i <= |s|
    ensures 0 - size < StrHash(s, size, i) < size
    decreases i
  {
    if i > 0 {
      StrHashBounds(s, size, i - 1);
      CRemBounds(Number(size, i - 1) * StrHash(s, size, i - 1) + SignedChar(s[i - 1]), size);
    }
  }

  lemma {:induction false} CRemBounds(a: int, m: nat)
    requires m > 0
    ensures 0 - m < CRem(a, m) < m
  {
  }

  /** No step of the string loop leaves the range of a 32-bit int, whatever the bytes. */
  lemma {:induction false} StrLoopNoOverflow(s: seq<byte>, size: nat, i: nat)
    requires SizeOK(size) && i < |s|
    ensures -0x8000_0000 <= Number(size, i) * StrHash(s, size, i) < 0x8000_0000
    ensures -0x8000_0000 <= Number(size, i) * StrHash(s, size, i) + SignedChar(s[i]) < 0x8000_0000
    ensures COPRIME * Number(size, i) < 0x8000_0000
  {
    StrHashBounds(s, size, i);
    hide StrHash;
    ProductBound(Number(size, i), StrHash(s, size, i), 502);
    hide Number;
  }

  lemma {:induction false} ProductBound(x: nat, y: int, m: nat)
    requires x <= m && 0 - m <= y <= m
    ensures 0 - m * m <= x * y <= m * m
  {
    MulBound(x, if y < 0 then -y else y, m);
    if y < 0 {
      assert x * y == 0 - x * -y;
    }
  }

  /** The loop of the hash, for strings of 7-bit characters. */
  lemma {:induction false} StrHashStep(s: seq<byte>, size: nat, i: nat)
    requires SizeOK(size) && KeyOK(Str(s)) && i < |s|
    ensures StrHash(s, size, i) >= 0 && size >= 2
    ensures StrHash(s, size, i + 1) == (Number(size, i) * StrHash(s, size, i) + s[i]) % size
    ensures Number(size, i + 1) == COPRIME * Number(size, i) % (size - 1)
  {
    StrHashRange(s, size, i);
    var number, hash := Number(size, i), StrHash(s, size, i);
    MulBound(number, hash, if number < hash then hash else number);
    var sum := number * hash + s[i];
    assert StrHash(s, size, i + 1) == CRem(sum, size) == sum % size;
    hide *;
  }

  lemma {:induction false} StrHashStart(s: seq<byte>, size: nat)
    requires SizeOK(size)
    ensures size >= 2 && StrHash(s, size, 0) == 0 && Number(size, 0) == 78
  {
  }

  lemma {:induction false} MulBound(x: nat, y: nat, m: nat)
    requires x <= m && y <= m
    ensures 0 <= x * y <= m * m
  {
    assert x * y <= m * y <= m * m;
  }

  /** A character outside 7 bits can hash below zero, outside the table. */
  lemma {:induction false} HighByteHashesBelowZero()
    ensures StrHash([0x80], 503, 1) == -128
  {
    assert StrHash([0x80], 503, 0) == 0;
  }

  /** The bucket of a key. */
  function Hash(k: Key, size: nat): (h: nat)
    requires SizeOK(size) && KeyOK(k)
    ensures h < size
  {
    match k
    case Str(s) => StrHashRange(s, size, |s|); StrHash(s, size, |s|)
    case Num(n) => NumHash(n, size)
  }

  /** The argument of the number hash, built up in unsigned 32-bit steps. */
  ghost function Wrapped(n: nat): nat {
    if n == 0 then 78 else (Wrapped(n - 1) + 2837) % 0x1_0000_0000
  }

  lemma {:induction false} WrappedIs(n: nat)
    ensures Wrapped(n) == (2837 * n + 78) % 0x1_0000_0000
  {
    if n > 0 {
      WrappedIs(n - 1);
      WrapStep(2837 * (n - 1) + 78);
    }
  }

  lemma {:induction false} WrapStep(x: nat)
    ensures (x % 0x1_0000_0000 + 2837) % 0x1_0000_0000 == (x + 2837) % 0x1_0000_0000
  {
    var q, r := x / 0x1_0000_0000, x % 0x1_0000_0000;
    assert x + 2837 == q * 0x1_0000_0000 + (r + 2837);
  }

  /** The hash of a number is that of the wrapped word, by the prime 2^31 - 1 and then by the size. */
  lemma {:induction false} NumberHashWraps(n: u32, size: nat)
    requires SizeOK(size)
    ensures Hash(Num(n), size) == Wrapped(n) % 0x7fff_ffff % size
  {
    WrappedIs(n);
  }

  /** 2000000 is a key whose word wraps: without the wrap it would be in bucket 439. */
  lemma {:induction false} WrappingKey()
    ensures Hash(Num(2000000), 503) == 437 && (2837 * 2000000 + 78) % 0x7fff_ffff % 503 == 439
  {
    assert 2837 * 2000000 + 78 == 0x1_0000_0000 + 1379032782;
  }

  /** The buckets of two strings, and a negative hash that a second character leaves negative. */
  lemma {:induction false} StringBuckets()
    ensures Hash(Str([97, 98, 99]), 503) == 321 && Hash(Str([107, 101, 121]), 17) == 0
    ensures StrHash([0x80, 0x61], 503, 2) == -62
  {
    hide Hash, StrHash, Number;
    Bucket503();
    Bucket17();
    BucketBelowZero();
    HashIs([97, 98, 99], 503);
    HashIs([107, 101, 121], 17);
  }

  lemma {:induction false} HashIs(s: seq<byte>, size: nat)
    requires SizeOK(size) && KeyOK(Str(s))
    ensures Hash(Str(s), size) == StrHash(s, size, |s|)
  {
  }

  lemma {:induction false} HashNext(s: seq<byte>, size: nat, i: nat, number: nat, h: int)
    requires size >= 2 && i < |s| && Number(size, i) == number && StrHash(s, size, i) == h
    ensures Number(size, i + 1) == 2837 * number % (size - 1)
    ensures StrHash(s, size, i + 1) == CRem(number * h + SignedChar(s[i]), size)
  {
  }

  lemma {:induction false} HashStart(s: seq<byte>, size: nat)
    requires size >= 2
    ensures Number(size, 0) == 78 && StrHash(s, size, 0) == 0
  {
  }

  lemma {:induction false} Bucket503()
    ensures StrHash([97, 98, 99], 503, 3) == 321
  {
    hide StrHash, Number;
    var s: seq<byte> := [97, 98, 99];
    HashStart(s, 503);
    HashNext(s, 503, 0, 78, 0);
    HashNext(s, 503, 1, 406, 97);
    HashNext(s, 503, 2, 234, 246);
  }

  lemma {:induction false} Bucket17()
    ensures StrHash([107, 101, 121], 17, 3) == 0
  {
    hide StrHash, Number;
    var s: seq<byte> := [107, 101, 121];
    HashStart(s, 17);
    HashNext(s, 17, 0, 78, 0);
    HashNext(s, 17, 1, 6, 5);
    HashNext(s, 17, 2, 14, 12);
  }

  lemma {:induction false} BucketBelowZero()
    ensures StrHash([0x80, 0x61], 503, 2) == -62
  {
    hide StrHash, Number;
    var s: seq<byte> := [0x80, 0x61];
    HashStart(s, 503);
    HashNext(s, 503, 0, 78, 0);
    HashNext(s, 503, 1, 406, -128);
  }

  // ----- chains and tables -----

  /** The value of the first entry with key k in a chain. */
  function Find(chain: seq<Entry>, k: Key): Option<nat> {
    if |chain| == 0 then None
    else if chain[0].key == k then Some(chain[0].value)
    else Find(chain[1..], k)
  }

  /** The chain without the first entry that has key k. */
  function Remove(chain: seq<Entry>, k: Key): seq<Entry> {
    if |chain| == 0 then []
    else if chain[0].key == k then chain[1..]
    else [chain[0]] + Remove(chain[1..], k)
  }

  predicate Distinct(chain: seq<Entry>) {
    forall i, j :: 0 <= i < j < |chain| ==> chain[i].key != chain[j].key
  }

  /** Every entry sits in the bucket of its key, once. */
  ghost predicate TableOK(t: Table)
    ensures TableOK(t) ==> SizeOK(t.size) && |t.buckets| == t.size
  {
    && SizeOK(t.size) && |t.buckets| == t.size
    && (forall b, i :: 0 <= b < t.size && 0 <= i < |t.buckets[b]| ==>
          KeyOK(t.buckets[b][i].key) && Hash(t.buckets[b][i].key, t.size) == b)
    && (forall b :: 0 <= b < t.size ==> Distinct(t.buckets[b]))
  }

  function Get(t: Table, k: Key): Option<nat>
    requires SizeOK(t.size) && |t.buckets| == t.size && KeyOK(k)
  {
    Find(t.buckets[Hash(k, t.size)], k)
  }

  /** `set`: the key goes to the end of its chain, unless it is there already. */
  function Set(t: Table, k: Key, v: nat): Option<Table>
    requires SizeOK(t.size) && |t.buckets| == t.size && KeyOK(k)
  {
    var b := Hash(k, t.size);
    if Find(t.buckets[b], k).Some? then None
    else Some(t.(buckets := t.buckets[b := t.buckets[b] + [Entry(k, v)]]))
  }

  function Delete(t: Table, k: Key): Table
    requires SizeOK(t.size) && |t.buckets| == t.size && KeyOK(k)
  {
    var b := Hash(k, t.size);
    t.(buckets := t.buckets[b := Remove(t.buckets[b], k)])
  }

  /** All entries, bucket by bucket, of the first n buckets. */
  function Flat(buckets: seq<seq<Entry>>, n: nat): seq<Entry>
    requires n <= |buckets|
  {
    if n == 0 then [] else Flat(buckets, n - 1) + buckets[n - 1]
  }

  function Entries(t: Table): seq<Entry> {
    Flat(t.buckets, |t.buckets|)
  }

  /** The map the table stands for. */
  ghost function ToMap(t: Table): (m: map<Key, nat>)
    requires SizeOK(t.size) && |t.buckets| == t.size
    ensures forall k :: k in m <==> KeyOK(k) && Get(t, k).Some?
    ensures forall k :: k in m ==> m[k] == Get(t, k).value
  {
    FlatKeys(t);
    map k | k in KeySet(Entries(t)) && KeyOK(k) && Get(t, k).Some? :: Get(t, k).value
  }

  function KeySet(es: seq<Entry>): set<Key> {
    set i | 0 <= i < |es| :: es[i].key
  }

  lemma {:induction false} FindIn(chain: seq<Entry>, k: Key)
    ensures Find(chain, k).Some? <==> exists i :: 0 <= i < |chain| && chain[i].key == k
    decreases |chain|
  {
    if |chain| > 0 && chain[0].key != k {
      FindIn(chain[1..], k);
      if i :| 0 <= i < |chain| && chain[i].key == k {
        assert chain[1..][i - 1].key == k;
      }
    }
  }

  lemma {:induction false} FlatHas(buckets: seq<seq<Entry>>, n: nat, b: nat, i: nat)
    requires b < n <= |buckets| && i < |buckets[b]|
    ensures exists j :: 0 <= j < |Flat(buckets, n)| && Flat(buckets, n)[j] == buckets[b][i]
    decreases n
  {
    if b < n - 1 {
      FlatHas(buckets, n - 1, b, i);
      var j :| 0 <= j < |Flat(buckets, n - 1)| && Flat(buckets, n - 1)[j] == buckets[b][i];
      assert Flat(buckets, n)[j] == buckets[b][i];
    } else {
      assert Flat(buckets, n)[|Flat(buckets, n - 1)| + i] == buckets[b][i];
    }
  }

  lemma {:induction false} FlatKeys(t: Table)
    requires SizeOK(t.size) && |t.buckets| == t.size
    ensures forall k :: KeyOK(k) && Get(t, k).Some? ==> k in KeySet(Entries(t))
  {
    forall k | KeyOK(k) && Get(t, k).Some? ensures k in KeySet(Entries(t)) {
      var b := Hash(k, t.size);
      FindIn(t.buckets[b], k);
      var i :| 0 <= i < |t.buckets[b]| && t.buckets[b][i].key == k;
      FlatHas(t.buckets, t.size, b, i);
    }
  }

  // ----- walking a chain -----

  /** The first i entries do not have the key. */
  ghost predicate Missed(chain: seq<Entry>, k: Key, i: nat) {
    i <= |chain| && forall j :: 0 <= j < i ==> chain[j].key != k
  }

  lemma {:induction false} MissedTail(chain: seq<Entry>, k: Key, i: nat)
    requires Missed(chain, k, i) && i > 0
    ensures Missed(chain[1..], k, i - 1) && chain[0].key != k && chain[1..][i - 1..] == chain[i..]
  {
    assert forall j :: 0 <= j < i - 1 ==> chain[1..][j] == chain[j + 1];
  }

  lemma {:induction false} WalkTo(chain: seq<Entry>, k: Key, i: nat)
    requires Missed(chain, k, i)
    ensures Find(chain, k) == Find(chain[i..], k)
    decreases i
  {
    if i == 0 {
      assert chain[0..] == chain;
    } else {
      MissedTail(chain, k, i);
      WalkTo(chain[1..], k, i - 1);
    }
  }

  lemma {:induction false} RemovePast(chain: seq<Entry>, k: Key, i: nat)
    requires Missed(chain, k, i)
    ensures Remove(chain, k) == chain[..i] + Remove(chain[i..], k)
    decreases i
  {
    if i == 0 {
      assert chain[0..] == chain;
    } else {
      MissedTail(chain, k, i);
      RemovePast(chain[1..], k, i - 1);
      assert chain[..i] == [chain[0]] + chain[1..][..i - 1];
    }
  }

  /** Where the walk ends decides both the look-up and the removal. */
  lemma {:induction false} WalkEnds(chain: seq<Entry>, k: Key, i: nat)
    requires Missed(chain, k, i) && (i == |chain| || chain[i].key == k)
    ensures i == |chain| ==> Find(chain, k) == None && Remove(chain, k) == chain
    ensures i < |chain| ==> Find(chain, k) == Some(chain[i].value) && Remove(chain, k) == chain[..i] + chain[i + 1..]
  {
    WalkTo(chain, k, i);
    RemovePast(chain, k, i);
    if i < |chain| {
      assert chain[i..][1..] == chain[i + 1..];
    }
  }

  // ----- the table refines the map -----

  lemma {:induction false} FindAppend(chain: seq<Entry>, e: Entry, k: Key)
    ensures Find(chain + [e], k) ==
              if Find(chain, k).Some? then Find(chain, k) else if e.key == k then Some(e.value) else None
    decreases |chain|
  {
    if |chain| == 0 {
      assert chain + [e] == [e];
    } else if chain[0].key != k {
      assert (chain + [e])[1..] == chain[1..] + [e];
      FindAppend(chain[1..], e, k);
    }
  }

  lemma {:induction false} RemoveFacts(chain: seq<Entry>, k: Key, q: Key)
    requires Distinct(chain)
    ensures Distinct(Remove(chain, k))
    ensures forall i :: 0 <= i < |Remove(chain, k)| ==> Remove(chain, k)[i] in chain
    ensures Find(Remove(chain, k), q) == if q == k then None else Find(chain, q)
    decreases |chain|
  {
    if |chain| > 0 {
      if chain[0].key == k {
        FindIn(chain[1..], k);
      } else {
        RemoveFacts(chain[1..], k, q);
        assert Remove(chain, k)[1..] == Remove(chain[1..], k);
      }
    }
  }

  /** A table that answers every key as m does stands for m. */
  lemma {:induction false} Represents(t: Table, m: map<Key, nat>)
    requires SizeOK(t.size) && |t.buckets| == t.size && forall k :: k in m ==> KeyOK(k)
    requires forall k :: KeyOK(k) ==> Get(t, k) == if k in m then Some(m[k]) else None
    ensures ToMap(t) == m
  {
    hide Get;
  }

  lemma {:induction false} GetAfterSet(t: Table, k: Key, v: nat, q: Key)
    requires SizeOK(t.size) && |t.buckets| == t.size && KeyOK(k) && KeyOK(q)
    ensures Set(t, k, v).None? <==> Get(t, k).Some?
    ensures Set(t, k, v).Some? ==> Get(Set(t, k, v).value, q) == if q == k then Some(v) else Get(t, q)
  {
    hide Hash;
    FindAppend(t.buckets[Hash(k, t.size)], Entry(k, v), q);
  }

  lemma {:induction false} SetKeepsOK(t: Table, k: Key, v: nat)
    requires TableOK(t) && KeyOK(k)
    ensures Set(t, k, v).Some? ==> TableOK(Set(t, k, v).value)
  {
    hide StrHash, NumHash;
    FindIn(t.buckets[Hash(k, t.size)], k);
  }

  /** set fails exactly on a present key, and otherwise adds the pair to the map. */
  lemma {:induction false} SetRefines(t: Table, k: Key, v: nat)
    requires TableOK(t) && KeyOK(k)
    ensures Set(t, k, v).None? <==> k in ToMap(t)
    ensures Set(t, k, v).Some? ==> TableOK(Set(t, k, v).value) && ToMap(Set(t, k, v).value) == ToMap(t)[k := v]
  {
    hide Hash, Get;
    SetKeepsOK(t, k, v);
    GetAfterSet(t, k, v, k);
    if Set(t, k, v).Some? {
      hide TableOK;
      var t' := Set(t, k, v).value;
      var m := ToMap(t)[k := v];
      forall q | KeyOK(q) ensures Get(t', q) == if q in m then Some(m[q]) else None {
        GetAfterSet(t, k, v, q);
      }
      Represents(t', m);
    }
  }

  lemma {:induction false} GetAfterDelete(t: Table, k: Key, q: Key)
    requires TableOK(t) && KeyOK(k) && KeyOK(q)
    ensures Get(Delete(t, k), q) == if q == k then None else Get(t, q)
  {
    hide Hash;
    RemoveFacts(t.buckets[Hash(k, t.size)], k, q);
  }

  lemma {:induction false} DeleteKeepsOK(t: Table, k: Key)
    requires TableOK(t) && KeyOK(k)
    ensures TableOK(Delete(t, k))
  {
    hide Hash;
    RemoveFacts(t.buckets[Hash(k, t.size)], k, k);
  }

  /** delete takes the key out of the map. */
  lemma {:induction false} DeleteRefines(t: Table, k: Key)
    requires TableOK(t) && KeyOK(k)
    ensures TableOK(Delete(t, k)) && ToMap(Delete(t, k)) == ToMap(t) - {k}
  {
    DeleteKeepsOK(t, k);
    hide Hash, Get, Delete, Find;
    var t' := Delete(t, k);
    var m := ToMap(t) - {k};
    forall q | KeyOK(q) ensures Get(t', q) == if q in m then Some(m[q]) else None {
      GetAfterDelete(t, k, q);
    }
    Represents(t', m);
  }

  lemma {:induction false} FlatFrom(buckets: seq<seq<Entry>>, n: nat, j: nat) returns (b: nat, i: nat)
    requires n <= |buckets| && j < |Flat(buckets, n)|
    ensures b < n && i < |buckets[b]| && buckets[b][i] == Flat(buckets, n)[j]
    decreases n
  {
    if j < |Flat(buckets, n - 1)| {
      b, i := FlatFrom(buckets, n - 1, j);
    } else {
      b, i := n - 1, j - |Flat(buckets, n - 1)|;
    }
  }

  lemma {:induction false} FlatDistinct(t: Table, n: nat)
    requires TableOK(t) && n <= t.size
    ensures Distinct(Flat(t.buckets, n))
  {
    if n > 0 {
      FlatDistinct(t, n - 1);
      var f, last, all := Flat(t.buckets, n - 1), t.buckets[n - 1], Flat(t.buckets, n);
      forall i, j | 0 <= i < j < |all| ensures all[i].key != all[j].key {
        if i < |f| <= j {
          var b, x := FlatFrom(t.buckets, n - 1, i);
          assert Hash(t.buckets[b][x].key, t.size) == b;
          assert Hash(last[j - |f|].key, t.size) == n - 1;
        }
      }
    }
  }

  /** keys lists every key of the map once. */
  lemma {:induction false} EntriesOnce(t: Table)
    requires TableOK(t)
    ensures Distinct(Entries(t)) && KeySet(Entries(t)) == ToMap(t).Keys
    ensures forall j :: 0 <= j < |Entries(t)| ==> KeyOK(Entries(t)[j].key)
    ensures forall j :: 0 <= j < |Entries(t)| ==> Get(t, Entries(t)[j].key) == Some(Entries(t)[j].value)
  {
    FlatDistinct(t, t.size);
    FlatKeys(t);
    forall j | 0 <= j < |Entries(t)|
      ensures KeyOK(Entries(t)[j].key) && Get(t, Entries(t)[j].key) == Some(Entries(t)[j].value)
    {
      var b, i := FlatFrom(t.buckets, t.size, j);
      FindAt(t.buckets[b], i);
    }
  }

  lemma {:induction false} FindAt(chain: seq<Entry>, i: nat)
    requires Distinct(chain) && i < |chain|
    ensures Find(chain, chain[i].key) == Some(chain[i].value)
    decreases |chain|
  {
    if i > 0 {
      assert chain[1..][i - 1] == chain[i];
      FindAt(chain[1..], i - 1);
    }
  }

  lemma {:induction false} KeySetSize(es: seq<Entry>)
    requires Distinct(es)
    ensures |KeySet(es)| == |es|
    decreases |es|
  {
    if |es| > 0 {
      var last := |es| - 1;
      KeySetSize(es[..last]);
      assert KeySet(es) == KeySet(es[..last]) + {es[last].key};
    }
  }

  /** len is the number of keys of the map. */
  lemma {:induction false} LenRefines(t: Table)
    requires TableOK(t)
    ensures |Entries(t)| == |ToMap(t)|
  {
    EntriesOnce(t);
    KeySetSize(Entries(t));
    assert |ToMap(t).Keys| == |ToMap(t)|;
  }

  // ----- the empty table -----

  function EmptyTable(size: nat): Table {
    Table(size, seq(size, _ => []))
  }

  lemma {:induction false} EmptyFlat(size: nat, n: nat)
    requires n <= size
    ensures Flat(EmptyTable(size).buckets, n) == []
  {
    if n > 0 {
      EmptyFlat(size, n - 1);
    }
  }

  lemma {:induction false} EmptyOK(size: nat)
    requires SizeOK(size)
    ensures TableOK(EmptyTable(size)) && Entries(EmptyTable(size)) == [] && ToMap(EmptyTable(size)) == map[]
  {
    EmptyFlat(size, size);
    assert Entries(EmptyTable(size)) == [];
    EntriesOnce(EmptyTable(size));
  }

  // ----- kinds of keys -----

  /**
   * All keys are strings, or all are numbers. The program compares the key of every node it
   * passes as a string, or as a number, according to the key it was called with.
   */
  ghost predicate OneKind(t: Table, str: bool)
    ensures OneKind(t, str) <==>
              forall b, i :: 0 <= b < |t.buckets| && 0 <= i < |t.buckets[b]| ==> t.buckets[b][i].key.Str? == str
  {
    forall b, i :: 0 <= b < |t.buckets| && 0 <= i < |t.buckets[b]| ==> t.buckets[b][i].key.Str? == str
  }

  lemma {:induction false} RemoveIn(chain: seq<Entry>, k: Key)
    ensures forall i :: 0 <= i < |Remove(chain, k)| ==> Remove(chain, k)[i] in chain
    decreases |chain|
  {
    if |chain| > 0 {
      RemoveIn(chain[1..], k);
    }
  }

  /** set and delete keep the kind. */
  lemma {:induction false} KindStays(t: Table, k: Key, v: nat)
    requires SizeOK(t.size) && |t.buckets| == t.size && KeyOK(k) && OneKind(t, k.Str?)
    ensures Set(t, k, v).Some? ==> OneKind(Set(t, k, v).value, k.Str?)
    ensures OneKind(Delete(t, k), k.Str?)
  {
    hide Hash, KeyOK;
    RemoveIn(t.buckets[Hash(k, t.size)], k);
  }

  /** A table that stands for a map of one kind of keys has keys of that kind. */
  lemma {:induction false} KindOfMap(t: Table, str: bool)
    requires TableOK(t) && forall k :: k in ToMap(t) ==> k.Str? == str
    ensures OneKind(t, str)
  {
    hide KeyOK, Hash;
    forall b, i | 0 <= b < |t.buckets| && 0 <= i < |t.buckets[b]| ensures t.buckets[b][i].key.Str? == str {
      FindIn(t.buckets[b], t.buckets[b][i].key);
      assert Get(t, t.buckets[b][i].key).Some?;
      assert t.buckets[b][i].key in ToMap(t);
    }
  }

  // ----- copy_ht -----

  /** The table after the first n entries of es were set one by one, those already there ignored. */
  function SetAll(t: Table, es: seq<Entry>, n: nat): (r: Table)
    requires SizeOK(t.size) && |t.buckets| == t.size && n <= |es|
    requires forall i :: 0 <= i < |es| ==> KeyOK(es[i].key)
    ensures r.size == t.size && |r.buckets| == t.size
  {
    if n == 0 then t else
    var r := SetAll(t, es, n - 1);
    var s := Set(r, es[n - 1].key, es[n - 1].value);
    if s.Some? then s.value else r
  }

  lemma {:induction false} SetAllStep(t: Table, es: seq<Entry>, n: nat)
    requires SizeOK(t.size) && |t.buckets| == t.size && n < |es|
    requires forall i :: 0 <= i < |es| ==> KeyOK(es[i].key)
    ensures var s := Set(SetAll(t, es, n), es[n].key, es[n].value);
            SetAll(t, es, n + 1) == if s.Some? then s.value else SetAll(t, es, n)
  {
  }

  lemma {:induction false} SetAllKind(t: Table, es: seq<Entry>, n: nat, str: bool)
    requires SizeOK(t.size) && |t.buckets| == t.size && n <= |es| && OneKind(t, str)
    requires forall i :: 0 <= i < |es| ==> KeyOK(es[i].key) && es[i].key.Str? == str
    ensures OneKind(SetAll(t, es, n), str)
    decreases n
  {
    hide OneKind, KeyOK, Set, SetAll;
    SetAllStart(t, es);
    if n > 0 {
      SetAllKind(t, es, n - 1, str);
      SetAllStep(t, es, n - 1);
      KindStays(SetAll(t, es, n - 1), es[n - 1].key, es[n - 1].value);
    }
  }

  lemma {:induction false} SetAllStart(t: Table, es: seq<Entry>)
    requires SizeOK(t.size) && |t.buckets| == t.size
    requires forall i :: 0 <= i < |es| ==> KeyOK(es[i].key)
    ensures SetAll(t, es, 0) == t
  {
  }

  /** Setting a list of entries in two parts. */
  lemma {:induction false} SetAllParts(t: Table, es: seq<Entry>, n: nat, part: seq<Entry>, m: nat)
    requires SizeOK(t.size) && |t.buckets| == t.size && n + |part| <= |es| && m <= |part|
    requires forall i :: 0 <= i < |es| ==> KeyOK(es[i].key)
    requires es[n..n + |part|] == part
    ensures forall i :: 0 <= i < |part| ==> KeyOK(part[i].key)
    ensures SetAll(SetAll(t, es, n), part, m) == SetAll(t, es, n + m)
    decreases m
  {
    forall i | 0 <= i < |part| ensures part[i] == es[n + i] {
      assert es[n..n + |part|][i] == part[i];
    }
    if m > 0 {
      SetAllParts(t, es, n, part, m - 1);
    }
  }

  lemma {:induction false} SetAllGet(t: Table, es: seq<Entry>, n: nat, k: Key)
    requires TableOK(t) && n <= |es| && KeyOK(k)
    requires forall i :: 0 <= i < |es| ==> KeyOK(es[i].key)
    ensures TableOK(SetAll(t, es, n))
    ensures Get(SetAll(t, es, n), k) == if Get(t, k).Some? then Get(t, k) else Find(es[..n], k)
    decreases n
  {
    hide Hash, TableOK;
    if n > 0 {
      SetAllGet(t, es, n - 1, k);
      var r, e := SetAll(t, es, n - 1), es[n - 1];
      SetKeepsOK(r, e.key, e.value);
      GetAfterSet(r, e.key, e.value, k);
      FindAppend(es[..n - 1], e, k);
      assert es[..n] == es[..n - 1] + [e];
    }
  }

  lemma {:induction false} FindConcat(x: seq<Entry>, y: seq<Entry>, k: Key)
    ensures Find(x + y, k) == if Find(x, k).Some? then Find(x, k) else Find(y, k)
    decreases |x|
  {
    if |x| == 0 {
      assert x + y == y;
    } else if x[0].key != k {
      assert (x + y)[1..] == x[1..] + y;
      FindConcat(x[1..], y, k);
    }
  }

  /** Looking a key up in the list of all entries is looking it up in its bucket. */
  lemma {:induction false} FindFlat(t: Table, n: nat, k: Key)
    requires TableOK(t) && n <= t.size && KeyOK(k)
    ensures Find(Flat(t.buckets, n), k) == if Hash(k, t.size) < n then Get(t, k) else None
    decreases n
  {
    hide *;
    FlatNext(t.buckets, k);
    if n > 0 {
      FindFlat(t, n - 1, k);
      FindConcat(Flat(t.buckets, n - 1), t.buckets[n - 1], k);
      FindHome(t, n - 1, k);
    }
  }

  lemma {:induction false} FlatNext(buckets: seq<seq<Entry>>, k: Key)
    ensures Find(Flat(buckets, 0), k) == None
    ensures forall n: nat :: n < |buckets| ==> Flat(buckets, n + 1) == Flat(buckets, n) + buckets[n]
  {
  }

  /** A key is found in its own bucket only. */
  lemma {:induction false} FindHome(t: Table, b: nat, k: Key)
    requires TableOK(t) && b < t.size && KeyOK(k)
    ensures Find(t.buckets[b], k) == if Hash(k, t.size) == b then Get(t, k) else None
  {
    hide Hash, KeyOK, Find, Distinct;
    FindIn(t.buckets[b], k);
  }

  lemma {:induction false} MergeGet(src: Table, dest: Table, k: Key)
    requires TableOK(src) && TableOK(dest) && KeyOK(k)
    ensures forall i :: 0 <= i < |Entries(src)| ==> KeyOK(Entries(src)[i].key)
    ensures var r := SetAll(dest, Entries(src), |Entries(src)|);
            TableOK(r) && Get(r, k) == if Get(dest, k).Some? then Get(dest, k) else Get(src, k)
  {
    EntriesOnce(src);
    hide Hash, TableOK;
    var es := Entries(src);
    SetAllGet(dest, es, |es|, k);
    FindFlat(src, src.size, k);
    assert es[..|es|] == es;
  }

  /** copy_ht in mode 0: both maps, the destination's pairs winning, whatever the two sizes. */
  lemma {:induction false} MergeRefines(src: Table, dest: Table)
    requires TableOK(src) && TableOK(dest)
    ensures forall i :: 0 <= i < |Entries(src)| ==> KeyOK(Entries(src)[i].key)
    ensures TableOK(SetAll(dest, Entries(src), |Entries(src)|))
    ensures ToMap(SetAll(dest, Entries(src), |Entries(src)|)) == ToMap(src) + ToMap(dest)
  {
    MergeGet(src, dest, Num(0));
    hide Hash, TableOK, Get, SetAll, Entries, ToMap;
    var r, m := SetAll(dest, Entries(src), |Entries(src)|), ToMap(src) + ToMap(dest);
    forall k | KeyOK(k) ensures Get(r, k) == if k in m then Some(m[k]) else None {
      MergeGet(src, dest, k);
    }
    Represents(r, m);
  }

  lemma {:induction false} FlatPrefix(buckets: seq<seq<Entry>>, i: nat, n: nat)
    requires i <= n <= |buckets|
    ensures Flat(buckets, i) <= Flat(buckets, n)
    decreases n
  {
    if i < n {
      FlatPrefix(buckets, i, n - 1);
    }
  }
}
