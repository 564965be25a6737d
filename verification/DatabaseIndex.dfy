// The index file as a map from keys to offsets, kept by set and delete on the first table.
module DatabaseIndex {
  import opened Bytes
  import opened TableModel
  import opened HashTable
  import opened IndexTable
  import opened IndexFile

  /** No number stands behind another node, so the table survives writing and reading. */
  predicate Lossless(t: Table) {
    |t.buckets| == t.size
    && forall b, i :: 0 <= b < t.size && 1 <= i < |t.buckets[b]| ==> t.buckets[b][i].key.Str?
  }

  /** The index file holds the tables ts, and the first one stands for m. */
  ghost predicate IndexOK(x: seq<byte>, ts: seq<Table>, m: map<Key, nat>) {
    && Written(x, ts, |ts|) && TablesOK(ts) && ToMap(ts[0]) == m
  }

  ghost predicate TablesOK(ts: seq<Table>)
    ensures TablesOK(ts) ==> |ts| > 0 && TableOK(ts[0])
  {
    && |ts| > 0 && Readable(ts) && Storable(ts[0])
    && forall i :: 0 <= i < |ts| ==> Lossless(ts[i])
  }

  /** Reading such an index file gives the very tables that were written. */
  lemma {:induction false} ReadsBack(ts: seq<Table>)
    requires TablesOK(ts)
    ensures forall i :: 0 <= i < |ts| ==> Storable(ts[i]) && Reloaded(ts[i]) == ts[i]
    ensures Readable(ts) && |ts| > 0
  {
    hide Storable, Reloaded;
    forall i | 0 <= i < |ts| ensures Storable(ts[i]) && Reloaded(ts[i]) == ts[i] {
      assert Lossless(ts[i]);
      RoundTrip(ts[i]);
    }
  }

  // ----- set -----

  /** What the new table needs in order to be stored: the count and the positions stay in range. */
  ghost predicate RoomFor(ts: seq<Table>, t: Table) {
    |ts| > 0 && |Entries(t)| < 0x8000_0000 && TablePos(ts[0 := t], |ts|) <= OFF_MAX
  }

  lemma {:induction false} EntriesFit(t: Table, j: nat)
    requires SizeOK(t.size) && |t.buckets| == t.size && j < |Entries(t)|
    requires forall b, i :: 0 <= b < t.size && 0 <= i < |t.buckets[b]| ==> EntryFits(t.buckets[b][i])
    ensures EntryFits(Entries(t)[j])
  {
    hide EntryFits;
    var b, i := FlatFrom(t.buckets, t.size, j);
  }

  lemma {:induction false} BucketFits(t: Table, b: nat, i: nat)
    requires Storable(t) && b < t.size && i < |t.buckets[b]|
    ensures EntryFits(t.buckets[b][i])
  {
    hide EntryFits;
    FlatHas(t.buckets, t.size, b, i);
  }

  lemma {:induction false} SetStorable(t: Table, k: Key, v: nat)
    requires Storable(t) && Lossless(t) && KeyOK(k) && k.Str? && v <= OFF_MAX && Set(t, k, v).Some?
    requires |Entries(Set(t, k, v).value)| < 0x8000_0000
    ensures Storable(Set(t, k, v).value) && Lossless(Set(t, k, v).value)
  {
    SetKeepsOK(t, k, v);
    var t' := Set(t, k, v).value;
    hide KeyOK, Hash, TableOK, Entries;
    forall b, i | 0 <= b < t'.size && 0 <= i < |t'.buckets[b]| ensures EntryFits(t'.buckets[b][i]) {
      if i < |t.buckets[b]| {
        BucketFits(t, b, i);
      }
    }
    forall j | 0 <= j < |Entries(t')| ensures EntryFits(Entries(t')[j]) {
      EntriesFit(t', j);
    }
  }

  /** The first table replaced. */
  lemma {:induction false} FirstReplaced(ts: seq<Table>, t: Table)
    requires TablesOK(ts) && Storable(t) && Lossless(t) && TablePos(ts[0 := t], |ts|) <= OFF_MAX
    ensures TablesOK(ts[0 := t])
  {
    hide Storable, Lossless, TablePos;
  }

  /** A new string key, written back: the index stands for one pair more. */
  lemma {:induction false} SetIndex(x: seq<byte>, x': seq<byte>, ts: seq<Table>, m: map<Key, nat>, k: Key, v: nat)
    requires IndexOK(x, ts, m) && KeyOK(k) && k.Str? && v <= OFF_MAX
    ensures Set(ts[0], k, v).None? <==> k in m
    ensures k !in m && RoomFor(ts, Set(ts[0], k, v).value) ==>
              TablesOK(ts[0 := Set(ts[0], k, v).value])
    ensures k !in m && RoomFor(ts, Set(ts[0], k, v).value) && Written(x', ts[0 := Set(ts[0], k, v).value], |ts|) ==>
              IndexOK(x', ts[0 := Set(ts[0], k, v).value], m[k := v])
  {
    hide Written, Set, ToMap, TableOK, Storable, Lossless, KeyOK, TablePos, Entries;
    SetRefines(ts[0], k, v);
    if k !in m && RoomFor(ts, Set(ts[0], k, v).value) {
      SetStorable(ts[0], k, v);
      FirstReplaced(ts, Set(ts[0], k, v).value);
    }
  }

  // ----- delete -----

  /** The number of bytes of a list of entries. */
  function Size(es: seq<Entry>): nat {
    if |es| == 0 then 0 else |EntryBytes(es[0])| + Size(es[1..])
  }

  lemma {:induction false} SizeConcat(x: seq<Entry>, y: seq<Entry>)
    ensures Size(x + y) == Size(x) + Size(y)
    decreases |x|
  {
    hide EntryBytes;
    if |x| == 0 {
      assert x + y == y;
    } else {
      assert (x + y)[1..] == x[1..] + y;
      SizeConcat(x[1..], y);
    }
  }

  lemma {:induction false} BytesSize(es: seq<Entry>, n: nat)
    requires n <= |es|
    ensures |EntriesBytes(es, n)| == Size(es[..n])
  {
    hide EntryBytes;
    if n > 0 {
      BytesSize(es, n - 1);
      assert es[..n] == es[..n - 1] + [es[n - 1]];
      SizeConcat(es[..n - 1], [es[n - 1]]);
      assert Size([es[n - 1]]) == |EntryBytes(es[n - 1])| + Size([]);
    }
  }

  lemma {:induction false} RemoveSize(chain: seq<Entry>, k: Key)
    ensures Size(Remove(chain, k)) <= Size(chain)
    decreases |chain|
  {
    hide EntryBytes;
    if |chain| > 0 && chain[0].key != k {
      RemoveSize(chain[1..], k);
      assert ([chain[0]] + Remove(chain[1..], k))[1..] == Remove(chain[1..], k);
    }
  }

  lemma {:induction false} FlatSize(x: seq<seq<Entry>>, y: seq<seq<Entry>>, n: nat)
    requires n <= |x| == |y| && forall b :: 0 <= b < |x| ==> Size(x[b]) <= Size(y[b])
    ensures Size(Flat(x, n)) <= Size(Flat(y, n))
  {
    hide Size;
    if n > 0 {
      FlatSize(x, y, n - 1);
      SizeConcat(Flat(x, n - 1), x[n - 1]);
      SizeConcat(Flat(y, n - 1), y[n - 1]);
    } else {
      assert Flat(x, n) == Flat(y, n) == [];
    }
  }

  lemma {:induction false} DeleteShrinks(t: Table, k: Key)
    requires TableOK(t) && KeyOK(k)
    ensures |TableBytes(Delete(t, k))| <= |TableBytes(t)| && |Entries(Delete(t, k))| <= |Entries(t)|
  {
    hide *;
    DeleteRefines(t, k);
    LenRefines(t);
    LenRefines(Delete(t, k));
    FewerKeys(ToMap(t), k);
    var es, es' := Entries(t), Entries(Delete(t, k));
    DeletedSize(t, k);
    BytesSize(es, |es|);
    BytesSize(es', |es'|);
    assert es[..|es|] == es && es'[..|es'|] == es';
    TableSize(t);
    TableSize(Delete(t, k));
  }

  lemma {:induction false} FewerKeys(m: map<Key, nat>, k: Key)
    ensures |m - {k}| <= |m|
  {
    if k in m {
      assert m == (m - {k})[k := m[k]];
    } else {
      assert m - {k} == m;
    }
  }

  lemma {:induction false} TableSize(t: Table)
    ensures |TableBytes(t)| == 8 + |EntriesBytes(Entries(t), |Entries(t)|)|
  {
    hide Entries, EntriesBytes;
  }

  lemma {:induction false} DeletedSize(t: Table, k: Key)
    requires TableOK(t) && KeyOK(k)
    ensures Size(Entries(Delete(t, k))) <= Size(Entries(t))
  {
    hide Hash, TableOK, KeyOK, EntryBytes, Size, Remove;
    RemoveSize(t.buckets[Hash(k, t.size)], k);
    FlatSize(Delete(t, k).buckets, t.buckets, t.size);
  }

  lemma {:induction false} DeleteStorable(t: Table, k: Key)
    requires Storable(t) && Lossless(t) && KeyOK(k)
    ensures Storable(Delete(t, k)) && Lossless(Delete(t, k))
  {
    DeleteShrinks(t, k);
    DeleteKeepsOK(t, k);
    var t', h := Delete(t, k), Hash(k, t.size);
    hide KeyOK, Hash, TableOK, Entries, Remove;
    forall b, i | 0 <= b < t'.size && 0 <= i < |t'.buckets[b]|
      ensures EntryFits(t'.buckets[b][i]) && (i > 0 ==> t'.buckets[b][i].key.Str?)
    {
      if b == h {
        var j := RemoveStays(t.buckets[b], k, i);
        BucketFits(t, b, j);
      } else {
        BucketFits(t, b, i);
      }
    }
    forall j | 0 <= j < |Entries(t')| ensures EntryFits(Entries(t')[j]) {
      EntriesFit(t', j);
    }
  }

  /** What is left of a chain stood there already, not further up. */
  lemma {:induction false} RemoveStays(chain: seq<Entry>, k: Key, i: nat) returns (j: nat)
    requires i < |Remove(chain, k)|
    ensures i <= j < |chain| && chain[j] == Remove(chain, k)[i]
    decreases |chain|
  {
    if chain[0].key == k {
      j := i + 1;
    } else if i == 0 {
      j := 0;
    } else {
      j := RemoveStays(chain[1..], k, i - 1);
      j := j + 1;
    }
  }

  lemma {:induction false} TablePosShrinks(ts: seq<Table>, t: Table, i: nat)
    requires |ts| > 0 && |TableBytes(t)| <= |TableBytes(ts[0])| && i <= |ts|
    ensures TablePos(ts[0 := t], i) <= TablePos(ts, i)
  {
    hide TableBytes;
    if i > 0 {
      TablePosShrinks(ts, t, i - 1);
    }
  }

  /** A key deleted, written back: the index stands for the other pairs. */
  lemma {:induction false} DeleteIndex(x: seq<byte>, x': seq<byte>, ts: seq<Table>, m: map<Key, nat>, k: Key)
    requires IndexOK(x, ts, m) && KeyOK(k)
    ensures TablesOK(ts[0 := Delete(ts[0], k)])
    ensures Written(x', ts[0 := Delete(ts[0], k)], |ts|) ==> IndexOK(x', ts[0 := Delete(ts[0], k)], m - {k})
  {
    hide Written, Delete, ToMap, TableOK, Storable, Lossless, KeyOK, TablePos, Entries, TableBytes;
    DeleteRefines(ts[0], k);
    DeleteStorable(ts[0], k);
    DeleteShrinks(ts[0], k);
    TablePosShrinks(ts, Delete(ts[0], k), |ts|);
    FirstReplaced(ts, Delete(ts[0], k));
  }
}
