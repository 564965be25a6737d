// Bulk import: records collected in memory, refining one-by-one writes to the data file.
module RamImport {
  import opened Bytes
  import opened Layout
  import opened Fragment
  import opened RecordFile
  import opened RecordWrite
  import RecordStore
  import opened TableModel
  import HashTable
  import IndexFile
  import opened DatabaseIndex
  import opened DatabaseModel
  import opened Database
  import RamFile

  // ----- a fresh fragment's bytes -----

  /** Every byte of a contiguous fragment is owned. */
  lemma {:induction false} OwnsAll(fr: Frag, x: nat, i: nat)
    requires FragWF(fr) && i <= |fr.cells| + 2 && fr.at <= x < Edge(fr, i)
    requires forall k: nat :: k < |fr.cells| ==> InlineOnly(fr, k)
    ensures x in FootUpTo(fr, i)
    decreases i
  {
    hide FragWF, CellFoot, CellApart, CellWF;
    if i > 0 {
      if x < Edge(fr, i - 1) {
        OwnsAll(fr, x, i - 1);
      } else {
        assert 0 < i - 1 <= |fr.cells| ==> InlineOnly(fr, i - 2);
        assert x in PartFoot(fr, i - 1);
      }
    }
  }

  /** What was appended is determined by the record: the image of write_file(update = 0). */
  lemma {:induction false} ImageUnique(b: seq<byte>, x: seq<byte>, y: seq<byte>, rec: Record)
    requires AllWF(Vals(rec)) && |rec| <= MAX_FIELD_NR && |Fields(rec)| > 0
    requires Appended(b, x, FreshFrag(|b|, rec, 0)) && Appended(b, y, FreshFrag(|b|, rec, 0))
    ensures x == y
  {
    var fr := FreshFrag(|b|, rec, 0);
    FreshFragFacts(|b|, rec, 0);
    var n := |fr.cells| + 2;
    assert Edge(fr, n) == LinkPos(fr) + 8;
    hide FragWF, FragOK, FreshFrag, InlineOnly, FootUpTo, FragApart;
    forall i: nat | i < |x| ensures x[i] == y[i] {
      if i < |b| {
        assert x[i] == b[i] == y[i];
      } else {
        ImageAgrees(b, x, y, fr, i);
      }
    }
  }

  lemma {:induction false} ImageAgrees(b: seq<byte>, x: seq<byte>, y: seq<byte>, fr: Frag, i: nat)
    requires FragWF(fr) && fr.link == 0 && fr.at == |b| && |b| <= i < LinkPos(fr) + 8 == |x| == |y|
    requires FragOK(x, fr) && FragOK(y, fr) && forall k: nat :: k < |fr.cells| ==> InlineOnly(fr, k)
    ensures x[i] == y[i]
  {
    var n := |fr.cells| + 2;
    if i < LinkPos(fr) {
      OwnsAll(fr, i, n);
      assert fr.(link := 0) == fr;
      RecordStore.FragAgree(x, y, fr, 0, n, i);
    } else {
      assert PartOK(x, fr, n - 1) && PartOK(y, fr, n - 1);
      RecordStore.AtAgree(x, y, LinkPos(fr), BE64(fr.link), i);
    }
  }

  // ----- one import -----

  /** The bytes and the first table after a record was offered under a key. */
  ghost predicate Imports(b: seq<byte>, t: Table, k: Key, rec: Record, b': seq<byte>, t': Table)
    requires SizeOK(t.size) && |t.buckets| == t.size && KeyOK(k) && AllWF(Vals(rec))
  {
    match Set(t, k, |b|)
    case None => b' == b && t' == t
    case Some(next) => t' == next && Appended(b, b', FreshFrag(|b|, rec, 0))
  }

  /** `write_record` in import mode: a key that is there is skipped, and nothing is written for it. */
  method Import(ram: RamFile.Ram, ht: HashTable.HashTable, key: Key, rec: Record) returns (r: int)
    requires ram.Valid() && ht.Valid() && KeyOK(key) && OneKind(ht.Value(), key.Str?)
    requires RamFile.AllSimple(rec) && |rec| <= MAX_FIELD_NR && AllWF(Vals(rec)) && |Fields(rec)| > 0
    requires 1 + RamFile.ReckonedUpTo(rec, |rec|) + 8 <=
               if ram.capacity == 0 then RamFile.STD_RAM_FILE else ram.capacity
    modifies ram, ram.mem, ht, ht.dataMap, ht.Repr
    ensures ram.Valid() && ht.Valid() && r == 0
    ensures ram.capacity >= old(ram.capacity) && (ram.mem == old(ram.mem) || fresh(ram.mem)) && fresh(ht.Repr - old(ht.Repr))
    ensures Imports(old(ram.Contents()), old(ht.Value()), key, rec, ram.Contents(), ht.Value())
  {
    hide HashTable.HashTable.Valid, HashTable.HashTable.Value, RamFile.AllSimple, RamFile.ReckonedUpTo, Appended, AllWF,
         KeyOK, Set, FreshFrag, Fields, Vals;
    var ok := ht.Set(key, ram.size);
    if !ok {
      return 0;
    }
    r := RamFile.WriteRecord(ram, rec);
  }

  // ----- any sequence of imports -----

  datatype Image = Image(bytes: seq<byte>, table: Table)

  /** A run of imports: each record offered to the bytes and the table that the one before left. */
  ghost predicate ImportRun(xs: seq<Image>, ops: seq<Op>) {
    && |xs| == |ops| + 1
    && (forall i :: 0 <= i < |ops| ==>
          && ops[i].Insert? && KeyOK(ops[i].key) && AllWF(Vals(ops[i].rec))
          && SizeOK(xs[i].table.size) && |xs[i].table.buckets| == xs[i].table.size
          && Imports(xs[i].bytes, xs[i].table, ops[i].key, ops[i].rec, xs[i + 1].bytes, xs[i + 1].table))
  }

  lemma {:induction false} ImportIsInsert(s: State, op: Op, s': State, x: Image, y: Image)
    requires Inv(s) && op.Insert? && Step(s, op, s') && AllWF(Vals(op.rec)) && KeyOK(op.key)
    requires TablesOK(s.ts) && x == Image(s.data, s.ts[0])
    requires Imports(x.bytes, x.table, op.key, op.rec, y.bytes, y.table)
    ensures TablesOK(s'.ts) && y == Image(s'.data, s'.ts[0])
  {
    StepRefines(s, op, s');
    hide TableOK, Set, DataOK, ChainsOK, Typed, IndexFile.Written, IndexFile.Readable, Lossless,
         RoomFor, KeyOK, ToMap, Appended, FreshFrag, AllWF, Vals;
    SetIndex(s.index, s.index, s.ts, Starts(s.db), op.key, |s.data|);
    if op.key !in Contents(s) {
      ImageUnique(s.data, s'.data, y.bytes, op.rec);
    }
  }

  /**
   * Importing any sequence of records into memory leaves the bytes and the first table that
   * writing them one by one to the files leaves; keys seen before are skipped by both.
   */
  lemma {:induction false} ImportRefines(ss: seq<State>, ops: seq<Op>, xs: seq<Image>)
    requires Run(ss, ops) && ImportRun(xs, ops)
    requires TablesOK(ss[0].ts) && xs[0] == Image(ss[0].data, ss[0].ts[0])
    ensures Inv(ss[|ops|]) && TablesOK(ss[|ops|].ts) && xs[|ops|] == Image(ss[|ops|].data, ss[|ops|].ts[0])
    decreases |ops|
  {
    hide Inv, Step, TablesOK, Imports, AllWF, KeyOK, SizeOK;
    if |ops| > 0 {
      var last := |ops| - 1;
      ImportRefines(ss[..|ops|], ops[..last], xs[..|ops|]);
      ImportIsInsert(ss[last], ops[last], ss[last + 1], xs[last], xs[last + 1]);
      StepRefines(ss[last], ops[last], ss[last + 1]);
    }
  }
}
