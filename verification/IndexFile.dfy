// The index file: a head of positions, patched one by one as the tables behind it are written,
// and the two readers, one by position and one in order.
module IndexFile {
  import opened Bytes
  import opened ByteFile
  import opened TableModel
  import opened HashTable
  import opened IndexTable

  /** Where table i starts: behind the head, the tables before it, and its own number. */
  function TablePos(ts: seq<Table>, i: nat): (p: nat)
    requires i <= |ts|
    ensures p >= 8 * |ts| + 8
  {
    if i == 0 then 8 * |ts| + 8 else TablePos(ts, i - 1) + |TableBytes(ts[i - 1])| + 4
  }

  /** Slot k of the head once i tables are written. */
  ghost predicate SlotIs(b: seq<byte>, ts: seq<Table>, i: nat, k: nat)
    requires k < |ts|
  {
    At(b, 4 + 8 * k, BE64(if k < i then TablePos(ts, k) else 0))
  }

  ghost predicate BodyIs(b: seq<byte>, ts: seq<Table>, k: nat)
    requires k < |ts|
  {
    At(b, TablePos(ts, k) - 4, BE32(k)) && At(b, TablePos(ts, k), TableBytes(ts[k]))
  }

  /** The file after the head and the first i tables were written. */
  ghost predicate Written(b: seq<byte>, ts: seq<Table>, i: nat) {
    && i <= |ts| && |b| == TablePos(ts, i) - 4
    && At(b, 0, BE32(|ts|))
    && (forall k :: 0 <= k < |ts| ==> SlotIs(b, ts, i, k))
    && (forall k :: 0 <= k < i ==> BodyIs(b, ts, k))
  }

  /** Counts and positions that fit their C types. */
  ghost predicate Readable(ts: seq<Table>) {
    && |ts| < 0x8000_0000 && TablePos(ts, |ts|) <= OFF_MAX
    && forall i :: 0 <= i < |ts| ==> Storable(ts[i])
  }

  // ----- writing -----

  /** `write_index_file_head`: the count and a zero for every position. */
  method WriteHead(f: File, ghost ts: seq<Table>, n: nat)
    requires f.bytes == [] && f.pos == 0 && n == |ts|
    modifies f
    ensures Written(f.bytes, ts, 0) && f.pos == |f.bytes|
  {
    hide BE32, BE64;
    f.Write(BE32(n));
    for i := 0 to n
      invariant f.pos == |f.bytes| == 4 + 8 * i && At(f.bytes, 0, BE32(n))
      invariant forall k :: 0 <= k < i ==> At(f.bytes, 4 + 8 * k, BE64(0))
    {
      ghost var b := f.bytes;
      f.Write(BE64(0));
      forall k | 0 <= k < i ensures At(f.bytes, 4 + 8 * k, BE64(0)) {
        AtBeside(b, f.bytes, 4 + 8 * k, BE64(0), |b|, |f.bytes|);
      }
      AtBeside(b, f.bytes, 0, BE32(n), |b|, |f.bytes|);
    }
  }

  /** Table i is behind the others and its position in its slot. */
  lemma {:induction false} Patched(b: seq<byte>, m: seq<byte>, b': seq<byte>, ts: seq<Table>, i: nat)
    requires Written(b, ts, i) && i < |ts| && Added(b, m, BE32(i) + TableBytes(ts[i]))
    requires Same(m, b', 4 + 8 * i, 12 + 8 * i) && |b'| == |m| && At(b', 4 + 8 * i, BE64(TablePos(ts, i)))
    ensures Written(b', ts, i + 1)
  {
    hide TableBytes, BE32, BE64;
    assert Same(b, b', 4 + 8 * i, 12 + 8 * i);
    TablePosGrows(ts, i);
    AddedLength(b, m, BE32(i) + TableBytes(ts[i]));
    hide At, Same, Added, TablePos;
    AtConcat(m, |b|, BE32(i), TableBytes(ts[i]));
    AtBeside(m, b', |b|, BE32(i), 4 + 8 * i, 12 + 8 * i);
    AtBeside(m, b', |b| + 4, TableBytes(ts[i]), 4 + 8 * i, 12 + 8 * i);
    AtBeside(b, b', 0, BE32(|ts|), 4 + 8 * i, 12 + 8 * i);
    var n := i + 1;
    forall k | 0 <= k < |ts| ensures SlotIs(b', ts, n, k) {
      assert SlotIs(b, ts, i, k);
      SlotKept(b, b', ts, i, k);
    }
    forall k | 0 <= k < i ensures BodyIs(b', ts, k) {
      assert BodyIs(b, ts, k);
      BodyKept(b, b', ts, i, k);
    }
  }

  lemma {:induction false} SlotKept(b: seq<byte>, b': seq<byte>, ts: seq<Table>, i: nat, k: nat)
    requires k < |ts| && i < |ts| && SlotIs(b, ts, i, k)
    requires Same(b, b', 4 + 8 * i, 12 + 8 * i) && At(b', 4 + 8 * i, BE64(TablePos(ts, i)))
    ensures SlotIs(b', ts, i + 1, k)
  {
    hide BE64, TablePos, At, Same;
    if k != i {
      AtBeside(b, b', 4 + 8 * k, BE64(if k < i then TablePos(ts, k) else 0), 4 + 8 * i, 12 + 8 * i);
    }
  }

  lemma {:induction false} BodyKept(b: seq<byte>, b': seq<byte>, ts: seq<Table>, i: nat, k: nat)
    requires k < i < |ts| && BodyIs(b, ts, k) && Same(b, b', 4 + 8 * i, 12 + 8 * i)
    ensures BodyIs(b', ts, k)
  {
    hide BE32, TableBytes;
    AtBeside(b, b', TablePos(ts, k) - 4, BE32(k), 4 + 8 * i, 12 + 8 * i);
    AtBeside(b, b', TablePos(ts, k), TableBytes(ts[k]), 4 + 8 * i, 12 + 8 * i);
  }

  lemma {:induction false} TablePosGrows(ts: seq<Table>, i: nat)
    requires i < |ts|
    ensures TablePos(ts, i + 1) == TablePos(ts, i) + |TableBytes(ts[i])| + 4
  {
  }

  lemma {:induction false} TablePosMonotone(ts: seq<Table>, i: nat, j: nat)
    requires i <= j <= |ts|
    ensures TablePos(ts, i) <= TablePos(ts, j)
    decreases j
  {
    hide TableBytes;
    if i < j {
      TablePosMonotone(ts, i, j - 1);
    }
  }

  lemma {:induction false} WrittenEnd(b: seq<byte>, ts: seq<Table>, i: nat)
    requires Written(b, ts, i) && i < |ts|
    ensures |b| == TablePos(ts, i) - 4 >= 12 + 8 * i
  {
  }

  /** `write_index_body`: number, table, then its position in slot i of the head. */
  method WriteBody(f: File, i: nat, h: HashTable, ghost ts: seq<Table>)
    requires Written(f.bytes, ts, i) && f.pos == |f.bytes| && i < |ts| && Holds(h, ts[i])
    modifies f
    ensures Written(f.bytes, ts, i + 1) && f.pos == |f.bytes|
  {
    hide *;
    ghost var b := f.bytes;
    f.Write(BE32(i));
    ghost var m1 := f.bytes;
    var pos := f.pos;
    WriteTable(f, h);
    ghost var m := f.bytes;
    AddedTwice(b, m1, m, BE32(i), TableBytes(ts[i]));
    WrittenEnd(b, ts, i);
    AddedLength(b, m1, BE32(i));
    AddedLength(b, m, BE32(i) + TableBytes(ts[i]));
    f.Seek(4);
    if i != 0 {
      f.Seek(f.pos + i * 8);
    }
    f.Write(BE64(pos));
    Patched(b, m, f.bytes, ts, i);
    var _ := f.SeekEnd();
  }

  /** `write_index`: the truncated file gets the head and every table. */
  method WriteIndex(f: File, hs: seq<HashTable>, ghost ts: seq<Table>)
    requires |hs| == |ts| && forall i :: 0 <= i < |hs| ==> Holds(hs[i], ts[i])
    modifies f
    ensures Written(f.bytes, ts, |ts|)
  {
    hide *;
    f.Truncate();
    WriteHead(f, ts, |hs|);
    for i := 0 to |hs|
      invariant Written(f.bytes, ts, i) && f.pos == |f.bytes|
    {
      WriteBody(f, i, hs[i], ts);
    }
  }

  // ----- reading -----

  lemma {:induction false} FindTable(b: seq<byte>, ts: seq<Table>, i: nat)
    requires Written(b, ts, |ts|) && Readable(ts) && i < |ts|
    ensures At(b, 0, BE32(|ts|)) && 4 + 8 * |ts| <= |b|
    ensures At(b, 4 + 8 * i, BE64(TablePos(ts, i)))
    ensures 0 < TablePos(ts, i) < 0x8000_0000_0000_0000 && At(b, TablePos(ts, i), TableBytes(ts[i])) && Storable(ts[i])
    ensures TablePos(ts, i) + |TableBytes(ts[i])| <= |b|
    ensures TablePos(ts, i + 1) == TablePos(ts, i) + |TableBytes(ts[i])| + 4
  {
    assert SlotIs(b, ts, |ts|, i) && BodyIs(b, ts, i);
    hide TableBytes, BE32, BE64, Storable;
    TablePosMonotone(ts, i, |ts|);
  }

  lemma {:induction false} CountAt(b: seq<byte>, ts: seq<Table>)
    requires Written(b, ts, |ts|) && Readable(ts)
    ensures At(b, 0, BE32(|ts|)) && 4 <= |b| && |ts| < 0x8000_0000 && TablePos(ts, 0) == 8 * |ts| + 8
    ensures forall k :: 0 <= k < |ts| ==> Storable(ts[k])
  {
    hide TableBytes, BE32, BE64, Storable;
  }

  /** `read_index_nr`: the table the i-th position of the head points at. */
  method ReadNr(f: File, i: nat, ghost ts: seq<Table>) returns (h: Option<HashTable>)
    requires Written(f.bytes, ts, |ts|) && Readable(ts)
    modifies f`pos
    ensures h.None? <==> i >= |ts|
    ensures forall k :: 0 <= k < |ts| ==> Storable(ts[k])
    ensures h.Some? ==> fresh(h.value) && fresh(h.value.dataMap) && fresh(h.value.Repr)
                        && Holds(h.value, Reloaded(ts[i]))
  {
    hide *;
    CountAt(f.bytes, ts);
    f.Seek(0);
    var n := f.Read32();
    if n == 0 || n <= i {
      return None;
    }
    FindTable(f.bytes, ts, i);
    f.Seek(f.pos + i * 8);
    var p := f.Read64();
    if p == 0 {
      return None;
    }
    f.Seek(p);
    var t := ReadTable(f, ts[i]);
    h := Some(t);
  }

  /** `read_all_index_file`: every table, in order. */
  method ReadAll(f: File, ghost ts: seq<Table>) returns (ok: bool, hs: seq<HashTable>)
    requires Written(f.bytes, ts, |ts|) && Readable(ts)
    modifies f`pos
    ensures ok <==> |ts| > 0
    ensures forall k :: 0 <= k < |ts| ==> Storable(ts[k])
    ensures ok ==> |hs| == |ts|
    ensures ok ==> forall k :: 0 <= k < |ts| ==>
                     fresh(hs[k]) && fresh(hs[k].dataMap) && fresh(hs[k].Repr) && Holds(hs[k], Reloaded(ts[k]))
    ensures ok ==> forall k, l :: 0 <= k < l < |hs| ==> hs[k].Repr !! hs[l].Repr && hs[k].dataMap != hs[l].dataMap
  {
    hide *;
    CountAt(f.bytes, ts);
    f.Seek(0);
    var n := f.Read32();
    hs := [];
    if n == 0 {
      return false, hs;
    }
    f.Seek(f.pos + n * 8 + 4);
    for i := 0 to n
      invariant |hs| == i && f.pos == TablePos(ts, i) - (if i == n then 4 else 0)
      invariant forall k :: 0 <= k < i ==>
                  fresh(hs[k]) && fresh(hs[k].dataMap) && fresh(hs[k].Repr) && Holds(hs[k], Reloaded(ts[k]))
      invariant forall k, l :: 0 <= k < l < i ==> hs[k].Repr !! hs[l].Repr && hs[k].dataMap != hs[l].dataMap
    {
      FindTable(f.bytes, ts, i);
      var h := ReadTable(f, ts[i]);
      if n - i > 1 {
        f.Seek(f.pos + 4);
      }
      hs := hs + [h];
    }
    ok := true;
  }

  // ----- more indexes -----

  ghost function ReloadedAll(ts: seq<Table>): (r: seq<Table>)
    requires forall k :: 0 <= k < |ts| ==> Storable(ts[k])
    ensures |r| == |ts| && forall k :: 0 <= k < |ts| ==> r[k] == Reloaded(ts[k])
  {
    seq(|ts|, k requires 0 <= k < |ts| => Reloaded(ts[k]))
  }

  /** `add_index`: the tables there stay first, and `extra` empty ones of the given size follow. */
  method AddIndex(f: File, extra: nat, bucket: nat, ghost ts: seq<Table>) returns (r: int)
    requires Written(f.bytes, ts, |ts|) && Readable(ts) && SizeOK(bucket)
    modifies f
    ensures forall k :: 0 <= k < |ts| ==> Storable(ts[k])
    ensures r == if extra == 0 || |ts| == 0 then -1 else 0
    ensures r == -1 ==> f.bytes == old(f.bytes)
    ensures r == 0 ==> var us := ReloadedAll(ts) + seq(extra, _ => Table(bucket, seq(bucket, _ => [])));
                       Written(f.bytes, us, |us|)
  {
    hide *;
    CountAt(f.bytes, ts);
    if extra == 0 {
      return -1;
    }
    var ok, hs := ReadAll(f, ts);
    if !ok {
      return -1;
    }
    ghost var us := ReloadedAll(ts) + seq(extra, _ => Table(bucket, seq(bucket, _ => [])));
    for j := 0 to extra
      invariant |hs| == |ts| + j && f.bytes == old(f.bytes)
      invariant forall k :: 0 <= k < |hs| ==> fresh(hs[k]) && Holds(hs[k], us[k])
    {
      var dummy := new HashTable(bucket);
      hs := hs + [dummy];
    }
    WriteIndex(f, hs, us);
    r := 0;
  }

  // ----- one index file, byte by byte -----

  const SampleTable := Table(2, [[Entry(Str([97, 98]), 258)], [Entry(Num(7), 5)]])
  const NoEntries := Table(3, [[], [], []])

  /** A string and a number: kind, length and string with its NUL, or the number, and the place of the record. */
  lemma {:induction false} SampleEntries()
    ensures EntryBytes(Entry(Str([97, 98]), 258)) ==
              [0, 0, 0, 1] + [0, 0, 0, 0, 0, 0, 0, 2] + [97, 98, 0] + [0, 0, 0, 0, 0, 0, 1, 2]
    ensures EntryBytes(Entry(Num(7), 5)) == [0, 0, 0, 2] + [0, 0, 0, 7] + [0, 0, 0, 0, 0, 0, 0, 5]
  {
    FourBytes(1);
    FourBytes(2);
    FourBytes(7);
    SmallLong(2);
    SmallLong(258);
    SmallLong(5);
    hide BE;
  }

  /** Size, number of entries, and the entries bucket by bucket. */
  lemma {:induction false} SampleTableBytes()
    ensures TableBytes(SampleTable) ==
              [0, 0, 0, 2] + [0, 0, 0, 2]
              + (([0, 0, 0, 1] + [0, 0, 0, 0, 0, 0, 0, 2] + [97, 98, 0] + [0, 0, 0, 0, 0, 0, 1, 2])
                 + ([0, 0, 0, 2] + [0, 0, 0, 7] + [0, 0, 0, 0, 0, 0, 0, 5]))
    ensures TableBytes(NoEntries) == [0, 0, 0, 3] + [0, 0, 0, 0]
  {
    SampleEntries();
    var es := [Entry(Str([97, 98]), 258), Entry(Num(7), 5)];
    assert Flat(SampleTable.buckets, 1) == [es[0]] && Flat(SampleTable.buckets, 2) == es;
    assert Flat(NoEntries.buckets, 1) == [] && Flat(NoEntries.buckets, 2) == [] && Flat(NoEntries.buckets, 3) == [];
    hide EntryBytes, Flat;
    assert EntriesBytes(es, 1) == EntryBytes(es[0]);
    FourBytes(0);
    FourBytes(2);
    FourBytes(3);
    hide BE;
  }

  /** A file of these two tables: their number, where each is, and each with its own number before it. */
  lemma {:induction false} SampleIndex(m: seq<byte>)
    requires Written(m, [SampleTable, NoEntries], 2)
    ensures m ==
              [0, 0, 0, 2] + [0, 0, 0, 0, 0, 0, 0, 24] + [0, 0, 0, 0, 0, 0, 0, 75]
              + [0, 0, 0, 0] + TableBytes(SampleTable) + [0, 0, 0, 1] + TableBytes(NoEntries)
    ensures |m| == 83
  {
    SampleTableBytes();
    SamplePlaces();
    var ts, x, y := [SampleTable, NoEntries], TableBytes(SampleTable), TableBytes(NoEntries);
    assert SlotIs(m, ts, 2, 0) && SlotIs(m, ts, 2, 1) && BodyIs(m, ts, 0) && BodyIs(m, ts, 1);
    FourBytes(0);
    FourBytes(1);
    FourBytes(2);
    SmallLong(24);
    SmallLong(75);
    hide TableBytes, TablePos, BE, SlotIs, BodyIs;
    AllParts(m, x, y);
  }

  lemma {:induction false} SamplePlaces()
    ensures TablePos([SampleTable, NoEntries], 0) == 24 && TablePos([SampleTable, NoEntries], 1) == 75
    ensures TablePos([SampleTable, NoEntries], 2) == 87
  {
    SampleTableBytes();
    hide TableBytes;
  }

  lemma {:induction false} AllParts(m: seq<byte>, x: seq<byte>, y: seq<byte>)
    requires |x| == 47 && |y| == 8 && |m| == 83 && At(m, 0, [0, 0, 0, 2])
    requires At(m, 4, [0, 0, 0, 0, 0, 0, 0, 24]) && At(m, 12, [0, 0, 0, 0, 0, 0, 0, 75])
    requires At(m, 20, [0, 0, 0, 0]) && At(m, 24, x) && At(m, 71, [0, 0, 0, 1]) && At(m, 75, y)
    ensures m == [0, 0, 0, 2] + [0, 0, 0, 0, 0, 0, 0, 24] + [0, 0, 0, 0, 0, 0, 0, 75] + [0, 0, 0, 0] + x + [0, 0, 0, 1] + y
  {
    assert m == m[0..4] + m[4..12] + m[12..20] + m[20..24] + m[24..71] + m[71..75] + m[75..83];
  }
}
