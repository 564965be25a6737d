// One hash table in the index file: write_ht and read_index_file.
module IndexTable {
  import opened Bytes
  import opened ByteFile
  import opened Layout
  import opened TableModel
  import opened HashTable

  const STR := 1
  const UINT := 2

  /** The record write_ht emits for one node. */
  function EntryBytes(e: Entry): seq<byte>
  {
    match e.key
    case Str(s) => BE32(STR) + BE64(|s|) + (s + [0]) + BE64(e.value)
    case Num(n) => BE32(UINT) + BE32(n) + BE64(e.value)
  }

  /** The records of the first n entries. */
  function EntriesBytes(es: seq<Entry>, n: nat): seq<byte>
    requires n <= |es|
  {
    if n == 0 then [] else EntriesBytes(es, n - 1) + EntryBytes(es[n - 1])
  }

  function TableBytes(t: Table): seq<byte> {
    BE32(t.size) + BE32(|Entries(t)|) + EntriesBytes(Entries(t), |Entries(t)|)
  }

  // ----- writing -----

  method PutEntry(f: File, e: Entry)
    requires f.pos == |f.bytes|
    modifies f
    ensures Added(old(f.bytes), f.bytes, EntryBytes(e)) && f.pos == |f.bytes|
  {
    hide At, Same, BE32, BE64, Added;
    ghost var b0 := f.bytes;
    match e.key
    case Str(s) =>
      f.Write(BE32(STR));
      ghost var b1 := f.bytes;
      f.Write(BE64(|s|));
      ghost var b2 := f.bytes;
      f.Write(s + [0]);
      ghost var b3 := f.bytes;
      f.Write(BE64(e.value));
      AddedTwice(b0, b1, b2, BE32(STR), BE64(|s|));
      AddedTwice(b0, b2, b3, BE32(STR) + BE64(|s|), s + [0]);
      AddedTwice(b0, b3, f.bytes, BE32(STR) + BE64(|s|) + (s + [0]), BE64(e.value));
    case Num(n) =>
      f.Write(BE32(UINT));
      ghost var b1 := f.bytes;
      f.Write(BE32(n));
      ghost var b2 := f.bytes;
      f.Write(BE64(e.value));
      AddedTwice(b0, b1, b2, BE32(UINT), BE32(n));
      AddedTwice(b0, b2, f.bytes, BE32(UINT) + BE32(n), BE64(e.value));
  }

  method PutEntries(f: File, es: seq<Entry>)
    requires f.pos == |f.bytes|
    modifies f
    ensures Added(old(f.bytes), f.bytes, EntriesBytes(es, |es|)) && f.pos == |f.bytes|
  {
    ghost var b := f.bytes;
    AddedNone(b);
    assert EntriesBytes(es, 0) == [];
    hide EntryBytes, Added, At, Same;
    for i := 0 to |es|
      invariant Added(b, f.bytes, EntriesBytes(es, i)) && f.pos == |f.bytes|
    {
      ghost var m := f.bytes;
      PutEntry(f, es[i]);
      AddedTwice(b, m, f.bytes, EntriesBytes(es, i), EntryBytes(es[i]));
    }
  }

  lemma {:induction false} EntriesBytesPart(es: seq<Entry>, n: nat, part: seq<Entry>, m: nat)
    requires n + |part| <= |es| && es[n..n + |part|] == part && m <= |part|
    ensures EntriesBytes(es, n + m) == EntriesBytes(es, n) + EntriesBytes(part, m)
    decreases m
  {
    hide EntryBytes;
    if m > 0 {
      EntriesBytesPart(es, n, part, m - 1);
      assert es[n..n + |part|][m - 1] == es[n + m - 1];
    }
  }

  lemma {:induction false} NextChain(v: Table, b: nat)
    requires b < |v.buckets|
    ensures |Flat(v.buckets, b)| <= |Flat(v.buckets, b + 1)| <= |Entries(v)|
    ensures EntriesBytes(Entries(v), |Flat(v.buckets, b)|) + EntriesBytes(v.buckets[b], |v.buckets[b]|)
            == EntriesBytes(Entries(v), |Flat(v.buckets, b + 1)|)
  {
    var n, part := |Flat(v.buckets, b)|, v.buckets[b];
    FlatPrefix(v.buckets, b + 1, |v.buckets|);
    assert Entries(v)[n..n + |part|] == part;
    EntriesBytesPart(Entries(v), n, part, |part|);
  }

  lemma {:induction false} NoChain(v: Table)
    ensures EntriesBytes(Entries(v), 0) == [] && Flat(v.buckets, 0) == [] && Entries(v) == Flat(v.buckets, |v.buckets|)
  {
  }

  /** `write_ht`. */
  method WriteTable(f: File, t: HashTable)
    requires t.Valid() && f.pos == |f.bytes|
    modifies f
    ensures Added(old(f.bytes), f.bytes, TableBytes(t.Value())) && f.pos == |f.bytes|
  {
    hide *;
    ghost var b0, v := f.bytes, t.Value();
    f.Write(BE32(t.size));
    ghost var b1 := f.bytes;
    var len := t.Len();
    f.Write(BE32(len));
    ghost var b2 := f.bytes;
    AddedTwice(b0, b1, b2, BE32(t.size), BE32(len));
    if len > 0 {
      PutBuckets(f, t);
      AddedTwice(b0, b2, f.bytes, BE32(t.size) + BE32(len), EntriesBytes(Entries(v), len));
    }
    TableBytesAre(v);
  }

  lemma {:induction false} TableBytesAre(t: Table)
    ensures TableBytes(t) == BE32(t.size) + BE32(|Entries(t)|) + EntriesBytes(Entries(t), |Entries(t)|)
    ensures |Entries(t)| == 0 ==> TableBytes(t) == BE32(t.size) + BE32(|Entries(t)|)
  {
  }

  /** The bucket loop of `write_ht`. */
  method PutBuckets(f: File, t: HashTable)
    requires t.Valid() && f.pos == |f.bytes|
    modifies f
    ensures Added(old(f.bytes), f.bytes, EntriesBytes(Entries(t.Value()), |Entries(t.Value())|)) && f.pos == |f.bytes|
  {
    hide *;
    ghost var b0, v := f.bytes, t.Value();
    AddedNone(b0);
    NoChain(v);
    for b := 0 to t.size
      invariant t.Value() == v && f.pos == |f.bytes| && |Flat(v.buckets, b)| <= |Entries(v)|
      invariant Added(b0, f.bytes, EntriesBytes(Entries(v), |Flat(v.buckets, b)|))
    {
      ghost var m := f.bytes;
      var es := t.ChainEntries(b);
      PutEntries(f, es);
      NextChain(v, b);
      AddedTwice(b0, m, f.bytes, EntriesBytes(Entries(v), |Flat(v.buckets, b)|), EntriesBytes(es, |es|));
    }
  }

  // ----- reading -----

  /** The chains read_index_file builds from the first n records: a string key is hung at the
      end of its chain, a number only where no chain is yet (otherwise the node is lost). */
  function Reload(es: seq<Entry>, n: nat, size: nat): (r: seq<seq<Entry>>)
    requires n <= |es| && SizeOK(size) && forall i :: 0 <= i < |es| ==> KeyOK(es[i].key)
    ensures |r| == size
  {
    if n == 0 then seq(size, _ => []) else Attach(Reload(es, n - 1, size), es[n - 1])
  }

  function Attach(buckets: seq<seq<Entry>>, e: Entry): (r: seq<seq<Entry>>)
    requires SizeOK(|buckets|) && KeyOK(e.key)
    ensures |r| == |buckets|
  {
    var b := Hash(e.key, |buckets|);
    if e.key.Num? && |buckets[b]| > 0 then buckets else buckets[b := buckets[b] + [e]]
  }

  predicate EntryFits(e: Entry) {
    KeyOK(e.key) && e.value <= OFF_MAX
  }

  /** What a table needs to be stored: counts and positions fit their C types. */
  ghost predicate Storable(t: Table)
    ensures Storable(t) ==> TableOK(t) && |Entries(t)| < 0x8000_0000
    ensures Storable(t) ==> forall i :: 0 <= i < |Entries(t)| ==> KeyOK(Entries(t)[i].key)
  {
    && TableOK(t) && |Entries(t)| < 0x8000_0000
    && forall i :: 0 <= i < |Entries(t)| ==> EntryFits(Entries(t)[i])
  }

  lemma {:induction false} EntryAt(b: seq<byte>, p: nat, es: seq<Entry>, i: nat, n: nat)
    requires i < n <= |es| && At(b, p, EntriesBytes(es, n))
    ensures At(b, p + |EntriesBytes(es, i)|, EntryBytes(es[i]))
    ensures |EntriesBytes(es, i + 1)| == |EntriesBytes(es, i)| + |EntryBytes(es[i])|
    decreases n
  {
    hide EntryBytes;
    AtConcat(b, p, EntriesBytes(es, n - 1), EntryBytes(es[n - 1]));
    if i < n - 1 {
      EntryAt(b, p, es, i, n - 1);
    }
  }

  lemma {:induction false} StrAt(b: seq<byte>, p: nat, s: seq<byte>, value: nat)
    requires At(b, p, EntryBytes(Entry(Str(s), value)))
    ensures At(b, p, BE32(STR)) && At(b, p + 4, BE64(|s|)) && At(b, p + 12, s + [0])
    ensures At(b, p + 13 + |s|, BE64(value))
  {
    var x := BE32(STR) + BE64(|s|);
    assert EntryBytes(Entry(Str(s), value)) == x + (s + [0]) + BE64(value);
    hide BE32, BE64;
    AtConcat(b, p, x + (s + [0]), BE64(value));
    AtConcat(b, p, x, s + [0]);
    AtConcat(b, p, BE32(STR), BE64(|s|));
  }

  lemma {:induction false} NumAt(b: seq<byte>, p: nat, n: u32, value: nat)
    requires At(b, p, EntryBytes(Entry(Num(n), value)))
    ensures At(b, p, BE32(UINT)) && At(b, p + 4, BE32(n)) && At(b, p + 8, BE64(value))
  {
    AtConcat(b, p, BE32(UINT) + BE32(n), BE64(value));
    AtConcat(b, p, BE32(UINT), BE32(n));
  }

  /** One record of the index file. */
  method ReadEntry(f: File, ghost e: Entry) returns (key: Key, value: nat)
    requires EntryFits(e) && At(f.bytes, f.pos, EntryBytes(e))
    modifies f`pos
    ensures key == e.key && value == e.value
    ensures f.pos == old(f.pos) + |EntryBytes(e)|
  {
    hide *;
    EntryWords(f.bytes, f.pos, e);
    var ty := f.Read32();
    if ty == STR {
      var l := f.Read64();
      var data := f.Read(l + 1);
      key := Str(CStr(data));
      value := f.Read64();
    } else {
      var n := f.Read32();
      key := Num(n);
      value := f.Read64();
    }
  }

  /** What the reader finds in the record of an entry. */
  lemma {:induction false} EntryWords(b: seq<byte>, p: nat, e: Entry)
    requires EntryFits(e) && At(b, p, EntryBytes(e))
    ensures STR == 1 && UINT == 2 && e.value < 0x1_0000_0000_0000_0000 && p + |EntryBytes(e)| <= |b|
    ensures e.key.Str? ==>
              var l := |e.key.s|;
              && l < 0x1_0000_0000_0000_0000 && |EntryBytes(e)| == 21 + l
              && At(b, p, BE32(STR)) && At(b, p + 4, BE64(l)) && CStr(Peek(b, p + 12, l + 1)) == e.key.s
              && At(b, p + 13 + l, BE64(e.value))
    ensures e.key.Num? ==>
              |EntryBytes(e)| == 16 && At(b, p, BE32(UINT)) && At(b, p + 4, BE32(e.key.n)) && At(b, p + 8, BE64(e.value))
  {
    if e.key.Str? {
      StrAt(b, p, e.key.s, e.value);
      var data := Peek(b, p + 12, |e.key.s| + 1);
      assert data == BufBytes(Buf(e.key.s, |e.key.s| + 1));
      hide BE32, BE64, At;
      CStrOfBuf(e.key.s, |e.key.s| + 1);
    } else {
      NumAt(b, p, e.key.n, e.value);
    }
  }

  /** A record just read becomes a node of the table. */
  method AttachTo(h: HashTable, key: Key, value: nat, ghost t: Table)
    requires Holds(h, t) && KeyOK(key)
    modifies h, h.dataMap, h.Repr
    ensures fresh(h.Repr - old(h.Repr)) && SizeOK(t.size) && |t.buckets| == t.size
    ensures Holds(h, Table(t.size, Attach(t.buckets, Entry(key, value))))
  {
    hide *;
    var bucket := HashOf(key, h.size);
    h.Bucket(bucket);
    AttachIs(t.buckets, Entry(key, value));
    assert t == Table(h.size, t.buckets);
    if key.Str? || h.dataMap[bucket] == null {
      var last := h.LastNode(bucket);
      h.Hang(bucket, last, key, value);
    } else {
      var current := h.LastNode(bucket); // the new node is assigned to this local and lost
    }
  }

  lemma {:induction false} AttachIs(buckets: seq<seq<Entry>>, e: Entry)
    requires SizeOK(|buckets|) && KeyOK(e.key)
    ensures var b := Hash(e.key, |buckets|);
            Attach(buckets, e) == if e.key.Num? && |buckets[b]| > 0 then buckets else buckets[b := buckets[b] + [e]]
  {
  }

  /** `read_index_file`. */
  method ReadTable(f: File, ghost t: Table) returns (h: HashTable)
    requires Storable(t) && At(f.bytes, f.pos, TableBytes(t))
    modifies f`pos
    ensures fresh(h) && fresh(h.dataMap) && fresh(h.Repr) && h.Valid()
    ensures h.Value() == Reloaded(t) && f.pos == old(f.pos) + |TableBytes(t)|
  {
    hide *;
    ghost var es, p := Entries(t), f.pos;
    TableParts(f.bytes, p, t);
    var size := f.Read32();
    h := new HashTable(size);
    var n := f.Read32();
    for i := 0 to n
      invariant Holds(h, Table(t.size, Reload(es, i, t.size))) && fresh(h.Repr)
      invariant f.pos == p + 8 + |EntriesBytes(es, i)|
    {
      ReadNode(f, h, t, p, i);
    }
  }

  /** h holds the table t. */
  ghost predicate Holds(h: HashTable, t: Table)
    reads h, h.dataMap, h.Repr
    ensures Holds(h, t) <==> h.Valid() && h.Value() == t
  {
    h.Valid() && h.Value() == t
  }

  lemma {:induction false} NextEntry(b: seq<byte>, p: nat, t: Table, i: nat)
    requires Storable(t) && i < |Entries(t)| && At(b, p, EntriesBytes(Entries(t), |Entries(t)|))
    ensures var e, r := Entries(t)[i], Reload(Entries(t), i, t.size);
            && EntryFits(e) && At(b, p + |EntriesBytes(Entries(t), i)|, EntryBytes(e))
            && Reload(Entries(t), i + 1, t.size) == Attach(r, e)
            && |EntriesBytes(Entries(t), i + 1)| == |EntriesBytes(Entries(t), i)| + |EntryBytes(e)|
  {
    hide EntryBytes, Attach, Entries, TableOK, KeyOK;
    EntryAt(b, p, Entries(t), i, |Entries(t)|);
  }

  /** One turn of its loop. */
  method ReadNode(f: File, h: HashTable, ghost t: Table, ghost p: nat, ghost i: nat)
    requires Storable(t) && i < |Entries(t)| && Holds(h, Table(t.size, Reload(Entries(t), i, t.size)))
    requires At(f.bytes, p + 8, EntriesBytes(Entries(t), |Entries(t)|))
    requires f.pos == p + 8 + |EntriesBytes(Entries(t), i)|
    modifies f`pos, h, h.dataMap, h.Repr
    ensures Holds(h, Table(t.size, Reload(Entries(t), i + 1, t.size))) && fresh(h.Repr - old(h.Repr))
    ensures f.pos == p + 8 + |EntriesBytes(Entries(t), i + 1)|
  {
    hide *;
    ghost var es := Entries(t);
    NextEntry(f.bytes, p + 8, t, i);
    var key, value := ReadEntry(f, es[i]);
    AttachTo(h, key, value, Table(t.size, Reload(es, i, t.size)));
  }

  lemma {:induction false} TableParts(b: seq<byte>, p: nat, t: Table)
    requires Storable(t) && At(b, p, TableBytes(t))
    ensures At(b, p, BE32(t.size)) && At(b, p + 4, BE32(|Entries(t)|))
    ensures At(b, p + 8, EntriesBytes(Entries(t), |Entries(t)|)) && p + 8 <= |b|
    ensures |TableBytes(t)| == 8 + |EntriesBytes(Entries(t), |Entries(t)|)| && EntriesBytes(Entries(t), 0) == []
    ensures t.size < 0x1_0000_0000 && Table(t.size, Reload(Entries(t), 0, t.size)) == Table(t.size, seq(t.size, _ => []))
    ensures Reloaded(t) == Table(t.size, Reload(Entries(t), |Entries(t)|, t.size))
  {
    hide Entries, EntryBytes;
    AtConcat(b, p, BE32(t.size) + BE32(|Entries(t)|), EntriesBytes(Entries(t), |Entries(t)|));
    AtConcat(b, p, BE32(t.size), BE32(|Entries(t)|));
  }

  // ----- what the reader gives back -----

  ghost function Reloaded(t: Table): (r: Table)
    requires Storable(t)
    ensures r.size == t.size
  {
    Table(t.size, Reload(Entries(t), |Entries(t)|, t.size))
  }

  /** A chain without the numbers that have another entry before them. */
  function Kept(chain: seq<Entry>): (r: seq<Entry>)
    ensures |chain| > 0 ==> |r| > 0
  {
    if |chain| == 0 then [] else
    var init, last := chain[..|chain| - 1], chain[|chain| - 1];
    if last.key.Num? && |init| > 0 then Kept(init) else Kept(init) + [last]
  }

  /** When the entries of the first m buckets and i more were read, exactly their kept parts are there. */
  lemma {:induction false} ReloadPart(t: Table, m: nat, i: nat)
    requires TableOK(t) && m < t.size && i <= |t.buckets[m]|
    requires forall j :: 0 <= j < |Entries(t)| ==> KeyOK(Entries(t)[j].key)
    ensures |Flat(t.buckets, m)| + i <= |Entries(t)|
    ensures Reload(Entries(t), |Flat(t.buckets, m)| + i, t.size) ==
              seq(t.size, b requires 0 <= b < t.size =>
                if b < m then Kept(t.buckets[b]) else if b == m then Kept(t.buckets[m][..i]) else [])
    decreases m, i
  {
    hide *;
    FlatIs(t, m);
    if i > 0 {
      ReloadPart(t, m, i - 1);
      ReloadStep(t, m, i);
    } else if m > 0 {
      ReloadPart(t, m - 1, |t.buckets[m - 1]|);
      FlatIs(t, m - 1);
      assert t.buckets[m - 1][..|t.buckets[m - 1]|] == t.buckets[m - 1];
      KeptNone(t.buckets[m]);
    } else {
      ReloadNone(t);
      KeptNone(t.buckets[0]);
    }
  }

  lemma {:induction false} FlatIs(t: Table, m: nat)
    requires m < |t.buckets|
    ensures |Flat(t.buckets, m + 1)| == |Flat(t.buckets, m)| + |t.buckets[m]| <= |Entries(t)|
  {
    FlatPrefix(t.buckets, m + 1, |t.buckets|);
  }

  lemma {:induction false} ReloadNone(t: Table)
    requires SizeOK(t.size) && |t.buckets| == t.size && forall j :: 0 <= j < |Entries(t)| ==> KeyOK(Entries(t)[j].key)
    ensures Reload(Entries(t), 0, t.size) == seq(t.size, _ => []) && |Flat(t.buckets, 0)| == 0
  {
  }

  lemma {:induction false} KeptNone(chain: seq<Entry>)
    ensures Kept(chain[..0]) == []
  {
  }

  /** The i-th record of bucket m is read. */
  lemma {:induction false} ReloadStep(t: Table, m: nat, i: nat)
    requires TableOK(t) && m < t.size && 0 < i <= |t.buckets[m]|
    requires forall j :: 0 <= j < |Entries(t)| ==> KeyOK(Entries(t)[j].key)
    requires |Flat(t.buckets, m)| + i <= |Entries(t)|
    requires Reload(Entries(t), |Flat(t.buckets, m)| + i - 1, t.size) ==
               seq(t.size, b requires 0 <= b < t.size =>
                 if b < m then Kept(t.buckets[b]) else if b == m then Kept(t.buckets[m][..i - 1]) else [])
    ensures Reload(Entries(t), |Flat(t.buckets, m)| + i, t.size) ==
              seq(t.size, b requires 0 <= b < t.size =>
                if b < m then Kept(t.buckets[b]) else if b == m then Kept(t.buckets[m][..i]) else [])
  {
    hide *;
    var n, es := |Flat(t.buckets, m)| + i, Entries(t);
    EntryOf(t, m, i - 1);
    KeptNext(t.buckets[m], i);
    ReloadNext(es, n, t.size);
    AttachAt(Reload(es, n - 1, t.size), es[n - 1]);
    assert Reload(es, n, t.size)[m] == Kept(t.buckets[m][..i]);
  }

  /** Entry i of bucket m in the list of all entries. */
  lemma {:induction false} EntryOf(t: Table, m: nat, i: nat)
    requires TableOK(t) && m < t.size && i < |t.buckets[m]|
    ensures |Flat(t.buckets, m)| + i < |Entries(t)| && Entries(t)[|Flat(t.buckets, m)| + i] == t.buckets[m][i]
    ensures KeyOK(t.buckets[m][i].key) && Hash(t.buckets[m][i].key, t.size) == m
  {
    hide Hash, KeyOK;
    FlatPrefix(t.buckets, m + 1, t.size);
    assert Flat(t.buckets, m + 1)[|Flat(t.buckets, m)| + i] == t.buckets[m][i];
  }

  lemma {:induction false} KeptNext(chain: seq<Entry>, i: nat)
    requires 0 < i <= |chain|
    ensures var before := Kept(chain[..i - 1]);
            Kept(chain[..i]) == if chain[i - 1].key.Num? && |before| > 0 then before else before + [chain[i - 1]]
  {
    assert chain[..i][..i - 1] == chain[..i - 1];
  }

  lemma {:induction false} ReloadNext(es: seq<Entry>, n: nat, size: nat)
    requires 0 < n <= |es| && SizeOK(size) && forall i :: 0 <= i < |es| ==> KeyOK(es[i].key)
    ensures |Reload(es, n - 1, size)| == size
    ensures SizeOK(|Reload(es, n - 1, size)|) && Reload(es, n, size) == Attach(Reload(es, n - 1, size), es[n - 1])
  {
    hide KeyOK, Attach;
  }

  lemma {:induction false} AttachAt(buckets: seq<seq<Entry>>, e: Entry)
    requires SizeOK(|buckets|) && KeyOK(e.key)
    ensures var b := Hash(e.key, |buckets|);
            Attach(buckets, e) == if e.key.Num? && |buckets[b]| > 0 then buckets else buckets[b := buckets[b] + [e]]
  {
    hide Hash;
  }

  lemma {:induction false} ReloadKeeps(t: Table)
    requires Storable(t)
    ensures Reloaded(t).buckets == seq(t.size, b requires 0 <= b < t.size => Kept(t.buckets[b]))
  {
    var m := t.size - 1;
    ReloadPart(t, m, |t.buckets[m]|);
    assert t.buckets[m][..|t.buckets[m]|] == t.buckets[m];
  }

  lemma {:induction false} KeptLength(chain: seq<Entry>)
    ensures |Kept(chain)| <= |chain|
    ensures Kept(chain) == chain <==> forall i :: 1 <= i < |chain| ==> chain[i].key.Str?
    decreases |chain|
  {
    if |chain| > 0 {
      KeptLength(chain[..|chain| - 1]);
    }
  }

  /** Of numbers in one bucket the first comes back and no other. */
  lemma {:induction false} KeptNumbers(chain: seq<Entry>)
    requires |chain| > 0 && forall i :: 0 <= i < |chain| ==> chain[i].key.Num?
    ensures Kept(chain) == chain[..1]
    decreases |chain|
  {
    if |chain| > 1 {
      KeptNumbers(chain[..|chain| - 1]);
      assert chain[..|chain| - 1][..1] == chain[..1];
    } else {
      assert Kept(chain[..0]) == [];
    }
  }

  /** Writing a table and reading it back gives every bucket with its chain in the same order
      if and only if no number stands behind another node; so always when the keys are strings. */
  lemma {:induction false} RoundTrip(t: Table)
    requires Storable(t)
    ensures Reloaded(t) == t <==>
            forall b, i :: 0 <= b < t.size && 1 <= i < |t.buckets[b]| ==> t.buckets[b][i].key.Str?
  {
    ReloadKeeps(t);
    hide Kept, Storable;
    forall b | 0 <= b < t.size
      ensures Reloaded(t).buckets[b] == t.buckets[b] <==> forall i :: 1 <= i < |t.buckets[b]| ==> t.buckets[b][i].key.Str?
    {
      KeptLength(t.buckets[b]);
    }
  }

  const Zero := Entry(Num(0), 10)
  const Other := Entry(Num(503), 20)

  /** The tables after one and two sets of numbers that share a bucket: 0 and 503 in a table of 503. */
  const OneNumber := Table(503, EmptyTable(503).buckets[78 := [Zero]])
  const TwoNumbers := Table(503, EmptyTable(503).buckets[78 := [Zero, Other]])

  /** The second can be written, but only the first number comes back. */
  lemma {:induction false} NumbersGetLost()
    ensures KeyOK(Num(0)) && KeyOK(Num(503)) && Hash(Num(0), 503) == Hash(Num(503), 503)
    ensures Set(EmptyTable(503), Num(0), 10) == Some(OneNumber) && Set(OneNumber, Num(503), 20) == Some(TwoNumbers)
    ensures Storable(TwoNumbers) && Reloaded(TwoNumbers) != TwoNumbers
  {
    NumbersShare();
    NumbersSet();
    NumbersStored();
    hide *;
    ReloadKeeps(TwoNumbers);
    KeptFirst();
    BucketOf();
  }

  lemma {:induction false} NumbersShare()
    ensures KeyOK(Num(0)) && KeyOK(Num(503)) && Hash(Num(0), 503) == 78 && Hash(Num(503), 503) == 78 && SizeOK(503)
  {
  }

  lemma {:induction false} BucketOf()
    ensures |EmptyTable(503).buckets| == 503 && EmptyTable(503).size == 503 && EmptyTable(503).buckets[78] == []
    ensures |OneNumber.buckets| == 503 && OneNumber.size == 503 && OneNumber.buckets[78] == [Zero]
    ensures |TwoNumbers.buckets| == 503 && TwoNumbers.size == 503 && TwoNumbers.buckets[78] == [Zero, Other]
    ensures Zero.key == Num(0) && Other.key == Num(503)
  {
  }

  lemma {:induction false} NumbersSet()
    ensures KeyOK(Num(0)) && KeyOK(Num(503)) && SizeOK(503)
    ensures |EmptyTable(503).buckets| == 503 == EmptyTable(503).size && |OneNumber.buckets| == 503 == OneNumber.size
    ensures Set(EmptyTable(503), Num(0), 10) == Some(OneNumber) && Set(OneNumber, Num(503), 20) == Some(TwoNumbers)
  {
    NumbersShare();
    BucketOf();
    hide Hash, EmptyTable;
    assert [] + [Zero] == [Zero] && [Zero] + [Other] == [Zero, Other];
    assert [Zero][1..] == [] && Find([Zero], Num(503)) == None;
    var second := Set(OneNumber, Num(503), 20).value;
    assert second.buckets == OneNumber.buckets[78 := [Zero] + [Other]] == TwoNumbers.buckets;
  }

  lemma {:induction false} NumbersStored()
    ensures Storable(TwoNumbers)
  {
    NumbersSet();
    hide *;
    EmptyOK(503);
    SetRefines(EmptyTable(503), Num(0), 10);
    SetRefines(OneNumber, Num(503), 20);
    assert ToMap(TwoNumbers) == map[Num(0) := 10, Num(503) := 20];
    LenRefines(TwoNumbers);
    EntriesOnce(TwoNumbers);
    SmallEntries(TwoNumbers);
  }

  lemma {:induction false} SmallEntries(t: Table)
    requires TableOK(t) && |Entries(t)| == 2 && ToMap(t) == map[Num(0) := 10, Num(503) := 20]
    ensures Storable(t)
  {
    EntriesOnce(t);
    hide Hash, Get, TableOK, Entries, KeyOK;
    forall i | 0 <= i < |Entries(t)| ensures EntryFits(Entries(t)[i]) {
      assert Entries(t)[i].key in KeySet(Entries(t));
      assert ToMap(t)[Entries(t)[i].key] <= 20;
    }
  }

  lemma {:induction false} KeptFirst()
    ensures Kept([Zero, Other]) == [Zero]
  {
    assert [Zero, Other][..1] == [Zero] && [Zero][..0] == [];
    assert Kept([Zero]) == [Zero];
  }
}
