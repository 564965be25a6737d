// The operations of the program on the two files: look up, write, delete, update.
module DatabaseOps {
  import opened Bytes
  import opened ByteFile
  import opened Layout
  import opened CellUpdate
  import opened Fragment
  import opened RecordFile
  import opened RecordWrite
  import RecordRead
  import opened RecordStore
  import opened FileFormat
  import opened RecordCompare
  import opened TableModel
  import opened HashTable
  import opened IndexTable
  import opened IndexFile
  import opened DatabaseIndex
  import opened DatabaseModel
  import opened Database

  /** The files hold the state s. */
  ghost predicate On(data: File, index: File, s: State)
    reads data, index
    ensures On(data, index, s) <==> data.bytes == s.data && index.bytes == s.index
  {
    data.bytes == s.data && index.bytes == s.index
  }

  // ----- reading -----

  /** Letters and punctuation of the C locale. */
  predicate LetterOrPunct(c: byte) {
    33 <= c <= 126 && !(48 <= c <= 57)
  }

  /** The letters, and the 32 marks that are neither letter, digit, blank nor control. */
  lemma {:induction false} LettersAndMarks(c: byte)
    ensures LetterOrPunct(c) <==>
              || 65 <= c <= 90 || 97 <= c <= 122
              || c in [33, 34, 35, 36, 37, 38, 39, 40, 41, 42, 43, 44, 45, 46, 47, 58, 59, 60, 61, 62, 63, 64,
                       91, 92, 93, 94, 95, 96, 123, 124, 125, 126]
  {
  }

  /** `is_num`: a key with a letter or a punctuation mark is a string, any other is a number. */
  method IsNum(key: seq<byte>) returns (ty: nat)
    ensures ty == STR <==> exists i :: 0 <= i < |key| && LetterOrPunct(key[i])
    ensures ty == STR || ty == UINT
  {
    for i := 0 to |key|
      invariant forall j :: 0 <= j < i ==> !LetterOrPunct(key[j])
    {
      if LetterOrPunct(key[i]) {
        return STR;
      }
    }
    ty := UINT;
  }

  /** `get_rec_position` in the first table of the index file. */
  method Lookup(index: File, key: Key, ghost ts: seq<Table>, ghost m: map<Key, nat>) returns (offset: int)
    requires IndexOK(index.bytes, ts, m) && KeyOK(key) && key.Str? && forall k :: k in m ==> k.Str?
    modifies index`pos
    ensures offset == if key in m then m[key] else -1
  {
    hide *;
    IndexParts(index.bytes, ts, m, key);
    IndexKind(index.bytes, ts, m);
    ReadsBack(ts);
    var h := ReadNr(index, 0, ts);
    offset := h.value.Get(key);
  }

  lemma {:induction false} IndexParts(x: seq<byte>, ts: seq<Table>, m: map<Key, nat>, k: Key)
    requires IndexOK(x, ts, m) && KeyOK(k)
    ensures Written(x, ts, |ts|) && TablesOK(ts) && SizeOK(ts[0].size) && |ts[0].buckets| == ts[0].size
    ensures Get(ts[0], k) == if k in m then Some(m[k]) else None
  {
    hide Hash, Readable, Written, Get, Storable, KeyOK;
  }

  lemma {:induction false} IndexKind(x: seq<byte>, ts: seq<Table>, m: map<Key, nat>)
    requires IndexOK(x, ts, m) && forall k :: k in m ==> k.Str?
    ensures |ts| > 0 && OneKind(ts[0], true)
  {
    hide Hash, Readable, Written, Get, Storable, KeyOK, ToMap;
    KindOfMap(ts[0], true);
  }

  lemma {:induction false} ChainParts(b: seq<byte>, db: Db, k: Key, i: nat)
    requires DataOK(b, db.types, db.frs) && ChainsOK(db) && k in db.chains
    ensures |db.chains[k]| > 0
    ensures i < |db.chains[k]| ==>
              && db.chains[k][i] < |db.frs|
              && var fr := db.frs[db.chains[k][i]];
              && FragWF(fr) && FragOK(b, fr) && FragApart(fr) && RecordRead.Conforms(fr, db.types)
              && (i + 1 < |db.chains[k]| ==> db.chains[k][i + 1] < |db.frs| && fr.link == db.frs[db.chains[k][i + 1]].at > 0)
              && (i + 1 == |db.chains[k]| ==> fr.link == 0)
  {
    hide FragWF, FragOK, FragApart, RecordRead.Conforms, FragFoot;
    var c := db.chains[k];
    assert ChainOK(db.frs, c);
    if i < |c| {
      assert db.frs[c[i]].link == NextAt(db.frs, c, i);
      assert i + 1 < |c| ==> c[i] < c[i + 1];
    }
  }

  lemma {:induction false} ChainRecords(db: Db, k: Key)
    requires Typed(db.frs, db.types) && ChainsOK(db) && k in db.chains
    ensures |Abs(db)[k]| == |db.chains[k]| > 0 && db.chains[k][0] < |db.frs|
    ensures Starts(db)[k] == db.frs[db.chains[k][0]].at
    ensures forall i :: 0 <= i < |db.chains[k]| ==>
              && db.chains[k][i] < |db.frs| && FragWF(db.frs[db.chains[k][i]])
              && RecordRead.Conforms(db.frs[db.chains[k][i]], db.types)
              && Abs(db)[k][i] == RecordOf(db.frs[db.chains[k][i]], |db.types|)
  {
    hide FragWF, RecordRead.Conforms, RecordOf;
    assert ChainOK(db.frs, db.chains[k]);
  }

  /** All fragments of a record, following the links, and where they stand. */
  method ReadChain(data: File, types: seq<FieldType>, offset: nat, ghost db: Db, ghost k: Key)
    returns (recs: seq<Record>, places: seq<nat>)
    requires DataOK(data.bytes, types, db.frs) && ChainsOK(db) && db.types == types && k in db.chains
    requires offset == Starts(db)[k]
    modifies data`pos
    ensures Typed(db.frs, types) && recs == Abs(db)[k] && |places| == |recs| == |db.chains[k]|
    ensures forall i :: 0 <= i < |places| ==> db.chains[k][i] < |db.frs| && places[i] == db.frs[db.chains[k][i]].at
  {
    hide *;
    ghost var c := db.chains[k];
    ChainRecords(db, k);
    var rec, link := ReadFragment(data, types, offset, db, k, 0);
    recs, places := [rec], [offset];
    while link > 0
      invariant 0 < |recs| == |places| <= |c|
      invariant recs == Abs(db)[k][..|recs|]
      invariant forall i :: 0 <= i < |recs| ==> places[i] == db.frs[c[i]].at
      invariant link == if |recs| < |c| then db.frs[c[|recs|]].at else 0
      decreases |c| - |recs|
    {
      places := places + [link];
      rec, link := ReadFragment(data, types, link, db, k, |recs|);
      recs := recs + [rec];
    }
    ChainParts(data.bytes, db, k, |recs| - 1);
    ChainParts(data.bytes, db, k, |recs|);
  }

  /** One fragment and its link. */
  method ReadFragment(data: File, types: seq<FieldType>, at: nat, ghost db: Db, ghost k: Key, ghost i: nat)
    returns (rec: Record, link: nat)
    requires DataOK(data.bytes, types, db.frs) && ChainsOK(db) && db.types == types && k in db.chains
    requires i < |db.chains[k]| && db.chains[k][i] < |db.frs| && at == db.frs[db.chains[k][i]].at
    modifies data`pos
    ensures |Abs(db)[k]| == |db.chains[k]| && rec == Abs(db)[k][i]
    ensures i + 1 < |db.chains[k]| ==> db.chains[k][i + 1] < |db.frs|
    ensures link == if i + 1 < |db.chains[k]| then db.frs[db.chains[k][i + 1]].at else 0
  {
    hide *;
    ChainRecords(db, k);
    ChainParts(data.bytes, db, k, i);
    data.Seek(at);
    rec := RecordRead.Read(data, types, db.frs[db.chains[k][i]]);
    link := RecordRead.ReadLink(data, db.frs[db.chains[k][i]]);
  }

  lemma {:induction false} InvParts(s: State)
    requires Inv(s)
    ensures DataOK(s.data, s.db.types, s.db.frs) && ChainsOK(s.db) && Typed(s.db.frs, s.db.types)
    ensures IndexOK(s.index, s.ts, Starts(s.db)) && Contents(s) == Abs(s.db)
    ensures |s.data| <= OFF_MAX && forall k :: k in Starts(s.db) ==> k.Str?
  {
    hide Typed, ChainsOK, IndexOK, Store;
  }

  /** `get_record`: the fragments of the key's record in order, and how many they are. */
  method GetRecord(data: File, index: File, types: seq<FieldType>, key: Key, ghost s: State)
    returns (r: Option<seq<Record>>, count: nat)
    requires Inv(s) && On(data, index, s) && types == s.db.types && KeyOK(key) && key.Str?
    modifies data`pos, index`pos
    ensures r == if key in Contents(s) then Some(Contents(s)[key]) else None
    ensures r.Some? ==> count == |r.value|
  {
    hide *;
    InvParts(s);
    var offset := Lookup(index, key, s.ts, Starts(s.db));
    if offset == -1 {
      return None, 0;
    }
    var recs, places := ReadChain(data, types, offset, s.db, key);
    r, count := Some(recs), |recs|;
  }

  // ----- writing and deleting -----

  /** The files have room for one more record: no position leaves the range of an off_t. */
  ghost predicate RoomToInsert(s: State, k: Key, rec: Record)
    requires Inv(s) && KeyOK(k) && RecordWF(rec, s.db.types)
  {
    && TablesOK(s.ts) && RoomToWrite(|s.data|, rec, s.db.types)
    && (Set(s.ts[0], k, |s.data|).Some? ==> RoomFor(s.ts, Set(s.ts[0], k, |s.data|).value))
  }

  ghost predicate RoomToWrite(eof: nat, rec: Record, types: seq<FieldType>)
    requires RecordWF(rec, types)
  {
    var nw := NewFrag(eof, rec, types);
    FragWF(nw) && LinkPos(nw) + 8 <= OFF_MAX
  }

  lemma {:induction false} InsertParts(s: State, k: Key, rec: Record)
    requires Inv(s) && KeyOK(k) && k.Str? && RecordWF(rec, s.db.types) && RoomToInsert(s, k, rec)
    ensures TablesOK(s.ts) && Written(s.index, s.ts, |s.ts|) && RoomToWrite(|s.data|, rec, s.db.types)
    ensures k in Contents(s) <==> Set(s.ts[0], k, |s.data|).None?
    ensures Set(s.ts[0], k, |s.data|).Some? ==> RoomFor(s.ts, Set(s.ts[0], k, |s.data|).value)
  {
    InvParts(s);
    hide DataOK, RecordWF, RoomToWrite, TablesOK, Set, ChainsOK, KeyOK, Written, Typed, RoomFor;
    SetIndex(s.index, s.index, s.ts, Starts(s.db), k, |s.data|);
  }

  /** Appending the record of the new key. */
  method AppendRecord(data: File, rec: Record, ghost types: seq<FieldType>)
    requires RecordWF(rec, types) && |Fields(rec)| > 0 && RoomToWrite(|data.bytes|, rec, types)
    modifies data
    ensures Appended(old(data.bytes), data.bytes, NewFrag(|old(data.bytes)|, rec, types)) && |data.bytes| <= OFF_MAX
  {
    AllWFVals(rec, types);
    hide RecordWF, FragWF, FreshFrag, AllWF, Fields, Vals;
    var _ := data.SeekEnd();
    var r := Append(data, rec, 0);
  }

  /** The new table first in the file, the others as they were. */
  method SaveFirst(index: File, hs: seq<HashTable>, ghost ts: seq<Table>, ghost t: Table)
    requires |hs| == |ts| > 0 && Holds(hs[0], t) && forall i :: 1 <= i < |hs| ==> Holds(hs[i], ts[i])
    modifies index
    ensures Written(index.bytes, ts[0 := t], |ts|)
  {
    hide *;
    WriteIndex(index, hs, ts[0 := t]);
  }

  /** All tables of the index file in memory, the first one ready for a change. */
  ghost predicate Loaded(hs: seq<HashTable>, ts: seq<Table>)
    reads hs, set i | 0 <= i < |hs| :: hs[i].dataMap, set i, n | 0 <= i < |hs| && n in hs[i].Repr :: n
    ensures Loaded(hs, ts) ==> |hs| == |ts| > 0
  {
    && |hs| == |ts| > 0 && (forall i :: 0 <= i < |hs| ==> Holds(hs[i], ts[i]))
    && (forall i :: 1 <= i < |hs| ==> hs[0] != hs[i] && hs[0].dataMap != hs[i].dataMap && hs[0].Repr !! hs[i].Repr)
  }

  method SetFirst(hs: seq<HashTable>, key: Key, value: nat, ghost ts: seq<Table>) returns (ok: bool)
    requires Loaded(hs, ts) && KeyOK(key) && SizeOK(ts[0].size) && |ts[0].buckets| == ts[0].size
    requires OneKind(ts[0], key.Str?)
    modifies hs[0], hs[0].dataMap, hs[0].Repr
    ensures ok <==> Set(ts[0], key, value).Some?
    ensures ok ==> Holds(hs[0], Set(ts[0], key, value).value)
    ensures forall i :: 1 <= i < |hs| ==> Holds(hs[i], ts[i])
  {
    hide HashTable.Valid, HashTable.Value, KeyOK, Set, Holds;
    ok := hs[0].Set(key, value);
  }

  method DeleteFirst(hs: seq<HashTable>, key: Key, ghost ts: seq<Table>) returns (ok: bool)
    requires Loaded(hs, ts) && KeyOK(key) && SizeOK(ts[0].size) && |ts[0].buckets| == ts[0].size
    requires OneKind(ts[0], key.Str?)
    modifies hs[0], hs[0].dataMap, hs[0].Repr
    ensures ok <==> Get(ts[0], key).Some?
    ensures Holds(hs[0], Delete(ts[0], key))
    ensures forall i :: 1 <= i < |hs| ==> Holds(hs[i], ts[i])
  {
    hide HashTable.Valid, HashTable.Value, KeyOK, Delete, Holds, Get;
    var removed := hs[0].Delete(key);
    ok := removed != null;
  }

  /** `read_all_index_file` of a well-formed index file. */
  method Load(index: File, ghost ts: seq<Table>) returns (hs: seq<HashTable>)
    requires TablesOK(ts) && Written(index.bytes, ts, |ts|)
    modifies index`pos
    ensures Loaded(hs, ts) && forall i :: 0 <= i < |hs| ==> fresh(hs[i]) && fresh(hs[i].dataMap) && fresh(hs[i].Repr)
    ensures SizeOK(ts[0].size) && |ts[0].buckets| == ts[0].size
  {
    hide HashTable.Valid, HashTable.Value, Written, TablesOK, Reloaded, Storable;
    ReadsBack(ts);
    var ok;
    ok, hs := ReadAll(index, ts);
  }

  /**
   * `write_record`: a new key gets its record at the end of the data file and its place in
   * the index; for a key that is there neither file changes.
   */
  method WriteRecord(data: File, index: File, key: Key, rec: Record, ghost s: State) returns (ok: bool, ghost s': State)
    requires data != index && Inv(s) && On(data, index, s) && KeyOK(key) && key.Str?
    requires RecordWF(rec, s.db.types) && |Fields(rec)| > 0 && RoomToInsert(s, key, rec)
    modifies data, index
    ensures On(data, index, s') && Step(s, Insert(key, rec), s')
    ensures ok <==> key !in Contents(s)
    ensures Written(index.bytes, s'.ts, |s'.ts|) && |s'.ts| == |s.ts|
    ensures forall i :: 1 <= i < |s.ts| ==> s'.ts[i] == s.ts[i]
    ensures |rec| <= MAX_FIELD_NR && (ok ==> data.bytes == old(data.bytes) + RecordBytes(rec))
  {
    hide *;
    SchemaBound(rec, s.db.types);
    InsertParts(s, key, rec);
    InvParts(s);
    IndexKind(s.index, s.ts, Starts(s.db));
    var eof := data.SeekEnd();
    var hs := Load(index, s.ts);
    ok := SetFirst(hs, key, eof, s.ts);
    s' := s;
    if ok {
      AppendRecord(data, rec, s.db.types);
      NewBytes(s.data, data.bytes, rec, s.db.types);
      ghost var t := Set(s.ts[0], key, eof).value;
      SaveFirst(index, hs, s.ts, t);
      s' := State(data.bytes, index.bytes, s.ts[0 := t], Inserted(s.db, key, NewFrag(|s.data|, rec, s.db.types)));
    }
    StepInsert(s, key, rec, s');
    StepKept(s, Insert(key, rec), s');
  }

  lemma {:induction false} SchemaBound(rec: Record, types: seq<FieldType>)
    requires RecordWF(rec, types)
    ensures |rec| <= MAX_FIELD_NR
  {
  }

  lemma {:induction false} NewBytes(b: seq<byte>, b': seq<byte>, rec: Record, types: seq<FieldType>)
    requires RecordWF(rec, types) && |Fields(rec)| > 0 && Appended(b, b', NewFrag(|b|, rec, types))
    ensures |rec| <= MAX_FIELD_NR && b' == b + RecordBytes(rec)
  {
    AllWFVals(rec, types);
    hide Appended, FreshFrag, AllWF, Fields, Vals, RecordBytes;
    AppendWrites(b, b', rec);
  }

  lemma {:induction false} StepKept(s: State, op: Op, s': State)
    requires Inv(s) && Step(s, op, s')
    ensures Written(s'.index, s'.ts, |s'.ts|) && |s'.ts| == |s.ts|
    ensures forall i :: 1 <= i < |s.ts| ==> s'.ts[i] == s.ts[i]
  {
    hide *;
    StepKeeps(s, op, s');
    StepRefines(s, op, s');
    InvParts(s');
    StillWritten(s'.index, s'.ts, Starts(s'.db));
  }

  lemma {:induction false} StillWritten(x: seq<byte>, ts: seq<Table>, m: map<Key, nat>)
    requires IndexOK(x, ts, m)
    ensures Written(x, ts, |ts|)
  {
    hide TablesOK, ToMap, Written;
  }

  lemma {:induction false} StepInsert(s: State, k: Key, rec: Record, s': State)
    requires Inv(s) && KeyOK(k) && k.Str? && if k in Contents(s) then s' == s else Inserts(s, k, rec, s')
    ensures Step(s, Insert(k, rec), s')
  {
  }

  /** The deletion of a key, in the first index: an unknown key changes nothing. */
  method DeleteRecord(index: File, key: Key, ghost s: State) returns (ok: bool, ghost s': State)
    requires Inv(s) && index.bytes == s.index && KeyOK(key) && key.Str?
    modifies index
    ensures index.bytes == s'.index && s'.data == s.data && Step(s, Remove(key), s')
    ensures ok <==> key in Contents(s)
    ensures Written(index.bytes, s'.ts, |s'.ts|) && |s'.ts| == |s.ts|
    ensures forall i :: 1 <= i < |s.ts| ==> s'.ts[i] == s.ts[i]
  {
    hide *;
    InvParts(s);
    IndexParts(s.index, s.ts, Starts(s.db), key);
    IndexKind(s.index, s.ts, Starts(s.db));
    var hs := Load(index, s.ts);
    ok := DeleteFirst(hs, key, s.ts);
    s' := s;
    if ok {
      ghost var t := Delete(s.ts[0], key);
      SaveFirst(index, hs, s.ts, t);
      s' := State(s.data, index.bytes, s.ts[0 := t], Dropped(s.db, key));
    }
    StepRemove(s, key, s');
    StepKept(s, Remove(key), s');
  }

  lemma {:induction false} StepRemove(s: State, k: Key, s': State)
    requires Inv(s) && KeyOK(k) && k.Str? && if k in Contents(s) then Deletes(s, k, s') else s' == s
    ensures Step(s, Remove(k), s')
  {
  }

  // ----- updating -----

  /** Fragment i of the key may take the record: same fields, array lengths that read back, room to grow. */
  ghost predicate Fits(s: State, k: Key, i: nat, rec: Record)
    ensures Fits(s, k, i, rec) ==> k in s.db.chains && i < |s.db.chains[k]| && s.db.chains[k][i] < |s.db.frs|
  {
    && k in s.db.chains && i < |s.db.chains[k]| && s.db.chains[k][i] < |s.db.frs| && RecordWF(rec, s.db.types)
    && var fr := s.db.frs[s.db.chains[k][i]];
    && Fields(rec) == fr.fields && AllAccept(fr.cells, Vals(rec), 0)
  }

  /** How much the file grows when fragment i of the key takes the record. */
  ghost function GrowthOf(s: State, k: Key, i: nat, rec: Record): nat
    requires Fits(s, k, i, rec)
  {
    GrowthFrom(s.db.frs[s.db.chains[k][i]].cells, Vals(rec), 0)
  }

  /** A record whose every field is the old one or the update's, the old one being there. */
  predicate Blend(was: Record, rec: Record, nw: Record) {
    && |was| == |rec| == |nw|
    && forall j :: 0 <= j < |nw| ==> nw[j] == was[j] || (Both(was, rec, j) && nw[j] == rec[j])
  }

  /** Its arrays have lengths that the chains they replace take. */
  ghost predicate LengthsFit(fr: Frag, rec: Record)
    requires FragWF(fr)
  {
    forall j :: 0 <= j < |fr.cells| && fr.fields[j] < |rec| && rec[fr.fields[j]].Some? ==>
      CellWF(fr.cells[j]) && TakesLength(fr.cells[j], rec[fr.fields[j]].value)
  }

  /** Fragment i of the key takes the record's arrays. */
  ghost predicate Takes(s: State, k: Key, i: nat, nw: Record)
    requires Inv(s)
  {
    k in s.db.chains && i < |s.db.chains[k]| && LengthsFit(FragAt(s.db, k, i), nw)
  }

  lemma {:induction false} BlendActive(fr: Frag, types: seq<FieldType>, rec: Record, nw: Record)
    requires FragWF(fr) && RecordRead.Conforms(fr, types) && RecordWF(rec, types) && Blend(Rec(fr, types), rec, nw)
    ensures RecordWF(nw, types) && Fields(nw) == fr.fields && |Vals(nw)| == |fr.cells| == |fr.fields|
    ensures forall k :: 0 <= k < |fr.cells| ==>
              && fr.fields[k] < |nw| && nw[fr.fields[k]].Some? && Vals(nw)[k] == nw[fr.fields[k]].value
              && CellWF(fr.cells[k]) && CellTidy(fr.cells[k])
              && ValueWF(Vals(nw)[k]) && TypeOf(Vals(nw)[k]) == CellType(fr.cells[k])
  {
    OwnRecord(fr, types);
    hide ValueWF, CellWF, CellTidy, CellValue, Rec, Active, Values;
    var was := Rec(fr, types);
    SameActive(nw, was, |nw|);
    forall k | 0 <= k < |fr.cells|
      ensures fr.fields[k] < |nw| && nw[fr.fields[k]].Some? && Vals(nw)[k] == nw[fr.fields[k]].value
    {
      ActiveAt(nw, |nw|, k);
    }
  }

  lemma {:induction false} BlendAccepted(fr: Frag, types: seq<FieldType>, rec: Record, nw: Record)
    requires FragWF(fr) && RecordRead.Conforms(fr, types) && RecordWF(rec, types) && Blend(Rec(fr, types), rec, nw)
    requires LengthsFit(fr, nw)
    ensures RecordWF(nw, types) && Fields(nw) == fr.fields && AllAccept(fr.cells, Vals(nw), 0)
  {
    BlendActive(fr, types, rec, nw);
    hide ValueWF, CellWF, CellTidy, CellValue, FragWF, RecordRead.Conforms, RecordWF, Blend, Rec, Fields, Vals, TakesLength, Accepts;
    forall k | 0 <= k < |fr.cells| ensures CellWF(fr.cells[k]) && Accepts(fr.cells[k], Vals(nw)[k]) {
      AcceptsNew(fr.cells[k], Vals(nw)[k]);
    }
  }

  /** A fragment that takes the arrays takes the record. */
  lemma {:induction false} TakesFits(s: State, k: Key, i: nat, rec: Record, nw: Record)
    requires Inv(s) && RecordWF(rec, s.db.types) && Takes(s, k, i, nw) && k in Contents(s) && i < |Contents(s)[k]|
    requires Blend(Contents(s)[k][i], rec, nw)
    ensures Fits(s, k, i, nw)
  {
    hide *;
    InvParts(s);
    TakesParts(s, k, i, nw);
    ChainRecords(s.db, k);
    BlendAccepted(FragAt(s.db, k, i), s.db.types, rec, nw);
    FitsIs(s, k, i, nw);
  }

  lemma {:induction false} TakesParts(s: State, k: Key, i: nat, nw: Record)
    requires Inv(s) && Takes(s, k, i, nw)
    ensures k in s.db.chains && i < |s.db.chains[k]| && LengthsFit(FragAt(s.db, k, i), nw)
  {
    hide Inv, LengthsFit;
  }

  lemma {:induction false} FitsIs(s: State, k: Key, i: nat, rec: Record)
    requires k in s.db.chains && i < |s.db.chains[k]| && s.db.chains[k][i] < |s.db.frs| && RecordWF(rec, s.db.types)
    requires var fr := s.db.frs[s.db.chains[k][i]]; Fields(rec) == fr.fields && AllAccept(fr.cells, Vals(rec), 0)
    ensures Fits(s, k, i, rec)
  {
    hide RecordWF, Fields, AllAccept, Vals;
  }

  /** How much the file grows, when the fragment takes the record. */
  ghost function GrowthIf(s: State, k: Key, i: nat, rec: Record): (n: nat)
    ensures Fits(s, k, i, rec) ==> n == GrowthOf(s, k, i, rec)
  {
    if Fits(s, k, i, rec) then GrowthOf(s, k, i, rec) else 0
  }

  /** What rewriting fragment i needs of the file, the place being known. */
  lemma {:induction false} FitParts(s: State, k: Key, i: nat, rec: Record)
    requires Inv(s) && Fits(s, k, i, rec)
    ensures var fr := s.db.frs[s.db.chains[k][i]];
            && FragWF(fr) && FragOK(s.data, fr) && FragApart(fr) && |rec| <= MAX_FIELD_NR && fr.link <= OFF_MAX
            && fr.fields == Fields(rec) && AllAccept(fr.cells, Vals(rec), 0)
            && GrowthOf(s, k, i, rec) == GrowthFrom(fr.cells, Vals(rec), 0)
            && fr.link == if i + 1 < |s.db.chains[k]| then s.db.frs[s.db.chains[k][i + 1]].at else 0
    ensures i + 1 < |s.db.chains[k]| ==> s.db.chains[k][i + 1] < |s.db.frs|
  {
    InvParts(s);
    ChainParts(s.data, s.db, k, i);
    hide Inv, FragOK, FragApart, DataOK, ChainsOK, Fields, AllAccept, Typed;
  }

  /** `write_file(update = 1)` of fragment i at its place, with the link to the next one. */
  method RewriteFragment(data: File, at: nat, link: nat, rec: Record, ghost s: State, ghost k: Key, ghost i: nat)
    returns (ghost s': State)
    requires Inv(s) && data.bytes == s.data && Fits(s, k, i, rec) && |s.data| + GrowthOf(s, k, i, rec) <= OFF_MAX
    requires KeyOK(k) && k.Str?
    requires at == s.db.frs[s.db.chains[k][i]].at && link == s.db.frs[s.db.chains[k][i]].link
    modifies data
    ensures data.bytes == s'.data && s'.index == s.index && Step(s, Overwrite(k, i, rec), s')
    ensures |s'.data| == |s.data| + GrowthOf(s, k, i, rec)
    ensures s'.db.types == s.db.types && s'.db.chains == s.db.chains && |s'.db.frs| == |s.db.frs|
    ensures forall j :: 0 <= j < |s.db.frs| && j != s.db.chains[k][i] ==> s'.db.frs[j] == s.db.frs[j]
    ensures s'.db.frs[s.db.chains[k][i]].at == at
  {
    hide *;
    FitParts(s, k, i, rec);
    ghost var fr := s.db.frs[s.db.chains[k][i]];
    data.Seek(at);
    var r := Rewrite(data, rec, link, fr);
    s' := s.(data := data.bytes, db := Replaced(s.db, s.db.chains[k][i], After(s.data, fr, Vals(rec), link)));
    StepOverwrite(s, k, i, rec, s');
  }

  lemma {:induction false} StepOverwrite(s: State, k: Key, i: nat, rec: Record, s': State)
    requires Inv(s) && KeyOK(k) && k.Str? && Fits(s, k, i, rec)
    requires var j := s.db.chains[k][i]; var fr := s.db.frs[j];
             && FragWF(fr) && Rewritten(s.data, s'.data, fr, Vals(rec), fr.link)
             && |s.data| + GrowthOf(s, k, i, rec) <= OFF_MAX
             && s' == s.(data := s'.data, db := Replaced(s.db, j, After(s.data, fr, Vals(rec), fr.link)))
    ensures Step(s, Overwrite(k, i, rec), s') && |s'.data| == |s.data| + GrowthOf(s, k, i, rec)
    ensures s'.db.types == s.db.types && s'.db.chains == s.db.chains && |s'.db.frs| == |s.db.frs|
    ensures forall j :: 0 <= j < |s.db.frs| && j != s.db.chains[k][i] ==> s'.db.frs[j] == s.db.frs[j]
    ensures s'.db.frs[s.db.chains[k][i]].at == s.db.frs[s.db.chains[k][i]].at
  {
    hide Inv, FragOK, FragApart, FragFoot, Frame, RecordWF, KeyOK, FragWF, AllAccept;
  }

  /** A fragment's own values written over themselves, with a new link. */
  method Relink(data: File, at: nat, to: nat, rec: Record, ghost fr: Frag, ghost types: seq<FieldType>)
    requires FragWF(fr) && FragOK(data.bytes, fr) && FragApart(fr) && RecordRead.Conforms(fr, types) && fr.at == at
    requires rec == Rec(fr, types) && to <= OFF_MAX && |data.bytes| <= OFF_MAX
    modifies data
    ensures Links(old(data.bytes), data.bytes, fr, to) && |data.bytes| == |old(data.bytes)|
  {
    OwnRecord(fr, types);
    OverwrittenSame(fr, 0, |data.bytes|);
    assert |rec| <= MAX_FIELD_NR;
    hide FragWF, FragOK, FragApart, RecordRead.Conforms, AllAccept, Rec, RecordWF, Fields;
    data.Seek(at);
    var _ := Rewrite(data, rec, to, fr);
  }

  /** The last fragment of the chain, and the record read from it. */
  lemma {:induction false} LastParts(s: State, k: Key, i: nat, rec: Record)
    requires Inv(s) && k in s.db.chains && i + 1 == |s.db.chains[k]| && |Contents(s)[k]| == i + 1
    requires Contents(s)[k][i] == rec
    ensures s.db.chains[k][i] < |s.db.frs|
    ensures var fr := LastFrag(s.db, k);
            && fr == s.db.frs[s.db.chains[k][i]] && FragWF(fr) && FragOK(s.data, fr) && FragApart(fr)
            && RecordRead.Conforms(fr, s.db.types) && rec == Rec(fr, s.db.types)
    ensures |s.data| <= OFF_MAX
  {
    InvParts(s);
    hide Inv, FragOK, FragApart, DataOK, ChainsOK, Typed, FragWF, RecordRead.Conforms;
    ChainRecords(s.db, k);
    ChainParts(s.data, s.db, k, i);
  }

  /** A second fragment: the only one is linked to the end of the file, then the new one is written there. */
  method ExtendSingle(data: File, at: nat, was: Record, rec: Record, ghost s: State, ghost k: Key)
    returns (ghost s': State)
    requires Inv(s) && data.bytes == s.data && k in s.db.chains && |s.db.chains[k]| == 1 && KeyOK(k) && k.Str?
    requires Contents(s)[k] == [was] && s.db.chains[k][0] < |s.db.frs| && at == s.db.frs[s.db.chains[k][0]].at
    requires RecordWF(rec, s.db.types) && |Fields(rec)| > 0 && RoomToWrite(|s.data|, rec, s.db.types)
    modifies data
    ensures data.bytes == s'.data && s'.index == s.index && Step(s, Extend(k, rec), s')
  {
    hide *;
    LastParts(s, k, 0, was);
    ghost var fr := LastFrag(s.db, k);
    var eof := data.SeekEnd();
    Relink(data, at, eof, was, fr, s.db.types);
    ghost var m := data.bytes;
    AppendRecord(data, rec, s.db.types);
    s' := s.(data := data.bytes, db := Extended(s.db, k, NewFrag(|s.data|, rec, s.db.types)));
    ExtendLinked(s, k, rec, s', m);
  }

  /** One more fragment: it is written at the end of the file, then the last one is linked to it. */
  method ExtendLast(data: File, at: nat, last: Record, rec: Record, ghost s: State, ghost k: Key, ghost i: nat)
    returns (ghost s': State)
    requires Inv(s) && data.bytes == s.data && k in s.db.chains && |s.db.chains[k]| == i + 1 && KeyOK(k) && k.Str?
    requires |Contents(s)[k]| == i + 1 && Contents(s)[k][i] == last
    requires s.db.chains[k][i] < |s.db.frs| && at == s.db.frs[s.db.chains[k][i]].at
    requires RecordWF(rec, s.db.types) && |Fields(rec)| > 0 && RoomToWrite(|s.data|, rec, s.db.types)
    modifies data
    ensures data.bytes == s'.data && s'.index == s.index && Step(s, Extend(k, rec), s')
  {
    hide *;
    LastParts(s, k, i, last);
    ghost var fr := LastFrag(s.db, k);
    var eof := data.SeekEnd();
    AppendRecord(data, rec, s.db.types);
    ghost var m := data.bytes;
    StillThere(s, k, m, rec);
    Relink(data, at, eof, last, fr, s.db.types);
    s' := s.(data := data.bytes, db := Extended(s.db, k, NewFrag(|s.data|, rec, s.db.types)));
    ExtendWritten(s, k, rec, s', m);
  }

  lemma {:induction false} StillThere(s: State, k: Key, m: seq<byte>, rec: Record)
    requires Inv(s) && k in s.db.chains && |s.db.chains[k]| > 0 && s.db.chains[k][|s.db.chains[k]| - 1] < |s.db.frs|
    requires RecordWF(rec, s.db.types) && Appended(s.data, m, NewFrag(|s.data|, rec, s.db.types))
    ensures FragWF(LastFrag(s.db, k)) && FragOK(m, LastFrag(s.db, k)) && |s.data| <= OFF_MAX
  {
    InvParts(s);
    var fr := LastFrag(s.db, k);
    hide *;
    DataFits(s.data, s.db.types, s.db.frs, s.db.chains[k][|s.db.chains[k]| - 1]);
    AppendedKeeps(s.data, m, fr, NewFrag(|s.data|, rec, s.db.types));
  }

  lemma {:induction false} AppendedKeeps(b: seq<byte>, m: seq<byte>, fr: Frag, nw: Frag)
    requires FragWF(fr) && FragOK(b, fr) && Appended(b, m, nw)
    ensures FragOK(m, fr)
  {
    hide FragOK, FragWF, FragFoot;
    assert Frame(b, m, {});
    FragFrame(b, m, fr, {});
  }

  lemma {:induction false} ExtendLinked(s: State, k: Key, rec: Record, s': State, m: seq<byte>)
    requires Inv(s) && KeyOK(k) && k.Str? && k in s.db.chains && RecordWF(rec, s.db.types) && |Fields(rec)| > 0
    requires |s.db.chains[k]| > 0 && s.db.chains[k][|s.db.chains[k]| - 1] < |s.db.frs| && FragWF(LastFrag(s.db, k))
    requires Links(s.data, m, LastFrag(s.db, k), |s.data|) && Appended(m, s'.data, NewFrag(|m|, rec, s.db.types))
    requires |s'.data| <= OFF_MAX && s' == s.(data := s'.data, db := Extended(s.db, k, NewFrag(|s.data|, rec, s.db.types)))
    ensures Step(s, Extend(k, rec), s')
  {
    hide Inv, Links, Appended, RecordWF, KeyOK, FragWF, NewFrag;
    assert Joined(s.data, m, s'.data, LastFrag(s.db, k), rec, s.db.types);
  }

  lemma {:induction false} ExtendWritten(s: State, k: Key, rec: Record, s': State, m: seq<byte>)
    requires Inv(s) && KeyOK(k) && k.Str? && k in s.db.chains && RecordWF(rec, s.db.types) && |Fields(rec)| > 0
    requires |s.db.chains[k]| > 0 && s.db.chains[k][|s.db.chains[k]| - 1] < |s.db.frs| && FragWF(LastFrag(s.db, k))
    requires Appended(s.data, m, NewFrag(|s.data|, rec, s.db.types)) && Links(m, s'.data, LastFrag(s.db, k), |s.data|)
    requires |s'.data| <= OFF_MAX && s' == s.(data := s'.data, db := Extended(s.db, k, NewFrag(|s.data|, rec, s.db.types)))
    ensures Step(s, Extend(k, rec), s')
  {
    hide Inv, Links, Appended, RecordWF, KeyOK, FragWF, NewFrag;
    assert Joined(s.data, m, s'.data, LastFrag(s.db, k), rec, s.db.types);
  }

  /** The arrays of the record in one place take their new lengths, or there is room for a second fragment. */
  ghost predicate CanUpdateSingle(s: State, k: Key, was: Record, rec: Record)
    requires Inv(s) && RecordWF(rec, s.db.types)
    ensures CanUpdateSingle(s, k, was, rec) ==> |was| == |rec|
  {
    && |was| == |rec|
    && if Common(was, rec) then Takes(s, k, 0, Overlaid(was, rec)) && |s.data| + GrowthIf(s, k, 0, Overlaid(was, rec)) <= OFF_MAX
       else RoomToWrite(|s.data|, rec, s.db.types)
  }

  lemma {:induction false} SingleFits(s: State, k: Key, was: Record, rec: Record)
    requires Inv(s) && RecordWF(rec, s.db.types) && k in Contents(s) && Contents(s)[k] == [was] && CanUpdateSingle(s, k, was, rec)
    ensures |was| == |rec|
    ensures Common(was, rec) ==>
              Fits(s, k, 0, Overlaid(was, rec)) && |s.data| + GrowthOf(s, k, 0, Overlaid(was, rec)) <= OFF_MAX
    ensures !Common(was, rec) ==> RoomToWrite(|s.data|, rec, s.db.types)
  {
    hide Inv, Takes, Contents, RecordWF, RoomToWrite, Fits, GrowthIf, Common;
    if Common(was, rec) {
      OverlaidBlends(was, rec);
      TakesFits(s, k, 0, rec, Overlaid(was, rec));
    }
  }

  lemma {:induction false} OverlaidBlends(was: Record, rec: Record)
    requires |was| == |rec|
    ensures Blend(was, rec, Overlaid(was, rec))
  {
  }

  lemma {:induction false} EditBlends(was: Record, rec: Record)
    requires |was| == |rec|
    ensures Blend(was, rec, was) && Blend(was, rec, Edit(was, rec))
  {
    hide Compare;
  }

  /** The update of a record that is in one place. */
  method UpdateSingle(data: File, at: nat, was: Record, rec: Record, ghost s: State, ghost k: Key)
    returns (ghost s': State)
    requires Inv(s) && data.bytes == s.data && k in s.db.chains && |s.db.chains[k]| == 1 && KeyOK(k) && k.Str?
    requires Contents(s)[k] == [was] && s.db.chains[k][0] < |s.db.frs| && at == s.db.frs[s.db.chains[k][0]].at
    requires RecordWF(rec, s.db.types) && |Fields(rec)| > 0 && CanUpdateSingle(s, k, was, rec)
    modifies data
    ensures |was| == |rec| && data.bytes == s'.data && s'.index == s.index
    ensures Step(s, if Common(was, rec) then Overwrite(k, 0, Overlaid(was, rec)) else Extend(k, rec), s')
  {
    hide *;
    InvParts(s);
    SingleFits(s, k, was, rec);
    var merged, changed := CompareRecords(was, rec);
    if changed {
      FitParts(s, k, 0, merged);
      s' := RewriteFragment(data, at, 0, merged, s, k, 0);
    } else {
      s' := ExtendSingle(data, at, was, rec, s, k);
    }
  }

  // ----- updating a fragmented record -----

  const MAX_RECS_OLD_CAP := 100

  /** The fragments with the marked ones replaced, of the first n. */
  function Chosen(was: seq<Record>, edited: seq<Record>, marks: seq<char>, n: nat): (r: seq<Record>)
    requires |was| == |edited| == |marks| && n <= |was|
    ensures |r| == |was|
    ensures forall i :: 0 <= i < |r| ==> r[i] == if i < n && !Skipped(marks[i]) then edited[i] else was[i]
  {
    seq(|was|, i requires 0 <= i < |was| => if i < n && !Skipped(marks[i]) then edited[i] else was[i])
  }

  /** Every marked fragment may take its new values. */
  ghost predicate MarksFit(s: State, k: Key, marks: seq<char>, edited: seq<Record>) {
    && k in s.db.chains && |s.db.chains[k]| == |marks| == |edited|
    && forall i :: 0 <= i < |marks| && !Skipped(marks[i]) ==> Fits(s, k, i, edited[i])
  }

  ghost predicate MarkedFit(s: State, k: Key, marks: seq<char>, edited: seq<Record>)
    requires Inv(s)
    ensures MarkedFit(s, k, marks, edited) ==>
              && MarksFit(s, k, marks, edited) && k in s.db.chains && k in Contents(s)
              && |s.db.chains[k]| == |marks| == |edited| == |Contents(s)[k]|
  {
    MarksFit(s, k, marks, edited) && k in Contents(s) && |Contents(s)[k]| == |marks|
  }

  /** How much the file grows by the first n fragments. */
  ghost function MarkedGrowth(s: State, k: Key, marks: seq<char>, edited: seq<Record>, n: nat): nat
    requires MarksFit(s, k, marks, edited) && n <= |marks|
  {
    if n == 0 then 0
    else MarkedGrowth(s, k, marks, edited, n - 1)
         + if Skipped(marks[n - 1]) then 0 else GrowthOf(s, k, n - 1, edited[n - 1])
  }

  lemma {:induction false} GrowthMonotone(s: State, k: Key, marks: seq<char>, edited: seq<Record>, i: nat, n: nat)
    requires MarksFit(s, k, marks, edited) && i <= n <= |marks|
    ensures MarkedGrowth(s, k, marks, edited, i) <= MarkedGrowth(s, k, marks, edited, n)
    decreases n
  {
    hide Fits, GrowthOf;
    if i < n {
      GrowthMonotone(s, k, marks, edited, i, n - 1);
    }
  }

  /** The update after the first i fragments: those are done, the others untouched and in their places. */
  ghost predicate Between(s: State, cur: State, k: Key, marks: seq<char>, edited: seq<Record>, i: nat)
    requires Inv(s) && MarkedFit(s, k, marks, edited) && i <= |marks|
    ensures Between(s, cur, k, marks, edited, i) ==> Inv(cur)
  {
    && Inv(cur) && Ahead(s, cur, k, |marks|, i)
    && |cur.data| == |s.data| + MarkedGrowth(s, k, marks, edited, i)
    && Contents(cur) == Contents(s)[k := Chosen(Contents(s)[k], edited, marks, i)]
  }

  /** The fragments from i on are untouched and in their places. */
  ghost predicate Ahead(s: State, cur: State, k: Key, n: nat, i: nat)
    requires k in s.db.chains && |s.db.chains[k]| == n
  {
    && cur.index == s.index && cur.db.types == s.db.types && cur.db.chains == s.db.chains && |cur.db.frs| == |s.db.frs|
    && (forall j :: i <= j < n && s.db.chains[k][j] < |s.db.frs| ==>
          cur.db.frs[s.db.chains[k][j]] == s.db.frs[s.db.chains[k][j]])
  }

  lemma {:induction false} BetweenStart(s: State, k: Key, marks: seq<char>, edited: seq<Record>)
    requires Inv(s) && MarkedFit(s, k, marks, edited)
    ensures Between(s, s, k, marks, edited, 0)
    ensures |Contents(s)[k]| == |marks| == |edited|
    ensures Contents(s)[k := Contents(s)[k]] == Contents(s)
  {
    hide Inv, Fits;
    assert Chosen(Contents(s)[k], edited, marks, 0) == Contents(s)[k];
  }

  lemma {:induction false} BetweenSkip(s: State, cur: State, k: Key, marks: seq<char>, edited: seq<Record>, i: nat)
    requires Inv(s) && MarkedFit(s, k, marks, edited) && i < |marks| && Skipped(marks[i])
    requires Between(s, cur, k, marks, edited, i)
    ensures Between(s, cur, k, marks, edited, i + 1)
  {
    hide Inv, Fits, Contents, MarkedFit;
    ContentsNext(Contents(s), k, Contents(s)[k], edited, marks, i);
  }

  /** What the next write needs. */
  lemma {:induction false} BetweenReady(s: State, cur: State, k: Key, marks: seq<char>, edited: seq<Record>, i: nat)
    requires Inv(s) && MarkedFit(s, k, marks, edited) && i < |marks| && !Skipped(marks[i])
    requires Between(s, cur, k, marks, edited, i)
    ensures cur.db.chains == s.db.chains && |cur.db.frs| == |s.db.frs|
    ensures Fits(s, k, i, edited[i]) && Fits(cur, k, i, edited[i])
    ensures GrowthOf(cur, k, i, edited[i]) == GrowthOf(s, k, i, edited[i])
    ensures |cur.data| + GrowthOf(cur, k, i, edited[i]) == |s.data| + MarkedGrowth(s, k, marks, edited, i + 1)
    ensures cur.db.frs[s.db.chains[k][i]] == s.db.frs[s.db.chains[k][i]]
  {
    hide Inv, Contents, Fields, AllAccept, RecordWF, FragWF;
    assert Fits(s, k, i, edited[i]);
  }

  lemma {:induction false} BetweenWrite(s: State, cur: State, k: Key, marks: seq<char>, edited: seq<Record>, i: nat,
                                        next: State)
    requires Inv(s) && MarkedFit(s, k, marks, edited) && i < |marks| && !Skipped(marks[i])
    requires Between(s, cur, k, marks, edited, i) && Step(cur, Overwrite(k, i, edited[i]), next) && next.index == cur.index
    requires |next.data| == |s.data| + MarkedGrowth(s, k, marks, edited, i + 1)
    requires next.db.types == cur.db.types && next.db.chains == cur.db.chains && |next.db.frs| == |cur.db.frs|
    requires s.db.chains[k][i] < |s.db.frs|
    requires forall j :: 0 <= j < |cur.db.frs| && j != s.db.chains[k][i] ==> next.db.frs[j] == cur.db.frs[j]
    ensures Between(s, next, k, marks, edited, i + 1)
  {
    StepRefines(cur, Overwrite(k, i, edited[i]), next);
    hide *;
    BetweenParts(s, cur, k, marks, edited, i);
    AheadNext(s, cur, k, |marks|, i, next);
    ContentsNext(Contents(s), k, Contents(s)[k], edited, marks, i);
    BetweenIs(s, next, k, marks, edited, i + 1);
  }

  lemma {:induction false} BetweenParts(s: State, cur: State, k: Key, marks: seq<char>, edited: seq<Record>, i: nat)
    requires Inv(s) && MarkedFit(s, k, marks, edited) && i <= |marks| && Between(s, cur, k, marks, edited, i)
    ensures Inv(cur) && Ahead(s, cur, k, |marks|, i) && cur.index == s.index
    ensures Contents(cur) == Contents(s)[k := Chosen(Contents(s)[k], edited, marks, i)]
    ensures ChainsOK(s.db)
  {
    hide Inv, MarkedFit, Contents;
  }

  lemma {:induction false} BetweenIs(s: State, cur: State, k: Key, marks: seq<char>, edited: seq<Record>, i: nat)
    requires Inv(s) && MarkedFit(s, k, marks, edited) && i <= |marks| && Inv(cur) && Ahead(s, cur, k, |marks|, i)
    requires |cur.data| == |s.data| + MarkedGrowth(s, k, marks, edited, i)
    requires Contents(cur) == Contents(s)[k := Chosen(Contents(s)[k], edited, marks, i)]
    ensures Between(s, cur, k, marks, edited, i)
  {
    hide Inv, MarkedFit, Contents;
  }

  lemma {:induction false} AheadNext(s: State, cur: State, k: Key, n: nat, i: nat, next: State)
    requires k in s.db.chains && |s.db.chains[k]| == n && ChainsOK(s.db) && Ahead(s, cur, k, n, i) && i < n
    requires next.index == cur.index && next.db.types == cur.db.types && next.db.chains == cur.db.chains
    requires |next.db.frs| == |cur.db.frs|
    requires forall j :: 0 <= j < |cur.db.frs| && j != s.db.chains[k][i] ==> next.db.frs[j] == cur.db.frs[j]
    ensures Ahead(s, next, k, n, i + 1)
  {
    assert ChainOK(s.db.frs, s.db.chains[k]);
  }

  lemma {:induction false} ContentsNext(m: map<Key, seq<Record>>, k: Key, was: seq<Record>, edited: seq<Record>,
                                        marks: seq<char>, i: nat)
    requires |was| == |edited| == |marks| && i < |marks|
    ensures Skipped(marks[i]) ==> Chosen(was, edited, marks, i + 1) == Chosen(was, edited, marks, i)
    ensures !Skipped(marks[i]) ==>
              && Chosen(was, edited, marks, i + 1) == Chosen(was, edited, marks, i)[i := edited[i]]
              && Apply(m[k := Chosen(was, edited, marks, i)], Overwrite(k, i, edited[i]))
                 == m[k := Chosen(was, edited, marks, i + 1)]
  {
    if !Skipped(marks[i]) {
      assert Chosen(was, edited, marks, i + 1) == Chosen(was, edited, marks, i)[i := edited[i]];
    } else {
      assert Chosen(was, edited, marks, i + 1) == Chosen(was, edited, marks, i);
    }
  }

  /** `no_updates` after the first n marks. */
  function NoUpdates(marks: seq<char>, n: nat): bool
    requires n <= |marks|
  {
    n > 0 && if marks[n - 1] == 'n' then NoUpdates(marks, n - 1) else marks[n - 1] == 'e'
  }

  /** The loop that writes the marked fragments back, each with the link to the next one. */
  method RewriteMarked(data: File, places: seq<nat>, marks: seq<char>, edited: seq<Record>, ghost s: State, ghost k: Key)
    returns (changed: bool, noUpdates: bool, ghost s': State)
    requires Inv(s) && data.bytes == s.data && KeyOK(k) && k.Str? && MarkedFit(s, k, marks, edited)
    requires |s.data| + MarkedGrowth(s, k, marks, edited, |marks|) <= OFF_MAX && |places| == |marks|
    requires forall i :: 0 <= i < |places| ==> s.db.chains[k][i] < |s.db.frs| && places[i] == s.db.frs[s.db.chains[k][i]].at
    modifies data
    ensures data.bytes == s'.data && Between(s, s', k, marks, edited, |marks|)
    ensures changed <==> exists i :: 0 <= i < |marks| && !Skipped(marks[i])
    ensures !changed ==> s' == s
    ensures noUpdates == NoUpdates(marks, |marks|)
  {
    hide *;
    BetweenStart(s, k, marks, edited);
    changed, noUpdates, s' := false, false, s;
    NoUpdatesNext(marks, 0);
    for i := 0 to |marks|
      invariant data.bytes == s'.data && Between(s, s', k, marks, edited, i)
      invariant changed <==> exists j :: 0 <= j < i && !Skipped(marks[j])
      invariant !changed ==> s' == s
      invariant noUpdates == NoUpdates(marks, i)
    {
      NoUpdatesNext(marks, i);
      if Skipped(marks[i]) {
        noUpdates := if marks[i] == 'e' then true else noUpdates;
        BetweenSkip(s, s', k, marks, edited, i);
      } else {
        noUpdates, changed := false, true;
        s' := RewriteMark(data, places, marks, edited, s, s', k, i);
      }
    }
  }

  lemma {:induction false} NoUpdatesNext(marks: seq<char>, i: nat)
    ensures NoUpdates(marks, 0) == false
    ensures i < |marks| && Skipped(marks[i]) ==> NoUpdates(marks, i + 1) == (marks[i] == 'e' || NoUpdates(marks, i))
    ensures i < |marks| && !Skipped(marks[i]) ==> !NoUpdates(marks, i + 1)
  {
  }

  /** One turn of that loop, for a fragment that is written. */
  method RewriteMark(data: File, places: seq<nat>, marks: seq<char>, edited: seq<Record>, ghost s: State, ghost cur: State,
                     ghost k: Key, i: nat) returns (ghost next: State)
    requires Inv(s) && KeyOK(k) && k.Str? && MarkedFit(s, k, marks, edited) && i < |marks| && !Skipped(marks[i])
    requires data.bytes == cur.data && Between(s, cur, k, marks, edited, i)
    requires |s.data| + MarkedGrowth(s, k, marks, edited, |marks|) <= OFF_MAX && |places| == |marks|
    requires forall i :: 0 <= i < |places| ==> s.db.chains[k][i] < |s.db.frs| && places[i] == s.db.frs[s.db.chains[k][i]].at
    modifies data
    ensures data.bytes == next.data && Between(s, next, k, marks, edited, i + 1)
  {
    hide *;
    BetweenReady(s, cur, k, marks, edited, i);
    GrowthMonotone(s, k, marks, edited, i + 1, |marks|);
    FitParts(s, k, i, edited[i]);
    var link := if |marks| - i > 1 then places[i + 1] else 0;
    next := RewriteFragment(data, places[i], link, edited[i], cur, k, i);
    BetweenWrite(s, cur, k, marks, edited, i, next);
  }

  lemma {:induction false} NoUpdatesIs(marks: seq<char>, n: nat)
    requires n <= |marks| && forall i :: 0 <= i < n ==> Skipped(marks[i])
    ensures NoUpdates(marks, n) <==> 'e' in marks[..n]
  {
    if n > 0 {
      NoUpdatesIs(marks, n - 1);
      assert marks[..n] == marks[..n - 1] + [marks[n - 1]];
    }
  }

  /** No fragment is written: no field differs, and the search gave up at the last fragment or not at all. */
  predicate Unwritten(was: seq<Record>, rec: Record)
    requires Fit(was, rec)
  {
    !Changes(was, rec) && GivesUp(was, rec, 0) + 1 >= |was|
  }

  /** An update is refused if there is nothing to change. */
  predicate Refused(was: seq<Record>, rec: Record)
    requires Fit(was, rec)
  {
    Unwritten(was, rec) && Found(was, rec, Alike, GivesUp(was, rec, 0))
  }

  /** The record's fragments after the update. */
  function Fragmented(was: seq<Record>, rec: Record): seq<Record>
    requires Fit(was, rec)
  {
    if Refused(was, rec) then was
    else if Unwritten(was, rec) then was + [rec]
    else Edits(was, rec)
  }

  ghost function EditsGrowth(s: State, k: Key, edited: seq<Record>, n: nat): nat
    requires n <= |edited|
  {
    if n == 0 then 0 else EditsGrowth(s, k, edited, n - 1) + GrowthIf(s, k, n - 1, edited[n - 1])
  }

  /** The arrays of all fragments take their new lengths, no mark is set outside, and there is room. */
  ghost predicate CanUpdateFragments(s: State, k: Key, was: seq<Record>, rec: Record)
    requires Inv(s) && RecordWF(rec, s.db.types)
    ensures CanUpdateFragments(s, k, was, rec) ==>
              && 1 < |was| <= MAX_RECS_OLD_CAP && Fit(was, rec) && !MarksOutside(was, rec, GivesUp(was, rec, 0))
              && (Unwritten(was, rec) ==> RoomToWrite(|s.data|, rec, s.db.types))
              && forall i :: 0 <= i < |was| ==> Takes(s, k, i, Edits(was, rec)[i])
  {
    && 1 < |was| <= MAX_RECS_OLD_CAP && Fit(was, rec) && !MarksOutside(was, rec, GivesUp(was, rec, 0))
    && (forall i :: 0 <= i < |was| ==> Takes(s, k, i, Edits(was, rec)[i]))
    && |s.data| + EditsGrowth(s, k, Edits(was, rec), |was|) <= OFF_MAX
    && (Unwritten(was, rec) ==> RoomToWrite(|s.data|, rec, s.db.types))
  }

  /** What the search may mark is fit to be written. */
  lemma {:induction false} EditsFit(s: State, k: Key, was: seq<Record>, rec: Record, marks: seq<char>)
    requires Inv(s) && RecordWF(rec, s.db.types) && k in Contents(s) && Contents(s)[k] == was
    requires CanUpdateFragments(s, k, was, rec) && |marks| == |was|
    ensures MarkedFit(s, k, marks, Edits(was, rec))
    ensures |s.data| + MarkedGrowth(s, k, marks, Edits(was, rec), |marks|) <= OFF_MAX
  {
    hide *;
    InvParts(s);
    ChainRecords(s.db, k);
    var edited := Edits(was, rec);
    forall i: nat | i < |was| ensures Fits(s, k, i, edited[i]) {
      EditBlends(was[i], rec);
      TakesFits(s, k, i, rec, edited[i]);
    }
    MarkedFitIs(s, k, marks, edited);
    GrowthBound(s, k, marks, edited, |marks|);
    RoomForEdits(s, k, was, rec);
  }

  lemma {:induction false} RoomForEdits(s: State, k: Key, was: seq<Record>, rec: Record)
    requires Inv(s) && RecordWF(rec, s.db.types) && CanUpdateFragments(s, k, was, rec)
    ensures |s.data| + EditsGrowth(s, k, Edits(was, rec), |was|) <= OFF_MAX
  {
    hide Inv, RecordWF, Takes, EditsGrowth, Edits;
  }

  lemma {:induction false} MarkedFitIs(s: State, k: Key, marks: seq<char>, edited: seq<Record>)
    requires Inv(s) && k in Contents(s) && k in s.db.chains
    requires |s.db.chains[k]| == |marks| == |edited| == |Contents(s)[k]|
    requires forall i: nat :: i < |edited| ==> Fits(s, k, i, edited[i])
    ensures MarkedFit(s, k, marks, edited)
  {
    hide Inv, Fits, Contents;
  }

  lemma {:induction false} GrowthBound(s: State, k: Key, marks: seq<char>, edited: seq<Record>, n: nat)
    requires MarksFit(s, k, marks, edited) && n <= |marks| == |edited|
    requires forall i: nat :: i < |edited| ==> Fits(s, k, i, edited[i])
    ensures MarkedGrowth(s, k, marks, edited, n) <= EditsGrowth(s, k, edited, n)
  {
    hide Fits, GrowthOf, GrowthIf;
    if n > 0 {
      GrowthBound(s, k, marks, edited, n - 1);
      assert Fits(s, k, n - 1, edited[n - 1]);
    }
  }

  lemma {:induction false} ChosenIs(was: seq<Record>, edited: seq<Record>, marks: seq<char>)
    requires |was| == |edited| == |marks| && forall i :: 0 <= i < |was| && Skipped(marks[i]) ==> edited[i] == was[i]
    ensures Chosen(was, edited, marks, |marks|) == edited
  {
  }

  /**
   * The update of a record in several fragments that adds no field to the schema: in each
   * fragment the first field that differs is replaced; when no fragment has one of the
   * fields, the new values become one more fragment.
   */
  method UpdateFragments(data: File, places: seq<nat>, was: seq<Record>, rec: Record, ghost s: State, ghost k: Key)
    returns (ok: bool, ghost s': State)
    requires Inv(s) && data.bytes == s.data && KeyOK(k) && k.Str? && k in Contents(s) && Contents(s)[k] == was
    requires RecordWF(rec, s.db.types) && |Fields(rec)| > 0 && CanUpdateFragments(s, k, was, rec) && |places| == |was|
    requires k in s.db.chains && |s.db.chains[k]| == |was|
    requires forall i :: 0 <= i < |places| ==> s.db.chains[k][i] < |s.db.frs| && places[i] == s.db.frs[s.db.chains[k][i]].at
    modifies data
    ensures data.bytes == s'.data && s'.index == s.index && Inv(s')
    ensures ok <==> !Refused(was, rec)
    ensures !ok ==> s' == s
    ensures Contents(s') == Contents(s)[k := Fragmented(was, rec)]
  {
    hide *;
    var marks, edited, outside := FindFields(was, rec);
    if marks[0] !in {'n', 'y', 'e'} {
      assert false;
    }
    EditsFit(s, k, was, rec, marks);
    ChosenIs(was, edited, marks);
    FragmentedIs(was, rec);
    assert Contents(s)[k := was] == Contents(s);
    var changed, noUpdates;
    changed, noUpdates, s' := RewriteMarked(data, places, marks, edited, s, k);
    BetweenParts(s, s', k, marks, edited, |marks|);
    if changed {
      return true, s';
    }
    NoUpdatesIs(marks, |marks|);
    assert marks[..|marks|] == marks;
    if noUpdates {
      return false, s';
    }
    ok := true;
    s' := ExtendLast(data, places[|places| - 1], was[|was| - 1], rec, s, k, |was| - 1);
    StepRefines(s, Extend(k, rec), s');
    ExtendApplied(Contents(s), k, was, rec);
  }

  lemma {:induction false} ExtendApplied(m: map<Key, seq<Record>>, k: Key, was: seq<Record>, rec: Record)
    requires k in m && m[k] == was
    ensures Apply(m, Extend(k, rec)) == m[k := was + [rec]]
  {
  }

  lemma {:induction false} FragmentedIs(was: seq<Record>, rec: Record)
    requires Fit(was, rec)
    ensures Unwritten(was, rec) <==> !Changes(was, rec) && GivesUp(was, rec, 0) + 1 >= |was|
    ensures Refused(was, rec) <==> Unwritten(was, rec) && Found(was, rec, Alike, GivesUp(was, rec, 0))
    ensures Fragmented(was, rec) ==
              if Refused(was, rec) then was else if Unwritten(was, rec) then was + [rec] else Edits(was, rec)
  {
    hide Changes, Found, GivesUp, Edits, Compare;
  }

  /**
   * Without empty arrays, the update of a fragmented record does what it is to do if and only
   * if every single fragment takes all new values.
   */
  lemma {:induction false} FragmentsReached(was: seq<Record>, rec: Record)
    requires Fit(was, rec) && |rec| > 0 && NoEmptyArray(rec)
    ensures Fragmented(was, rec) == Intended(was, rec) <==>
              forall i :: 0 <= i < |was| ==> Edit(was[i], rec) == Merged(was[i], rec)
  {
    hide *;
    FragmentedIs(was, rec);
    NeverGivesUp(was, rec, 0);
    VerdictsAre(was, rec);
    IntendedIs(was, rec);
    if !Unwritten(was, rec) || Refused(was, rec) {
      assert Fragmented(was, rec) == Edits(was, rec);
      if forall i :: 0 <= i < |was| ==> Edit(was[i], rec) == Merged(was[i], rec) {
        assert Fragmented(was, rec) == Intended(was, rec);
      }
    }
  }

  /** Which fragments the search replaces, finds alike or passes over. */
  lemma {:induction false} VerdictsAre(was: seq<Record>, rec: Record)
    requires Fit(was, rec) && |rec| > 0 && NoEmptyArray(rec) && GivesUp(was, rec, 0) == |was|
    ensures Refused(was, rec) ==> Edits(was, rec) == was
    ensures !Unwritten(was, rec) || Refused(was, rec) <==> exists i :: 0 <= i < |was| && Common(was[i], rec)
  {
    forall i | 0 <= i < |was|
      ensures !Compare(was[i], rec).Failed? && (Compare(was[i], rec).Apart? <==> !Common(was[i], rec))
      ensures !Compare(was[i], rec).Differs? ==> Edit(was[i], rec) == was[i]
    {
      Judged(was[i], rec);
    }
    hide Compare, Edit, Common, GivesUp;
  }

  lemma {:induction false} IntendedIs(was: seq<Record>, rec: Record)
    requires Fit(was, rec) && |rec| > 0 && NoEmptyArray(rec)
    ensures var common := exists i :: 0 <= i < |was| && Common(was[i], rec);
            && (common ==> |Intended(was, rec)| == |was|
                           && forall i :: 0 <= i < |was| ==> Intended(was, rec)[i] == Merged(was[i], rec))
            && (!common ==> Intended(was, rec) == was + [rec]
                            && forall i :: 0 <= i < |was| ==> Edit(was[i], rec) == Merged(was[i], rec))
  {
    forall i | 0 <= i < |was| && !Common(was[i], rec) ensures Edit(was[i], rec) == Merged(was[i], rec) {
      Judged(was[i], rec);
    }
    hide Edit, Common, Merged;
  }

  /** If the search ends before the last fragment, the update is never refused and adds no fragment. */
  lemma {:induction false} EndedEarly(was: seq<Record>, rec: Record, g: nat)
    requires Fit(was, rec) && g + 1 < |was| && Compare(was[g], rec) == Failed
    requires forall i :: 0 <= i < g ==> Compare(was[i], rec) != Failed
    ensures Fragmented(was, rec) == Edits(was, rec) && !Refused(was, rec)
  {
    SearchEnds(was, rec, g);
    hide *;
    FragmentedIs(was, rec);
  }

  /** [1, 2], [5] and no third field, beside a fragment with a third one only, updated by [1, 2], [0]: the 5 becomes 0. */
  lemma {:induction false} ZeroArrayReached()
    ensures var was: seq<Record> := [[Some(Longs([1, 2])), Some(Longs([5])), None], [None, None, Some(Int(1))]];
            var rec: Record := [Some(Longs([1, 2])), Some(Longs([0])), None];
            && Fit(was, rec) && !Refused(was, rec)
            && Fragmented(was, rec) == [[Some(Longs([1, 2])), Some(Longs([0])), None], [None, None, Some(Int(1))]]
  {
    var x: Record, y: Record := [Some(Longs([1, 2])), Some(Longs([5])), None], [None, None, Some(Int(1))];
    var rec: Record := [Some(Longs([1, 2])), Some(Longs([0])), None];
    ZeroArrayStops(x, rec);
    NothingCommon(y, rec);
    var was := [x, y];
    assert was[0] == x && was[1] == y;
    hide Compare;
    assert GivesUp(was, rec, 0) == 2;
    assert Changes(was, rec);
    assert x[1 := rec[1]] == [Some(Longs([1, 2])), Some(Longs([0])), None];
    assert Edits(was, rec) == [x[1 := rec[1]], y];
    FragmentedIs(was, rec);
    hide *;
    assert was == [[Some(Longs([1, 2])), Some(Longs([5])), None], [None, None, Some(Int(1))]];
  }

  lemma {:induction false} ZeroArrayStops(x: Record, rec: Record)
    requires x == [Some(Longs([1, 2])), Some(Longs([5])), None] && rec == [Some(Longs([1, 2])), Some(Longs([0])), None]
    ensures Compare(x, rec) == Differs(1)
  {
    assert !EmptyAt(x, rec, 0) && !EmptyAt(x, rec, 1) && Tally(x, rec, 0) == 0;
    assert Agreeing([1, 2], [1, 2]) == 2;
    assert !Stops(x, rec, 0);
    ZeroArray(x, rec, 1);
    hide Stops;
    assert FirstStop(x, rec, 1) == Some(1);
  }

  lemma {:induction false} NothingCommon(y: Record, rec: Record)
    requires |y| == |rec| > 0 && forall j :: 0 <= j < |y| ==> y[j] == None || rec[j] == None
    ensures Compare(y, rec) == Apart
  {
    assert forall j :: 0 <= j < |y| ==> !Stops(y, rec, j);
    CommonIs(y, rec);
    hide Stops;
  }

  // ----- updating any record -----

  /** The fields of the update fit the schema, array lengths read back, and the files have room. */
  ghost predicate CanUpdate(s: State, k: Key, rec: Record)
    requires Inv(s)
  {
    && RecordWF(rec, s.db.types) && |Fields(rec)| > 0
    && (k in Contents(s) ==>
          var was := Contents(s)[k];
          if |was| == 1 then CanUpdateSingle(s, k, was[0], rec) else CanUpdateFragments(s, k, was, rec))
  }

  /** The record after an update with the values of rec. */
  function Updated(was: seq<Record>, rec: Record): seq<Record> {
    if |was| == 1 then if |was[0]| == |rec| && Common(was[0], rec) then [Overlaid(was[0], rec)] else was + [rec]
    else if Fit(was, rec) then Fragmented(was, rec)
    else was
  }

  /** A record in one place gets what the update is to do unless a zero is to change its sign. */
  lemma {:induction false} SingleReached(was: seq<Record>, rec: Record)
    requires |was| == 1 && Fit(was, rec)
    ensures Updated(was, rec) == Intended(was, rec) <==>
              forall j :: 0 <= j < |rec| && Both(was[0], rec, j) ==> !OtherZero(was[0][j].value, rec[j].value)
  {
    var x := was[0];
    assert was == [x];
    OverlaidMerges(x, rec);
    if Common(x, rec) {
      assert Updated(was, rec)[0] == Overlaid(x, rec) && Intended(was, rec)[0] == Merged(x, rec);
    } else {
      assert Updated(was, rec) == Intended(was, rec);
      CommonIs(x, rec);
    }
  }

  lemma {:induction false} OverlaidMerges(x: Record, rec: Record)
    requires |x| == |rec|
    ensures Overlaid(x, rec) == Merged(x, rec) <==>
              forall j :: 0 <= j < |rec| && Both(x, rec, j) ==> !OtherZero(x[j].value, rec[j].value)
  {
    if Overlaid(x, rec) == Merged(x, rec) {
      forall j | 0 <= j < |rec| && Both(x, rec, j) ensures !OtherZero(x[j].value, rec[j].value) {
        assert Overlaid(x, rec)[j] == Merged(x, rec)[j];
      }
    }
  }

  /** The update path: the key's record changes as Updated says, and no other record changes. */
  method UpdateRecord(data: File, index: File, types: seq<FieldType>, key: Key, rec: Record, ghost s: State)
    returns (ok: bool, ghost s': State)
    requires data != index && Inv(s) && On(data, index, s) && types == s.db.types && KeyOK(key) && key.Str?
    requires CanUpdate(s, key, rec)
    modifies data, index`pos
    ensures On(data, index, s') && Inv(s')
    ensures key !in Contents(s) ==> !ok && s' == s
    ensures key in Contents(s) ==>
              && Contents(s') == Contents(s)[key := Updated(Contents(s)[key], rec)]
              && (ok <==> |Contents(s)[key]| == 1 || (Fit(Contents(s)[key], rec) && !Refused(Contents(s)[key], rec)))
  {
    hide *;
    InvParts(s);
    var offset := Lookup(index, key, s.ts, Starts(s.db));
    if offset == -1 {
      return false, s;
    }
    var was, places := ReadChain(data, types, offset, s.db, key);
    UpdateParts(s, key, rec);
    if |was| > 1 {
      ok, s' := UpdateFragments(data, places, was, rec, s, key);
    } else {
      ok := true;
      s' := UpdateSingle(data, places[0], was[0], rec, s, key);
      UpdatedSingle(s, key, rec, s');
    }
  }

  lemma {:induction false} UpdateParts(s: State, k: Key, rec: Record)
    requires Inv(s) && k in Contents(s) && CanUpdate(s, k, rec)
    ensures RecordWF(rec, s.db.types) && |Fields(rec)| > 0 && |Contents(s)[k]| > 0 && k in s.db.chains
    ensures |Contents(s)[k]| == |s.db.chains[k]|
    ensures |Contents(s)[k]| == 1 ==> CanUpdateSingle(s, k, Contents(s)[k][0], rec)
    ensures |Contents(s)[k]| > 1 ==>
              && CanUpdateFragments(s, k, Contents(s)[k], rec)
              && Updated(Contents(s)[k], rec) == Fragmented(Contents(s)[k], rec)
  {
    hide *;
    InvParts(s);
    ChainRecords(s.db, k);
    CanUpdateParts(s, k, rec);
    if |Contents(s)[k]| > 1 {
      UpdatedIs(Contents(s)[k], rec);
    }
  }

  lemma {:induction false} CanUpdateParts(s: State, k: Key, rec: Record)
    requires Inv(s) && k in Contents(s) && CanUpdate(s, k, rec)
    ensures RecordWF(rec, s.db.types) && |Fields(rec)| > 0
    ensures |Contents(s)[k]| == 1 ==> CanUpdateSingle(s, k, Contents(s)[k][0], rec)
    ensures |Contents(s)[k]| > 1 ==> CanUpdateFragments(s, k, Contents(s)[k], rec)
  {
    hide Inv, RecordWF, CanUpdateSingle, CanUpdateFragments, Contents, Fields;
  }

  lemma {:induction false} UpdatedIs(was: seq<Record>, rec: Record)
    requires |was| > 1 && Fit(was, rec)
    ensures Updated(was, rec) == Fragmented(was, rec)
  {
  }

  lemma {:induction false} UpdatedSingle(s: State, k: Key, rec: Record, s': State)
    requires Inv(s) && k in Contents(s) && |Contents(s)[k]| == 1 && |Contents(s)[k][0]| == |rec|
    requires var was := Contents(s)[k][0];
             Step(s, if Common(was, rec) then Overwrite(k, 0, Overlaid(was, rec)) else Extend(k, rec), s')
    ensures Inv(s') && Contents(s') == Contents(s)[k := Updated(Contents(s)[k], rec)]
  {
    hide Inv, Step, Contents;
    var was := Contents(s)[k][0];
    StepRefines(s, if Common(was, rec) then Overwrite(k, 0, Overlaid(was, rec)) else Extend(k, rec), s');
    assert Contents(s)[k][0 := Overlaid(was, rec)] == [Overlaid(was, rec)];
  }
}
