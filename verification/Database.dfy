// The database: a data file and an index file, and what each operation does to both.
module Database {
  import opened Bytes
  import opened Layout
  import opened CellUpdate
  import opened Fragment
  import opened RecordFile
  import opened RecordWrite
  import opened RecordRead
  import opened RecordStore
  import opened TableModel
  import opened IndexFile
  import IndexTable
  import opened DatabaseIndex
  import opened DatabaseModel

  /** The bytes of the two files, the tables in the index and the fragments in the data. */
  datatype State = State(data: seq<byte>, index: seq<byte>, ts: seq<Table>, db: Db)

  ghost predicate Inv(s: State)
    ensures Inv(s) ==> Typed(s.db.frs, s.db.types) && ChainsOK(s.db) && StringKeys(s.db)
  {
    && DataOK(s.data, s.db.types, s.db.frs) && ChainsOK(s.db)
    && IndexOK(s.index, s.ts, Starts(s.db)) && StringKeys(s.db)
  }

  /** Every record has a string for its key. */
  ghost predicate StringKeys(db: Db)
    ensures StringKeys(db) <==> forall k :: k in db.chains ==> k.Str?
  {
    forall k :: k in db.chains ==> k.Str?
  }

  /** The map a state stands for: each key's record, as the list of its fragments. */
  ghost function Contents(s: State): (m: map<Key, seq<Record>>)
    requires Inv(s)
  {
    Abs(s.db)
  }

  lemma {:induction false} EmptyFacts(size: nat)
    requires SizeOK(size)
    ensures TablesFine(EmptyTable(size)) && ToMap(EmptyTable(size)) == map[]
  {
    EmptyOK(size);
  }

  ghost predicate TablesFine(t: Table) {
    IndexTable.Storable(t) && Lossless(t)
  }

  /** An empty data file and an index file of empty tables, as a new database has them. */
  lemma {:induction false} NewDatabase(index: seq<byte>, ts: seq<Table>, types: seq<FieldType>)
    requires 0 < |ts| < 0x8000_0000 && TablePos(ts, |ts|) <= OFF_MAX && |types| <= MAX_FIELD_NR
    requires forall i :: 0 <= i < |ts| ==> SizeOK(ts[i].size) && ts[i] == EmptyTable(ts[i].size)
    requires Written(index, ts, |ts|)
    ensures Inv(State([], index, ts, Db(types, [], map[])))
    ensures Contents(State([], index, ts, Db(types, [], map[]))) == map[]
  {
    hide Written, TablePos, ToMap, IndexTable.Storable, Lossless, EmptyTable;
    forall i | 0 <= i < |ts| ensures TablesFine(ts[i]) && ToMap(ts[i]) == map[] {
      EmptyFacts(ts[i].size);
    }
    assert TablesOK(ts);
  }

  /** In every state the links of a record ascend, from fragment to fragment, and the last one is zero. */
  lemma {:induction false} LinksAscend(s: State, k: Key, i: nat)
    requires Inv(s) && k in s.db.chains && i < |s.db.chains[k]|
    ensures s.db.chains[k][i] < |s.db.frs|
    ensures var c, fr := s.db.chains[k], s.db.frs[s.db.chains[k][i]];
            if i + 1 == |c| then fr.link == 0
            else c[i + 1] < |s.db.frs| && fr.link == s.db.frs[c[i + 1]].at && fr.at < fr.link
  {
    hide Store, FragWF, Conforms, IndexOK;
    var c := s.db.chains[k];
    assert ChainOK(s.db.frs, c);
    assert s.db.frs[c[i]].link == NextAt(s.db.frs, c, i);
    assert i + 1 < |c| ==> c[i] < c[i + 1];
  }

  // ----- a fragment's own record -----

  /** The active fields of a fragment's record are those of the fragment. */
  lemma {:induction false} ActiveOf(fields: seq<nat>, vals: seq<Value>, n: nat, i: nat) returns (k: nat)
    requires |fields| == |vals| && i <= n && forall k :: 0 <= k < |fields| ==> fields[k] < n
    requires forall j, k :: 0 <= j < k < |fields| ==> fields[j] < fields[k]
    ensures Passed(fields, k, i)
    ensures Active(Assemble(fields, vals, n), i) == fields[..k] && Values(Assemble(fields, vals, n), i) == vals[..k]
  {
    hide *;
    ActiveStart(fields, vals, n);
    if i == 0 {
      k := 0;
    } else {
      k := ActiveOf(fields, vals, n, i - 1);
      PassNext(fields, k, i - 1);
      AssembleAt(fields, vals, n, i - 1);
      ActiveOne(Assemble(fields, vals, n), i - 1);
      if i - 1 in fields {
        assert fields[..k] + [fields[k]] == fields[..k + 1] && vals[..k] + [vals[k]] == vals[..k + 1];
        k := k + 1;
      }
    }
  }

  lemma {:induction false} ActiveStart(fields: seq<nat>, vals: seq<Value>, n: nat)
    requires |fields| == |vals| && forall k :: 0 <= k < |fields| ==> fields[k] < n
    ensures Passed(fields, 0, 0)
    ensures Active(Assemble(fields, vals, n), 0) == [] == fields[..0] && Values(Assemble(fields, vals, n), 0) == [] == vals[..0]
  {
  }

  /** What read_file gives for a fragment is a record of the schema with the fragment's fields and values. */
  lemma {:induction false} OwnRecord(fr: Frag, types: seq<FieldType>)
    requires FragWF(fr) && Conforms(fr, types)
    ensures var rec := Rec(fr, types);
            RecordWF(rec, types) && Fields(rec) == fr.fields && Vals(rec) == CellValues(fr.cells)
  {
    hide CellValue, ValueWF, CellTidy;
    var rec := Rec(fr, types);
    var k := ActiveOf(fr.fields, CellValues(fr.cells), |types|, |types|);
    AllPassed(fr.fields, k, |types|);
    assert fr.fields[..k] == fr.fields && CellValues(fr.cells)[..k] == CellValues(fr.cells);
    forall i | 0 <= i < |rec| && rec[i].Some? ensures TypeOf(rec[i].value) == types[i] && ValueWF(rec[i].value) {
      AssembleAt(fr.fields, CellValues(fr.cells), |types|, i);
      var j :| 0 <= j < |fr.fields| && fr.fields[j] == i;
      assert rec[i].value == CellValue(fr.cells[j]);
    }
  }

  // ----- the steps -----

  /** write_record with a new key: the record at the end of the data file, its offset in the index. */
  ghost predicate Inserts(s: State, k: Key, rec: Record, s': State)
    requires Inv(s) && KeyOK(k)
  {
    && RecordWF(rec, s.db.types) && |Fields(rec)| > 0 && |s'.data| <= OFF_MAX
    && Appended(s.data, s'.data, NewFrag(|s.data|, rec, s.db.types))
    && |s.ts| > 0 && TableOK(s.ts[0]) && Set(s.ts[0], k, |s.data|).Some?
    && RoomFor(s.ts, Set(s.ts[0], k, |s.data|).value)
    && s'.ts == s.ts[0 := Set(s.ts[0], k, |s.data|).value] && Written(s'.index, s'.ts, |s.ts|)
    && s'.db == Inserted(s.db, k, NewFrag(|s.data|, rec, s.db.types))
  }

  /** A key taken out of the index; the data file is not touched. */
  ghost predicate Deletes(s: State, k: Key, s': State)
    requires Inv(s) && KeyOK(k)
  {
    && s'.data == s.data && |s.ts| > 0 && TableOK(s.ts[0])
    && s'.ts == s.ts[0 := Delete(s.ts[0], k)] && Written(s'.index, s'.ts, |s.ts|)
    && s'.db == Dropped(s.db, k)
  }

  /** Fragment i of a record overwritten at its place, with the link it had. */
  ghost predicate Rewrites(s: State, k: Key, i: nat, rec: Record, s': State)
    requires Inv(s)
  {
    && k in s.db.chains && i < |s.db.chains[k]| && s.db.chains[k][i] < |s.db.frs|
    && var j := s.db.chains[k][i]; var fr := s.db.frs[j];
    && RecordWF(rec, s.db.types) && Fields(rec) == fr.fields && AllAccept(fr.cells, Vals(rec), 0)
    && Rewritten(s.data, s'.data, fr, Vals(rec), fr.link) && |s'.data| <= OFF_MAX
    && s'.index == s.index && s'.ts == s.ts
    && s'.db == Replaced(s.db, j, After(s.data, fr, Vals(rec), fr.link))
  }

  /** The last fragment rewritten with its own values and a link to where the new fragment goes. */
  ghost predicate Links(b: seq<byte>, b': seq<byte>, fr: Frag, to: nat)
    requires FragWF(fr)
  {
    AllAccept(fr.cells, CellValues(fr.cells), 0) && Rewritten(b, b', fr, CellValues(fr.cells), to)
  }

  /** A new fragment at the end, linked to from fr: m is the file in between. */
  ghost predicate Joined(b: seq<byte>, m: seq<byte>, b': seq<byte>, fr: Frag, rec: Record, types: seq<FieldType>) {
    && FragWF(fr) && RecordWF(rec, types) && |Fields(rec)| > 0
    && (LinkedFirst(b, m, b', fr, rec, types) || WrittenFirst(b, m, b', fr, rec, types))
  }

  ghost predicate LinkedFirst(b: seq<byte>, m: seq<byte>, b': seq<byte>, fr: Frag, rec: Record, types: seq<FieldType>)
    requires FragWF(fr) && RecordWF(rec, types)
  {
    Links(b, m, fr, |b|) && Appended(m, b', NewFrag(|m|, rec, types))
  }

  ghost predicate WrittenFirst(b: seq<byte>, m: seq<byte>, b': seq<byte>, fr: Frag, rec: Record, types: seq<FieldType>)
    requires FragWF(fr) && RecordWF(rec, types)
  {
    Appended(b, m, NewFrag(|b|, rec, types)) && Links(m, b', fr, |b|)
  }

  function LastFrag(db: Db, k: Key): Frag
    requires k in db.chains && |db.chains[k]| > 0 && db.chains[k][|db.chains[k]| - 1] < |db.frs|
  {
    db.frs[db.chains[k][|db.chains[k]| - 1]]
  }

  /** One more fragment for a key, joined to its last one. */
  ghost predicate Extends(s: State, k: Key, rec: Record, s': State)
    requires Inv(s)
  {
    && k in s.db.chains && |s.db.chains[k]| > 0 && s.db.chains[k][|s.db.chains[k]| - 1] < |s.db.frs|
    && RecordWF(rec, s.db.types) && |s'.data| <= OFF_MAX
    && s'.index == s.index && s'.ts == s.ts && s'.db == Extended(s.db, k, NewFrag(|s.data|, rec, s.db.types))
    && exists m :: Joined(s.data, m, s'.data, LastFrag(s.db, k), rec, s.db.types)
  }

  lemma {:induction false} InsertStep(s: State, k: Key, rec: Record, s': State)
    requires Inv(s) && KeyOK(k) && k.Str? && Inserts(s, k, rec, s')
    ensures Inv(s') && k !in Contents(s) && Contents(s') == Contents(s)[k := [rec]]
  {
    hide DataOK, ChainsOK, Appended, NewFrag, IndexOK, Written, RoomFor, Set, TableOK, RecordWF, Typed, KeyOK, Fields;
    var fr := NewFrag(|s.data|, rec, s.db.types);
    DataAppend(s.data, s'.data, s.db.types, s.db.frs, rec);
    SetIndex(s.index, s'.index, s.ts, Starts(s.db), k, |s.data|);
    InsertKeeps(s.db, k, fr);
  }

  lemma {:induction false} DeleteStep(s: State, k: Key, s': State)
    requires Inv(s) && KeyOK(k) && Deletes(s, k, s')
    ensures Inv(s') && Contents(s') == Contents(s) - {k}
  {
    hide DataOK, ChainsOK, IndexOK, Written, Delete, TableOK, Typed, KeyOK;
    DeleteIndex(s.index, s'.index, s.ts, Starts(s.db), k);
    DropKeeps(s.db, k);
  }

  lemma {:induction false} RewriteStep(s: State, k: Key, i: nat, rec: Record, s': State)
    requires Inv(s) && Rewrites(s, k, i, rec, s')
    ensures Inv(s') && k in Contents(s) && i < |Contents(s)[k]|
    ensures Contents(s') == Contents(s)[k := Contents(s)[k][i := rec]]
  {
    hide DataOK, ChainsOK, IndexOK, Written, RecordWF, Typed, Rewritten, After, Conforms, FragWF, AllAccept, Fields;
    var j := s.db.chains[k][i];
    DataRewrite(s.data, s'.data, s.db.types, s.db.frs, j, rec, s.db.frs[j].link);
    ReplaceKeeps(s.db, k, i, After(s.data, s.db.frs[j], Vals(rec), s.db.frs[j].link));
  }

  lemma {:induction false} DataFits(b: seq<byte>, types: seq<FieldType>, frs: seq<Frag>, j: nat)
    requires DataOK(b, types, frs) && j < |frs|
    ensures |b| <= OFF_MAX && FragWF(frs[j]) && FragOK(b, frs[j]) && Conforms(frs[j], types)
  {
    hide FragWF, FragOK, Conforms, FragApart, FragFoot;
  }

  /** The last fragment gets its link: nothing else changes. */
  lemma {:induction false} LinkStep(b: seq<byte>, b': seq<byte>, types: seq<FieldType>, frs: seq<Frag>, j: nat, to: nat)
    requires DataOK(b, types, frs) && j < |frs| && FragWF(frs[j]) && to <= OFF_MAX && Links(b, b', frs[j], to)
    ensures DataOK(b', types, frs[j := frs[j].(link := to)]) && |b'| == |b|
  {
    DataFits(b, types, frs, j);
    hide DataOK, FragWF, FragOK, Conforms, Rewritten, After, AllAccept, RecordWF, Rec, Fields;
    OwnRecord(frs[j], types);
    IdempotentRewrite(b, b', frs[j], to);
    DataRewrite(b, b', types, frs, j, Rec(frs[j], types), to);
  }

  lemma {:induction false} LinkThenWrite(b: seq<byte>, m: seq<byte>, b': seq<byte>, types: seq<FieldType>, frs: seq<Frag>,
                                         j: nat, rec: Record)
    requires DataOK(b, types, frs) && j < |frs| && FragWF(frs[j]) && RecordWF(rec, types) && |Fields(rec)| > 0
    requires |b'| <= OFF_MAX && |b| <= OFF_MAX && LinkedFirst(b, m, b', frs[j], rec, types)
    ensures DataOK(b', types, frs[j := frs[j].(link := |b|)] + [NewFrag(|b|, rec, types)]) && |m| == |b|
    ensures NewIs(|b|, rec, types)
  {
    hide DataOK, FragWF, Links, Appended, RecordWF, NewFrag, Fields, Conforms, Rec;
    LinkStep(b, m, types, frs, j, |b|);
    DataAppend(m, b', types, frs[j := frs[j].(link := |b|)], rec);
  }

  lemma {:induction false} WriteThenLink(b: seq<byte>, m: seq<byte>, b': seq<byte>, types: seq<FieldType>, frs: seq<Frag>,
                                         j: nat, rec: Record)
    requires DataOK(b, types, frs) && j < |frs| && FragWF(frs[j]) && RecordWF(rec, types) && |Fields(rec)| > 0
    requires |b'| <= OFF_MAX && |b| <= OFF_MAX && WrittenFirst(b, m, b', frs[j], rec, types)
    ensures DataOK(b', types, frs[j := frs[j].(link := |b|)] + [NewFrag(|b|, rec, types)])
    ensures NewIs(|b|, rec, types)
  {
    hide DataOK, FragWF, Links, Appended, RecordWF, NewFrag, Fields, Conforms, Rec;
    LinkKeepsSize(m, b', frs[j], |b|);
    DataAppend(b, m, types, frs, rec);
    var nw := NewFrag(|b|, rec, types);
    LinkStep(m, b', types, frs + [nw], j, |b|);
    assert (frs + [nw])[j := frs[j].(link := |b|)] == frs[j := frs[j].(link := |b|)] + [nw];
  }

  /** The fragment written for a record reads as the record. */
  ghost predicate NewIs(at: nat, rec: Record, types: seq<FieldType>)
    requires RecordWF(rec, types)
  {
    var nw := NewFrag(at, rec, types);
    FragWF(nw) && Conforms(nw, types) && Rec(nw, types) == rec && nw.at == at && nw.link == 0
  }

  /** Either order of linking and writing leaves the same fragments. */
  lemma {:induction false} ExtendData(b: seq<byte>, m: seq<byte>, b': seq<byte>, types: seq<FieldType>, frs: seq<Frag>, j: nat,
                                      rec: Record)
    requires DataOK(b, types, frs) && j < |frs| && RecordWF(rec, types) && |b'| <= OFF_MAX
    requires Joined(b, m, b', frs[j], rec, types)
    ensures DataOK(b', types, frs[j := frs[j].(link := |b|)] + [NewFrag(|b|, rec, types)])
    ensures NewIs(|b|, rec, types) && |b| <= OFF_MAX
  {
    hide DataOK, FragWF, RecordWF, NewFrag, LinkedFirst, WrittenFirst, NewIs, Fields;
    DataFits(b, types, frs, j);
    if LinkedFirst(b, m, b', frs[j], rec, types) {
      LinkThenWrite(b, m, b', types, frs, j, rec);
    } else {
      WriteThenLink(b, m, b', types, frs, j, rec);
    }
  }

  lemma {:induction false} LinkKeepsSize(m: seq<byte>, b': seq<byte>, fr: Frag, to: nat)
    requires FragWF(fr) && Links(m, b', fr, to)
    ensures |b'| == |m|
  {
    OverwrittenSame(fr, 0, |m|);
  }

  lemma {:induction false} ExtendStep(s: State, k: Key, rec: Record, s': State)
    requires Inv(s) && Extends(s, k, rec, s')
    ensures Inv(s') && k in Contents(s)
    ensures Contents(s') == Contents(s)[k := Contents(s)[k] + [rec]]
  {
    hide DataOK, ChainsOK, IndexOK, Written, RecordWF, Typed, Joined, Conforms, FragWF, NewFrag, Rec;
    var c := s.db.chains[k];
    var j := c[|c| - 1];
    var m :| Joined(s.data, m, s'.data, s.db.frs[j], rec, s.db.types);
    ExtendData(s.data, m, s'.data, s.db.types, s.db.frs, j, rec);
    ExtendKeeps(s.db, k, NewFrag(|s.data|, rec, s.db.types));
  }

  // ----- runs -----

  datatype Op =
    | Insert(key: Key, rec: Record)
    | Remove(key: Key)
    | Overwrite(key: Key, i: nat, rec: Record)
    | Extend(key: Key, rec: Record)

  /** One operation on the files. A key that is there cannot be inserted, one that is not cannot be removed. */
  ghost predicate Step(s: State, op: Op, s': State)
    requires Inv(s)
  {
    && KeyOK(op.key) && op.key.Str?
    && match op
       case Insert(k, rec) => if k in Contents(s) then s' == s else Inserts(s, k, rec, s')
       case Remove(k) => if k in Contents(s) then Deletes(s, k, s') else s' == s
       case Overwrite(k, i, rec) => Rewrites(s, k, i, rec, s')
       case Extend(k, rec) => Extends(s, k, rec, s')
  }

  /** What an operation means for the map. */
  function Apply(m: map<Key, seq<Record>>, op: Op): map<Key, seq<Record>> {
    match op
    case Insert(k, rec) => if k in m then m else m[k := [rec]]
    case Remove(k) => m - {k}
    case Overwrite(k, i, rec) => if k in m && i < |m[k]| then m[k := m[k][i := rec]] else m
    case Extend(k, rec) => if k in m then m[k := m[k] + [rec]] else m
  }

  function ApplyAll(m: map<Key, seq<Record>>, ops: seq<Op>): map<Key, seq<Record>> {
    if |ops| == 0 then m else Apply(ApplyAll(m, ops[..|ops| - 1]), ops[|ops| - 1])
  }

  lemma {:induction false} StepRefines(s: State, op: Op, s': State)
    requires Inv(s) && Step(s, op, s')
    ensures Inv(s') && Contents(s') == Apply(Contents(s), op)
  {
    hide Inv, Inserts, Deletes, Rewrites, Extends, KeyOK, Contents;
    match op
    case Insert(k, rec) =>
      if k !in Contents(s) {
        InsertStep(s, k, rec, s');
      }
    case Remove(k) =>
      if k in Contents(s) {
        DeleteStep(s, k, s');
      }
    case Overwrite(k, i, rec) => RewriteStep(s, k, i, rec, s');
    case Extend(k, rec) => ExtendStep(s, k, rec, s');
  }

  /** Consecutive states, each one operation after the one before. */
  ghost predicate Run(ss: seq<State>, ops: seq<Op>) {
    && |ss| == |ops| + 1 && Inv(ss[0])
    && forall i :: 0 <= i < |ops| && Inv(ss[i]) ==> Step(ss[i], ops[i], ss[i + 1])
  }

  /** After any run the files are well-formed and stand for the map the operations give. */
  lemma {:induction false} RunRefines(ss: seq<State>, ops: seq<Op>)
    requires Run(ss, ops)
    ensures Inv(ss[0]) && Inv(ss[|ops|]) && Contents(ss[|ops|]) == ApplyAll(Contents(ss[0]), ops)
    decreases |ops|
  {
    hide Inv, Step, Contents, Apply;
    if |ops| > 0 {
      var last := |ops| - 1;
      RunRefines(ss[..|ops|], ops[..last]);
      StepRefines(ss[last], ops[last], ss[last + 1]);
    }
  }

  // ----- what no operation touches -----

  /**
   * From one state to a later one: the schema, every table but the first, and the places and
   * fields of the fragments stay; the data file and the fragments in it only grow.
   */
  ghost predicate Keeps(s: State, s': State)
    ensures Keeps(s, s') <==>
              && s'.db.types == s.db.types && |s'.ts| == |s.ts| && (forall i :: 1 <= i < |s.ts| ==> s'.ts[i] == s.ts[i])
              && |s.data| <= |s'.data| && |s.db.frs| <= |s'.db.frs|
              && forall j :: 0 <= j < |s.db.frs| ==>
                   s'.db.frs[j].at == s.db.frs[j].at && s'.db.frs[j].fields == s.db.frs[j].fields
  {
    && s'.db.types == s.db.types && |s'.ts| == |s.ts| && (forall i :: 1 <= i < |s.ts| ==> s'.ts[i] == s.ts[i])
    && |s.data| <= |s'.data| && |s.db.frs| <= |s'.db.frs|
    && forall j :: 0 <= j < |s.db.frs| ==>
         s'.db.frs[j].at == s.db.frs[j].at && s'.db.frs[j].fields == s.db.frs[j].fields
  }

  lemma {:induction false} KeepsTwice(s: State, m: State, s': State)
    requires Keeps(s, m) && Keeps(m, s')
    ensures Keeps(s, s')
  {
  }

  lemma {:induction false} StepKeeps(s: State, op: Op, s': State)
    requires Inv(s) && Step(s, op, s')
    ensures Keeps(s, s')
  {
    hide Inv, Inserts, Deletes, Rewrites, Extends, KeyOK, Contents;
    match op
    case Insert(k, rec) =>
      if k !in Contents(s) {
        InsertLeaves(s, k, rec, s');
      }
    case Remove(k) =>
      if k in Contents(s) {
        DeleteLeaves(s, k, s');
      }
    case Overwrite(k, i, rec) => RewriteLeaves(s, k, i, rec, s');
    case Extend(k, rec) => ExtendLeaves(s, k, rec, s');
  }

  lemma {:induction false} InsertLeaves(s: State, k: Key, rec: Record, s': State)
    requires Inv(s) && KeyOK(k) && Inserts(s, k, rec, s')
    ensures Keeps(s, s') && s.data <= s'.data
  {
    hide Inv, RecordWF, Fields, NewFrag, Set, TableOK, RoomFor, Written, FragWF, FragOK, KeyOK;
  }

  lemma {:induction false} DeleteLeaves(s: State, k: Key, s': State)
    requires Inv(s) && KeyOK(k) && Deletes(s, k, s')
    ensures Keeps(s, s')
  {
    hide Inv, Delete, TableOK, Written, KeyOK;
  }

  lemma {:induction false} RewriteLeaves(s: State, k: Key, i: nat, rec: Record, s': State)
    requires Inv(s) && Rewrites(s, k, i, rec, s')
    ensures Keeps(s, s')
  {
    hide Inv, RecordWF, Fields, Vals, AllAccept, FragWF, Overwritten, Frame, FragFoot;
    var fr := s.db.frs[s.db.chains[k][i]];
    OverwrittenPlace(fr, Vals(rec), 0, |s.data|);
  }

  lemma {:induction false} OverwrittenPlace(fr: Frag, vals: seq<Value>, k: nat, eof: nat)
    requires AllAccept(fr.cells, vals, k)
    ensures Overwritten(fr, vals, k, eof).at == fr.at && Overwritten(fr, vals, k, eof).fields == fr.fields
    decreases |fr.cells| - k
  {
    if k < |fr.cells| {
      OverwrittenPlace(WithCell(fr, k, Updated(fr.cells[k], vals[k], eof)), vals, k + 1, eof + Growth(fr.cells[k], vals[k]));
    }
  }

  lemma {:induction false} ExtendLeaves(s: State, k: Key, rec: Record, s': State)
    requires Inv(s) && Extends(s, k, rec, s')
    ensures Keeps(s, s')
  {
    hide Inv, RecordWF, NewFrag, Joined;
    var m :| Joined(s.data, m, s'.data, LastFrag(s.db, k), rec, s.db.types);
    JoinedGrows(s.data, m, s'.data, LastFrag(s.db, k), rec, s.db.types);
  }

  lemma {:induction false} JoinedGrows(b: seq<byte>, m: seq<byte>, b': seq<byte>, fr: Frag, rec: Record, types: seq<FieldType>)
    requires RecordWF(rec, types) && Joined(b, m, b', fr, rec, types)
    ensures |b| <= |b'|
  {
  }

  /** Over any run: every index but the first is the one that was there, and no fragment ever moves. */
  lemma {:induction false} RunKeeps(ss: seq<State>, ops: seq<Op>)
    requires Run(ss, ops)
    ensures |ss[|ops|].ts| == |ss[0].ts| && forall i :: 1 <= i < |ss[0].ts| ==> ss[|ops|].ts[i] == ss[0].ts[i]
    ensures Keeps(ss[0], ss[|ops|])
    decreases |ops|
  {
    hide Inv, Step;
    if |ops| > 0 {
      var last := |ops| - 1;
      RunKeeps(ss[..|ops|], ops[..last]);
      RunRefines(ss[..|ops|], ops[..last]);
      StepKeeps(ss[last], ops[last], ss[last + 1]);
      KeepsTwice(ss[0], ss[last], ss[|ops|]);
    }
  }
}
