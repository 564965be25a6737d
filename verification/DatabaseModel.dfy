// What the data file and the first index stand for: a map from keys to records, each a
// list of fragments.
module DatabaseModel {
  import opened Bytes
  import opened Layout
  import opened CellUpdate
  import opened Fragment
  import opened RecordFile
  import opened RecordWrite
  import opened RecordRead
  import opened RecordStore
  import opened TableModel

  /**
   * frs are the fragments ever written, by offset; chains lists the fragments of each
   * key, first one first. Fragments of deleted keys stay in the file and in no chain.
   */
  datatype Db = Db(types: seq<FieldType>, frs: seq<Frag>, chains: map<Key, seq<nat>>)

  // ----- the data file -----

  /** The fragments stand in the file in ascending order, own disjoint bytes and fit the schema. */
  ghost predicate DataOK(b: seq<byte>, types: seq<FieldType>, frs: seq<Frag>)
    ensures DataOK(b, types, frs) ==> Typed(frs, types)
  {
    && Store(b, frs) && |b| <= OFF_MAX && |types| <= MAX_FIELD_NR
    && (forall i, j :: 0 <= i < j < |frs| ==> frs[i].at < frs[j].at)
    && Typed(frs, types)
  }

  ghost predicate Typed(frs: seq<Frag>, types: seq<FieldType>) {
    forall i :: 0 <= i < |frs| ==> FragWF(frs[i]) && Conforms(frs[i], types)
  }

  /** Field i of the record has type types[i]. */
  lemma {:induction false} ValueTypes(rec: Record, types: seq<FieldType>, i: nat, k: nat)
    requires RecordWF(rec, types) && i <= |rec| && k < |Active(rec, i)|
    ensures ValueWF(Values(rec, i)[k]) && TypeOf(Values(rec, i)[k]) == types[Active(rec, i)[k]]
    decreases i
  {
    hide ValueWF;
    if k < |Active(rec, i - 1)| {
      ValueTypes(rec, types, i - 1, k);
    }
  }

  /** A fragment that holds the values of the record reads as the record and fits its schema. */
  lemma {:induction false} ReadsAs(fr: Frag, rec: Record, types: seq<FieldType>)
    requires FragWF(fr) && RecordWF(rec, types) && fr.fields == Fields(rec) && CellValues(fr.cells) == Vals(rec)
    ensures Conforms(fr, types) && Rec(fr, types) == rec
  {
    hide ValueWF, CellValue, CellTidy;
    forall k | 0 <= k < |fr.fields| ensures fr.fields[k] < |types| && CellType(fr.cells[k]) == types[fr.fields[k]] {
      ValueTypes(rec, types, |rec|, k);
      assert CellValues(fr.cells)[k] == Vals(rec)[k];
    }
    AssembleActive(rec);
  }

  lemma {:induction false} AllWFVals(rec: Record, types: seq<FieldType>)
    requires RecordWF(rec, types)
    ensures AllWF(Vals(rec))
  {
    hide ValueWF;
    forall k | 0 <= k < |Vals(rec)| ensures ValueWF(Vals(rec)[k]) {
      ValueTypes(rec, types, |rec|, k);
    }
  }

  /** The fragment written for a record at the end of the file. */
  function NewFrag(at: nat, rec: Record, types: seq<FieldType>): (fr: Frag)
    requires RecordWF(rec, types)
  {
    AllWFVals(rec, types);
    FreshFrag(at, rec, 0)
  }

  /** `write_file(update = 0)`: a new last fragment, all the others as before. */
  lemma {:induction false} DataAppend(b: seq<byte>, b': seq<byte>, types: seq<FieldType>, frs: seq<Frag>, rec: Record)
    requires DataOK(b, types, frs) && RecordWF(rec, types) && |Fields(rec)| > 0
    requires Appended(b, b', NewFrag(|b|, rec, types)) && |b'| <= OFF_MAX
    ensures DataOK(b', types, frs + [NewFrag(|b|, rec, types)]) && |b| <= OFF_MAX
    ensures FragWF(NewFrag(|b|, rec, types)) && Conforms(NewFrag(|b|, rec, types), types)
    ensures Rec(NewFrag(|b|, rec, types), types) == rec
    ensures NewFrag(|b|, rec, types).at == |b| && NewFrag(|b|, rec, types).link == 0
  {
    hide FreshCells, Store, FragWF, FragOK, CellValues;
    AllWFVals(rec, types);
    AppendJoins(b, b', frs, rec, 0);
    FreshFragFacts(|b|, rec, 0);
    ReadsAs(FreshFrag(|b|, rec, 0), rec, types);
    StoreStarts(b, frs);
  }

  lemma {:induction false} StoreStarts(b: seq<byte>, frs: seq<Frag>)
    requires Store(b, frs)
    ensures forall i :: 0 <= i < |frs| ==> FragWF(frs[i]) && frs[i].at < |b|
  {
    hide FragApart, FragFoot, FragOK;
    forall i | 0 <= i < |frs| ensures frs[i].at < |b| {
      FragInside(b, frs[i]);
    }
  }

  /** `write_file(update = 1)`: one fragment takes new values and a link, all the others as before. */
  lemma {:induction false} DataRewrite(b: seq<byte>, b': seq<byte>, types: seq<FieldType>, frs: seq<Frag>, i: nat,
                                       rec: Record, link: nat)
    requires DataOK(b, types, frs) && i < |frs| && RecordWF(rec, types) && frs[i].fields == Fields(rec)
    requires AllAccept(frs[i].cells, Vals(rec), 0) && Rewritten(b, b', frs[i], Vals(rec), link) && |b'| <= OFF_MAX
    ensures var fr' := After(b, frs[i], Vals(rec), link);
            && DataOK(b', types, frs[i := fr']) && FragWF(fr') && Conforms(fr', types)
            && Rec(fr', types) == rec && fr'.at == frs[i].at && fr'.link == link
  {
    hide Store, FragWF, FragOK, CellValues, FragApart, FragFoot, Frame, Overwritten, Conforms;
    NonInterference(b, b', frs, i, Vals(rec), link);
    ReadsAs(After(b, frs[i], Vals(rec), link), rec, types);
  }

  // ----- chains -----

  /** The fragments of one key, each linked to the next, at ascending offsets. */
  ghost predicate ChainOK(frs: seq<Frag>, c: seq<nat>) {
    && |c| > 0 && (forall i :: 0 <= i < |c| ==> c[i] < |frs|)
    && (forall i, j :: 0 <= i < j < |c| ==> c[i] < c[j])
    && (forall i :: 0 <= i < |c| ==> frs[c[i]].link == NextAt(frs, c, i))
  }

  /** Where fragment i of a chain links to. */
  ghost function NextAt(frs: seq<Frag>, c: seq<nat>, i: nat): nat
    requires forall j :: 0 <= j < |c| ==> c[j] < |frs|
  {
    if i + 1 < |c| then frs[c[i + 1]].at else 0
  }

  /** No fragment is in two chains. */
  ghost predicate Unshared(chains: map<Key, seq<nat>>) {
    forall k, l, i, j :: k in chains && l in chains && k != l && 0 <= i < |chains[k]| && 0 <= j < |chains[l]| ==>
      chains[k][i] != chains[l][j]
  }

  ghost predicate ChainsOK(db: Db) {
    Unshared(db.chains) && forall k :: k in db.chains ==> ChainOK(db.frs, db.chains[k])
  }

  /** Fragment i of the key's record. */
  ghost function FragAt(db: Db, k: Key, i: nat): (fr: Frag)
    requires Typed(db.frs, db.types) && ChainsOK(db) && k in db.chains && i < |db.chains[k]|
    ensures FragWF(fr) && db.chains[k][i] < |db.frs| && fr == db.frs[db.chains[k][i]]
  {
    assert ChainOK(db.frs, db.chains[k]);
    db.frs[db.chains[k][i]]
  }

  /** The record a fragment reads as. */
  function Rec(fr: Frag, types: seq<FieldType>): Record
    requires FragWF(fr) && Conforms(fr, types)
  {
    RecordOf(fr, |types|)
  }

  /** The record list of a chain. */
  ghost function Records(frs: seq<Frag>, types: seq<FieldType>, c: seq<nat>): (r: seq<Record>)
    requires (forall i :: 0 <= i < |c| ==> c[i] < |frs|) && Typed(frs, types)
    ensures |r| == |c|
    ensures forall i :: 0 <= i < |c| ==> r[i] == Rec(frs[c[i]], types)
  {
    seq(|c|, i requires 0 <= i < |c| => Rec(frs[c[i]], types))
  }

  /** The map the fragments and chains stand for. */
  ghost function Abs(db: Db): (m: map<Key, seq<Record>>)
    requires Typed(db.frs, db.types) && ChainsOK(db)
    ensures m.Keys == db.chains.Keys
    ensures forall k :: k in db.chains ==> ChainOK(db.frs, db.chains[k]) && m[k] == Records(db.frs, db.types, db.chains[k])
  {
    map k | k in db.chains :: Records(db.frs, db.types, db.chains[k])
  }

  /** What the first index must hold. */
  ghost function Starts(db: Db): (m: map<Key, nat>)
    requires ChainsOK(db)
    ensures m.Keys == db.chains.Keys
    ensures forall k :: k in db.chains ==> ChainOK(db.frs, db.chains[k]) && m[k] == db.frs[db.chains[k][0]].at
  {
    map k | k in db.chains :: db.frs[db.chains[k][0]].at
  }

  // ----- what the operations do to chains -----

  /** A new key whose only fragment is fr. */
  function Inserted(db: Db, k: Key, fr: Frag): Db {
    db.(frs := db.frs + [fr], chains := db.chains[k := [|db.frs|]])
  }

  /** Fragment j replaced. */
  function Replaced(db: Db, j: nat, fr: Frag): Db
    requires j < |db.frs|
  {
    db.(frs := db.frs[j := fr])
  }

  /** One more fragment at the end of the chain of k, the last one linked to it. */
  function Extended(db: Db, k: Key, fr: Frag): Db
    requires k in db.chains && |db.chains[k]| > 0 && db.chains[k][|db.chains[k]| - 1] < |db.frs|
  {
    var c := db.chains[k];
    var last := c[|c| - 1];
    db.(frs := db.frs[last := db.frs[last].(link := fr.at)] + [fr], chains := db.chains[k := c + [|db.frs|]])
  }

  function Dropped(db: Db, k: Key): Db {
    db.(chains := db.chains - {k})
  }

  /** A chain whose fragments kept their places, links and contents is the same chain. */
  lemma {:induction false} SameChain(frs: seq<Frag>, frs': seq<Frag>, types: seq<FieldType>, c: seq<nat>)
    requires ChainOK(frs, c) && Typed(frs, types) && Typed(frs', types) && |frs| <= |frs'|
    requires forall i :: 0 <= i < |c| ==> frs'[c[i]] == frs[c[i]]
    ensures ChainOK(frs', c) && Records(frs', types, c) == Records(frs, types, c)
  {
    hide FragWF, Conforms;
    assert forall i :: 0 <= i < |c| ==> NextAt(frs', c, i) == NextAt(frs, c, i);
    assert Records(frs', types, c) == Records(frs, types, c);
  }

  /** The fragments of all keys but k are as they were. */
  ghost predicate OthersSame(db: Db, db': Db, k: Key) {
    && |db.frs| <= |db'.frs| && db'.types == db.types
    && forall l :: l in db.chains && l != k ==> FragsSame(db.frs, db'.frs, db.chains[l])
  }

  ghost predicate FragsSame(frs: seq<Frag>, frs': seq<Frag>, c: seq<nat>) {
    |frs| <= |frs'| && forall i :: 0 <= i < |c| && c[i] < |frs| ==> frs'[c[i]] == frs[c[i]]
  }

  lemma {:induction false} OtherChain(db: Db, db': Db, k: Key, l: Key)
    requires Typed(db.frs, db.types) && Typed(db'.frs, db.types) && ChainsOK(db)
    requires OthersSame(db, db', k) && l in db.chains && l != k
    ensures ChainOK(db.frs, db.chains[l]) && ChainOK(db'.frs, db.chains[l]) && |db.frs| <= |db'.frs|
    ensures Records(db'.frs, db.types, db.chains[l]) == Records(db.frs, db.types, db.chains[l])
    ensures |db.chains[l]| > 0 && db.chains[l][0] < |db.frs| && db'.frs[db.chains[l][0]] == db.frs[db.chains[l][0]]
  {
    var c := db.chains[l];
    assert ChainOK(db.frs, c) && FragsSame(db.frs, db'.frs, c);
    hide Typed, OthersSame, ChainsOK;
    SameChain(db.frs, db'.frs, db.types, c);
  }

  lemma {:induction false} AllChains(db: Db)
    requires Unshared(db.chains) && forall l :: l in db.chains ==> ChainOK(db.frs, db.chains[l])
    ensures ChainsOK(db)
  {
  }

  lemma {:induction false} FirstInside(frs: seq<Frag>, c: seq<nat>)
    requires ChainOK(frs, c)
    ensures |c| > 0 && forall i :: 0 <= i < |c| ==> c[i] < |frs|
  {
  }

  /** Only the chain of k changed, or it is new. */
  ghost predicate OneChain(db: Db, db': Db, k: Key, c: seq<nat>) {
    && Typed(db.frs, db.types) && Typed(db'.frs, db.types) && ChainsOK(db) && OthersSame(db, db', k)
    && db'.types == db.types && db'.chains == db.chains[k := c] && Unshared(db'.chains) && ChainOK(db'.frs, c)
  }

  lemma {:induction false} OneChainOK(db: Db, db': Db, k: Key, c: seq<nat>)
    requires OneChain(db, db', k, c)
    ensures Typed(db'.frs, db'.types) && Typed(db.frs, db.types) && ChainsOK(db') && ChainsOK(db) && OthersSame(db, db', k)
    ensures db'.types == db.types && db'.chains == db.chains[k := c] && ChainOK(db'.frs, c)
    ensures |c| > 0 && (forall i :: 0 <= i < |c| ==> c[i] < |db'.frs|)
  {
    hide Typed, Unshared, OthersSame, ChainOK;
    FirstInside(db'.frs, c);
    forall l | l in db.chains && l != k ensures ChainOK(db'.frs, db.chains[l]) {
      OtherChain(db, db', k, l);
    }
    AllChains(db');
  }

  lemma {:induction false} OneChainChanged(db: Db, db': Db, k: Key, c: seq<nat>)
    requires OneChain(db, db', k, c)
    ensures Typed(db'.frs, db'.types) && ChainsOK(db') && |c| > 0 && (forall i :: 0 <= i < |c| ==> c[i] < |db'.frs|)
    ensures Abs(db') == Abs(db)[k := Records(db'.frs, db.types, c)]
    ensures Starts(db') == Starts(db)[k := db'.frs[c[0]].at]
  {
    hide *;
    OneChainOK(db, db', k, c);
    OneChainAbs(db, db', k, c);
    OneChainStarts(db, db', k, c);
  }

  lemma {:induction false} OneChainAbs(db: Db, db': Db, k: Key, c: seq<nat>)
    requires OneChain(db, db', k, c) && Typed(db'.frs, db'.types) && Typed(db.frs, db.types) && ChainsOK(db') && ChainsOK(db)
    requires OthersSame(db, db', k) && db'.types == db.types && db'.chains == db.chains[k := c]
    requires forall i :: 0 <= i < |c| ==> c[i] < |db'.frs|
    ensures Abs(db') == Abs(db)[k := Records(db'.frs, db.types, c)]
  {
    hide *;
    forall l | l in db.chains && l != k ensures Abs(db')[l] == Abs(db)[l] {
      OtherChain(db, db', k, l);
    }
  }

  lemma {:induction false} OneChainStarts(db: Db, db': Db, k: Key, c: seq<nat>)
    requires OneChain(db, db', k, c) && Typed(db'.frs, db'.types) && Typed(db.frs, db.types) && ChainsOK(db') && ChainsOK(db)
    requires OthersSame(db, db', k) && db'.types == db.types && db'.chains == db.chains[k := c]
    requires |c| > 0 && forall i :: 0 <= i < |c| ==> c[i] < |db'.frs|
    ensures Starts(db') == Starts(db)[k := db'.frs[c[0]].at]
  {
    hide *;
    forall l | l in db.chains && l != k ensures Starts(db')[l] == Starts(db)[l] {
      OtherChain(db, db', k, l);
    }
  }

  lemma {:induction false} InsertKeeps(db: Db, k: Key, fr: Frag)
    requires Typed(db.frs, db.types) && ChainsOK(db) && k !in db.chains
    requires FragWF(fr) && Conforms(fr, db.types) && fr.link == 0
    ensures var db' := Inserted(db, k, fr);
            && Typed(db'.frs, db'.types) && ChainsOK(db')
            && Abs(db') == Abs(db)[k := [Rec(fr, db.types)]] && Starts(db') == Starts(db)[k := fr.at]
  {
    var db' := Inserted(db, k, fr);
    NewIsUnshared(db, k, []);
    assert ChainOK(db'.frs, [|db.frs|]);
    hide FragWF, Conforms, Rec, ChainOK, Unshared;
    assert OneChain(db, db', k, [|db.frs|]);
    assert Records(db'.frs, db.types, [|db.frs|]) == [Rec(fr, db.types)];
    OneChainChanged(db, db', k, [|db.frs|]);
  }

  /** The next fragment number is in no chain yet. */
  lemma {:induction false} NewIsUnshared(db: Db, k: Key, c: seq<nat>)
    requires ChainsOK(db) && if k in db.chains then c == db.chains[k] else c == []
    ensures Unshared(db.chains[k := c + [|db.frs|]])
    ensures forall l, i :: l in db.chains && 0 <= i < |db.chains[l]| ==> db.chains[l][i] < |db.frs|
  {
    forall l, i | l in db.chains && 0 <= i < |db.chains[l]| ensures db.chains[l][i] < |db.frs| {
      assert ChainOK(db.frs, db.chains[l]);
    }
  }

  lemma {:induction false} DropKeeps(db: Db, k: Key)
    requires Typed(db.frs, db.types) && ChainsOK(db)
    ensures ChainsOK(Dropped(db, k))
    ensures Abs(Dropped(db, k)) == Abs(db) - {k} && Starts(Dropped(db, k)) == Starts(db) - {k}
  {
    hide FragWF, Conforms, ChainOK;
  }

  /** Fragment i of key k takes new contents; its place and its link stay. */
  lemma {:induction false} ReplaceKeeps(db: Db, k: Key, i: nat, fr: Frag)
    requires Typed(db.frs, db.types) && ChainsOK(db) && k in db.chains && i < |db.chains[k]|
    requires FragWF(fr) && Conforms(fr, db.types)
    requires db.chains[k][i] < |db.frs| && fr.at == db.frs[db.chains[k][i]].at && fr.link == db.frs[db.chains[k][i]].link
    ensures var db' := Replaced(db, db.chains[k][i], fr);
            && Typed(db'.frs, db'.types) && ChainsOK(db') && Starts(db') == Starts(db)
            && Abs(db') == Abs(db)[k := Abs(db)[k][i := Rec(fr, db.types)]]
  {
    hide *;
    ReplaceOne(db, k, i, fr);
    OneChainChanged(db, Replaced(db, db.chains[k][i], fr), k, db.chains[k]);
  }

  lemma {:induction false} ReplaceOne(db: Db, k: Key, i: nat, fr: Frag)
    requires Typed(db.frs, db.types) && ChainsOK(db) && k in db.chains && i < |db.chains[k]|
    requires FragWF(fr) && Conforms(fr, db.types)
    requires db.chains[k][i] < |db.frs| && fr.at == db.frs[db.chains[k][i]].at && fr.link == db.frs[db.chains[k][i]].link
    ensures var db' := Replaced(db, db.chains[k][i], fr); var c := db.chains[k];
            && OneChain(db, db', k, c) && (forall j :: 0 <= j < |c| ==> c[j] < |db'.frs|) && Typed(db'.frs, db.types)
            && Records(db'.frs, db.types, c) == Abs(db)[k][i := Rec(fr, db.types)]
            && |c| > 0 && Starts(db)[k := db'.frs[c[0]].at] == Starts(db)
  {
    hide *;
    var c := db.chains[k];
    var db' := Replaced(db, c[i], fr);
    ChainOf(db, k);
    FirstInside(db.frs, c);
    assert db.chains[k := c] == db.chains;
    ReplacedTyped(db.frs, db.types, c[i], fr);
    SameLinks(db.frs, db.frs[c[i] := fr], c);
    OthersKept(db, k, i, fr);
    ReplacedRecords(db.frs, db.types, c, i, fr);
    OneChainIs(db, db', k, c);
  }

  lemma {:induction false} OneChainIs(db: Db, db': Db, k: Key, c: seq<nat>)
    requires Typed(db.frs, db.types) && Typed(db'.frs, db.types) && ChainsOK(db) && OthersSame(db, db', k)
    requires db'.types == db.types && db'.chains == db.chains[k := c] && Unshared(db'.chains) && ChainOK(db'.frs, c)
    ensures OneChain(db, db', k, c)
  {
  }

  lemma {:induction false} ReplacedTyped(frs: seq<Frag>, types: seq<FieldType>, j: nat, fr: Frag)
    requires Typed(frs, types) && j < |frs| && FragWF(fr) && Conforms(fr, types)
    ensures Typed(frs[j := fr], types)
  {
    hide FragWF, Conforms;
  }

  lemma {:induction false} OthersKept(db: Db, k: Key, i: nat, fr: Frag)
    requires k in db.chains && i < |db.chains[k]| && db.chains[k][i] < |db.frs| && Unshared(db.chains)
    ensures OthersSame(db, Replaced(db, db.chains[k][i], fr), k)
    ensures Replaced(db, db.chains[k][i], fr) == db.(frs := db.frs[db.chains[k][i] := fr])
  {
  }

  lemma {:induction false} ReplacedRecords(frs: seq<Frag>, types: seq<FieldType>, c: seq<nat>, i: nat, fr: Frag)
    requires Typed(frs, types) && i < |c| && ChainOK(frs, c) && FragWF(fr) && Conforms(fr, types)
    ensures Typed(frs[c[i] := fr], types) && forall j :: 0 <= j < |c| ==> c[j] < |frs|
    ensures Records(frs[c[i] := fr], types, c) == Records(frs, types, c)[i := Rec(fr, types)]
  {
    hide FragWF, Conforms, Rec;
    ReplacedTyped(frs, types, c[i], fr);
    assert forall j :: 0 <= j < |c| && j != i ==> c[j] != c[i];
    hide ChainOK;
    assert Records(frs[c[i] := fr], types, c) == Records(frs, types, c)[i := Rec(fr, types)];
  }

  lemma {:induction false} SameLinks(frs: seq<Frag>, frs': seq<Frag>, c: seq<nat>)
    requires ChainOK(frs, c) && |frs| <= |frs'|
    requires forall i :: 0 <= i < |c| ==> frs'[c[i]].at == frs[c[i]].at && frs'[c[i]].link == frs[c[i]].link
    ensures ChainOK(frs', c)
  {
    assert forall i :: 0 <= i < |c| ==> NextAt(frs', c, i) == NextAt(frs, c, i);
  }

  lemma {:induction false} ExtendKeeps(db: Db, k: Key, fr: Frag)
    requires Typed(db.frs, db.types) && ChainsOK(db) && k in db.chains
    requires FragWF(fr) && Conforms(fr, db.types) && fr.link == 0 && fr.at <= OFF_MAX
    ensures |db.chains[k]| > 0 && db.chains[k][|db.chains[k]| - 1] < |db.frs|
    ensures var db' := Extended(db, k, fr);
            && Typed(db'.frs, db'.types) && ChainsOK(db') && Starts(db') == Starts(db)
            && Abs(db') == Abs(db)[k := Abs(db)[k] + [Rec(fr, db.types)]]
  {
    hide *;
    ExtendOne(db, k, fr);
    OneChainChanged(db, Extended(db, k, fr), k, db.chains[k] + [|db.frs|]);
  }

  lemma {:induction false} ExtendOne(db: Db, k: Key, fr: Frag)
    requires Typed(db.frs, db.types) && ChainsOK(db) && k in db.chains
    requires FragWF(fr) && Conforms(fr, db.types) && fr.link == 0 && fr.at <= OFF_MAX
    ensures |db.chains[k]| > 0 && db.chains[k][|db.chains[k]| - 1] < |db.frs|
    ensures var db' := Extended(db, k, fr); var c := db.chains[k] + [|db.frs|];
            && OneChain(db, db', k, c) && (forall j :: 0 <= j < |c| ==> c[j] < |db'.frs|) && Typed(db'.frs, db.types)
            && Records(db'.frs, db.types, c) == Abs(db)[k] + [Rec(fr, db.types)]
            && Starts(db)[k := db'.frs[c[0]].at] == Starts(db)
  {
    hide *;
    var c := db.chains[k];
    ChainOf(db, k);
    FirstInside(db.frs, c);
    var db' := Extended(db, k, fr);
    ExtendedIs(db, k, fr);
    NewIsUnshared(db, k, c);
    ExtendedTyped(db.frs, db.types, c[|c| - 1], fr);
    ExtendedChain(db.frs, db'.frs, c, fr.at);
    ExtendedOthers(db, k, fr);
    ExtendedRecords(db.frs, db.types, c, fr);
    OneChainIs(db, db', k, c + [|db.frs|]);
  }

  lemma {:induction false} ChainOf(db: Db, k: Key)
    requires ChainsOK(db) && k in db.chains
    ensures ChainOK(db.frs, db.chains[k]) && Unshared(db.chains)
  {
  }

  lemma {:induction false} ExtendedIs(db: Db, k: Key, fr: Frag)
    requires k in db.chains && |db.chains[k]| > 0 && db.chains[k][|db.chains[k]| - 1] < |db.frs|
    ensures var c := db.chains[k]; var db' := Extended(db, k, fr);
            && db'.types == db.types && db'.chains == db.chains[k := c + [|db.frs|]]
            && db'.frs == db.frs[c[|c| - 1] := db.frs[c[|c| - 1]].(link := fr.at)] + [fr]
  {
  }

  lemma {:induction false} ExtendedTyped(frs: seq<Frag>, types: seq<FieldType>, j: nat, fr: Frag)
    requires Typed(frs, types) && j < |frs| && FragWF(fr) && Conforms(fr, types) && fr.at <= OFF_MAX
    ensures Typed(frs[j := frs[j].(link := fr.at)] + [fr], types)
    ensures FragWF(frs[j].(link := fr.at)) && Conforms(frs[j].(link := fr.at), types)
    ensures FragWF(frs[j]) && Conforms(frs[j], types)
    ensures Rec(frs[j].(link := fr.at), types) == Rec(frs[j], types)
  {
    Relinked(frs[j], types, fr.at);
    hide FragWF, Conforms;
  }

  lemma {:induction false} ExtendedOthers(db: Db, k: Key, fr: Frag)
    requires ChainsOK(db) && k in db.chains && |db.chains[k]| > 0 && db.chains[k][|db.chains[k]| - 1] < |db.frs|
    ensures OthersSame(db, Extended(db, k, fr), k)
  {
  }

  lemma {:induction false} ExtendedRecords(frs: seq<Frag>, types: seq<FieldType>, c: seq<nat>, fr: Frag)
    requires Typed(frs, types) && ChainOK(frs, c) && FragWF(fr) && Conforms(fr, types) && fr.at <= OFF_MAX
    ensures |c| > 0 && forall j :: 0 <= j < |c| ==> c[j] < |frs|
    ensures var frs' := frs[c[|c| - 1] := frs[c[|c| - 1]].(link := fr.at)] + [fr];
            && Typed(frs', types)
            && Records(frs', types, c + [|frs|]) == Records(frs, types, c) + [Rec(fr, types)]
  {
    hide FragWF, Conforms, Rec;
    var last := c[|c| - 1];
    ExtendedTyped(frs, types, last, fr);
    var frs' := frs[last := frs[last].(link := fr.at)] + [fr];
    hide ChainOK;
    assert Records(frs', types, c + [|frs|]) == Records(frs, types, c) + [Rec(fr, types)];
  }

  lemma {:induction false} Relinked(fr: Frag, types: seq<FieldType>, link: nat)
    requires FragWF(fr) && Conforms(fr, types) && link <= OFF_MAX
    ensures FragWF(fr.(link := link)) && Conforms(fr.(link := link), types)
    ensures Rec(fr.(link := link), types) == Rec(fr, types)
  {
  }

  lemma {:induction false} ExtendedChain(frs: seq<Frag>, frs': seq<Frag>, c: seq<nat>, link: nat)
    requires ChainOK(frs, c) && |frs'| == |frs| + 1 && frs'[|frs|].at == link && frs'[|frs|].link == 0
    requires forall i :: 0 <= i < |frs| ==> frs'[i] == if i == c[|c| - 1] then frs[i].(link := link) else frs[i]
    ensures ChainOK(frs', c + [|frs|])
  {
    var c' := c + [|frs|];
    forall i | 0 <= i < |c'| ensures frs'[c'[i]].link == NextAt(frs', c', i) {
      assert i < |c| ==> frs[c[i]].link == NextAt(frs, c, i);
    }
  }
}
