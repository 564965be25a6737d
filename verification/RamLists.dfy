// When get_record answers from memory as it does from the file.
module RamLists {
  import opened Bytes
  import opened Layout
  import opened CellUpdate
  import opened Fragment
  import opened RecordRead
  import opened TableModel
  import opened DatabaseModel
  import opened RamModel
  import opened RamProperties
  import DatabaseOps
  import RamFile

  /** What get_all_record makes of the file: an empty file leaves the standard buffer of zeros. */
  function Image(b: seq<byte>): (m: seq<byte>)
    ensures b != [] ==> m == b
  {
    if b == [] then Zeros(RamFile.STD_RAM_FILE) else b
  }

  // ----- the fragments of a chain -----

  /** The fragments of the key's record from the i-th on are readable in memory. */
  ghost predicate ReadableFrom(b: seq<byte>, db: Db, k: Key, i: nat)
    requires Typed(db.frs, db.types) && ChainsOK(db) && k in db.chains
    ensures ReadableFrom(b, db, k, i) <==>
              forall j :: i <= j < |db.chains[k]| ==> AllReadable(FragAt(db, k, j), |b|)
  {
    forall j :: i <= j < |db.chains[k]| ==> AllReadable(FragAt(db, k, j), |b|)
  }

  /** No field of the key's record is a zero byte. */
  ghost predicate NoZeroBytes(db: Db, k: Key)
    requires Typed(db.frs, db.types) && ChainsOK(db) && k in db.chains
    ensures NoZeroBytes(db, k) <==> forall j :: 0 <= j < |db.chains[k]| ==> NoZeroByte(FragAt(db, k, j))
  {
    forall j :: 0 <= j < |db.chains[k]| ==> NoZeroByte(FragAt(db, k, j))
  }

  /** Fragment i, its record and its link. */
  lemma {:induction false} Part(b: seq<byte>, db: Db, k: Key, i: nat)
    requires DataOK(b, db.types, db.frs) && ChainsOK(db) && k in db.chains && i < |db.chains[k]|
    ensures var fr := FragAt(db, k, i);
            && Sound(b, db.types, fr) && LinkPos(fr) + 8 <= |b| && Word(b, LinkPos(fr), 8) == fr.link
            && (forall j :: 0 <= j < |fr.fields| ==> fr.fields[j] < |db.types|)
            && |Abs(db)[k]| == |db.chains[k]| && Abs(db)[k][i] == RecordOf(fr, |db.types|)
            && fr.link == if i + 1 < |db.chains[k]| then FragAt(db, k, i + 1).at else 0
    ensures i + 1 < |db.chains[k]| ==> FragAt(db, k, i + 1).at > 0
  {
    hide *;
    DatabaseOps.ChainParts(b, db, k, i);
    DatabaseOps.ChainRecords(db, k);
    LinkWord(b, FragAt(db, k, i));
    WholeRecord(b, db.types, FragAt(db, k, i));
  }

  lemma {:induction false} LinkWord(b: seq<byte>, fr: Frag)
    requires FragWF(fr) && FragOK(b, fr)
    ensures LinkPos(fr) + 8 <= |b| && Word(b, LinkPos(fr), 8) == fr.link
  {
    assert PartOK(b, fr, |fr.cells| + 1);
    Widths();
    hide At, CellWF, CellTidy, ValueWF, CellValue, PartOK, FragOK, LinkPos;
    WordIs(b, LinkPos(fr), 8, fr.link);
  }

  // ----- what the reader makes of the chain -----

  lemma {:induction false} ListStep(m: seq<byte>, types: seq<FieldType>, p: nat, rounds: nat, rec: Record, end: nat)
    requires rounds > 0 && SeeRecord(m, types, p) == Got(rec, end) && end + 8 <= |m|
    ensures SeeList(m, types, p, rounds) ==
              if Word(m, end, 8) == 0 then Some([rec]) else Prefixed([rec], SeeList(m, types, Word(m, end, 8), rounds - 1))
  {
    hide Word, SeeRecord;
  }

  /** The list seen starts with the record seen. */
  lemma {:induction false} ListStarts(m: seq<byte>, types: seq<FieldType>, p: nat, rounds: nat)
    ensures var r := SeeList(m, types, p, rounds);
            r.Some? ==> SeeRecord(m, types, p).Got? && |r.value| > 0 && r.value[0] == SeeRecord(m, types, p).value
  {
    hide Word, SeeRecord;
  }

  /** From fragment i on: a readable rest is seen as it is, and only such a rest if no byte is zero. */
  lemma {:induction false} ListFrom(b: seq<byte>, db: Db, k: Key, i: nat, rounds: nat)
    requires DataOK(b, db.types, db.frs) && ChainsOK(db) && k in db.chains && i < |db.chains[k]| == |Abs(db)[k]|
    requires |db.chains[k]| - i <= rounds
    ensures ReadableFrom(b, db, k, i) ==> SeeList(b, db.types, FragAt(db, k, i).at, rounds) == Some(Abs(db)[k][i..])
    ensures NoZeroBytes(db, k) && SeeList(b, db.types, FragAt(db, k, i).at, rounds) == Some(Abs(db)[k][i..])
            ==> ReadableFrom(b, db, k, i)
    decreases |db.chains[k]| - i
  {
    hide *;
    var fr, recs := FragAt(db, k, i), Abs(db)[k];
    Part(b, db, k, i);
    RecordAgrees(b, db.types, fr);
    ListStarts(b, db.types, fr.at, rounds);
    if AllReadable(fr, |b|) {
      ListStep(b, db.types, fr.at, rounds, recs[i], LinkPos(fr));
      if i + 1 < |db.chains[k]| {
        ListFrom(b, db, k, i + 1, rounds - 1);
        PrefixedIs(recs, i, SeeList(b, db.types, FragAt(db, k, i + 1).at, rounds - 1));
      } else {
        assert [recs[i]] == recs[i..];
      }
    } else {
      assert recs[i..][0] == recs[i];
    }
  }

  lemma {:induction false} PrefixedIs<T>(s: seq<T>, i: nat, rest: Option<seq<T>>)
    requires i < |s|
    ensures Prefixed([s[i]], rest) == Some(s[i..]) <==> rest == Some(s[i + 1..])
  {
    assert s[i..] == [s[i]] + s[i + 1..];
    if rest.Some? && Prefixed([s[i]], rest) == Some(s[i..]) {
      assert ([s[i]] + rest.value)[1..] == rest.value;
      assert s[i..][1..] == s[i + 1..];
    }
  }

  lemma {:induction false} Ascending(s: seq<nat>, n: nat)
    requires (forall i :: 0 <= i < |s| ==> s[i] < n) && forall i, j :: 0 <= i < j < |s| ==> s[i] < s[j]
    ensures |s| <= n
    decreases |s|
  {
    if |s| > 0 {
      Ascending(s[..|s| - 1], s[|s| - 1]);
    }
  }

  /** A record has no more fragments than the file has bytes. */
  lemma {:induction false} ChainFits(b: seq<byte>, db: Db, k: Key)
    requires DataOK(b, db.types, db.frs) && ChainsOK(db) && k in db.chains
    ensures |db.chains[k]| <= |b| && b != [] && |db.chains[k]| == |Abs(db)[k]|
    ensures |db.chains[k]| > 0 && Starts(db)[k] == FragAt(db, k, 0).at
  {
    hide FragWF, FragOK, FragApart, FragFoot, Conforms;
    var c := db.chains[k];
    assert ChainOK(db.frs, c);
    var ats := seq(|c|, i requires 0 <= i < |c| => db.frs[c[i]].at);
    StoreStarts(b, db.frs);
    Ascending(ats, |b|);
    assert ats[0] < |b|;
  }

  /**
   * get_record from memory: the list that the path on disk gives if no fragment has a byte
   * field or a moved string out of reach; and only if, unless a field is a zero byte.
   */
  lemma {:induction false} ListAgrees(b: seq<byte>, db: Db, k: Key)
    requires DataOK(b, db.types, db.frs) && ChainsOK(db) && k in db.chains
    ensures var seen := SeeList(Image(b), db.types, Starts(db)[k], |Image(b)|);
            && (ReadableFrom(b, db, k, 0) ==> seen == Some(Abs(db)[k]))
            && (NoZeroBytes(db, k) && seen == Some(Abs(db)[k]) ==> ReadableFrom(b, db, k, 0))
  {
    hide *;
    ChainFits(b, db, k);
    ListFrom(b, db, k, 0, |b|);
    assert Abs(db)[k][0..] == Abs(db)[k];
  }
}
