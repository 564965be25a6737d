// read_file and get_update_offset: a fragment at the cursor, and the link behind it.
module RecordRead {
  import opened Bytes
  import opened ByteFile
  import opened Layout
  import opened CellUpdate
  import opened Fragment

  /** The fragment's fields have the types the schema gives them. */
  predicate Conforms(fr: Frag, types: seq<FieldType>)
    requires FragWF(fr)
  {
    && |types| <= MAX_FIELD_NR
    && forall k :: 0 <= k < |fr.fields| ==>
         fr.fields[k] < |types| && CellType(fr.cells[k]) == types[fr.fields[k]]
  }

  lemma {:induction false} HeaderAt(b: seq<byte>, fr: Frag, k: nat)
    requires FragWF(fr) && FragOK(b, fr) && (k < |fr.fields| || k == 0)
    ensures 0 < |fr.fields| && k < |fr.fields| && CellPos(fr, 0) == fr.at + 1 + |fr.fields|
    ensures CellPos(fr, 0) <= |b| && b[fr.at] == |fr.fields| && b[fr.at + 1 + k] == fr.fields[k]
  {
    assert PartOK(b, fr, 0);
    var h := HeaderBytes(fr.fields);
    assert b[fr.at..fr.at + |h|][0] == h[0];
    assert b[fr.at..fr.at + |h|][1 + k] == h[1 + k];
  }

  /** The field_set bits from the count and the indexes. */
  method ReadHeader(f: File, n: nat, ghost fr: Frag) returns (fieldSet: seq<bool>)
    requires FragWF(fr) && FragOK(f.bytes, fr) && f.pos == fr.at
    requires forall k :: 0 <= k < |fr.fields| ==> fr.fields[k] < n
    modifies f`pos
    ensures |fieldSet| == n && f.pos == CellPos(fr, 0)
    ensures forall i: nat :: i < n ==> (fieldSet[i] <==> i in fr.fields)
  {
    hide *;
    HeaderAt(f.bytes, fr, 0);
    var data := f.Read(1);
    var count := data[0];
    fieldSet := seq(n, _ => false);
    for k := 0 to count
      invariant |fieldSet| == n && f.pos == fr.at + 1 + k && count == |fr.fields|
      invariant forall i: nat :: i < n ==> (fieldSet[i] <==> i in fr.fields[..k])
    {
      HeaderAt(f.bytes, fr, k);
      data := f.Read(1);
      fieldSet := fieldSet[data[0] := true];
      assert fr.fields[..k + 1] == fr.fields[..k] + [fr.fields[k]];
    }
    assert fr.fields[..count] == fr.fields;
  }

  /** Fields below index k lie before schema index i, the others do not. */
  predicate Passed(fields: seq<nat>, k: nat, i: nat) {
    && k <= |fields|
    && (forall j :: 0 <= j < k ==> fields[j] < i)
    && (forall j :: k <= j < |fields| ==> i <= fields[j])
  }

  lemma {:induction false} PassNext(fields: seq<nat>, k: nat, i: nat)
    requires Passed(fields, k, i) && forall j, l :: 0 <= j < l < |fields| ==> fields[j] < fields[l]
    ensures i in fields ==> k < |fields| && fields[k] == i && Passed(fields, k + 1, i + 1)
    ensures i !in fields ==> Passed(fields, k, i + 1)
  {
    if i in fields {
      var j :| 0 <= j < |fields| && fields[j] == i;
      assert k <= j;
      assert fields[k] <= fields[j];
    }
  }

  method Read(f: File, types: seq<FieldType>, ghost fr: Frag) returns (rec: Record)
    requires FragWF(fr) && FragOK(f.bytes, fr) && Conforms(fr, types) && f.pos == fr.at
    modifies f`pos
    ensures rec == RecordOf(fr, |types|)
    ensures f.pos == LinkPos(fr)
  {
    hide *;
    AssembleStart(fr, types, |types|);
    var fieldSet := ReadHeader(f, |types|, fr);
    rec := seq(|types|, _ => None);
    ghost var k := 0;
    PassStart(fr.fields);
    for i := 0 to |types|
      invariant k <= |fr.cells| && Passed(fr.fields, k, i) && f.pos == CellPos(fr, k)
      invariant rec == Assemble(fr.fields[..k], CellValues(fr.cells)[..k], |types|)
    {
      FieldsAscend(fr);
      PassNext(fr.fields, k, i);
      if fieldSet[i] {
        CellFacts(f.bytes, fr, types, k);
        var v := ReadCell(f, types[i], fr.cells[k]);
        rec := rec[i := Some(v)];
        k := k + 1;
      }
    }
    AllPassed(fr.fields, k, |types|);
  }

  lemma {:induction false} PassStart(fields: seq<nat>)
    ensures Passed(fields, 0, 0)
  {
  }

  lemma {:induction false} FieldsAscend(fr: Frag)
    requires FragWF(fr)
    ensures forall j, l :: 0 <= j < l < |fr.fields| ==> fr.fields[j] < fr.fields[l]
  {
  }

  lemma {:induction false} AssembleStart(fr: Frag, types: seq<FieldType>, n: nat)
    requires FragWF(fr) && Conforms(fr, types) && n == |types|
    ensures (forall k :: 0 <= k < |fr.fields| ==> fr.fields[k] < n) && |fr.fields| == |fr.cells|
    ensures forall k :: 0 <= k < |fr.cells| ==> CellWF(fr.cells[k])
    ensures Assemble(fr.fields[..0], CellValues(fr.cells)[..0], n) == seq(n, _ => None)
    ensures RecordOf(fr, n) == Assemble(fr.fields[..|fr.fields|], CellValues(fr.cells)[..|fr.cells|], n)
    ensures LinkPos(fr) == CellPos(fr, |fr.cells|)
  {
    assert fr.fields[..|fr.fields|] == fr.fields && CellValues(fr.cells)[..|fr.cells|] == CellValues(fr.cells);
  }

  /** What reading field k needs, and the record with it. */
  lemma {:induction false} CellFacts(b: seq<byte>, fr: Frag, types: seq<FieldType>, k: nat)
    requires FragWF(fr) && FragOK(b, fr) && Conforms(fr, types) && k < |fr.cells|
    ensures forall j :: 0 <= j < |fr.fields| ==> fr.fields[j] < |types|
    ensures k < |fr.fields| && CellWF(fr.cells[k]) && CellOK(b, CellPos(fr, k), fr.cells[k])
    ensures CellType(fr.cells[k]) == types[fr.fields[k]] && CellPos(fr, k + 1) == CellPos(fr, k) + CellSize(fr.cells[k])
    ensures Assemble(fr.fields[..k + 1], CellValues(fr.cells)[..k + 1], |types|)
            == Assemble(fr.fields[..k], CellValues(fr.cells)[..k], |types|)[fr.fields[k] := Some(CellValue(fr.cells[k]))]
  {
    hide *;
    CellIs(b, fr, k);
    CellTyped(fr, types, k);
    PosNext(fr, k);
    AssembleLast(fr.fields[..k + 1], CellValues(fr.cells)[..k + 1], |types|);
    assert fr.fields[..k + 1][..k] == fr.fields[..k];
    assert CellValues(fr.cells)[..k + 1][..k] == CellValues(fr.cells)[..k];
  }

  lemma {:induction false} CellTyped(fr: Frag, types: seq<FieldType>, k: nat)
    requires FragWF(fr) && Conforms(fr, types) && k < |fr.cells|
    ensures |fr.fields| == |fr.cells| == |CellValues(fr.cells)| && forall j :: 0 <= j < |fr.fields| ==> fr.fields[j] < |types|
    ensures forall j :: 0 <= j < |fr.cells| ==> CellWF(fr.cells[j])
    ensures CellType(fr.cells[k]) == types[fr.fields[k]] && CellValues(fr.cells)[k] == CellValue(fr.cells[k])
  {
    hide CellWF, CellValue, CellTidy, ValueWF;
  }

  lemma {:induction false} PosNext(fr: Frag, k: nat)
    requires FragWF(fr) && k < |fr.cells| && CellWF(fr.cells[k])
    ensures CellPos(fr, k + 1) == CellPos(fr, k) + CellSize(fr.cells[k])
  {
    hide CellWF, CellSize, CellValue, CellTidy, ValueWF;
  }

  lemma {:induction false} AssembleLast(fields: seq<nat>, vals: seq<Value>, n: nat)
    requires |fields| == |vals| > 0 && forall k :: 0 <= k < |fields| ==> fields[k] < n
    ensures var last := |fields| - 1;
            Assemble(fields, vals, n) == Assemble(fields[..last], vals[..last], n)[fields[last] := Some(vals[last])]
  {
  }

  lemma {:induction false} AllPassed(fields: seq<nat>, k: nat, n: nat)
    requires Passed(fields, k, n) && forall j :: 0 <= j < |fields| ==> fields[j] < n
    ensures k == |fields|
  {
    if k < |fields| {
      FirstLeft(fields, k, n);
    }
  }

  lemma {:induction false} FirstLeft(fields: seq<nat>, k: nat, n: nat)
    requires Passed(fields, k, n) && k < |fields|
    ensures fields[k] >= n
  {
  }

  lemma {:induction false} CellIs(b: seq<byte>, fr: Frag, k: nat)
    requires FragWF(fr) && FragOK(b, fr) && k < |fr.cells|
    ensures CellOK(b, CellPos(fr, k), fr.cells[k])
  {
    assert PartOK(b, fr, k + 1);
  }

  /** get_update_offset: the link behind the cells. */
  method ReadLink(f: File, ghost fr: Frag) returns (link: nat)
    requires FragWF(fr) && FragOK(f.bytes, fr) && f.pos == LinkPos(fr)
    modifies f`pos
    ensures link == fr.link && f.pos == LinkPos(fr) + 8
  {
    assert PartOK(f.bytes, fr, |fr.cells| + 1);
    link := f.Read64();
  }
}
