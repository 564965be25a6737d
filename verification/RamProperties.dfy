// When the reader in memory gives the records that read_file gives.
module RamProperties {
  import opened Bytes
  import opened Layout
  import opened CellUpdate
  import opened Fragment
  import opened RecordRead
  import opened RamModel
  import TextUpdate

  predicate AllReadable(fr: Frag, size: nat)
    requires FragWF(fr)
  {
    forall k :: 0 <= k < |fr.cells| ==> CellWF(fr.cells[k]) && Readable(fr.cells[k], size)
  }

  /** The record after k fields, as the memory reader has it, and as read_file has it. */
  function SeenAt(m: seq<byte>, types: seq<FieldType>, fr: Frag, k: nat): Seen<Record>
    requires FragWF(fr) && k <= |fr.fields|
  {
    SeeUpTo(m, types, fr.fields, CellPos(fr, 0), k)
  }

  function ReadAt(fr: Frag, types: seq<FieldType>, k: nat): (r: Seen<Record>)
    requires FragWF(fr) && Conforms(fr, types) && k <= |fr.fields|
    ensures r.Got? && |r.value| == |types|
  {
    AssembleStart(fr, types, |types|);
    Got(Assemble(fr.fields[..k], CellValues(fr.cells)[..k], |types|), CellPos(fr, k))
  }

  /** The fragment as the reader needs it. */
  ghost predicate Sound(m: seq<byte>, types: seq<FieldType>, fr: Frag)
    ensures Sound(m, types, fr) <==> FragWF(fr) && FragOK(m, fr) && FragApart(fr) && Conforms(fr, types)
  {
    FragWF(fr) && FragOK(m, fr) && FragApart(fr) && Conforms(fr, types)
  }

  // ----- one field more -----

  lemma {:induction false} SeenNext(m: seq<byte>, types: seq<FieldType>, fr: Frag, k: nat)
    requires FragWF(fr) && Conforms(fr, types) && k < |fr.fields|
    ensures fr.fields[k] < |types|
    ensures SeenAt(m, types, fr, k).Astray? ==> SeenAt(m, types, fr, k + 1).Astray?
    ensures SeenAt(m, types, fr, k).Got? ==>
              var was := SeenAt(m, types, fr, k);
              var field := SeeField(m, was.end, types[fr.fields[k]]);
              && |was.value| == |types|
              && SeenAt(m, types, fr, k + 1) ==
                 if field.Got? then Got(was.value[fr.fields[k] := Some(field.value)], field.end) else Astray
  {
    hide SeeField, CellValue, CellWF, ValueWF, CellTidy, CellPos;
  }

  lemma {:induction false} ReadNext(m: seq<byte>, types: seq<FieldType>, fr: Frag, k: nat)
    requires Sound(m, types, fr) && k < |fr.cells|
    ensures k < |fr.fields| && fr.fields[k] < |types|
    ensures var c := fr.cells[k];
            && CellWF(c) && CellOK(m, CellPos(fr, k), c) && CellApart(CellPos(fr, k), c)
            && types[fr.fields[k]] == CellType(c)
            && |ReadAt(fr, types, k).value| == |types|
            && ReadAt(fr, types, k).end == CellPos(fr, k)
            && ReadAt(fr, types, k + 1) ==
               Got(ReadAt(fr, types, k).value[fr.fields[k] := Some(CellValue(c))], CellPos(fr, k) + CellSize(c))
  {
    CellFacts(m, fr, types, k);
    hide FragOK, CellOK, CellSize, CellValue, CellTidy, Offset, CellPos, PartFoot, CellFoot;
  }

  /** In step up to field k: whether it stays so, and how it does not. */
  lemma {:induction false} StepFrom(m: seq<byte>, types: seq<FieldType>, fr: Frag, k: nat)
    requires Sound(m, types, fr) && k < |fr.cells| && k < |fr.fields| && CellWF(fr.cells[k])
    requires SeenAt(m, types, fr, k) == ReadAt(fr, types, k)
    ensures SeenAt(m, types, fr, k + 1) == ReadAt(fr, types, k + 1) <==> Readable(fr.cells[k], |m|)
    ensures !Readable(fr.cells[k], |m|) && !CellValue(fr.cells[k]).Byte? ==> SeenAt(m, types, fr, k + 1).Astray?
    ensures CellValue(fr.cells[k]).Byte? ==>
              var seen := SeenAt(m, types, fr, k + 1);
              && seen.Got? && seen.end + 1 == CellPos(fr, k + 1)
              && fr.fields[k] < |types| == |seen.value| && seen.value[fr.fields[k]] == Some(Byte(0))
  {
    hide *;
    SeenNext(m, types, fr, k);
    ReadNext(m, types, fr, k);
    FieldAgrees(m, CellPos(fr, k), fr.cells[k]);
    ReadableIs(fr.cells[k], |m|);
    PosNext(fr, k);
    var rec, i := ReadAt(fr, types, k).value, fr.fields[k];
    assert forall u, v :: rec[i := Some(u)] == rec[i := Some(v)] ==> rec[i := Some(u)][i] == rec[i := Some(v)][i];
  }

  lemma {:induction false} StartsInStep(m: seq<byte>, types: seq<FieldType>, fr: Frag)
    requires FragWF(fr) && Conforms(fr, types)
    ensures SeenAt(m, types, fr, 0) == ReadAt(fr, types, 0)
  {
    AssembleStart(fr, types, |types|);
  }

  /** While the fields are readable the two readers go in step. */
  lemma {:induction false} InStepUpTo(m: seq<byte>, types: seq<FieldType>, fr: Frag, k: nat)
    requires Sound(m, types, fr) && k <= |fr.cells| && k <= |fr.fields|
    requires forall j :: 0 <= j < k ==> CellWF(fr.cells[j]) && Readable(fr.cells[j], |m|)
    ensures SeenAt(m, types, fr, k) == ReadAt(fr, types, k)
  {
    hide *;
    if k == 0 {
      StartsInStep(m, types, fr);
    } else {
      InStepUpTo(m, types, fr, k - 1);
      StepFrom(m, types, fr, k - 1);
    }
  }

  // ----- a record -----

  lemma {:induction false} FirstUnreadable(fr: Frag, size: nat) returns (k: nat)
    requires FragWF(fr) && !AllReadable(fr, size)
    ensures k < |fr.cells| == |fr.fields| && CellWF(fr.cells[k]) && !Readable(fr.cells[k], size)
    ensures forall j :: 0 <= j < k ==> CellWF(fr.cells[j]) && Readable(fr.cells[j], size)
  {
    hide Readable, CellWF, CellTidy, CellValue, ValueWF;
    k := 0;
    while Readable(fr.cells[k], size)
      invariant k < |fr.cells|
      invariant forall j :: 0 <= j < k ==> CellWF(fr.cells[j]) && Readable(fr.cells[j], size)
      decreases |fr.cells| - k
    {
      assert exists j :: 0 <= j < |fr.cells| && !Readable(fr.cells[j], size);
      k := k + 1;
    }
  }

  /** Field by field the readers agree on the record so far and on the position. */
  ghost predicate InStep(m: seq<byte>, types: seq<FieldType>, fr: Frag)
    requires FragWF(fr) && Conforms(fr, types)
    ensures InStep(m, types, fr) <==>
              forall k: nat :: k <= |fr.fields| ==> SeenAt(m, types, fr, k) == ReadAt(fr, types, k)
  {
    forall k: nat :: k <= |fr.fields| ==> SeenAt(m, types, fr, k) == ReadAt(fr, types, k)
  }

  /** The readers agree at every field if and only if no field is a byte or a moved string out of reach. */
  lemma {:induction false} InStepIff(m: seq<byte>, types: seq<FieldType>, fr: Frag)
    requires Sound(m, types, fr)
    ensures InStep(m, types, fr) <==> AllReadable(fr, |m|)
  {
    hide *;
    if AllReadable(fr, |m|) {
      ReadableParts(fr, |m|);
      forall k: nat | k <= |fr.fields| ensures SeenAt(m, types, fr, k) == ReadAt(fr, types, k) {
        InStepUpTo(m, types, fr, k);
      }
    } else {
      var k := FirstUnreadable(fr, |m|);
      InStepUpTo(m, types, fr, k);
      StepFrom(m, types, fr, k);
      assert SeenAt(m, types, fr, k + 1) != ReadAt(fr, types, k + 1);
    }
  }

  lemma {:induction false} ReadableParts(fr: Frag, size: nat)
    requires FragWF(fr) && AllReadable(fr, size)
    ensures |fr.cells| == |fr.fields| && forall k :: 0 <= k < |fr.cells| ==> CellWF(fr.cells[k]) && Readable(fr.cells[k], size)
  {
    hide Readable, CellWF, CellTidy, CellValue, ValueWF;
  }

  /** What the whole record is to either reader. */
  lemma {:induction false} WholeRecord(m: seq<byte>, types: seq<FieldType>, fr: Frag)
    requires Sound(m, types, fr)
    ensures SeeRecord(m, types, fr.at) == SeenAt(m, types, fr, |fr.fields|)
    ensures (forall k :: 0 <= k < |fr.fields| ==> fr.fields[k] < |types|) && |fr.cells| == |fr.fields|
    ensures ReadAt(fr, types, |fr.fields|) == Got(RecordOf(fr, |types|), LinkPos(fr)) && LinkPos(fr) == CellPos(fr, |fr.fields|)
  {
    hide CellOK, CellValue, CellWF, CellTidy, ValueWF, FragApart, SeeUpTo, FragOK;
    AssembleStart(fr, types, |types|);
    var n := |fr.fields|;
    HeaderAt(m, fr, 0);
    var indexes := m[fr.at + 1..fr.at + 1 + n];
    forall k | 0 <= k < n ensures indexes[k] == fr.fields[k] {
      HeaderAt(m, fr, k);
    }
    assert indexes == fr.fields;
    assert CellPos(fr, 0) == fr.at + 1 + n;
  }

  lemma {:induction false} AstrayStays(m: seq<byte>, types: seq<FieldType>, fr: Frag, j: nat, k: nat)
    requires FragWF(fr) && Conforms(fr, types) && j <= k <= |fr.fields| && SeenAt(m, types, fr, j).Astray?
    ensures SeenAt(m, types, fr, k).Astray?
    decreases k
  {
    hide *;
    if j < k {
      AstrayStays(m, types, fr, j, k - 1);
      SeenNext(m, types, fr, k - 1);
    }
  }

  /** A field once seen keeps its value, since no later one has its index. */
  lemma {:induction false} ValueStays(m: seq<byte>, types: seq<FieldType>, fr: Frag, j: nat, k: nat)
    requires FragWF(fr) && Conforms(fr, types) && j < k <= |fr.fields| && SeenAt(m, types, fr, k).Got?
    ensures SeenAt(m, types, fr, j + 1).Got? && fr.fields[j] < |types|
    ensures |SeenAt(m, types, fr, k).value| == |SeenAt(m, types, fr, j + 1).value| == |types|
    ensures SeenAt(m, types, fr, k).value[fr.fields[j]] == SeenAt(m, types, fr, j + 1).value[fr.fields[j]]
    decreases k
  {
    hide *;
    SeenNext(m, types, fr, k - 1);
    if j + 1 < k {
      FieldsAscend(fr);
      ValueStays(m, types, fr, j, k - 1);
    }
  }

  /** Field k of a fragment's record. */
  lemma {:induction false} FieldOf(fr: Frag, types: seq<FieldType>, k: nat)
    requires FragWF(fr) && Conforms(fr, types) && k < |fr.fields| && k < |fr.cells|
    ensures (forall j :: 0 <= j < |fr.fields| ==> fr.fields[j] < |types|) && CellWF(fr.cells[k])
    ensures RecordOf(fr, |types|)[fr.fields[k]] == Some(CellValue(fr.cells[k]))
  {
    hide CellWF, CellTidy, CellValue, ValueWF, Assemble;
    AssembleAt(fr.fields, CellValues(fr.cells), |types|, fr.fields[k]);
  }

  predicate ZeroByte(c: Cell) {
    c == Plain(Byte(0))
  }

  /** A zero byte shows in the position only, and behind one there are only fields of fixed size. */
  predicate Definite(fr: Frag) {
    forall j, k :: 0 <= j < k < |fr.cells| && ZeroByte(fr.cells[j]) ==> fr.cells[k].Plain?
  }

  /** A field of fixed size moves the pointer by no more than it has on disk. */
  lemma {:induction false} PlainMoves(m: seq<byte>, q: nat, c: Cell)
    requires CellWF(c) && c.Plain? && SeeField(m, q, CellType(c)).Got?
    ensures SeeField(m, q, CellType(c)).end <= q + CellSize(c)
  {
  }

  /** A pointer that is behind stays behind over fields of fixed size. */
  lemma {:induction false} BehindStays(m: seq<byte>, types: seq<FieldType>, fr: Frag, j: nat, k: nat)
    requires Sound(m, types, fr) && j <= k <= |fr.fields| && |fr.cells| == |fr.fields|
    requires forall i :: j <= i < k ==> fr.cells[i].Plain?
    requires SeenAt(m, types, fr, j).Got? ==> SeenAt(m, types, fr, j).end < CellPos(fr, j)
    ensures SeenAt(m, types, fr, k).Got? ==> SeenAt(m, types, fr, k).end < CellPos(fr, k)
    decreases k
  {
    hide *;
    if j < k {
      BehindStays(m, types, fr, j, k - 1);
      SeenNext(m, types, fr, k - 1);
      ReadNext(m, types, fr, k - 1);
      PosNext(fr, k - 1);
      if SeenAt(m, types, fr, k).Got? {
        PlainMoves(m, SeenAt(m, types, fr, k - 1).end, fr.cells[k - 1]);
      }
    }
  }

  /** From an unreadable field on. */
  lemma {:induction false} Unreadable(m: seq<byte>, types: seq<FieldType>, fr: Frag)
    requires Sound(m, types, fr) && !AllReadable(fr, |m|)
    ensures (forall k :: 0 <= k < |fr.fields| ==> fr.fields[k] < |types|)
    ensures var r := SeeRecord(m, types, fr.at);
            r.Got? ==>
              || r.value != RecordOf(fr, |types|)
              || exists j :: 0 <= j < |fr.cells| && ZeroByte(fr.cells[j])
                             && (Definite(fr) ==> r.end < LinkPos(fr))
  {
    hide *;
    WholeRecord(m, types, fr);
    var n := |fr.fields|;
    var k := FirstUnreadable(fr, |m|);
    InStepUpTo(m, types, fr, k);
    StepFrom(m, types, fr, k);
    ReadableIs(fr.cells[k], |m|);
    if SeenAt(m, types, fr, k + 1).Astray? {
      AstrayStays(m, types, fr, k + 1, n);
    } else if SeenAt(m, types, fr, n).Got? {
      ValueStays(m, types, fr, k, n);
      FieldOf(fr, types, k);
      if CellValue(fr.cells[k]) == Byte(0) {
        ZeroIs(fr, k);
        if Definite(fr) {
          BehindStays(m, types, fr, k + 1, n);
        }
      }
    }
  }

  lemma {:induction false} ZeroIs(fr: Frag, k: nat)
    requires k < |fr.cells| && CellWF(fr.cells[k]) && CellValue(fr.cells[k]) == Byte(0)
    ensures ZeroByte(fr.cells[k])
    ensures Definite(fr) ==> forall i :: k + 1 <= i < |fr.cells| ==> fr.cells[i].Plain?
  {
  }

  /**
   * A record: the readers agree on its value and end if no field is a byte or a moved string
   * out of reach, and only if, when the zero bytes come after all strings and arrays; without
   * zero bytes the value alone shows it.
   */
  lemma {:induction false} RecordAgrees(m: seq<byte>, types: seq<FieldType>, fr: Frag)
    requires Sound(m, types, fr)
    ensures (forall k :: 0 <= k < |fr.fields| ==> fr.fields[k] < |types|)
    ensures AllReadable(fr, |m|) ==> SeeRecord(m, types, fr.at) == Got(RecordOf(fr, |types|), LinkPos(fr))
    ensures Definite(fr) && SeeRecord(m, types, fr.at) == Got(RecordOf(fr, |types|), LinkPos(fr)) ==> AllReadable(fr, |m|)
    ensures NoZeroByte(fr) && SeeRecord(m, types, fr.at).Got? && SeeRecord(m, types, fr.at).value == RecordOf(fr, |types|)
            ==> AllReadable(fr, |m|)
  {
    hide *;
    WholeRecord(m, types, fr);
    NoZeroByteIs(fr);
    if AllReadable(fr, |m|) {
      ReadableParts(fr, |m|);
      InStepUpTo(m, types, fr, |fr.fields|);
    } else {
      Unreadable(m, types, fr);
    }
  }

  predicate NoZeroByte(fr: Frag) {
    forall k :: 0 <= k < |fr.cells| ==> !ZeroByte(fr.cells[k])
  }

  lemma {:induction false} NoZeroByteIs(fr: Frag)
    ensures NoZeroByte(fr) <==> forall k :: 0 <= k < |fr.cells| ==> !ZeroByte(fr.cells[k])
  {
  }

  /**
   * Right after an update moved a string to the end of the file the reader takes it for what
   * it is if and only if the string and its NUL are as long as the whole file was.
   */
  lemma {:induction false} AfterMove(m: seq<byte>, p: nat, c: Cell, s: seq<byte>, eof: nat)
    requires CellWF(c) && c.TextCell? && |s| + 1 > TextUpdate.Current(c).size && eof > 0
    requires var c' := TextUpdate.Updated(c, s, eof); CellWF(c') && CellOK(m, p, c')
    requires |m| == eof + TextUpdate.Growth(c, s)
    ensures SeeText(m, p) == (if |s| + 1 == eof then Got(s, p + CellSize(c)) else Astray)
  {
    var c' := TextUpdate.Updated(c, s, eof);
    hide CellOK, SeeText;
    TextAgrees(m, p, c');
  }
}
