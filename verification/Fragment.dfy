// A stored fragment of a record: [count][field indexes][cells][link to the next fragment].
module Fragment {
  import opened Bytes
  import opened Layout
  import opened CellUpdate

  /** A record in schema order; None stands for a field whose field_set bit is 0. */
  type Record = seq<Option<Value>>

  const MAX_FIELD_NR := 200
  const NTG_WR := 14

  /** Indexes of the active fields below i, in ascending order. */
  function Active(rec: Record, i: nat): (r: seq<nat>)
    requires i <= |rec|
    ensures forall k :: 0 <= k < |r| ==> r[k] < i
  {
    if i == 0 then [] else Active(rec, i - 1) + if rec[i - 1].Some? then [i - 1] else []
  }

  /** Values of the active fields below i. */
  function Values(rec: Record, i: nat): (r: seq<Value>)
    requires i <= |rec|
    ensures |r| == |Active(rec, i)|
  {
    if i == 0 then [] else Values(rec, i - 1) + if rec[i - 1].Some? then [rec[i - 1].value] else []
  }

  lemma {:induction false} ActivePrefix(rec: Record, i: nat, j: nat)
    requires i <= j <= |rec|
    ensures Active(rec, i) <= Active(rec, j) && Values(rec, i) <= Values(rec, j)
    decreases j
  {
    if i < j {
      ActivePrefix(rec, i, j - 1);
    }
  }

  lemma {:induction false} ActiveOne(rec: Record, i: nat)
    requires i < |rec|
    ensures Active(rec, i + 1) == if rec[i].Some? then Active(rec, i) + [i] else Active(rec, i)
    ensures Values(rec, i + 1) == if rec[i].Some? then Values(rec, i) + [rec[i].value] else Values(rec, i)
  {
  }

  /** The k-th active field and its value. */
  lemma {:induction false} ActiveAt(rec: Record, i: nat, k: nat)
    requires i <= |rec| && k < |Active(rec, i)|
    ensures rec[Active(rec, i)[k]].Some? && Values(rec, i)[k] == rec[Active(rec, i)[k]].value
    decreases i
  {
    if k < |Active(rec, i - 1)| {
      ActiveAt(rec, i - 1, k);
    }
  }

  /** Active field i is the next one after those below i. */
  lemma {:induction false} ActiveNext(rec: Record, i: nat)
    requires i < |rec| && rec[i].Some?
    ensures var k := |Active(rec, i)|;
            && k < |Active(rec, |rec|)| && Active(rec, |rec|)[k] == i && Values(rec, |rec|)[k] == rec[i].value
    ensures |Active(rec, i + 1)| == |Active(rec, i)| + 1
  {
    ActivePrefix(rec, i + 1, |rec|);
  }

  /** One field more: its index is added when it is active. */
  lemma {:induction false} ActiveStep(rec: Record, i: nat)
    requires i < |rec|
    ensures Active(rec, 0) == [] && Values(rec, 0) == []
    ensures Active(rec, i + 1) == if rec[i].Some? then Active(rec, i) + [i] else Active(rec, i)
    ensures |Active(rec, i + 1)| <= |Active(rec, |rec|)|
  {
    ActivePrefix(rec, i + 1, |rec|);
  }

  lemma {:induction false} ActiveAscends(rec: Record, i: nat)
    requires i <= |rec|
    ensures |Active(rec, i)| <= i
    ensures forall j, k :: 0 <= j < k < |Active(rec, i)| ==> Active(rec, i)[j] < Active(rec, i)[k]
  {
    if i > 0 {
      ActiveAscends(rec, i - 1);
    }
  }

  /** The record of n fields whose fields at the given indexes have the given values. */
  function Assemble(fields: seq<nat>, vals: seq<Value>, n: nat): (r: Record)
    requires |fields| == |vals| && forall k :: 0 <= k < |fields| ==> fields[k] < n
    ensures |r| == n
  {
    if |fields| == 0 then seq(n, _ => None)
    else
      var last := |fields| - 1;
      Assemble(fields[..last], vals[..last], n)[fields[last] := Some(vals[last])]
  }

  lemma {:induction false} AssembleNext(rec: Record, i: nat)
    requires 0 < i <= |rec|
    ensures Assemble(Active(rec, i), Values(rec, i), |rec|) ==
              var r := Assemble(Active(rec, i - 1), Values(rec, i - 1), |rec|);
              if rec[i - 1].Some? then r[i - 1 := rec[i - 1]] else r
  {
    if rec[i - 1].Some? {
      var last := |Active(rec, i)| - 1;
      assert Active(rec, i)[..last] == Active(rec, i - 1);
      assert Values(rec, i)[..last] == Values(rec, i - 1);
    } else {
      assert Active(rec, i) == Active(rec, i - 1);
      assert Values(rec, i) == Values(rec, i - 1);
    }
  }

  lemma {:induction false} AssembleUpTo(rec: Record, i: nat)
    requires i <= |rec|
    ensures var r := Assemble(Active(rec, i), Values(rec, i), |rec|);
            forall j :: 0 <= j < |rec| ==> r[j] == if j < i then rec[j] else None
  {
    if i > 0 {
      hide Assemble, Active, Values;
      AssembleUpTo(rec, i - 1);
      AssembleNext(rec, i);
    }
  }

  /** The values stand at their indexes, and nothing elsewhere. */
  lemma {:induction false} AssembleAt(fields: seq<nat>, vals: seq<Value>, n: nat, i: nat)
    requires |fields| == |vals| && i < n && forall k :: 0 <= k < |fields| ==> fields[k] < n
    requires forall j, k :: 0 <= j < k < |fields| ==> fields[j] < fields[k]
    ensures i !in fields ==> Assemble(fields, vals, n)[i] == None
    ensures forall k :: 0 <= k < |fields| && fields[k] == i ==> Assemble(fields, vals, n)[i] == Some(vals[k])
    decreases |fields|
  {
    if |fields| > 0 {
      var last := |fields| - 1;
      AssembleAt(fields[..last], vals[..last], n, i);
    }
  }

  /** A record is its active fields and their values. */
  lemma {:induction false} AssembleActive(rec: Record)
    ensures Assemble(Active(rec, |rec|), Values(rec, |rec|), |rec|) == rec
  {
    AssembleUpTo(rec, |rec|);
  }

  datatype Frag = Frag(at: nat, fields: seq<nat>, cells: seq<Cell>, link: nat)

  predicate FragWF(fr: Frag) {
    && 0 < |fr.fields| == |fr.cells| <= MAX_FIELD_NR
    && (forall k :: 0 <= k < |fr.fields| ==> fr.fields[k] < MAX_FIELD_NR)
    && (forall j, k :: 0 <= j < k < |fr.fields| ==> fr.fields[j] < fr.fields[k])
    && (forall k :: 0 <= k < |fr.cells| ==> CellWF(fr.cells[k]) && CellTidy(fr.cells[k]) && ValueWF(CellValue(fr.cells[k])))
    && fr.link <= OFF_MAX
  }

  /** Total length of the inline parts of the first k cells. */
  function Offset(cells: seq<Cell>, k: nat): nat
    requires k <= |cells| && forall i :: 0 <= i < |cells| ==> CellWF(cells[i])
  {
    if k == 0 then 0 else Offset(cells, k - 1) + CellSize(cells[k - 1])
  }

  function CellPos(fr: Frag, k: nat): nat
    requires FragWF(fr) && k <= |fr.cells|
  {
    fr.at + 1 + |fr.fields| + Offset(fr.cells, k)
  }

  function LinkPos(fr: Frag): nat
    requires FragWF(fr)
  {
    CellPos(fr, |fr.cells|)
  }

  function HeaderBytes(fields: seq<nat>): (r: seq<byte>)
    requires |fields| <= MAX_FIELD_NR && forall k :: 0 <= k < |fields| ==> fields[k] < MAX_FIELD_NR
    ensures |r| == 1 + |fields|
  {
    [|fields|] + seq(|fields|, k requires 0 <= k < |fields| => fields[k])
  }

  /**
   * The parts of a fragment: 0 is the header, 1 to |cells| are the cells and the last
   * one is the link.
   */
  ghost predicate PartOK(b: seq<byte>, fr: Frag, i: nat)
    requires FragWF(fr) && i < |fr.cells| + 2
  {
    if i == 0 then At(b, fr.at, HeaderBytes(fr.fields))
    else if i <= |fr.cells| then CellOK(b, CellPos(fr, i - 1), fr.cells[i - 1])
    else At(b, LinkPos(fr), BE64(fr.link))
  }

  ghost function PartFoot(fr: Frag, i: nat): set<nat>
    requires FragWF(fr) && i < |fr.cells| + 2
  {
    if i == 0 then Range(fr.at, fr.at + 1 + |fr.fields|)
    else if i <= |fr.cells| then CellFoot(CellPos(fr, i - 1), fr.cells[i - 1])
    else Range(LinkPos(fr), LinkPos(fr) + 8)
  }

  ghost predicate FragOK(b: seq<byte>, fr: Frag)
    requires FragWF(fr)
  {
    forall i: nat :: i < |fr.cells| + 2 ==> PartOK(b, fr, i)
  }

  ghost predicate FragApart(fr: Frag)
    requires FragWF(fr)
  {
    && (forall i: nat, j: nat :: i < j < |fr.cells| + 2 ==> PartFoot(fr, i) !! PartFoot(fr, j))
    && (forall k :: 0 <= k < |fr.cells| ==> CellApart(CellPos(fr, k), fr.cells[k]))
  }

  ghost function FootUpTo(fr: Frag, i: nat): (s: set<nat>)
    requires FragWF(fr) && i <= |fr.cells| + 2
    ensures forall j: nat :: j < i ==> PartFoot(fr, j) <= s
  {
    if i == 0 then {} else FootUpTo(fr, i - 1) + PartFoot(fr, i - 1)
  }

  /** Every byte the fragment owns. */
  ghost function FragFoot(fr: Frag): (s: set<nat>)
    requires FragWF(fr)
    ensures forall j: nat :: j < |fr.cells| + 2 ==> PartFoot(fr, j) <= s
  {
    FootUpTo(fr, |fr.cells| + 2)
  }

  lemma {:induction false} FootWithin(fr: Frag, i: nat, s: set<nat>)
    requires FragWF(fr) && i <= |fr.cells| + 2
    requires forall j: nat :: j < i ==> PartFoot(fr, j) <= s
    ensures FootUpTo(fr, i) <= s
  {
    if i > 0 {
      FootWithin(fr, i - 1, s);
    }
  }

  lemma {:induction false} PartFrame(b: seq<byte>, b': seq<byte>, fr: Frag, i: nat, touched: set<nat>)
    requires FragWF(fr) && i < |fr.cells| + 2 && PartOK(b, fr, i)
    requires Frame(b, b', touched) && PartFoot(fr, i) !! touched
    ensures PartOK(b', fr, i)
  {
    if i == 0 {
      AtFrame(b, b', fr.at, HeaderBytes(fr.fields), touched);
    } else if i <= |fr.cells| {
      CellFrame(b, b', CellPos(fr, i - 1), fr.cells[i - 1], touched);
    } else {
      AtFrame(b, b', LinkPos(fr), BE64(fr.link), touched);
    }
  }

  /** A fragment reads the same after any change outside the bytes it owns. */
  lemma {:induction false} FragFrame(b: seq<byte>, b': seq<byte>, fr: Frag, touched: set<nat>)
    requires FragWF(fr) && FragOK(b, fr) && Frame(b, b', touched) && FragFoot(fr) !! touched
    ensures FragOK(b', fr)
  {
    forall i: nat | i < |fr.cells| + 2 ensures PartOK(b', fr, i) {
      assert PartFoot(fr, i) <= FragFoot(fr);
      PartFrame(b, b', fr, i, touched);
    }
  }

  lemma {:induction false} FragInside(b: seq<byte>, fr: Frag)
    requires FragWF(fr) && FragOK(b, fr)
    ensures FragFoot(fr) <= Range(0, |b|) && LinkPos(fr) + 8 <= |b|
  {
    forall i: nat | i < |fr.cells| + 2 ensures PartFoot(fr, i) <= Range(0, |b|) {
      assert PartOK(b, fr, i);
      if 0 < i <= |fr.cells| {
        CellInside(b, CellPos(fr, i - 1), fr.cells[i - 1]);
      }
    }
    FootWithin(fr, |fr.cells| + 2, Range(0, |b|));
    assert PartOK(b, fr, |fr.cells| + 1);
  }

  function CellValues(cells: seq<Cell>): (r: seq<Value>)
    requires forall i :: 0 <= i < |cells| ==> CellWF(cells[i])
    ensures |r| == |cells|
  {
    seq(|cells|, k requires 0 <= k < |cells| => CellValue(cells[k]))
  }

  /** The record a reader obtains from the fragment under a schema of n fields. */
  function RecordOf(fr: Frag, n: nat): Record
    requires FragWF(fr) && forall k :: 0 <= k < |fr.fields| ==> fr.fields[k] < n
  {
    Assemble(fr.fields, CellValues(fr.cells), n)
  }

  // ----- replacing one part -----

  lemma {:induction false} OffsetSame(cells: seq<Cell>, cells': seq<Cell>, i: nat)
    requires i <= |cells| && i <= |cells'|
    requires forall j :: 0 <= j < |cells| ==> CellWF(cells[j])
    requires forall j :: 0 <= j < |cells'| ==> CellWF(cells'[j])
    requires forall j :: 0 <= j < i ==> CellSize(cells'[j]) == CellSize(cells[j])
    ensures Offset(cells', i) == Offset(cells, i)
  {
    if i > 0 {
      OffsetSame(cells, cells', i - 1);
    }
  }

  /** Cell k of the fragment replaced by another one of the same inline size. */
  function WithCell(fr: Frag, k: nat, c: Cell): Frag
    requires k < |fr.cells|
  {
    fr.(cells := fr.cells[k := c])
  }

  lemma {:induction false} WithCellParts(fr: Frag, k: nat, c: Cell)
    requires FragWF(fr) && CellWF(c) && CellTidy(c) && ValueWF(CellValue(c))
    requires k < |fr.cells| && CellSize(c) == CellSize(fr.cells[k])
    ensures FragWF(WithCell(fr, k, c)) && LinkPos(WithCell(fr, k, c)) == LinkPos(fr)
    ensures forall i: nat :: i <= |fr.cells| ==> CellPos(WithCell(fr, k, c), i) == CellPos(fr, i)
    ensures forall i: nat :: i < |fr.cells| + 2 && i != k + 1 ==> PartFoot(WithCell(fr, k, c), i) == PartFoot(fr, i)
  {
    var fr' := WithCell(fr, k, c);
    forall i: nat | i <= |fr.cells| ensures CellPos(fr', i) == CellPos(fr, i) {
      OffsetSame(fr.cells, fr'.cells, i);
    }
  }

  /** Overwriting one cell keeps the fragment well-formed and apart; it grows only past the old end of file. */
  lemma {:induction false} ReplaceCell(b: seq<byte>, b': seq<byte>, fr: Frag, k: nat, c: Cell)
    requires FragWF(fr) && FragOK(b, fr) && FragApart(fr) && k < |fr.cells| && |b| <= |b'|
    requires CellWF(c) && CellTidy(c) && ValueWF(CellValue(c)) && CellSize(c) == CellSize(fr.cells[k])
    requires CellOK(b', CellPos(fr, k), c) && CellApart(CellPos(fr, k), c)
    requires Frame(b, b', CellFoot(CellPos(fr, k), fr.cells[k]))
    requires CellFoot(CellPos(fr, k), c) <= CellFoot(CellPos(fr, k), fr.cells[k]) + Range(|b|, |b'|)
    ensures FragWF(WithCell(fr, k, c)) && FragOK(b', WithCell(fr, k, c)) && FragApart(WithCell(fr, k, c))
    ensures FragFoot(WithCell(fr, k, c)) <= FragFoot(fr) + Range(|b|, |b'|)
  {
    hide *;
    var fr' := WithCell(fr, k, c);
    WithCellParts(fr, k, c);
    FragInside(b, fr);
    ReplacedParts(b, b', fr, k, c);
    ReplacedCells(fr, k, c);
    ReplacedApart(fr, fr', k, |b|, |b'|);
  }

  lemma {:induction false} ReplacedParts(b: seq<byte>, b': seq<byte>, fr: Frag, k: nat, c: Cell)
    requires FragWF(fr) && FragOK(b, fr) && FragApart(fr) && k < |fr.cells| && CellWF(c)
    requires FragWF(WithCell(fr, k, c)) && CellPos(WithCell(fr, k, c), k) == CellPos(fr, k)
    requires LinkPos(WithCell(fr, k, c)) == LinkPos(fr)
    requires forall i: nat :: i <= |fr.cells| ==> CellPos(WithCell(fr, k, c), i) == CellPos(fr, i)
    requires CellOK(b', CellPos(fr, k), c) && Frame(b, b', CellFoot(CellPos(fr, k), fr.cells[k]))
    ensures FragOK(b', WithCell(fr, k, c))
    ensures PartFoot(fr, k + 1) == CellFoot(CellPos(fr, k), fr.cells[k])
    ensures PartFoot(WithCell(fr, k, c), k + 1) == CellFoot(CellPos(fr, k), c)
  {
    hide At, CellOK, CellFoot, CellApart, CellWF, CellTidy, CellValue, ValueWF, Offset, Frame;
    var fr' := WithCell(fr, k, c);
    assert PartFoot(fr, k + 1) == CellFoot(CellPos(fr, k), fr.cells[k]);
    forall i: nat | i < |fr'.cells| + 2 ensures PartOK(b', fr', i) {
      if i != k + 1 {
        assert PartFoot(fr, i) !! PartFoot(fr, k + 1);
        PartFrame(b, b', fr, i, PartFoot(fr, k + 1));
      }
    }
  }

  lemma {:induction false} ReplacedCells(fr: Frag, k: nat, c: Cell)
    requires FragWF(fr) && FragApart(fr) && k < |fr.cells| && FragWF(WithCell(fr, k, c)) && CellWF(c)
    requires CellApart(CellPos(fr, k), c)
    requires forall i: nat :: i <= |fr.cells| ==> CellPos(WithCell(fr, k, c), i) == CellPos(fr, i)
    ensures |WithCell(fr, k, c).cells| == |fr.cells|
    ensures forall i :: 0 <= i < |fr.cells| ==>
              && CellWF(WithCell(fr, k, c).cells[i])
              && CellApart(CellPos(WithCell(fr, k, c), i), WithCell(fr, k, c).cells[i])
  {
    hide CellApart, CellPos, CellWF, CellTidy, CellValue, ValueWF, PartFoot;
  }

  lemma {:induction false} ReplacedApart(fr: Frag, fr': Frag, k: nat, eof: nat, eof': nat)
    requires FragWF(fr) && FragWF(fr') && k < |fr.cells| == |fr'.cells| && eof <= eof'
    requires FragApart(fr) && FragFoot(fr) <= Range(0, eof)
    requires forall i: nat :: i < |fr.cells| + 2 && i != k + 1 ==> PartFoot(fr', i) == PartFoot(fr, i)
    requires PartFoot(fr', k + 1) <= PartFoot(fr, k + 1) + Range(eof, eof')
    requires forall i :: 0 <= i < |fr.cells| ==> CellApart(CellPos(fr', i), fr'.cells[i])
    ensures FragApart(fr') && FragFoot(fr') <= FragFoot(fr) + Range(eof, eof')
  {
    hide PartFoot, CellApart;
    forall i: nat, j: nat | i < j < |fr'.cells| + 2 ensures PartFoot(fr', i) !! PartFoot(fr', j) {
      assert PartFoot(fr, i) !! PartFoot(fr, j);
      assert PartFoot(fr, i) <= FragFoot(fr) && PartFoot(fr, j) <= FragFoot(fr);
    }
    FootWithin(fr', |fr'.cells| + 2, FragFoot(fr) + Range(eof, eof'));
  }

  /** The link overwritten. */
  lemma {:induction false} ReplaceLink(b: seq<byte>, b': seq<byte>, fr: Frag, link: nat)
    requires FragWF(fr) && FragOK(b, fr) && FragApart(fr) && link <= OFF_MAX
    requires Same(b, b', LinkPos(fr), LinkPos(fr) + 8) && At(b', LinkPos(fr), BE64(link))
    ensures FragWF(fr.(link := link)) && FragOK(b', fr.(link := link)) && FragApart(fr.(link := link))
    ensures FragFoot(fr.(link := link)) == FragFoot(fr)
  {
    hide *;
    LinkWF(fr, link);
    LinkParts(b, b', fr, link);
    LinkFoot(fr, link);
  }

  /** The parts are where they were, and all but the link own and say what they did. */
  lemma {:induction false} LinkWF(fr: Frag, link: nat)
    requires FragWF(fr) && link <= OFF_MAX
    ensures FragWF(fr.(link := link)) && LinkPos(fr.(link := link)) == LinkPos(fr)
    ensures forall i: nat :: i < |fr.cells| + 2 ==> PartFoot(fr.(link := link), i) == PartFoot(fr, i)
    ensures FragApart(fr) ==> FragApart(fr.(link := link))
  {
    hide CellWF, CellTidy, CellValue, ValueWF, CellFoot, CellApart, Offset;
    var fr' := fr.(link := link);
    assert forall k: nat :: k <= |fr.cells| ==> CellPos(fr', k) == CellPos(fr, k);
    forall i: nat | i < |fr.cells| + 2 ensures PartFoot(fr', i) == PartFoot(fr, i) {
    }
    hide FragWF, PartFoot, CellPos;
  }

  lemma {:induction false} LinkParts(b: seq<byte>, b': seq<byte>, fr: Frag, link: nat)
    requires FragWF(fr) && FragOK(b, fr) && FragApart(fr) && FragWF(fr.(link := link))
    requires LinkPos(fr.(link := link)) == LinkPos(fr)
    requires Same(b, b', LinkPos(fr), LinkPos(fr) + 8) && At(b', LinkPos(fr), BE64(link))
    ensures FragOK(b', fr.(link := link))
  {
    hide At, CellOK, CellFoot, CellApart, FragWF, Offset, BE64;
    var fr', n := fr.(link := link), |fr.cells| + 1;
    assert PartFoot(fr, n) == Range(LinkPos(fr), LinkPos(fr) + 8);
    assert Frame(b, b', PartFoot(fr, n));
    forall i: nat | i <= n ensures PartOK(b', fr', i) {
      if i < n {
        assert PartFoot(fr, i) !! PartFoot(fr, n);
        PartFrame(b, b', fr, i, PartFoot(fr, n));
      }
    }
  }

  lemma {:induction false} LinkFoot(fr: Frag, link: nat)
    requires FragWF(fr) && link <= OFF_MAX
    ensures FragFoot(fr.(link := link)) == FragFoot(fr)
  {
    hide *;
    var fr' := fr.(link := link);
    LinkWF(fr, link);
    FootAll(fr);
    FootAll(fr');
    FootWithin(fr', |fr.cells| + 2, FragFoot(fr));
    FootWithin(fr, |fr.cells| + 2, FragFoot(fr'));
  }

  lemma {:induction false} FootAll(fr: Frag)
    requires FragWF(fr)
    ensures FragFoot(fr) == FootUpTo(fr, |fr.cells| + 2)
  {
  }
}
