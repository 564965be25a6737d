// write_file(update = 0): a record appended to the file, and its image.
module RecordWrite {
  import opened Bytes
  import opened ByteFile
  import opened Layout
  import opened CellUpdate
  import opened Fragment
  import opened RecordFile
  import LongsProperties

  predicate AllWF(vals: seq<Value>) {
    forall i :: 0 <= i < |vals| ==> ValueWF(vals[i])
  }

  /** The cells for the first k values, one after the other from offset p. */
  function FreshCells(vals: seq<Value>, p: nat, k: nat): (cells: seq<Cell>)
    requires k <= |vals| && AllWF(vals)
    ensures |cells| == k
    ensures forall i :: 0 <= i < k ==> CellWF(cells[i])
  {
    if k == 0 then [] else
    var before := FreshCells(vals, p, k - 1);
    FreshFacts(p + Offset(before, k - 1), vals[k - 1]);
    before + [Fresh(p + Offset(before, k - 1), vals[k - 1])]
  }

  lemma {:induction false} FreshPrefix(vals: seq<Value>, p: nat, i: nat, k: nat)
    requires i <= k <= |vals| && AllWF(vals)
    ensures FreshCells(vals, p, k)[..i] == FreshCells(vals, p, i)
    ensures Offset(FreshCells(vals, p, k), i) == Offset(FreshCells(vals, p, i), i)
    decreases k
  {
    if i < k {
      FreshPrefix(vals, p, i, k - 1);
      OffsetSame(FreshCells(vals, p, k - 1), FreshCells(vals, p, k), i);
    }
  }

  /** Cell i of a fresh run, and where it stands. */
  lemma {:induction false} FreshCell(vals: seq<Value>, p: nat, i: nat, k: nat)
    requires i < k <= |vals| && AllWF(vals)
    ensures var cells := FreshCells(vals, p, k); var q := p + Offset(cells, i);
            && cells[i] == Fresh(q, vals[i]) && CellTidy(cells[i]) && CellValue(cells[i]) == vals[i]
            && CellApart(q, cells[i]) && CellFoot(q, cells[i]) == Range(q, p + Offset(cells, i + 1))
  {
    hide *;
    var cells, before := FreshCells(vals, p, k), FreshCells(vals, p, i);
    FreshPrefix(vals, p, i, k);
    FreshPrefix(vals, p, i + 1, k);
    LastFresh(vals, p, i);
    assert cells[..i + 1][i] == cells[i];
    FreshFacts(p + Offset(before, i), vals[i]);
  }

  /** The last cell of a fresh run. */
  lemma {:induction false} LastFresh(vals: seq<Value>, p: nat, i: nat)
    requires i < |vals| && AllWF(vals)
    ensures ValueWF(vals[i])
    ensures var before, cells := FreshCells(vals, p, i), FreshCells(vals, p, i + 1); var q := p + Offset(before, i);
            && cells[i] == Fresh(q, vals[i]) && CellWF(cells[i])
            && Offset(cells, i + 1) == Offset(before, i) + CellSize(cells[i])
  {
    hide Fresh, ValueWF, CellWF;
    OffsetSame(FreshCells(vals, p, i), FreshCells(vals, p, i + 1), i);
  }

  /** The fragment laid out for the record at offset `at`. */
  function FreshFrag(at: nat, rec: Record, link: nat): Frag
    requires AllWF(Vals(rec))
  {
    Frag(at, Fields(rec), FreshCells(Vals(rec), at + 1 + |Fields(rec)|, |Vals(rec)|), link)
  }

  /** One cell more in a fresh run. */
  lemma {:induction false} OffsetNext(vals: seq<Value>, p: nat, k: nat)
    requires AllWF(vals) && k < |vals|
    ensures var q := Offset(FreshCells(vals, p, k), k);
            CellWF(Fresh(p + q, vals[k])) && Offset(FreshCells(vals, p, k + 1), k + 1) == q + CellSize(Fresh(p + q, vals[k]))
  {
    FreshFacts(p + Offset(FreshCells(vals, p, k), k), vals[k]);
    FreshPrefix(vals, p, k, k + 1);
    hide CellSize, CellWF, ValueWF, Fresh;
  }

  lemma {:induction false} OffsetMonotone(cells: seq<Cell>, i: nat, j: nat)
    requires i <= j <= |cells| && forall x :: 0 <= x < |cells| ==> CellWF(cells[x])
    ensures Offset(cells, i) <= Offset(cells, j)
    decreases j
  {
    if i < j {
      OffsetMonotone(cells, i, j - 1);
    }
  }

  /** Cell k owns its inline part and nothing else. */
  ghost predicate InlineOnly(fr: Frag, k: nat)
    requires FragWF(fr) && k < |fr.cells|
  {
    && CellApart(CellPos(fr, k), fr.cells[k])
    && CellFoot(CellPos(fr, k), fr.cells[k]) == Range(CellPos(fr, k), CellPos(fr, k + 1))
  }

  lemma {:induction false} FreshFragWF(at: nat, rec: Record, link: nat)
    requires AllWF(Vals(rec)) && |rec| <= MAX_FIELD_NR && |Fields(rec)| > 0 && link <= OFF_MAX
    ensures FragWF(FreshFrag(at, rec, link)) && CellValues(FreshFrag(at, rec, link).cells) == Vals(rec)
  {
    hide FreshCells, CellValue;
    var fr := FreshFrag(at, rec, link);
    ActiveAscends(rec, |rec|);
    forall k | 0 <= k < |fr.cells| ensures CellTidy(fr.cells[k]) && CellValue(fr.cells[k]) == Vals(rec)[k] {
      FreshCell(Vals(rec), at + 1 + |Fields(rec)|, k, |Vals(rec)|);
    }
  }

  lemma {:induction false} FreshInline(at: nat, rec: Record, link: nat, k: nat)
    requires AllWF(Vals(rec)) && FragWF(FreshFrag(at, rec, link)) && k < |Vals(rec)|
    ensures InlineOnly(FreshFrag(at, rec, link), k)
  {
    hide CellApart, CellFoot, CellValue, FreshCells, FragWF;
    FreshCell(Vals(rec), at + 1 + |Fields(rec)|, k, |Vals(rec)|);
  }

  /** A fresh fragment is well-formed, reads as the record, and owns one contiguous range. */
  lemma {:induction false} FreshFragFacts(at: nat, rec: Record, link: nat)
    requires AllWF(Vals(rec)) && |rec| <= MAX_FIELD_NR && |Fields(rec)| > 0 && link <= OFF_MAX
    ensures var fr := FreshFrag(at, rec, link);
            && FragWF(fr) && FragApart(fr) && CellValues(fr.cells) == Vals(rec)
            && FragFoot(fr) <= Range(at, LinkPos(fr) + 8)
            && (forall k: nat :: k < |fr.cells| ==> InlineOnly(fr, k))
  {
    FreshFragWF(at, rec, link);
    hide CellApart, CellFoot, CellValue, FreshCells, FragWF;
    var fr := FreshFrag(at, rec, link);
    forall k: nat | k < |fr.cells| ensures InlineOnly(fr, k) {
      FreshInline(at, rec, link, k);
    }
    FreshParts(fr);
  }

  /** The parts of the fragment that a fresh record becomes. */
  lemma {:induction false} FreshPlan(at: nat, rec: Record)
    requires AllWF(Vals(rec)) && |rec| <= MAX_FIELD_NR && |Fields(rec)| > 0
    ensures var fr := FreshFrag(at, rec, 0); var p := at + 1 + |Fields(rec)|; var n := |Vals(rec)|;
            && FragWF(fr) && fr.at == at && fr.fields == Fields(rec) && |fr.cells| == n && fr.link == 0
            && CellPos(fr, 0) == p && fr.cells == FreshCells(Vals(rec), p, n)
            && LinkPos(fr) == p + Offset(FreshCells(Vals(rec), p, n), n)
            && (forall k: nat :: k < n ==> InlineOnly(fr, k))
    ensures |Fields(rec)| <= MAX_FIELD_NR && forall k :: 0 <= k < |Fields(rec)| ==> Fields(rec)[k] < MAX_FIELD_NR
  {
    FreshFragFacts(at, rec, 0);
    hide InlineOnly, FragApart, FragFoot, ValueWF, CellValue, CellTidy;
  }

  /** Where part i of a contiguous fragment begins. */
  function Edge(fr: Frag, i: nat): nat
    requires FragWF(fr) && i <= |fr.cells| + 2
  {
    if i == 0 then fr.at else if i <= |fr.cells| + 1 then CellPos(fr, i - 1) else LinkPos(fr) + 8
  }

  lemma {:induction false} EdgeMonotone(fr: Frag, i: nat, j: nat)
    requires FragWF(fr) && i <= j <= |fr.cells| + 2
    ensures Edge(fr, i) <= Edge(fr, j)
    decreases j
  {
    if i < j {
      EdgeMonotone(fr, i, j - 1);
    }
  }

  /** Parts that are consecutive ranges do not overlap. */
  lemma {:induction false} FreshParts(fr: Frag)
    requires FragWF(fr)
    requires forall k: nat :: k < |fr.cells| ==> InlineOnly(fr, k)
    ensures FragApart(fr) && FragFoot(fr) <= Range(fr.at, LinkPos(fr) + 8)
  {
    hide *;
    var n := |fr.cells| + 2;
    forall i: nat | i < n
      ensures PartFoot(fr, i) == Range(Edge(fr, i), Edge(fr, i + 1)) && PartFoot(fr, i) <= Range(fr.at, LinkPos(fr) + 8)
    {
      FreshPart(fr, i);
    }
    PartsInOrder(fr);
    FreshApart(fr);
    FootAll(fr);
    FootWithin(fr, n, Range(fr.at, LinkPos(fr) + 8));
  }

  lemma {:induction false} FreshPart(fr: Frag, i: nat)
    requires FragWF(fr) && i < |fr.cells| + 2
    requires forall k: nat :: k < |fr.cells| ==> InlineOnly(fr, k)
    ensures PartFoot(fr, i) == Range(Edge(fr, i), Edge(fr, i + 1)) && PartFoot(fr, i) <= Range(fr.at, LinkPos(fr) + 8)
  {
    hide CellFoot, CellApart, CellWF, ValueWF, CellTidy, CellValue, CellSize;
    assert 0 < i <= |fr.cells| ==> InlineOnly(fr, i - 1);
    EdgeMonotone(fr, 0, i);
    EdgeMonotone(fr, i + 1, |fr.cells| + 2);
  }

  lemma {:induction false} FreshApart(fr: Frag)
    requires FragWF(fr) && forall k: nat :: k < |fr.cells| ==> InlineOnly(fr, k)
    requires forall i: nat, j: nat :: i < j < |fr.cells| + 2 ==> PartFoot(fr, i) !! PartFoot(fr, j)
    ensures FragApart(fr)
  {
    hide CellFoot, CellApart, CellWF, ValueWF, CellTidy, CellValue, CellSize, PartFoot, CellPos;
    forall k: nat | k < |fr.cells| ensures CellApart(CellPos(fr, k), fr.cells[k]) {
      assert InlineOnly(fr, k);
    }
  }

  lemma {:induction false} PartsInOrder(fr: Frag)
    requires FragWF(fr)
    requires forall i: nat :: i < |fr.cells| + 2 ==> PartFoot(fr, i) == Range(Edge(fr, i), Edge(fr, i + 1))
    ensures forall i: nat, j: nat :: i < j < |fr.cells| + 2 ==> PartFoot(fr, i) !! PartFoot(fr, j)
  {
    hide PartFoot, Edge;
    forall i: nat, j: nat | i < j < |fr.cells| + 2 ensures PartFoot(fr, i) !! PartFoot(fr, j) {
      EdgeMonotone(fr, i + 1, j);
      assert PartFoot(fr, i) == Range(Edge(fr, i), Edge(fr, i + 1));
      assert PartFoot(fr, j) == Range(Edge(fr, j), Edge(fr, j + 1));
    }
  }

  // ----- the method -----

  /** The first k cells of a fresh run stand in the file. */
  ghost predicate Placed(b: seq<byte>, vals: seq<Value>, p: nat, k: nat)
    requires k <= |vals| && AllWF(vals)
  {
    forall i: nat :: i < k ==> CellPlaced(b, FreshCells(vals, p, k), p, i)
  }

  ghost predicate CellPlaced(b: seq<byte>, cells: seq<Cell>, p: nat, i: nat)
    requires i < |cells| && forall x :: 0 <= x < |cells| ==> CellWF(cells[x])
  {
    CellOK(b, p + Offset(cells, i), cells[i])
  }

  /** Cell i of the run stays when something is appended after the run. */
  lemma {:induction false} PlaceKeeps(b: seq<byte>, b': seq<byte>, vals: seq<Value>, p: nat, i: nat, k: nat)
    requires i < k < |vals| && AllWF(vals) && CellPlaced(b, FreshCells(vals, p, k), p, i)
    requires |b| == p + Offset(FreshCells(vals, p, k), k) && Same(b, b', |b|, |b'|)
    ensures CellPlaced(b', FreshCells(vals, p, k + 1), p, i)
  {
    hide CellOK, CellFoot, CellApart, Fresh, CellSize, CellWF, CellTidy, CellValue;
    var cells := FreshCells(vals, p, k);
    FreshPrefix(vals, p, k, k + 1);
    FreshCell(vals, p, i, k);
    OffsetMonotone(cells, i + 1, k);
    SameIsFrame(b, b', |b|, |b'|);
    CellFrame(b, b', p + Offset(cells, i), cells[i], Range(|b|, |b'|));
    OffsetSame(cells, FreshCells(vals, p, k + 1), i);
  }

  /** One more cell appended after the run. */
  lemma {:induction false} PlaceNext(b: seq<byte>, b': seq<byte>, vals: seq<Value>, p: nat, k: nat)
    requires k < |vals| && AllWF(vals) && Placed(b, vals, p, k)
    requires |b| == p + Offset(FreshCells(vals, p, k), k) && Same(b, b', |b|, |b'|)
    requires CellWF(Fresh(|b|, vals[k])) && CellOK(b', |b|, Fresh(|b|, vals[k]))
    ensures Placed(b', vals, p, k + 1)
    ensures Offset(FreshCells(vals, p, k + 1), k + 1) == Offset(FreshCells(vals, p, k), k) + CellSize(Fresh(|b|, vals[k]))
  {
    hide CellOK, CellFoot, Fresh, CellSize;
    FreshPrefix(vals, p, k, k + 1);
    var cells := FreshCells(vals, p, k + 1);
    forall i: nat | i < k + 1 ensures CellPlaced(b', cells, p, i) {
      if i < k {
        PlaceKeeps(b, b', vals, p, i, k);
      }
    }
  }

  /** The field loop of write_file(update = 0). */
  method PutCells(f: File, rec: Record)
    requires AllWF(Vals(rec)) && f.pos == |f.bytes|
    modifies f
    ensures Placed(f.bytes, Vals(rec), old(f.pos), |Vals(rec)|)
    ensures Same(old(f.bytes), f.bytes, old(f.pos), f.pos)
    ensures f.pos == |f.bytes| == old(f.pos) + Offset(FreshCells(Vals(rec), old(f.pos), |Vals(rec)|), |Vals(rec)|)
  {
    hide *;
    ghost var b, p, k := f.bytes, f.pos, 0;
    NoCells(b, rec, p);
    for i := 0 to |rec|
      invariant k == |Active(rec, i)| <= |Vals(rec)|
      invariant Placed(f.bytes, Vals(rec), p, k)
      invariant Same(b, f.bytes, p, f.pos)
      invariant f.pos == |f.bytes| == p + Offset(FreshCells(Vals(rec), p, k), k)
    {
      ActiveStep(rec, i);
      if rec[i].Some? {
        NextValue(rec, i);
        ghost var m := f.bytes;
        PutFresh(f, rec[i].value);
        PlaceNext(m, f.bytes, Vals(rec), p, k);
        SameTwice(b, m, f.bytes, p);
        k := k + 1;
      }
    }
    AllCells(rec);
  }

  lemma {:induction false} NextValue(rec: Record, i: nat)
    requires i < |rec| && rec[i].Some? && AllWF(Vals(rec))
    ensures |Active(rec, i)| < |Vals(rec)| && Vals(rec)[|Active(rec, i)|] == rec[i].value && ValueWF(rec[i].value)
    ensures |Active(rec, i + 1)| == |Active(rec, i)| + 1
  {
    hide ValueWF;
    ActiveNext(rec, i);
  }

  lemma {:induction false} NoCells(b: seq<byte>, rec: Record, p: nat)
    requires AllWF(Vals(rec))
    ensures |Active(rec, 0)| == 0 && Offset(FreshCells(Vals(rec), p, 0), 0) == 0 && Placed(b, Vals(rec), p, 0)
    ensures Same(b, b, p, |b|)
  {
    NothingPlaced(b, Vals(rec), p);
  }

  lemma {:induction false} AllCells(rec: Record)
    ensures |Active(rec, |rec|)| == |Vals(rec)|
  {
  }

  lemma {:induction false} SameTwice(b: seq<byte>, m: seq<byte>, b': seq<byte>, p: nat)
    requires Same(b, m, p, |m|) && Same(m, b', |m|, |b'|) && p <= |b|
    ensures Same(b, b', p, |b'|)
  {
  }

  lemma {:induction false} NothingPlaced(b: seq<byte>, vals: seq<Value>, p: nat)
    requires AllWF(vals)
    ensures Placed(b, vals, p, 0)
  {
  }

  /** write_file(update = 0): the record appended to the file. */
  method Append(f: File, rec: Record, link: nat) returns (r: nat)
    requires AllWF(Vals(rec)) && |rec| <= MAX_FIELD_NR && f.pos == |f.bytes| && link <= OFF_MAX
    modifies f
    ensures |Fields(rec)| == 0 ==> r == 14 && f.bytes == old(f.bytes)
    ensures |Fields(rec)| > 0 ==> r == 1 && Appended(old(f.bytes), f.bytes, FreshFrag(|old(f.bytes)|, rec, link))
  {
    hide CellOK, CellFoot, CellApart, FragOK, FragApart, FreshCells, Placed, InlineOnly, At;
    ghost var b := f.bytes;
    var count := PutHeader(f, rec);
    if count == 0 {
      return NTG_WR;
    }
    ghost var m, p := f.bytes, f.pos;
    PutCells(f, rec);
    ghost var m', fr := f.bytes, FreshFrag(|b|, rec, link);
    FreshFragFacts(|b|, rec, link);
    f.Write(BE64(link));
    AppendDone(b, m, m', f.bytes, fr, Vals(rec));
    r := 1;
  }

  lemma {:induction false} AppendDone(b: seq<byte>, m: seq<byte>, m': seq<byte>, b': seq<byte>, fr: Frag, vals: seq<Value>)
    requires FragWF(fr) && fr.at == |b| && AllWF(vals) && |vals| == |fr.cells|
    requires fr.cells == FreshCells(vals, CellPos(fr, 0), |vals|)
    requires At(m, |b|, HeaderBytes(fr.fields)) && Same(b, m, |b|, |m|) && |m| == CellPos(fr, 0)
    requires Placed(m', vals, |m|, |vals|) && Same(m, m', |m|, |m'|) && |m'| == LinkPos(fr)
    requires At(b', LinkPos(fr), BE64(fr.link)) && Same(m', b', |m'|, |b'|) && |b'| == |m'| + 8
    requires forall k: nat :: k < |fr.cells| ==> InlineOnly(fr, k)
    ensures Appended(b, b', fr)
  {
    hide CellOK, CellFoot, CellApart, FreshCells;
    assert b <= m <= m' <= b';
    AtBeside(m, m', |b|, HeaderBytes(fr.fields), |m|, |m'|);
    AtBeside(m', b', |b|, HeaderBytes(fr.fields), |m'|, |b'|);
    forall i: nat | i < |fr.cells| + 2 ensures PartOK(b', fr, i) {
      if 0 < i <= |fr.cells| {
        KeepCell(m', b', fr, i - 1, vals);
      }
    }
  }

  lemma {:induction false} KeepCell(m: seq<byte>, b: seq<byte>, fr: Frag, k: nat, vals: seq<Value>)
    requires FragWF(fr) && AllWF(vals) && |vals| == |fr.cells| && k < |vals|
    requires fr.cells == FreshCells(vals, CellPos(fr, 0), |vals|) && Placed(m, vals, CellPos(fr, 0), |vals|)
    requires Same(m, b, |m|, |b|) && |m| == LinkPos(fr) && InlineOnly(fr, k)
    ensures CellOK(b, CellPos(fr, k), fr.cells[k])
  {
    hide CellOK, CellFoot, CellApart, FreshCells, CellSize, CellTidy;
    assert CellPlaced(m, fr.cells, CellPos(fr, 0), k);
    OffsetMonotone(fr.cells, k + 1, |fr.cells|);
    SameIsFrame(m, b, |m|, |b|);
    CellFrame(m, b, CellPos(fr, k), fr.cells[k], Range(|m|, |b|));
  }

  /** The file gained exactly the fragment fr, at its old end. */
  ghost predicate Appended(b: seq<byte>, b': seq<byte>, fr: Frag) {
    && FragWF(fr) && fr.at == |b| && |b'| == LinkPos(fr) + 8 && b <= b' && FragOK(b', fr)
  }

  // ----- the room a first write leaves -----

  /** An update of a value that a first write laid out stays in its place. */
  predicate FitsRoom(was: Value, v: Value) {
    && (was.Text? && v.Text? ==> |v.s| <= 2 * |was.s|)
    && (was.Longs? && v.Longs? ==> |v.xs| <= |was.xs|)
  }

  lemma {:induction false} RoomInCell(p: nat, was: Value, v: Value)
    requires ValueWF(was) && CellWF(Fresh(p, was)) && Accepts(Fresh(p, was), v)
    ensures Growth(Fresh(p, was), v) == 0 <==> FitsRoom(was, v)
  {
    FreshFacts(p, was);
    if was.Longs? {
      var blocks := [Block(p, was.xs, [])];
      assert Live(blocks, 1) == Live(blocks, 0) + |was.xs|;
      LongsProperties.HeadOrTotal(blocks, |v.xs|);
    }
  }

  lemma {:induction false} RoomFrom(cells: seq<Cell>, vals: seq<Value>, k: nat)
    requires AllAccept(cells, vals, k)
    ensures GrowthFrom(cells, vals, k) == 0 <==> forall i :: k <= i < |cells| ==> Growth(cells[i], vals[i]) == 0
    decreases |cells| - k
  {
    hide Growth, Accepts, CellWF;
    if k < |cells| {
      RoomFrom(cells, vals, k + 1);
    }
  }

  /**
   * A record just appended takes new values without a byte more in the file if and only if no
   * string is more than twice as long as the first one and no array is longer.
   */
  lemma {:induction false} RoomInRecord(at: nat, rec: Record, vals: seq<Value>)
    requires AllWF(Vals(rec)) && AllAccept(FreshFrag(at, rec, 0).cells, vals, 0) && |vals| == |Vals(rec)|
    ensures GrowthFrom(FreshFrag(at, rec, 0).cells, vals, 0) == 0 <==>
              forall k :: 0 <= k < |vals| ==> FitsRoom(Vals(rec)[k], vals[k])
  {
    hide *;
    var cells, n := FreshFrag(at, rec, 0).cells, |Vals(rec)|;
    RoomFrom(cells, vals, 0);
    AcceptParts(cells, vals);
    forall k: nat | k < n ensures Growth(cells[k], vals[k]) == 0 <==> FitsRoom(Vals(rec)[k], vals[k]) {
      var q := CellOf(at, rec, vals, k);
      RoomInCell(q, Vals(rec)[k], vals[k]);
    }
  }

  lemma {:induction false} AcceptParts(cells: seq<Cell>, vals: seq<Value>)
    requires AllAccept(cells, vals, 0)
    ensures |cells| == |vals| && forall k :: 0 <= k < |cells| ==> CellWF(cells[k]) && Accepts(cells[k], vals[k])
  {
    hide CellWF, Accepts;
  }

  lemma {:induction false} CellOf(at: nat, rec: Record, vals: seq<Value>, k: nat) returns (q: nat)
    requires AllWF(Vals(rec)) && AllAccept(FreshFrag(at, rec, 0).cells, vals, 0) && k < |Vals(rec)|
    ensures |vals| == |FreshFrag(at, rec, 0).cells| == |Vals(rec)|
    ensures ValueWF(Vals(rec)[k]) && CellWF(Fresh(q, Vals(rec)[k])) && Accepts(Fresh(q, Vals(rec)[k]), vals[k])
    ensures FreshFrag(at, rec, 0).cells[k] == Fresh(q, Vals(rec)[k])
    ensures CellWF(FreshFrag(at, rec, 0).cells[k]) && Accepts(FreshFrag(at, rec, 0).cells[k], vals[k])
  {
    hide Accepts, CellWF, Fresh, FreshCells, Offset, ValueWF;
    var p := at + 1 + |Fields(rec)|;
    FreshCell(Vals(rec), p, k, |Vals(rec)|);
    q := p + Offset(FreshCells(Vals(rec), p, |Vals(rec)|), k);
  }
}
