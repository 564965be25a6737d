// Many fragments in one file: each owns its bytes, so writing one leaves the others alone.
module RecordStore {
  import opened Bytes
  import opened Layout
  import opened CellUpdate
  import opened Fragment
  import opened RecordFile
  import opened RecordWrite

  /** All fragments are in the file, and no two own a common byte. */
  ghost predicate Store(b: seq<byte>, frs: seq<Frag>) {
    && (forall i :: 0 <= i < |frs| ==> FragWF(frs[i]) && FragOK(b, frs[i]) && FragApart(frs[i]))
    && (forall i, j :: 0 <= i < j < |frs| ==> FragFoot(frs[i]) !! FragFoot(frs[j]))
  }

  /** The fragment after its values and its link were overwritten. */
  ghost function After(b: seq<byte>, fr: Frag, vals: seq<Value>, link: nat): Frag
    requires AllAccept(fr.cells, vals, 0)
  {
    Overwritten(fr, vals, 0, |b|).(link := link)
  }

  /**
   * Overwriting one fragment in place: it reads as the new values, every other
   * fragment reads as before, and all of them own disjoint bytes again.
   */
  lemma {:induction false} NonInterference(b: seq<byte>, b': seq<byte>, frs: seq<Frag>, i: nat, vals: seq<Value>, link: nat)
    requires Store(b, frs) && i < |frs| && AllAccept(frs[i].cells, vals, 0)
    requires Rewritten(b, b', frs[i], vals, link)
    ensures Store(b', frs[i := After(b, frs[i], vals, link)])
    ensures CellValues(After(b, frs[i], vals, link).cells) == vals
    ensures After(b, frs[i], vals, link).at == frs[i].at
  {
    hide FragOK, FragApart, FragFoot, FragWF, Overwritten;
    var fr' := After(b, frs[i], vals, link);
    var frs' := frs[i := fr'];
    forall j | 0 <= j < |frs'| ensures FragWF(frs'[j]) && FragOK(b', frs'[j]) && FragApart(frs'[j]) {
      if j != i {
        assert FragFoot(frs[i]) !! FragFoot(frs[j]);
        FragFrame(b, b', frs[j], FragFoot(frs[i]));
      }
    }
    forall j, k | 0 <= j < k < |frs'| ensures FragFoot(frs'[j]) !! FragFoot(frs'[k]) {
      assert FragFoot(frs[j]) !! FragFoot(frs[k]);
      FragInside(b, frs[j]);
      FragInside(b, frs[k]);
    }
  }

  /** A fragment appended at the end of the file joins the store. */
  lemma {:induction false} AppendJoins(b: seq<byte>, b': seq<byte>, frs: seq<Frag>, rec: Record, link: nat)
    requires Store(b, frs) && AllWF(Vals(rec)) && |rec| <= MAX_FIELD_NR && |Fields(rec)| > 0 && link <= OFF_MAX
    requires Appended(b, b', FreshFrag(|b|, rec, link))
    ensures Store(b', frs + [FreshFrag(|b|, rec, link)])
  {
    hide FragOK, FragApart, FragFoot, FragWF, FreshFrag;
    var fr := FreshFrag(|b|, rec, link);
    var frs' := frs + [fr];
    FreshFragFacts(|b|, rec, link);
    assert Frame(b, b', {});
    forall j | 0 <= j < |frs'| ensures FragWF(frs'[j]) && FragOK(b', frs'[j]) && FragApart(frs'[j]) {
      if j < |frs| {
        FragFrame(b, b', frs[j], {});
      }
    }
    forall j, k | 0 <= j < k < |frs'| ensures FragFoot(frs'[j]) !! FragFoot(frs'[k]) {
      FragInside(b, frs[j]);
      if k < |frs| {
        assert FragFoot(frs[j]) !! FragFoot(frs[k]);
      }
    }
  }

  // ----- rewriting what is there -----

  lemma {:induction false} OverwrittenSame(fr: Frag, k: nat, eof: nat)
    requires FragWF(fr) && k <= |fr.cells|
    ensures AllAccept(fr.cells, CellValues(fr.cells), k)
    ensures Overwritten(fr, CellValues(fr.cells), k, eof) == fr
    ensures GrowthFrom(fr.cells, CellValues(fr.cells), k) == 0
    decreases |fr.cells| - k
  {
    forall i | 0 <= i < |fr.cells| ensures Accepts(fr.cells[i], CellValue(fr.cells[i])) {
      UpdateSame(fr.cells[i], eof);
    }
    if k < |fr.cells| {
      UpdateSame(fr.cells[k], eof);
      assert WithCell(fr, k, fr.cells[k]) == fr;
      OverwrittenSame(fr, k + 1, eof);
    }
  }

  lemma {:induction false} AtAgree(b: seq<byte>, b': seq<byte>, p: nat, data: seq<byte>, x: nat)
    requires At(b, p, data) && At(b', p, data) && p <= x < p + |data|
    ensures x < |b| && x < |b'| && b'[x] == b[x]
  {
    assert b[p..p + |data|][x - p] == b'[p..p + |data|][x - p];
  }

  lemma {:induction false} BlockAgree(b: seq<byte>, b': seq<byte>, k: Block, next: nat, x: nat)
    requires BlockOK(b, k, next) && BlockOK(b', k, next) && k.at <= x < k.at + BlockSize(k)
    ensures b'[x] == b[x]
  {
    if x < k.at + 4 {
      AtAgree(b, b', k.at, BE32(|k.xs|), x);
    } else if x < k.at + 8 {
      AtAgree(b, b', k.at + 4, BE32(|k.pad|), x);
    } else if x < NextSlot(k) {
      AtAgree(b, b', k.at + 8, Words(k.xs + k.pad), x);
    } else {
      AtAgree(b, b', NextSlot(k), BE64(next), x);
    }
  }

  lemma {:induction false} BlocksAgree(b: seq<byte>, b': seq<byte>, blocks: seq<Block>, j: nat, x: nat)
    requires j <= |blocks| && BlocksOK(b, blocks) && BlocksOK(b', blocks) && x in BlocksFoot(blocks[..j])
    ensures x < |b| && x < |b'| && b'[x] == b[x]
  {
    if j > 0 {
      assert blocks[..j][..j - 1] == blocks[..j - 1];
      assert BlockOK(b, blocks[j - 1], Next(blocks, j - 1)) && BlockOK(b', blocks[j - 1], Next(blocks, j - 1));
      if x in BlockFoot(blocks[j - 1]) {
        BlockAgree(b, b', blocks[j - 1], Next(blocks, j - 1), x);
      } else {
        BlocksAgree(b, b', blocks, j - 1, x);
      }
    }
  }

  /** The bytes a cell owns are determined by the cell. */
  lemma {:induction false} CellAgree(b: seq<byte>, b': seq<byte>, p: nat, c: Cell, x: nat)
    requires CellWF(c) && CellOK(b, p, c) && CellOK(b', p, c) && x in CellFoot(p, c)
    ensures x < |b| && x < |b'| && b'[x] == b[x]
  {
    match c
    case Plain(v) =>
      AtAgree(b, b', p, FixedBytes(v), x);
    case TextCell(inl, loc, ovf) =>
      if p <= x < p + 8 {
        AtAgree(b, b', p, BE64(loc), x);
      } else if p + 8 <= x < p + 16 {
        AtAgree(b, b', p + 8, BE64(inl.size), x);
      } else if p + 16 <= x < p + 16 + inl.size {
        AtAgree(b, b', p + 16, BufBytes(inl), x);
      } else if x < loc + 8 {
        AtAgree(b, b', loc, BE64(ovf.size), x);
      } else {
        AtAgree(b, b', loc + 8, BufBytes(ovf), x);
      }
    case LongsCell(blocks) =>
      assert blocks[..|blocks|] == blocks;
      BlocksAgree(b, b', blocks, |blocks|, x);
  }

  /** Two files that hold a fragment with perhaps another link agree on all its other bytes. */
  lemma {:induction false} FragAgree(b: seq<byte>, b': seq<byte>, fr: Frag, link: nat, i: nat, x: nat)
    requires FragWF(fr) && link <= OFF_MAX && FragOK(b, fr) && FragWF(fr.(link := link)) && FragOK(b', fr.(link := link))
    requires i <= |fr.cells| + 2 && x in FootUpTo(fr, i) && !(LinkPos(fr) <= x < LinkPos(fr) + 8)
    ensures x < |b| && x < |b'| && b'[x] == b[x]
  {
    hide FragWF, FragOK, PartFoot, LinkPos;
    if i > 0 {
      if x in PartFoot(fr, i - 1) {
        PartAgree(b, b', fr, link, i - 1, x);
      } else {
        FragAgree(b, b', fr, link, i - 1, x);
      }
    }
  }

  lemma {:induction false} PartAgree(b: seq<byte>, b': seq<byte>, fr: Frag, link: nat, i: nat, x: nat)
    requires FragWF(fr) && link <= OFF_MAX && FragOK(b, fr) && FragWF(fr.(link := link)) && FragOK(b', fr.(link := link))
    requires i < |fr.cells| + 2 && x in PartFoot(fr, i) && !(LinkPos(fr) <= x < LinkPos(fr) + 8)
    ensures x < |b| && x < |b'| && b'[x] == b[x]
  {
    hide *;
    PartIs(b, fr, i, x);
    PartIs(b', fr.(link := link), i, x);
    PlacesSame(fr, link, i);
    if i == 0 {
      AtAgree(b, b', fr.at, HeaderBytes(fr.fields), x);
    } else if i <= |fr.cells| {
      CellAgree(b, b', CellPos(fr, i - 1), fr.cells[i - 1], x);
    }
  }

  /** What part i of a fragment says, and which bytes it owns. */
  lemma {:induction false} PartIs(b: seq<byte>, fr: Frag, i: nat, x: nat)
    requires FragWF(fr) && FragOK(b, fr) && i < |fr.cells| + 2
    ensures |fr.fields| <= MAX_FIELD_NR && forall k :: 0 <= k < |fr.fields| ==> fr.fields[k] < MAX_FIELD_NR
    ensures |HeaderBytes(fr.fields)| == 1 + |fr.fields|
    ensures i == 0 ==> At(b, fr.at, HeaderBytes(fr.fields)) && (x in PartFoot(fr, i) ==> fr.at <= x < fr.at + 1 + |fr.fields|)
    ensures 0 < i <= |fr.cells| ==>
              && CellWF(fr.cells[i - 1]) && CellOK(b, CellPos(fr, i - 1), fr.cells[i - 1])
              && PartFoot(fr, i) == CellFoot(CellPos(fr, i - 1), fr.cells[i - 1])
    ensures i == |fr.cells| + 1 && x in PartFoot(fr, i) ==> LinkPos(fr) <= x < LinkPos(fr) + 8
  {
    assert PartOK(b, fr, i);
    hide FragOK, CellOK, CellFoot, CellTidy, CellValue, ValueWF, HeaderBytes, BE64, At;
  }

  lemma {:induction false} PlacesSame(fr: Frag, link: nat, i: nat)
    requires FragWF(fr) && FragWF(fr.(link := link)) && i < |fr.cells| + 2
    ensures 0 < i <= |fr.cells| ==> CellPos(fr.(link := link), i - 1) == CellPos(fr, i - 1)
  {
    hide CellWF, CellTidy, CellValue, ValueWF, CellSize;
  }

  /**
   * Rewriting the values a fragment already holds changes no byte except its link, so
   * the end of file found before the rewrite is still the end of file after it.
   */
  lemma {:induction false} IdempotentRewrite(b: seq<byte>, b': seq<byte>, fr: Frag, link: nat)
    requires FragWF(fr) && FragOK(b, fr) && link <= OFF_MAX
    requires AllAccept(fr.cells, CellValues(fr.cells), 0) && Rewritten(b, b', fr, CellValues(fr.cells), link)
    ensures |b'| == |b| && Same(b, b', LinkPos(fr), LinkPos(fr) + 8)
    ensures After(b, fr, CellValues(fr.cells), link) == fr.(link := link)
  {
    LinkWF(fr, link);
    hide FragOK, FragWF;
    OverwrittenSame(fr, 0, |b|);
    forall x: nat | x < |b| && !(LinkPos(fr) <= x < LinkPos(fr) + 8) ensures b'[x] == b[x] {
      if x in FragFoot(fr) {
        FragAgree(b, b', fr, link, |fr.cells| + 2, x);
      }
    }
  }
}
