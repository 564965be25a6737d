// write_file and read_file: a whole record at the cursor.
module RecordFile {
  import opened Bytes
  import opened ByteFile
  import opened Layout
  import opened CellUpdate
  import opened Fragment

  /** The active values fit the schema's types and the C types. */
  predicate RecordWF(rec: Record, types: seq<FieldType>) {
    && |rec| == |types| <= MAX_FIELD_NR
    && forall i :: 0 <= i < |rec| && rec[i].Some? ==> TypeOf(rec[i].value) == types[i] && ValueWF(rec[i].value)
  }

  function Fields(rec: Record): seq<nat> {
    Active(rec, |rec|)
  }

  function Vals(rec: Record): (r: seq<Value>)
    ensures |r| == |Fields(rec)|
  {
    Values(rec, |rec|)
  }

  // ----- overwriting -----

  /** Every cell takes its new value, the array lengths being ones that read back. */
  ghost predicate AllAccept(cells: seq<Cell>, vals: seq<Value>, k: nat) {
    && |cells| == |vals| && k <= |cells|
    && forall i :: k <= i < |cells| ==> CellWF(cells[i]) && Accepts(cells[i], vals[i])
  }

  function GrowthFrom(cells: seq<Cell>, vals: seq<Value>, k: nat): nat
    requires AllAccept(cells, vals, k)
    decreases |cells| - k
  {
    if k == |cells| then 0 else Growth(cells[k], vals[k]) + GrowthFrom(cells, vals, k + 1)
  }

  /** The fragment after cells k, k + 1, ... were overwritten while the file ended at eof. */
  ghost function Overwritten(fr: Frag, vals: seq<Value>, k: nat, eof: nat): Frag
    requires AllAccept(fr.cells, vals, k)
    decreases |fr.cells| - k
  {
    if k == |fr.cells| then fr
    else
      Overwritten(WithCell(fr, k, Updated(fr.cells[k], vals[k], eof)), vals, k + 1,
                  eof + Growth(fr.cells[k], vals[k]))
  }

  /** A rewrite in progress: the fragment is whole and where it was. */
  ghost predicate Whole(m: seq<byte>, fr: Frag, cur: Frag)
    ensures Whole(m, fr, cur) ==> FragWF(fr) && FragWF(cur) && |cur.cells| == |fr.cells|
  {
    && FragWF(fr) && FragWF(cur) && FragOK(m, cur) && FragApart(cur)
    && cur.at == fr.at && cur.fields == fr.fields && |cur.cells| == |fr.cells| && cur.link == fr.link
    && LinkPos(cur) == LinkPos(fr)
  }

  /** A rewrite in progress: only owned and appended bytes were touched. */
  ghost predicate Within(b: seq<byte>, m: seq<byte>, fr: Frag, cur: Frag) {
    && FragWF(fr) && FragWF(cur)
    && Frame(b, m, FragFoot(fr)) && FragFoot(cur) <= FragFoot(fr) + Range(|b|, |m|)
  }

  /** A rewrite in progress: the first k cells are done, the others will end where they should. */
  ghost predicate Due(b: seq<byte>, m: seq<byte>, fr: Frag, cur: Frag, vals: seq<Value>, k: nat) {
    && |cur.cells| == |fr.cells| && AllAccept(fr.cells, vals, 0) && AllAccept(cur.cells, vals, k)
    && |m| + GrowthFrom(cur.cells, vals, k) == |b| + GrowthFrom(fr.cells, vals, 0) <= OFF_MAX
    && Overwritten(cur, vals, k, |m|) == Overwritten(fr, vals, 0, |b|)
    && (forall i :: 0 <= i < k ==> CellWF(cur.cells[i]) && CellValue(cur.cells[i]) == vals[i])
  }

  lemma {:induction false} GrowthSame(cells: seq<Cell>, cells': seq<Cell>, vals: seq<Value>, k: nat)
    requires AllAccept(cells, vals, k) && |cells'| == |cells| && cells'[k..] == cells[k..]
    ensures AllAccept(cells', vals, k) && GrowthFrom(cells', vals, k) == GrowthFrom(cells, vals, k)
    decreases |cells| - k
  {
    forall i | k <= i < |cells| ensures cells'[i] == cells[i] {
      assert cells'[k..][i - k] == cells[k..][i - k];
    }
    if k < |cells| {
      assert cells'[k + 1..] == cells'[k..][1..];
      assert cells[k + 1..] == cells[k..][1..];
      GrowthSame(cells, cells', vals, k + 1);
    }
  }

  /** What the overwriting of cell k needs. */
  lemma {:induction false} CellReady(b: seq<byte>, fr: Frag, k: nat)
    requires FragWF(fr) && FragOK(b, fr) && FragApart(fr) && k < |fr.cells|
    ensures var c := fr.cells[k]; var p := CellPos(fr, k);
            && CellOK(b, p, c) && CellApart(p, c)
            && CellFoot(p, c) <= Range(0, |b|) && CellFoot(p, c) <= FragFoot(fr)
            && (c.LongsCell? ==> c.blocks[0].at == p)
    ensures 0 < |b|
  {
    hide BlocksOK;
    FragInside(b, fr);
    assert PartOK(b, fr, k + 1);
    assert PartFoot(fr, k + 1) <= FragFoot(fr);
  }

  /** Cell k overwritten: the fragment is still well-formed, apart and where it was. */
  lemma {:induction false} RewriteCell(m: seq<byte>, m': seq<byte>, cur: Frag, k: nat, v: Value)
    requires FragWF(cur) && FragOK(m, cur) && FragApart(cur) && k < |cur.cells| && Accepts(cur.cells[k], v)
    requires |m'| == |m| + Growth(cur.cells[k], v) <= OFF_MAX
    requires Frame(m, m', CellFoot(CellPos(cur, k), cur.cells[k]))
    requires CellWF(Updated(cur.cells[k], v, |m|)) && CellOK(m', CellPos(cur, k), Updated(cur.cells[k], v, |m|))
    ensures var cur' := WithCell(cur, k, Updated(cur.cells[k], v, |m|));
            && FragWF(cur') && FragOK(m', cur') && FragApart(cur')
            && FragFoot(cur') <= FragFoot(cur) + Range(|m|, |m'|)
            && CellPos(cur', k + 1) == CellPos(cur, k + 1) && LinkPos(cur') == LinkPos(cur)
            && CellValue(cur'.cells[k]) == v
  {
    CellReady(m, cur, k);
    hide At, CellOK, Updated, Growth, CellApart, CellFoot, FragOK, FragApart;
    var c' := Updated(cur.cells[k], v, |m|);
    UpdateFacts(CellPos(cur, k), cur.cells[k], v, |m|);
    ReplaceCell(m, m', cur, k, c');
    WithCellParts(cur, k, c');
  }

  /** Changes inside what is owned, after owned bytes only grew past the old end of file. */
  lemma {:induction false} FrameGrows(b: seq<byte>, m: seq<byte>, m': seq<byte>, own: set<nat>, cur: set<nat>,
                                      touched: set<nat>, next: set<nat>)
    requires Frame(b, m, own) && cur <= own + Range(|b|, |m|)
    requires Frame(m, m', touched) && touched <= cur && next <= cur + Range(|m|, |m'|)
    ensures Frame(b, m', own) && next <= own + Range(|b|, |m'|)
  {
  }

  lemma {:induction false} DueNext(b: seq<byte>, m: seq<byte>, fr: Frag, cur: Frag, vals: seq<Value>, k: nat,
                                   m': seq<byte>, c: Cell)
    requires Due(b, m, fr, cur, vals, k) && k < |cur.cells|
    requires c == Updated(cur.cells[k], vals[k], |m|) && CellWF(c) && CellValue(c) == vals[k]
    requires |m'| == |m| + Growth(cur.cells[k], vals[k])
    ensures Due(b, m', fr, WithCell(cur, k, c), vals, k + 1)
  {
    hide Updated, Growth, CellValue, CellWF, Accepts;
    GrowthSame(cur.cells, WithCell(cur, k, c).cells, vals, k + 1);
  }

  /** write_file(update = 1) for cell k, seen from the whole rewrite. */
  lemma {:induction false} RewriteNext(b: seq<byte>, m: seq<byte>, fr: Frag, cur: Frag, vals: seq<Value>, k: nat,
                                       m': seq<byte>, c: Cell)
    requires Whole(m, fr, cur) && Within(b, m, fr, cur) && Due(b, m, fr, cur, vals, k) && k < |cur.cells|
    requires c == Updated(cur.cells[k], vals[k], |m|) && CellWF(c) && CellOK(m', CellPos(cur, k), c)
    requires |m'| == |m| + Growth(cur.cells[k], vals[k]) && Frame(m, m', CellFoot(CellPos(cur, k), cur.cells[k]))
    ensures Whole(m', fr, WithCell(cur, k, c)) && Within(b, m', fr, WithCell(cur, k, c))
    ensures Due(b, m', fr, WithCell(cur, k, c), vals, k + 1)
    ensures CellPos(WithCell(cur, k, c), k + 1) == CellPos(cur, k + 1)
  {
    CellReady(m, cur, k);
    hide CellOK, Updated, CellApart, CellFoot, FragOK, FragApart, FragFoot, Frame, Accepts;
    RewriteCell(m, m', cur, k, vals[k]);
    FrameGrows(b, m, m', FragFoot(fr), FragFoot(cur), CellFoot(CellPos(cur, k), cur.cells[k]),
               FragFoot(WithCell(cur, k, c)));
    DueNext(b, m, fr, cur, vals, k, m', c);
  }

  // ----- the methods -----

  /** Rewriting the bytes that are there changes nothing. */
  lemma {:induction false} SameBytes(b: seq<byte>, m: seq<byte>, p: nat, data: seq<byte>)
    requires At(b, p, data) && At(m, p, data) && Same(b, m, p, p + |data|) && |m| == |b|
    ensures m == b
  {
    forall i | p <= i < p + |data| ensures m[i] == b[i] {
      assert b[p..p + |data|][i - p] == m[p..p + |data|][i - p];
    }
  }

  /** The count of active fields, then one byte for the index of each. */
  method PutHeader(f: File, rec: Record) returns (count: nat)
    requires |rec| <= MAX_FIELD_NR && f.pos <= |f.bytes|
    modifies f
    ensures count == |Fields(rec)| <= |rec|
    ensures count == 0 ==> f.bytes == old(f.bytes)
    ensures count > 0 ==>
              && At(f.bytes, old(f.pos), HeaderBytes(Fields(rec)))
              && Same(old(f.bytes), f.bytes, old(f.pos), f.pos) && f.pos == old(f.pos) + 1 + count
              && |f.bytes| == if f.pos <= |old(f.bytes)| then |old(f.bytes)| else f.pos
  {
    hide *;
    ghost var b, p := f.bytes, f.pos;
    FieldsFacts(rec);
    count := CountActive(rec);
    if count == 0 {
      return;
    }
    f.Write([count]);
    IndexStep(rec, 0);
    assert [count] + [] == [count];
    for i := 0 to |rec|
      invariant f.pos == p + 1 + |Active(rec, i)| <= |f.bytes|
      invariant HeaderSoFar(b, f.bytes, p, count, Active(rec, i))
    {
      ActiveStep(rec, i);
      if rec[i].Some? {
        ghost var m := f.bytes;
        f.Write([i]);
        IndexStep(rec, i);
        HeaderNext(b, m, f.bytes, p, count, Active(rec, i), i);
      }
    }
    HeaderIs(rec);
  }

  /** The loop that counts the active fields. */
  method CountActive(rec: Record) returns (count: nat)
    ensures count == |Fields(rec)| <= |rec|
  {
    count := 0;
    for i := 0 to |rec|
      invariant count == |Active(rec, i)| <= i
    {
      if rec[i].Some? {
        count := count + 1;
      }
    }
  }

  lemma {:induction false} FieldsFacts(rec: Record)
    requires |rec| <= MAX_FIELD_NR
    ensures |Vals(rec)| == |Fields(rec)| <= |rec| <= 200 && Fields(rec) == Active(rec, |rec|)
  {
    ActiveAscends(rec, |rec|);
  }

  lemma {:induction false} IndexStep(rec: Record, i: nat)
    requires i < |rec| <= MAX_FIELD_NR
    ensures Active(rec, 0) == [] && Indexes(Active(rec, 0)) == []
    ensures rec[i].Some? ==> Indexes(Active(rec, i + 1)) == Indexes(Active(rec, i)) + [i]
  {
  }

  lemma {:induction false} HeaderIs(rec: Record)
    requires |rec| <= MAX_FIELD_NR && |Fields(rec)| <= MAX_FIELD_NR
    ensures HeaderBytes(Fields(rec)) == [|Fields(rec)|] + Indexes(Fields(rec)) && Fields(rec) == Active(rec, |rec|)
  {
  }

  /** The count and the first indexes stand at p, and nothing else changed. */
  ghost predicate HeaderSoFar(b: seq<byte>, m: seq<byte>, p: nat, count: byte, fields: seq<nat>)
    requires forall k :: 0 <= k < |fields| ==> fields[k] < MAX_FIELD_NR
    ensures HeaderSoFar(b, m, p, count, fields) <==>
              && At(m, p, [count] + Indexes(fields)) && Same(b, m, p, p + 1 + |fields|)
              && |m| == if p + 1 + |fields| <= |b| then |b| else p + 1 + |fields|
  {
    && At(m, p, [count] + Indexes(fields)) && Same(b, m, p, p + 1 + |fields|)
    && |m| == if p + 1 + |fields| <= |b| then |b| else p + 1 + |fields|
  }

  lemma {:induction false} HeaderNext(b: seq<byte>, m: seq<byte>, m': seq<byte>, p: nat, count: byte, fields: seq<nat>, i: byte)
    requires i < MAX_FIELD_NR && p <= |b|
    requires (forall k :: 0 <= k < |fields| ==> fields[k] < MAX_FIELD_NR) && HeaderSoFar(b, m, p, count, fields)
    requires var q := p + 1 + |fields|;
             && At(m', q, [i]) && Same(m, m', q, q + 1) && |m'| == if q + 1 <= |m| then |m| else q + 1
    ensures HeaderSoFar(b, m', p, count, fields + [i])
  {
    var q := p + 1 + |fields|;
    AtBeside(m, m', p, [count] + Indexes(fields), q, q + 1);
    AtConcat(m', p, [count] + Indexes(fields), [i]);
    assert [count] + Indexes(fields + [i]) == [count] + Indexes(fields) + [i];
  }

  function Indexes(fields: seq<nat>): (r: seq<byte>)
    requires forall k :: 0 <= k < |fields| ==> fields[k] < MAX_FIELD_NR
    ensures |r| == |fields|
  {
    seq(|fields|, k requires 0 <= k < |fields| => fields[k])
  }

  /** The field loop of write_file(update = 1): active cells in schema order. */
  method RewriteCells(f: File, rec: Record, ghost fr: Frag) returns (ghost cur: Frag)
    requires FragWF(fr) && FragOK(f.bytes, fr) && FragApart(fr) && f.pos == CellPos(fr, 0)
    requires fr.fields == Fields(rec) && AllAccept(fr.cells, Vals(rec), 0)
    requires |f.bytes| + GrowthFrom(fr.cells, Vals(rec), 0) <= OFF_MAX
    modifies f
    ensures cur == Overwritten(fr, Vals(rec), 0, |old(f.bytes)|)
    ensures Whole(f.bytes, fr, cur) && Within(old(f.bytes), f.bytes, fr, cur)
    ensures Due(old(f.bytes), f.bytes, fr, cur, Vals(rec), |fr.cells|)
    ensures f.pos == LinkPos(fr)
  {
    hide *;
    ghost var b, k := f.bytes, 0;
    cur := fr;
    RewriteStart(b, fr, rec);
    for i := 0 to |rec|
      invariant k == |Active(rec, i)| <= |fr.cells|
      invariant Whole(f.bytes, fr, cur) && Within(b, f.bytes, fr, cur) && Due(b, f.bytes, fr, cur, Vals(rec), k)
      invariant f.pos == CellPos(cur, k)
    {
      ActiveStep(rec, i);
      if rec[i].Some? {
        NextVal(rec, i);
        ghost var m, c := f.bytes, cur.cells[k];
        RewriteReady(b, m, fr, cur, Vals(rec), k);
        Overwrite(f, rec[i].value, c);
        ghost var c' := CellUpdate.Updated(c, rec[i].value, |m|);
        RewriteNext(b, m, fr, cur, Vals(rec), k, f.bytes, c');
        cur := WithCell(cur, k, c');
        k := k + 1;
      }
    }
    RewriteEnd(b, f.bytes, fr, cur, Vals(rec));
  }

  lemma {:induction false} RewriteStart(b: seq<byte>, fr: Frag, rec: Record)
    requires FragWF(fr) && FragOK(b, fr) && FragApart(fr) && fr.fields == Fields(rec) && AllAccept(fr.cells, Vals(rec), 0)
    requires |b| + GrowthFrom(fr.cells, Vals(rec), 0) <= OFF_MAX
    ensures Whole(b, fr, fr) && Within(b, b, fr, fr) && Due(b, b, fr, fr, Vals(rec), 0)
    ensures |Active(rec, 0)| == 0 && |Active(rec, |rec|)| == |fr.cells|
  {
    hide FragOK, FragApart, FragFoot, CellValue, CellWF, ValueWF;
  }

  lemma {:induction false} NextVal(rec: Record, i: nat)
    requires i < |rec| && rec[i].Some?
    ensures |Active(rec, i)| < |Vals(rec)| && Vals(rec)[|Active(rec, i)|] == rec[i].value
  {
    ActiveNext(rec, i);
  }

  /** What the overwriting of cell k needs, and where it leaves the cursor. */
  lemma {:induction false} RewriteReady(b: seq<byte>, m: seq<byte>, fr: Frag, cur: Frag, vals: seq<Value>, k: nat)
    requires Whole(m, fr, cur) && Due(b, m, fr, cur, vals, k) && k < |fr.cells|
    ensures |cur.cells| == |fr.cells| && FragWF(cur) && k < |vals|
    ensures var c := cur.cells[k]; var p := CellPos(cur, k);
            && CellWF(c) && CellTidy(c) && Accepts(c, vals[k]) && CellOK(m, p, c) && CellApart(p, c)
            && |m| + CellUpdate.Growth(c, vals[k]) <= OFF_MAX && |m| > 0 && CellFoot(p, c) <= Range(0, |m|)
            && CellPos(cur, k + 1) == p + CellSize(c)
  {
    CellReady(m, cur, k);
    hide CellOK, CellApart, CellFoot, FragOK, FragApart, Accepts, CellUpdate.Growth, ValueWF,
         CellTidy, CellSize, CellValue, Overwritten;
  }

  lemma {:induction false} RewriteEnd(b: seq<byte>, m: seq<byte>, fr: Frag, cur: Frag, vals: seq<Value>)
    requires Whole(m, fr, cur) && Due(b, m, fr, cur, vals, |fr.cells|)
    ensures cur == Overwritten(fr, vals, 0, |b|) && FragWF(cur) && FragWF(fr)
    ensures |cur.cells| == |fr.cells| && CellPos(cur, |fr.cells|) == LinkPos(fr)
  {
    hide FragOK, FragApart, Accepts, CellWF, CellValue, ValueWF;
    assert Overwritten(cur, vals, |fr.cells|, |m|) == cur;
  }

  /** write_file(update = 1): the record rewritten at its place, with a new link. */
  method Rewrite(f: File, rec: Record, link: nat, ghost fr: Frag) returns (r: nat)
    requires FragWF(fr) && FragOK(f.bytes, fr) && FragApart(fr) && f.pos == fr.at
    requires fr.fields == Fields(rec) && AllAccept(fr.cells, Vals(rec), 0) && |rec| <= MAX_FIELD_NR
    requires |f.bytes| + GrowthFrom(fr.cells, Vals(rec), 0) <= OFF_MAX && link <= OFF_MAX
    modifies f
    ensures r == 1
    ensures Rewritten(old(f.bytes), f.bytes, fr, Vals(rec), link)
    ensures f.pos == LinkPos(fr) + 8
  {
    ghost var b := f.bytes;
    assert PartOK(b, fr, 0);
    var count := PutHeader(f, rec);
    SameBytes(b, f.bytes, fr.at, HeaderBytes(fr.fields));
    ghost var cur := RewriteCells(f, rec, fr);
    ghost var m := f.bytes;
    FragInside(m, cur);
    f.Write(BE64(link));
    ReplaceLink(m, f.bytes, cur, link);
    LinkDone(b, m, f.bytes, fr, cur, Vals(rec), link);
    r := 1;
  }

  /** The outcome of rewriting fragment fr with the given values and link. */
  ghost predicate Rewritten(b: seq<byte>, b': seq<byte>, fr: Frag, vals: seq<Value>, link: nat)
    requires FragWF(fr) && AllAccept(fr.cells, vals, 0)
  {
    var fr' := Overwritten(fr, vals, 0, |b|).(link := link);
    && FragWF(fr') && FragOK(b', fr') && FragApart(fr')
    && fr'.at == fr.at && fr'.fields == fr.fields && CellValues(fr'.cells) == vals && LinkPos(fr') == LinkPos(fr)
    && |b'| == |b| + GrowthFrom(fr.cells, vals, 0)
    && Frame(b, b', FragFoot(fr)) && FragFoot(fr') <= FragFoot(fr) + Range(|b|, |b'|)
  }

  lemma {:induction false} LinkDone(b: seq<byte>, m: seq<byte>, b': seq<byte>, fr: Frag, cur: Frag, vals: seq<Value>,
                                    link: nat)
    requires Whole(m, fr, cur) && Within(b, m, fr, cur) && Due(b, m, fr, cur, vals, |fr.cells|)
    requires |b'| == |m| && Same(m, b', LinkPos(fr), LinkPos(fr) + 8)
    requires FragWF(cur.(link := link)) && FragOK(b', cur.(link := link)) && FragApart(cur.(link := link))
    requires FragFoot(cur.(link := link)) == FragFoot(cur)
    ensures Rewritten(b, b', fr, vals, link)
  {
    hide CellOK, CellApart, CellFoot, FragOK, FragApart, FragFoot, Accepts, CellWF;
    var slot := Range(LinkPos(fr), LinkPos(fr) + 8);
    assert slot == PartFoot(fr, |fr.cells| + 1) == PartFoot(cur, |cur.cells| + 1);
    assert FragFoot(cur) <= FragFoot(cur) + Range(|m|, |b'|);
    FrameGrows(b, m, b', FragFoot(fr), FragFoot(cur), slot, FragFoot(cur));
    assert CellValues(cur.cells) == vals;
  }
}
