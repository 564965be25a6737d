// One field of a record: written fresh, overwritten in place, read back.
module CellUpdate {
  import opened Bytes
  import opened ByteFile
  import opened Layout
  import LongsBlock
  import LongsUpdate
  import LongsProperties
  import TextUpdate

  /** Values that fit the C types: no NUL inside a string, array counts below 2^31. */
  predicate ValueWF(v: Value) {
    match v
    case Text(s) => CString(s) && 2 * |s| + 1 <= OFF_MAX
    case Longs(xs) => |xs| < 0x8000_0000
    case _ => true
  }

  function CellType(c: Cell): FieldType
    requires CellWF(c)
  {
    TypeOf(CellValue(c))
  }

  predicate CellTidy(c: Cell) {
    c.LongsCell? ==> Tidy(c.blocks)
  }

  /**
   * The updates whose result is promised: for arrays, the lengths that always read back
   * (none of them takes an old element for a link, LongsProperties.HeadOrTotal).
   */
  predicate Accepts(c: Cell, v: Value)
    requires CellWF(c)
  {
    && ValueWF(v) && TypeOf(v) == CellType(c)
    && (v.Longs? ==> TakesLength(c, v) && !LongsUpdate.Lost(c.blocks, |v.xs|, 0))
  }

  /** An array is no longer than the head block, or no shorter than the chain. */
  predicate TakesLength(c: Cell, v: Value)
    requires CellWF(c)
  {
    c.LongsCell? && v.Longs? ==> |v.xs| <= |c.blocks[0].xs| || Total(c.blocks) <= |v.xs|
  }

  lemma {:induction false} AcceptsNew(c: Cell, v: Value)
    requires CellWF(c) && CellTidy(c) && ValueWF(v) && TypeOf(v) == CellType(c) && TakesLength(c, v)
    ensures Accepts(c, v)
  {
    if c.LongsCell? {
      LongsProperties.HeadOrTotal(c.blocks, |v.xs|);
    }
  }

  function Updated(c: Cell, v: Value, eof: nat): Cell
    requires CellWF(c) && Accepts(c, v)
  {
    match v
    case Text(s) => TextUpdate.Updated(c, s, eof)
    case Longs(ys) => LongsCell(LongsUpdate.Rewritten(c.blocks, ys, 0, eof))
    case _ => Plain(v)
  }

  function Growth(c: Cell, v: Value): nat
    requires CellWF(c) && Accepts(c, v)
  {
    match v
    case Text(s) => TextUpdate.Growth(c, s)
    case Longs(ys) => LongsUpdate.Growth(c.blocks, |ys|)
    case _ => 0
  }

  /**
   * An overwritten cell reads as the new value, keeps its inline extent, and owns only
   * bytes the old cell owned or that were appended to the file.
   */
  lemma {:induction false} UpdateFacts(p: nat, c: Cell, v: Value, eof: nat)
    requires CellWF(c) && CellTidy(c) && Accepts(c, v) && CellApart(p, c)
    requires c.LongsCell? ==> c.blocks[0].at == p
    requires CellFoot(p, c) <= Range(0, eof) && 0 < eof && eof + Growth(c, v) <= OFF_MAX
    ensures var c' := Updated(c, v, eof);
            && CellWF(c') && CellTidy(c') && CellValue(c') == v && CellSize(c') == CellSize(c)
            && CellApart(p, c') && CellFoot(p, c') <= CellFoot(p, c) + Range(eof, eof + Growth(c, v))
            && (c'.LongsCell? ==> c'.blocks[0].at == p)
  {
    match v
    case Text(s) =>
    case Longs(ys) =>
      LongsProperties.RewriteReadsBack(c.blocks, ys, eof);
      LongsProperties.RewriteStays(c.blocks, ys, eof);
    case _ =>
  }

  /** Overwriting a cell with the value it holds changes nothing. */
  lemma {:induction false} UpdateSame(c: Cell, eof: nat)
    requires CellWF(c) && CellTidy(c) && ValueWF(CellValue(c))
    ensures Accepts(c, CellValue(c)) && Updated(c, CellValue(c), eof) == c && Growth(c, CellValue(c)) == 0
  {
    if c.LongsCell? {
      assert |c.blocks| > 0;
      LongsProperties.RewriteSame(c.blocks, eof);
    }
  }

  /** The cell write_file(update = 0) lays out for v at p. */
  function Fresh(p: nat, v: Value): Cell {
    match v
    case Text(s) => TextCell(Buf(s, 2 * |s| + 1), 0, Buf([], 0))
    case Longs(xs) => LongsCell([Block(p, xs, [])])
    case _ => Plain(v)
  }

  lemma {:induction false} FreshFacts(p: nat, v: Value)
    requires ValueWF(v)
    ensures var c := Fresh(p, v);
            && CellWF(c) && CellTidy(c) && CellValue(c) == v && CellApart(p, c)
            && CellFoot(p, c) == Range(p, p + CellSize(c))
    ensures v.Text? ==> forall t :: TextUpdate.Growth(Fresh(p, v), t) == 0 <==> |t| <= 2 * |v.s|
  {
    match v
    case Text(s) =>
    case Longs(xs) =>
      var blocks := [Block(p, xs, [])];
      assert Live(blocks, 1) == Live(blocks, 0) + |xs|;
      assert Elements(blocks, 1) == Elements(blocks, 0) + xs;
      assert blocks[..0] == [];
      assert BlocksFoot(blocks) == BlocksFoot(blocks[..0]) + BlockFoot(blocks[0]);
    case _ =>
  }

  lemma {:induction false} SameIsFrame(b: seq<byte>, b': seq<byte>, lo: nat, hi: nat)
    requires Same(b, b', lo, hi)
    ensures Frame(b, b', Range(lo, hi))
  {
  }

  /** The branches of write_file(update = 1) for one field. */
  method Overwrite(f: File, v: Value, ghost c: Cell)
    requires CellWF(c) && CellTidy(c) && Accepts(c, v)
    requires CellOK(f.bytes, f.pos, c) && CellApart(f.pos, c)
    requires |f.bytes| + Growth(c, v) <= OFF_MAX && |f.bytes| > 0
    requires CellFoot(f.pos, c) <= Range(0, |f.bytes|)
    modifies f
    ensures CellWF(Updated(c, v, |old(f.bytes)|))
    ensures CellOK(f.bytes, old(f.pos), Updated(c, v, |old(f.bytes)|))
    ensures Frame(old(f.bytes), f.bytes, CellFoot(old(f.pos), c))
    ensures |f.bytes| == |old(f.bytes)| + Growth(c, v)
    ensures f.pos == old(f.pos) + CellSize(c)
  {
    hide *;
    ghost var p, b := f.pos, f.bytes;
    CellInside(b, p, c);
    OverwriteFacts(b, p, c, v);
    UpdateFacts(p, c, v, |b|);
    match v
    case Text(s) =>
      TextUpdate.Update(f, s, c);
    case Longs(ys) =>
      LongsUpdate.Update(f, ys, c.blocks);
      LongsDone(f.bytes, p, c, ys, |b|);
    case _ =>
      f.Write(FixedBytes(v));
      SameIsFrame(b, f.bytes, p, f.pos);
      PlainDone(f.bytes, p, c, v, |b|);
  }

  /** What each branch of the overwriting needs. */
  lemma {:induction false} OverwriteFacts(b: seq<byte>, p: nat, c: Cell, v: Value)
    requires CellWF(c) && CellTidy(c) && Accepts(c, v) && CellOK(b, p, c) && CellApart(p, c)
    ensures c.LongsCell? ==> |c.blocks| > 0 && c.blocks[0].at == p
    ensures v.Text? ==> c.TextCell? && CString(v.s) && Updated(c, v, |b|) == TextUpdate.Updated(c, v.s, |b|)
                        && Growth(c, v) == TextUpdate.Growth(c, v.s)
    ensures v.Longs? ==> c.LongsCell? && BlocksWF(c.blocks) && |c.blocks| > 0 && Tidy(c.blocks) && BlocksApart(c.blocks)
                         && BlocksOK(b, c.blocks) && c.blocks[0].at == p && !LongsUpdate.Lost(c.blocks, |v.xs|, 0)
                         && |v.xs| < 0x8000_0000 && Growth(c, v) == LongsUpdate.Growth(c.blocks, |v.xs|)
                         && CellSize(c) == BlockSize(c.blocks[0]) && CellFoot(p, c) == BlocksFoot(c.blocks)
    ensures !v.Text? && !v.Longs? ==> Fixed(v) && |FixedBytes(v)| == CellSize(c) && Growth(c, v) == 0
                                      && CellFoot(p, c) == Range(p, p + CellSize(c))
  {
    hide At, BlocksOK, Elements;
  }

  lemma {:induction false} LongsDone(b: seq<byte>, p: nat, c: Cell, ys: seq<i64>, eof: nat)
    requires CellWF(c) && c.LongsCell? && c.blocks[0].at == p && Accepts(c, Longs(ys))
    requires BlocksOK(b, LongsUpdate.Rewritten(c.blocks, ys, 0, eof)) && CellWF(Updated(c, Longs(ys), eof))
    requires var c' := Updated(c, Longs(ys), eof); c'.LongsCell? ==> c'.blocks[0].at == p
    ensures CellOK(b, p, Updated(c, Longs(ys), eof))
  {
  }

  lemma {:induction false} PlainDone(b: seq<byte>, p: nat, c: Cell, v: Value, eof: nat)
    requires CellWF(c) && Accepts(c, v) && !v.Text? && !v.Longs? && Fixed(v) && At(b, p, FixedBytes(v))
    ensures CellWF(Updated(c, v, eof)) && CellOK(b, p, Updated(c, v, eof))
  {
  }

  /** The branches of write_file(update = 0) for one field, at the end of the file. */
  method PutFresh(f: File, v: Value)
    requires ValueWF(v) && f.pos == |f.bytes|
    modifies f
    ensures CellWF(Fresh(old(f.pos), v)) && CellOK(f.bytes, old(f.pos), Fresh(old(f.pos), v))
    ensures Same(old(f.bytes), f.bytes, old(f.pos), f.pos)
    ensures f.pos == |f.bytes| == old(f.pos) + CellSize(Fresh(old(f.pos), v))
  {
    hide At;
    FreshFacts(f.pos, v);
    match v
    case Text(s) =>
      PutText(f, s);
    case Longs(ys) =>
      LongsBlock.PutBlock(f, ys, 0);
      assert ys[0..] == ys;
    case _ =>
      f.Write(FixedBytes(v));
  }

  method PutText(f: File, s: seq<byte>)
    requires f.pos == |f.bytes|
    modifies f
    ensures At(f.bytes, old(f.pos), BE64(0)) && At(f.bytes, old(f.pos) + 8, BE64(2 * |s| + 1))
    ensures At(f.bytes, old(f.pos) + 16, BufBytes(Buf(s, 2 * |s| + 1)))
    ensures Same(old(f.bytes), f.bytes, old(f.pos), f.pos)
    ensures f.pos == |f.bytes| == old(f.pos) + 16 + 2 * |s| + 1
  {
    ghost var p := f.pos;
    f.Write(BE64(0));
    ghost var m := f.bytes;
    TextUpdate.WriteBuffer(f, s, 2 * |s| + 1);
    AtBeside(m, f.bytes, p, BE64(0), p + 8, f.pos);
  }

  /** The branches of read_file for one field. */
  method ReadCell(f: File, ty: FieldType, ghost c: Cell) returns (v: Value)
    requires CellWF(c) && CellOK(f.bytes, f.pos, c) && CellType(c) == ty
    modifies f`pos
    ensures v == CellValue(c)
    ensures f.pos == old(f.pos) + CellSize(c)
  {
    hide *;
    CellInside(f.bytes, f.pos, c);
    ReadFacts(f.bytes, f.pos, c);
    match ty
    case TInt =>
      var u := f.Read32();
      v := Int(Signed32(u));
    case TLong =>
      var u := f.Read64();
      v := Long(Signed64(u));
    case TFloat =>
      var u := f.Read32();
      v := Float(u);
    case TByte =>
      var u := f.Read16();
      v := Byte(u % 256);
    case TString =>
      var s := ReadText(f, c);
      v := Text(s);
    case TLongs =>
      var xs := ReadLongs(f, c.blocks);
      v := Longs(xs);
  }

  /** What each branch of the reading needs, and what it gives. */
  lemma {:induction false} ReadFacts(b: seq<byte>, p: nat, c: Cell)
    requires CellWF(c) && CellOK(b, p, c)
    ensures match CellType(c)
            case TInt => CellValue(c).Int? && At(b, p, BE32(Unsigned32(CellValue(c).i))) && CellSize(c) == 4
            case TLong => CellValue(c).Long? && At(b, p, BE64(Unsigned64(CellValue(c).l))) && CellSize(c) == 8
            case TFloat => CellValue(c).Float? && At(b, p, BE32(CellValue(c).bits)) && CellSize(c) == 4
            case TByte => CellValue(c).Byte? && At(b, p, BE16(CellValue(c).b)) && CellSize(c) == 2
            case TString => c.TextCell? && CellValue(c) == Text(TextUpdate.Current(c).s)
            case TLongs => c.LongsCell? && BlocksWF(c.blocks) && BlocksOK(b, c.blocks) && |c.blocks| > 0
                           && p == c.blocks[0].at && CellSize(c) == BlockSize(c.blocks[0])
                           && CellValue(c) == Longs(Elements(c.blocks, |c.blocks|))
  {
    hide At, BlocksOK, Elements, BE16, BE32, BE64;
  }

  /** A buffer of `size` bytes at the cursor, read up to its first NUL. */
  method ReadString(f: File, size: nat, ghost u: Buf) returns (s: seq<byte>)
    requires BufWF(u) && size == u.size && At(f.bytes, f.pos, BufBytes(u))
    modifies f`pos
    ensures s == u.s && f.pos == old(f.pos) + size
  {
    var buffer := f.Read(size);
    CStrOfBuf(u.s, size);
    s := CStr(buffer);
  }

  method ReadText(f: File, ghost c: Cell) returns (s: seq<byte>)
    requires CellWF(c) && c.TextCell? && CellOK(f.bytes, f.pos, c)
    modifies f`pos
    ensures s == TextUpdate.Current(c).s
    ensures f.pos == old(f.pos) + CellSize(c)
  {
    hide *;
    TextWords(f.bytes, f.pos, c);
    var loc := f.Read64();
    var size := f.Read64();
    var moveTo := f.pos + size;
    if loc > 0 {
      f.Seek(loc);
      size := f.Read64();
    }
    s := ReadString(f, size, TextUpdate.Current(c));
    if loc > 0 {
      f.Seek(moveTo);
    }
  }

  /** The words of a string cell, and the buffer its string is in. */
  lemma {:induction false} TextWords(b: seq<byte>, p: nat, c: Cell)
    requires CellWF(c) && c.TextCell? && CellOK(b, p, c)
    ensures At(b, p, BE64(c.loc)) && At(b, p + 8, BE64(c.inl.size)) && p + 16 <= |b| && CellSize(c) == 16 + c.inl.size
    ensures c.loc < 0x1_0000_0000_0000_0000 && c.inl.size < 0x1_0000_0000_0000_0000
    ensures BufWF(TextUpdate.Current(c)) && |TextUpdate.Current(c).s| < TextUpdate.Current(c).size < 0x1_0000_0000_0000_0000
    ensures c.loc > 0 ==> c.loc + 8 <= |b| && At(b, c.loc, BE64(TextUpdate.Current(c).size))
    ensures c.loc == 0 ==> TextUpdate.Current(c) == c.inl
    ensures At(b, if c.loc > 0 then c.loc + 8 else p + 16, BufBytes(TextUpdate.Current(c)))
  {
    TextUpdate.InlineInside(b, p, c);
    hide BufBytes, BE64, At, CString;
  }

  method ReadLongs(f: File, ghost blocks: seq<Block>) returns (xs: seq<i64>)
    requires BlocksWF(blocks) && BlocksOK(f.bytes, blocks) && f.pos == blocks[0].at
    modifies f`pos
    ensures xs == Elements(blocks, |blocks|)
    ensures f.pos == blocks[0].at + BlockSize(blocks[0])
  {
    hide *;
    ChainStart(blocks);
    xs := [];
    var goBackHere := 0;
    var more := true;
    ghost var j := 0;
    while more
      invariant j <= |blocks| && (more ==> j < |blocks| && f.pos == blocks[j].at) && (!more ==> j == |blocks|)
      invariant xs == Elements(blocks, j)
      invariant goBackHere == if j == 0 then 0 else blocks[0].at + BlockSize(blocks[0])
      decreases |blocks| - j
    {
      ChainNext(f.bytes, blocks, j);
      var part, link := ReadBlock(f, blocks[j], Next(blocks, j));
      xs := xs + part;
      if goBackHere == 0 {
        goBackHere := f.pos;
      }
      more := link > 0;
      if more {
        f.Seek(link);
      }
      j := j + 1;
    }
    f.Seek(goBackHere);
  }

  lemma {:induction false} ChainStart(blocks: seq<Block>)
    requires BlocksWF(blocks)
    ensures |blocks| > 0 && Elements(blocks, 0) == [] && BlockSize(blocks[0]) > 0
  {
  }

  /** Block j of a chain, and the link behind it. */
  lemma {:induction false} ChainNext(b: seq<byte>, blocks: seq<Block>, j: nat)
    requires BlocksWF(blocks) && BlocksOK(b, blocks) && j < |blocks|
    ensures BlockOK(b, blocks[j], Next(blocks, j)) && LongsBlock.CountsFit(blocks[j])
    ensures 0 <= Next(blocks, j) <= OFF_MAX
    ensures if j + 1 < |blocks| then Next(blocks, j) == blocks[j + 1].at > 0 else Next(blocks, j) == 0
    ensures Elements(blocks, j + 1) == Elements(blocks, j) + blocks[j].xs && BlockSize(blocks[j]) > 0
  {
    hide BlockOK;
  }

  method ReadBlock(f: File, ghost k: Block, ghost next: nat) returns (part: seq<i64>, link: nat)
    requires BlockOK(f.bytes, k, next) && LongsBlock.CountsFit(k) && f.pos == k.at && next <= OFF_MAX
    modifies f`pos
    ensures part == k.xs && link == next
    ensures f.pos == k.at + BlockSize(k)
  {
    hide *;
    BlockParts(f.bytes, k, next);
    var sz := f.Read32();
    var pad := f.Read32();
    part := ReadWords(f, sz, k.xs);
    f.Seek(f.pos + 8 * pad);
    link := f.Read64();
  }

  lemma {:induction false} BlockParts(b: seq<byte>, k: Block, next: nat)
    requires BlockOK(b, k, next) && LongsBlock.CountsFit(k) && next <= OFF_MAX
    ensures At(b, k.at, BE32(|k.xs|)) && At(b, k.at + 4, BE32(|k.pad|)) && At(b, k.at + 8, Words(k.xs))
    ensures At(b, k.at + 8 + 8 * |k.xs| + 8 * |k.pad|, BE64(next))
    ensures BlockSize(k) == 16 + 8 * |k.xs| + 8 * |k.pad| && k.at + BlockSize(k) <= |b|
    ensures |k.xs| < 0x8000_0000 && |k.pad| < 0x8000_0000 && next < 0x8000_0000_0000_0000
  {
    hide Words, BE32, BE64;
    LongsBlock.WordRuns(b, k.at + 8, k.xs, k.at + 8 + 8 * |k.xs|, k.pad);
  }

  method ReadWords(f: File, n: nat, ghost xs: seq<i64>) returns (part: seq<i64>)
    requires |xs| == n && At(f.bytes, f.pos, Words(xs))
    modifies f`pos
    ensures part == xs && f.pos == old(f.pos) + 8 * n
  {
    ghost var p := f.pos;
    part := [];
    var i := 0;
    while i < n
      invariant 0 <= i <= n && part == xs[..i] && f.pos == p + 8 * i
    {
      LongsBlock.WordAt(f.bytes, p, xs, i);
      var u := f.Read64();
      part := part + [Signed64(u)];
      i := i + 1;
    }
  }
}
