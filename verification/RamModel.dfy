// What read_ram_file makes of the bytes in memory, whatever they are, and when that is what
// read_file makes of them.
module RamModel {
  import opened Bytes
  import opened Layout
  import opened CellUpdate
  import opened Fragment
  import LongsBlock
  import TextUpdate

  /**
   * A value and the pointer behind it; or the reader went astray: a copy would leave the
   * memory, a string has no end in its own buffer, or a chain of blocks comes back to itself.
   */
  datatype Seen<+T> = Got(value: T, end: nat) | Astray

  // ----- words -----

  /** The n bytes at p, most significant first. */
  function Word(m: seq<byte>, p: nat, n: nat): (w: nat)
    requires p + n <= |m|
    ensures w < Pow256(n)
  {
    ValBound(m[p..p + n]);
    Val(m[p..p + n])
  }

  lemma {:induction false} ValBound(s: seq<byte>)
    ensures Val(s) < Pow256(|s|)
    decreases |s|
  {
    if |s| > 0 {
      ValBound(s[..|s| - 1]);
    }
  }

  lemma {:induction false} Widths()
    ensures Pow256(4) == 0x1_0000_0000 && Pow256(8) == 0x1_0000_0000_0000_0000
  {
  }

  function Int32(m: seq<byte>, p: nat): i32
    requires p + 4 <= |m|
  {
    Widths();
    Signed32(Word(m, p, 4))
  }

  function Int64(m: seq<byte>, p: nat): i64
    requires p + 8 <= |m|
  {
    Widths();
    Signed64(Word(m, p, 8))
  }

  lemma {:induction false} WordIs(m: seq<byte>, p: nat, n: nat, v: nat)
    requires At(m, p, BE(n, v)) && v < Pow256(n)
    ensures p + n <= |m| && Word(m, p, n) == v
  {
    ValBE(n, v);
  }

  lemma {:induction false} Int32Is(m: seq<byte>, p: nat, x: i32)
    requires At(m, p, BE32(Unsigned32(x)))
    ensures p + 4 <= |m| && Int32(m, p) == x && Word(m, p, 4) == Unsigned32(x)
  {
    Widths();
    WordIs(m, p, 4, Unsigned32(x));
  }

  lemma {:induction false} Int64Is(m: seq<byte>, p: nat, x: i64)
    requires At(m, p, BE64(Unsigned64(x)))
    ensures p + 8 <= |m| && Int64(m, p) == x && Word(m, p, 8) == Unsigned64(x)
  {
    Widths();
    WordIs(m, p, 8, Unsigned64(x));
  }

  // ----- strings -----

  /** The string branch: of a moved string it copies as many bytes as the string's offset says. */
  function SeeText(m: seq<byte>, p: nat): Seen<seq<byte>> {
    if p + 16 > |m| then Astray
    else
      var loc, size := Int64(m, p), Word(m, p + 8, 8);
      var from, n := if loc > 0 then loc + 8 else p + 16, if loc > 0 then loc else size;
      if from + n > |m| || 0 !in m[from..from + n] then Astray
      else Got(CStr(m[from..from + n]), p + 16 + size)
  }

  // ----- arrays -----

  function Prefixed<T>(front: seq<T>, rest: Option<seq<T>>): Option<seq<T>> {
    if rest.None? then None else Some(front + rest.value)
  }

  lemma {:induction false} PrefixedTwice<T>(a: seq<T>, b: seq<T>, rest: Option<seq<T>>)
    ensures Prefixed([], rest) == rest && Prefixed(a, Prefixed(b, rest)) == Prefixed(a + b, rest)
  {
    if rest.Some? {
      assert a + (b + rest.value) == a + b + rest.value;
      assert [] + rest.value == rest.value;
    }
  }

  function SeeWords(m: seq<byte>, p: nat, n: nat): (xs: seq<i64>)
    requires p + 8 * n <= |m|
    ensures |xs| == n
  {
    seq(n, i requires 0 <= i < n => Int64(m, p + 8 * i))
  }

  datatype Piece = Piece(xs: seq<i64>, link: int)

  /** One block: its live elements and its link; a negative count is no count. */
  function SeeBlock(m: seq<byte>, p: nat): (r: Seen<Piece>)
    ensures r.Got? ==> r.end >= p + 16
  {
    if p + 8 > |m| then Astray
    else
      var sz, pad := Int32(m, p), Int32(m, p + 4);
      var n := if sz > 0 then sz else 0;
      var q := p + 8 + 8 * n + 8 * (if pad > 0 then pad else 0);
      if q + 8 > |m| then Astray
      else Got(Piece(SeeWords(m, p + 8, n), Int64(m, q)), q + 8)
  }

  /** The elements along a chain of at most `rounds` blocks. */
  function SeeChain(m: seq<byte>, p: nat, rounds: nat): Option<seq<i64>>
    decreases rounds
  {
    if rounds == 0 then None
    else
      match SeeBlock(m, p)
      case Astray => None
      case Got(piece, _) =>
        if piece.link <= 0 then Some(piece.xs)
        else Prefixed(piece.xs, SeeChain(m, piece.link, rounds - 1))
  }

  /** A chain of more blocks than there are bytes has come back to one of its blocks. */
  function SeeLongs(m: seq<byte>, p: nat): Seen<seq<i64>> {
    match SeeChain(m, p, |m|)
    case None => Astray
    case Some(xs) =>
      match SeeBlock(m, p)
      case Astray => Astray
      case Got(_, end) => Got(xs, end)
  }

  // ----- fields and records -----

  /** One field; a byte is read as one byte. */
  function SeeField(m: seq<byte>, p: nat, ty: FieldType): Seen<Value> {
    match ty
    case TInt => if p + 4 > |m| then Astray else Got(Int(Int32(m, p)), p + 4)
    case TLong => if p + 8 > |m| then Astray else Got(Long(Int64(m, p)), p + 8)
    case TFloat => if p + 4 > |m| then Astray else (Widths(); Got(Float(Word(m, p, 4)), p + 4))
    case TByte => if p + 1 > |m| then Astray else Got(Byte(m[p]), p + 1)
    case TString => (match SeeText(m, p) case Astray => Astray case Got(s, end) => Got(Text(s), end))
    case TLongs => (match SeeLongs(m, p) case Astray => Astray case Got(xs, end) => Got(Longs(xs), end))
  }

  /** The record after the first k of the stored field indexes, the pointer having started at p. */
  function SeeUpTo(m: seq<byte>, types: seq<FieldType>, indexes: seq<nat>, p: nat, k: nat): (r: Seen<Record>)
    requires k <= |indexes|
    ensures r.Got? ==> |r.value| == |types|
  {
    if k == 0 then Got(seq(|types|, _ => None), p)
    else
      match SeeUpTo(m, types, indexes, p, k - 1)
      case Astray => Astray
      case Got(rec, q) =>
        var i := indexes[k - 1];
        if i >= |types| then Astray
        else
          match SeeField(m, q, types[i])
          case Astray => Astray
          case Got(v, end) => Got(rec[i := Some(v)], end)
  }

  /** `read_ram_file`: a record and where the pointer is left. */
  function SeeRecord(m: seq<byte>, types: seq<FieldType>, offset: nat): (r: Seen<Record>)
    ensures r.Got? ==> |r.value| == |types|
  {
    if offset + 1 > |m| || offset + 1 + m[offset] > |m| then Astray
    else
      var count := m[offset];
      SeeUpTo(m, types, m[offset + 1..offset + 1 + count], offset + 1 + count, count)
  }

  /** The records from p on, following their links, at most `rounds` of them. */
  function SeeList(m: seq<byte>, types: seq<FieldType>, p: nat, rounds: nat): Option<seq<Record>>
    decreases rounds
  {
    if rounds == 0 then None
    else
      match SeeRecord(m, types, p)
      case Astray => None
      case Got(rec, end) =>
        if end + 8 > |m| then None
        else if Word(m, end, 8) == 0 then Some([rec])
        else Prefixed([rec], SeeList(m, types, Word(m, end, 8), rounds - 1))
  }

  // ----- one field, as read_file reads it -----

  /** A moved string's offset is more than its length, and as many bytes follow its buffer's size. */
  predicate InReach(c: Cell, size: nat)
    requires c.TextCell?
  {
    c.loc > 0 ==> |c.ovf.s| < c.loc && 2 * c.loc + 8 <= size
  }

  predicate Readable(c: Cell, size: nat)
    requires CellWF(c)
  {
    !CellValue(c).Byte? && (c.TextCell? ==> InReach(c, size))
  }

  /** n bytes from where a buffer starts hold its string if and only if they reach its end. */
  lemma {:induction false} BufferStart(b: seq<byte>, p: nat, u: Buf, n: nat)
    requires BufWF(u) && At(b, p, BufBytes(u)) && p + n <= |b|
    ensures 0 in b[p..p + n] <==> |u.s| < n
    ensures |u.s| < n ==> CStr(b[p..p + n]) == u.s
  {
    var data, all := b[p..p + n], BufBytes(u);
    forall i | 0 <= i <= |u.s| && i < n ensures data[i] == all[i] {
      assert b[p..p + |all|][i] == all[i];
    }
    if |u.s| < n {
      assert data[..|u.s|] == u.s;
      CStrPrefix(data, u.s);
    }
  }

  lemma {:induction false} TextAgrees(m: seq<byte>, p: nat, c: Cell)
    requires CellWF(c) && c.TextCell? && CellOK(m, p, c)
    ensures InReach(c, |m|) ==> SeeText(m, p) == Got(TextUpdate.Current(c).s, p + CellSize(c))
    ensures !InReach(c, |m|) ==> SeeText(m, p) == Astray
  {
    hide *;
    TextParts(m, p, c);
    var loc, size := c.loc, c.inl.size;
    Int64Is(m, p, loc);
    WordIs(m, p + 8, 8, size);
    if loc == 0 {
      BufferStart(m, p + 16, c.inl, size);
    } else if loc + 8 + loc <= |m| {
      BufferStart(m, loc + 8, c.ovf, loc);
    }
    SeeTextIs(m, p, loc, size);
  }

  lemma {:induction false} TextParts(m: seq<byte>, p: nat, c: Cell)
    requires CellWF(c) && c.TextCell? && CellOK(m, p, c)
    ensures BufWF(c.inl) && c.loc < 0x8000_0000_0000_0000 && Unsigned64(c.loc) == c.loc
    ensures At(m, p, BE(8, c.loc)) && At(m, p, BE64(Unsigned64(c.loc)))
    ensures c.inl.size < Pow256(8) && At(m, p + 8, BE(8, c.inl.size))
    ensures c.loc == 0 ==> |c.inl.s| < c.inl.size && At(m, p + 16, BufBytes(c.inl))
    ensures c.loc > 0 ==> BufWF(c.ovf) && At(m, c.loc + 8, BufBytes(c.ovf))
    ensures p + 16 + c.inl.size <= |m| && CellSize(c) == 16 + c.inl.size
    ensures TextUpdate.Current(c) == if c.loc > 0 then c.ovf else c.inl
    ensures InReach(c, |m|) <==> (c.loc > 0 ==> |c.ovf.s| < c.loc && 2 * c.loc + 8 <= |m|)
  {
    CellInside(m, p, c);
    Widths();
    hide At, BufBytes;
  }

  lemma {:induction false} SeeTextIs(m: seq<byte>, p: nat, loc: nat, size: nat)
    requires p + 16 + size <= |m| && Int64(m, p) == loc && Word(m, p + 8, 8) == size
    ensures var from := if loc > 0 then loc + 8 else p + 16; var n := if loc > 0 then loc else size;
            SeeText(m, p) == if from + n > |m| || 0 !in m[from..from + n] then Astray
                             else Got(CStr(m[from..from + n]), p + 16 + size)
  {
    hide Int64, Word, CStr;
  }

  lemma {:induction false} WordsAgree(m: seq<byte>, p: nat, xs: seq<i64>)
    requires At(m, p, Words(xs))
    ensures p + 8 * |xs| <= |m| && SeeWords(m, p, |xs|) == xs
  {
    forall i | 0 <= i < |xs| ensures Int64(m, p + 8 * i) == xs[i] {
      LongsBlock.WordAt(m, p, xs, i);
      Int64Is(m, p + 8 * i, xs[i]);
    }
  }

  lemma {:induction false} BlockAgrees(m: seq<byte>, k: Block, next: nat)
    requires BlockOK(m, k, next) && LongsBlock.CountsFit(k) && next <= OFF_MAX
    ensures SeeBlock(m, k.at) == Got(Piece(k.xs, next), k.at + BlockSize(k))
  {
    hide *;
    BlockParts(m, k, next);
    Count(m, k.at, |k.xs|);
    Count(m, k.at + 4, |k.pad|);
    WordsAgree(m, k.at + 8, k.xs);
    Link(m, k.at + 8 + 8 * |k.xs| + 8 * |k.pad|, next);
    SeeBlockIs(m, k.at, |k.xs|, |k.pad|);
  }

  lemma {:induction false} Count(m: seq<byte>, p: nat, n: nat)
    requires At(m, p, BE32(n)) && n < 0x8000_0000
    ensures p + 4 <= |m| && Int32(m, p) == n
  {
    Int32Is(m, p, n);
  }

  lemma {:induction false} Link(m: seq<byte>, p: nat, n: nat)
    requires At(m, p, BE64(n)) && n < 0x8000_0000_0000_0000
    ensures p + 8 <= |m| && Int64(m, p) == n
  {
    Int64Is(m, p, n);
  }

  lemma {:induction false} SeeBlockIs(m: seq<byte>, p: nat, n: nat, pad: nat)
    requires p + 8 + 8 * n + 8 * pad + 8 <= |m| && Int32(m, p) == n && Int32(m, p + 4) == pad
    ensures SeeBlock(m, p) ==
              Got(Piece(SeeWords(m, p + 8, n), Int64(m, p + 8 + 8 * n + 8 * pad)), p + 16 + 8 * n + 8 * pad)
  {
    hide Int32, Int64, SeeWords;
  }

  /** From block j on the chain is seen as it is, in as many rounds as it has blocks. */
  lemma {:induction false} ChainAgrees(m: seq<byte>, blocks: seq<Block>, j: nat, rounds: nat)
    requires BlocksWF(blocks) && BlocksOK(m, blocks) && j < |blocks| && |blocks| - j <= rounds
    ensures var r := SeeChain(m, blocks[j].at, rounds);
            r.Some? && Elements(blocks, |blocks|) == Elements(blocks, j) + r.value
    decreases |blocks| - j
  {
    hide *;
    ChainNext(m, blocks, j);
    BlockAgrees(m, blocks[j], Next(blocks, j));
    SeeChainIs(m, blocks[j].at, rounds, blocks[j].xs, Next(blocks, j), blocks[j].at + BlockSize(blocks[j]));
    if j + 1 < |blocks| {
      ChainAgrees(m, blocks, j + 1, rounds - 1);
      var rest := SeeChain(m, blocks[j + 1].at, rounds - 1).value;
      assert Elements(blocks, j) + blocks[j].xs + rest == Elements(blocks, j) + (blocks[j].xs + rest);
    }
  }

  lemma {:induction false} SeeChainIs(m: seq<byte>, p: nat, rounds: nat, xs: seq<i64>, link: nat, end: nat)
    requires rounds > 0 && SeeBlock(m, p) == Got(Piece(xs, link), end)
    ensures link == 0 ==> SeeChain(m, p, rounds) == Some(xs)
    ensures link > 0 ==>
              var r := SeeChain(m, link, rounds - 1);
              SeeChain(m, p, rounds) == if r.Some? then Some(xs + r.value) else None
  {
    hide SeeBlock;
  }

  // ----- blocks that no writer leaves -----

  /** A count or padding that is not positive counts for none; a link that is not positive ends the chain. */
  lemma {:induction false} NoElements(m: seq<byte>, p: nat)
    requires p + 16 <= |m| && Int32(m, p) <= 0 && Int32(m, p + 4) <= 0
    ensures SeeBlock(m, p) == Got(Piece([], Int64(m, p + 8)), p + 16)
    ensures Int64(m, p + 8) <= 0 ==> SeeLongs(m, p) == Got([], p + 16)
  {
    hide Int32, Int64;
    assert SeeWords(m, p + 8, 0) == [];
  }

  /** A chain that comes back to a block is never read to its end. */
  lemma {:induction false} SelfLinked(m: seq<byte>, p: nat, rounds: nat)
    requires p > 0 && SeeBlock(m, p).Got? && SeeBlock(m, p).value.link == p
    ensures SeeChain(m, p, rounds) == None
  {
    hide SeeBlock;
    if rounds > 0 {
      SelfLinked(m, p, rounds - 1);
    }
  }

  // ----- a chain has no more blocks than the memory has bytes -----

  lemma {:induction false} CountInRange(s: set<nat>, n: nat)
    requires forall x :: x in s ==> x < n
    ensures |s| <= n
    decreases n
  {
    if n == 0 {
      assert s == {};
    } else {
      CountInRange(s - {n - 1}, n - 1);
      if n - 1 in s {
        assert s == (s - {n - 1}) + {n - 1};
      } else {
        assert s == s - {n - 1};
      }
    }
  }

  function Places(blocks: seq<Block>): set<nat> {
    set i | 0 <= i < |blocks| :: blocks[i].at
  }

  lemma {:induction false} PlacesCount(blocks: seq<Block>)
    requires BlocksApart(blocks)
    ensures |Places(blocks)| == |blocks|
    decreases |blocks|
  {
    if |blocks| > 0 {
      var last := |blocks| - 1;
      PlacesCount(blocks[..last]);
      assert Places(blocks) == Places(blocks[..last]) + {blocks[last].at};
      forall i | 0 <= i < last ensures blocks[i].at != blocks[last].at {
        assert BlockFoot(blocks[i]) !! BlockFoot(blocks[last]);
        assert blocks[i].at in BlockFoot(blocks[i]);
      }
    }
  }

  lemma {:induction false} BlocksFit(m: seq<byte>, blocks: seq<Block>)
    requires BlocksOK(m, blocks) && BlocksApart(blocks)
    ensures |blocks| <= |m|
  {
    forall x | x in Places(blocks) ensures x < |m| {
      var i :| 0 <= i < |blocks| && blocks[i].at == x;
      assert BlockOK(m, blocks[i], Next(blocks, i));
    }
    PlacesCount(blocks);
    CountInRange(Places(blocks), |m|);
  }

  lemma {:induction false} LongsAgree(m: seq<byte>, p: nat, c: Cell)
    requires CellWF(c) && c.LongsCell? && CellOK(m, p, c) && CellApart(p, c)
    ensures SeeLongs(m, p) == Got(CellValue(c).xs, p + CellSize(c))
  {
    hide *;
    LongsParts(m, p, c);
    BlocksFit(m, c.blocks);
    ChainNext(m, c.blocks, 0);
    ChainAgrees(m, c.blocks, 0, |m|);
    BlockAgrees(m, c.blocks[0], Next(c.blocks, 0));
    var xs := SeeChain(m, p, |m|).value;
    assert [] + xs == xs;
    SeeLongsIs(m, p, xs, c.blocks[0].at + BlockSize(c.blocks[0]));
  }

  lemma {:induction false} LongsParts(m: seq<byte>, p: nat, c: Cell)
    requires CellWF(c) && c.LongsCell? && CellOK(m, p, c) && CellApart(p, c)
    ensures |c.blocks| > 0 && BlocksWF(c.blocks) && BlocksOK(m, c.blocks) && BlocksApart(c.blocks) && c.blocks[0].at == p
    ensures CellValue(c) == Longs(Elements(c.blocks, |c.blocks|)) && CellSize(c) == BlockSize(c.blocks[0])
    ensures Elements(c.blocks, 0) == []
  {
    hide BlockOK, BlocksOK, BlocksApart, BlockSize;
  }

  lemma {:induction false} SeeLongsIs(m: seq<byte>, p: nat, xs: seq<i64>, end: nat)
    requires SeeChain(m, p, |m|) == Some(xs) && SeeBlock(m, p).Got? && SeeBlock(m, p).end == end
    ensures SeeLongs(m, p) == Got(xs, end)
  {
    hide SeeChain, SeeBlock;
  }

  /**
   * One field: the reader in memory gives read_file's value and leaves the pointer where
   * read_file leaves the cursor if and only if the field is no byte and, when it is a moved
   * string, in reach. An unreachable string leads astray, a byte is seen as 0, one byte short.
   */
  lemma {:induction false} FieldAgrees(m: seq<byte>, p: nat, c: Cell)
    requires CellWF(c) && CellOK(m, p, c) && CellApart(p, c)
    ensures SeeField(m, p, CellType(c)) == Got(CellValue(c), p + CellSize(c)) <==> Readable(c, |m|)
    ensures c.TextCell? && !InReach(c, |m|) ==> SeeField(m, p, CellType(c)) == Astray
    ensures CellValue(c).Byte? ==> SeeField(m, p, CellType(c)) == Got(Byte(0), p + 1) && CellSize(c) == 2
  {
    hide *;
    ReadableIs(c, |m|);
    match c
    case TextCell(_, _, _) =>
      TextAgrees(m, p, c);
      SeeTextField(m, p);
    case LongsCell(_) =>
      LongsAgree(m, p, c);
      SeeLongsField(m, p);
    case Plain(v) =>
      PlainParts(m, p, v);
      PlainAgrees(m, p, v);
  }

  lemma {:induction false} ReadableIs(c: Cell, size: nat)
    requires CellWF(c)
    ensures c.TextCell? ==>
              && (Readable(c, size) <==> InReach(c, size))
              && CellType(c) == TString && CellValue(c) == Text(TextUpdate.Current(c).s)
    ensures c.LongsCell? ==> Readable(c, size) && CellType(c) == TLongs && CellValue(c).Longs?
    ensures c.Plain? ==> (Readable(c, size) <==> !c.v.Byte?)
    ensures c.Plain? ==> CellType(c) == TypeOf(c.v) && CellValue(c) == c.v && CellSize(c) == |FixedBytes(c.v)|
  {
    hide InReach, BlocksWF, Elements, FixedBytes;
  }

  lemma {:induction false} SeeTextField(m: seq<byte>, p: nat)
    ensures var r := SeeText(m, p); SeeField(m, p, TString) == if r.Got? then Got(Text(r.value), r.end) else Astray
  {
    hide SeeText;
  }

  lemma {:induction false} SeeLongsField(m: seq<byte>, p: nat)
    ensures var r := SeeLongs(m, p); SeeField(m, p, TLongs) == if r.Got? then Got(Longs(r.value), r.end) else Astray
  {
    hide SeeLongs;
  }

  lemma {:induction false} PlainParts(m: seq<byte>, p: nat, v: Value)
    requires CellWF(Plain(v)) && CellOK(m, p, Plain(v))
    ensures Fixed(v) && At(m, p, FixedBytes(v))
  {
    hide At, FixedBytes;
  }

  lemma {:induction false} PlainAgrees(m: seq<byte>, p: nat, v: Value)
    requires Fixed(v) && At(m, p, FixedBytes(v))
    ensures !v.Byte? ==> SeeField(m, p, TypeOf(v)) == Got(v, p + |FixedBytes(v)|)
    ensures v.Byte? ==> SeeField(m, p, TypeOf(v)) == Got(Byte(0), p + 1) && |FixedBytes(v)| == 2
  {
    match v
    case Int(i) => Int32Is(m, p, i);
    case Long(l) => Int64Is(m, p, l);
    case Float(bits) =>
      Widths();
      WordIs(m, p, 4, bits);
    case Byte(c) =>
      assert BE16(c)[0] == Digit(c, 1) == 0;
      assert m[p..p + 2][0] == BE16(c)[0];
  }
}
