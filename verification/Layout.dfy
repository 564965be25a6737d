// The on-disk shape of a field: which bytes a cell owns and what they say.
//
// A layout is a ghost value. `CellOK(b, p, c)` says that the file `b` holds the
// cell `c` with its inline part at `p`; `CellFoot(p, c)` is the set of offsets
// the cell owns, inline and elsewhere in the file.
module Layout {
  import opened Bytes

  datatype FieldType = TInt | TLong | TFloat | TByte | TString | TLongs

  datatype Value =
    | Int(i: i32)
    | Long(l: i64)
    | Float(bits: u32)
    | Byte(b: byte)
    | Text(s: seq<byte>)
    | Longs(xs: seq<i64>)

  function TypeOf(v: Value): FieldType {
    match v
    case Int(_) => TInt
    case Long(_) => TLong
    case Float(_) => TFloat
    case Byte(_) => TByte
    case Text(_) => TString
    case Longs(_) => TLongs
  }

  /** A buffer of `size` bytes holding the string `s` and then only zeros. */
  datatype Buf = Buf(s: seq<byte>, size: nat)

  /** One block of an array: [live count][padding count][live][padding][next]. */
  datatype Block = Block(at: nat, xs: seq<i64>, pad: seq<i64>)

  datatype Cell =
    | Plain(v: Value)
    | TextCell(inl: Buf, loc: nat, ovf: Buf)  // ovf is in use when loc > 0
    | LongsCell(blocks: seq<Block>)           // blocks[0] is the inline one

  predicate CString(s: seq<byte>) {
    forall i :: 0 <= i < |s| ==> s[i] != 0
  }

  /** The C string at the start of a buffer. */
  function CStr(s: seq<byte>): seq<byte> {
    if |s| == 0 || s[0] == 0 then [] else [s[0]] + CStr(s[1..])
  }

  /** The C string in any stretch of memory that starts with a terminated string. */
  lemma {:induction false} CStrPrefix(data: seq<byte>, s: seq<byte>)
    requires |s| < |data| && data[..|s|] == s && data[|s|] == 0 && CString(s)
    ensures CStr(data) == s && 0 in data
    decreases |s|
  {
    if |s| > 0 {
      assert data[0] == data[..|s|][0];
      assert data[1..][..|s| - 1] == s[1..];
      CStrPrefix(data[1..], s[1..]);
    }
  }

  predicate BufWF(u: Buf) {
    |u.s| < u.size <= OFF_MAX && CString(u.s)
  }

  function BufBytes(u: Buf): (r: seq<byte>)
    requires |u.s| < u.size
    ensures |r| == u.size
  {
    u.s + Zeros(u.size - |u.s|)
  }

  lemma {:induction false} CStrOfBuf(s: seq<byte>, size: nat)
    requires |s| < size && CString(s)
    ensures CStr(BufBytes(Buf(s, size))) == s
    decreases |s|
  {
    var r := BufBytes(Buf(s, size));
    if |s| > 0 {
      assert r[1..] == BufBytes(Buf(s[1..], size - 1));
      CStrOfBuf(s[1..], size - 1);
    }
  }

  /** The array elements as big-endian words. */
  function Words(xs: seq<i64>): (r: seq<byte>)
    ensures |r| == 8 * |xs|
  {
    if |xs| == 0 then [] else Words(xs[..|xs| - 1]) + BE64(Unsigned64(xs[|xs| - 1]))
  }

  lemma {:induction false} WordsConcat(xs: seq<i64>, ys: seq<i64>)
    ensures Words(xs + ys) == Words(xs) + Words(ys)
  {
    if |ys| == 0 {
      assert xs + ys == xs;
    } else {
      var last := |ys| - 1;
      assert (xs + ys)[..|xs + ys| - 1] == xs + ys[..last];
      WordsConcat(xs, ys[..last]);
    }
  }

  // ----- fixed-size cells -----

  predicate Fixed(v: Value) {
    v.Int? || v.Long? || v.Float? || v.Byte?
  }

  function FixedBytes(v: Value): seq<byte>
    requires Fixed(v)
  {
    match v
    case Int(i) => BE32(Unsigned32(i))
    case Long(l) => BE64(Unsigned64(l))
    case Float(bits) => BE32(bits)
    case Byte(c) => BE16(c)
  }

  // ----- array blocks -----

  function BlockSize(k: Block): nat {
    16 + 8 * (|k.xs| + |k.pad|)
  }

  ghost function BlockFoot(k: Block): set<nat> {
    Range(k.at, k.at + BlockSize(k))
  }

  /** Offset of the slot that links block k to the next one. */
  function NextSlot(k: Block): nat {
    k.at + 8 + 8 * (|k.xs| + |k.pad|)
  }

  ghost predicate BlockOK(b: seq<byte>, k: Block, next: nat) {
    && At(b, k.at, BE32(|k.xs|))
    && At(b, k.at + 4, BE32(|k.pad|))
    && At(b, k.at + 8, Words(k.xs + k.pad))
    && At(b, NextSlot(k), BE64(next))
  }

  lemma {:induction false} BlockFrame(b: seq<byte>, b': seq<byte>, k: Block, next: nat, touched: set<nat>)
    requires BlockOK(b, k, next) && Frame(b, b', touched) && BlockFoot(k) !! touched
    ensures BlockOK(b', k, next)
  {
    assert forall i: nat :: k.at <= i < k.at + BlockSize(k) ==> i in BlockFoot(k);
    AtFrame(b, b', k.at, BE32(|k.xs|), touched);
    AtFrame(b, b', k.at + 4, BE32(|k.pad|), touched);
    AtFrame(b, b', k.at + 8, Words(k.xs + k.pad), touched);
    AtFrame(b, b', NextSlot(k), BE64(next), touched);
  }

  lemma {:induction false} BlockBeside(b: seq<byte>, b': seq<byte>, k: Block, next: nat, lo: nat, hi: nat)
    requires BlockOK(b, k, next) && Same(b, b', lo, hi)
    requires k.at + BlockSize(k) <= lo || hi <= k.at
    ensures BlockOK(b', k, next)
  {
    AtBeside(b, b', k.at, BE32(|k.xs|), lo, hi);
    AtBeside(b, b', k.at + 4, BE32(|k.pad|), lo, hi);
    AtBeside(b, b', k.at + 8, Words(k.xs + k.pad), lo, hi);
    AtBeside(b, b', NextSlot(k), BE64(next), lo, hi);
  }

  function Next(blocks: seq<Block>, j: nat): nat
    requires j < |blocks|
  {
    if j + 1 < |blocks| then blocks[j + 1].at else 0
  }

  ghost predicate BlocksOK(b: seq<byte>, blocks: seq<Block>) {
    forall j :: 0 <= j < |blocks| ==> BlockOK(b, blocks[j], Next(blocks, j))
  }

  ghost predicate BlocksApart(blocks: seq<Block>) {
    forall i, j :: 0 <= i < j < |blocks| ==> BlockFoot(blocks[i]) !! BlockFoot(blocks[j])
  }

  ghost function BlocksFoot(blocks: seq<Block>): (s: set<nat>)
    ensures forall j :: 0 <= j < |blocks| ==> BlockFoot(blocks[j]) <= s
  {
    if |blocks| == 0 then {} else BlocksFoot(blocks[..|blocks| - 1]) + BlockFoot(blocks[|blocks| - 1])
  }

  lemma {:induction false} BlocksFootWithin(blocks: seq<Block>, s: set<nat>)
    requires forall j :: 0 <= j < |blocks| ==> BlockFoot(blocks[j]) <= s
    ensures BlocksFoot(blocks) <= s
  {
    if |blocks| > 0 {
      BlocksFootWithin(blocks[..|blocks| - 1], s);
    }
  }

  lemma {:induction false} BlocksFrame(b: seq<byte>, b': seq<byte>, blocks: seq<Block>, touched: set<nat>)
    requires BlocksOK(b, blocks) && Frame(b, b', touched) && BlocksFoot(blocks) !! touched
    ensures BlocksOK(b', blocks)
  {
    forall j | 0 <= j < |blocks| ensures BlockOK(b', blocks[j], Next(blocks, j)) {
      BlockFrame(b, b', blocks[j], Next(blocks, j), touched);
    }
  }

  /** How many elements the first j blocks hold. */
  function Live(blocks: seq<Block>, j: nat): nat
    requires j <= |blocks|
  {
    if j == 0 then 0 else Live(blocks, j - 1) + |blocks[j - 1].xs|
  }

  function Total(blocks: seq<Block>): nat {
    Live(blocks, |blocks|)
  }

  /** The elements of the first j blocks, in chain order. */
  function Elements(blocks: seq<Block>, j: nat): (xs: seq<i64>)
    requires j <= |blocks|
    ensures |xs| == Live(blocks, j)
  {
    if j == 0 then [] else Elements(blocks, j - 1) + blocks[j - 1].xs
  }

  lemma {:induction false} LiveMonotone(blocks: seq<Block>, i: nat, j: nat)
    requires i <= j <= |blocks|
    ensures Live(blocks, i) <= Live(blocks, j)
    decreases j
  {
    if i < j {
      LiveMonotone(blocks, i, j - 1);
    }
  }

  /** What a reader needs of a chain: offsets and counts fit their C types. */
  predicate BlocksWF(blocks: seq<Block>) {
    && |blocks| > 0
    && (forall j :: 0 < j < |blocks| ==> 0 < blocks[j].at <= OFF_MAX)
    && (forall j :: 0 <= j < |blocks| ==> |blocks[j].xs| + |blocks[j].pad| < 0x8000_0000)
    && Total(blocks) < 0x8000_0000
  }

  /** Only the head has padding, and no later block is empty. */
  predicate Tidy(blocks: seq<Block>) {
    forall j :: 0 < j < |blocks| ==> |blocks[j].xs| > 0 && |blocks[j].pad| == 0
  }

  // ----- cells -----

  predicate CellWF(c: Cell) {
    match c
    case Plain(v) => Fixed(v)
    case TextCell(inl, loc, ovf) => BufWF(inl) && loc <= OFF_MAX && (loc > 0 ==> BufWF(ovf))
    case LongsCell(blocks) => BlocksWF(blocks)
  }

  /** Length of the inline part. */
  function CellSize(c: Cell): nat
    requires CellWF(c)
  {
    match c
    case Plain(v) => |FixedBytes(v)|
    case TextCell(inl, _, _) => 16 + inl.size
    case LongsCell(blocks) => BlockSize(blocks[0])
  }

  ghost predicate CellOK(b: seq<byte>, p: nat, c: Cell)
    requires CellWF(c)
  {
    match c
    case Plain(v) => At(b, p, FixedBytes(v))
    case TextCell(inl, loc, ovf) =>
      && At(b, p, BE64(loc))
      && At(b, p + 8, BE64(inl.size))
      && At(b, p + 16, BufBytes(inl))
      && (loc > 0 ==> At(b, loc, BE64(ovf.size)) && At(b, loc + 8, BufBytes(ovf)))
    case LongsCell(blocks) => blocks[0].at == p && BlocksOK(b, blocks)
  }

  ghost function CellFoot(p: nat, c: Cell): set<nat>
    requires CellWF(c)
  {
    match c
    case Plain(v) => Range(p, p + |FixedBytes(v)|)
    case TextCell(inl, loc, ovf) =>
      Range(p, p + 16 + inl.size) + if loc > 0 then Range(loc, loc + 8 + ovf.size) else {}
    case LongsCell(blocks) => BlocksFoot(blocks)
  }

  /** The parts of one cell do not overlap each other. */
  ghost predicate CellApart(p: nat, c: Cell)
    requires CellWF(c)
  {
    match c
    case Plain(_) => true
    case TextCell(inl, loc, ovf) =>
      loc > 0 ==> Range(p, p + 16 + inl.size) !! Range(loc, loc + 8 + ovf.size)
    case LongsCell(blocks) => BlocksApart(blocks)
  }

  /** The value a reader of the cell obtains. */
  function CellValue(c: Cell): Value
    requires CellWF(c)
  {
    match c
    case Plain(v) => v
    case TextCell(inl, loc, ovf) => Text(if loc == 0 then inl.s else ovf.s)
    case LongsCell(blocks) => Longs(Elements(blocks, |blocks|))
  }

  lemma {:induction false} CellFrame(b: seq<byte>, b': seq<byte>, p: nat, c: Cell, touched: set<nat>)
    requires CellWF(c) && CellOK(b, p, c) && Frame(b, b', touched) && CellFoot(p, c) !! touched
    ensures CellOK(b', p, c)
  {
    assert forall i: nat :: p <= i < p + CellSize(c) ==> c.LongsCell? || i in CellFoot(p, c);
    match c
    case Plain(v) =>
      AtFrame(b, b', p, FixedBytes(v), touched);
    case TextCell(inl, loc, ovf) =>
      AtFrame(b, b', p, BE64(loc), touched);
      AtFrame(b, b', p + 8, BE64(inl.size), touched);
      AtFrame(b, b', p + 16, BufBytes(inl), touched);
      if loc > 0 {
        AtFrame(b, b', loc, BE64(ovf.size), touched);
        AtFrame(b, b', loc + 8, BufBytes(ovf), touched);
      }
    case LongsCell(blocks) =>
      BlocksFrame(b, b', blocks, touched);
  }

  /** Everything a cell owns lies inside the file. */
  lemma {:induction false} CellInside(b: seq<byte>, p: nat, c: Cell)
    requires CellWF(c) && CellOK(b, p, c)
    ensures CellFoot(p, c) <= Range(0, |b|)
    ensures p + CellSize(c) <= |b|
  {
    if c.LongsCell? {
      assert BlockOK(b, c.blocks[0], Next(c.blocks, 0));
      forall j | 0 <= j < |c.blocks| ensures BlockFoot(c.blocks[j]) <= Range(0, |b|) {
        assert BlockOK(b, c.blocks[j], Next(c.blocks, j));
      }
      BlocksFootWithin(c.blocks, Range(0, |b|));
    }
  }
}
