// Overwriting one block [count][padding][elements][next] of an array of longs.
module LongsBlock {
  import opened Bytes
  import opened ByteFile
  import opened Layout

  /** Block k with its live elements replaced by as many elements of ys, from `step` on. */
  function Filled(k: Block, ys: seq<i64>, step: nat): Block
    requires step + |k.xs| <= |ys|
  {
    k.(xs := ys[step..step + |k.xs|])
  }

  /** The words ws with zs written over them from index i. */
  function Patched(ws: seq<i64>, i: nat, zs: seq<i64>): (r: seq<i64>)
    requires i + |zs| <= |ws|
    ensures |r| == |ws|
  {
    ws[..i] + zs + ws[i + |zs|..]
  }

  /** The words ws of block k, of which the first n are live. */
  function Split(k: Block, ws: seq<i64>, n: nat): Block
    requires n <= |ws|
  {
    Block(k.at, ws[..n], ws[n..])
  }

  /** The live and the padding words of a block. */
  function All(k: Block): seq<i64> {
    k.xs + k.pad
  }

  predicate CountsFit(k: Block) {
    |k.xs| + |k.pad| < 0x8000_0000
  }

  /**
   * What is left when the rewrite stops at a block larger than the whole new array
   * after `step` elements were already placed: the count becomes |ys|, and the
   * terminating zero lands `step` words short of the link.
   */
  function Overrun(k: Block, ys: seq<i64>, step: nat): Block
    requires 0 < step <= |ys| < |k.xs|
  {
    var n := Split(k, Patched(All(k), 0, ys[step..]), |ys|);
    Split(n, Patched(All(n), |k.xs| - step, [0]), |n.xs|)
  }

  /** The block where the new array ends, when that array is longer than the block. */
  function Ended(k: Block, ys: seq<i64>, step: nat): Block
    requires |k.xs| < |ys| <= step + |k.xs| && step <= |ys|
  {
    var left := |ys| - step;
    var n := Split(k, Patched(All(k), 0, ys[step..]), left);
    if left == |k.xs| then Filled(k, ys, step)
    else if step >= |k.xs| then Split(n, Patched(All(n), left, [0]), left)
    else n
  }

  /** Block k with the first elements replaced by the end of ys, its count unchanged. */
  function Partly(k: Block, ys: seq<i64>, step: nat): Block
    requires step <= |ys| <= step + |k.xs|
  {
    k.(xs := Patched(k.xs, 0, ys[step..]))
  }

  /** An offset as an element that is a link. */
  function LinkWord(at: nat): i64 {
    if at <= OFF_MAX then at else 0
  }

  /** Block k with the first elements replaced by the end of ys, and the next one by an offset. */
  function Rewired(k: Block, ys: seq<i64>, step: nat, at: nat): Block
    requires step <= |ys| < step + |k.xs|
  {
    k.(xs := Patched(k.xs, 0, ys[step..])[|ys| - step := LinkWord(at)])
  }

  /** Two runs of words in a row. */
  lemma {:induction false} WordRuns(b: seq<byte>, p: nat, xs: seq<i64>, q: nat, ys: seq<i64>)
    requires q == p + 8 * |xs|
    ensures At(b, p, Words(xs + ys)) <==> At(b, p, Words(xs)) && At(b, q, Words(ys))
  {
    WordsConcat(xs, ys);
    AtConcat(b, p, Words(xs), Words(ys));
  }

  lemma {:induction false} WordAt(b: seq<byte>, p: nat, xs: seq<i64>, i: nat)
    requires i < |xs| && At(b, p, Words(xs))
    ensures At(b, p + 8 * i, BE64(Unsigned64(xs[i])))
  {
    assert xs == xs[..i + 1] + xs[i + 1..];
    WordRuns(b, p, xs[..i + 1], p + 8 * (i + 1), xs[i + 1..]);
    assert xs[..i + 1][..i] == xs[..i];
    AtConcat(b, p, Words(xs[..i]), BE64(Unsigned64(xs[i])));
  }

  lemma {:induction false} PatchWords(b: seq<byte>, b': seq<byte>, p: nat, ws: seq<i64>, i: nat, zs: seq<i64>,
                                      lo: nat, hi: nat)
    requires i + |zs| <= |ws| && lo == p + 8 * i && hi == lo + 8 * |zs|
    requires At(b, p, Words(ws)) && At(b', lo, Words(zs)) && Same(b, b', lo, hi)
    ensures At(b', p, Words(Patched(ws, i, zs)))
  {
    var x, z := ws[..i], ws[i + |zs|..];
    OuterRuns(b, p, ws, i, |zs|, hi);
    AtBeside(b, b', p, Words(x), lo, hi);
    AtBeside(b, b', hi, Words(z), lo, hi);
    WordRuns(b', p, x, lo, zs);
    WordRuns(b', p, x + zs, hi, z);
  }

  lemma {:induction false} OuterRuns(b: seq<byte>, p: nat, ws: seq<i64>, i: nat, n: nat, hi: nat)
    requires i + n <= |ws| && hi == p + 8 * i + 8 * n && At(b, p, Words(ws))
    ensures At(b, p, Words(ws[..i])) && At(b, hi, Words(ws[i + n..]))
  {
    hide *;
    var x, y, z := ws[..i], ws[i..i + n], ws[i + n..];
    assert ws == x + (y + z);
    WordRuns(b, p, x, p + 8 * i, y + z);
    WordRuns(b, p + 8 * i, y, hi, z);
  }

  /** The element loops: one write(2) per element of ys[from..to]. */
  method PutWords(f: File, ys: seq<i64>, from: nat, to: nat)
    requires from <= to <= |ys| && f.pos <= |f.bytes|
    modifies f
    ensures f.pos == old(f.pos) + 8 * (to - from)
    ensures At(f.bytes, old(f.pos), Words(ys[from..to]))
    ensures Same(old(f.bytes), f.bytes, old(f.pos), f.pos)
    ensures |f.bytes| == if f.pos <= |old(f.bytes)| then |old(f.bytes)| else f.pos
  {
    hide *;
    ghost var p, b := f.pos, f.bytes;
    NoWords(b, p);
    assert ys[from..from] == [];
    var k := from;
    while k < to
      invariant from <= k <= to && f.pos == p + 8 * (k - from)
      invariant WordsPut(b, f.bytes, p, f.pos, ys[from..k])
    {
      ghost var m, q := f.bytes, f.pos;
      f.Write(BE64(Unsigned64(ys[k])));
      OneWordPut(b, m, f.bytes, p, q, ys[from..k], ys[k]);
      assert ys[from..k + 1] == ys[from..k] + [ys[k]];
      k := k + 1;
    }
  }

  /** The words xs stand in [p, q), nothing else changed, and the file ends at q or where it did. */
  ghost predicate WordsPut(b: seq<byte>, m: seq<byte>, p: nat, q: nat, xs: seq<i64>)
    ensures WordsPut(b, m, p, q, xs) <==>
              q <= |m| && At(m, p, Words(xs)) && Same(b, m, p, q) && |m| == if q <= |b| then |b| else q
  {
    q <= |m| && At(m, p, Words(xs)) && Same(b, m, p, q) && |m| == if q <= |b| then |b| else q
  }

  lemma {:induction false} NoWords(b: seq<byte>, p: nat)
    requires p <= |b|
    ensures WordsPut(b, b, p, p, [])
  {
  }

  lemma {:induction false} OneWordPut(b: seq<byte>, m: seq<byte>, m': seq<byte>, p: nat, q: nat, xs: seq<i64>, x: i64)
    requires p <= |b| && q == p + 8 * |xs| && WordsPut(b, m, p, q, xs)
    requires At(m', q, BE64(Unsigned64(x))) && Same(m, m', q, q + 8) && |m'| == if q + 8 <= |m| then |m| else q + 8
    ensures WordsPut(b, m', p, q + 8, xs + [x])
  {
    hide BE64;
    AtBeside(m, m', p, Words(xs), q, q + 8);
    AtConcat(m', p, Words(xs), BE64(Unsigned64(x)));
    assert (xs + [x])[..|xs|] == xs;
  }

  lemma {:induction false} Recounted(b: seq<byte>, b': seq<byte>, k: Block, next: nat, n: nat)
    requires BlockOK(b, k, next) && n <= |All(k)| && Same(b, b', k.at, k.at + 8)
    requires At(b', k.at, BE32(n)) && At(b', k.at + 4, BE32(|All(k)| - n))
    ensures BlockOK(b', Split(k, All(k), n), next)
  {
    assert All(Split(k, All(k), n)) == All(k);
    AtBeside(b, b', k.at + 8, Words(All(k)), k.at, k.at + 8);
    AtBeside(b, b', NextSlot(k), BE64(next), k.at, k.at + 8);
  }

  /** Rewriting both counters moves the border between live elements and padding. */
  method PutCounts(f: File, n: nat, pad: nat, ghost k: Block, ghost next: nat)
    requires BlockOK(f.bytes, k, next) && f.pos == k.at && n + pad == |All(k)|
    modifies f
    ensures |f.bytes| == |old(f.bytes)| && Same(old(f.bytes), f.bytes, k.at, k.at + 8)
    ensures BlockOK(f.bytes, Split(k, All(k), n), next) && f.pos == k.at + 8
  {
    ghost var b := f.bytes;
    f.Write(BE32(n));
    ghost var m := f.bytes;
    f.Write(BE32(pad));
    AtBeside(m, f.bytes, k.at, BE32(n), k.at + 4, k.at + 8);
    Recounted(b, f.bytes, k, next, n);
  }

  /** Words written over those of block k from index i. */
  lemma {:induction false} PatchedBlock(b: seq<byte>, b': seq<byte>, k: Block, next: nat, i: nat, zs: seq<i64>,
                                        lo: nat, hi: nat)
    requires BlockOK(b, k, next) && i + |zs| <= |All(k)| && lo == k.at + 8 + 8 * i && hi == lo + 8 * |zs|
    requires At(b', lo, Words(zs)) && Same(b, b', lo, hi)
    ensures BlockOK(b', Split(k, Patched(All(k), i, zs), |k.xs|), next)
    ensures k.at + 8 <= lo && hi <= NextSlot(k) && Same(b, b', k.at + 8, NextSlot(k))
  {
    hide Words, BE32, BE64;
    var ws := Patched(All(k), i, zs);
    PatchWords(b, b', k.at + 8, All(k), i, zs, lo, hi);
    assert All(Split(k, ws, |k.xs|)) == ws;
    AtBeside(b, b', k.at, BE32(|k.xs|), lo, hi);
    AtBeside(b, b', k.at + 4, BE32(|k.pad|), lo, hi);
    AtBeside(b, b', NextSlot(k), BE64(next), lo, hi);
  }

  lemma {:induction false} BlockInFile(b: seq<byte>, k: Block, next: nat)
    requires BlockOK(b, k, next)
    ensures NextSlot(k) + 8 <= |b| && NextSlot(k) == k.at + 8 + 8 * |All(k)| && |All(k)| == |k.xs| + |k.pad|
  {
    hide Words, BE32, BE64;
  }

  /** Elements written over the words of block k from index i. */
  method PutInBlock(f: File, ys: seq<i64>, from: nat, to: nat, ghost k: Block, ghost next: nat, ghost i: nat)
    requires BlockOK(f.bytes, k, next) && from <= to <= |ys| && i + (to - from) <= |All(k)|
    requires f.pos == k.at + 8 + 8 * i
    modifies f
    ensures |f.bytes| == |old(f.bytes)| && Same(old(f.bytes), f.bytes, k.at + 8, NextSlot(k))
    ensures BlockOK(f.bytes, Split(k, Patched(All(k), i, ys[from..to]), |k.xs|), next)
    ensures f.pos == old(f.pos) + 8 * (to - from)
  {
    hide *;
    ghost var b, lo := f.bytes, f.pos;
    BlockInFile(b, k, next);
    PutWords(f, ys, from, to);
    PatchedBlock(b, f.bytes, k, next, i, ys[from..to], lo, f.pos);
  }

  /** The link slot of block k overwritten. */
  method PutNext(f: File, next': nat, ghost k: Block, ghost next: nat)
    requires BlockOK(f.bytes, k, next) && f.pos == NextSlot(k)
    modifies f
    ensures |f.bytes| == |old(f.bytes)| && Same(old(f.bytes), f.bytes, NextSlot(k), NextSlot(k) + 8)
    ensures BlockOK(f.bytes, k, next') && f.pos == k.at + BlockSize(k)
  {
    ghost var b, lo := f.bytes, f.pos;
    f.Write(BE64(next'));
    AtBeside(b, f.bytes, k.at, BE32(|k.xs|), lo, f.pos);
    AtBeside(b, f.bytes, k.at + 4, BE32(|k.pad|), lo, f.pos);
    AtBeside(b, f.bytes, k.at + 8, Words(All(k)), lo, f.pos);
  }

  /** A zero written over the word of block k at index i. */
  method PutZeroWord(f: File, ghost k: Block, ghost next: nat, ghost i: nat)
    requires BlockOK(f.bytes, k, next) && i < |All(k)| && f.pos == k.at + 8 + 8 * i
    modifies f
    ensures |f.bytes| == |old(f.bytes)| && Same(old(f.bytes), f.bytes, k.at + 8, NextSlot(k))
    ensures BlockOK(f.bytes, Split(k, Patched(All(k), i, [0]), |k.xs|), next)
    ensures f.pos == old(f.pos) + 8
  {
    hide *;
    ghost var b, lo := f.bytes, f.pos;
    BlockInFile(b, k, next);
    ZeroWord();
    f.Write(BE64(0));
    PatchedBlock(b, f.bytes, k, next, i, [0], lo, f.pos);
  }

  lemma {:induction false} ZeroWord()
    ensures Words([0]) == BE64(0)
  {
    assert [0][..0] == [];
  }

  /** Standing after the count: write a smaller one and raise the padding by the difference. */
  method Shrink(f: File, n: nat, sz: nat, ghost k: Block, ghost next: nat) returns (pad: nat)
    requires BlockOK(f.bytes, k, next) && CountsFit(k) && n <= sz == |k.xs| && f.pos == k.at + 4
    modifies f
    ensures |f.bytes| == |old(f.bytes)| && Same(old(f.bytes), f.bytes, k.at, k.at + 8)
    ensures BlockOK(f.bytes, Split(k, All(k), n), next) && f.pos == k.at + 8 && pad == |All(k)| - n
  {
    hide Words, BE32, BE64;
    f.Seek(f.pos - 4);
    ghost var b := f.bytes;
    f.Write(BE32(n));
    AtBeside(b, f.bytes, k.at + 4, BE32(|k.pad|), k.at, k.at + 4);
    pad := f.Read32();
    pad := pad + (sz - n);
    f.Seek(f.pos - 4);
    ghost var m := f.bytes;
    f.Write(BE32(pad));
    AtBeside(m, f.bytes, k.at, BE32(n), k.at + 4, k.at + 8);
    Recounted(b, f.bytes, k, next, n);
  }

  /**
   * The chain is larger than the new array at this block: write the new count and
   * the new padding, place the elements that are left, skip the padding and end
   * the chain there.
   */
  method FinishSmaller(f: File, ys: seq<i64>, step: nat, sz: nat, ghost k: Block, ghost next: nat)
    requires BlockOK(f.bytes, k, next) && CountsFit(k) && |k.xs| == sz && f.pos == k.at + 4
    requires step <= |ys| < sz
    requires step > 0 ==> |k.pad| == 0
    modifies f
    ensures |f.bytes| == |old(f.bytes)| && Same(old(f.bytes), f.bytes, k.at, k.at + BlockSize(k))
    ensures step == 0 ==> BlockOK(f.bytes, Split(k, Patched(All(k), 0, ys), |ys|), 0)
    ensures step == 0 ==> f.pos == k.at + BlockSize(k)
    ensures step > 0 ==> BlockOK(f.bytes, Overrun(k, ys, step), next)
  {
    hide At, Words;
    ghost var n := Split(k, Patched(All(k), 0, ys[step..]), |ys|);
    PlaceRest(f, ys, step, sz, k, next);
    if step == 0 {
      assert ys[0..] == ys;
      PutNext(f, 0, n, next);
    } else {
      PutZeroWord(f, n, next, sz - step);
    }
  }

  /** FinishSmaller up to the final write. */
  method PlaceRest(f: File, ys: seq<i64>, step: nat, sz: nat, ghost k: Block, ghost next: nat)
    requires BlockOK(f.bytes, k, next) && CountsFit(k) && |k.xs| == sz && f.pos == k.at + 4
    requires step <= |ys| < sz
    modifies f
    ensures |f.bytes| == |old(f.bytes)| && Same(old(f.bytes), f.bytes, k.at, NextSlot(k))
    ensures BlockOK(f.bytes, Split(k, Patched(All(k), 0, ys[step..]), |ys|), next)
    ensures f.pos == NextSlot(k) - 8 * step
  {
    hide *;
    ghost var b := f.bytes;
    BlockInFile(b, k, next);
    SplitIs(k, |ys|, ys[step..]);
    var pad := Shrink(f, |ys|, sz, k, next);
    ghost var m, n := f.bytes, Split(k, All(k), |ys|);
    assert ys[step..|ys|] == ys[step..];
    PutInBlock(f, ys, step, |ys|, n, next, 0);
    SameJoin(b, m, f.bytes, k.at, k.at + 8, k.at + 8, NextSlot(k), k.at, NextSlot(k));
    f.Seek(f.pos + 8 * pad);
  }

  /**
   * The block holds exactly as many elements as the whole new array: place the ones
   * that are left (lowering the count to them), skip the padding and end the chain.
   */
  method FinishEqual(f: File, ys: seq<i64>, step: nat, ghost k: Block, ghost next: nat)
    requires BlockOK(f.bytes, k, next) && CountsFit(k) && |k.xs| == |ys| && f.pos == k.at + 4
    requires step <= |ys|
    requires step > 0 ==> |k.pad| == 0
    modifies f
    ensures |f.bytes| == |old(f.bytes)| && Same(old(f.bytes), f.bytes, k.at, k.at + BlockSize(k))
    ensures BlockOK(f.bytes, Block(k.at, ys[step..], k.pad), 0)
    ensures step == 0 ==> f.pos == k.at + BlockSize(k)
  {
    hide *;
    ghost var b := f.bytes;
    BlockInFile(b, k, next);
    SlotAfter(k, |ys| - step);
    LowerCount(f, |ys| - step, step, k, next);
    var pad := f.Read32();
    ghost var m := f.bytes;
    PutWords(f, ys, step, |ys|);
    assert ys[step..|ys|] == ys[step..];
    ghost var m', q := f.bytes, f.pos;
    SameJoin(b, m, m', k.at, k.at + 4, k.at + 8, q, k.at, k.at + BlockSize(k));
    f.Seek(f.pos + 8 * pad);
    ghost var r := f.pos;
    f.Write(BE64(0));
    SameJoin(b, m', f.bytes, k.at, k.at + BlockSize(k), r, r + 8, k.at, k.at + BlockSize(k));
    EqualDone(m, m', f.bytes, ys[step..], k, q, r);
  }

  /** Where n elements and the padding end, when n is the count or there is no padding. */
  lemma {:induction false} SlotAfter(k: Block, n: nat)
    requires n <= |k.xs|
    ensures k.at + 8 + 8 * n + 8 * |k.pad| <= NextSlot(k)
    ensures n == |k.xs| ==> k.at + 8 + 8 * n + 8 * |k.pad| == NextSlot(k)
    ensures CountsFit(k) ==> |k.pad| < 0x8000_0000
    ensures NextSlot(k) + 8 == k.at + BlockSize(k) && BlockSize(k) >= 16
  {
  }

  /** The count lowered by the elements placed in earlier blocks. */
  method LowerCount(f: File, n: nat, step: nat, ghost k: Block, ghost next: nat)
    requires BlockOK(f.bytes, k, next) && f.pos == k.at + 4 && n + step == |k.xs|
    modifies f
    ensures |f.bytes| == |old(f.bytes)| && Same(old(f.bytes), f.bytes, k.at, k.at + 4) && f.pos == k.at + 4
    ensures At(f.bytes, k.at, BE32(n)) && At(f.bytes, k.at + 4, BE32(|k.pad|)) && At(f.bytes, k.at + 8, Words(All(k)))
    ensures NextSlot(k) + 8 <= |f.bytes|
  {
    hide Words, BE32, BE64;
    if step > 0 {
      ghost var b := f.bytes;
      f.Seek(f.pos - 4);
      f.Write(BE32(n));
      AtBeside(b, f.bytes, k.at + 4, BE32(|k.pad|), k.at, k.at + 4);
      AtBeside(b, f.bytes, k.at + 8, Words(All(k)), k.at, k.at + 4);
    }
  }

  lemma {:induction false} EqualDone(m: seq<byte>, m': seq<byte>, b: seq<byte>, zs: seq<i64>, k: Block, q: nat, r: nat)
    requires |zs| == |k.xs| || (|zs| < |k.xs| && |k.pad| == 0)
    requires At(m, k.at, BE32(|zs|)) && At(m, k.at + 4, BE32(|k.pad|)) && At(m', k.at + 8, Words(zs))
    requires q == k.at + 8 + 8 * |zs| && r == q + 8 * |k.pad|
    requires Same(m, m', k.at + 8, q) && Same(m', b, r, r + 8) && At(b, r, BE64(0))
    requires At(m, k.at + 8, Words(All(k)))
    ensures BlockOK(b, Block(k.at, zs, k.pad), 0)
  {
    hide BE32, BE64, At, Same, Words;
    var n := Block(k.at, zs, k.pad);
    AtBeside(m, m', k.at, BE32(|zs|), k.at + 8, q);
    AtBeside(m, m', k.at + 4, BE32(|k.pad|), k.at + 8, q);
    AtBeside(m', b, k.at, BE32(|zs|), r, r + 8);
    AtBeside(m', b, k.at + 4, BE32(|k.pad|), r, r + 8);
    if |zs| == |k.xs| {
      WordRuns(m, k.at + 8, k.xs, q, k.pad);
      AtBeside(m, m', q, Words(k.pad), k.at + 8, q);
      WordRuns(m', k.at + 8, zs, q, k.pad);
    } else {
      assert All(n) == zs;
    }
    AtBeside(m', b, k.at + 8, Words(All(n)), r, r + 8);
  }

  /** The elements of block k replaced by as many elements of ys. */
  method Fill(f: File, ys: seq<i64>, step: nat, sz: nat, ghost k: Block, ghost next: nat)
    requires BlockOK(f.bytes, k, next) && |k.xs| == sz && step + sz <= |ys| && f.pos == k.at + 8
    modifies f
    ensures |f.bytes| == |old(f.bytes)| && Same(old(f.bytes), f.bytes, k.at + 8, NextSlot(k))
    ensures BlockOK(f.bytes, Filled(k, ys, step), next) && f.pos == k.at + 8 + 8 * sz
  {
    hide *;
    FilledIs(k, ys, step);
    PutInBlock(f, ys, step, step + sz, k, next, 0);
  }

  lemma {:induction false} FilledIs(k: Block, ys: seq<i64>, step: nat)
    requires step + |k.xs| <= |ys|
    ensures |k.xs| <= |All(k)| && Split(k, Patched(All(k), 0, ys[step..step + |k.xs|]), |k.xs|) == Filled(k, ys, step)
    ensures Filled(k, ys, step).at == k.at && |Filled(k, ys, step).xs| == |k.xs| && Filled(k, ys, step).pad == k.pad
    ensures NextSlot(Filled(k, ys, step)) == NextSlot(k) == k.at + 8 + 8 * |k.xs| + 8 * |k.pad|
    ensures BlockSize(Filled(k, ys, step)) == BlockSize(k) == NextSlot(k) + 8 - k.at
  {
    var n := Split(k, Patched(All(k), 0, ys[step..step + |k.xs|]), |k.xs|);
    assert n.xs == ys[step..step + |k.xs|] && n.pad == k.pad;
  }

  /** Is the chain's link, which follows sz elements, empty? */
  method IsLastBlock(f: File, sz: nat, ghost k: Block, ghost next: nat) returns (last: bool)
    requires BlockOK(f.bytes, k, next) && |k.xs| == sz && f.pos == k.at + 8 && next <= OFF_MAX
    modifies f`pos
    ensures f.pos == old(f.pos)
    ensures |k.pad| == 0 ==> (last <==> next == 0)
  {
    var goBackTo := f.pos;
    f.Seek(f.pos + 8 * sz);
    var link := f.Read64();
    f.Seek(goBackTo);
    last := link == 0;
  }

  /** Standing after both counters: lower the count to the elements left and place them. */
  method ShrinkAndPlace(f: File, ys: seq<i64>, step: nat, pad: nat, ghost k: Block, ghost next: nat)
    requires BlockOK(f.bytes, k, next) && f.pos == k.at + 8
    requires step <= |ys| && |ys| - step + pad == |All(k)|
    modifies f
    ensures |f.bytes| == |old(f.bytes)| && Same(old(f.bytes), f.bytes, k.at, NextSlot(k))
    ensures BlockOK(f.bytes, Split(k, Patched(All(k), 0, ys[step..]), |ys| - step), next)
    ensures f.pos == k.at + 8 + 8 * (|ys| - step)
  {
    hide *;
    ghost var b := f.bytes;
    BlockInFile(b, k, next);
    SplitIs(k, |ys| - step, ys[step..]);
    f.Seek(f.pos - 8);
    PutCounts(f, |ys| - step, pad, k, next);
    ghost var m, n := f.bytes, Split(k, All(k), |ys| - step);
    assert ys[step..|ys|] == ys[step..];
    PutInBlock(f, ys, step, |ys|, n, next, 0);
    SameJoin(b, m, f.bytes, k.at, k.at + 8, k.at + 8, NextSlot(k), k.at, NextSlot(k));
  }

  /** A block with another count, and its words patched from the first one on. */
  lemma {:induction false} SplitIs(k: Block, n: nat, zs: seq<i64>)
    requires n <= |All(k)| && |zs| <= |All(k)|
    ensures var m := Split(k, All(k), n);
            && All(m) == All(k) && m.at == k.at && |m.xs| == n && NextSlot(m) == NextSlot(k) >= k.at + 8
            && Split(m, Patched(All(m), 0, zs), |m.xs|) == Split(k, Patched(All(k), 0, zs), n)
  {
    assert All(Split(k, All(k), n)) == All(k);
  }

  lemma {:induction false} PartlyIs(k: Block, ys: seq<i64>, step: nat)
    requires step <= |ys| <= step + |k.xs|
    ensures |ys| - step <= |All(k)| && Split(k, Patched(All(k), 0, ys[step..]), |k.xs|) == Partly(k, ys, step)
    ensures Partly(k, ys, step).at == k.at && |Partly(k, ys, step).xs| == |k.xs| && Partly(k, ys, step).pad == k.pad
    ensures forall i :: |ys| - step <= i < |k.xs| ==> Partly(k, ys, step).xs[i] == k.xs[i]
    ensures NextSlot(k) == k.at + 8 + 8 * |k.xs| + 8 * |k.pad| == k.at + BlockSize(k) - 8
  {
    var n := Split(k, Patched(All(k), 0, ys[step..]), |k.xs|);
    assert n.xs == Patched(k.xs, 0, ys[step..]) && n.pad == k.pad;
  }

  /** The word at element i of a block. */
  lemma {:induction false} ElementAt(b: seq<byte>, k: Block, next: nat, i: nat)
    requires BlockOK(b, k, next) && i < |k.xs|
    ensures At(b, k.at + 8 + 8 * i, BE64(Unsigned64(k.xs[i])))
    ensures k.at + 8 + 8 * i + 8 <= NextSlot(k) < |b|
  {
    WordAt(b, k.at + 8, k.xs + k.pad, i);
  }

  /** An offset stored where the walk stands inside the block. */
  lemma {:induction false} RewiredAt(b: seq<byte>, b': seq<byte>, pos: nat, k: Block, ys: seq<i64>, step: nat, next: nat, at: nat)
    requires Strayed(b, pos, k, ys, step, next) && at <= OFF_MAX
    requires Same(b, b', pos, pos + 8) && At(b', pos, BE64(at))
    ensures BlockOK(b', Rewired(k, ys, step, at), next) && Rewired(k, ys, step, at).at == k.at
    ensures k.at <= pos && pos + 8 <= k.at + BlockSize(k)
  {
    hide *;
    StrayedParts(b, pos, k, ys, step, next);
    PartlyIs(k, ys, step);
    var n := Partly(k, ys, step);
    BlockInFile(b, n, next);
    OneWord(at);
    PatchedBlock(b, b', n, next, |ys| - step, [LinkWord(at)], pos, pos + 8);
    RewiredIs(k, ys, step, at);
  }

  lemma {:induction false} OneWord(at: nat)
    requires at <= OFF_MAX
    ensures Words([LinkWord(at)]) == BE64(at)
  {
    assert [LinkWord(at)][..0] == [];
  }

  lemma {:induction false} StrayedParts(b: seq<byte>, pos: nat, k: Block, ys: seq<i64>, step: nat, next: nat)
    requires Strayed(b, pos, k, ys, step, next)
    ensures step <= |ys| < step + |k.xs| && BlockOK(b, Partly(k, ys, step), next)
    ensures pos == k.at + 8 + 8 * (|ys| - step) && At(b, pos, BE64(Unsigned64(k.xs[|ys| - step])))
  {
    hide BlockOK, Partly, At, BE64;
  }

  lemma {:induction false} RewiredIs(k: Block, ys: seq<i64>, step: nat, at: nat)
    requires step <= |ys| < step + |k.xs|
    ensures var n := Partly(k, ys, step); var i := |ys| - step;
            && i < |All(n)| && |n.xs| == |k.xs|
            && Split(n, Patched(All(n), i, [LinkWord(at)]), |n.xs|) == Rewired(k, ys, step, at)
    ensures Rewired(k, ys, step, at).at == k.at && |Rewired(k, ys, step, at).xs| == |k.xs| && Rewired(k, ys, step, at).pad == k.pad
  {
    var n, i := Partly(k, ys, step), |ys| - step;
    var s := Split(n, Patched(All(n), i, [LinkWord(at)]), |n.xs|);
    assert s.xs == n.xs[i := LinkWord(at)] && s.pad == n.pad;
  }

  /** As many elements of ys as there are, but no more than the sz the block has. */
  method FillUpTo(f: File, ys: seq<i64>, step: nat, sz: nat, ghost k: Block, ghost next: nat) returns (newStep: nat)
    requires BlockOK(f.bytes, k, next) && |k.xs| == sz && step <= |ys| && f.pos == k.at + 8
    modifies f
    ensures |f.bytes| == |old(f.bytes)| && Same(old(f.bytes), f.bytes, k.at + 8, NextSlot(k))
    ensures newStep == (if step + sz <= |ys| then step + sz else |ys|) && f.pos == k.at + 8 + 8 * (newStep - step)
    ensures step + sz <= |ys| ==> BlockOK(f.bytes, Filled(k, ys, step), next)
    ensures |ys| < step + sz ==> BlockOK(f.bytes, Partly(k, ys, step), next)
  {
    hide *;
    if step + sz <= |ys| {
      FilledIs(k, ys, step);
      newStep := step + sz;
    } else {
      PartlyIs(k, ys, step);
      newStep := |ys|;
      assert ys[step..|ys|] == ys[step..];
    }
    PutInBlock(f, ys, step, newStep, k, next, 0);
  }

  /** The walk stands inside block k, at the first of its elements that the new array did not replace. */
  ghost predicate Strayed(b: seq<byte>, pos: nat, k: Block, ys: seq<i64>, step: nat, next: nat) {
    && step <= |ys| < step + |k.xs|
    && BlockOK(b, Partly(k, ys, step), next)
    && pos == k.at + 8 + 8 * (|ys| - step) < NextSlot(k)
    && At(b, pos, BE64(Unsigned64(k.xs[|ys| - step])))
  }

  lemma {:induction false} StraysAt(b: seq<byte>, k: Block, ys: seq<i64>, step: nat, next: nat)
    requires step <= |ys| < step + |k.xs| && BlockOK(b, Partly(k, ys, step), next)
    ensures Strayed(b, k.at + 8 + 8 * (|ys| - step), k, ys, step, next)
  {
    hide BlockOK, Partly, At, BE64;
    PartlyIs(k, ys, step);
    ElementAt(b, Partly(k, ys, step), next, |ys| - step);
  }

  /**
   * A block at which at least sz elements are already placed. If the new array ends inside it
   * and it is not the last one, its count stays, and the word at the cursor, which is read for
   * the link, is the first old element that is left.
   */
  method RewritePassed(f: File, ys: seq<i64>, step: nat, sz: nat, padding: nat, ghost k: Block, ghost next: nat)
    returns (exit: bool, newStep: nat)
    requires BlockOK(f.bytes, k, next) && next <= OFF_MAX && f.pos == k.at + 8
    requires sz == |k.xs| < |ys| && padding == |k.pad| && sz <= step <= |ys|
    requires step > 0 ==> |k.pad| == 0
    modifies f
    ensures |f.bytes| == |old(f.bytes)| && Same(old(f.bytes), f.bytes, k.at, k.at + BlockSize(k))
    ensures exit <==> |ys| <= step + sz && next == 0
    ensures exit ==> BlockOK(f.bytes, Ended(k, ys, step), 0)
    ensures !exit ==> newStep == (if step + sz <= |ys| then step + sz else |ys|)
    ensures !exit && step + sz <= |ys| ==> BlockOK(f.bytes, Filled(k, ys, step), next) && f.pos == k.at + 8 + 8 * sz
    ensures !exit && |ys| < step + sz ==> Strayed(f.bytes, f.pos, k, ys, step, next)
  {
    hide At, Words, BE32, BE64, Patched;
    exit := false;
    newStep := step;
    var last := IsLastBlock(f, sz, k, next);
    if |ys| < sz + step && last {
      exit := true;
      ShrinkAndPlace(f, ys, step, padding + (sz - (|ys| - step)), k, next);
      PutZeroWord(f, Split(k, Patched(All(k), 0, ys[step..]), |ys| - step), next, |ys| - step);
    } else {
      exit := |ys| == sz + step && last;
      newStep := FillUpTo(f, ys, step, sz, k, next);
      if exit {
        PutNext(f, 0, Filled(k, ys, step), next);
      } else if |ys| < sz + step {
        StraysAt(f.bytes, k, ys, step, next);
      }
    }
  }

  /** A block at which fewer than sz elements are already placed. */
  method RewriteAhead(f: File, ys: seq<i64>, step: nat, sz: nat, padding: nat, ghost k: Block, ghost next: nat)
    returns (exit: bool, newStep: nat)
    requires BlockOK(f.bytes, k, next) && f.pos == k.at + 8
    requires step < sz == |k.xs| < |ys| && padding == |k.pad|
    modifies f
    ensures |f.bytes| == |old(f.bytes)| && Same(old(f.bytes), f.bytes, k.at, k.at + BlockSize(k))
    ensures exit <==> |ys| <= step + sz
    ensures exit ==> BlockOK(f.bytes, Ended(k, ys, step), 0)
    ensures !exit ==> BlockOK(f.bytes, Filled(k, ys, step), next)
    ensures !exit ==> f.pos == k.at + 8 + 8 * sz && newStep == step + sz
  {
    hide At, Words, BE32, BE64, Patched;
    exit := false;
    var pad := padding;
    ghost var n := k;
    if step > 0 && step + sz > |ys| {
      pad := pad + (sz - (|ys| - step));
      ShrinkAndPlace(f, ys, step, pad, k, next);
      newStep := |ys|;
      n := Split(k, Patched(All(k), 0, ys[step..]), |ys| - step);
    } else {
      Fill(f, ys, step, sz, k, next);
      newStep := step + sz;
      n := Filled(k, ys, step);
    }
    exit := newStep == |ys|;
    if exit {
      f.Seek(f.pos + 8 * pad);
      PutNext(f, 0, n, next);
    }
  }

  /** A new block at the end of the file takes the rest of ys, and the word at goBack its offset. */
  method Append(f: File, ys: seq<i64>, step: nat, goBack: nat)
    requires goBack + 8 <= |f.bytes| && step <= |ys|
    modifies f
    ensures |f.bytes| == |old(f.bytes)| + 16 + 8 * (|ys| - step)
    ensures Same(old(f.bytes), f.bytes, goBack, goBack + 8) && At(f.bytes, goBack, BE64(|old(f.bytes)|))
    ensures BlockOK(f.bytes, Block(|old(f.bytes)|, ys[step..], []), 0)
  {
    hide *;
    ghost var b := f.bytes;
    var at := f.SeekEnd();
    PutBlock(f, ys, step);
    ghost var m, n := f.bytes, Block(at, ys[step..], []);
    f.Seek(goBack);
    f.Write(BE64(at));
    BlockBeside(m, f.bytes, n, 0, goBack, goBack + 8);
    SameBehind(b, m, f.bytes, goBack, goBack + 8);
  }

  lemma {:induction false} SameBehind(b: seq<byte>, m: seq<byte>, b': seq<byte>, lo: nat, hi: nat)
    requires Same(b, m, |b|, |m|) && Same(m, b', lo, hi)
    ensures Same(b, b', lo, hi)
  {
  }

  /** A fresh block without padding at the cursor, which stands at the end of the file. */
  method PutBlock(f: File, ys: seq<i64>, step: nat)
    requires f.pos == |f.bytes| && step <= |ys|
    modifies f
    ensures BlockOK(f.bytes, Block(old(f.pos), ys[step..], []), 0)
    ensures Same(old(f.bytes), f.bytes, old(f.pos), f.pos)
    ensures f.pos == |f.bytes| == old(f.pos) + 16 + 8 * (|ys| - step)
  {
    hide Words, BE32, BE64;
    ghost var b, k := f.bytes, Block(f.pos, ys[step..], []);
    f.Write(BE32(|ys| - step));
    ghost var m1, p1 := f.bytes, f.pos;
    f.Write(BE32(0));
    ghost var m2, p2 := f.bytes, f.pos;
    PutWords(f, ys, step, |ys|);
    ghost var m3, p3 := f.bytes, f.pos;
    assert ys[step..|ys|] == All(k);
    f.Write(BE64(0));
    AtBeside(m1, m2, k.at, BE32(|ys| - step), p1, p2);
    AtBeside(m2, m3, k.at, BE32(|ys| - step), p2, p3);
    AtBeside(m3, f.bytes, k.at, BE32(|ys| - step), p3, f.pos);
    AtBeside(m2, m3, p1, BE32(0), p2, p3);
    AtBeside(m3, f.bytes, p1, BE32(0), p3, f.pos);
    AtBeside(m3, f.bytes, p2, Words(All(k)), p3, f.pos);
  }
}
