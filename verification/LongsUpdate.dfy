// Overwriting an array of longs, a chain of blocks: it shrinks by turning elements
// into padding and grows by appending a block at the end of the file.
module LongsUpdate {
  import opened Bytes
  import opened ByteFile
  import opened Layout
  import opened LongsBlock

  /** Block k, at which the new array ends after `step` elements were placed before it. */
  function Stopped(k: Block, ys: seq<i64>, step: nat): Block
    requires step <= |ys| <= step + |k.xs|
    ensures Stopped(k, ys, step).at == k.at
  {
    if |ys| < |k.xs| && step > 0 then Overrun(k, ys, step)
    else if |ys| < |k.xs| then Split(k, Patched(All(k), 0, ys), |ys|)
    else if |ys| == |k.xs| then Block(k.at, ys[step..], k.pad)
    else Ended(k, ys, step)
  }

  /** After a block of sz elements, reached after `step` were placed, does the walk of n elements go on? */
  predicate GoesOn(sz: nat, n: nat, step: nat, linked: bool) {
    n > step + sz || (n == step + sz && n > sz && step >= sz && linked)
  }

  /** The block at which the walk would take an old element for the link, because it is not the last one. */
  predicate StaleAt(sz: nat, n: nat, step: nat, linked: bool) {
    linked && sz <= step && sz < n < step + sz
  }

  /** From block j on, the walk of n elements comes to such a block. */
  predicate Stale(blocks: seq<Block>, n: nat, j: nat)
    requires j < |blocks| && Live(blocks, j) <= n
    decreases |blocks| - j
  {
    var sz, step, linked := |blocks[j].xs|, Live(blocks, j), j + 1 < |blocks|;
    StaleAt(sz, n, step, linked) || (linked && GoesOn(sz, n, step, linked) && Stale(blocks, n, j + 1))
  }

  /** From block j on, the walk comes to such a block, and the old element it takes for the link is no zero. */
  predicate Lost(blocks: seq<Block>, n: nat, j: nat)
    requires j < |blocks| && Live(blocks, j) <= n
    decreases |blocks| - j
  {
    var sz, step, linked := |blocks[j].xs|, Live(blocks, j), j + 1 < |blocks|;
    (StaleAt(sz, n, step, linked) && blocks[j].xs[n - step] != 0)
    || (linked && GoesOn(sz, n, step, linked) && Lost(blocks, n, j + 1))
  }

  /** A walk that meets no such block does not get lost. */
  lemma {:induction false} NotStaleNotLost(blocks: seq<Block>, n: nat, j: nat)
    requires j < |blocks| && Live(blocks, j) <= n && !Stale(blocks, n, j)
    ensures !Lost(blocks, n, j)
    decreases |blocks| - j
  {
    if j + 1 < |blocks| && GoesOn(|blocks[j].xs|, n, Live(blocks, j), true) {
      NotStaleNotLost(blocks, n, j + 1);
    }
  }

  /** From block j on, the walk ends at a block larger than the whole new array, elements being placed before it. */
  predicate Overruns(blocks: seq<Block>, n: nat, j: nat)
    requires j < |blocks| && Live(blocks, j) <= n
    decreases |blocks| - j
  {
    var sz, step, linked := |blocks[j].xs|, Live(blocks, j), j + 1 < |blocks|;
    (step > 0 && n < sz) || (linked && GoesOn(sz, n, step, linked) && Overruns(blocks, n, j + 1))
  }

  /**
   * The chain from block j on after the walk of ys went over it, while the file ended at eof.
   * Where an old element that is 0 is taken for the link, it becomes the offset of a new block
   * without elements, which is in no chain.
   */
  function Rewritten(cur: seq<Block>, ys: seq<i64>, j: nat, eof: nat): seq<Block>
    requires j < |cur| && Live(cur, j) <= |ys| && !Lost(cur, |ys|, j)
    decreases |cur| - j
  {
    var k, step, linked := cur[j], Live(cur, j), j + 1 < |cur|;
    if StaleAt(|k.xs|, |ys|, step, linked) then [Rewired(k, ys, step, eof)] + cur[j + 1..]
    else if GoesOn(|k.xs|, |ys|, step, linked) then
      [Filled(k, ys, step)] + if linked then Rewritten(cur, ys, j + 1, eof) else [Block(eof, ys[step + |k.xs|..], [])]
    else if step > 0 && |ys| < |k.xs| then [Overrun(k, ys, step)] + cur[j + 1..]
    else [Stopped(k, ys, step)]
  }

  /** Only the blocks from j on and the number of elements before them matter. */
  lemma {:induction false} TailSame(cur: seq<Block>, cur': seq<Block>, ys: seq<i64>, j: nat, eof: nat)
    requires j < |cur| == |cur'| && cur'[j..] == cur[j..] && Live(cur', j) == Live(cur, j) <= |ys|
    requires !Lost(cur, |ys|, j)
    ensures !Lost(cur', |ys|, j) && Rewritten(cur', ys, j, eof) == Rewritten(cur, ys, j, eof)
    decreases |cur| - j
  {
    assert cur'[j] == cur'[j..][0] == cur[j..][0] == cur[j];
    assert cur'[j + 1..] == cur'[j..][1..] && cur[j + 1..] == cur[j..][1..];
    hide Stopped, Filled, Overrun, Rewired;
    if j + 1 < |cur| && GoesOn(|cur[j].xs|, |ys|, Live(cur, j), true) {
      TailSame(cur, cur', ys, j + 1, eof);
    }
  }

  lemma {:induction false} LiveSame(cur: seq<Block>, cur': seq<Block>, j: nat)
    requires j <= |cur| && j <= |cur'|
    requires forall i :: 0 <= i < j ==> |cur'[i].xs| == |cur[i].xs|
    ensures Live(cur', j) == Live(cur, j)
  {
    if j > 0 {
      LiveSame(cur, cur', j - 1);
    }
  }

  lemma {:induction false} BlocksKept(b: seq<byte>, b': seq<byte>, cur: seq<Block>, j: nat, i: nat)
    requires BlocksOK(b, cur) && BlocksApart(cur) && j < |cur| && i < |cur| && i != j
    requires Same(b, b', cur[j].at, cur[j].at + BlockSize(cur[j]))
    ensures BlockOK(b', cur[i], Next(cur, i))
  {
    assert BlockFoot(cur[i]) !! BlockFoot(cur[j]);
    BlockFrame(b, b', cur[i], Next(cur, i), BlockFoot(cur[j]));
  }

  lemma {:induction false} ReplaceBlock(b: seq<byte>, b': seq<byte>, cur: seq<Block>, j: nat, k: Block)
    requires BlocksOK(b, cur) && BlocksApart(cur) && j < |cur| && k.at == cur[j].at
    requires Same(b, b', cur[j].at, cur[j].at + BlockSize(cur[j]))
    requires BlockOK(b', k, Next(cur, j))
    ensures BlocksOK(b', cur[j := k])
  {
    var cur' := cur[j := k];
    forall i | 0 <= i < |cur'| ensures BlockOK(b', cur'[i], Next(cur', i)) {
      if i != j {
        BlocksKept(b, b', cur, j, i);
      }
    }
  }

  /** The chain now ends at block j. */
  lemma {:induction false} EndChain(b: seq<byte>, b': seq<byte>, cur: seq<Block>, j: nat, k: Block)
    requires BlocksOK(b, cur) && BlocksApart(cur) && j < |cur| && k.at == cur[j].at
    requires Same(b, b', cur[j].at, cur[j].at + BlockSize(cur[j])) && BlockOK(b', k, 0)
    ensures BlocksOK(b', cur[..j] + [k])
  {
    var cur' := cur[..j] + [k];
    forall i | 0 <= i < |cur'| ensures BlockOK(b', cur'[i], Next(cur', i)) {
      if i < j {
        BlocksKept(b, b', cur, j, i);
        assert Next(cur', i) == Next(cur, i);
      }
    }
  }

  /** The chain goes on after block j with a new last block. */
  lemma {:induction false} GrowChain(b: seq<byte>, b': seq<byte>, cur: seq<Block>, j: nat, k: Block, n: Block)
    requires BlocksOK(b, cur) && BlocksApart(cur) && j < |cur| && k.at == cur[j].at
    requires Same(b, b', cur[j].at, cur[j].at + BlockSize(cur[j]))
    requires BlockOK(b', k, n.at) && BlockOK(b', n, 0)
    ensures BlocksOK(b', cur[..j] + [k, n])
  {
    var cur' := cur[..j] + [k, n];
    forall i | 0 <= i < |cur'| ensures BlockOK(b', cur'[i], Next(cur', i)) {
      if i < j {
        BlocksKept(b, b', cur, j, i);
        assert Next(cur', i) == Next(cur, i);
      }
    }
  }

  /** What holds when the cursor stands at block j of the chain `cur`. */
  ghost predicate Visiting(b: seq<byte>, pos: nat, cur: seq<Block>, j: nat, n: nat, step: nat) {
    && BlocksWF(cur) && Tidy(cur) && BlocksApart(cur) && BlocksOK(b, cur)
    && j < |cur| && pos == cur[j].at && step == Live(cur, j) <= n && !Lost(cur, n, j)
  }

  /** What RewriteBlock needs of the block the cursor stands at. */
  lemma {:induction false} AtBlock(b: seq<byte>, pos: nat, cur: seq<Block>, j: nat, n: nat, step: nat)
    requires Visiting(b, pos, cur, j, n, step)
    ensures BlockOK(b, cur[j], Next(cur, j)) && CountsFit(cur[j]) && 0 <= Next(cur, j) <= OFF_MAX
    ensures step > 0 ==> j > 0 && |cur[j].pad| == 0
    ensures StaleAt(|cur[j].xs|, n, step, Next(cur, j) != 0) ==> cur[j].xs[n - step] == 0
    ensures Next(cur, j) != 0 <==> j + 1 < |cur|
  {
    hide BlockOK;
  }

  /** The block at which the walk ended: larger than the new array and linked as before, or the last one. */
  ghost predicate Halted(b: seq<byte>, k: Block, ys: seq<i64>, step: nat, next: nat) {
    if 0 < step <= |ys| < |k.xs| then BlockOK(b, Overrun(k, ys, step), next)
    else step <= |ys| <= step + |k.xs| && BlockOK(b, Stopped(k, ys, step), 0)
  }

  /** One round of the do-while loop, up to the link of the block. */
  method RewriteBlock(f: File, ys: seq<i64>, step: nat, ghost k: Block, ghost next: nat)
    returns (more: bool, newStep: nat, padding: nat)
    requires BlockOK(f.bytes, k, next) && CountsFit(k) && f.pos == k.at && next <= OFF_MAX
    requires step <= |ys| < 0x8000_0000
    requires step > 0 ==> |k.pad| == 0
    modifies f
    ensures |f.bytes| == |old(f.bytes)| && Same(old(f.bytes), f.bytes, k.at, k.at + BlockSize(k))
    ensures more <==> GoesOn(|k.xs|, |ys|, step, next != 0) || StaleAt(|k.xs|, |ys|, step, next != 0)
    ensures more ==> newStep == (if step + |k.xs| <= |ys| then step + |k.xs| else |ys|) && padding == |k.pad|
    ensures GoesOn(|k.xs|, |ys|, step, next != 0) ==> BlockOK(f.bytes, Filled(k, ys, step), next) && f.pos == k.at + 8 + 8 * |k.xs|
    ensures StaleAt(|k.xs|, |ys|, step, next != 0) ==> Strayed(f.bytes, f.pos, k, ys, step, next) && padding == 0
    ensures !more ==> Halted(f.bytes, k, ys, step, next)
    ensures !more && step == 0 ==> f.pos == k.at + BlockSize(k)
  {
    hide Strayed;
    more, newStep, padding := false, step, 0;
    var sz := f.Read32();
    if |ys| < sz {
      FinishSmaller(f, ys, step, sz, k, next);
    } else if |ys| == sz {
      FinishEqual(f, ys, step, k, next);
    } else {
      padding := f.Read32();
      var exit;
      if step >= sz {
        exit, newStep := RewritePassed(f, ys, step, sz, padding, k, next);
      } else {
        exit, newStep := RewriteAhead(f, ys, step, sz, padding, k, next);
      }
      more := !exit;
    }
  }

  /** After the elements: skip the padding, then follow the word there or, if it is 0, fill it in. */
  method FollowLink(f: File, ys: seq<i64>, step: nat, padding: nat, first: nat, ghost w: nat)
    returns (more: bool, newFirst: nat)
    requires At(f.bytes, f.pos + 8 * padding, BE64(w)) && w <= OFF_MAX && step <= |ys|
    modifies f
    ensures var slot := old(f.pos) + 8 * padding;
            && Same(old(f.bytes), f.bytes, slot, slot + 8)
            && newFirst == (if first == 0 then slot + 8 else first)
            && (w == 0 ==> At(f.bytes, slot, BE64(|old(f.bytes)|)))
    ensures more <==> w != 0
    ensures more ==> f.bytes == old(f.bytes) && f.pos == w
    ensures !more ==> BlockOK(f.bytes, Block(|old(f.bytes)|, ys[step..], []), 0)
    ensures !more ==> |f.bytes| == |old(f.bytes)| + 16 + 8 * (|ys| - step)
  {
    hide BlockOK, BE64;
    f.Seek(f.pos + 8 * padding);
    var goBack := f.pos;
    var link := f.Read64();
    newFirst := if first == 0 then goBack + 8 else first;
    more := link != 0;
    if more {
      f.Seek(link);
    } else {
      Append(f, ys, step, goBack);
    }
  }

  /** The bytes the walk adds at the end of the file when it ends at this block. */
  function AddedAt(sz: nat, n: nat, step: nat, linked: bool): nat {
    if StaleAt(sz, n, step, linked) then 16
    else if GoesOn(sz, n, step, linked) && n > step + sz then 16 + 8 * (n - step - sz)
    else 0
  }

  /** The block and what was appended, once the walk has ended there. */
  ghost predicate Ends(b: seq<byte>, k: Block, ys: seq<i64>, step: nat, next: nat, eof: nat) {
    if StaleAt(|k.xs|, |ys|, step, next != 0) then
      step <= |ys| && BlockOK(b, Rewired(k, ys, step, eof), next)
    else if GoesOn(|k.xs|, |ys|, step, next != 0) then
      && step + |k.xs| <= |ys| && BlockOK(b, Filled(k, ys, step), eof)
      && BlockOK(b, Block(eof, ys[step + |k.xs|..], []), 0)
    else Halted(b, k, ys, step, next)
  }

  /** One round of the do-while loop, seen from its block. */
  method RewriteAndLink(f: File, ys: seq<i64>, step: nat, first: nat, ghost k: Block, ghost next: nat)
    returns (more: bool, newStep: nat, newFirst: nat)
    requires BlockOK(f.bytes, k, next) && CountsFit(k) && f.pos == k.at && next <= OFF_MAX
    requires step <= |ys| < 0x8000_0000 && |f.bytes| <= OFF_MAX
    requires step > 0 ==> |k.pad| == 0
    requires StaleAt(|k.xs|, |ys|, step, next != 0) ==> k.xs[|ys| - step] == 0 && first > 0
    modifies f
    ensures Same(old(f.bytes), f.bytes, k.at, k.at + BlockSize(k))
    ensures more <==> GoesOn(|k.xs|, |ys|, step, next != 0) && next != 0
    ensures more ==> step + |k.xs| <= |ys| && BlockOK(f.bytes, Filled(k, ys, step), next)
    ensures more ==> |f.bytes| == |old(f.bytes)| && f.pos == next && newStep == step + |k.xs|
    ensures !more ==> Ends(f.bytes, k, ys, step, next, |old(f.bytes)|)
    ensures !more ==> |f.bytes| == |old(f.bytes)| + AddedAt(|k.xs|, |ys|, step, next != 0)
    ensures newFirst == if first == 0 && GoesOn(|k.xs|, |ys|, step, next != 0) then k.at + BlockSize(k) else first
    ensures !GoesOn(|k.xs|, |ys|, step, next != 0) && step == 0 ==> f.pos == k.at + BlockSize(k)
  {
    hide *;
    WalkCases(|k.xs|, |ys|, step, next != 0);
    newFirst := first;
    var padding;
    ghost var b := f.bytes;
    more, newStep, padding := RewriteBlock(f, ys, step, k, next);
    if more {
      ghost var m, slot := f.bytes, f.pos + 8 * padding;
      ghost var w := if GoesOn(|k.xs|, |ys|, step, next != 0) then next else 0;
      WordRead(m, f.pos, k, ys, step, next, w);
      more, newFirst := FollowLink(f, ys, newStep, padding, first, w);
      SameJoin(b, m, f.bytes, k.at, k.at + BlockSize(k), slot, slot + 8, k.at, k.at + BlockSize(k));
      if !more {
        LinkFilled(m, f.bytes, slot, k, ys, step, next, |b|);
      }
    } else {
      HaltedEnds(f.bytes, k, ys, step, next, |b|);
    }
  }

  lemma {:induction false} WalkCases(sz: nat, n: nat, step: nat, linked: bool)
    ensures !(GoesOn(sz, n, step, linked) && StaleAt(sz, n, step, linked))
    ensures GoesOn(sz, n, step, linked) ==> step + sz <= n && (n == step + sz ==> linked)
    ensures StaleAt(sz, n, step, linked) ==> linked && step > 0 && n < step + sz && AddedAt(sz, n, step, linked) == 16
    ensures !GoesOn(sz, n, step, linked) && !StaleAt(sz, n, step, linked) ==> AddedAt(sz, n, step, linked) == 0 && n <= step + sz
    ensures GoesOn(sz, n, step, linked) && !linked ==> AddedAt(sz, n, step, linked) == 16 + 8 * (n - step - sz)
  {
  }

  lemma {:induction false} HaltedEnds(b: seq<byte>, k: Block, ys: seq<i64>, step: nat, next: nat, eof: nat)
    requires Halted(b, k, ys, step, next)
    requires !GoesOn(|k.xs|, |ys|, step, next != 0) && !StaleAt(|k.xs|, |ys|, step, next != 0)
    ensures Ends(b, k, ys, step, next, eof)
  {
    hide Halted;
  }

  /** Which word stands where the link is read. */
  lemma {:induction false} WordRead(m: seq<byte>, pos: nat, k: Block, ys: seq<i64>, step: nat, next: nat, w: nat)
    requires GoesOn(|k.xs|, |ys|, step, next != 0) ==>
               BlockOK(m, Filled(k, ys, step), next) && pos == k.at + 8 + 8 * |k.xs| && w == next
    requires StaleAt(|k.xs|, |ys|, step, next != 0) ==>
               Strayed(m, pos, k, ys, step, next) && k.xs[|ys| - step] == 0 && w == 0 && |k.pad| == 0
    requires GoesOn(|k.xs|, |ys|, step, next != 0) || StaleAt(|k.xs|, |ys|, step, next != 0)
    ensures At(m, pos + 8 * |k.pad|, BE64(w))
    ensures k.at <= pos && pos + 8 * |k.pad| + 8 <= k.at + BlockSize(k)
    ensures GoesOn(|k.xs|, |ys|, step, next != 0) ==> pos + 8 * |k.pad| + 8 == k.at + BlockSize(k)
  {
    hide *;
    WalkCases(|k.xs|, |ys|, step, next != 0);
    if GoesOn(|k.xs|, |ys|, step, next != 0) {
      FilledIs(k, ys, step);
      LinkAt(m, Filled(k, ys, step), next);
    } else {
      StrayedParts(m, pos, k, ys, step, next);
      PartlyIs(k, ys, step);
      ZeroUnsigned();
    }
  }

  lemma {:induction false} ZeroUnsigned()
    ensures Unsigned64(0) == 0
  {
  }

  lemma {:induction false} LinkAt(m: seq<byte>, k: Block, next: nat)
    requires BlockOK(m, k, next)
    ensures At(m, NextSlot(k), BE64(next))
  {
  }

  /** The end of file stored where the link was read. */
  lemma {:induction false} LinkFilled(m: seq<byte>, m': seq<byte>, slot: nat, k: Block, ys: seq<i64>, step: nat, next: nat, eof: nat)
    requires GoesOn(|k.xs|, |ys|, step, next != 0) ==>
               && BlockOK(m, Filled(k, ys, step), next) && slot + 8 == k.at + BlockSize(k)
               && BlockOK(m', Block(eof, ys[step + |k.xs|..], []), 0)
    requires StaleAt(|k.xs|, |ys|, step, next != 0) ==> Strayed(m, slot, k, ys, step, next)
    requires GoesOn(|k.xs|, |ys|, step, next != 0) || StaleAt(|k.xs|, |ys|, step, next != 0)
    requires step <= |ys| && Same(m, m', slot, slot + 8) && At(m', slot, BE64(eof)) && eof <= OFF_MAX
    ensures Ends(m', k, ys, step, next, eof)
  {
    hide *;
    WalkCases(|k.xs|, |ys|, step, next != 0);
    if GoesOn(|k.xs|, |ys|, step, next != 0) {
      FilledIs(k, ys, step);
      Relinked(m, m', Filled(k, ys, step), next, eof);
      FilledEnds(m', k, ys, step, next, eof);
    } else {
      RewiredAt(m, m', slot, k, ys, step, next, eof);
      RewiredEnds(m', k, ys, step, next, eof);
    }
  }

  lemma {:induction false} Relinked(m: seq<byte>, m': seq<byte>, k: Block, next: nat, next': nat)
    requires BlockOK(m, k, next) && Same(m, m', NextSlot(k), NextSlot(k) + 8) && At(m', NextSlot(k), BE64(next'))
    ensures BlockOK(m', k, next')
  {
    hide BE32, BE64, Words;
    AtBeside(m, m', k.at, BE32(|k.xs|), NextSlot(k), NextSlot(k) + 8);
    AtBeside(m, m', k.at + 4, BE32(|k.pad|), NextSlot(k), NextSlot(k) + 8);
    AtBeside(m, m', k.at + 8, Words(k.xs + k.pad), NextSlot(k), NextSlot(k) + 8);
  }

  lemma {:induction false} FilledEnds(b: seq<byte>, k: Block, ys: seq<i64>, step: nat, next: nat, eof: nat)
    requires GoesOn(|k.xs|, |ys|, step, next != 0) && step + |k.xs| <= |ys| && BlockOK(b, Filled(k, ys, step), eof)
    requires BlockOK(b, Block(eof, ys[step + |k.xs|..], []), 0)
    ensures Ends(b, k, ys, step, next, eof)
  {
    hide BlockOK, Filled;
  }

  lemma {:induction false} RewiredEnds(b: seq<byte>, k: Block, ys: seq<i64>, step: nat, next: nat, eof: nat)
    requires StaleAt(|k.xs|, |ys|, step, next != 0) && step <= |ys| < step + |k.xs|
    requires BlockOK(b, Rewired(k, ys, step, eof), next)
    ensures Ends(b, k, ys, step, next, eof)
  {
    hide BlockOK, Rewired;
  }

  /** The whole chain once the walk has gone over it from block j on. */
  ghost function Walked(cur: seq<Block>, ys: seq<i64>, j: nat, eof: nat): seq<Block>
    requires j < |cur| && Live(cur, j) <= |ys| && !Lost(cur, |ys|, j)
  {
    cur[..j] + Rewritten(cur, ys, j, eof)
  }

  /** The walk ends at block j. */
  lemma {:induction false} WalkEnds(b: seq<byte>, m: seq<byte>, pos: nat, cur: seq<Block>, j: nat, ys: seq<i64>, step: nat)
    requires Visiting(b, pos, cur, j, |ys|, step) && Same(b, m, cur[j].at, cur[j].at + BlockSize(cur[j]))
    requires GoesOn(|cur[j].xs|, |ys|, step, j + 1 < |cur|) ==> j + 1 == |cur|
    requires Ends(m, cur[j], ys, step, Next(cur, j), |b|)
    ensures BlocksOK(m, Walked(cur, ys, j, |b|))
  {
    hide *;
    VisitParts(b, pos, cur, j, |ys|, step);
    AtBlock(b, pos, cur, j, |ys|, step);
    WalkCases(|cur[j].xs|, |ys|, step, j + 1 < |cur|);
    EndsParts(m, cur[j], ys, step, Next(cur, j), |b|);
    WalkedIs(cur, ys, j, |b|);
    LastRound(cur, ys, j, |b|);
    var k, r := cur[j], Rewritten(cur, ys, j, |b|);
    if StaleAt(|k.xs|, |ys|, step, j + 1 < |cur|) {
      RewiredIs(k, ys, step, |b|);
      ReplaceBlock(b, m, cur, j, Rewired(k, ys, step, |b|));
      assert cur[j := r[0]] == cur[..j] + ([r[0]] + cur[j + 1..]);
    } else if GoesOn(|k.xs|, |ys|, step, j + 1 < |cur|) {
      FilledIs(k, ys, step);
      GrowChain(b, m, cur, j, Filled(k, ys, step), Block(|b|, ys[step + |k.xs|..], []));
    } else if 0 < step && |ys| < |k.xs| {
      OverrunAt(k, ys, step);
      ReplaceBlock(b, m, cur, j, Overrun(k, ys, step));
      assert cur[j := r[0]] == cur[..j] + ([r[0]] + cur[j + 1..]);
    } else {
      EndChain(b, m, cur, j, Stopped(k, ys, step));
    }
  }

  lemma {:induction false} OverrunAt(k: Block, ys: seq<i64>, step: nat)
    requires 0 < step <= |ys| < |k.xs|
    ensures Overrun(k, ys, step).at == k.at
  {
  }

  lemma {:induction false} EndsParts(m: seq<byte>, k: Block, ys: seq<i64>, step: nat, next: nat, eof: nat)
    requires Ends(m, k, ys, step, next, eof) && step <= |ys|
    ensures StaleAt(|k.xs|, |ys|, step, next != 0) ==>
              |ys| < step + |k.xs| && BlockOK(m, Rewired(k, ys, step, eof), next)
    ensures GoesOn(|k.xs|, |ys|, step, next != 0) ==>
              && step + |k.xs| <= |ys| && BlockOK(m, Filled(k, ys, step), eof)
              && BlockOK(m, Block(eof, ys[step + |k.xs|..], []), 0)
    ensures !StaleAt(|k.xs|, |ys|, step, next != 0) && !GoesOn(|k.xs|, |ys|, step, next != 0) ==>
              if 0 < step && |ys| < |k.xs| then BlockOK(m, Overrun(k, ys, step), next)
              else |ys| <= step + |k.xs| && BlockOK(m, Stopped(k, ys, step), 0)
  {
    hide BlockOK, Rewired, Filled, Overrun, Stopped;
  }

  /** The rewritten chain from the block at which the walk ends. */
  lemma {:induction false} LastRound(cur: seq<Block>, ys: seq<i64>, j: nat, eof: nat)
    requires j < |cur| && Live(cur, j) <= |ys| && !Lost(cur, |ys|, j)
    requires GoesOn(|cur[j].xs|, |ys|, Live(cur, j), j + 1 < |cur|) ==> j + 1 == |cur|
    ensures var k, step, linked := cur[j], Live(cur, j), j + 1 < |cur|; var r := Rewritten(cur, ys, j, eof);
            && (StaleAt(|k.xs|, |ys|, step, linked) ==>
                  |ys| < step + |k.xs| && r == [Rewired(k, ys, step, eof)] + cur[j + 1..])
            && (GoesOn(|k.xs|, |ys|, step, linked) ==>
                  step + |k.xs| <= |ys| && r == [Filled(k, ys, step), Block(eof, ys[step + |k.xs|..], [])])
            && (!StaleAt(|k.xs|, |ys|, step, linked) && !GoesOn(|k.xs|, |ys|, step, linked) ==>
                  if 0 < step && |ys| < |k.xs| then r == [Overrun(k, ys, step)] + cur[j + 1..]
                  else |ys| <= step + |k.xs| && r == [Stopped(k, ys, step)])
  {
    hide Rewired, Filled, Overrun, Stopped;
  }

  /** One round of the do-while loop, as a step of the whole chain. */
  method VisitBlock(f: File, ys: seq<i64>, step: nat, first: nat, ghost cur: seq<Block>, ghost j: nat)
    returns (more: bool, newStep: nat, newFirst: nat)
    requires Visiting(f.bytes, f.pos, cur, j, |ys|, step) && |ys| < 0x8000_0000 && |f.bytes| <= OFF_MAX
    requires j > 0 ==> first > 0
    modifies f
    ensures Same(old(f.bytes), f.bytes, cur[j].at, cur[j].at + BlockSize(cur[j]))
    ensures more <==> GoesOn(|cur[j].xs|, |ys|, step, j + 1 < |cur|) && j + 1 < |cur|
    ensures more ==> step + |cur[j].xs| <= |ys| && BlocksOK(f.bytes, cur[j := Filled(cur[j], ys, step)])
    ensures more ==> |f.bytes| == |old(f.bytes)| && f.pos == cur[j + 1].at && newStep == step + |cur[j].xs|
    ensures !more ==> BlocksOK(f.bytes, Walked(cur, ys, j, |old(f.bytes)|))
    ensures !more ==> |f.bytes| == |old(f.bytes)| + AddedAt(|cur[j].xs|, |ys|, step, j + 1 < |cur|)
    ensures newFirst ==
              if first == 0 && GoesOn(|cur[j].xs|, |ys|, step, j + 1 < |cur|) then cur[j].at + BlockSize(cur[j]) else first
    ensures !GoesOn(|cur[j].xs|, |ys|, step, j + 1 < |cur|) && j == 0 ==> f.pos == cur[0].at + BlockSize(cur[0])
  {
    hide *;
    VisitParts(f.bytes, f.pos, cur, j, |ys|, step);
    AtBlock(f.bytes, f.pos, cur, j, |ys|, step);
    ghost var k, b, pos := cur[j], f.bytes, f.pos;
    WalkCases(|k.xs|, |ys|, step, j + 1 < |cur|);
    more, newStep, newFirst := RewriteAndLink(f, ys, step, first, k, Next(cur, j));
    if more {
      NextIs(cur, j);
      FilledIs(k, ys, step);
      ReplaceBlock(b, f.bytes, cur, j, Filled(k, ys, step));
    } else {
      WalkEnds(b, f.bytes, pos, cur, j, ys, step);
    }
  }

  lemma {:induction false} NextIs(cur: seq<Block>, j: nat)
    requires j + 1 < |cur|
    ensures Next(cur, j) == cur[j + 1].at
  {
  }

  lemma {:induction false} VisitParts(b: seq<byte>, pos: nat, cur: seq<Block>, j: nat, n: nat, step: nat)
    requires Visiting(b, pos, cur, j, n, step)
    ensures BlocksOK(b, cur) && BlocksApart(cur) && j < |cur| && pos == cur[j].at && step == Live(cur, j) <= n
    ensures !Lost(cur, n, j) && (j == 0 ==> step == 0)
  {
    hide BlockOK;
  }

  /** The same blocks at the same places, with perhaps other elements. */
  predicate SameShape(blocks: seq<Block>, cur: seq<Block>) {
    && |cur| == |blocks|
    && forall i :: 0 <= i < |cur| ==>
         cur[i].at == blocks[i].at && |cur[i].xs| == |blocks[i].xs| && |cur[i].pad| == |blocks[i].pad|
  }

  lemma {:induction false} ShapeKeeps(blocks: seq<Block>, cur: seq<Block>)
    requires SameShape(blocks, cur) && BlocksWF(blocks)
    ensures BlocksWF(cur) && Total(cur) == Total(blocks)
    ensures Tidy(blocks) ==> Tidy(cur)
    ensures BlocksApart(blocks) ==> BlocksApart(cur)
  {
    LiveSame(blocks, cur, |blocks|);
    if BlocksApart(blocks) {
      forall i, j | 0 <= i < j < |cur| ensures BlockFoot(cur[i]) !! BlockFoot(cur[j]) {
        assert BlockFoot(blocks[i]) !! BlockFoot(blocks[j]);
      }
    }
  }

  /** Block j is rewritten and the walk stands at block j + 1. */
  lemma {:induction false} NextVisit(b: seq<byte>, b': seq<byte>, cur: seq<Block>, j: nat, ys: seq<i64>, step: nat, eof: nat)
    requires j + 1 < |cur| && Visiting(b, cur[j].at, cur, j, |ys|, step) && step + |cur[j].xs| <= |ys|
    requires GoesOn(|cur[j].xs|, |ys|, step, true) && BlocksOK(b', cur[j := Filled(cur[j], ys, step)])
    ensures !Lost(cur, |ys|, j)
    ensures var cur' := cur[j := Filled(cur[j], ys, step)];
            && Visiting(b', cur[j + 1].at, cur', j + 1, |ys|, step + |cur[j].xs|) && SameShape(cur, cur')
            && (Stale(cur', |ys|, j + 1) <==> Stale(cur, |ys|, j))
            && Walked(cur', ys, j + 1, eof) == Walked(cur, ys, j, eof)
  {
    hide *;
    VisitParts(b, cur[j].at, cur, j, |ys|, step);
    FilledShape(cur, ys, j, step);
    VisitNext(b, b', cur, j, ys, step);
    StaleNext(cur, cur[j := Filled(cur[j], ys, step)], |ys|, j);
    WalkedNext(cur, ys, j, eof);
  }

  lemma {:induction false} StaleNext(cur: seq<Block>, cur': seq<Block>, n: nat, j: nat)
    requires j + 1 < |cur| && SameShape(cur, cur') && cur'[j + 1..] == cur[j + 1..]
    requires Live(cur, j) + |cur[j].xs| <= n && GoesOn(|cur[j].xs|, n, Live(cur, j), true)
    ensures Live(cur', j + 1) <= n && (Stale(cur', n, j + 1) <==> Stale(cur, n, j))
  {
    LiveSame(cur, cur', j + 1);
    LostSame(cur, cur', n, j + 1);
  }

  lemma {:induction false} FilledShape(cur: seq<Block>, ys: seq<i64>, j: nat, step: nat)
    requires j < |cur| && step + |cur[j].xs| <= |ys|
    ensures SameShape(cur, cur[j := Filled(cur[j], ys, step)])
    ensures cur[j := Filled(cur[j], ys, step)][j + 1..] == cur[j + 1..]
  {
  }

  lemma {:induction false} VisitNext(b: seq<byte>, b': seq<byte>, cur: seq<Block>, j: nat, ys: seq<i64>, step: nat)
    requires j + 1 < |cur| && Visiting(b, cur[j].at, cur, j, |ys|, step) && step + |cur[j].xs| <= |ys|
    requires GoesOn(|cur[j].xs|, |ys|, step, true) && BlocksOK(b', cur[j := Filled(cur[j], ys, step)])
    requires SameShape(cur, cur[j := Filled(cur[j], ys, step)])
    ensures Visiting(b', cur[j + 1].at, cur[j := Filled(cur[j], ys, step)], j + 1, |ys|, step + |cur[j].xs|)
  {
    hide BlocksOK, Filled;
    var cur' := cur[j := Filled(cur[j], ys, step)];
    ShapeKeeps(cur, cur');
    LiveSame(cur, cur', j + 1);
    hide BlocksWF, Tidy, BlocksApart, SameShape;
    LostSame(cur, cur', |ys|, j + 1);
  }

  /** Whether the walk goes stale or gets lost depends on the blocks from j on and the number of elements before. */
  lemma {:induction false} LostSame(cur: seq<Block>, cur': seq<Block>, n: nat, j: nat)
    requires j < |cur| == |cur'| && cur'[j..] == cur[j..] && Live(cur', j) == Live(cur, j) <= n
    ensures Stale(cur', n, j) <==> Stale(cur, n, j)
    ensures Lost(cur', n, j) <==> Lost(cur, n, j)
    decreases |cur| - j
  {
    assert cur'[j] == cur'[j..][0] == cur[j..][0] == cur[j];
    assert cur'[j + 1..] == cur'[j..][1..] && cur[j + 1..] == cur[j..][1..];
    if j + 1 < |cur| && GoesOn(|cur[j].xs|, n, Live(cur, j), true) {
      LostSame(cur, cur', n, j + 1);
    }
  }

  lemma {:induction false} WalkedNext(cur: seq<Block>, ys: seq<i64>, j: nat, eof: nat)
    requires j + 1 < |cur| && Live(cur, j) + |cur[j].xs| <= |ys| && !Lost(cur, |ys|, j)
    requires GoesOn(|cur[j].xs|, |ys|, Live(cur, j), true)
    ensures var cur' := cur[j := Filled(cur[j], ys, Live(cur, j))];
            && Live(cur', j + 1) <= |ys| && !Lost(cur', |ys|, j + 1)
            && Walked(cur', ys, j + 1, eof) == Walked(cur, ys, j, eof)
  {
    var step := Live(cur, j);
    var k := Filled(cur[j], ys, step);
    var cur' := cur[j := k];
    LiveSame(cur, cur', j + 1);
    assert cur'[j + 1..] == cur[j + 1..];
    TailSame(cur, cur', ys, j + 1, eof);
    var rest := Rewritten(cur, ys, j + 1, eof);
    assert Rewritten(cur, ys, j, eof) == [k] + rest;
    hide *;
    assert Walked(cur', ys, j + 1, eof) == Walked(cur, ys, j, eof) by {
      WalkedIs(cur, ys, j, eof);
      WalkedIs(cur', ys, j + 1, eof);
      assert cur'[..j + 1] == cur[..j] + [k];
      assert cur[..j] + ([k] + rest) == cur'[..j + 1] + rest;
    }
  }

  lemma {:induction false} WalkedIs(cur: seq<Block>, ys: seq<i64>, j: nat, eof: nat)
    requires j < |cur| && Live(cur, j) <= |ys| && !Lost(cur, |ys|, j)
    ensures Walked(cur, ys, j, eof) == cur[..j] + Rewritten(cur, ys, j, eof)
  {
  }

  /** How many bytes the update adds at the end of the file. */
  function Growth(blocks: seq<Block>, n: nat): nat {
    if n > Total(blocks) then 16 + 8 * (n - Total(blocks))
    else if |blocks| > 0 && Stale(blocks, n, 0) then 16
    else 0
  }

  /** Where the walk ends tells what the file grows by. */
  lemma {:induction false} GrowthAt(blocks: seq<Block>, cur: seq<Block>, j: nat, n: nat)
    requires SameShape(blocks, cur) && BlocksWF(blocks) && j < |cur| && Live(cur, j) <= n
    requires GoesOn(|cur[j].xs|, n, Live(cur, j), j + 1 < |cur|) ==> j + 1 == |cur|
    requires Stale(blocks, n, 0) <==> Stale(cur, n, j)
    ensures Growth(blocks, n) == AddedAt(|cur[j].xs|, n, Live(cur, j), j + 1 < |cur|)
  {
    ShapeKeeps(blocks, cur);
    LiveMonotone(cur, j + 1, |cur|);
    hide SameShape, BlocksWF;
  }

  /** Between two rounds: the first j blocks are rewritten, the cursor stands at block j. */
  ghost predicate Walking(b: seq<byte>, m: seq<byte>, pos: nat, blocks: seq<Block>, cur: seq<Block>, j: nat,
                          ys: seq<i64>, step: nat, first: nat)
  {
    && Visiting(m, pos, cur, j, |ys|, step) && SameShape(blocks, cur) && |blocks| > 0 && !Lost(blocks, |ys|, 0)
    && (Stale(cur, |ys|, j) <==> Stale(blocks, |ys|, 0))
    && |m| == |b| && Frame(b, m, BlocksFoot(blocks))
    && Walked(cur, ys, j, |b|) == Rewritten(blocks, ys, 0, |b|)
    && first == if j == 0 then 0 else blocks[0].at + BlockSize(blocks[0])
  }

  /** After the last round; `first` is the end of the head block if the walk went past it. */
  ghost predicate Arrived(b: seq<byte>, m: seq<byte>, pos: nat, blocks: seq<Block>, ys: seq<i64>, first: nat)
  {
    && |blocks| > 0 && !Lost(blocks, |ys|, 0) && BlocksOK(m, Rewritten(blocks, ys, 0, |b|))
    && |m| == |b| + Growth(blocks, |ys|) && Frame(b, m, BlocksFoot(blocks))
    && (if first == 0 then pos else first) == blocks[0].at + BlockSize(blocks[0])
  }

  lemma {:induction false} RoundKeeps(b: seq<byte>, m: seq<byte>, pos: nat, blocks: seq<Block>, cur: seq<Block>,
                                      j: nat, ys: seq<i64>, step: nat, first: nat, m': seq<byte>, first': nat)
    requires Walking(b, m, pos, blocks, cur, j, ys, step, first)
    requires j + 1 < |cur| && GoesOn(|cur[j].xs|, |ys|, step, true) && step + |cur[j].xs| <= |ys| && |m'| == |m|
    requires Same(m, m', cur[j].at, cur[j].at + BlockSize(cur[j]))
    requires BlocksOK(m', cur[j := Filled(cur[j], ys, step)])
    requires first' == if first == 0 then cur[j].at + BlockSize(cur[j]) else first
    ensures Walking(b, m', cur[j + 1].at, blocks, cur[j := Filled(cur[j], ys, step)], j + 1, ys,
                    step + |cur[j].xs|, first')
  {
    hide BlockOK, BlocksOK, Rewritten, Stale, Lost, Visiting;
    VisitParts(m, pos, cur, j, |ys|, step);
    NextVisit(m, m', cur, j, ys, step, |b|);
    assert BlockFoot(cur[j]) == BlockFoot(blocks[j]) <= BlocksFoot(blocks);
  }

  lemma {:induction false} RoundEnds(b: seq<byte>, m: seq<byte>, pos: nat, blocks: seq<Block>, cur: seq<Block>,
                                     j: nat, ys: seq<i64>, step: nat, first: nat, m': seq<byte>, pos': nat, first': nat)
    requires Walking(b, m, pos, blocks, cur, j, ys, step, first)
    requires GoesOn(|cur[j].xs|, |ys|, step, j + 1 < |cur|) ==> j + 1 == |cur|
    requires Same(m, m', cur[j].at, cur[j].at + BlockSize(cur[j]))
    requires BlocksOK(m', Walked(cur, ys, j, |m|))
    requires |m'| == |m| + AddedAt(|cur[j].xs|, |ys|, step, j + 1 < |cur|)
    requires first' ==
               if first == 0 && GoesOn(|cur[j].xs|, |ys|, step, j + 1 < |cur|) then cur[j].at + BlockSize(cur[j]) else first
    requires !GoesOn(|cur[j].xs|, |ys|, step, j + 1 < |cur|) && j == 0 ==> pos' == cur[0].at + BlockSize(cur[0])
    ensures Arrived(b, m', pos', blocks, ys, first')
  {
    hide BlockOK, BlocksOK, Rewritten, Stale, Lost, GoesOn, AddedAt, Growth, Total;
    ShapeKeeps(cur, blocks);
    GrowthAt(blocks, cur, j, |ys|);
    assert BlockFoot(cur[j]) == BlockFoot(blocks[j]) <= BlocksFoot(blocks);
  }

  lemma {:induction false} WalkStart(b: seq<byte>, blocks: seq<Block>, ys: seq<i64>)
    requires BlocksWF(blocks) && Tidy(blocks) && BlocksApart(blocks) && BlocksOK(b, blocks) && !Lost(blocks, |ys|, 0)
    ensures |blocks| > 0 && Walking(b, b, blocks[0].at, blocks, blocks, 0, ys, 0, 0)
  {
    hide BlockOK, Rewritten, Stale, Lost;
    assert blocks[..0] == [];
  }

  lemma {:induction false} WalkingParts(b: seq<byte>, m: seq<byte>, pos: nat, blocks: seq<Block>, cur: seq<Block>, j: nat,
                                        ys: seq<i64>, step: nat, first: nat)
    requires Walking(b, m, pos, blocks, cur, j, ys, step, first)
    ensures Visiting(m, pos, cur, j, |ys|, step) && j < |cur| && |m| == |b| && (j > 0 ==> first > 0)
  {
    hide Rewritten, Visiting;
    VisitParts(m, pos, cur, j, |ys|, step);
  }

  lemma {:induction false} ArrivedParts(b: seq<byte>, m: seq<byte>, pos: nat, blocks: seq<Block>, ys: seq<i64>, first: nat)
    requires Arrived(b, m, pos, blocks, ys, first)
    ensures |blocks| > 0 && !Lost(blocks, |ys|, 0) && BlocksOK(m, Rewritten(blocks, ys, 0, |b|))
    ensures |m| == |b| + Growth(blocks, |ys|) && Frame(b, m, BlocksFoot(blocks))
    ensures (if first == 0 then pos else first) == blocks[0].at + BlockSize(blocks[0])
  {
    hide Rewritten, BlocksOK;
  }

  /** The whole rewrite of a chain, from its head on. */
  method Update(f: File, ys: seq<i64>, ghost blocks: seq<Block>)
    requires BlocksWF(blocks) && Tidy(blocks) && BlocksApart(blocks) && BlocksOK(f.bytes, blocks)
    requires f.pos == blocks[0].at && !Lost(blocks, |ys|, 0) && |ys| < 0x8000_0000 && |f.bytes| <= OFF_MAX
    modifies f
    ensures BlocksOK(f.bytes, Rewritten(blocks, ys, 0, |old(f.bytes)|))
    ensures Frame(old(f.bytes), f.bytes, BlocksFoot(blocks))
    ensures |f.bytes| == |old(f.bytes)| + Growth(blocks, |ys|)
    ensures f.pos == blocks[0].at + BlockSize(blocks[0])
  {
    hide *;
    WalkStart(f.bytes, blocks, ys);
    ghost var b, j, cur := f.bytes, 0, blocks;
    var more, step: nat, first: nat := true, 0, 0;
    while more
      invariant j < |cur|
      invariant if more then Walking(b, f.bytes, f.pos, blocks, cur, j, ys, step, first)
                else Arrived(b, f.bytes, f.pos, blocks, ys, first)
      decreases more, |cur| - j
    {
      ghost var m, pos, step0, first0 := f.bytes, f.pos, step, first;
      WalkingParts(b, m, pos, blocks, cur, j, ys, step, first);
      more, step, first := VisitBlock(f, ys, step, first, cur, j);
      if more {
        RoundKeeps(b, m, pos, blocks, cur, j, ys, step0, first0, f.bytes, first);
        cur := cur[j := Filled(cur[j], ys, step0)];
        j := j + 1;
      } else {
        RoundEnds(b, m, pos, blocks, cur, j, ys, step0, first0, f.bytes, f.pos, first);
      }
    }
    ArrivedParts(b, f.bytes, f.pos, blocks, ys, first);
    if first > 0 {
      f.Seek(first);
    }
  }

  // ----- an old element followed as a link -----

  /**
   * The case that Lost names: the old element that is taken for the link is the offset of a
   * block of another array, with more elements than the new array. The walk goes on there,
   * with all its elements placed, and ends by rewriting that block as one of its own.
   */
  method FollowElement(f: File, ys: seq<i64>, step: nat, first: nat, ghost k: Block, ghost next: nat,
                       ghost other: Block, ghost otherNext: nat)
    requires BlockOK(f.bytes, k, next) && CountsFit(k) && f.pos == k.at && next <= OFF_MAX
    requires step <= |ys| < 0x8000_0000 && (step > 0 ==> |k.pad| == 0)
    requires StaleAt(|k.xs|, |ys|, step, next != 0) && 0 < k.xs[|ys| - step] == other.at
    requires BlockOK(f.bytes, other, otherNext) && CountsFit(other) && |other.pad| == 0 && otherNext <= OFF_MAX
    requires |ys| < |other.xs| && (other.at + BlockSize(other) <= k.at || k.at + BlockSize(k) <= other.at)
    modifies f
    ensures |f.bytes| == |old(f.bytes)| && BlockOK(f.bytes, Overrun(other, ys, |ys|), otherNext)
  {
    hide *;
    WalkCases(|k.xs|, |ys|, step, next != 0);
    ghost var b := f.bytes;
    var more, newStep, padding := RewriteBlock(f, ys, step, k, next);
    ElementFollowed(f.bytes, f.pos, k, ys, step, next, other.at);
    BlockBeside(b, f.bytes, other, otherNext, k.at, k.at + BlockSize(k));
    var newFirst;
    more, newFirst := FollowLink(f, ys, newStep, padding, first, other.at);
    EndsThere(other, ys, otherNext);
    more, newStep, padding := RewriteBlock(f, ys, newStep, other, otherNext);
    HaltedThere(f.bytes, other, ys, otherNext);
  }

  lemma {:induction false} ElementFollowed(m: seq<byte>, pos: nat, k: Block, ys: seq<i64>, step: nat, next: nat, at: nat)
    requires Strayed(m, pos, k, ys, step, next) && k.xs[|ys| - step] == at
    ensures At(m, pos, BE64(at)) && at <= OFF_MAX
  {
    hide At, BlockOK, Partly;
  }

  lemma {:induction false} EndsThere(other: Block, ys: seq<i64>, next: nat)
    requires |ys| < |other.xs|
    ensures !GoesOn(|other.xs|, |ys|, |ys|, next != 0) && !StaleAt(|other.xs|, |ys|, |ys|, next != 0)
  {
  }

  lemma {:induction false} HaltedThere(m: seq<byte>, other: Block, ys: seq<i64>, next: nat)
    requires Halted(m, other, ys, |ys|, next) && 0 < |ys| < |other.xs|
    ensures BlockOK(m, Overrun(other, ys, |ys|), next)
  {
    hide BlockOK, Overrun;
  }
}
