// What a rewritten array chain reads as, and which shape it keeps.
module LongsProperties {
  import opened Bytes
  import opened Layout
  import opened LongsBlock
  import opened LongsUpdate

  // ----- what it reads as -----

  lemma {:induction false} ElementsNext(blocks: seq<Block>, n: nat)
    requires n < |blocks|
    ensures Elements(blocks, 0) == [] && Elements(blocks, n + 1) == Elements(blocks, n) + blocks[n].xs
  {
  }

  lemma {:induction false} ElementsCons(k: Block, rest: seq<Block>, n: nat)
    requires n <= |rest|
    ensures Elements([k] + rest, 1 + n) == k.xs + Elements(rest, n)
  {
    hide *;
    var all := [k] + rest;
    ElementsNext(all, n);
    if n == 0 {
      if |rest| > 0 {
        ElementsNext(rest, 0);
      } else {
        ElementsEmpty(rest);
      }
      assert [] + k.xs == k.xs + [];
    } else {
      ElementsCons(k, rest, n - 1);
      ElementsNext(rest, n - 1);
      assert all[n] == rest[n - 1];
      var x, y, z := k.xs, Elements(rest, n - 1), rest[n - 1].xs;
      assert x + y + z == x + (y + z);
    }
  }

  lemma {:induction false} ElementsEmpty(blocks: seq<Block>)
    ensures Elements(blocks, 0) == []
  {
  }

  lemma {:induction false} ElementsOne(k: Block)
    ensures Elements([k], 1) == k.xs
  {
    assert Elements([k], 1) == Elements([k], 0) + k.xs;
  }

  /** The block at which the walk ends holds what is left of the new array. */
  lemma {:induction false} StoppedReads(k: Block, ys: seq<i64>, step: nat)
    requires step <= |ys| <= step + |k.xs| && (|ys| < |k.xs| ==> step == 0)
    ensures Stopped(k, ys, step).xs == ys[step..]
  {
    var left := |ys| - step;
    if |ys| < |k.xs| {
      assert Patched(All(k), 0, ys)[..|ys|] == ys;
    } else if |ys| > |k.xs| {
      var ws := Patched(All(k), 0, ys[step..]);
      assert ws[..left] == ys[step..];
      var n := Split(k, ws, left);
      assert All(n) == ws;
      if left == |k.xs| {
        assert ys[step..] == ys[step..step + |k.xs|];
      } else if step >= |k.xs| {
        assert Patched(ws, left, [0])[..left] == ws[..left];
      }
    }
  }

  lemma {:induction false} OverrunReads(k: Block, ys: seq<i64>, step: nat)
    requires 0 < step <= |ys| < |k.xs|
    ensures |Overrun(k, ys, step).xs| == |ys|
  {
  }

  /** The walk goes on after block j. */
  lemma {:induction false} FilledReads(k: Block, rest: seq<Block>, ys: seq<i64>, step: nat)
    requires step + |k.xs| <= |ys|
    ensures var r := [Filled(k, ys, step)] + rest;
            Elements(r, |r|) == ys[step..] <==> Elements(rest, |rest|) == ys[step + |k.xs|..]
  {
    var mid, r := step + |k.xs|, [Filled(k, ys, step)] + rest;
    ElementsCons(Filled(k, ys, step), rest, |rest|);
    assert ys[step..] == ys[step..mid] + ys[mid..];
    var x, y := ys[step..mid], Elements(rest, |rest|);
    assert Elements(r, |r|) == x + y;
    assert (x + y)[|x|..] == y && (x + ys[mid..])[|x|..] == ys[mid..];
  }

  /** One step of the walk. */
  lemma {:induction false} RewrittenIs(cur: seq<Block>, ys: seq<i64>, j: nat, eof: nat)
    requires j < |cur| && Live(cur, j) <= |ys| && !Lost(cur, |ys|, j)
    ensures var k, step, linked := cur[j], Live(cur, j), j + 1 < |cur|; var r := Rewritten(cur, ys, j, eof);
            && Live(cur, j + 1) == step + |k.xs|
            && (GoesOn(|k.xs|, |ys|, step, linked) ==>
                  && step + |k.xs| <= |ys|
                  && (linked ==> !Lost(cur, |ys|, j + 1) && r == [Filled(k, ys, step)] + Rewritten(cur, ys, j + 1, eof)
                                 && (Overruns(cur, |ys|, j) <==> Overruns(cur, |ys|, j + 1))
                                 && (Stale(cur, |ys|, j) <==> Stale(cur, |ys|, j + 1)))
                  && (!linked ==> |ys| > step + |k.xs|
                                  && r == [Filled(k, ys, step)] + [Block(eof, ys[step + |k.xs|..], [])]
                                  && !Overruns(cur, |ys|, j) && !Stale(cur, |ys|, j)))
            && (StaleAt(|k.xs|, |ys|, step, linked) ==>
                  && Stale(cur, |ys|, j) && |ys| < step + |k.xs|
                  && r == [Rewired(k, ys, step, eof)] + cur[j + 1..])
            && (!GoesOn(|k.xs|, |ys|, step, linked) && !StaleAt(|k.xs|, |ys|, step, linked) ==>
                  && |ys| <= step + |k.xs| && (Overruns(cur, |ys|, j) <==> 0 < step && |ys| < |k.xs|) && !Stale(cur, |ys|, j)
                  && (Overruns(cur, |ys|, j) ==> r == [Overrun(k, ys, step)] + cur[j + 1..])
                  && (!Overruns(cur, |ys|, j) ==> r == [Stopped(k, ys, step)]))
  {
    hide Filled, Stopped, Overrun, Rewired;
  }

  /** From block j on the rewrite reads back what is left of the array, unless it overruns or goes stale. */
  lemma {:induction false} ReadsBackFrom(cur: seq<Block>, ys: seq<i64>, j: nat, eof: nat)
    requires j < |cur| && Live(cur, j) <= |ys| && !Lost(cur, |ys|, j)
    ensures var r := Rewritten(cur, ys, j, eof);
            Elements(r, |r|) == ys[Live(cur, j)..] <==> !Overruns(cur, |ys|, j) && !Stale(cur, |ys|, j)
    decreases |cur| - j
  {
    hide *;
    RewrittenIs(cur, ys, j, eof);
    var k, step, linked, r := cur[j], Live(cur, j), j + 1 < |cur|, Rewritten(cur, ys, j, eof);
    if GoesOn(|k.xs|, |ys|, step, linked) {
      if linked {
        ReadsBackFrom(cur, ys, j + 1, eof);
        FilledReads(k, Rewritten(cur, ys, j + 1, eof), ys, step);
      } else {
        var n := Block(eof, ys[step + |k.xs|..], []);
        ElementsOne(n);
        FilledReads(k, [n], ys, step);
      }
    } else if StaleAt(|k.xs|, |ys|, step, linked) {
      RewiredIs(k, ys, step, eof);
      ElementsCons(Rewired(k, ys, step, eof), cur[j + 1..], |cur[j + 1..]|);
    } else if Overruns(cur, |ys|, j) {
      OverrunReads(k, ys, step);
      ElementsCons(Overrun(k, ys, step), cur[j + 1..], |cur[j + 1..]|);
    } else {
      StoppedReads(k, ys, step);
      ElementsOne(Stopped(k, ys, step));
    }
  }

  /**
   * When no old element other than 0 is taken for a link, the rewritten chain reads back
   * exactly the new array if and only if the walk does not end at a block that is larger than
   * the whole new array, elements of it having been placed in earlier blocks, and takes no old
   * element for a link at all.
   */
  lemma {:induction false} ReadsBackExactly(blocks: seq<Block>, ys: seq<i64>, eof: nat)
    requires |blocks| > 0 && !Lost(blocks, |ys|, 0)
    ensures var r := Rewritten(blocks, ys, 0, eof);
            Elements(r, |r|) == ys <==> !Overruns(blocks, |ys|, 0) && !Stale(blocks, |ys|, 0)
  {
    ReadsBackFrom(blocks, ys, 0, eof);
    assert ys[0..] == ys;
  }

  lemma {:induction false} TotalFrom(blocks: seq<Block>, n: nat, j: nat)
    requires Tidy(blocks) && j < |blocks| && Total(blocks) <= n && Live(blocks, j) <= n
    ensures !Stale(blocks, n, j) && !Lost(blocks, n, j) && !Overruns(blocks, n, j)
    ensures j + 1 < |blocks| ==> n > Live(blocks, j + 1)
    decreases |blocks| - j
  {
    LiveMonotone(blocks, j + 1, |blocks|);
    if j + 1 < |blocks| {
      LiveMonotone(blocks, j + 2, |blocks|);
      TotalFrom(blocks, n, j + 1);
    }
  }

  /** The lengths that always read back: those the head can hold, and those the whole chain cannot exceed. */
  lemma {:induction false} HeadOrTotal(blocks: seq<Block>, n: nat)
    requires Tidy(blocks) && |blocks| > 0 && (n <= |blocks[0].xs| || Total(blocks) <= n)
    ensures !Stale(blocks, n, 0) && !Lost(blocks, n, 0) && !Overruns(blocks, n, 0)
  {
    if Total(blocks) <= n {
      TotalFrom(blocks, n, 0);
    }
  }

  /**
   * With at most two blocks no element is ever taken for a link, and the new array reads back
   * unless it is longer than a non-empty head and shorter than the second block.
   */
  lemma {:induction false} TwoBlocksExact(blocks: seq<Block>, ys: seq<i64>, eof: nat)
    requires 0 < |blocks| <= 2
    ensures !Stale(blocks, |ys|, 0) && !Lost(blocks, |ys|, 0)
    ensures var r := Rewritten(blocks, ys, 0, eof);
            Elements(r, |r|) == ys <==> !(|blocks| == 2 && 0 < |blocks[0].xs| < |ys| < |blocks[1].xs|)
  {
    assert Live(blocks, 1) == |blocks[0].xs|;
    assert |blocks| == 2 && |blocks[0].xs| <= |ys| ==> !Stale(blocks, |ys|, 1);
    NotStaleNotLost(blocks, |ys|, 0);
    ReadsBackExactly(blocks, ys, eof);
  }

  /** One such input: [1] linked to [2, 3, 4], overwritten by [7, 8]. */
  lemma {:induction false} MiddleGoesWrong()
    ensures var blocks := [Block(10, [1], []), Block(90, [2, 3, 4], [])];
            && BlocksWF(blocks) && Tidy(blocks) && !Lost(blocks, 2, 0)
            && var r := Rewritten(blocks, [7, 8], 0, 200); Elements(r, |r|) != [7, 8]
  {
    var blocks := [Block(10, [1], []), Block(90, [2, 3, 4], [])];
    assert Live(blocks, 2) == Live(blocks, 1) + 3;
    TwoBlocksExact(blocks, [7, 8], 200);
  }

  const ThreeBlocks := [Block(10, [1, 2, 3], []), Block(90, [4, 0], []), Block(200, [6], [])]

  /**
   * With three blocks it can happen: [1, 2, 3], [4, 0] and [6] overwritten by four elements.
   * The 0 is taken for the link, the end of file, 300, is stored over it, and the array reads
   * back with two elements too many.
   */
  lemma {:induction false} ThreeBlocksGoStale()
    ensures BlocksWF(ThreeBlocks) && Tidy(ThreeBlocks) && Stale(ThreeBlocks, 4, 0) && !Lost(ThreeBlocks, 4, 0)
    ensures var r := Rewritten(ThreeBlocks, [7, 8, 9, 10], 0, 300); Elements(r, |r|) == [7, 8, 9, 10, 300, 6]
  {
    ThreeBlocksStale();
    ThreeBlocksRewired();
    hide *;
    RewrittenIs(ThreeBlocks, [7, 8, 9, 10], 0, 300);
    RewrittenIs(ThreeBlocks, [7, 8, 9, 10], 1, 300);
    ThreeBlocksRead(Rewritten(ThreeBlocks, [7, 8, 9, 10], 0, 300));
  }

  lemma {:induction false} ThreeBlocksStale()
    ensures BlocksWF(ThreeBlocks) && Tidy(ThreeBlocks) && |ThreeBlocks| == 3
    ensures Live(ThreeBlocks, 0) == 0 && Live(ThreeBlocks, 1) == 3
    ensures Stale(ThreeBlocks, 4, 0) && !Lost(ThreeBlocks, 4, 0)
    ensures GoesOn(|ThreeBlocks[0].xs|, 4, 0, true) && StaleAt(|ThreeBlocks[1].xs|, 4, 3, true)
  {
    assert Live(ThreeBlocks, 1) == 3 && Live(ThreeBlocks, 2) == 5 && Live(ThreeBlocks, 3) == 6;
    assert Stale(ThreeBlocks, 4, 1) && !Lost(ThreeBlocks, 4, 1);
  }

  lemma {:induction false} ThreeBlocksRewired()
    ensures |ThreeBlocks| == 3 && |ThreeBlocks[0].xs| == 3 && |ThreeBlocks[1].xs| == 2
    ensures Filled(ThreeBlocks[0], [7, 8, 9, 10], 0) == Block(10, [7, 8, 9], [])
    ensures Rewired(ThreeBlocks[1], [7, 8, 9, 10], 3, 300) == Block(90, [10, 300], [])
    ensures ThreeBlocks[2..] == [Block(200, [6], [])]
  {
    assert Patched([4, 0], 0, [7, 8, 9, 10][3..]) == [10, 0];
  }

  lemma {:induction false} ThreeBlocksRead(r: seq<Block>)
    requires r == [Block(10, [7, 8, 9], [])] + ([Block(90, [10, 300], [])] + [Block(200, [6], [])])
    ensures Elements(r, |r|) == [7, 8, 9, 10, 300, 6]
  {
    assert Elements(r, 1) == [7, 8, 9] && Elements(r, 2) == [7, 8, 9, 10, 300];
  }

  /** The other array's block that the walk was led to loses the elements behind the new array's length, and one may become 0. */
  lemma {:induction false} OtherCut(other: Block, ys: seq<i64>)
    requires 0 < |ys| < |other.xs| && |other.pad| == 0
    ensures var r, i := Overrun(other, ys, |ys|), |other.xs| - |ys|;
            && |r.xs| == |ys|
            && r.xs == if i < |ys| then other.xs[..|ys|][i := 0] else other.xs[..|ys|]
  {
    OverrunIs(other, ys);
    hide *;
    CutAt(other, other.xs, |other.xs| - |ys|, |ys|);
  }

  lemma {:induction false} OverrunIs(other: Block, ys: seq<i64>)
    requires 0 < |ys| < |other.xs| && |other.pad| == 0
    ensures Overrun(other, ys, |ys|) == Split(other, other.xs[|other.xs| - |ys| := 0], |ys|)
  {
    WholeBlock(other, |ys|);
    PatchOne(other.xs, |other.xs| - |ys|);
    assert ys[|ys|..] == [];
    hide All, Patched;
  }

  lemma {:induction false} WholeBlock(k: Block, n: nat)
    requires |k.pad| == 0 && n <= |k.xs|
    ensures All(k) == k.xs && All(Split(k, k.xs, n)) == k.xs
  {
  }

  lemma {:induction false} CutAt(k: Block, xs: seq<i64>, i: nat, n: nat)
    requires i < |xs| && n <= |xs|
    ensures var r := Split(k, xs[i := 0], n);
            r.at == k.at && |r.xs| == n && r.xs == if i < n then xs[..n][i := 0] else xs[..n]
  {
  }

  lemma {:induction false} PatchOne(ws: seq<i64>, i: nat)
    requires i < |ws|
    ensures Patched(ws, 0, []) == ws && Patched(ws, i, [0]) == ws[i := 0]
  {
  }

  /** Three blocks of which one holds the offset of another array. */
  const Misled := [Block(10, [1, 2, 3], []), Block(90, [4, 400], []), Block(200, [6], [])]

  /**
   * One such input: the element 400 is taken for the link when four elements overwrite the
   * chain. At 400 stands another array, [21, 22, 23, 24, 25]; the walk leaves [21, 0, 23, 24].
   */
  lemma {:induction false} OtherArrayLosesElements(ys: seq<i64>)
    requires |ys| == 4
    ensures BlocksWF(Misled) && Tidy(Misled) && Lost(Misled, 4, 0) && Live(Misled, 1) == 3
    ensures StaleAt(|Misled[1].xs|, 4, 3, true) && Misled[1].xs[4 - 3] == 400
    ensures Overrun(Block(400, [21, 22, 23, 24, 25], []), ys, 4).xs == [21, 0, 23, 24]
  {
    MisledGetsLost();
    hide *;
    OtherCut(Block(400, [21, 22, 23, 24, 25], []), ys);
  }

  lemma {:induction false} MisledGetsLost()
    ensures BlocksWF(Misled) && Tidy(Misled) && Lost(Misled, 4, 0) && Live(Misled, 1) == 3
    ensures |Misled| == 3 && Misled[1].xs == [4, 400] && StaleAt(|Misled[1].xs|, 4, 3, true)
  {
    assert Live(Misled, 1) == 3 && Live(Misled, 2) == 5 && Live(Misled, 3) == 6;
    assert Lost(Misled, 4, 1);
  }

  // ----- every word of the block at which the walk ends -----

  /**
   * The block at which a longer array ends: as many live elements as are left, and behind them
   * the old words, the first of them 0 if at least as many elements stand before as it has.
   */
  lemma {:induction false} EndedWords(k: Block, ys: seq<i64>, step: nat)
    requires |k.xs| < |ys| <= step + |k.xs| && step <= |ys|
    ensures var r, left, words := Ended(k, ys, step), |ys| - step, k.xs + k.pad;
            && r.at == k.at && r.xs == ys[step..]
            && r.pad == if left < |k.xs| && step >= |k.xs| then [0] + words[left + 1..] else words[left..]
  {
    var left, words := |ys| - step, k.xs + k.pad;
    var ws := Patched(words, 0, ys[step..]);
    assert ws[..left] == ys[step..] && ws[left..] == words[left..];
    if left == |k.xs| {
      assert ys[step..] == ys[step..step + |k.xs|];
      assert words[left..] == k.pad;
    } else if step >= |k.xs| {
      var n := Split(k, ws, left);
      assert All(n) == ws;
      var vs := Patched(ws, left, [0]);
      assert vs[..left] == ws[..left] && vs[left..] == [0] + words[left + 1..];
    }
  }

  /** The block that is larger than the whole array: the array's length for its count, a 0 as many words before the end as elements stand before. */
  lemma {:induction false} OverrunWords(k: Block, ys: seq<i64>, step: nat)
    requires 0 < step <= |ys| < |k.xs| && |k.pad| == 0
    ensures var r, left := Overrun(k, ys, step), |ys| - step;
            && r.at == k.at && |r.xs| == |ys|
            && r.xs + r.pad == (ys[step..] + k.xs[left..])[|k.xs| - step := 0]
  {
    hide *;
    var ws, i := ys[step..] + k.xs[|ys| - step..], |k.xs| - step;
    OverrunSplit(k, ys, step, ws);
    SplitWords(Split(k, ws, |ys|), ws[i := 0], |ys|);
    SplitWords(k, ws, |ys|);
  }

  lemma {:induction false} OverrunSplit(k: Block, ys: seq<i64>, step: nat, ws: seq<i64>)
    requires 0 < step <= |ys| < |k.xs| && |k.pad| == 0 && ws == ys[step..] + k.xs[|ys| - step..]
    ensures Overrun(k, ys, step) == Split(Split(k, ws, |ys|), ws[|k.xs| - step := 0], |ys|)
  {
    hide *;
    WholeBlock(k, |ys|);
    PatchFront(k.xs, ys[step..]);
    PatchOne(ws, |k.xs| - step);
    SplitWords(k, ws, |ys|);
    OverrunDef(k, ys, step);
  }

  lemma {:induction false} OverrunDef(k: Block, ys: seq<i64>, step: nat)
    requires 0 < step <= |ys| < |k.xs|
    ensures |ys[step..]| <= |All(k)| && |ys| <= |Patched(All(k), 0, ys[step..])|
    ensures var n := Split(k, Patched(All(k), 0, ys[step..]), |ys|);
            && |k.xs| - step < |All(n)| && |n.xs| <= |Patched(All(n), |k.xs| - step, [0])|
            && Overrun(k, ys, step) == Split(n, Patched(All(n), |k.xs| - step, [0]), |n.xs|)
  {
  }

  lemma {:induction false} PatchFront(ws: seq<i64>, zs: seq<i64>)
    requires |zs| <= |ws|
    ensures Patched(ws, 0, zs) == zs + ws[|zs|..]
  {
  }

  lemma {:induction false} SplitWords(k: Block, ws: seq<i64>, n: nat)
    requires n <= |ws|
    ensures var r := Split(k, ws, n); All(r) == ws == r.xs + r.pad && r.at == k.at && |r.xs| == n
  {
  }

  /** The file grows by the one new block, or by an empty one when an old element is taken for the link. */
  lemma {:induction false} GrowthIs(blocks: seq<Block>, ys: seq<i64>, eof: nat)
    requires |blocks| > 0
    ensures |ys| > Total(blocks) ==> Growth(blocks, |ys|) == BlockSize(Block(eof, ys[Total(blocks)..], []))
    ensures |ys| <= Total(blocks) ==>
              Growth(blocks, |ys|) == if Stale(blocks, |ys|, 0) then BlockSize(Block(eof, [], [])) else 0
  {
    hide Stale, Total;
  }

  // ----- which shape it keeps -----

  /** The rewrite of a chain that the new array fills: same blocks, then perhaps one more. */
  ghost predicate Grown(blocks: seq<Block>, r: seq<Block>, ys: seq<i64>, eof: nat) {
    && |blocks| <= |r| && SameShape(blocks, r[..|blocks|])
    && (if |ys| > Total(blocks) then r == r[..|blocks|] + [Block(eof, ys[Total(blocks)..], [])] else |r| == |blocks|)
  }

  /** The same from block j on. */
  ghost predicate GrownFrom(blocks: seq<Block>, r: seq<Block>, ys: seq<i64>, j: nat, eof: nat)
    requires j <= |blocks|
  {
    var m := |blocks| - j;
    && m <= |r| && SameShape(blocks[j..], r[..m])
    && (if |ys| > Total(blocks) then r == r[..m] + [Block(eof, ys[Total(blocks)..], [])] else |r| == m)
  }

  lemma {:induction false} ShapeCons(blocks: seq<Block>, r: seq<Block>, ys: seq<i64>, j: nat, eof: nat, k: Block)
    requires j < |blocks| && GrownFrom(blocks, r, ys, j + 1, eof)
    requires k.at == blocks[j].at && |k.xs| == |blocks[j].xs| && |k.pad| == |blocks[j].pad|
    ensures GrownFrom(blocks, [k] + r, ys, j, eof)
  {
    hide Total;
    var m := |blocks| - j - 1;
    assert blocks[j..] == [blocks[j]] + blocks[j + 1..];
    assert ([k] + r)[..m + 1] == [k] + r[..m];
  }

  lemma {:induction false} ShapeEnd(blocks: seq<Block>, ys: seq<i64>, eof: nat)
    ensures GrownFrom(blocks, if |ys| > Total(blocks) then [Block(eof, ys[Total(blocks)..], [])] else [], ys, |blocks|, eof)
  {
    hide Total;
  }

  lemma {:induction false} GrowFrom(cur: seq<Block>, ys: seq<i64>, j: nat, eof: nat)
    requires Tidy(cur) && j < |cur| && Total(cur) <= |ys| && Live(cur, j) <= |ys|
    ensures !Lost(cur, |ys|, j) && GrownFrom(cur, Rewritten(cur, ys, j, eof), ys, j, eof)
    decreases |cur| - j
  {
    hide *;
    TotalFrom(cur, |ys|, j);
    RewrittenIs(cur, ys, j, eof);
    var k, step := cur[j], Live(cur, j);
    if j + 1 < |cur| {
      GoesOnIf(|k.xs|, |ys|, step, true);
      FilledIs(k, ys, step);
      GrowFrom(cur, ys, j + 1, eof);
      ShapeCons(cur, Rewritten(cur, ys, j + 1, eof), ys, j, eof, Filled(k, ys, step));
    } else {
      LastIs(cur, j);
      GoesOnIf(|k.xs|, |ys|, step, false);
      FilledIs(k, ys, step);
      ShapeEnd(cur, ys, eof);
      if |ys| == Total(cur) {
        StoppedFull(k, ys, step);
        ShapeCons(cur, [], ys, j, eof, Filled(k, ys, step));
        assert [Filled(k, ys, step)] + [] == [Filled(k, ys, step)];
      } else {
        ShapeCons(cur, [Block(eof, ys[Total(cur)..], [])], ys, j, eof, Filled(k, ys, step));
      }
    }
  }

  lemma {:induction false} GoesOnIf(sz: nat, n: nat, step: nat, linked: bool)
    ensures n > step + sz ==> GoesOn(sz, n, step, linked)
    ensures n == step + sz && !linked ==> !GoesOn(sz, n, step, linked)
  {
  }

  lemma {:induction false} LastIs(cur: seq<Block>, j: nat)
    requires j + 1 == |cur|
    ensures Total(cur) == Live(cur, j) + |cur[j].xs|
  {
  }

  lemma {:induction false} StoppedFull(k: Block, ys: seq<i64>, step: nat)
    requires step + |k.xs| == |ys|
    ensures Stopped(k, ys, step) == Filled(k, ys, step)
  {
    assert ys[step..] == ys[step..step + |k.xs|];
  }

  /** An array no longer than the head block is kept in the head block alone. */
  lemma {:induction false} ShrinkToHead(blocks: seq<Block>, ys: seq<i64>, eof: nat)
    requires |blocks| > 0 && |ys| <= |blocks[0].xs|
    ensures !Stale(blocks, |ys|, 0) && !Lost(blocks, |ys|, 0)
    ensures Rewritten(blocks, ys, 0, eof) ==
              [Block(blocks[0].at, ys, blocks[0].xs[|ys|..] + blocks[0].pad)]
  {
    var k := blocks[0];
    assert Patched(All(k), 0, ys) == ys + (k.xs[|ys|..] + k.pad);
    assert ys[0..] == ys;
    assert k.xs[|k.xs|..] + k.pad == k.pad;
  }

  /** An array at least as long as the whole chain keeps its blocks. */
  lemma {:induction false} GrowAll(blocks: seq<Block>, ys: seq<i64>, eof: nat)
    requires Tidy(blocks) && |blocks| > 0 && Total(blocks) <= |ys|
    ensures !Lost(blocks, |ys|, 0) && Grown(blocks, Rewritten(blocks, ys, 0, eof), ys, eof)
  {
    GrowFrom(blocks, ys, 0, eof);
    assert blocks[0..] == blocks;
  }

  /**
   * Reading back a rewritten chain gives exactly the new array when the array fits
   * the head block or is at least as long as the whole old one; the head block keeps
   * its extent, the chain stays tidy, and the blocks stay within the old ones and the
   * bytes appended to the file.
   */
  lemma {:induction false} RewriteReadsBack(blocks: seq<Block>, ys: seq<i64>, eof: nat)
    requires BlocksWF(blocks) && Tidy(blocks) && 0 < eof <= OFF_MAX && |ys| < 0x8000_0000
    requires |ys| <= |blocks[0].xs| || Total(blocks) <= |ys|
    ensures !Stale(blocks, |ys|, 0) && !Lost(blocks, |ys|, 0)
    ensures var r := Rewritten(blocks, ys, 0, eof);
            && Elements(r, |r|) == ys && BlocksWF(r) && Tidy(r)
            && r[0].at == blocks[0].at
            && |r[0].xs| + |r[0].pad| == |blocks[0].xs| + |blocks[0].pad|
  {
    HeadOrTotal(blocks, |ys|);
    ReadsBackExactly(blocks, ys, eof);
    hide Elements, Stale, Overruns;
    var r := Rewritten(blocks, ys, 0, eof);
    if |ys| <= |blocks[0].xs| {
      ShrinkToHead(blocks, ys, eof);
      ElementsOne(r[0]);
    } else {
      GrowAll(blocks, ys, eof);
      GrownWF(blocks, r, ys, eof);
    }
  }

  lemma {:induction false} GrownWF(blocks: seq<Block>, r: seq<Block>, ys: seq<i64>, eof: nat)
    requires Grown(blocks, r, ys, eof) && BlocksWF(blocks) && Tidy(blocks) && 0 < eof <= OFF_MAX
    requires Total(blocks) <= |ys| < 0x8000_0000 && Elements(r, |r|) == ys
    ensures BlocksWF(r) && Tidy(r)
    ensures r[0].at == blocks[0].at
    ensures |r[0].xs| + |r[0].pad| == |blocks[0].xs| + |blocks[0].pad|
  {
    var m := r[..|blocks|];
    assert forall i :: 0 <= i < |blocks| ==> r[i] == m[i];
  }

  /** The new chain lies within the old chain and the bytes from the old end of file on. */
  lemma {:induction false} RewriteStays(blocks: seq<Block>, ys: seq<i64>, eof: nat)
    requires BlocksWF(blocks) && Tidy(blocks) && BlocksApart(blocks) && BlocksFoot(blocks) <= Range(0, eof)
    requires |ys| <= |blocks[0].xs| || Total(blocks) <= |ys|
    ensures !Stale(blocks, |ys|, 0) && !Lost(blocks, |ys|, 0)
    ensures var r := Rewritten(blocks, ys, 0, eof);
            && BlocksApart(r) && BlocksFoot(r) <= BlocksFoot(blocks) + Range(eof, eof + Growth(blocks, |ys|))
  {
    HeadOrTotal(blocks, |ys|);
    var r := Rewritten(blocks, ys, 0, eof);
    var added := Range(eof, eof + Growth(blocks, |ys|));
    if |ys| <= |blocks[0].xs| {
      ShrinkToHead(blocks, ys, eof);
      assert BlockFoot(r[0]) == BlockFoot(blocks[0]);
      BlocksFootWithin(r, BlocksFoot(blocks) + added);
    } else {
      GrowAll(blocks, ys, eof);
      GrownStays(blocks, r, ys, eof, added);
    }
  }

  lemma {:induction false} GrownStays(blocks: seq<Block>, r: seq<Block>, ys: seq<i64>, eof: nat, added: set<nat>)
    requires Grown(blocks, r, ys, eof) && BlocksApart(blocks) && BlocksFoot(blocks) <= Range(0, eof)
    requires added == Range(eof, eof + Growth(blocks, |ys|))
    ensures BlocksApart(r) && BlocksFoot(r) <= BlocksFoot(blocks) + added
  {
    var m := r[..|blocks|];
    forall i | 0 <= i < |r| ensures BlockFoot(r[i]) == if i < |blocks| then BlockFoot(blocks[i]) else added {
      assert i < |blocks| ==> r[i] == m[i];
    }
    BlocksFootWithin(r, BlocksFoot(blocks) + added);
    forall i, j | 0 <= i < j < |r| ensures BlockFoot(r[i]) !! BlockFoot(r[j]) {
      assert BlockFoot(blocks[i]) <= Range(0, eof);
    }
  }

  // ----- rewriting what is there -----

  lemma {:induction false} ElementsSlice(cur: seq<Block>, j: nat, m: nat)
    requires j < m <= |cur|
    ensures Live(cur, j) + |cur[j].xs| <= Live(cur, m)
    ensures Elements(cur, m)[Live(cur, j)..Live(cur, j) + |cur[j].xs|] == cur[j].xs
    decreases m
  {
    var lo, hi := Live(cur, j), Live(cur, j) + |cur[j].xs|;
    if j + 1 < m {
      ElementsSlice(cur, j, m - 1);
      assert Elements(cur, m)[lo..hi] == Elements(cur, m - 1)[lo..hi];
    } else {
      assert Elements(cur, m) == Elements(cur, j) + cur[j].xs;
    }
  }

  lemma {:induction false} SameFrom(cur: seq<Block>, j: nat, eof: nat)
    requires Tidy(cur) && j < |cur| && Live(cur, j) <= Total(cur)
    ensures !Lost(cur, Total(cur), j)
    ensures Rewritten(cur, Elements(cur, |cur|), j, eof) == cur[j..]
    decreases |cur| - j
  {
    hide *;
    var ys := Elements(cur, |cur|);
    var k, step := cur[j], Live(cur, j);
    TotalIs(cur);
    TotalFrom(cur, |ys|, j);
    RewrittenIs(cur, ys, j, eof);
    LiveMonotone(cur, j + 1, |cur|);
    ElementsSlice(cur, j, |cur|);
    FilledSame(k, ys, step);
    assert cur[j..] == [cur[j]] + cur[j + 1..];
    if j + 1 < |cur| {
      GoesOnIf(|k.xs|, |ys|, step, true);
      SameFrom(cur, j + 1, eof);
    } else {
      LastIs(cur, j);
      GoesOnIf(|k.xs|, |ys|, step, false);
      StoppedFull(k, ys, step);
    }
  }

  lemma {:induction false} TotalIs(cur: seq<Block>)
    ensures Total(cur) == Live(cur, |cur|)
  {
  }

  lemma {:induction false} FilledSame(k: Block, ys: seq<i64>, step: nat)
    requires step + |k.xs| <= |ys| && ys[step..step + |k.xs|] == k.xs
    ensures Filled(k, ys, step) == k
  {
  }

  /** Rewriting the array a chain already holds changes nothing. */
  lemma {:induction false} RewriteSame(blocks: seq<Block>, eof: nat)
    requires Tidy(blocks) && |blocks| > 0
    ensures !Lost(blocks, Total(blocks), 0)
    ensures Rewritten(blocks, Elements(blocks, |blocks|), 0, eof) == blocks
    ensures Growth(blocks, Total(blocks)) == 0
  {
    HeadOrTotal(blocks, Total(blocks));
    SameFrom(blocks, 0, eof);
    assert blocks[0..] == blocks;
  }
}
