// Overwriting a string cell [loc][size][buffer] in place.
module TextUpdate {
  import opened Bytes
  import opened ByteFile
  import opened Layout

  /** The buffer that holds the current value: the inline one, or the one `loc` points at. */
  function Current(c: Cell): Buf
    requires c.TextCell?
  {
    if c.loc == 0 then c.inl else c.ovf
  }

  /** The cell after `s` was written over it while the file ended at `eof`. */
  function Updated(c: Cell, s: seq<byte>, eof: nat): Cell
    requires c.TextCell?
  {
    if |s| + 1 > Current(c).size then TextCell(c.inl, eof, Buf(s, |s| + 1))
    else if c.loc == 0 then c.(inl := Buf(s, c.inl.size))
    else c.(ovf := Buf(s, c.ovf.size))
  }

  /** How many bytes the update adds at the end of the file. */
  function Growth(c: Cell, s: seq<byte>): nat
    requires c.TextCell?
  {
    if |s| + 1 > Current(c).size then 8 + |s| + 1 else 0
  }

  /** write(2) of the buffer size and then of the zero-filled buffer holding `s`. */
  method WriteBuffer(f: File, s: seq<byte>, size: nat)
    requires |s| < size && f.pos <= |f.bytes|
    modifies f
    ensures f.pos == old(f.pos) + 8 + size
    ensures At(f.bytes, old(f.pos), BE64(size)) && At(f.bytes, old(f.pos) + 8, BufBytes(Buf(s, size)))
    ensures Same(old(f.bytes), f.bytes, old(f.pos), old(f.pos) + 8 + size)
    ensures |f.bytes| == if old(f.pos) + 8 + size <= |old(f.bytes)| then |old(f.bytes)| else old(f.pos) + 8 + size
  {
    ghost var p, b := f.pos, f.bytes;
    f.Write(BE64(size));
    ghost var m := f.bytes;
    f.Write(s + Zeros(size - |s|));
    AtBeside(m, f.bytes, p, BE64(size), p + 8, p + 8 + size);
  }

  /** The value does not fit: append it at the end of the file and point `loc` at it. */
  method Relocate(f: File, s: seq<byte>, begin: nat, ghost c: Cell)
    requires c.TextCell? && CellWF(c) && CellOK(f.bytes, begin, c) && CString(s)
    requires |f.bytes| + 9 + |s| <= OFF_MAX
    modifies f
    ensures CellOK(f.bytes, begin, TextCell(c.inl, |old(f.bytes)|, Buf(s, |s| + 1)))
    ensures Same(old(f.bytes), f.bytes, begin, begin + 8)
    ensures |f.bytes| == |old(f.bytes)| + 8 + |s| + 1
  {
    hide *;
    ghost var b := f.bytes;
    InlineInside(b, begin, c);
    var eof := f.SeekEnd();
    WriteBuffer(f, s, |s| + 1);
    ghost var m := f.bytes;
    f.Seek(begin);
    f.Write(BE64(eof));
    Relocated(b, m, f.bytes, begin, c, s);
  }

  lemma {:induction false} InlineInside(b: seq<byte>, begin: nat, c: Cell)
    requires c.TextCell? && CellWF(c) && CellOK(b, begin, c)
    ensures begin + 16 + c.inl.size <= |b| && |c.inl.s| < c.inl.size
    ensures At(b, begin, BE64(c.loc)) && At(b, begin + 8, BE64(c.inl.size)) && At(b, begin + 16, BufBytes(c.inl))
    ensures c.loc > 0 ==> c.loc + 8 + c.ovf.size <= |b|
  {
    hide BE64, BufBytes;
  }

  /** The bytes behind `loc` are where they were. */
  lemma {:induction false} InlineKept(b: seq<byte>, b': seq<byte>, begin: nat, c: Cell, lo: nat, hi: nat)
    requires c.TextCell? && |c.inl.s| < c.inl.size && (hi <= begin + 8 || begin + 16 + c.inl.size <= lo) && Same(b, b', lo, hi)
    requires At(b, begin + 8, BE64(c.inl.size)) && At(b, begin + 16, BufBytes(c.inl))
    ensures At(b', begin + 8, BE64(c.inl.size)) && At(b', begin + 16, BufBytes(c.inl))
  {
    hide At, BE64, BufBytes, Same;
    AtBeside(b, b', begin + 8, BE64(c.inl.size), lo, hi);
    AtBeside(b, b', begin + 16, BufBytes(c.inl), lo, hi);
  }

  lemma {:induction false} Relocated(b: seq<byte>, m: seq<byte>, b': seq<byte>, begin: nat, c: Cell, s: seq<byte>)
    requires c.TextCell? && CellWF(c) && CellOK(b, begin, c) && CString(s) && |b| + 9 + |s| <= OFF_MAX
    requires Same(b, m, |b|, |b| + 9 + |s|) && At(m, |b|, BE64(|s| + 1)) && At(m, |b| + 8, BufBytes(Buf(s, |s| + 1)))
    requires Same(m, b', begin, begin + 8) && At(b', begin, BE64(|b|))
    ensures CellOK(b', begin, TextCell(c.inl, |b|, Buf(s, |s| + 1))) && Same(b, b', begin, begin + 8)
  {
    InlineInside(b, begin, c);
    InlineKept(b, m, begin, c, |b|, |b| + 9 + |s|);
    InlineKept(m, b', begin, c, begin, begin + 8);
    AtBeside(m, b', |b|, BE64(|s| + 1), begin, begin + 8);
    AtBeside(m, b', |b| + 8, BufBytes(Buf(s, |s| + 1)), begin, begin + 8);
    hide At, BE64, BufBytes;
  }

  /** The value fits the inline buffer. */
  method OverwriteInline(f: File, s: seq<byte>, begin: nat, size: nat, ghost c: Cell)
    requires c.TextCell? && CellWF(c) && CellOK(f.bytes, begin, c) && c.loc == 0
    requires CString(s) && |s| < size == c.inl.size && f.pos == begin + 8
    modifies f
    ensures CellOK(f.bytes, begin, c.(inl := Buf(s, c.inl.size)))
    ensures Same(old(f.bytes), f.bytes, begin + 8, begin + 16 + c.inl.size)
    ensures |f.bytes| == |old(f.bytes)|
    ensures f.pos == begin + 16 + c.inl.size
  {
    ghost var b := f.bytes;
    WriteBuffer(f, s, size);
    AtBeside(b, f.bytes, begin, BE64(0), begin + 8, begin + 16 + c.inl.size);
  }

  /** The value fits the buffer it was last moved to. */
  method OverwriteMoved(f: File, s: seq<byte>, begin: nat, size: nat, ghost c: Cell)
    requires c.TextCell? && CellWF(c) && CellOK(f.bytes, begin, c) && CellApart(begin, c) && c.loc > 0
    requires CString(s) && |s| < size == c.ovf.size && f.pos == c.loc
    modifies f
    ensures CellOK(f.bytes, begin, c.(ovf := Buf(s, c.ovf.size)))
    ensures Same(old(f.bytes), f.bytes, c.loc, c.loc + 8 + c.ovf.size)
    ensures |f.bytes| == |old(f.bytes)|
  {
    hide *;
    ghost var b, end := f.bytes, c.loc + 8 + c.ovf.size;
    InlineInside(b, begin, c);
    InlineBeside(begin, c);
    WriteBuffer(f, s, size);
    AtBeside(b, f.bytes, begin, BE64(c.loc), c.loc, end);
    InlineKept(b, f.bytes, begin, c, c.loc, end);
    MovedIs(f.bytes, begin, c, s);
  }

  lemma {:induction false} InlineBeside(begin: nat, c: Cell)
    requires c.TextCell? && CellWF(c) && CellApart(begin, c) && c.loc > 0
    ensures c.loc + 8 + c.ovf.size <= begin || begin + 16 + c.inl.size <= c.loc
  {
    RangesApart(begin, begin + 16 + c.inl.size, c.loc, c.loc + 8 + c.ovf.size);
  }

  lemma {:induction false} MovedIs(b: seq<byte>, begin: nat, c: Cell, s: seq<byte>)
    requires c.TextCell? && CellWF(c) && c.loc > 0 && CString(s) && |s| < c.ovf.size
    requires At(b, begin, BE64(c.loc)) && At(b, begin + 8, BE64(c.inl.size)) && At(b, begin + 16, BufBytes(c.inl))
    requires At(b, c.loc, BE64(c.ovf.size)) && At(b, c.loc + 8, BufBytes(Buf(s, c.ovf.size)))
    ensures CellWF(c.(ovf := Buf(s, c.ovf.size))) && CellOK(b, begin, c.(ovf := Buf(s, c.ovf.size)))
  {
    hide At, BE64, BufBytes;
  }

  method Update(f: File, s: seq<byte>, ghost c: Cell)
    requires c.TextCell? && CellWF(c) && CString(s)
    requires CellOK(f.bytes, f.pos, c) && CellApart(f.pos, c)
    requires |f.bytes| + Growth(c, s) <= OFF_MAX
    modifies f
    ensures CellWF(Updated(c, s, |old(f.bytes)|))
    ensures CellOK(f.bytes, old(f.pos), Updated(c, s, |old(f.bytes)|))
    ensures Frame(old(f.bytes), f.bytes, CellFoot(old(f.pos), c))
    ensures |f.bytes| == |old(f.bytes)| + Growth(c, s)
    ensures f.pos == old(f.pos) + CellSize(c)
  {
    var begin := f.pos;
    var loc := f.Read64();
    var afterLoc := f.pos;
    var size := f.Read64();
    var goBackTo := f.pos + size;
    if loc > 0 {
      f.Seek(loc);
      size := f.Read64();
    }
    if |s| + 1 > size {
      Relocate(f, s, begin, c);
      f.Seek(goBackTo);
    } else if loc == 0 {
      f.Seek(afterLoc);
      OverwriteInline(f, s, begin, size, c);
    } else {
      f.Seek(loc);
      OverwriteMoved(f, s, begin, size, c);
      f.Seek(goBackTo);
    }
  }

  // ----- any sequence of updates -----

  /** The cell after the first n values were written over it, the file ending at eofs[i] before the i-th. */
  function AfterAll(c: Cell, ss: seq<seq<byte>>, eofs: seq<nat>, n: nat): (r: Cell)
    requires c.TextCell? && n <= |ss| == |eofs|
    ensures r.TextCell?
  {
    if n == 0 then c else Updated(AfterAll(c, ss, eofs, n - 1), ss[n - 1], eofs[n - 1])
  }

  /** The room a cell has: its first buffer, or the longest value since, with its NUL. */
  function Room(c: Cell, ss: seq<seq<byte>>, n: nat): nat
    requires c.TextCell? && n <= |ss|
  {
    if n == 0 then Current(c).size
    else if |ss[n - 1]| + 1 > Room(c, ss, n - 1) then |ss[n - 1]| + 1 else Room(c, ss, n - 1)
  }

  /**
   * Over any sequence of updates a string cell holds the value written last, its inline part
   * keeps its length, and the file grows exactly at the updates whose value is longer than
   * every value before and than the first buffer.
   */
  lemma {:induction false} LastValueStays(c: Cell, ss: seq<seq<byte>>, eofs: seq<nat>, n: nat)
    requires c.TextCell? && CellWF(c) && n <= |ss| == |eofs|
    requires forall i :: 0 <= i < n ==> CString(ss[i]) && 0 < eofs[i] <= OFF_MAX && |ss[i]| < OFF_MAX
    ensures var r := AfterAll(c, ss, eofs, n);
            && CellWF(r) && Current(r).s == (if n == 0 then Current(c).s else ss[n - 1])
            && CellSize(r) == CellSize(c) && Current(r).size == Room(c, ss, n)
    ensures n < |ss| ==>
              (Growth(AfterAll(c, ss, eofs, n), ss[n]) > 0 <==> |ss[n]| + 1 > Room(c, ss, n))
    ensures forall i :: 0 <= i < n ==> |ss[i]| + 1 <= Room(c, ss, n)
    ensures Current(c).size <= Room(c, ss, n)
  {
    hide CString;
    if n > 0 {
      LastValueStays(c, ss, eofs, n - 1);
    }
  }
}
