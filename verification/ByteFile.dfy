// The file behind a descriptor: a growable byte sequence and one cursor
// (lseek, read and write, each of which succeeds).
module ByteFile {
  import opened Bytes

  /** What read(2) of n bytes leaves in a zeroed buffer of n bytes. */
  function Peek(b: seq<byte>, p: nat, n: nat): (s: seq<byte>)
    ensures |s| == n
    ensures p + n <= |b| ==> s == b[p..p + n]
  {
    if p + n <= |b| then b[p..p + n]
    else if p <= |b| then b[p..] + Zeros(n - (|b| - p))
    else Zeros(n)
  }

  /** `b` after write(2) of `data` at offset p; a hole past the end reads as zeros. */
  function Splice(b: seq<byte>, p: nat, data: seq<byte>): (b': seq<byte>)
    ensures p <= |b| ==> |b'| == if p + |data| <= |b| then |b| else p + |data|
    ensures p <= |b| ==> b'[p..p + |data|] == data
    ensures p <= |b| ==> Same(b, b', p, p + |data|)
    ensures p == |b| ==> b' == b + data
  {
    if p > |b| then b + Zeros(p - |b|) + data
    else if p + |data| <= |b| then b[..p] + data + b[p + |data|..]
    else b[..p] + data
  }

  /** `b'` is `b` with `data` appended. */
  ghost predicate Added(b: seq<byte>, b': seq<byte>, data: seq<byte>) {
    b' == b + data
  }

  lemma {:induction false} AddedTwice(b: seq<byte>, m: seq<byte>, b': seq<byte>, x: seq<byte>, y: seq<byte>)
    requires Added(b, m, x) && Added(m, b', y)
    ensures Added(b, b', x + y)
  {
    assert b + x + y == b + (x + y);
  }

  lemma {:induction false} AddedLength(b: seq<byte>, b': seq<byte>, data: seq<byte>)
    requires Added(b, b', data)
    ensures |b'| == |b| + |data| && At(b', |b|, data)
  {
  }

  lemma {:induction false} AddedNone(b: seq<byte>)
    ensures Added(b, b, [])
  {
    assert b + [] == b;
  }

  class File {
    var bytes: seq<byte>
    var pos: nat

    constructor ()
      ensures bytes == [] && pos == 0
    {
      bytes := [];
      pos := 0;
    }

    method Read(n: nat) returns (data: seq<byte>)
      modifies `pos
      ensures data == Peek(bytes, old(pos), n)
      ensures pos == if old(pos) + n <= |bytes| then old(pos) + n
                     else if old(pos) <= |bytes| then |bytes| else old(pos)
    {
      data := Peek(bytes, pos, n);
      if pos + n <= |bytes| {
        pos := pos + n;
      } else if pos <= |bytes| {
        pos := |bytes|;
      }
    }

    method Write(data: seq<byte>)
      modifies this
      ensures pos == old(pos) + |data|
      ensures old(pos) <= |old(bytes)| ==>
                && |bytes| == (if pos <= |old(bytes)| then |old(bytes)| else pos)
                && At(bytes, old(pos), data)
                && Same(old(bytes), bytes, old(pos), pos)
      ensures old(pos) == |old(bytes)| ==> Added(old(bytes), bytes, data)
    {
      bytes := Splice(bytes, pos, data);
      pos := pos + |data|;
    }

    /** read(2) into an unsigned short, then ntohs. */
    method Read16() returns (n: nat)
      modifies `pos
      ensures forall v: nat :: v < 0x1_0000 && At(bytes, old(pos), BE16(v)) ==> n == v
      ensures old(pos) + 2 <= |bytes| ==> pos == old(pos) + 2
    {
      var data := Read(2);
      n := Val(data);
      forall v: nat | v < 0x1_0000 && At(bytes, old(pos), BE16(v)) ensures n == v {
        ValBE(2, v);
      }
    }

    /** read(2) into an unsigned int, then ntohl. */
    method Read32() returns (n: nat)
      modifies `pos
      ensures forall v: nat :: v < 0x1_0000_0000 && At(bytes, old(pos), BE32(v)) ==> n == v
      ensures old(pos) + 4 <= |bytes| ==> pos == old(pos) + 4
    {
      var data := Read(4);
      n := Val(data);
      forall v: nat | v < 0x1_0000_0000 && At(bytes, old(pos), BE32(v)) ensures n == v {
        ValBE(4, v);
      }
    }

    /** read(2) into an unsigned long, then bswap_64. */
    method Read64() returns (n: nat)
      modifies `pos
      ensures forall v: nat :: v < 0x1_0000_0000_0000_0000 && At(bytes, old(pos), BE64(v)) ==> n == v
      ensures old(pos) + 8 <= |bytes| ==> pos == old(pos) + 8
    {
      var data := Read(8);
      n := Val(data);
      forall v: nat | v < 0x1_0000_0000_0000_0000 && At(bytes, old(pos), BE64(v)) ensures n == v {
        ValBE(8, v);
      }
    }

    method Seek(offset: nat)
      modifies `pos
      ensures pos == offset
    {
      pos := offset;
    }

    method SeekEnd() returns (eof: nat)
      modifies `pos
      ensures pos == eof == |bytes|
    {
      pos := |bytes|;
      eof := pos;
    }

    method Truncate()
      modifies this
      ensures bytes == [] && pos == 0
    {
      bytes := [];
      pos := 0;
    }
  }
}
