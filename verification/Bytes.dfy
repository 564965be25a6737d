// Bytes, big-endian words and the slices of a flat file.
module Bytes {
  type byte = x: int | 0 <= x < 256
  type u32 = x: int | 0 <= x < 0x1_0000_0000
  type u64 = x: int | 0 <= x < 0x1_0000_0000_0000_0000
  type i32 = x: int | -0x8000_0000 <= x < 0x8000_0000
  type i64 = x: int | -0x8000_0000_0000_0000 <= x < 0x8000_0000_0000_0000

  const OFF_MAX: int := 0x7fff_ffff_ffff_ffff // the largest off_t

  datatype Option<+T> = None | Some(value: T)

  /** The k-th base-256 digit of n, least significant first. */
  function Digit(n: nat, k: nat): byte
    decreases k
  {
    if k == 0 then n % 256 else Digit(n / 256, k - 1)
  }

  /** The number written in base 256, most significant byte first. */
  function BE(width: nat, n: nat): (s: seq<byte>)
    ensures |s| == width
  {
    seq(width, i requires 0 <= i < width => Digit(n, width - 1 - i))
  }

  function Val(s: seq<byte>): nat {
    if |s| == 0 then 0 else Val(s[..|s| - 1]) * 256 + s[|s| - 1]
  }

  function Pow256(width: nat): nat {
    if width == 0 then 1 else 256 * Pow256(width - 1)
  }

  lemma {:induction false} ValBE(width: nat, n: nat)
    requires n < Pow256(width)
    ensures Val(BE(width, n)) == n
    decreases width
  {
    if width > 0 {
      ValBE(width - 1, n / 256);
      forall i | 0 <= i < width - 1 ensures BE(width, n)[i] == BE(width - 1, n / 256)[i] {
        assert Digit(n, width - 1 - i) == Digit(n / 256, width - 2 - i);
      }
      assert BE(width, n)[..width - 1] == BE(width - 1, n / 256);
      var last := width - 1;
      assert BE(width, n)[last] == Digit(n, width - 1 - last) == n % 256;
    }
  }

  /** htonl / htons / bswap_64 followed by the bytes in memory order. */
  function BE16(n: nat): (s: seq<byte>)
    ensures |s| == 2
  {
    BE(2, n)
  }

  function BE32(n: nat): (s: seq<byte>)
    ensures |s| == 4
  {
    BE(4, n)
  }

  function BE64(n: nat): (s: seq<byte>)
    ensures |s| == 8
  {
    BE(8, n)
  }

  /** Two's complement of a C int or long, as the unsigned word that is swapped. */
  function Unsigned32(x: i32): (u: u32)
  {
    if x < 0 then x + 0x1_0000_0000 else x
  }

  function Signed32(u: nat): (x: int)
    ensures forall y: i32 :: u == Unsigned32(y) ==> x == y
  {
    if u >= 0x8000_0000 then u - 0x1_0000_0000 else u
  }

  function Unsigned64(x: i64): (u: u64)
  {
    if x < 0 then x + 0x1_0000_0000_0000_0000 else x
  }

  function Signed64(u: nat): (x: int)
    ensures forall y: i64 :: u == Unsigned64(y) ==> x == y
  {
    if u >= 0x8000_0000_0000_0000 then u - 0x1_0000_0000_0000_0000 else u
  }

  function Zeros(n: nat): (s: seq<byte>)
    ensures |s| == n
    ensures forall i :: 0 <= i < n ==> s[i] == 0
  {
    seq(n, _ => 0)
  }

  /** The bytes `data` stand at offset `p` of `b`. */
  ghost predicate At(b: seq<byte>, p: nat, data: seq<byte>) {
    p + |data| <= |b| && b[p..p + |data|] == data
  }

  lemma AtConcat(b: seq<byte>, p: nat, s: seq<byte>, t: seq<byte>)
    ensures At(b, p, s + t) <==> At(b, p, s) && At(b, p + |s|, t)
  {
    if At(b, p, s + t) {
      assert b[p..p + |s|] == (s + t)[..|s|];
      assert b[p + |s|..p + |s| + |t|] == (s + t)[|s|..];
    }
    if At(b, p, s) && At(b, p + |s|, t) {
      assert b[p..p + |s + t|] == b[p..p + |s|] + b[p + |s|..p + |s| + |t|];
    }
  }

  /** `b'` has every byte of `b`, except that those at [lo, hi) may differ. */
  ghost predicate Same(b: seq<byte>, b': seq<byte>, lo: nat, hi: nat) {
    |b| <= |b'| && forall i: nat :: i < |b| && !(lo <= i < hi) ==> b'[i] == b[i]
  }

  lemma AtBeside(b: seq<byte>, b': seq<byte>, p: nat, data: seq<byte>, lo: nat, hi: nat)
    requires At(b, p, data) && Same(b, b', lo, hi)
    requires p + |data| <= lo || hi <= p
    ensures At(b', p, data)
  {
    assert b'[p..p + |data|] == b[p..p + |data|];
  }

  lemma {:induction false} SameJoin(b: seq<byte>, m: seq<byte>, b': seq<byte>, lo: nat, hi: nat,
                                    lo': nat, hi': nat, l: nat, h: nat)
    requires Same(b, m, lo, hi) && Same(m, b', lo', hi')
    requires hi <= lo || (l <= lo && hi <= h)
    requires hi' <= lo' || (l <= lo' && hi' <= h)
    ensures Same(b, b', l, h)
  {
  }

  ghost predicate IsRange(s: set<nat>, lo: nat, hi: nat) {
    forall i: nat :: i in s <==> lo <= i < hi
  }

  /** The offsets in [lo, hi). */
  ghost function Range(lo: nat, hi: nat): (s: set<nat>)
    ensures IsRange(s, lo, hi)
  {
    RangeExists(lo, hi);
    var s :| IsRange(s, lo, hi);
    s
  }

  lemma {:induction false} RangeExists(lo: nat, hi: nat)
    ensures exists s :: IsRange(s, lo, hi)
    decreases hi
  {
    if hi <= lo {
      assert IsRange({}, lo, hi);
    } else {
      RangeExists(lo, hi - 1);
      var s: set<nat> :| IsRange(s, lo, hi - 1);
      assert IsRange(s + {hi - 1}, lo, hi);
    }
  }

  lemma RangesApart(a: nat, b: nat, c: nat, d: nat)
    requires a < b && c < d && Range(a, b) !! Range(c, d)
    ensures b <= c || d <= a
  {
    var i := if a < c then c else a;
    assert i in Range(a, b) <==> i < b;
    assert i in Range(c, d) <==> i < d;
  }

  /** `b'` has every byte of `b`, except that those in `touched` may differ. */
  ghost predicate Frame(b: seq<byte>, b': seq<byte>, touched: set<nat>) {
    |b| <= |b'| && forall i: nat :: i < |b| && i !in touched ==> b'[i] == b[i]
  }

  lemma AtFrame(b: seq<byte>, b': seq<byte>, p: nat, data: seq<byte>, touched: set<nat>)
    requires At(b, p, data) && Frame(b, b', touched)
    requires forall i: nat :: p <= i < p + |data| ==> i !in touched
    ensures At(b', p, data)
  {
    assert b'[p..p + |data|] == b[p..p + |data|];
  }

  // ----- the bytes of a word -----

  /** The last byte of a word is the lowest, and the others are those of the rest. */
  lemma {:induction false} BENext(width: nat, n: nat)
    ensures BE(0, n) == [] && BE(width + 1, n) == BE(width, n / 256) + [n % 256]
  {
    forall i | 0 <= i < width ensures BE(width + 1, n)[i] == BE(width, n / 256)[i] {
      assert Digit(n, width - i) == Digit(n / 256, width - 1 - i);
    }
    assert BE(width + 1, n)[width] == Digit(n, 0) == n % 256;
    assert BE(width + 1, n) == BE(width, n / 256) + [n % 256];
  }

  lemma {:induction false} BEZero(width: nat)
    ensures BE(width, 0) == Zeros(width)
  {
    if width > 0 {
      BEZero(width - 1);
      BENext(width - 1, 0);
      assert Zeros(width - 1) + [0] == Zeros(width);
    }
  }

  lemma {:induction false} TwoBytes(n: nat)
    requires n < 0x1_0000
    ensures BE(2, n) == [n / 256, n % 256]
  {
    BENext(1, n);
    BENext(0, n / 256);
    hide BE;
  }

  lemma {:induction false} FourBytes(n: nat)
    requires n < 0x1_0000_0000
    ensures BE(4, n) == [n / 0x100_0000, n / 0x1_0000 % 256, n / 0x100 % 256, n % 256]
  {
    hide *;
    var k := n / 0x1_0000;
    BENext(3, n);
    BENext(2, n / 0x100);
    assert n / 0x100 / 0x100 == k;
    TwoBytes(k);
    assert k / 0x100 == n / 0x100_0000;
  }

  lemma {:induction false} SmallLong(n: nat)
    requires n < 0x1_0000
    ensures BE(8, n) == [0, 0, 0, 0, 0, 0, n / 256, n % 256]
  {
    BENext(7, n);
    BENext(6, n / 256);
    BEZero(6);
    hide BE;
  }
}
