// The bytes of the data file as they stand there, written out without cells and layouts.
module FileFormat {
  import opened Bytes
  import opened Layout
  import opened CellUpdate
  import opened Fragment
  import opened RecordFile
  import opened RecordWrite

  // ----- one value -----

  /** A value as a first write leaves it: what the update branches find there later. */
  function ValueBytes(v: Value): seq<byte> {
    match v
    case Int(i) => BE(4, if i < 0 then i + 0x1_0000_0000 else i)
    case Long(l) => LongWord(l)
    case Float(bits) => BE(4, bits)
    case Byte(c) => [0, c]
    case Text(s) => BE(8, 0) + BE(8, 2 * |s| + 1) + s + Zeros(|s| + 1)
    case Longs(xs) => BE(4, |xs|) + BE(4, 0) + LongBytes(xs) + BE(8, 0)
  }

  function LongWord(l: i64): seq<byte> {
    BE(8, if l < 0 then l + 0x1_0000_0000_0000_0000 else l)
  }

  function LongBytes(xs: seq<i64>): seq<byte> {
    if xs == [] then [] else LongBytes(xs[..|xs| - 1]) + LongWord(xs[|xs| - 1])
  }

  lemma {:induction false} WordsAre(xs: seq<i64>)
    ensures Words(xs) == LongBytes(xs)
  {
    if xs != [] {
      WordsAre(xs[..|xs| - 1]);
    }
  }

  lemma {:induction false} ByteIs(c: byte)
    ensures BE16(c) == [0, c]
  {
    TwoBytes(c);
  }

  /** The fresh cell of a value says exactly its bytes. */
  lemma {:induction false} CellBytes(b: seq<byte>, p: nat, v: Value)
    requires ValueWF(v)
    ensures CellWF(Fresh(p, v)) && CellSize(Fresh(p, v)) == |ValueBytes(v)|
    ensures CellOK(b, p, Fresh(p, v)) <==> At(b, p, ValueBytes(v))
  {
    hide *;
    if v.Text? {
      TextBytes(b, p, v.s);
    } else if v.Longs? {
      LongsCellBytes(b, p, v.xs);
    } else {
      PlainBytes(b, p, v);
    }
  }

  lemma {:induction false} PlainBytes(b: seq<byte>, p: nat, v: Value)
    requires !v.Text? && !v.Longs?
    ensures CellWF(Fresh(p, v)) && CellSize(Fresh(p, v)) == |ValueBytes(v)|
    ensures CellOK(b, p, Fresh(p, v)) <==> At(b, p, ValueBytes(v))
  {
    hide BE;
    if v.Byte? {
      ByteIs(v.b);
    }
    assert FixedBytes(v) == ValueBytes(v);
    hide At, FixedBytes, ValueBytes;
  }

  lemma {:induction false} LongsCellBytes(b: seq<byte>, p: nat, xs: seq<i64>)
    requires ValueWF(Longs(xs))
    ensures var v := Longs(xs);
            && CellWF(Fresh(p, v)) && CellSize(Fresh(p, v)) == |ValueBytes(v)|
            && (CellOK(b, p, Fresh(p, v)) <==> At(b, p, ValueBytes(v)))
  {
    var k := Block(p, xs, []);
    LongsBytes(b, p, xs);
    assert CellWF(Fresh(p, Longs(xs))) by {
      FreshFacts(p, Longs(xs));
    }
    hide BlockOK, At, ValueBytes, BE, Words;
    assert BlocksOK(b, [k]) <==> BlockOK(b, k, 0) by {
      assert Next([k], 0) == 0;
    }
  }

  lemma {:induction false} TextBytes(b: seq<byte>, p: nat, s: seq<byte>)
    requires ValueWF(Text(s))
    ensures var c := Fresh(p, Text(s));
            CellWF(c) && CellSize(c) == |ValueBytes(Text(s))| && (CellOK(b, p, c) <==> At(b, p, ValueBytes(Text(s))))
  {
    var x, y, z := BE(8, 0), BE(8, 2 * |s| + 1), s + Zeros(|s| + 1);
    assert ValueBytes(Text(s)) == x + y + z;
    assert BufBytes(Buf(s, 2 * |s| + 1)) == z;
    hide BE, At, ValueBytes, BufBytes, Zeros;
    AtConcat(b, p, x + y, z);
    AtConcat(b, p, x, y);
  }

  lemma {:induction false} LongsBytes(b: seq<byte>, p: nat, xs: seq<i64>)
    requires |xs| < 0x8000_0000
    ensures var k := Block(p, xs, []);
            BlockSize(k) == |ValueBytes(Longs(xs))| && (BlockOK(b, k, 0) <==> At(b, p, ValueBytes(Longs(xs))))
  {
    WordsAre(xs);
    var w, x, y, z := BE(4, |xs|), BE(4, 0), Words(xs), BE(8, 0);
    assert ValueBytes(Longs(xs)) == w + x + y + z;
    assert xs + [] == xs;
    hide BE, At, ValueBytes, Words, LongBytes;
    AtConcat(b, p, w + x + y, z);
    AtConcat(b, p, w + x, y);
    AtConcat(b, p, w, x);
  }

  /** A string moved away. */
  lemma {:induction false} MovedBytes(b: seq<byte>, p: nat, inl: Buf, loc: nat, ovf: Buf)
    requires CellWF(TextCell(inl, loc, ovf)) && loc > 0
    ensures CellOK(b, p, TextCell(inl, loc, ovf)) <==>
              && At(b, p, BE(8, loc) + BE(8, inl.size) + (inl.s + Zeros(inl.size - |inl.s|)))
              && At(b, loc, BE(8, ovf.size) + (ovf.s + Zeros(ovf.size - |ovf.s|)))
  {
    hide BE, At, CString, Zeros;
    AtConcat(b, p, BE(8, loc) + BE(8, inl.size), BufBytes(inl));
    AtConcat(b, p, BE(8, loc), BE(8, inl.size));
    AtConcat(b, loc, BE(8, ovf.size), BufBytes(ovf));
  }

  /** A block of an array, with padding and a link. */
  lemma {:induction false} BlockBytes(b: seq<byte>, k: Block, next: nat)
    ensures BlockOK(b, k, next) <==>
              At(b, k.at, BE(4, |k.xs|) + BE(4, |k.pad|) + LongBytes(k.xs + k.pad) + BE(8, next))
  {
    WordsAre(k.xs + k.pad);
    var w, x, y, z := BE(4, |k.xs|), BE(4, |k.pad|), Words(k.xs + k.pad), BE(8, next);
    hide BE, At, Words, LongBytes;
    AtConcat(b, k.at, w + x + y, z);
    AtConcat(b, k.at, w + x, y);
    AtConcat(b, k.at, w, x);
  }

  // ----- a record -----

  function ValuesBytes(vals: seq<Value>, n: nat): seq<byte>
    requires n <= |vals|
  {
    if n == 0 then [] else ValuesBytes(vals, n - 1) + ValueBytes(vals[n - 1])
  }

  /** How many fields are set, their numbers, their values, and no link. */
  function RecordBytes(rec: Record): seq<byte>
    requires |rec| <= MAX_FIELD_NR
  {
    FieldsFacts(rec);
    [|Fields(rec)|] + seq(|Fields(rec)|, k requires 0 <= k < |Fields(rec)| => Fields(rec)[k])
    + ValuesBytes(Vals(rec), |Vals(rec)|) + BE(8, 0)
  }

  lemma {:induction false} ValuesLaid(b: seq<byte>, vals: seq<Value>, p: nat, n: nat, k: nat)
    requires AllWF(vals) && k <= n <= |vals| && Placed(b, vals, p, n) && p <= |b|
    ensures At(b, p, ValuesBytes(vals, k)) && Offset(FreshCells(vals, p, k), k) == |ValuesBytes(vals, k)|
    decreases k
  {
    hide *;
    StartOf(b, vals, p);
    if k > 0 {
      ValuesLaid(b, vals, p, n, k - 1);
      NextLaid(b, vals, p, n, k - 1);
      AtConcat(b, p, ValuesBytes(vals, k - 1), ValueBytes(vals[k - 1]));
      MoreValues(vals, k);
    }
  }

  lemma {:induction false} StartOf(b: seq<byte>, vals: seq<Value>, p: nat)
    requires AllWF(vals) && p <= |b|
    ensures ValuesBytes(vals, 0) == [] && At(b, p, []) && Offset(FreshCells(vals, p, 0), 0) == 0
  {
  }

  lemma {:induction false} MoreValues(vals: seq<Value>, k: nat)
    requires 0 < k <= |vals|
    ensures ValuesBytes(vals, k) == ValuesBytes(vals, k - 1) + ValueBytes(vals[k - 1])
  {
  }

  lemma {:induction false} NextLaid(b: seq<byte>, vals: seq<Value>, p: nat, n: nat, k: nat)
    requires AllWF(vals) && k < n <= |vals| && Placed(b, vals, p, n)
    ensures var q := Offset(FreshCells(vals, p, k), k);
            && At(b, p + q, ValueBytes(vals[k]))
            && Offset(FreshCells(vals, p, k + 1), k + 1) == q + |ValueBytes(vals[k])|
  {
    hide *;
    PlacedAt(b, vals, p, n, k);
    CellBytes(b, p + Offset(FreshCells(vals, p, k), k), vals[k]);
    OffsetNext(vals, p, k);
  }

  lemma {:induction false} PlacedAt(b: seq<byte>, vals: seq<Value>, p: nat, n: nat, k: nat)
    requires AllWF(vals) && k < n <= |vals| && Placed(b, vals, p, n)
    ensures var q := p + Offset(FreshCells(vals, p, k), k);
            ValueWF(vals[k]) && CellWF(Fresh(q, vals[k])) && CellOK(b, q, Fresh(q, vals[k]))
  {
    hide FreshCells, Offset, CellOK, Fresh, CellSize, ValueWF, CellWF;
    assert CellPlaced(b, FreshCells(vals, p, n), p, k);
    FreshPrefix(vals, p, k, n);
    FreshCell(vals, p, k, n);
  }

  /** write_file(update = 0) adds exactly these bytes at the end of the file. */
  lemma {:induction false} AppendWrites(b: seq<byte>, b': seq<byte>, rec: Record)
    requires AllWF(Vals(rec)) && |rec| <= MAX_FIELD_NR && |Fields(rec)| > 0
    requires Appended(b, b', FreshFrag(|b|, rec, 0))
    ensures b' == b + RecordBytes(rec)
  {
    hide *;
    FreshPlan(|b|, rec);
    var fr, p, n := FreshFrag(|b|, rec, 0), |b| + 1 + |Fields(rec)|, |Vals(rec)|;
    AppendedParts(b, b', fr, Vals(rec), p);
    ValuesLaid(b', Vals(rec), p, n, n);
    RecordIs(rec);
    var x, y, z := HeaderBytes(Fields(rec)), ValuesBytes(Vals(rec), n), BE(8, 0);
    AtConcat(b', |b|, x, y);
    AtConcat(b', |b|, x + y, z);
    EndsWith(b, b', x + y + z);
  }

  lemma {:induction false} AppendedParts(b: seq<byte>, b': seq<byte>, fr: Frag, vals: seq<Value>, p: nat)
    requires Appended(b, b', fr) && AllWF(vals) && FragWF(fr) && |fr.cells| == |vals| && fr.cells == FreshCells(vals, p, |vals|)
    requires CellPos(fr, 0) == p && fr.link == 0
    ensures At(b', |b|, HeaderBytes(fr.fields)) && At(b', LinkPos(fr), BE(8, 0)) && Placed(b', vals, p, |vals|)
    ensures b <= b' && |b'| == LinkPos(fr) + 8 && p <= |b'|
  {
    hide *;
    AppendedEnds(b, b', fr);
    forall i: nat | i < |vals| ensures CellPlaced(b', fr.cells, p, i) {
      AppendedCell(b, b', fr, i);
    }
    AllPlaced(b', vals, p);
  }

  lemma {:induction false} AllPlaced(b: seq<byte>, vals: seq<Value>, p: nat)
    requires AllWF(vals) && forall i: nat :: i < |vals| ==> CellPlaced(b, FreshCells(vals, p, |vals|), p, i)
    ensures Placed(b, vals, p, |vals|)
  {
    hide CellPlaced, FreshCells;
  }

  lemma {:induction false} AppendedEnds(b: seq<byte>, b': seq<byte>, fr: Frag)
    requires Appended(b, b', fr) && fr.link == 0
    ensures At(b', |b|, HeaderBytes(fr.fields)) && At(b', LinkPos(fr), BE(8, 0)) && |b'| == LinkPos(fr) + 8 && b <= b'
    ensures CellPos(fr, 0) <= |b'| && forall i :: 0 <= i < |fr.cells| ==> CellWF(fr.cells[i])
  {
    assert PartOK(b', fr, 0) && PartOK(b', fr, |fr.cells| + 1);
    hide CellOK, CellSize, CellWF, CellTidy, CellValue, ValueWF, BE, HeaderBytes, At, Offset;
    OffsetMonotone(fr.cells, 0, |fr.cells|);
  }

  lemma {:induction false} AppendedCell(b: seq<byte>, b': seq<byte>, fr: Frag, i: nat)
    requires Appended(b, b', fr) && i < |fr.cells|
    ensures (forall x :: 0 <= x < |fr.cells| ==> CellWF(fr.cells[x])) && CellPlaced(b', fr.cells, CellPos(fr, 0), i)
  {
    hide CellOK, CellSize, CellWF, CellTidy, CellValue, ValueWF, At;
    assert PartOK(b', fr, i + 1);
    hide FragOK;
  }

  lemma {:induction false} RecordIs(rec: Record)
    requires |rec| <= MAX_FIELD_NR
    ensures |Fields(rec)| <= MAX_FIELD_NR && (forall k :: 0 <= k < |Fields(rec)| ==> Fields(rec)[k] < MAX_FIELD_NR)
    ensures RecordBytes(rec) == HeaderBytes(Fields(rec)) + ValuesBytes(Vals(rec), |Vals(rec)|) + BE(8, 0)
    ensures |HeaderBytes(Fields(rec))| == 1 + |Fields(rec)|
  {
    FieldsFacts(rec);
  }

  lemma {:induction false} EndsWith(b: seq<byte>, b': seq<byte>, data: seq<byte>)
    requires b <= b' && At(b', |b|, data) && |b'| == |b| + |data|
    ensures b' == b + data
  {
    assert b' == b'[..|b|] + b'[|b|..];
  }

  // ----- one record, byte by byte -----

  const Sample: Record :=
    [Some(Int(-2)), None, Some(Long(258)), Some(Float(0x3F80_0000)), Some(Byte(7)), Some(Text([97, 98])), Some(Longs([1, -1]))]

  const SampleBytes: seq<byte> :=
    [6] + [0, 2, 3, 4, 5, 6]
    + ([255, 255, 255, 254]
       + [0, 0, 0, 0, 0, 0, 1, 2]
       + [63, 128, 0, 0]
       + [0, 7]
       + ([0, 0, 0, 0, 0, 0, 0, 0] + [0, 0, 0, 0, 0, 0, 0, 5] + [97, 98, 0, 0, 0])
       + ([0, 0, 0, 2] + [0, 0, 0, 0]
          + ([0, 0, 0, 0, 0, 0, 0, 1] + [255, 255, 255, 255, 255, 255, 255, 255])
          + [0, 0, 0, 0, 0, 0, 0, 0]))
    + [0, 0, 0, 0, 0, 0, 0, 0]

  /** A file of one record with a field of every type, one field not set. */
  lemma {:induction false} SampleFile(m: seq<byte>)
    requires AllWF(Vals(Sample)) && |Fields(Sample)| > 0 && Appended([], m, FreshFrag(0, Sample, 0))
    ensures m == SampleBytes
  {
    SampleParts();
    SampleValues();
    hide *;
    AppendWrites([], m, Sample);
    assert [] + RecordBytes(Sample) == RecordBytes(Sample);
  }

  lemma {:induction false} SampleParts()
    ensures Fields(Sample) == [0, 2, 3, 4, 5, 6]
    ensures Vals(Sample) == [Int(-2), Long(258), Float(0x3F80_0000), Byte(7), Text([97, 98]), Longs([1, -1])]
    ensures |Sample| == 7 <= MAX_FIELD_NR && AllWF(Vals(Sample))
  {
    SampleActive();
    hide Active, Values;
  }

  lemma {:induction false} SampleActive()
    ensures Active(Sample, 7) == [0, 2, 3, 4, 5, 6]
    ensures Values(Sample, 7) == [Int(-2), Long(258), Float(0x3F80_0000), Byte(7), Text([97, 98]), Longs([1, -1])]
  {
    hide Active, Values;
    SecondNotSet(Sample);
  }

  /** Of seven fields all but the second are set. */
  lemma {:induction false} SecondNotSet(rec: Record)
    requires |rec| == 7 && rec[1] == None && rec[0].Some?
    requires rec[2].Some? && rec[3].Some? && rec[4].Some? && rec[5].Some? && rec[6].Some?
    ensures Active(rec, 7) == [0] + [2] + [3] + [4] + [5] + [6]
    ensures Values(rec, 7) ==
              [rec[0].value] + [rec[2].value] + [rec[3].value] + [rec[4].value] + [rec[5].value] + [rec[6].value]
  {
    ActiveNone(rec);
    hide *;
    ActiveOne(rec, 0);
    assert Active(rec, 1) == [0] && Values(rec, 1) == [rec[0].value];
    ActiveOne(rec, 1);
    ActiveOne(rec, 2);
    ActiveOne(rec, 3);
    ActiveOne(rec, 4);
    ActiveOne(rec, 5);
    ActiveOne(rec, 6);
  }

  lemma {:induction false} ActiveNone(rec: Record)
    ensures Active(rec, 0) == [] && Values(rec, 0) == []
  {
  }

  lemma {:induction false} AllOnes(width: nat, n: nat)
    requires n + 1 == Pow256(width)
    ensures |BE(width, n)| == width && forall i :: 0 <= i < width ==> BE(width, n)[i] == 255
  {
    if width > 0 {
      AllOnes(width - 1, n / 256);
      BENext(width - 1, n);
    }
  }

  lemma {:induction false} SampleNumbers()
    ensures ValueBytes(Int(-2)) == [255, 255, 255, 254] && ValueBytes(Long(258)) == [0, 0, 0, 0, 0, 0, 1, 2]
    ensures ValueBytes(Float(0x3F80_0000)) == [63, 128, 0, 0] && ValueBytes(Byte(7)) == [0, 7]
    ensures BE(8, 0) == [0, 0, 0, 0, 0, 0, 0, 0]
  {
    FourBytes(0xFFFF_FFFE);
    FourBytes(0x3F80_0000);
    SmallLong(258);
    SmallLong(0);
    hide BE;
  }

  lemma {:induction false} SampleText()
    ensures ValueBytes(Text([97, 98])) == [0, 0, 0, 0, 0, 0, 0, 0] + [0, 0, 0, 0, 0, 0, 0, 5] + [97, 98, 0, 0, 0]
  {
    SmallLong(0);
    SmallLong(5);
    assert [97, 98] + Zeros(3) == [97, 98, 0, 0, 0];
    hide BE, Zeros;
  }

  lemma {:induction false} SampleLongs()
    ensures ValueBytes(Longs([1, -1])) ==
              [0, 0, 0, 2] + [0, 0, 0, 0]
              + ([0, 0, 0, 0, 0, 0, 0, 1] + [255, 255, 255, 255, 255, 255, 255, 255])
              + [0, 0, 0, 0, 0, 0, 0, 0]
  {
    TwoLongs();
    FourBytes(2);
    FourBytes(0);
    SmallLong(0);
    hide BE, LongBytes;
  }

  lemma {:induction false} TwoLongs()
    ensures LongBytes([1, -1]) == [0, 0, 0, 0, 0, 0, 0, 1] + [255, 255, 255, 255, 255, 255, 255, 255]
  {
    assert [1, -1][..1] == [1] && [1][..0] == [];
    assert LongBytes([1]) == [] + LongWord(1);
    assert LongBytes([1, -1]) == LongBytes([1]) + LongWord(-1);
    MinusOne();
    SmallLong(1);
    hide BE, LongBytes;
  }

  lemma {:induction false} MinusOne()
    ensures LongWord(-1) == [255, 255, 255, 255, 255, 255, 255, 255]
  {
    assert Pow256(8) == 0x1_0000_0000_0000_0000;
    AllOnes(8, 0xFFFF_FFFF_FFFF_FFFF);
    hide BE, Pow256;
  }

  lemma {:induction false} SixValues(a: Value, b: Value, c: Value, d: Value, e: Value, f: Value)
    ensures ValuesBytes([a, b, c, d, e, f], 6) ==
              ValueBytes(a) + ValueBytes(b) + ValueBytes(c) + ValueBytes(d) + ValueBytes(e) + ValueBytes(f)
  {
    var vals := [a, b, c, d, e, f];
    assert ValuesBytes(vals, 0) == [];
    hide *;
    assert [] + ValueBytes(a) == ValueBytes(a);
    MoreValues(vals, 1);
    MoreValues(vals, 2);
    MoreValues(vals, 3);
    MoreValues(vals, 4);
    MoreValues(vals, 5);
    MoreValues(vals, 6);
  }

  lemma {:induction false} SampleHead()
    ensures |Sample| <= MAX_FIELD_NR && |Vals(Sample)| == 6
    ensures RecordBytes(Sample) == [6] + [0, 2, 3, 4, 5, 6] + ValuesBytes(Vals(Sample), 6) + BE(8, 0)
  {
    hide *;
    SampleParts();
    RecordHead(Sample, [0, 2, 3, 4, 5, 6]);
  }

  lemma {:induction false} RecordHead(rec: Record, fields: seq<byte>)
    requires |rec| <= MAX_FIELD_NR && |Fields(rec)| == |fields| < 256
    requires forall k :: 0 <= k < |fields| ==> Fields(rec)[k] == fields[k]
    ensures RecordBytes(rec) == [|fields|] + fields + ValuesBytes(Vals(rec), |Vals(rec)|) + BE(8, 0)
  {
    hide Fields, Vals, BE, ValuesBytes;
    FieldsFacts(rec);
    assert seq(|Fields(rec)|, k requires 0 <= k < |Fields(rec)| => Fields(rec)[k]) == fields;
  }

  lemma {:induction false} SampleValues()
    ensures |Sample| <= MAX_FIELD_NR && RecordBytes(Sample) == SampleBytes
  {
    SampleHead();
    SampleParts();
    SampleNumbers();
    SampleText();
    SampleLongs();
    SixValues(Int(-2), Long(258), Float(0x3F80_0000), Byte(7), Text([97, 98]), Longs([1, -1]));
    SampleBytesAre();
    hide *;
  }

  lemma {:induction false} SampleBytesAre()
    ensures SampleBytes ==
              [6] + [0, 2, 3, 4, 5, 6]
              + ([255, 255, 255, 254] + [0, 0, 0, 0, 0, 0, 1, 2] + [63, 128, 0, 0] + [0, 7]
                 + ([0, 0, 0, 0, 0, 0, 0, 0] + [0, 0, 0, 0, 0, 0, 0, 5] + [97, 98, 0, 0, 0])
                 + ([0, 0, 0, 2] + [0, 0, 0, 0]
                    + ([0, 0, 0, 0, 0, 0, 0, 1] + [255, 255, 255, 255, 255, 255, 255, 255])
                    + [0, 0, 0, 0, 0, 0, 0, 0]))
              + [0, 0, 0, 0, 0, 0, 0, 0]
  {
  }
}
