// Records that the reader in memory does not give as read_file does.
module RamExamples {
  import opened Bytes
  import opened Layout
  import opened CellUpdate
  import opened Fragment
  import opened RecordRead
  import opened RamModel
  import opened RamProperties

  // ----- words of literal bytes -----

  lemma {:induction false} DigitSmall(n: nat, k: nat)
    requires n < 65536
    ensures Digit(n, 0) == n % 256 && Digit(n, 1) == n / 256 && (k >= 2 ==> Digit(n, k) == 0)
    decreases k
  {
    if k > 2 {
      DigitSmall(n / 256, k - 1);
    }
  }

  lemma {:induction false} SmallWord(m: seq<byte>, p: nat, n: nat)
    requires p + 8 <= |m| && n < 65536 && m[p + 6] == n / 256 && m[p + 7] == n % 256
    requires forall i :: p <= i < p + 6 ==> m[i] == 0
    ensures At(m, p, BE64(n)) && Word(m, p, 8) == n && Int64(m, p) == n
  {
    forall i | 0 <= i < 8 ensures BE64(n)[i] == m[p + i] {
      DigitSmall(n, 7 - i);
    }
    assert m[p..p + 8] == BE64(n);
    hide At, Word, Int64;
    Widths();
    WordIs(m, p, 8, n);
    Int64Is(m, p, n);
  }

  lemma {:induction false} TopByte(s: seq<byte>)
    requires |s| > 0
    ensures Val(s) >= s[0] * Pow256(|s| - 1)
    decreases |s|
  {
    if |s| > 1 {
      TopByte(s[..|s| - 1]);
    }
  }

  // ----- a record of one field -----

  function One(c: Cell): Frag {
    Frag(0, [0], [c], 0)
  }

  lemma {:induction false} OneWF(c: Cell)
    requires CellWF(c) && CellTidy(c) && ValueWF(CellValue(c))
    ensures FragWF(One(c)) && CellPos(One(c), 0) == 2 && CellPos(One(c), 1) == LinkPos(One(c)) == 2 + CellSize(c)
    ensures RecordOf(One(c), 1) == [Some(CellValue(c))] && Conforms(One(c), [CellType(c)])
  {
    hide CellWF, CellTidy, ValueWF, CellValue, CellSize;
    var fr := One(c);
    assert Offset(fr.cells, 1) == Offset(fr.cells, 0) + CellSize(fr.cells[0]);
    AssembleAt([0], CellValues([c]), 1, 0);
  }

  lemma {:induction false} OneSound(m: seq<byte>, c: Cell)
    requires CellWF(c) && CellTidy(c) && ValueWF(CellValue(c))
    requires 2 <= |m| && m[0] == 1 && m[1] == 0 && At(m, 2 + CellSize(c), BE64(0))
    requires CellOK(m, 2, c) && CellApart(2, c)
    requires CellFoot(2, c) !! Range(0, 2) && CellFoot(2, c) !! Range(2 + CellSize(c), 10 + CellSize(c))
    ensures Sound(m, [CellType(c)], One(c)) && |One(c).cells| == |One(c).fields| == 1
  {
    hide *;
    OneWF(c);
    OneOK(m, c);
    OneApart(c);
  }

  lemma {:induction false} OneOK(m: seq<byte>, c: Cell)
    requires FragWF(One(c)) && CellWF(c) && CellPos(One(c), 0) == 2 && LinkPos(One(c)) == 2 + CellSize(c)
    requires 2 <= |m| && m[0] == 1 && m[1] == 0 && At(m, 2 + CellSize(c), BE64(0)) && CellOK(m, 2, c)
    ensures FragOK(m, One(c)) && |One(c).cells| == |One(c).fields| == 1
  {
    assert m[0..2] == HeaderBytes([0]);
    hide FragWF, CellWF, CellSize, CellOK, CellPos, LinkPos, BE64, HeaderBytes;
    var fr := One(c);
    assert PartOK(m, fr, 0) && PartOK(m, fr, 1) && PartOK(m, fr, 2);
  }

  lemma {:induction false} OneApart(c: Cell)
    requires FragWF(One(c)) && CellWF(c) && CellPos(One(c), 0) == 2 && LinkPos(One(c)) == 2 + CellSize(c)
    requires CellApart(2, c) && CellFoot(2, c) !! Range(0, 2) && CellFoot(2, c) !! Range(2 + CellSize(c), 10 + CellSize(c))
    ensures FragApart(One(c))
  {
    hide FragWF, CellWF, CellSize, CellApart, CellFoot, CellPos, LinkPos;
    var fr := One(c);
    assert PartFoot(fr, 0) == Range(0, 2) && PartFoot(fr, 1) == CellFoot(2, c);
    assert PartFoot(fr, 2) == Range(2 + CellSize(c), 10 + CellSize(c));
  }

  /** How a record of one unreadable field is seen. */
  lemma {:induction false} OneSeen(m: seq<byte>, c: Cell)
    requires CellWF(c) && CellTidy(c) && ValueWF(CellValue(c)) && Sound(m, [CellType(c)], One(c)) && !Readable(c, |m|)
    ensures CellValue(c).Byte? ==> SeeRecord(m, [CellType(c)], 0) == Got([Some(Byte(0))], 1 + CellSize(c))
    ensures !CellValue(c).Byte? ==> SeeRecord(m, [CellType(c)], 0) == Astray
  {
    var fr := One(c);
    assert fr.at == 0 && fr.fields == [0] && fr.cells == [c];
    hide *;
    WholeRecord(m, [CellType(c)], fr);
    StartsInStep(m, [CellType(c)], fr);
    StepFrom(m, [CellType(c)], fr, 0);
    OneWF(c);
    if CellValue(c).Byte? {
      var seen := SeenAt(m, [CellType(c)], fr, 1);
      assert seen.value == [Some(Byte(0))];
      assert seen == Got(seen.value, seen.end);
    }
  }

  // ----- a moved string -----

  /** A record of one string, moved to offset 27 when an update of the file of 27 bytes made it "A". */
  const MovedString: seq<byte> :=
    [1, 0]
    + [0, 0, 0, 0, 0, 0, 0, 27] + [0, 0, 0, 0, 0, 0, 0, 1] + [0]
    + [0, 0, 0, 0, 0, 0, 0, 0]
    + [0, 0, 0, 0, 0, 0, 0, 2] + [65, 0]

  const MovedCell := TextCell(Buf([], 1), 27, Buf([65], 2))

  /** It reads as "A" from the file, and leads the reader in memory out of its buffer. */
  lemma {:induction false} MovedGoesAstray()
    ensures Sound(MovedString, [TString], One(MovedCell)) && RecordOf(One(MovedCell), 1) == [Some(Text([65]))]
    ensures SeeRecord(MovedString, [TString], 0) == Astray
  {
    MovedCellOK();
    hide *;
    OneWF(MovedCell);
    OneSound(MovedString, MovedCell);
    OneSeen(MovedString, MovedCell);
  }

  lemma {:induction false} MovedCellOK()
    ensures var c, m := MovedCell, MovedString;
            && CellWF(c) && CellTidy(c) && ValueWF(CellValue(c)) && CellSize(c) == 17 && CellType(c) == TString
            && CellValue(c) == Text([65]) && |m| == 37 && m[0] == 1 && m[1] == 0 && At(m, 19, BE64(0))
            && CellOK(m, 2, c) && CellApart(2, c) && CellFoot(2, c) !! Range(0, 2) && CellFoot(2, c) !! Range(19, 27)
            && !Readable(c, |m|)
  {
    MovedWords();
    hide At, BE64, MovedString;
  }

  lemma {:induction false} MovedWords()
    ensures var m := MovedString;
            && |m| == 37 && m[0] == 1 && m[1] == 0 && At(m, 2, BE64(27)) && At(m, 10, BE64(1)) && At(m, 19, BE64(0))
            && At(m, 27, BE64(2)) && At(m, 18, BufBytes(Buf([], 1))) && At(m, 35, BufBytes(Buf([65], 2)))
  {
    var m := MovedString;
    hide At, BE64, Word, Int64, Zeros, Digit, BE;
    SmallWord(m, 2, 27);
    SmallWord(m, 10, 1);
    SmallWord(m, 19, 0);
    SmallWord(m, 27, 2);
    ZeroAt(m, 18);
    MovedBytes(m);
  }

  lemma {:induction false} MovedBytes(m: seq<byte>)
    requires |m| == 37 && m[35] == 65 && m[36] == 0
    ensures At(m, 35, BufBytes(Buf([65], 2)))
  {
    assert m[35..37] == BufBytes(Buf([65], 2));
  }

  // ----- a byte -----

  /** A record of one byte 7. */
  const OneByte: seq<byte> := [1, 0] + [0, 7] + [0, 0, 0, 0, 0, 0, 0, 0]

  const ByteCell := Plain(Byte(7))

  /** It reads as 7 from the file; in memory as 0, and the link behind it is misread and leads out of the buffer. */
  lemma {:induction false} ByteReadsAsZero(rounds: nat)
    ensures Sound(OneByte, [TByte], One(ByteCell)) && RecordOf(One(ByteCell), 1) == [Some(Byte(7))]
    ensures SeeRecord(OneByte, [TByte], 0) == Got([Some(Byte(0))], 3) && LinkPos(One(ByteCell)) == 4
    ensures SeeList(OneByte, [TByte], 0, rounds) == None
  {
    ByteCellOK();
    LinkMisread();
    hide *;
    OneWF(ByteCell);
    OneSound(OneByte, ByteCell);
    OneSeen(OneByte, ByteCell);
    AstrayList(OneByte, [TByte], 0, rounds);
  }

  lemma {:induction false} ByteCellOK()
    ensures var c, m := ByteCell, OneByte;
            && CellWF(c) && CellTidy(c) && ValueWF(CellValue(c)) && CellSize(c) == 2 && CellType(c) == TByte
            && CellValue(c) == Byte(7) && |m| == 12 && m[0] == 1 && m[1] == 0 && At(m, 4, BE64(0))
            && CellOK(m, 2, c) && CellApart(2, c) && CellFoot(2, c) !! Range(0, 2) && CellFoot(2, c) !! Range(4, 12)
            && !Readable(c, |m|)
  {
    var m := OneByte;
    SmallWord(m, 4, 0);
    DigitSmall(7, 1);
    assert m[2..4] == BE16(7);
    hide BE64, OneByte;
  }

  lemma {:induction false} LinkMisread()
    ensures |OneByte| == 12 && Word(OneByte, 3, 8) > 12
  {
    var s := OneByte[3..11];
    TopByte(s);
    assert s[0] == 7;
    assert Pow256(7) >= 2;
  }

  /** A record whose link leads out of the buffer. */
  lemma {:induction false} AstrayList(m: seq<byte>, types: seq<FieldType>, p: nat, rounds: nat)
    requires SeeRecord(m, types, p).Got?
    requires SeeRecord(m, types, p).end + 8 <= |m| < Word(m, SeeRecord(m, types, p).end, 8)
    ensures SeeList(m, types, p, rounds) == None
  {
    hide Word, SeeUpTo;
    if rounds > 0 {
      LostStart(m, types, Word(m, SeeRecord(m, types, p).end, 8), rounds - 1);
    }
  }

  lemma {:induction false} LostStart(m: seq<byte>, types: seq<FieldType>, p: nat, rounds: nat)
    requires p > |m|
    ensures SeeList(m, types, p, rounds) == None
  {
  }

  // ----- zero bytes that a moved string makes up for -----

  /**
   * Nine byte fields 0 and an empty string moved to offset 2560. Read nine bytes early, the
   * string's place is 0 and its size 10, so the pointer ends where it should.
   */
  const MadeUp: seq<byte> :=
    seq(2569, i requires 0 <= i < 2569 =>
      if i == 0 then 10 else if i <= 10 then i - 1 else if i == 35 then 10 else if i == 44 || i == 2567 then 1 else 0)

  const LastCell := TextCell(Buf([], 1), 2560, Buf([], 1))

  const MadeUpTypes: seq<FieldType> := seq(9, _ => TByte) + [TString]

  const MadeUpFrag := Frag(0, seq(10, i requires 0 <= i < 10 => i), seq(9, _ => Plain(Byte(0))) + [LastCell], 0)

  /** Not one field is readable, and still the record and its end come out right. */
  lemma {:induction false} MadeUpComesOut()
    ensures Sound(MadeUp, MadeUpTypes, MadeUpFrag) && !Definite(MadeUpFrag)
    ensures forall k :: 0 <= k < 10 ==> CellWF(MadeUpFrag.cells[k]) && !Readable(MadeUpFrag.cells[k], |MadeUp|)
    ensures forall k :: 0 <= k < |MadeUpFrag.fields| ==> MadeUpFrag.fields[k] < |MadeUpTypes|
    ensures SeeRecord(MadeUp, MadeUpTypes, 0) == Got(RecordOf(MadeUpFrag, |MadeUpTypes|), LinkPos(MadeUpFrag))
  {
    MadeUpParts();
    MadeUpPlaces();
    MadeUpSound();
    hide *;
    WholeRecord(MadeUp, MadeUpTypes, MadeUpFrag);
    ZerosSeen(9);
    LastSeen();
    SeenNext(MadeUp, MadeUpTypes, MadeUpFrag, 9);
    ReadNext(MadeUp, MadeUpTypes, MadeUpFrag, 9);
  }

  lemma {:induction false} MadeUpParts()
    ensures var fr := MadeUpFrag;
            && fr.at == 0 && |fr.fields| == |fr.cells| == 10 && |MadeUpTypes| == 10 && |MadeUp| == 2569 && fr.link == 0
            && (forall k :: 0 <= k < 10 ==> fr.fields[k] == k && CellWF(fr.cells[k]))
            && (forall k :: 0 <= k < 9 ==> fr.cells[k] == Plain(Byte(0)) && MadeUpTypes[k] == TByte)
            && fr.cells[9] == LastCell && MadeUpTypes[9] == TString
            && !Definite(fr)
            && (forall k :: 0 <= k < 10 ==> !Readable(fr.cells[k], |MadeUp|))
    ensures CellWF(LastCell) && CellTidy(LastCell) && CellValue(LastCell) == Text([]) && CellSize(LastCell) == 17
    ensures CellWF(Plain(Byte(0))) && CellTidy(Plain(Byte(0))) && CellValue(Plain(Byte(0))) == Byte(0) && CellSize(Plain(Byte(0))) == 2
    ensures CellType(LastCell) == TString && CellType(Plain(Byte(0))) == TByte && CellApart(29, LastCell)
    ensures ValueWF(Text([])) && ValueWF(Byte(0))
  {
    var fr := MadeUpFrag;
    assert ZeroByte(fr.cells[0]) && !fr.cells[9].Plain?;
  }

  lemma {:induction false} MadeUpOffset(k: nat)
    requires k <= 9 && forall i :: 0 <= i < |MadeUpFrag.cells| ==> CellWF(MadeUpFrag.cells[i])
    ensures |MadeUpFrag.cells| == 10 && Offset(MadeUpFrag.cells, k) == 2 * k
  {
    MadeUpParts();
    hide CellWF, CellSize, MadeUpFrag;
    if k > 0 {
      MadeUpOffset(k - 1);
    }
  }

  lemma {:induction false} MadeUpPlaces()
    ensures FragWF(MadeUpFrag) && Conforms(MadeUpFrag, MadeUpTypes)
    ensures |MadeUpFrag.cells| == 10 && LinkPos(MadeUpFrag) == 46
    ensures forall k: nat :: k <= 9 ==> CellPos(MadeUpFrag, k) == 11 + 2 * k
  {
    MadeUpParts();
    hide MadeUpFrag, MadeUpTypes, LastCell, CellWF, CellTidy, CellValue, ValueWF, CellSize, Definite, Readable;
    var fr := MadeUpFrag;
    forall k: nat | k <= 9 ensures CellPos(fr, k) == 11 + 2 * k {
      MadeUpOffset(k);
    }
    PosNext(fr, 9);
  }

  lemma {:induction false} MadeUpSound()
    ensures Sound(MadeUp, MadeUpTypes, MadeUpFrag)
  {
    hide *;
    MadeUpPlaces();
    MadeUpOK();
    MadeUpApart();
  }

  /** Words of the buffer, found where its bytes are almost all zero. */
  lemma {:induction false} MadeUpWord(p: nat, n: nat)
    requires n < 65536 && p + 8 <= 2569 && |MadeUp| == 2569 && MadeUp[p + 6] == n / 256 && MadeUp[p + 7] == n % 256
    requires forall i :: p <= i < p + 6 ==> MadeUp[i] == 0
    ensures At(MadeUp, p, BE64(n)) && Word(MadeUp, p, 8) == n && Int64(MadeUp, p) == n
  {
    hide *;
    SmallWord(MadeUp, p, n);
  }

  lemma {:induction false} MadeUpBytes()
    ensures At(MadeUp, 29, BE64(2560)) && At(MadeUp, 37, BE64(1)) && At(MadeUp, 45, BufBytes(Buf([], 1)))
    ensures At(MadeUp, 2560, BE64(1)) && At(MadeUp, 2568, BufBytes(Buf([], 1))) && At(MadeUp, 46, BE64(0))
    ensures Int64(MadeUp, 20) == 0 && Word(MadeUp, 28, 8) == 10 && |MadeUp| == 2569 && MadeUp[36] == 0
  {
    hide At, BE64, Word, Int64, Zeros, Digit, BE;
    MadeUpWord(29, 2560);
    MadeUpWord(37, 1);
    MadeUpWord(2560, 1);
    MadeUpWord(46, 0);
    MadeUpWord(20, 0);
    MadeUpWord(28, 10);
    ZeroAt(MadeUp, 45);
    ZeroAt(MadeUp, 2568);
  }

  lemma {:induction false} ZeroAt(m: seq<byte>, p: nat)
    requires p < |m| && m[p] == 0
    ensures At(m, p, BufBytes(Buf([], 1)))
  {
    assert m[p..p + 1] == [0];
  }

  lemma {:induction false} ZeroBytesAt(k: nat)
    requires k < 9
    ensures At(MadeUp, 11 + 2 * k, BE16(0))
  {
    DigitSmall(0, 1);
    assert MadeUp[11 + 2 * k..13 + 2 * k] == BE16(0);
  }

  lemma {:induction false} MadeUpHeader()
    ensures FragWF(MadeUpFrag) && At(MadeUp, 0, HeaderBytes(MadeUpFrag.fields))
  {
    MadeUpPlaces();
    assert MadeUp[0..11] == HeaderBytes(MadeUpFrag.fields);
  }

  lemma {:induction false} MadeUpOK()
    ensures FragWF(MadeUpFrag) && FragOK(MadeUp, MadeUpFrag)
  {
    MadeUpPlaces();
    MadeUpParts();
    MadeUpBytes();
    MadeUpHeader();
    var m, fr := MadeUp, MadeUpFrag;
    hide At, HeaderBytes, BufBytes, CString, MadeUp, MadeUpFrag, MadeUpTypes, FragWF, Conforms, CellPos, CellTidy, CellValue, ValueWF, CellSize, Definite, Readable, BE64, BE16, Int64, Word;
    forall i: nat | i < 12 ensures PartOK(m, fr, i) {
      if 0 < i <= 10 {
        assert CellPos(fr, i - 1) == 11 + 2 * (i - 1);
        if i < 10 {
          ZeroBytesAt(i - 1);
        }
      }
    }
  }

  lemma {:induction false} MadeUpApart()
    ensures FragWF(MadeUpFrag) && FragApart(MadeUpFrag)
  {
    MadeUpPlaces();
    MadeUpParts();
    hide MadeUp, MadeUpFrag, MadeUpTypes, FragWF, Conforms, CellPos, CellTidy, CellValue, ValueWF, CellSize, Definite, Readable;
    var fr := MadeUpFrag;
    forall i: nat | i < 12
      ensures PartFoot(fr, i) == if i == 0 then Range(0, 11) else if i <= 9 then Range(9 + 2 * i, 11 + 2 * i)
                                 else if i == 10 then Range(29, 46) + Range(2560, 2569) else Range(46, 54)
    {
      if 0 < i <= 10 {
        assert CellPos(fr, i - 1) == 11 + 2 * (i - 1);
      }
    }
  }

  /** The zero bytes are seen as they are, each one byte further behind. */
  lemma {:induction false} ZerosSeen(k: nat)
    requires k <= 9
    ensures FragWF(MadeUpFrag) && Conforms(MadeUpFrag, MadeUpTypes) && |MadeUpFrag.fields| == 10
    ensures SeenAt(MadeUp, MadeUpTypes, MadeUpFrag, k) == Got(ReadAt(MadeUpFrag, MadeUpTypes, k).value, 11 + k)
  {
    MadeUpParts();
    hide *;
    MadeUpPlaces();
    MadeUpSound();
    if k == 0 {
      StartsInStep(MadeUp, MadeUpTypes, MadeUpFrag);
      ReadNext(MadeUp, MadeUpTypes, MadeUpFrag, 0);
    } else {
      ZerosSeen(k - 1);
      SeenNext(MadeUp, MadeUpTypes, MadeUpFrag, k - 1);
      ReadNext(MadeUp, MadeUpTypes, MadeUpFrag, k - 1);
      ByteSeen(11 + (k - 1));
    }
  }

  lemma {:induction false} ByteSeen(p: nat)
    requires 11 <= p < 29
    ensures SeeField(MadeUp, p, TByte) == Got(Byte(0), p + 1)
  {
  }

  lemma {:induction false} LastSeen()
    ensures SeeField(MadeUp, 20, TString) == Got(Text([]), 46)
  {
    MadeUpBytes();
    hide MadeUp, Int64, Word, At;
    assert MadeUp[36..46][0] == MadeUp[36];
    SeeTextIs(MadeUp, 20, 0, 10);
    SeeTextField(MadeUp, 20);
  }
}
