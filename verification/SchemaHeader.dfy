// The schema file: header, field names with their lengths, field types.
module SchemaHeader {
  import opened Bytes
  import opened ByteFile
  import opened Layout

  const HEADER_ID_SYS := 0x657A3234
  const VS := 1
  const MAX_FIELD_NR := 200
  const MAX_FIELD_LT := 32

  datatype Header = Header(id: u32, version: nat, names: seq<seq<byte>>, types: seq<i32>)

  predicate HeaderWF(h: Header) {
    && h.version < 0x1_0000 && |h.names| == |h.types| <= MAX_FIELD_NR
    && forall i :: 0 <= i < |h.names| ==> |h.names[i]| < MAX_FIELD_LT && CString(h.names[i])
  }

  function NameBytes(names: seq<seq<byte>>, n: nat): seq<byte>
    requires n <= |names|
  {
    if n == 0 then [] else NameBytes(names, n - 1) + (BE32(|names[n - 1]| + 1) + (names[n - 1] + [0]))
  }

  function TypeBytes(types: seq<i32>, n: nat): seq<byte>
    requires n <= |types|
  {
    if n == 0 then [] else TypeBytes(types, n - 1) + BE32(Unsigned32(types[n - 1]))
  }

  function Start(h: Header): seq<byte> {
    BE32(h.id) + BE16(h.version) + BE16(|h.names|)
  }

  function HeaderBytes(h: Header): seq<byte> {
    Start(h) + NameBytes(h.names, |h.names|) + TypeBytes(h.types, |h.types|)
  }

  // ----- writing -----

  /** `write_header`: nothing is written when there is no first field name. */
  method WriteHeader(f: File, h: Header) returns (ok: bool)
    requires HeaderWF(h) && f.pos == |f.bytes|
    modifies f
    ensures ok <==> |h.names| > 0 && h.names[0] != []
    ensures !ok ==> f.bytes == old(f.bytes)
    ensures ok ==> Added(old(f.bytes), f.bytes, HeaderBytes(h)) && f.pos == |f.bytes|
  {
    hide *;
    if |h.names| == 0 || h.names[0] == [] {
      return false;
    }
    HeaderIs(h);
    ghost var b := f.bytes;
    f.Write(BE32(h.id));
    ghost var b1 := f.bytes;
    f.Write(BE16(h.version));
    ghost var b2 := f.bytes;
    f.Write(BE16(|h.names|));
    ghost var b3 := f.bytes;
    AddedTwice(b, b1, b2, BE32(h.id), BE16(h.version));
    AddedTwice(b, b2, b3, BE32(h.id) + BE16(h.version), BE16(|h.names|));
    AddedNone(b3);
    for i := 0 to |h.names|
      invariant f.pos == |f.bytes| && Added(b3, f.bytes, NameBytes(h.names, i))
    {
      PutName(f, h.names, i, b3);
    }
    ghost var b4 := f.bytes;
    AddedTwice(b, b3, b4, Start(h), NameBytes(h.names, |h.names|));
    AddedNone(b4);
    for i := 0 to |h.types|
      invariant f.pos == |f.bytes| && Added(b4, f.bytes, TypeBytes(h.types, i))
    {
      ghost var m := f.bytes;
      f.Write(BE32(Unsigned32(h.types[i])));
      TypeStep(h.types, i);
      AddedTwice(b4, m, f.bytes, TypeBytes(h.types, i), BE32(Unsigned32(h.types[i])));
    }
    AddedTwice(b, b4, f.bytes, Start(h) + NameBytes(h.names, |h.names|), TypeBytes(h.types, |h.types|));
    ok := true;
  }

  lemma {:induction false} HeaderIs(h: Header)
    ensures HeaderBytes(h) == Start(h) + NameBytes(h.names, |h.names|) + TypeBytes(h.types, |h.types|)
    ensures Start(h) == BE32(h.id) + BE16(h.version) + BE16(|h.names|)
    ensures NameBytes(h.names, 0) == [] && TypeBytes(h.types, 0) == []
  {
  }

  lemma {:induction false} TypeStep(types: seq<i32>, i: nat)
    requires i < |types|
    ensures TypeBytes(types, i + 1) == TypeBytes(types, i) + BE32(Unsigned32(types[i]))
  {
  }

  method PutName(f: File, names: seq<seq<byte>>, i: nat, ghost b: seq<byte>)
    requires i < |names| && f.pos == |f.bytes| && Added(b, f.bytes, NameBytes(names, i))
    modifies f
    ensures f.pos == |f.bytes| && Added(b, f.bytes, NameBytes(names, i + 1))
  {
    ghost var m := f.bytes;
    hide Added, BE32;
    f.Write(BE32(|names[i]| + 1));
    ghost var m' := f.bytes;
    f.Write(names[i] + [0]);
    AddedTwice(m, m', f.bytes, BE32(|names[i]| + 1), names[i] + [0]);
    AddedTwice(b, m, f.bytes, NameBytes(names, i), BE32(|names[i]| + 1) + (names[i] + [0]));
  }

  // ----- reading -----

  lemma {:induction false} HeaderParts(b: seq<byte>, p: nat, h: Header)
    requires HeaderWF(h) && At(b, p, HeaderBytes(h))
    ensures At(b, p, BE32(h.id)) && At(b, p + 4, BE16(h.version)) && At(b, p + 6, BE16(|h.names|)) && p + 8 <= |b|
    ensures At(b, p + 8, NameBytes(h.names, |h.names|))
    ensures At(b, p + 8 + |NameBytes(h.names, |h.names|)|, TypeBytes(h.types, |h.types|))
    ensures h.version < 0x1_0000 && |h.names| == |h.types| <= 200
    ensures |HeaderBytes(h)| == 8 + |NameBytes(h.names, |h.names|)| + |TypeBytes(h.types, |h.types|)|
    ensures |h.names| == 0 ==> |HeaderBytes(h)| == 8
    ensures NameBytes(h.names, 0) == [] && TypeBytes(h.types, 0) == []
    ensures forall i :: 0 <= i < |h.names| ==> |h.names[i]| < 0xffff_ffff && CString(h.names[i])
  {
    hide BE32, BE16;
    AtConcat(b, p, Start(h) + NameBytes(h.names, |h.names|), TypeBytes(h.types, |h.types|));
    AtConcat(b, p, Start(h), NameBytes(h.names, |h.names|));
    AtConcat(b, p, BE32(h.id) + BE16(h.version), BE16(|h.names|));
    AtConcat(b, p, BE32(h.id), BE16(h.version));
  }

  lemma {:induction false} NameAt(b: seq<byte>, p: nat, names: seq<seq<byte>>, i: nat, n: nat)
    requires i < n <= |names| && At(b, p, NameBytes(names, n))
    ensures var q := p + |NameBytes(names, i)|;
            At(b, q, BE32(|names[i]| + 1)) && At(b, q + 4, names[i] + [0]) && q + 5 + |names[i]| <= |b|
    ensures |NameBytes(names, i + 1)| == |NameBytes(names, i)| + 5 + |names[i]|
    decreases n
  {
    hide BE32;
    var one := BE32(|names[n - 1]| + 1) + (names[n - 1] + [0]);
    AtConcat(b, p, NameBytes(names, n - 1), one);
    if i < n - 1 {
      NameAt(b, p, names, i, n - 1);
    } else {
      AtConcat(b, p + |NameBytes(names, i)|, BE32(|names[i]| + 1), names[i] + [0]);
    }
  }

  lemma {:induction false} TypeAt(b: seq<byte>, p: nat, types: seq<i32>, i: nat, n: nat)
    requires i < n <= |types| && At(b, p, TypeBytes(types, n))
    ensures At(b, p + |TypeBytes(types, i)|, BE32(Unsigned32(types[i])))
    ensures |TypeBytes(types, i + 1)| == |TypeBytes(types, i)| + 4 && p + |TypeBytes(types, i + 1)| <= |b|
    decreases n
  {
    hide BE32;
    AtConcat(b, p, TypeBytes(types, n - 1), BE32(Unsigned32(types[n - 1])));
    if i < n - 1 {
      TypeAt(b, p, types, i, n - 1);
    }
  }

  /** One name: its length, its bytes, and the string in them. */
  method ReadName(f: File, ghost names: seq<seq<byte>>, ghost i: nat, ghost p: nat) returns (name: seq<byte>)
    requires i < |names| && |names[i]| < 0xffff_ffff && CString(names[i]) && At(f.bytes, p, NameBytes(names, |names|))
    requires f.pos == p + |NameBytes(names, i)|
    modifies f`pos
    ensures name == names[i] && f.pos == p + |NameBytes(names, i + 1)|
  {
    hide *;
    NameAt(f.bytes, p, names, i, |names|);
    var l := f.Read32();
    var field := f.Read(l);
    FieldIs(f.bytes, f.pos - l, names[i], l);
    CStrOfBuf(names[i], l);
    name := CStr(field);
  }

  lemma {:induction false} FieldIs(b: seq<byte>, p: nat, name: seq<byte>, l: nat)
    requires l == |name| + 1 && At(b, p, name + [0])
    ensures p + l <= |b| && b[p..p + l] == BufBytes(Buf(name, l))
  {
    assert name + [0] == BufBytes(Buf(name, l));
  }

  /** `read_header`: of the header that was written, if it is one of this program's. */
  method ReadHeader(f: File, ghost h: Header) returns (ok: bool, r: Header)
    requires HeaderWF(h) && At(f.bytes, f.pos, HeaderBytes(h))
    modifies f`pos
    ensures ok <==> h.id == HEADER_ID_SYS && h.version == VS
    ensures ok ==> r == h && f.pos == old(f.pos) + |HeaderBytes(h)|
  {
    hide *;
    ghost var p := f.pos;
    r := Header(0, 0, [], []);
    HeaderParts(f.bytes, p, h);
    var id := f.Read32();
    if id != HEADER_ID_SYS {
      return false, r;
    }
    var vs := f.Read16();
    if vs != VS {
      return false, r;
    }
    var n := f.Read16();
    r := Header(id, vs, [], []);
    if n == 0 {
      assert h.names == [] && h.types == [];
      return true, r;
    }
    var names := ReadNames(f, n, h.names);
    var types := ReadTypes(f, n, h.types);
    ok, r := true, Header(id, vs, names, types);
  }

  lemma {:induction false} NoneYet(names: seq<seq<byte>>, types: seq<i32>)
    ensures NameBytes(names, 0) == [] && TypeBytes(types, 0) == []
  {
  }

  method ReadNames(f: File, n: nat, ghost names: seq<seq<byte>>) returns (r: seq<seq<byte>>)
    requires n == |names| && At(f.bytes, f.pos, NameBytes(names, n))
    requires forall i :: 0 <= i < n ==> |names[i]| < 0xffff_ffff && CString(names[i])
    modifies f`pos
    ensures r == names && f.pos == old(f.pos) + |NameBytes(names, n)|
  {
    hide *;
    NoneYet(names, []);
    r := [];
    ghost var p := f.pos;
    for i := 0 to n
      invariant r == names[..i] && f.pos == p + |NameBytes(names, i)|
    {
      var name := ReadName(f, names, i, p);
      r := r + [name];
    }
  }

  method ReadTypes(f: File, n: nat, ghost types: seq<i32>) returns (r: seq<i32>)
    requires n == |types| && At(f.bytes, f.pos, TypeBytes(types, n))
    modifies f`pos
    ensures r == types && f.pos == old(f.pos) + |TypeBytes(types, n)|
  {
    hide *;
    NoneYet([], types);
    r := [];
    ghost var p := f.pos;
    for i := 0 to n
      invariant r == types[..i] && f.pos == p + |TypeBytes(types, i)|
    {
      TypeAt(f.bytes, p, types, i, n);
      var u := f.Read32();
      r := r + [Signed32(u)];
    }
  }

  // ----- one schema file, byte by byte -----

  /** Id, version and number of fields, each name with its length and NUL, each type. */
  lemma {:induction false} SampleHeader()
    ensures HeaderBytes(Header(HEADER_ID_SYS, VS, [[97], [98, 99]], [0, 3])) ==
              [0x65, 0x7A, 0x32, 0x34] + [0, 1] + [0, 2]
              + (([0, 0, 0, 2] + [97, 0]) + ([0, 0, 0, 3] + [98, 99, 0]))
              + ([0, 0, 0, 0] + [0, 0, 0, 3])
  {
    FourBytes(0x657A_3234);
    TwoBytes(1);
    TwoBytes(2);
    hide BE;
    SampleNames();
    SampleTypes();
    hide NameBytes, TypeBytes;
  }

  lemma {:induction false} SampleNames()
    ensures NameBytes([[97], [98, 99]], 2) == ([0, 0, 0, 2] + [97, 0]) + ([0, 0, 0, 3] + [98, 99, 0])
  {
    FourBytes(2);
    FourBytes(3);
    hide BE;
    var names: seq<seq<byte>> := [[97], [98, 99]];
    assert NameBytes(names, 0) == [];
    assert NameBytes(names, 1) == [0, 0, 0, 2] + [97, 0];
  }

  lemma {:induction false} SampleTypes()
    ensures TypeBytes([0, 3], 2) == [0, 0, 0, 0] + [0, 0, 0, 3]
  {
    FourBytes(0);
    FourBytes(3);
    hide BE;
    var types: seq<i32> := [0, 3];
    assert TypeBytes(types, 0) == [];
    assert TypeBytes(types, 1) == [0, 0, 0, 0];
  }
}
