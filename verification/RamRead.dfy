// The reader that works on the data file loaded into memory, with its own pointer into the buffer.
module RamRead {
  import opened Bytes
  import opened ByteFile
  import opened Layout
  import opened CellUpdate
  import opened Fragment
  import opened TableModel
  import opened DatabaseModel
  import opened Database
  import opened RamModel
  import opened RamFile
  import DatabaseOps
  import RamLists

  // ----- words -----

  /** memcpy of n bytes at p, and the byte swap. */
  method Fetch(ram: Ram, p: nat, n: nat) returns (w: nat)
    requires ram.Valid() && p + n <= ram.capacity
    ensures w == Word(ram.mem[..], p, n)
  {
    w := 0;
    for i := 0 to n
      invariant w == Val(ram.mem[..][p..p + i])
    {
      ghost var s := ram.mem[..][p..p + i + 1];
      assert s[..i] == ram.mem[..][p..p + i] && s[i] == ram.mem[p + i];
      w := w * 256 + ram.mem[p + i];
    }
  }

  method Fetch32(ram: Ram, p: nat) returns (x: i32)
    requires ram.Valid() && p + 4 <= ram.capacity
    ensures x == Int32(ram.mem[..], p)
  {
    Widths();
    var w := Fetch(ram, p, 4);
    x := Signed32(w);
  }

  method Fetch64(ram: Ram, p: nat) returns (x: i64)
    requires ram.Valid() && p + 8 <= ram.capacity
    ensures x == Int64(ram.mem[..], p)
  {
    Widths();
    var w := Fetch(ram, p, 8);
    x := Signed64(w);
  }

  // ----- fields -----

  /** The string branch: calloc, memcpy, and the C string in the copy. */
  method ReadText(ram: Ram, start: nat) returns (r: Seen<seq<byte>>)
    requires ram.Valid()
    ensures r == SeeText(ram.mem[..], start)
  {
    hide Int64, Word, CStr;
    var p := start;
    if p + 16 > ram.capacity {
      return Astray;
    }
    var loc := Fetch64(ram, p);
    p := p + 8;
    var size := Fetch(ram, p, 8);
    p := p + 8;
    var moveBackTo := 0;
    if loc > 0 {
      moveBackTo := p + size;
      p := loc;
      if p + 8 > ram.capacity {
        return Astray;
      }
      size := Fetch(ram, p, 8);
      p := p + 8;
      size := loc;
    }
    if p + size > ram.capacity {
      return Astray;
    }
    var data := ram.mem[p..p + size];
    assert data == ram.mem[..][p..p + size];
    if 0 !in data {
      return Astray;
    }
    p := p + size;
    if loc > 0 {
      p := moveBackTo;
    }
    r := Got(CStr(data), p);
  }

  /** The elements of one block. */
  method ReadWords(ram: Ram, start: nat, n: nat) returns (xs: seq<i64>, p: nat)
    requires ram.Valid() && start + 8 * n <= ram.capacity
    ensures xs == SeeWords(ram.mem[..], start, n) && p == start + 8 * n
  {
    hide Int64;
    xs, p := [], start;
    for j := 0 to n
      invariant p == start + 8 * j && |xs| == j
      invariant forall i :: 0 <= i < j ==> xs[i] == Int64(ram.mem[..], start + 8 * i)
    {
      var x := Fetch64(ram, p);
      xs := xs + [x];
      p := p + 8;
    }
  }

  /** One turn of the array loop. */
  method ReadBlock(ram: Ram, start: nat) returns (r: Seen<Piece>)
    requires ram.Valid()
    ensures r == SeeBlock(ram.mem[..], start)
  {
    hide Int32, Int64, SeeWords;
    var p := start;
    if p + 8 > ram.capacity {
      return Astray;
    }
    var sz := Fetch32(ram, p);
    p := p + 4;
    var pad := Fetch32(ram, p);
    p := p + 4;
    var n: nat := if sz > 0 then sz else 0;
    var gap: nat := if pad > 0 then pad else 0;
    if p + 8 * n + 8 * gap + 8 > ram.capacity {
      return Astray;
    }
    var xs;
    xs, p := ReadWords(ram, p, n);
    if pad > 0 {
      p := p + 8 * gap;
    }
    var link := Fetch64(ram, p);
    p := p + 8;
    r := Got(Piece(xs, link), p);
  }

  /** The array branch: the blocks along the links, and back behind the link of the first one. */
  method ReadLongs(ram: Ram, start: nat) returns (r: Seen<seq<i64>>)
    requires ram.Valid()
    ensures r == SeeLongs(ram.mem[..], start)
  {
    hide SeeBlock;
    ghost var m := ram.mem[..];
    var p: nat, goBackHere: nat, xs: seq<i64>, rounds: nat := start, 0, [], ram.capacity;
    PrefixedTwice([], xs, SeeChain(m, p, rounds));
    while rounds > 0
      invariant rounds <= |m| == ram.capacity
      invariant SeeChain(m, start, |m|) == Prefixed(xs, SeeChain(m, p, rounds))
      invariant rounds == |m| ==> p == start && goBackHere == 0
      invariant rounds < |m| ==> SeeBlock(m, start).Got? && goBackHere == SeeBlock(m, start).end > 0
    {
      var block := ReadBlock(ram, p);
      if block.Astray? {
        return Astray;
      }
      var Got(piece, end) := block;
      if goBackHere == 0 {
        goBackHere := end;
      }
      if piece.link <= 0 {
        return Got(xs + piece.xs, goBackHere);
      }
      PrefixedTwice(xs, piece.xs, SeeChain(m, piece.link, rounds - 1));
      xs, p, rounds := xs + piece.xs, piece.link, rounds - 1;
    }
    r := Astray;
  }

  /** One field. */
  method ReadField(ram: Ram, p: nat, ty: FieldType) returns (r: Seen<Value>)
    requires ram.Valid()
    ensures r == SeeField(ram.mem[..], p, ty)
  {
    hide Int32, Int64, Word, SeeText, SeeLongs;
    match ty {
      case TInt =>
        if p + 4 > ram.capacity {
          return Astray;
        }
        var n := Fetch32(ram, p);
        r := Got(Int(n), p + 4);
      case TLong =>
        if p + 8 > ram.capacity {
          return Astray;
        }
        var n := Fetch64(ram, p);
        r := Got(Long(n), p + 8);
      case TByte =>
        if p + 1 > ram.capacity {
          return Astray;
        }
        r := Got(Byte(ram.mem[p]), p + 1);
      case TString =>
        var text := ReadText(ram, p);
        r := if text.Got? then Got(Text(text.value), text.end) else Astray;
      case TFloat =>
        if p + 4 > ram.capacity {
          return Astray;
        }
        Widths();
        var n := Fetch(ram, p, 4);
        r := Got(Float(n), p + 4);
      case TLongs =>
        var longs := ReadLongs(ram, p);
        r := if longs.Got? then Got(Longs(longs.value), longs.end) else Astray;
    }
  }

  // ----- a record -----

  /** `read_ram_file`. */
  method ReadRecord(ram: Ram, types: seq<FieldType>, offset: nat) returns (r: Seen<Record>)
    requires ram.Valid()
    ensures r == SeeRecord(ram.mem[..], types, offset)
  {
    hide SeeField;
    ghost var m := ram.mem[..];
    var p: nat := offset;
    if p + 1 > ram.capacity {
      return Astray;
    }
    var count := ram.mem[p];
    p := p + 1;
    if p + count > ram.capacity {
      return Astray;
    }
    var indexes := ram.mem[p..p + count];
    assert indexes == m[p..p + count];
    p := p + count;
    ghost var start := p;
    var rec: Record := seq(|types|, _ => None);
    for i := 0 to count
      invariant SeeUpTo(m, types, indexes, start, i) == Got(rec, p)
    {
      if indexes[i] >= |types| {
        AstrayUpTo(m, types, indexes, start, i + 1, count);
        return Astray;
      }
      var field := ReadField(ram, p, types[indexes[i]]);
      if field.Astray? {
        AstrayUpTo(m, types, indexes, start, i + 1, count);
        return Astray;
      }
      rec, p := rec[indexes[i] := Some(field.value)], field.end;
    }
    r := Got(rec, p);
  }

  lemma {:induction false} AstrayUpTo(m: seq<byte>, types: seq<FieldType>, indexes: seq<nat>, p: nat, j: nat, k: nat)
    requires j <= k <= |indexes| && SeeUpTo(m, types, indexes, p, j).Astray?
    ensures SeeUpTo(m, types, indexes, p, k).Astray?
    decreases k
  {
    hide SeeField;
    if j < k {
      AstrayUpTo(m, types, indexes, p, j, k - 1);
    }
  }

  /** The records from an offset on: read_ram_file, and on to where the word behind the record says. */
  method ReadList(ram: Ram, types: seq<FieldType>, offset: nat) returns (r: Option<seq<Record>>)
    requires ram.Valid()
    ensures r == SeeList(ram.mem[..], types, offset, ram.capacity)
  {
    hide SeeRecord, Word;
    ghost var m := ram.mem[..];
    var p: nat, recs: seq<Record>, rounds: nat := offset, [], ram.capacity;
    PrefixedTwice([], recs, SeeList(m, types, p, rounds));
    while rounds > 0
      invariant rounds <= |m| == ram.capacity
      invariant SeeList(m, types, offset, |m|) == Prefixed(recs, SeeList(m, types, p, rounds))
    {
      var rec := ReadRecord(ram, types, p);
      if rec.Astray? || rec.end + 8 > ram.capacity {
        return None;
      }
      var link := Fetch(ram, rec.end, 8);
      if link == 0 {
        return Some(recs + [rec.value]);
      }
      PrefixedTwice(recs, [rec.value], SeeList(m, types, link, rounds - 1));
      recs, p, rounds := recs + [rec.value], link, rounds - 1;
    }
    r := None;
  }

  // ----- get_record on the loaded file -----

  /** `get_all_record`: the data file in memory. */
  method Load(data: File) returns (ram: Ram)
    modifies data`pos
    ensures fresh(ram) && fresh(ram.mem) && ram.Valid() && ram.Contents() == data.bytes
    ensures ram.mem[..] == RamLists.Image(data.bytes)
    ensures ram.mem.Length == if data.bytes == [] then 3145728 else |data.bytes|
  {
    var eof := data.SeekEnd();
    data.Seek(0);
    ram := new Ram.Sized(eof);
    var all := data.Read(eof);
    ram.Put(all);
    assert all == data.bytes;
    if eof == 0 {
      assert ram.mem[..] == ram.mem[ram.size..];
    } else {
      assert ram.mem[..] == ram.Contents();
    }
  }

  /** get_record says that the key is unknown, loses its way in the buffer, or gives the records. */
  datatype Answer = NotFound | Lost | Found(recs: seq<Record>)

  /** `get_record` with the data file loaded. */
  method GetRecord(data: File, index: File, types: seq<FieldType>, key: Key, ghost s: State) returns (r: Answer)
    requires Inv(s) && DatabaseOps.On(data, index, s) && types == s.db.types && KeyOK(key) && key.Str?
    modifies data`pos, index`pos
    ensures key !in Contents(s) <==> r == NotFound
    ensures key in Contents(s) && RamLists.ReadableFrom(s.data, s.db, key, 0) ==> r == Found(Contents(s)[key])
    ensures key in Contents(s) && RamLists.NoZeroBytes(s.db, key) && r == Found(Contents(s)[key])
            ==> RamLists.ReadableFrom(s.data, s.db, key, 0)
  {
    hide *;
    DatabaseOps.InvParts(s);
    var ram := Load(data);
    var offset := DatabaseOps.Lookup(index, key, s.ts, Starts(s.db));
    if offset == -1 {
      return NotFound;
    }
    RamLists.ListAgrees(s.data, s.db, key);
    var recs := ReadList(ram, types, offset);
    r := if recs.Some? then Found(recs.value) else Lost;
  }
}
