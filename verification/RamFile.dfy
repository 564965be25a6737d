// The data file kept in memory during a bulk import: a buffer with a size and a capacity.
module RamFile {
  import opened Bytes
  import opened ByteFile
  import opened Layout
  import opened CellUpdate
  import opened Fragment
  import opened RecordFile
  import opened RecordWrite

  const STD_RAM_FILE := 3145728

  /** The buffer after the check for room. */
  function Grown(capacity: nat, size: nat, n: nat): nat {
    var cap := if capacity == 0 then STD_RAM_FILE else capacity;
    if n > cap - size then 2 * cap else cap
  }

  class Ram {
    var mem: array<byte>
    var size: nat
    var capacity: nat

    /** No buffer yet. */
    constructor ()
      ensures Valid() && fresh(mem) && size == 0 && capacity == 0
    {
      mem := new byte[0];
      size, capacity := 0, 0;
    }

    /** `init_ram_file`: n zeros, or the standard size when n is 0, and nothing written yet. */
    constructor Sized(n: nat)
      ensures Valid() && fresh(mem) && size == 0 && capacity == (if n == 0 then STD_RAM_FILE else n)
      ensures mem[..] == Zeros(capacity)
    {
      capacity := if n == 0 then STD_RAM_FILE else n;
      mem := new byte[if n == 0 then STD_RAM_FILE else n](_ => 0);
      size := 0;
    }

    ghost predicate Valid()
      reads this
    {
      size <= capacity == mem.Length
    }

    /** The bytes written so far. */
    ghost function Contents(): (b: seq<byte>)
      requires Valid()
      reads this, mem
      ensures |b| == size
    {
      mem[..size]
    }

    /** Room for n bytes: the buffer is made on the first use, and doubled once when it is short. */
    method Reserve(n: nat)
      requires Valid()
      modifies this
      ensures Valid() && Contents() == old(Contents()) && (mem == old(mem) || fresh(mem))
      ensures capacity == Grown(old(capacity), size, n)
      ensures old(capacity) == 0 && n <= 3145728 ==> capacity == 3145728
      ensures 0 < old(capacity) && size + n <= old(capacity) ==> capacity == old(capacity)
      ensures 0 < old(capacity) < size + n ==> capacity == 2 * old(capacity)
      ensures n <= (if old(capacity) == 0 then STD_RAM_FILE else old(capacity)) ==> size + n <= capacity
    {
      if capacity == 0 {
        mem := new byte[STD_RAM_FILE](_ => 0);
        size, capacity := 0, STD_RAM_FILE;
      }
      if n > capacity - size {
        var buffer := new byte[2 * capacity];
        for i := 0 to size
          invariant Valid() && size == old(size) && (mem == old(mem) || fresh(mem)) && fresh(buffer) && buffer != mem
          invariant capacity == if old(capacity) == 0 then STD_RAM_FILE else old(capacity)
          invariant buffer.Length == 2 * capacity && Contents() == old(Contents()) && buffer[..i] == mem[..i]
        {
          buffer[i] := mem[i];
        }
        capacity := 2 * capacity;
        mem := buffer;
      }
    }

    /** memcpy to the end of the bytes written so far. */
    method Put(data: seq<byte>)
      requires Valid() && size + |data| <= capacity
      modifies `size, mem
      ensures Valid() && Added(old(Contents()), Contents(), data)
      ensures size == old(size) + |data| && mem[size..] == old(mem[size + |data|..])
    {
      for i := 0 to |data|
        invariant Valid() && size == old(size) && size + |data| <= mem.Length
        invariant mem[..size] == old(mem[..size]) && mem[size..size + i] == data[..i]
        invariant mem[size + |data|..] == old(mem[size + |data|..])
      {
        mem[size + i] := data[i];
      }
      size := size + |data|;
      assert mem[..size] == mem[..old(size)] + mem[old(size)..size];
    }
  }

  // ----- sizes -----

  /** The bytes get_disk_size_record reckons for a value (the string's three words are one too many). */
  function Reckoned(v: Value): nat {
    match v
    case Int(_) => 4
    case Long(_) => 8
    case Float(_) => 4
    case Byte(_) => 1
    case Text(s) => 24 + 2 * |s| + 1
    case Longs(xs) => 8 + 8 * |xs| + 8
  }

  function ReckonedUpTo(rec: Record, i: nat): nat
    requires i <= |rec|
  {
    if i == 0 then 0 else ReckonedUpTo(rec, i - 1) + if rec[i - 1].Some? then 1 + Reckoned(rec[i - 1].value) else 0
  }

  /** The reckoned size of a value is that on disk, 8 too many for a string and 1 too few for a byte. */
  lemma {:induction false} ReckonedExactly(p: nat, v: Value)
    requires ValueWF(v)
    ensures CellWF(Fresh(p, v))
    ensures Reckoned(v) == CellSize(Fresh(p, v)) + (if v.Text? then 8 else 0) - (if v.Byte? then 1 else 0)
  {
    FreshFacts(p, v);
  }

  /** How many of the first n values are strings, and how many are bytes. */
  function Strings(vals: seq<Value>, n: nat): nat
    requires n <= |vals|
  {
    if n == 0 then 0 else Strings(vals, n - 1) + if vals[n - 1].Text? then 1 else 0
  }

  function ByteFields(vals: seq<Value>, n: nat): nat
    requires n <= |vals|
  {
    if n == 0 then 0 else ByteFields(vals, n - 1) + if vals[n - 1].Byte? then 1 else 0
  }

  /** The same for all fields below i: one byte for each index, and the values. */
  lemma {:induction false} SizeExactly(rec: Record, p: nat, i: nat)
    requires i <= |rec| && AllWF(Vals(rec))
    ensures var k := |Active(rec, i)|;
            && k <= |Vals(rec)|
            && ReckonedUpTo(rec, i) ==
               k + Offset(FreshCells(Vals(rec), p, k), k) + 8 * Strings(Vals(rec), k) - ByteFields(Vals(rec), k)
  {
    hide *;
    ReckonedNext(rec, i);
    if i == 0 {
      NoCells([], rec, p);
      CountsNext(Vals(rec), 0);
    } else {
      SizeExactly(rec, p, i - 1);
      ActiveStep(rec, i - 1);
      if rec[i - 1].Some? {
        NextValue(rec, i - 1);
        var k := |Active(rec, i - 1)|;
        CountsNext(Vals(rec), k + 1);
        OffsetNext(Vals(rec), p, k);
        ReckonedExactly(p + Offset(FreshCells(Vals(rec), p, k), k), Vals(rec)[k]);
      }
    }
  }

  lemma {:induction false} CountsNext(vals: seq<Value>, n: nat)
    requires n <= |vals|
    ensures n == 0 ==> Strings(vals, n) == 0 == ByteFields(vals, n)
    ensures n > 0 ==> Strings(vals, n) == Strings(vals, n - 1) + if vals[n - 1].Text? then 1 else 0
    ensures n > 0 ==> ByteFields(vals, n) == ByteFields(vals, n - 1) + if vals[n - 1].Byte? then 1 else 0
  {
  }

  /** `get_disk_size_record`. */
  method DiskSize(rec: Record) returns (size: nat)
    ensures size == 1 + ReckonedUpTo(rec, |rec|) + 8
  {
    size := 1;
    for i := 0 to |rec|
      invariant size == 1 + ReckonedUpTo(rec, i)
    {
      if rec[i].Some? {
        size := size + 1 + Reckoned(rec[i].value);
      }
    }
    size := size + 8;
  }

  /** The values whose image in memory is the image on disk. */
  predicate Simple(v: Value) {
    v.Int? || v.Long? || v.Text?
  }

  predicate AllSimple(rec: Record) {
    forall i :: 0 <= i < |rec| && rec[i].Some? ==> Simple(rec[i].value) && ValueWF(rec[i].value)
  }

  /** The cells of the fields below i take no more than was reckoned for them. */
  lemma {:induction false} SizeSuffices(rec: Record, p: nat, i: nat)
    requires AllSimple(rec) && i <= |rec| && AllWF(Vals(rec))
    ensures |Active(rec, i)| <= |Vals(rec)|
    ensures |Active(rec, i)| + Offset(FreshCells(Vals(rec), p, |Active(rec, i)|), |Active(rec, i)|) <= ReckonedUpTo(rec, i)
  {
    hide *;
    ReckonedNext(rec, i);
    if i == 0 {
      NoCells([], rec, p);
    } else {
      SizeSuffices(rec, p, i - 1);
      ActiveStep(rec, i - 1);
      if rec[i - 1].Some? {
        NextValue(rec, i - 1);
        var k := |Active(rec, i - 1)|;
        OffsetNext(Vals(rec), p, k);
        FreshSize(rec, i - 1, p + Offset(FreshCells(Vals(rec), p, k), k));
      }
    }
  }

  lemma {:induction false} ReckonedNext(rec: Record, i: nat)
    requires i <= |rec|
    ensures i == 0 ==> ReckonedUpTo(rec, i) == 0
    ensures i > 0 ==> ReckonedUpTo(rec, i) ==
                        ReckonedUpTo(rec, i - 1) + if rec[i - 1].Some? then 1 + Reckoned(rec[i - 1].value) else 0
  {
  }

  lemma {:induction false} FreshSize(rec: Record, i: nat, p: nat)
    requires AllSimple(rec) && i < |rec| && rec[i].Some? && CellWF(Fresh(p, rec[i].value))
    ensures CellSize(Fresh(p, rec[i].value)) <= Reckoned(rec[i].value)
  {
    hide ValueWF;
  }

  // ----- one value -----

  /** The bytes write_ram_record copies for a value. */
  function CellImage(v: Value): seq<byte>
    requires Simple(v)
  {
    match v
    case Text(s) => BE64(0) + BE64(2 * |s| + 1) + BufBytes(Buf(s, 2 * |s| + 1))
    case _ => FixedBytes(v)
  }

  /** They are the cell that write_file lays out. */
  lemma {:induction false} ImageIsFresh(b: seq<byte>, b': seq<byte>, v: Value)
    requires Simple(v) && ValueWF(v) && Added(b, b', CellImage(v))
    ensures CellWF(Fresh(|b|, v)) && CellOK(b', |b|, Fresh(|b|, v))
    ensures Same(b, b', |b|, |b'|) && |b'| == |b| + CellSize(Fresh(|b|, v)) && b <= b'
  {
    AddedLength(b, b', CellImage(v));
    FreshFacts(|b|, v);
    match v
    case Text(s) =>
      AtConcat(b', |b|, BE64(0) + BE64(2 * |s| + 1), BufBytes(Buf(s, 2 * |s| + 1)));
      AtConcat(b', |b|, BE64(0), BE64(2 * |s| + 1));
    case _ =>
  }

  method PutValue(ram: Ram, v: Value)
    requires ram.Valid() && Simple(v) && ram.size + |CellImage(v)| <= ram.capacity
    modifies ram`size, ram.mem
    ensures ram.Valid() && Added(old(ram.Contents()), ram.Contents(), CellImage(v))
  {
    if v.Text? {
      var s := v.s;
      ghost var b0 := ram.Contents();
      ram.Put(BE64(0));
      ghost var b1 := ram.Contents();
      ram.Put(BE64(2 * |s| + 1));
      ghost var b2 := ram.Contents();
      ram.Put(BufBytes(Buf(s, 2 * |s| + 1)));
      AddedTwice(b0, b1, b2, BE64(0), BE64(2 * |s| + 1));
      AddedTwice(b0, b2, ram.Contents(), BE64(0) + BE64(2 * |s| + 1), BufBytes(Buf(s, 2 * |s| + 1)));
    } else {
      ram.Put(FixedBytes(v));
    }
  }

  // ----- a record -----

  /** The count of active fields and their indexes; nothing is active: only a zero. */
  method PutHeader(ram: Ram, rec: Record) returns (count: nat)
    requires ram.Valid() && |rec| <= MAX_FIELD_NR && ram.size + 1 + |Fields(rec)| <= ram.capacity
    modifies ram`size, ram.mem
    ensures ram.Valid() && count == |Fields(rec)| <= MAX_FIELD_NR
    ensures count == 0 ==> Added(old(ram.Contents()), ram.Contents(), [0])
    ensures count > 0 ==> Added(old(ram.Contents()), ram.Contents(), HeaderBytes(Fields(rec)))
  {
    hide *;
    FieldsFacts(rec);
    ghost var b := ram.Contents();
    count := CountActive(rec);
    ram.Put([count]);
    if count == 0 {
      return;
    }
    IndexStep(rec, 0);
    assert [count] + [] == [count];
    for i := 0 to |rec|
      invariant ram.Valid() && ram.size == |b| + 1 + |Active(rec, i)|
      invariant Added(b, ram.Contents(), [count] + Indexes(Active(rec, i)))
    {
      ActiveStep(rec, i);
      if rec[i].Some? {
        ghost var m := ram.Contents();
        ram.Put([i]);
        IndexStep(rec, i);
        AddedTwice(b, m, ram.Contents(), [count] + Indexes(Active(rec, i)), [i]);
        assert [count] + Indexes(Active(rec, i)) + [i] == [count] + (Indexes(Active(rec, i)) + [i]);
      }
    }
    HeaderIs(rec);
  }

  /** The room the next value needs is part of the room for all of them. */
  lemma {:induction false} RoomForNext(rec: Record, p: nat, i: nat)
    requires AllSimple(rec) && i < |rec| && rec[i].Some? && AllWF(Vals(rec))
    ensures Simple(rec[i].value) && ValueWF(rec[i].value)
    ensures var n := |Vals(rec)|; var k := |Active(rec, i)|;
            && k < n && Vals(rec)[k] == rec[i].value
            && Offset(FreshCells(Vals(rec), p, k), k) + |CellImage(rec[i].value)| <= Offset(FreshCells(Vals(rec), p, n), n)
  {
    hide ValueWF, CellWF;
    ActiveNext(rec, i);
    var n, k := |Vals(rec)|, |Active(rec, i)|;
    FreshPrefix(Vals(rec), p, k, k + 1);
    FreshPrefix(Vals(rec), p, k + 1, n);
    OffsetMonotone(FreshCells(Vals(rec), p, n), k + 1, n);
    FreshFacts(p + Offset(FreshCells(Vals(rec), p, k), k), Vals(rec)[k]);
  }

  /** The field loop of `write_ram_record`. */
  method PutCells(ram: Ram, rec: Record)
    requires ram.Valid() && AllSimple(rec) && AllWF(Vals(rec))
    requires ram.size + Offset(FreshCells(Vals(rec), ram.size, |Vals(rec)|), |Vals(rec)|) <= ram.capacity
    modifies ram`size, ram.mem
    ensures ram.Valid() && Placed(ram.Contents(), Vals(rec), old(ram.size), |Vals(rec)|)
    ensures Same(old(ram.Contents()), ram.Contents(), old(ram.size), ram.size)
    ensures ram.size == old(ram.size) + Offset(FreshCells(Vals(rec), old(ram.size), |Vals(rec)|), |Vals(rec)|)
  {
    hide *;
    ghost var b, p, k := ram.Contents(), ram.size, 0;
    NoCells(b, rec, p);
    for i := 0 to |rec|
      invariant ram.Valid() && k == |Active(rec, i)| <= |Vals(rec)|
      invariant Placed(ram.Contents(), Vals(rec), p, k) && Same(b, ram.Contents(), p, ram.size)
      invariant ram.size == p + Offset(FreshCells(Vals(rec), p, k), k)
    {
      ActiveStep(rec, i);
      if rec[i].Some? {
        RoomForNext(rec, p, i);
        ghost var m := ram.Contents();
        PutValue(ram, rec[i].value);
        ImageIsFresh(m, ram.Contents(), rec[i].value);
        PlaceNext(m, ram.Contents(), Vals(rec), p, k);
        SameTwice(b, m, ram.Contents(), p);
        k := k + 1;
      }
    }
    AllCells(rec);
  }

  /**
   * `write_ram_record`: the same bytes as write_file(update = 0) at the end of a file. A
   * record without active fields leaves a zero byte behind.
   */
  method WriteRecord(ram: Ram, rec: Record) returns (r: int)
    requires ram.Valid() && AllSimple(rec) && |rec| <= MAX_FIELD_NR && AllWF(Vals(rec))
    requires 1 + ReckonedUpTo(rec, |rec|) + 8 <= if ram.capacity == 0 then STD_RAM_FILE else ram.capacity
    modifies ram, ram.mem
    ensures ram.Valid() && (ram.mem == old(ram.mem) || fresh(ram.mem))
    ensures ram.capacity == Grown(old(ram.capacity), old(ram.size), 1 + ReckonedUpTo(rec, |rec|) + 8)
    ensures |Fields(rec)| == 0 ==> r == -1 && Added(old(ram.Contents()), ram.Contents(), [0])
    ensures |Fields(rec)| > 0 ==> r == 0 && Appended(old(ram.Contents()), ram.Contents(), FreshFrag(old(ram.size), rec, 0))
  {
    hide *;
    ghost var b := ram.Contents();
    var size := DiskSize(rec);
    ram.Reserve(size);
    SizeSuffices(rec, |b| + 1 + |Fields(rec)|, |rec|);
    FieldsFacts(rec);
    var count := PutHeader(ram, rec);
    if count == 0 {
      return -1;
    }
    ghost var m := ram.Contents();
    FreshPlan(|b|, rec);
    AddedIs(b, m, HeaderBytes(Fields(rec)));
    PutCells(ram, rec);
    ghost var m', fr := ram.Contents(), FreshFrag(|b|, rec, 0);
    ram.Put(BE64(0));
    AddedIs(m', ram.Contents(), BE64(0));
    AppendDone(b, m, m', ram.Contents(), fr, Vals(rec));
    r := 0;
  }

  lemma {:induction false} AddedIs(b: seq<byte>, b': seq<byte>, data: seq<byte>)
    requires Added(b, b', data)
    ensures At(b', |b|, data) && Same(b, b', |b|, |b'|) && |b'| == |b| + |data|
  {
  }
}
