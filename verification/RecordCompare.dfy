// Comparing the values of an update with the record on disk: which fields are replaced.
module RecordCompare {
  import opened Bytes
  import opened Layout
  import opened CellUpdate
  import opened Fragment
  import opened RecordFile

  // ----- a record in one place -----

  /** The old record with the new values of the fields that both have. */
  function Merged(was: Record, rec: Record): (r: Record)
    requires |was| == |rec|
    ensures |r| == |rec|
    ensures forall j :: 0 <= j < |r| ==> r[j] == if was[j].Some? && rec[j].Some? then rec[j] else was[j]
  {
    seq(|was|, j requires 0 <= j < |was| => if was[j].Some? && rec[j].Some? then rec[j] else was[j])
  }

  /** The zeros of both signs: they are equal, so neither is ever put over the other. */
  predicate OtherZero(x: Value, y: Value) {
    x.Float? && y.Float? && x != y && x.bits % 0x8000_0000 == 0 == y.bits % 0x8000_0000
  }

  /** What the old record becomes: Merged, but a zero keeps its sign. */
  function Overlaid(was: Record, rec: Record): (r: Record)
    requires |was| == |rec|
    ensures |r| == |rec|
    ensures forall j :: 0 <= j < |r| ==>
              r[j] == if Both(was, rec, j) && !OtherZero(was[j].value, rec[j].value) then rec[j] else was[j]
  {
    seq(|was|, j requires 0 <= j < |was| =>
      if Both(was, rec, j) && !OtherZero(was[j].value, rec[j].value) then rec[j] else was[j])
  }

  predicate Common(was: Record, rec: Record)
    requires |was| == |rec|
  {
    exists j :: 0 <= j < |rec| && was[j].Some? && rec[j].Some?
  }

  /** `compare_old_rec_update_rec` for an update that adds no field to the schema. */
  method CompareRecords(was: Record, rec: Record) returns (merged: Record, changed: bool)
    requires |was| == |rec|
    ensures merged == Overlaid(was, rec) && (changed <==> Common(was, rec))
    ensures !changed ==> merged == was
  {
    merged, changed := was, false;
    for j := 0 to |was|
      invariant |merged| == |was|
      invariant forall i :: 0 <= i < |was| ==> merged[i] == if i < j then Overlaid(was, rec)[i] else was[i]
      invariant changed <==> exists i :: 0 <= i < j && was[i].Some? && rec[i].Some?
    {
      if rec[j].Some? && was[j].Some? {
        changed := true;
        var x, y := was[j].value, rec[j].value;
        if !(x.Float? && y.Float? && SameFloat(x.bits, y.bits)) {
          merged := merged[j := rec[j]];
        }
      }
    }
  }

  lemma {:induction false} SameActive(x: Record, y: Record, i: nat)
    requires |x| == |y| && i <= |x| && forall j :: 0 <= j < |x| ==> (x[j].Some? <==> y[j].Some?)
    ensures Active(x, i) == Active(y, i)
  {
    if i > 0 {
      SameActive(x, y, i - 1);
    }
  }

  // ----- one fragment: compare_rec -----

  /** The first field that differs; no field that differs; no field in common; or no verdict. */
  datatype Verdict = Differs(i: nat) | Alike | Apart | Failed

  predicate Both(src: Record, dest: Record, i: nat)
    requires |src| == |dest|
  {
    i < |src| && src[i].Some? && dest[i].Some?
  }

  /** `==` on floats, by their bits: no NaN equals anything, and the two zeros equal each other. */
  predicate SameFloat(x: u32, y: u32) {
    var a, b := x % 0x8000_0000, y % 0x8000_0000;
    a <= 0x7F80_0000 && b <= 0x7F80_0000 && (x == y || a == 0 == b)
  }

  /** At how many places two arrays agree. */
  function Agreeing(xs: seq<i64>, ys: seq<i64>): (n: nat)
    requires |xs| == |ys|
    ensures n <= |xs|
    ensures n == |xs| <==> xs == ys
  {
    if |xs| == 0 then 0
    else
      var last := |xs| - 1;
      assert xs == xs[..last] + [xs[last]] && ys == ys[..last] + [ys[last]];
      Agreeing(xs[..last], ys[..last]) + if xs[last] == ys[last] then 1 else 0
  }

  lemma {:induction false} AgreeingCounts(xs: seq<i64>, ys: seq<i64>)
    requires |xs| == |ys|
    ensures Agreeing(xs, ys) == |set i | 0 <= i < |xs| && xs[i] == ys[i]|
  {
    if |xs| > 0 {
      var last := |xs| - 1;
      AgreeingCounts(xs[..last], ys[..last]);
      PlacesNext(xs, ys);
    }
  }

  lemma {:induction false} PlacesNext(xs: seq<i64>, ys: seq<i64>)
    requires |xs| == |ys| > 0
    ensures var last := |xs| - 1;
            |set i | 0 <= i < |xs| && xs[i] == ys[i]|
            == |set i | 0 <= i < last && xs[..last][i] == ys[..last][i]| + if xs[last] == ys[last] then 1 else 0
  {
    hide *;
    var last := |xs| - 1;
    var all, before := set i | 0 <= i < |xs| && xs[i] == ys[i], set i | 0 <= i < last && xs[..last][i] == ys[..last][i];
    assert last !in before;
    if xs[last] == ys[last] {
      assert all == before + {last};
    } else {
      assert all == before;
    }
  }

  /** What a pair of values adds to the count of equal array elements. */
  function ArrayTally(x: Value, y: Value): nat {
    if x.Longs? && y.Longs? && y.xs != [] && y.xs != [0] && |x.xs| == |y.xs| then Agreeing(x.xs, y.xs) else 0
  }

  /** The count before field i; it is never set back. */
  function Tally(src: Record, dest: Record, i: nat): nat
    requires i <= |src| == |dest|
  {
    if i == 0 then 0
    else Tally(src, dest, i - 1) + if Both(src, dest, i - 1) then ArrayTally(src[i - 1].value, dest[i - 1].value) else 0
  }

  /** Two values are taken for the same: a string for any that begins with it, arrays by the count. */
  predicate SeenSame(x: Value, y: Value, tally: nat) {
    match y
    case Float(bits) => x.Float? && SameFloat(x.bits, bits)
    case Text(s) => x.Text? && s <= x.s
    case Longs(ys) => x.Longs? && if ys == [0] then x.xs == [0] else |ys| == tally + ArrayTally(x, y)
    case _ => x == y
  }

  /** An empty array has no elements to look at: it is counted as a field and not as an equal one. */
  predicate EmptyAt(src: Record, dest: Record, i: nat)
    requires |src| == |dest|
  {
    Both(src, dest, i) && dest[i].value == Longs([])
  }

  /** The comparison stops at field i. */
  predicate Stops(src: Record, dest: Record, i: nat)
    requires |src| == |dest|
  {
    && Both(src, dest, i) && !EmptyAt(src, dest, i)
    && (!SeenSame(src[i].value, dest[i].value, Tally(src, dest, i)) || exists j :: 0 <= j < i && EmptyAt(src, dest, j))
  }

  /** The first field from i on at which it stops. */
  function FirstStop(src: Record, dest: Record, i: nat): (r: Option<nat>)
    requires i <= |src| == |dest|
    ensures r.Some? ==> i <= r.value < |src| && Stops(src, dest, r.value) && forall j :: i <= j < r.value ==> !Stops(src, dest, j)
    ensures r.None? ==> forall j :: i <= j < |src| ==> !Stops(src, dest, j)
    decreases |src| - i
  {
    if i == |src| then None
    else if Stops(src, dest, i) then Some(i)
    else FirstStop(src, dest, i + 1)
  }

  function Compare(src: Record, dest: Record): (v: Verdict)
    requires |src| == |dest|
    ensures v.Differs? ==> v.i < |src| && src[v.i].Some? && dest[v.i].Some?
  {
    var stop := FirstStop(src, dest, 0);
    if stop.Some? then Differs(stop.value)
    else if |src| > 0 && !Common(src, dest) then Apart
    else if exists j :: 0 <= j < |src| && EmptyAt(src, dest, j) then Failed
    else Alike
  }

  lemma {:induction false} CommonIs(src: Record, dest: Record)
    requires |src| == |dest|
    ensures Common(src, dest) <==> exists j :: 0 <= j < |src| && Both(src, dest, j)
  {
    if j :| 0 <= j < |src| && Both(src, dest, j) {
      assert src[j].Some? && dest[j].Some?;
    }
    if Common(src, dest) {
      var j :| 0 <= j < |src| && src[j].Some? && dest[j].Some?;
      assert Both(src, dest, j);
    }
  }

  /** `compare_rec`. */
  method CompareRec(src: Record, dest: Record) returns (v: Verdict)
    requires |src| == |dest|
    ensures v == Compare(src, dest)
  {
    hide SameFloat, Agreeing;
    var c, active, al, dif := 0, 0, 0, 0;
    for i := 0 to |src|
      invariant FirstStop(src, dest, 0) == FirstStop(src, dest, i)
      invariant c <= active && al == Tally(src, dest, i) && dif <= i
      invariant c == active <==> forall j :: 0 <= j < i ==> !EmptyAt(src, dest, j)
      invariant dif == i <==> forall j :: 0 <= j < i ==> !Both(src, dest, j)
    {
      if src[i].Some? && dest[i].Some? {
        active := active + 1;
        var x, y := src[i].value, dest[i].value;
        if y.Longs? && y.xs == [] {
          assert EmptyAt(src, dest, i);
        } else {
          al := al + ArrayTally(x, y);
          if SeenSame(x, y, al - ArrayTally(x, y)) {
            c := c + 1;
          }
          if c != active {
            assert Stops(src, dest, i);
            return Differs(i);
          }
        }
      } else {
        dif := dif + 1;
      }
    }
    CommonIs(src, dest);
    if dif > 0 && dif == |src| {
      return Apart;
    }
    v := if c == active then Alike else Failed;
  }

  // ----- all fragments: find_fields_to_update -----

  /** A fragment with the first field that differs replaced. */
  function Edit(was: Record, rec: Record): (r: Record)
    requires |was| == |rec|
    ensures |r| == |was|
  {
    var v := Compare(was, rec);
    if v.Differs? then was[v.i := rec[v.i]] else was
  }

  predicate Fit(was: seq<Record>, rec: Record)
    ensures Fit(was, rec) ==> forall i :: 0 <= i < |was| ==> |was[i]| == |rec|
  {
    forall i :: 0 <= i < |was| ==> |was[i]| == |rec|
  }

  /** The fragment, from i on, at which the search gives up. */
  function GivesUp(was: seq<Record>, rec: Record, i: nat): (n: nat)
    requires Fit(was, rec) && i <= |was|
    ensures i <= n <= |was| && (n < |was| ==> Compare(was[n], rec).Failed?)
    ensures forall j :: i <= j < n ==> !Compare(was[j], rec).Failed?
    decreases |was| - i
  {
    if i == |was| || Compare(was[i], rec).Failed? then i else GivesUp(was, rec, i + 1)
  }

  /** The fragments with what the search replaces in them. */
  function Edits(was: seq<Record>, rec: Record): (r: seq<Record>)
    requires Fit(was, rec)
    ensures |r| == |was| && Fit(r, rec)
    ensures forall i :: 0 <= i < |r| ==> r[i] == if i < GivesUp(was, rec, 0) then Edit(was[i], rec) else was[i]
  {
    seq(|was|, i requires 0 <= i < |was| => if i < GivesUp(was, rec, 0) then Edit(was[i], rec) else was[i])
  }

  predicate Found(was: seq<Record>, rec: Record, v: Verdict, n: nat)
    requires Fit(was, rec) && n <= |was|
  {
    exists i :: 0 <= i < n && Compare(was[i], rec) == v
  }

  /** A fragment has a field that differs. */
  predicate Changes(was: seq<Record>, rec: Record)
    requires Fit(was, rec)
  {
    exists i :: 0 <= i < GivesUp(was, rec, 0) && Compare(was[i], rec).Differs?
  }

  /** A byte field that differs also sets the mark with the number of the field, which may be past the last one. */
  predicate MarksOutside(was: seq<Record>, rec: Record, n: nat)
    requires Fit(was, rec) && n <= |was|
  {
    exists i :: 0 <= i < n && StrayMark(was[i], rec) && Compare(was[i], rec).i >= |was|
  }

  predicate StrayMark(was: Record, rec: Record)
    requires |was| == |rec|
    ensures StrayMark(was, rec) ==> Compare(was, rec).Differs?
  {
    Compare(was, rec).Differs? && rec[Compare(was, rec).i].value.Byte?
  }

  /** The mark of a fragment that is not written: nothing to compare, or nothing different. */
  predicate Skipped(mark: char) {
    mark == 'n' || mark == 'e'
  }

  /** The marks when the search has gone over n fragments and looked at those before `seen`. */
  ghost predicate MarksOK(marks: seq<char>, was: seq<Record>, rec: Record, n: nat, seen: nat)
    requires Fit(was, rec) && n <= |was|
  {
    && |marks| == |was| && n <= seen
    && (forall j :: 0 <= j < n ==> marks[j] == 'y' || marks[j] == Marked(Compare(was[j], rec)))
    && (forall j :: n <= j < seen && j < |marks| ==> marks[j] == 'n')
    && (forall j :: seen <= j < |marks| ==> marks[j] == 'y' || marks[j] == '\0')
    && ('y' in marks ==> exists j :: 0 <= j < n && Compare(was[j], rec).Differs?)
  }

  lemma {:induction false} MarksDone(marks: seq<char>, was: seq<Record>, rec: Record, seen: nat)
    requires Fit(was, rec) && MarksOK(marks, was, rec, GivesUp(was, rec, 0), seen) && seen <= GivesUp(was, rec, 0) + 1
    requires seen == |was| || seen == GivesUp(was, rec, 0) + 1
    ensures |marks| == |was| && forall i :: 0 <= i < |was| && Skipped(marks[i]) ==> Edits(was, rec)[i] == was[i]
    ensures |was| > 0 ==> marks[0] in {'n', 'y', 'e'}
    ensures (forall i :: 0 <= i < |was| ==> Skipped(marks[i])) <==> !Changes(was, rec) && GivesUp(was, rec, 0) + 1 >= |was|
    ensures !Changes(was, rec) ==> ('e' in marks <==> Found(was, rec, Alike, GivesUp(was, rec, 0)))
  {
    hide Compare;
    var n := GivesUp(was, rec, 0);
    forall i | 0 <= i < |was| && Skipped(marks[i]) ensures Edits(was, rec)[i] == was[i] {
    }
    if Changes(was, rec) {
      var i :| 0 <= i < n && Compare(was[i], rec).Differs?;
      assert !Skipped(marks[i]);
    } else {
      assert 'y' !in marks;
      if n + 1 < |was| {
        assert !Skipped(marks[n + 1]);
      }
      if i :| 0 <= i < n && Compare(was[i], rec) == Alike {
        assert marks[i] == 'e';
      }
    }
  }

  /** One more fragment is looked at. */
  lemma {:induction false} MarksNext(marks: seq<char>, was: seq<Record>, rec: Record, i: nat, marks': seq<char>)
    requires Fit(was, rec) && i < |was| && MarksOK(marks, was, rec, i, i) && |marks'| == |marks|
    requires marks'[i] == Marked(Compare(was[i], rec))
    requires forall j :: 0 <= j < |marks| && j != i ==>
               marks'[j] == marks[j] || (Compare(was[i], rec).Differs? && marks'[j] == 'y')
    ensures Compare(was[i], rec).Failed? ==> MarksOK(marks', was, rec, i, i + 1)
    ensures !Compare(was[i], rec).Failed? ==> MarksOK(marks', was, rec, i + 1, i + 1)
  {
    hide Compare;
    if 'y' in marks' {
      var j :| 0 <= j < |marks'| && marks'[j] == 'y';
      assert Compare(was[i], rec).Differs? || marks[j] == 'y';
    }
  }

  /** The marks once fragment i is judged. */
  method Mark(marks: seq<char>, was: seq<Record>, rec: Record, i: nat, v: Verdict) returns (marks': seq<char>, outside: bool)
    requires Fit(was, rec) && i < |was| && MarksOK(marks, was, rec, i, i) && v == Compare(was[i], rec)
    ensures v.Failed? ==> MarksOK(marks', was, rec, i, i + 1)
    ensures !v.Failed? ==> MarksOK(marks', was, rec, i + 1, i + 1)
    ensures outside <==> StrayMark(was[i], rec) && v.i >= |was|
  {
    hide Compare;
    marks', outside := marks[i := 'n'], false;
    match v {
      case Alike =>
        marks' := marks'[i := 'e'];
      case Differs(index) =>
        if rec[index].value.Byte? {
          if index < |marks'| {
            marks' := marks'[index := 'y'];
          } else {
            outside := true;
          }
        }
        marks' := marks'[i := 'y'];
      case _ =>
    }
    MarksNext(marks, was, rec, i, marks');
  }

  lemma {:induction false} MarksStart(was: seq<Record>, rec: Record)
    requires Fit(was, rec)
    ensures MarksOK(seq(|was|, _ => '\0'), was, rec, 0, 0) && !MarksOutside(was, rec, 0)
  {
  }

  lemma {:induction false} SearchNext(was: seq<Record>, rec: Record, i: nat)
    requires Fit(was, rec) && i < |was|
    ensures |was[i]| == |rec|
    ensures GivesUp(was, rec, i) == if Compare(was[i], rec).Failed? then i else GivesUp(was, rec, i + 1)
    ensures Edit(was[i], rec) ==
              var v := Compare(was[i], rec); if v.Differs? then was[i][v.i := rec[v.i]] else was[i]
    ensures MarksOutside(was, rec, i + 1) <==>
              MarksOutside(was, rec, i) || (StrayMark(was[i], rec) && Compare(was[i], rec).i >= |was|)
  {
    hide Compare, StrayMark;
  }

  /**
   * `find_fields_to_update`: the marks of the fragments and their new values; `outside` tells
   * whether a mark was set past the last one.
   */
  method FindFields(was: seq<Record>, rec: Record) returns (marks: seq<char>, edited: seq<Record>, outside: bool)
    requires Fit(was, rec)
    ensures |marks| == |was| && edited == Edits(was, rec)
    ensures forall i :: 0 <= i < |was| && Skipped(marks[i]) ==> edited[i] == was[i]
    ensures |was| > 0 ==> marks[0] in {'n', 'y', 'e'}
    ensures (forall i :: 0 <= i < |was| ==> Skipped(marks[i])) <==> !Changes(was, rec) && GivesUp(was, rec, 0) + 1 >= |was|
    ensures !Changes(was, rec) ==> ('e' in marks <==> Found(was, rec, Alike, GivesUp(was, rec, 0)))
    ensures outside <==> MarksOutside(was, rec, GivesUp(was, rec, 0))
  {
    hide *;
    MarksStart(was, rec);
    marks, edited, outside := seq(|was|, _ => '\0'), was, false;
    var i := 0;
    var v := Alike;
    while i < |was| && v != Failed
      invariant i <= |was| && |edited| == |was|
      invariant v == Failed ==> 0 < i
      invariant var n := if v == Failed then i - 1 else i;
                && MarksOK(marks, was, rec, n, i) && (outside <==> MarksOutside(was, rec, n))
                && GivesUp(was, rec, 0) == (if v == Failed then n else GivesUp(was, rec, n))
                && (forall j :: 0 <= j < n ==> edited[j] == Edit(was[j], rec))
                && (forall j :: n <= j < |was| ==> edited[j] == was[j])
      decreases |was| - i
    {
      SearchNext(was, rec, i);
      v := CompareRec(was[i], rec);
      var past;
      marks, past := Mark(marks, was, rec, i, v);
      outside := outside || past;
      if v.Differs? {
        edited := edited[i := edited[i][v.i := rec[v.i]]];
      }
      i := i + 1;
    }
    assert edited == Edits(was, rec);
    MarksDone(marks, was, rec, i);
  }

  function Marked(v: Verdict): char {
    match v
    case Differs(_) => 'y'
    case Alike => 'e'
    case _ => 'n'
  }

  // ----- what the search leaves out -----

  /** A field that the update is to change. */
  predicate Unequal(was: Record, rec: Record, j: nat)
    requires |was| == |rec|
  {
    Both(was, rec, j) && was[j] != rec[j]
  }

  /**
   * A fragment takes all new values if and only if the comparison stops at every field that
   * changes, and at no field before it.
   */
  lemma {:induction false} EditMerges(was: Record, rec: Record)
    requires |was| == |rec|
    ensures Edit(was, rec) == Merged(was, rec) <==>
              forall j :: 0 <= j < |was| && Unequal(was, rec, j) ==>
                Stops(was, rec, j) && forall i :: 0 <= i < j ==> !Stops(was, rec, i)
  {
    EditIs(was, rec);
    hide Stops;
    var r, m := Edit(was, rec), Merged(was, rec);
    if forall j :: 0 <= j < |was| && Unequal(was, rec, j) ==> FirstAt(was, rec, j) {
      forall j | 0 <= j < |was| ensures r[j] == m[j] {
        assert Unequal(was, rec, j) ==> FirstAt(was, rec, j);
      }
    } else {
      var j :| 0 <= j < |was| && Unequal(was, rec, j) && !FirstAt(was, rec, j);
      assert r[j] == was[j] && m[j] == rec[j];
    }
  }

  /** The comparison stops at field j, and nowhere before. */
  predicate FirstAt(was: Record, rec: Record, j: nat)
    requires |was| == |rec|
    ensures FirstAt(was, rec, j) <==> Stops(was, rec, j) && forall i :: 0 <= i < j ==> !Stops(was, rec, i)
  {
    Stops(was, rec, j) && forall i :: 0 <= i < j ==> !Stops(was, rec, i)
  }

  lemma {:induction false} EditIs(was: Record, rec: Record)
    requires |was| == |rec|
    ensures forall j :: 0 <= j < |was| ==> Edit(was, rec)[j] == if FirstAt(was, rec, j) then rec[j] else was[j]
  {
    hide Stops;
  }

  /** A string is replaced by a proper beginning of itself, or a zero by the zero of the other sign. */
  predicate Overlooked(x: Value, y: Value) {
    || (x.Text? && y.Text? && y.s < x.s)
    || OtherZero(x, y)
  }

  /** A float that equals nothing, not even itself. */
  predicate NaN(v: Value) {
    v.Float? && v.bits % 0x8000_0000 > 0x7F80_0000
  }

  predicate CommonArray(was: Record, rec: Record, j: nat)
    requires |was| == |rec|
  {
    Both(was, rec, j) && rec[j].value.Longs?
  }

  /** At most one common field is an array, and it is not empty. */
  predicate OneArray(was: Record, rec: Record)
    requires |was| == |rec|
  {
    && (forall j :: 0 <= j < |was| ==> !EmptyAt(was, rec, j))
    && (forall i, j :: 0 <= i < j < |was| ==> !(CommonArray(was, rec, i) && CommonArray(was, rec, j)))
  }

  lemma {:induction false} NoTally(was: Record, rec: Record, i: nat)
    requires |was| == |rec| && i <= |was| && forall j :: 0 <= j < i ==> !CommonArray(was, rec, j)
    ensures Tally(was, rec, i) == 0
  {
    if i > 0 {
      NoTally(was, rec, i - 1);
      assert !CommonArray(was, rec, i - 1);
    }
  }

  /** Two values are seen to differ, whether they do or not. */
  predicate Differing(x: Value, y: Value) {
    (x != y && !Overlooked(x, y)) || (x == y && NaN(y))
  }

  lemma {:induction false} SeenSameIf(x: Value, y: Value, tally: nat)
    requires y != Longs([]) && (y.Longs? ==> tally == 0)
    ensures SeenSame(x, y, tally) <==> !Differing(x, y)
  {
    match y
    case Text(t) =>
      if x.Text? {
        assert t <= x.s && |t| == |x.s| ==> t == x.s[..|t|] == x.s;
      }
    case _ =>
  }

  /** Where the comparison stops, said of the two values alone. */
  lemma {:induction false} StopsIf(was: Record, rec: Record, j: nat)
    requires |was| == |rec| && OneArray(was, rec) && j < |was|
    ensures Stops(was, rec, j) <==> Both(was, rec, j) && Differing(was[j].value, rec[j].value)
  {
    assert !EmptyAt(was, rec, j);
    if Both(was, rec, j) {
      if rec[j].value.Longs? {
        assert CommonArray(was, rec, j);
        NoTally(was, rec, j);
      }
      SeenSameIf(was[j].value, rec[j].value, Tally(was, rec, j));
    }
    hide Tally, SeenSame, Differing;
  }

  /**
   * For records with at most one common array, and none that is empty: a fragment takes all
   * new values if and only if no string is cut to a beginning of itself, no zero changes its
   * sign, and no field changes behind one that changes too or is no number.
   */
  lemma {:induction false} OneFieldOnly(was: Record, rec: Record)
    requires |was| == |rec| && OneArray(was, rec)
    ensures Edit(was, rec) == Merged(was, rec) <==>
              && (forall j :: 0 <= j < |was| && Both(was, rec, j) ==> !Overlooked(was[j].value, rec[j].value))
              && (forall i, j :: 0 <= i < j < |was| && Unequal(was, rec, i) ==> !Unequal(was, rec, j))
              && (forall i, j :: 0 <= i < j < |was| && Both(was, rec, i) && NaN(rec[i].value) ==> !Unequal(was, rec, j))
  {
    EditMerges(was, rec);
    forall j | 0 <= j < |was|
      ensures Stops(was, rec, j) <==> Both(was, rec, j) && Differing(was[j].value, rec[j].value)
      ensures Unequal(was, rec, j) <==> Both(was, rec, j) && was[j].value != rec[j].value
      ensures Both(was, rec, j) && Overlooked(was[j].value, rec[j].value) ==> was[j].value != rec[j].value
    {
      StopsIf(was, rec, j);
    }
    hide Stops, OneArray, Edit, Merged, NaN, Overlooked, Both, Unequal;
    if forall j :: 0 <= j < |was| && Unequal(was, rec, j) ==> FirstAt(was, rec, j) {
      forall j | 0 <= j < |was| && Both(was, rec, j) ensures !Overlooked(was[j].value, rec[j].value) {
        assert Unequal(was, rec, j) ==> FirstAt(was, rec, j);
      }
      forall i, j | 0 <= i < j < |was| && Unequal(was, rec, i) ensures !Unequal(was, rec, j) {
        assert FirstAt(was, rec, i) && !FirstAt(was, rec, j);
      }
      forall i, j | 0 <= i < j < |was| && Both(was, rec, i) && NaN(rec[i].value) ensures !Unequal(was, rec, j) {
        assert Unequal(was, rec, i) ==> FirstAt(was, rec, i);
        assert Stops(was, rec, i) && !FirstAt(was, rec, j);
      }
    }
  }

  // ----- all fragments at once -----

  /** What an update is to do: each fragment takes the values of its fields; if none has one, the record gets one more. */
  function Intended(was: seq<Record>, rec: Record): seq<Record>
    requires Fit(was, rec)
  {
    if exists i :: 0 <= i < |was| && Common(was[i], rec) then
      seq(|was|, i requires 0 <= i < |was| => Merged(was[i], rec))
    else was + [rec]
  }

  predicate NoEmptyArray(rec: Record) {
    forall j :: 0 <= j < |rec| && rec[j].Some? ==> rec[j].value != Longs([])
  }

  /** Without empty arrays there is always a verdict. */
  lemma {:induction false} Judged(was: Record, rec: Record)
    requires |was| == |rec| > 0 && NoEmptyArray(rec)
    ensures !Compare(was, rec).Failed? && (Compare(was, rec).Apart? <==> !Common(was, rec))
    ensures !Compare(was, rec).Differs? ==> Edit(was, rec) == was
    ensures !Common(was, rec) ==> Merged(was, rec) == was
  {
    CommonIs(was, rec);
    hide SeenSame, Tally;
  }

  lemma {:induction false} NeverGivesUp(was: seq<Record>, rec: Record, i: nat)
    requires Fit(was, rec) && |rec| > 0 && NoEmptyArray(rec) && i <= |was|
    ensures GivesUp(was, rec, i) == |was|
    decreases |was| - i
  {
    hide Compare;
    if i < |was| {
      Judged(was[i], rec);
      NeverGivesUp(was, rec, i + 1);
    }
  }

  // ----- several arrays -----

  /** The length of the last common array before field i, [0] and empty ones not counted. */
  function LastLength(was: Record, rec: Record, i: nat): nat
    requires i <= |was| == |rec|
  {
    if i == 0 then 0
    else if CommonArray(was, rec, i - 1) && rec[i - 1].value.xs != [0] && rec[i - 1].value.xs != [] then |rec[i - 1].value.xs|
    else LastLength(was, rec, i - 1)
  }

  /** As long as it has not stopped, the count of equal elements is the length of the last array. */
  lemma {:induction false} TallyIsLast(was: Record, rec: Record, i: nat)
    requires i <= |was| == |rec| && forall j :: 0 <= j < i ==> !Stops(was, rec, j)
    ensures Tally(was, rec, i) == LastLength(was, rec, i)
  {
    if i > 0 {
      TallyIsLast(was, rec, i - 1);
      assert !Stops(was, rec, i - 1);
    }
  }

  /** Before any stop and any empty array, fields other than arrays are compared by their values alone. */
  lemma {:induction false} StopsByValue(was: Record, rec: Record, j: nat)
    requires |was| == |rec| && j < |was| && forall i :: 0 <= i < j ==> !EmptyAt(was, rec, i)
    requires !CommonArray(was, rec, j)
    ensures Stops(was, rec, j) <==> Both(was, rec, j) && Differing(was[j].value, rec[j].value)
  {
    if Both(was, rec, j) {
      SeenSameIf(was[j].value, rec[j].value, Tally(was, rec, j));
    }
    hide Tally, SeenSame, Differing;
  }

  /** The array [0] is compared as it is, whatever arrays stand before. */
  lemma {:induction false} ZeroArray(was: Record, rec: Record, j: nat)
    requires |was| == |rec| && j < |was| && Both(was, rec, j) && rec[j].value == Longs([0])
    requires forall i :: 0 <= i < j ==> !EmptyAt(was, rec, i)
    ensures Stops(was, rec, j) <==> was[j].value != Longs([0])
  {
    hide Tally;
  }

  /** Behind an empty array every common field that is not one too stops the comparison, changed or not. */
  lemma {:induction false} BehindEmpty(was: Record, rec: Record, i: nat, j: nat)
    requires |was| == |rec| && i < j < |was| && EmptyAt(was, rec, i)
    ensures Stops(was, rec, j) <==> Both(was, rec, j) && rec[j].value != Longs([])
  {
    hide Tally, SeenSame;
  }

  /** An empty array itself never stops it. */
  lemma {:induction false} EmptyPasses(was: Record, rec: Record, j: nat)
    requires |was| == |rec| && EmptyAt(was, rec, j)
    ensures !Stops(was, rec, j)
  {
  }

  /** The verdicts in which nothing stopped: no common field, no empty array, or an empty array. */
  lemma {:induction false} Verdicts(was: Record, rec: Record)
    requires |was| == |rec| > 0 && forall j :: 0 <= j < |was| ==> !Stops(was, rec, j)
    ensures Compare(was, rec) == Apart <==> forall j :: 0 <= j < |was| ==> was[j] == None || rec[j] == None
    ensures Compare(was, rec) == Failed <==>
              exists j :: 0 <= j < |was| && was[j].Some? && rec[j].Some? && rec[j].value == Longs([])
    ensures Compare(was, rec) in {Apart, Failed, Alike}
  {
    hide Stops;
    CommonIs(was, rec);
    forall j | 0 <= j < |was| ensures EmptyAt(was, rec, j) <==> was[j].Some? && rec[j].Some? && rec[j].value == Longs([]) {
    }
    if Compare(was, rec) == Failed {
      var j :| 0 <= j < |was| && EmptyAt(was, rec, j);
      assert was[j].Some? && rec[j].Some? && rec[j].value == Longs([]);
    }
  }

  /** A fragment without a verdict ends the search: it and all behind it stay as they are. */
  lemma {:induction false} SearchEnds(was: seq<Record>, rec: Record, g: nat)
    requires Fit(was, rec) && g < |was| && Compare(was[g], rec) == Failed
    requires forall i :: 0 <= i < g ==> Compare(was[i], rec) != Failed
    ensures GivesUp(was, rec, 0) == g && forall i :: g <= i < |was| ==> Edits(was, rec)[i] == was[i]
    ensures forall i :: 0 <= i < g ==> Edits(was, rec)[i] == Edit(was[i], rec)
  {
    hide Compare, Edit;
    var n := GivesUp(was, rec, 0);
    assert n <= g;
  }

  /**
   * An array behind another one is seen to differ unless it is as long as that one and the
   * places at which it agrees with the old one together; so an unchanged one is always.
   */
  lemma {:induction false} LaterArray(was: Record, rec: Record, j: nat)
    requires |was| == |rec| && j < |was| && forall i :: 0 <= i < j ==> !Stops(was, rec, i) && !EmptyAt(was, rec, i)
    requires CommonArray(was, rec, j) && was[j].value.Longs? && rec[j].value.xs != [] && rec[j].value.xs != [0]
    ensures var xs, ys, last := was[j].value.xs, rec[j].value.xs, LastLength(was, rec, j);
            && (Stops(was, rec, j) <==> |ys| != last + if |xs| == |ys| then Agreeing(xs, ys) else 0)
            && (xs == ys ==> (Stops(was, rec, j) <==> last > 0))
  {
    TallyIsLast(was, rec, j);
    hide Tally, LastLength;
  }

  /** [1, 2] updated by [5, 6] becomes [5, 2]. */
  lemma {:induction false} SecondFieldStays()
    ensures var was: Record, rec: Record := [Some(Int(1)), Some(Int(2))], [Some(Int(5)), Some(Int(6))];
            Edit(was, rec) == [Some(Int(5)), Some(Int(2))] && Merged(was, rec) == rec
  {
    var was: Record, rec: Record := [Some(Int(1)), Some(Int(2))], [Some(Int(5)), Some(Int(6))];
    assert Stops(was, rec, 0);
  }

  /** A string cut to one it begins with is taken for unchanged. */
  lemma {:induction false} ShorterStringUnseen(s: seq<byte>, t: seq<byte>)
    requires s <= t
    ensures Compare([Some(Text(t))], [Some(Text(s))]) == Alike
  {
    var was: Record, rec: Record := [Some(Text(t))], [Some(Text(s))];
    assert !Stops(was, rec, 0);
    CommonIs(was, rec);
    assert Both(was, rec, 0) && !EmptyAt(was, rec, 0);
  }

  /** Because the count of equal elements is not set back, [5] replaced by [7, 8] behind an unchanged [1, 2] is not seen. */
  lemma {:induction false} SecondArrayUnseen()
    ensures var was: Record, rec: Record := [Some(Longs([1, 2])), Some(Longs([5]))], [Some(Longs([1, 2])), Some(Longs([7, 8]))];
            Compare(was, rec) == Alike
  {
    var was: Record, rec: Record := [Some(Longs([1, 2])), Some(Longs([5]))], [Some(Longs([1, 2])), Some(Longs([7, 8]))];
    assert Agreeing([1, 2], [1, 2]) == 2;
    assert Tally(was, rec, 0) == 0 && Tally(was, rec, 1) == 2;
    assert !Stops(was, rec, 0) && !Stops(was, rec, 1);
    CommonIs(was, rec);
    assert Both(was, rec, 0) && !EmptyAt(was, rec, 0) && !EmptyAt(was, rec, 1);
  }

  /** A mark lies outside exactly if the field a fragment differs in is a byte whose number is past the last fragment. */
  lemma {:induction false} OutsideIff(was: seq<Record>, rec: Record, n: nat)
    requires Fit(was, rec) && n <= |was|
    ensures MarksOutside(was, rec, n) <==>
              exists i, j :: 0 <= i < n && |was| <= j < |rec| && Compare(was[i], rec) == Differs(j)
                             && rec[j].Some? && rec[j].value.Byte?
  {
    hide Compare;
    if MarksOutside(was, rec, n) {
      var i :| 0 <= i < n && StrayMark(was[i], rec) && Compare(was[i], rec).i >= |was|;
      var j := Compare(was[i], rec).i;
      assert Compare(was[i], rec) == Differs(j);
    }
    if i, j :| 0 <= i < n && |was| <= j < |rec| && Compare(was[i], rec) == Differs(j) && rec[j].Some? && rec[j].value.Byte? {
      assert StrayMark(was[i], rec);
    }
  }

  /** No mark is set outside if no byte field of the update has a number past the last fragment. */
  lemma {:induction false} NoMarkOutside(was: seq<Record>, rec: Record, n: nat)
    requires Fit(was, rec) && n <= |was|
    requires forall j :: |was| <= j < |rec| && rec[j].Some? ==> !rec[j].value.Byte?
    ensures !MarksOutside(was, rec, n)
  {
    hide Compare;
  }

  /** With two fragments, a byte that is the third field sets a mark past the last one. */
  lemma {:induction false} ByteMarksOutside()
    ensures var was: Record, rec: Record := [None, None, Some(Byte(1))], [None, None, Some(Byte(2))];
            Fit([was, was], rec) && MarksOutside([was, was], rec, GivesUp([was, was], rec, 0))
  {
    var was: Record, rec: Record := [None, None, Some(Byte(1))], [None, None, Some(Byte(2))];
    assert Stops(was, rec, 2) && !Stops(was, rec, 0) && !Stops(was, rec, 1);
    assert Compare(was, rec) == Differs(2);
    assert [was, was][0] == was && [was, was][1] == was;
    assert GivesUp([was, was], rec, 0) == 2;
  }
}
