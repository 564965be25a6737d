// The untyped input `name:value:name:value...` taken apart again: the extractors of names
// and of values, for input without `[...]` file blocks.
module InputParser {
  import opened Bytes

  import Layout

  type Text = seq<byte>

  const COLON: byte := 58
  const AT: byte := 64
  const BRACKET: byte := 91

  /** `strstr(&b[from], ":")`, as a position in b. */
  function Find(b: Text, from: nat): (i: Option<nat>)
    requires from <= |b|
    ensures i.Some? ==> from <= i.value < |b| && b[i.value] == COLON && forall k :: from <= k < i.value ==> b[k] != COLON
    ensures i.None? ==> forall k :: from <= k < |b| ==> b[k] != COLON
    decreases |b| - from
  {
    if from == |b| then None else if b[from] == COLON then Some(from) else Find(b, from + 1)
  }

  /** Where the walk back from position m stops: at the start, at an `@` or at a `:`. */
  function Back(b: Text, m: nat): (r: nat)
    requires m < |b|
    ensures r <= m && (r == 0 || b[r] == AT || b[r] == COLON) && forall k :: r < k <= m ==> b[k] != COLON && b[k] != AT
  {
    if m == 0 || b[m] == AT || b[m] == COLON then m else Back(b, m - 1)
  }

  /** The name that ends before the colon at `first`. */
  function NameBefore(b: Text, first: nat): Text
    requires 0 < first < |b|
  {
    var m := Back(b, first - 1);
    if m == 0 then b[..first] else b[m + 1..first]
  }

  /**
   * A name reaches back to behind the nearest `:` or `@`; a mark in the very first place is
   * not noticed.
   */
  lemma {:induction false} NameBeforeIs(b: Text, first: nat)
    requires 0 < first < |b|
    ensures exists k ::
              && 0 <= k <= first && NameBefore(b, first) == b[k..first]
              && (k == 0 || (k >= 2 && (b[k - 1] == AT || b[k - 1] == COLON)))
              && forall i :: k <= i < first && i > 0 ==> b[i] != COLON && b[i] != AT
  {
    var m := Back(b, first - 1);
    var k := if m == 0 then 0 else m + 1;
    assert NameBefore(b, first) == b[k..first];
    hide Back, NameBefore;
  }

  /** The input each extractor is given: no file block, and not a colon first. */
  predicate Input(b: Text) {
    (|b| > 0 ==> b[0] != COLON) && BRACKET !in b
  }

  /** The names found from position p on. */
  function NamesFrom(b: Text, p: nat): seq<Text>
    requires p <= |b| && Input(b)
    decreases |b| - p
  {
    match Find(b, p)
    case None => []
    case Some(first) =>
      match Find(b, first + 1)
      case None => if first + 1 < |b| then [NameBefore(b, first)] else []
      case Some(last) => [NameBefore(b, first)] + NamesFrom(b, last + 1)
  }

  /** The values found from position p on. */
  function ValuesFrom(b: Text, p: nat): seq<Text>
    requires p <= |b|
    decreases |b| - p
  {
    match Find(b, p)
    case None => []
    case Some(first) =>
      match Find(b, first + 1)
      case None => if first + 1 < |b| then [b[first + 1..]] else []
      case Some(last) => [b[first + 1..last]] + ValuesFrom(b, last + 1)
  }

  /** The walk back of both name branches. */
  method CutName(b: Text, first: nat) returns (name: Text)
    requires 0 < first < |b|
    ensures name == NameBefore(b, first)
  {
    var moveBack := first - 1;
    while moveBack != 0 && b[moveBack] != AT && b[moveBack] != COLON
      invariant 0 <= moveBack < first && Back(b, moveBack) == Back(b, first - 1)
    {
      moveBack := moveBack - 1;
    }
    if moveBack == 0 {
      name := b[..first];
    } else {
      name := b[moveBack + 1..first];
    }
  }

  // ----- the caller's array of names -----

  const MAX_FIELD_LT := 32
  const ROWS := 200

  /** The rows, `start` before, with the first n names: strncpy puts name i at row i, whatever its length. */
  function Stored(start: seq<byte>, names: seq<Text>, n: nat): (r: Option<seq<byte>>)
    requires n <= |names|
    ensures r.Some? ==> |r.value| == |start|
  {
    if n == 0 then Some(start)
    else
      var rows, at := Stored(start, names, n - 1), MAX_FIELD_LT * (n - 1);
      if rows.None? || at + |names[n - 1]| > |start| then None
      else Some(rows.value[..at] + names[n - 1] + rows.value[at + |names[n - 1]|..])
  }

  /** One name: what stands behind the last `@`. */
  predicate AfterLastAt(b: Text, names: seq<Text>)
    ensures AfterLastAt(b, names) <==>
              |names| == 1 && exists k :: 0 < k <= |b| && b[k - 1] == AT && names[0] == b[k..] && AT !in b[k..]
  {
    |names| == 1 && exists k :: 0 < k <= |b| && b[k - 1] == AT && names[0] == b[k..] && AT !in b[k..]
  }

  /** What the rows hold, or that a name was written past the last one. */
  ghost predicate Holds(rows: seq<byte>, outside: bool, start: seq<byte>, names: seq<Text>)
    ensures Holds(rows, outside, start, names) <==>
              |rows| == |start| && Stored(start, names, |names|) == if outside then None else Some(rows)
  {
    |rows| == |start| && Stored(start, names, |names|) == if outside then None else Some(rows)
  }

  /** strncpy of the next name. */
  method PutName(rows: array<byte>, name: Text, i: nat, outside: bool, ghost start: seq<byte>, ghost names: seq<Text>)
    returns (past: bool)
    requires Holds(rows[..], outside, start, names) && i == |names|
    modifies rows
    ensures Holds(rows[..], past, start, names + [name])
  {
    hide *;
    ghost var was := rows[..];
    RowStored(was, outside, start, names, name);
    var at := MAX_FIELD_LT * i;
    if outside || at + |name| > rows.Length {
      return true;
    }
    for k := 0 to |name|
      invariant rows[..at] == was[..at] && rows[at..at + k] == name[..k] && rows[at + |name|..] == was[at + |name|..]
    {
      rows[at + k] := name[k];
    }
    past := false;
    assert rows[..] == was[..at] + name + was[at + |name|..];
  }

  /** One name more, where it fits and where it does not. */
  lemma {:induction false} RowStored(rows: seq<byte>, outside: bool, start: seq<byte>, names: seq<Text>, name: Text)
    requires Holds(rows, outside, start, names)
    ensures var at := MAX_FIELD_LT * |names|;
            if outside || at + |name| > |rows| then Holds(rows, true, start, names + [name])
            else Holds(rows[..at] + name + rows[at + |name|..], false, start, names + [name])
    ensures MAX_FIELD_LT == 32
  {
    StoredPrefix(start, names, name, |names|);
    assert |names + [name]| == |names| + 1 && (names + [name])[|names|] == name;
  }

  lemma {:induction false} StoredPrefix(start: seq<byte>, names: seq<Text>, name: Text, n: nat)
    requires n <= |names|
    ensures Stored(start, names + [name], n) == Stored(start, names, n)
  {
    if n > 0 {
      StoredPrefix(start, names, name, n - 1);
    }
  }

  /**
   * `get_names_with_no_type_skip_value`: the names in the caller's rows, and how many the
   * caller is told of; `outside` tells whether a name was written past the last row.
   */
  method GetNames(b: Text, rows: array<byte>) returns (count: int, outside: bool, ghost names: seq<Text>)
    requires Input(b)
    modifies rows
    ensures Holds(rows[..], outside, old(rows[..]), names)
    ensures COLON in b ==> names == NamesFrom(b, 0) && count == |names|
    ensures COLON !in b && AT !in b ==> names == [b] && count == 1
    ensures COLON !in b && AT in b ==>
              if exists i :: 0 < i < |b| && b[i] == AT then count == 0 && AfterLastAt(b, names)
              else count == -1 && names == []
  {
    hide *;
    NoColon(b);
    ghost var start := rows[..];
    NoneStored(start);
    names, outside := [], false;
    var i, p := 0, 0;
    var first := Find(b, p);
    var last := if first.Some? then Find(b, first.value + 1) else None;
    while first.Some? && last.Some?
      invariant p <= |b| && (p > 0 ==> b[p - 1] == COLON) && i == |names|
      invariant first == Find(b, p) && last == if first.Some? then Find(b, first.value + 1) else None
      invariant NamesFrom(b, 0) == names + NamesFrom(b, p) && Holds(rows[..], outside, start, names)
      invariant COLON !in b ==> p == 0 && names == []
      decreases |b| - p
    {
      NamesStep(b, p);
      var name := CutName(b, first.value);
      Moved(names, name, NamesFrom(b, last.value + 1));
      outside := PutName(rows, name, i, outside, start, names);
      names, i := names + [name], i + 1;
      p := last.value + 1;
      first := Find(b, p);
      last := if first.Some? then Find(b, first.value + 1) else None;
    }
    NamesStep(b, p);
    count := i;
    if first.Some? {
      if first.value + 1 < |b| {
        var name := CutName(b, first.value);
        outside := PutName(rows, name, i, outside, start, names);
        names := names + [name];
        count := i + 1;
      }
    } else if COLON !in b && AT !in b {
      outside := PutName(rows, b, i, outside, start, names);
      names := names + [b];
      count := i + 1;
    } else if COLON !in b {
      var at := LastAt(b);
      if at > 0 {
        outside := PutName(rows, b[at + 1..], i, outside, start, names);
        names := names + [b[at + 1..]];
        ghost var k := at + 1;
        assert b[k - 1] == AT && names[0] == b[k..] && AT !in b[k..];
      } else {
        count := -1;
      }
    }
  }

  lemma {:induction false} NoneStored(start: seq<byte>)
    ensures Holds(start, false, start, [])
  {
  }

  lemma {:induction false} NoColon(b: Text)
    ensures COLON !in b <==> Find(b, 0) == None
  {
  }

  /** One step of the names found. */
  lemma {:induction false} NamesStep(b: Text, p: nat)
    requires p <= |b| && Input(b) && (p > 0 ==> b[p - 1] == COLON)
    ensures Find(b, p).None? ==> NamesFrom(b, p) == []
    ensures Find(b, p).Some? ==>
              && 0 < Find(b, p).value < |b|
              && var first := Find(b, p).value; var last := Find(b, first + 1);
              && (last.None? && first + 1 < |b| ==> NamesFrom(b, p) == [NameBefore(b, first)])
              && (last.None? && first + 1 == |b| ==> NamesFrom(b, p) == [])
              && (last.Some? ==> NamesFrom(b, p) == [NameBefore(b, first)] + NamesFrom(b, last.value + 1))
  {
    NotFirst(b, p);
    hide NameBefore, Input;
  }

  lemma {:induction false} NotFirst(b: Text, p: nat)
    requires p <= |b| && Input(b)
    ensures Find(b, p).Some? ==> 0 < Find(b, p).value < |b|
  {
  }

  /** One step of the values found. */
  lemma {:induction false} ValuesStep(b: Text, p: nat)
    requires p <= |b|
    ensures Find(b, p).None? ==> ValuesFrom(b, p) == []
    ensures Find(b, p).Some? ==>
              && Find(b, p).value < |b|
              && var first := Find(b, p).value; var last := Find(b, first + 1);
              && (last.None? && first + 1 < |b| ==> ValuesFrom(b, p) == [b[first + 1..]])
              && (last.None? && first + 1 == |b| ==> ValuesFrom(b, p) == [])
              && (last.Some? ==> first + 1 <= last.value < |b|
                                 && ValuesFrom(b, p) == [b[first + 1..last.value]] + ValuesFrom(b, last.value + 1))
  {
  }

  /** `strstr_last(b, '@')`, zero for none. */
  method LastAt(b: Text) returns (last: nat)
    ensures last == 0 || (last < |b| && b[last] == AT)
    ensures forall i :: last < i < |b| ==> b[i] != AT
  {
    last := 0;
    for i := 0 to |b|
      invariant last == 0 || (last < i && b[last] == AT)
      invariant forall k :: last < k < i ==> b[k] != AT
    {
      if b[i] == AT {
        last := i;
      }
    }
  }

  /** The n places of the caller, with the values found first. */
  function Places(found: seq<Text>, n: nat): (r: seq<Option<Text>>)
    requires |found| <= n
    ensures |r| == n && forall i :: 0 <= i < n ==> r[i] == if i < |found| then Some(found[i]) else None
  {
    seq(n, i requires 0 <= i < n => if i < |found| then Some(found[i]) else None)
  }

  /** `get_values_with_no_types`: as many places as fields, the values found first. */
  method GetValues(b: Text, fieldsCount: nat) returns (values: seq<Option<Text>>)
    requires Input(b) && |ValuesFrom(b, 0)| <= fieldsCount
    ensures values == Places(ValuesFrom(b, 0), fieldsCount)
  {
    hide *;
    NonePlaced(fieldsCount);
    values := seq(fieldsCount, _ => None);
    var i, p := 0, 0;
    var first := Find(b, p);
    var last := if first.Some? then Find(b, first.value + 1) else None;
    ghost var done := [];
    NoneDone(ValuesFrom(b, 0));
    while first.Some? && last.Some?
      invariant p <= |b| && first == Find(b, p) && last == if first.Some? then Find(b, first.value + 1) else None
      invariant i == |done| && ValuesFrom(b, 0) == done + ValuesFrom(b, p)
      invariant values == Places(done, fieldsCount)
      decreases |b| - p
    {
      ValueNext(b, p, done, fieldsCount);
      values := values[i := Some(b[first.value + 1..last.value])];
      done := done + [b[first.value + 1..last.value]];
      p := last.value + 1;
      i := i + 1;
      first := Find(b, p);
      last := if first.Some? then Find(b, first.value + 1) else None;
    }
    ValueNext(b, p, done, fieldsCount);
    if first.Some? && first.value + 1 < |b| {
      values := values[i := Some(b[first.value + 1..])];
    }
  }

  lemma {:induction false} NoneDone(s: seq<Text>)
    ensures s == [] + s
  {
  }

  /** The next value goes to the next place. */
  lemma {:induction false} ValueNext(b: Text, p: nat, done: seq<Text>, n: nat)
    requires p <= |b| && |ValuesFrom(b, 0)| <= n && ValuesFrom(b, 0) == done + ValuesFrom(b, p)
    ensures |done| <= n && (Find(b, p).None? ==> ValuesFrom(b, 0) == done)
    ensures Find(b, p).Some? ==>
              && Find(b, p).value < |b|
              && var first := Find(b, p).value; var last := Find(b, first + 1);
              && (last.None? && first + 1 == |b| ==> ValuesFrom(b, 0) == done)
              && (last.None? && first + 1 < |b| ==>
                    && |done| < n && ValuesFrom(b, 0) == done + [b[first + 1..]]
                    && Places(ValuesFrom(b, 0), n) == Places(done, n)[|done| := Some(b[first + 1..])])
              && (last.Some? ==>
                    && first + 1 <= last.value < |b| && |done| < n
                    && ValuesFrom(b, 0) == done + [b[first + 1..last.value]] + ValuesFrom(b, last.value + 1)
                    && |done + [b[first + 1..last.value]]| <= n
                    && Places(done + [b[first + 1..last.value]], n) == Places(done, n)[|done| := Some(b[first + 1..last.value])])
  {
    hide *;
    ValuesStep(b, p);
    if Find(b, p).Some? {
      var first := Find(b, p).value;
      var last := Find(b, first + 1);
      if last.Some? {
        Moved(done, b[first + 1..last.value], ValuesFrom(b, last.value + 1));
        OneMore(done, b[first + 1..last.value], n);
      } else if first + 1 < |b| {
        OneMore(done, b[first + 1..], n);
      }
    }
  }

  lemma {:induction false} NonePlaced(n: nat)
    ensures Places([], n) == seq(n, _ => None)
  {
  }

  lemma {:induction false} OneMore(done: seq<Text>, value: Text, n: nat)
    requires |done| < n
    ensures Places(done + [value], n) == Places(done, n)[|done| := Some(value)]
  {
  }

  lemma {:induction false} Moved(done: seq<Text>, one: Text, rest: seq<Text>)
    ensures done + ([one] + rest) == done + [one] + rest
  {
  }

  // ----- what was joined comes apart again -----

  datatype Pair = Pair(name: Text, value: Text)

  predicate Plain(s: Text) {
    |s| > 0 && COLON !in s && AT !in s && BRACKET !in s
  }

  predicate PairsOK(pairs: seq<Pair>) {
    forall i :: 0 <= i < |pairs| ==> Plain(pairs[i].name) && |pairs[i].name| < MAX_FIELD_LT && Plain(pairs[i].value)
  }

  function Join(pairs: seq<Pair>): Text {
    if |pairs| == 0 then []
    else pairs[0].name + [COLON] + pairs[0].value + if |pairs| == 1 then [] else [COLON] + Join(pairs[1..])
  }

  function NamesOf(pairs: seq<Pair>): (r: seq<Text>)
    ensures |r| == |pairs|
  {
    seq(|pairs|, i requires 0 <= i < |pairs| => pairs[i].name)
  }

  function ValuesOf(pairs: seq<Pair>): (r: seq<Text>)
    ensures |r| == |pairs|
  {
    seq(|pairs|, i requires 0 <= i < |pairs| => pairs[i].value)
  }

  lemma {:induction false} FindIs(b: Text, from: nat, i: nat)
    requires from <= i <= |b| && (forall k :: from <= k < i ==> b[k] != COLON) && (i < |b| ==> b[i] == COLON)
    ensures Find(b, from) == if i < |b| then Some(i) else None
    decreases i - from
  {
    if from < i {
      FindIs(b, from + 1, i);
    }
  }

  lemma {:induction false} BackIs(b: Text, m: nat, r: nat)
    requires r <= m < |b| && (forall k :: r < k <= m ==> b[k] != COLON && b[k] != AT) && (r == 0 || b[r] == COLON)
    ensures Back(b, m) == r
    decreases m
  {
    if r < m {
      BackIs(b, m - 1, r);
    }
  }

  /** The bytes of one pair at position p, with `rest` behind it. */
  predicate PairAt(b: Text, p: nat, pair: Pair, rest: Text) {
    && p <= |b| && b[p..] == pair.name + [COLON] + pair.value + rest
    && Plain(pair.name) && Plain(pair.value)
  }

  lemma {:induction false} PairBytes(b: Text, p: nat, pair: Pair, rest: Text)
    requires PairAt(b, p, pair, rest)
    ensures Plain(pair.name) && Plain(pair.value)
    ensures var first := p + |pair.name|; var end := first + 1 + |pair.value|;
            && p < first && first + 1 < end <= |b| && b[first] == COLON
            && b[p..first] == pair.name && b[first + 1..end] == pair.value && b[end..] == rest
  {
    var j, first := b[p..], p + |pair.name|;
    var end := first + 1 + |pair.value|;
    assert b[p..first] == j[..|pair.name|] && b[first] == j[|pair.name|];
    assert b[first + 1..end] == j[|pair.name| + 1..|pair.name| + 1 + |pair.value|];
    assert b[end..] == j[|pair.name| + 1 + |pair.value|..];
  }

  lemma {:induction false} PlainBytes(b: Text, lo: nat, hi: nat)
    requires lo <= hi <= |b| && Plain(b[lo..hi])
    ensures forall k :: lo <= k < hi ==> b[k] != COLON && b[k] != AT
  {
    forall k | lo <= k < hi ensures b[k] != COLON && b[k] != AT {
      assert b[k] == b[lo..hi][k - lo];
    }
  }

  /** What the extractors see of the pair at position p. */
  lemma {:induction false} PairSeen(b: Text, p: nat, pair: Pair, rest: Text)
    requires PairAt(b, p, pair, rest) && (p == 0 || (p > 1 && b[p - 1] == COLON)) && (|rest| > 0 ==> rest[0] == COLON)
    ensures var first := p + |pair.name|; var end := first + 1 + |pair.value|;
            && 0 < first && first + 1 < end <= |b| && Find(b, p) == Some(first)
            && Find(b, first + 1) == (if |rest| == 0 then None else Some(end))
            && NameBefore(b, first) == pair.name && b[first + 1..end] == pair.value && b[end..] == rest
  {
    hide *;
    PairBytes(b, p, pair, rest);
    var first := p + |pair.name|;
    var end := first + 1 + |pair.value|;
    PlainBytes(b, p, first);
    PlainBytes(b, first + 1, end);
    RestColon(b, end, rest);
    FindIs(b, p, first);
    FindIs(b, first + 1, end);
    BackIs(b, first - 1, if p == 0 then 0 else p - 1);
    NameCut(b, p, first);
  }

  lemma {:induction false} RestColon(b: Text, end: nat, rest: Text)
    requires end <= |b| && b[end..] == rest && (|rest| > 0 ==> rest[0] == COLON)
    ensures |rest| == |b| - end && (end < |b| ==> b[end] == COLON)
  {
    assert end < |b| ==> b[end] == b[end..][0];
  }

  lemma {:induction false} NameCut(b: Text, p: nat, first: nat)
    requires p < first < |b| && (p == 0 || p > 1) && Back(b, first - 1) == if p == 0 then 0 else p - 1
    ensures NameBefore(b, first) == b[p..first]
  {
  }

  /** What follows the first pair. */
  function Rest(pairs: seq<Pair>): Text
    requires |pairs| > 0
  {
    if |pairs| == 1 then [] else [COLON] + Join(pairs[1..])
  }

  lemma {:induction false} JoinIs(b: Text, p: nat, pairs: seq<Pair>)
    requires p <= |b| && |pairs| > 0 && PairsOK(pairs) && b[p..] == Join(pairs)
    ensures PairAt(b, p, pairs[0], Rest(pairs)) && PairsOK(pairs[1..])
    ensures |pairs| == 1 ==> Rest(pairs) == []
    ensures |pairs| > 1 ==> Rest(pairs) == [COLON] + Join(pairs[1..])
  {
  }

  /** Joining names and values and running the two extractors gives back the names and the values. */
  lemma {:induction false} ComesApart(b: Text, p: nat, pairs: seq<Pair>)
    requires p <= |b| && Input(b) && |pairs| > 0 && PairsOK(pairs) && b[p..] == Join(pairs)
    requires p == 0 || (p > 1 && b[p - 1] == COLON)
    ensures NamesFrom(b, p) == NamesOf(pairs) && ValuesFrom(b, p) == ValuesOf(pairs)
    decreases |pairs|
  {
    hide *;
    JoinIs(b, p, pairs);
    PairSeen(b, p, pairs[0], Rest(pairs));
    NamesStep(b, p);
    ValuesStep(b, p);
    Unrolled(pairs);
    var first, end := p + |pairs[0].name|, p + |pairs[0].name| + 1 + |pairs[0].value|;
    if |pairs| > 1 {
      NextPair(b, end, Join(pairs[1..]));
      ComesApart(b, end + 1, pairs[1..]);
    } else {
      assert end == |b|;
      assert b[first + 1..] == b[first + 1..end];
    }
  }

  lemma {:induction false} Unrolled(pairs: seq<Pair>)
    requires |pairs| > 0
    ensures NamesOf(pairs) == [pairs[0].name] + NamesOf(pairs[1..])
    ensures ValuesOf(pairs) == [pairs[0].value] + ValuesOf(pairs[1..])
    ensures |pairs| == 1 ==> NamesOf(pairs) == [pairs[0].name] && ValuesOf(pairs) == [pairs[0].value]
  {
  }

  lemma {:induction false} NextPair(b: Text, end: nat, rest: Text)
    requires end <= |b| && b[end..] == [COLON] + rest
    ensures end < |b| && b[end] == COLON && b[end + 1..] == rest
  {
    assert b[end] == b[end..][0];
    assert b[end + 1..] == b[end..][1..];
  }

  lemma {:induction false} JoinIsInput(pairs: seq<Pair>)
    requires PairsOK(pairs)
    ensures Input(Join(pairs)) && (|pairs| > 0 ==> COLON in Join(pairs))
    decreases |pairs|
  {
    if |pairs| > 0 {
      JoinIsInput(pairs[1..]);
      assert Join(pairs)[0] == pairs[0].name[0];
      assert Join(pairs)[|pairs[0].name|] == COLON;
    }
  }

  /** The whole input: what GetNames and GetValues give is the list that was joined. */
  lemma {:induction false} JoinedComesApart(pairs: seq<Pair>)
    requires |pairs| > 0 && PairsOK(pairs)
    ensures Input(Join(pairs)) && COLON in Join(pairs)
    ensures NamesFrom(Join(pairs), 0) == NamesOf(pairs) && ValuesFrom(Join(pairs), 0) == ValuesOf(pairs)
  {
    hide *;
    JoinIsInput(pairs);
    assert Join(pairs)[0..] == Join(pairs);
    ComesApart(Join(pairs), 0, pairs);
  }

  // ----- input that is no list of pairs -----

  /** "a:1:b": a name without a value at the end gives neither. */
  lemma {:induction false} NameAlone()
    ensures NamesFrom([97, 58, 49, 58, 98], 0) == [[97]] && ValuesFrom([97, 58, 49, 58, 98], 0) == [[49]]
  {
    var x: Text := [97, 58, 49, 58, 98];
    OddColons();
    OddNames();
    assert Input(x) && x[3] == COLON && x[2..3] == [49];
    hide *;
    NamesStep(x, 0);
    NamesStep(x, 4);
    ValuesStep(x, 0);
    ValuesStep(x, 4);
  }

  /** "a:" gives nothing, and of "f@n:v" the name is what stands behind the `@`. */
  lemma {:induction false} NameBehindAt()
    ensures NamesFrom([97, 58], 0) == [] && ValuesFrom([97, 58], 0) == []
    ensures NamesFrom([102, 64, 110, 58, 118], 0) == [[110]] && ValuesFrom([102, 64, 110, 58, 118], 0) == [[118]]
  {
    var y: Text, z: Text := [97, 58], [102, 64, 110, 58, 118];
    OddColons();
    OddNames();
    assert Input(y) && Input(z) && z[4..] == [118];
    hide *;
    NamesStep(y, 0);
    NamesStep(z, 0);
    ValuesStep(y, 0);
    ValuesStep(z, 0);
  }

  lemma {:induction false} OddColons()
    ensures var x := [97, 58, 49, 58, 98]; Find(x, 0) == Some(1) && Find(x, 2) == Some(3) && Find(x, 4) == None
    ensures var y := [97, 58]; Find(y, 0) == Some(1) && Find(y, 2) == None
    ensures var z := [102, 64, 110, 58, 118]; Find(z, 0) == Some(3) && Find(z, 4) == None
  {
  }

  lemma {:induction false} OddNames()
    ensures NameBefore([97, 58, 49, 58, 98], 1) == [97] && NameBefore([102, 64, 110, 58, 118], 3) == [110]
  {
  }

  // ----- what the rows hold -----

  /** The caller's array before the call. */
  const Empty := Zeros(ROWS * MAX_FIELD_LT)



  /** The name a caller finds in row i. */
  function Row(rows: seq<byte>, i: nat): Text
    requires MAX_FIELD_LT * i <= |rows|
  {
    Layout.CStr(rows[MAX_FIELD_LT * i..])
  }

  predicate Short(names: seq<Text>) {
    |names| <= ROWS && forall i :: 0 <= i < |names| ==> |names[i]| < MAX_FIELD_LT && Layout.CString(names[i])
  }

  function InRow(rows: seq<byte>, i: nat, k: nat): byte
    requires MAX_FIELD_LT * i + k < |rows|
  {
    rows[MAX_FIELD_LT * i + k]
  }

  /** The first n rows hold the names, and the rows behind them are empty. */
  lemma {:induction false} StoredRows(names: seq<Text>, n: nat)
    requires Short(names) && n <= |names|
    ensures Stored(Empty, names, n).Some?
    ensures var rows := Stored(Empty, names, n).value;
            && (forall i, k :: 0 <= i < n && 0 <= k < MAX_FIELD_LT ==>
                  InRow(rows, i, k) == if k < |names[i]| then names[i][k] else 0)
            && (forall k :: MAX_FIELD_LT * n <= k < |rows| ==> rows[k] == 0)
  {
    if n > 0 {
      StoredRows(names, n - 1);
      var was, rows, at, s := Stored(Empty, names, n - 1).value, Stored(Empty, names, n).value, MAX_FIELD_LT * (n - 1), names[n - 1];
      assert rows == was[..at] + s + was[at + |s|..];
      forall i, k | 0 <= i < n && 0 <= k < MAX_FIELD_LT ensures InRow(rows, i, k) == if k < |names[i]| then names[i][k] else 0 {
        if i < n - 1 {
          assert MAX_FIELD_LT * i + k < at;
          assert InRow(rows, i, k) == InRow(was, i, k);
        } else if k >= |s| {
          assert rows[at + k] == was[at + k];
        }
      }
      forall k | MAX_FIELD_LT * n <= k < |rows| ensures rows[k] == 0 {
        assert rows[k] == was[k];
      }
    }
  }

  /** Every row holds its name if all names are shorter than a row. */
  lemma {:induction false} RowsHold(names: seq<Text>, i: nat)
    requires Short(names) && i < |names|
    ensures Stored(Empty, names, |names|).Some? && Row(Stored(Empty, names, |names|).value, i) == names[i]
  {
    StoredRows(names, |names|);
    hide Stored, Layout.CStr;
    var rows, s := Stored(Empty, names, |names|).value, names[i];
    assert Layout.CString(s);
    var data := rows[MAX_FIELD_LT * i..];
    forall k | 0 <= k <= |s| ensures data[k] == if k < |s| then s[k] else 0 {
      assert data[k] == InRow(rows, i, k);
    }
    assert data[..|s|] == s;
    Layout.CStrPrefix(data, s);
  }

  /** A longer one runs into the next row: of a name of 33 bytes and "b" the first row holds the 32 and "b". */
  lemma {:induction false} LongNameRunsOn()
    ensures var long := seq(33, _ => 97); var rows := Stored(Empty, [long, [98]], 2);
            rows.Some? && Row(rows.value, 0) == long[..32] + [98]
  {
    var long: Text, t: Text := seq(33, _ => 97), [98];
    var names := [long, t];
    assert Stored(Empty, names, 0) == Some(Empty);
    var z := Empty;
    var one := long + z[33..];
    assert z[..0] + long + z[33..] == one;
    assert Stored(Empty, names, 1) == Some(one);
    var two := one[..32] + t + one[33..];
    assert Stored(Empty, names, 2) == Some(two);
    var s := long[..32] + t;
    assert two[..33] == s && two[33] == 0;
    assert two[MAX_FIELD_LT * 0..] == two;
    hide Stored, Layout.CStr;
    Layout.CStrPrefix(two, s);
  }
}
