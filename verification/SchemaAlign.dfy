// Input fields against the schema: the sort-and-compare check, and the reordering of the
// input to schema order.
module SchemaAlign {
  import opened Bytes
  import opened Sorting

  type Name = seq<byte>

  // ----- names -----

  /** `strcmp(x, y) < 0`. */
  predicate NameLess(x: Name, y: Name) {
    if |y| == 0 then false
    else if |x| == 0 then true
    else x[0] < y[0] || (x[0] == y[0] && NameLess(x[1..], y[1..]))
  }

  lemma {:induction false} NameLessLinear(x: Name, y: Name)
    ensures !(NameLess(x, y) && NameLess(y, x)) && (NameLess(x, y) || NameLess(y, x) || x == y)
    decreases |x|
  {
    if |x| > 0 && |y| > 0 {
      NameLessLinear(x[1..], y[1..]);
      assert x == [x[0]] + x[1..] && y == [y[0]] + y[1..];
    }
  }

  lemma {:induction false} NameLessTransitive(x: Name, y: Name, z: Name)
    requires NameLess(x, y) && NameLess(y, z)
    ensures NameLess(x, z)
    decreases |x|
  {
    if |x| > 0 && x[0] == y[0] == z[0] {
      NameLessTransitive(x[1..], y[1..], z[1..]);
    }
  }

  lemma {:induction false} NamesOrdered()
    ensures TotalOrder(NameLess)
  {
    forall x, y ensures !(NameLess(x, y) && NameLess(y, x)) && (NameLess(x, y) || NameLess(y, x) || x == y) {
      NameLessLinear(x, y);
    }
    forall x, y, z | NameLess(x, y) && NameLess(y, z) ensures NameLess(x, z) {
      NameLessTransitive(x, y, z);
    }
  }

  /** Names are ordered like words: at the first difference, or the shorter one first. */
  lemma {:induction false} NameLessIs(x: Name, y: Name)
    ensures NameLess(x, y) <==>
              || (|x| < |y| && y[..|x|] == x)
              || exists i :: 0 <= i < |x| && i < |y| && x[..i] == y[..i] && x[i] < y[i]
  {
    hide *;
    if NameLess(x, y) {
      LessDiffers(x, y);
    }
    if |x| < |y| && y[..|x|] == x {
      ShorterIsLess(x, y);
    }
    if i :| 0 <= i < |x| && i < |y| && x[..i] == y[..i] && x[i] < y[i] {
      DiffersIsLess(x, y, i);
    }
  }

  lemma {:induction false} LessDiffers(x: Name, y: Name)
    requires NameLess(x, y)
    ensures || (|x| < |y| && y[..|x|] == x)
            || exists i :: 0 <= i < |x| && i < |y| && x[..i] == y[..i] && x[i] < y[i]
    decreases |x|
  {
    if |x| > 0 {
      if x[0] < y[0] {
        assert x[..0] == y[..0];
      } else {
        LessDiffers(x[1..], y[1..]);
        hide *;
        assert x == [x[0]] + x[1..] && y == [x[0]] + y[1..];
        if i :| 0 <= i < |x[1..]| && i < |y[1..]| && x[1..][..i] == y[1..][..i] && x[1..][i] < y[1..][i] {
          assert x[..i + 1] == [x[0]] + x[1..][..i] && y[..i + 1] == [x[0]] + y[1..][..i];
          var k := i + 1;
          assert x[..k] == y[..k] && x[k] < y[k];
        } else {
          assert y[..|x|] == [x[0]] + y[1..][..|x| - 1];
        }
      }
    }
  }

  lemma {:induction false} ShorterIsLess(x: Name, y: Name)
    requires |x| < |y| && y[..|x|] == x
    ensures NameLess(x, y)
    decreases |x|
  {
    if |x| > 0 {
      assert y[1..][..|x| - 1] == y[..|x|][1..] == x[1..] && y[0] == y[..|x|][0];
      ShorterIsLess(x[1..], y[1..]);
    }
  }

  lemma {:induction false} DiffersIsLess(x: Name, y: Name, i: nat)
    requires i < |x| && i < |y| && x[..i] == y[..i] && x[i] < y[i]
    ensures NameLess(x, y)
    decreases i
  {
    if i > 0 {
      assert x[1..][..i - 1] == x[..i][1..] && y[1..][..i - 1] == y[..i][1..];
      assert x[0] == x[..i][0] == y[..i][0] == y[0];
      DiffersIsLess(x[1..], y[1..], i - 1);
    }
  }

  predicate IntLess(x: int, y: int) {
    x < y
  }

  // ----- the check -----

  /** `strncmp(schema, name, strlen(name)) == 0`: the name begins the schema's name. */
  predicate Begins(name: Name, schema: Name) {
    name <= schema
  }

  /** A name begins another if something can be put behind it to make the other. */
  lemma {:induction false} BeginsIs(x: Name, y: Name)
    ensures Begins(x, y) <==> exists r: Name :: y == x + r
  {
    if Begins(x, y) {
      assert y == x + y[|x|..];
    }
  }

  /** Sorted, every input name begins the schema name at its place. */
  ghost predicate NamesMatch(names: seq<Name>, schema: seq<Name>) {
    exists ns, ss ::
      && Sorted(ns, NameLess) && multiset(ns) == multiset(names)
      && Sorted(ss, NameLess) && multiset(ss) == multiset(schema)
      && Pairwise(ns, ss)
  }

  ghost predicate Pairwise(ns: seq<Name>, ss: seq<Name>) {
    |ns| == |ss| && forall i :: 0 <= i < |ns| ==> Begins(ns[i], ss[i])
  }

  /** `ck_input_schema_fields`: both name lists and both type lists are sorted and compared place by place. */
  method CheckFields(names: seq<Name>, types: array<int>, schemaNames: seq<Name>, schemaTypes: seq<int>) returns (eq: bool)
    requires |schemaNames| == |schemaTypes| == |names| == types.Length
    modifies types
    ensures eq <==> NamesMatch(names, schemaNames) && multiset(old(types[..])) == multiset(schemaTypes)
    ensures multiset(types[..]) == multiset(old(types[..]))
  {
    NamesOrdered();
    IntsOrdered();
    hide *;
    var n := |schemaNames|;
    var copy := new Name[n](i requires 0 <= i < n => schemaNames[i]);
    var typesCopy := new int[n](i requires 0 <= i < n => schemaTypes[i]);
    var forSort := new Name[n](i requires 0 <= i < n => names[i]);
    assert copy[..] == schemaNames && typesCopy[..] == schemaTypes && forSort[..] == names;
    SortWhole(types, IntLess);
    SortWhole(typesCopy, IntLess);
    SortWhole(forSort, NameLess);
    SortWhole(copy, NameLess);
    Verdict(names, schemaNames, forSort[..], copy[..]);
    TypesVerdict(old(types[..]), schemaTypes, types[..], typesCopy[..]);
    eq := Compare(forSort, copy, types, typesCopy);
  }

  /** One schema field: a name passes if and only if the field's name is that name and anything behind it. */
  lemma {:induction false} OneNamePasses(x: Name, y: Name)
    ensures NamesMatch([x], [y]) <==> exists r: Name :: y == x + r
  {
    BeginsIs(x, y);
    hide Begins;
    if Begins(x, y) {
      assert Pairwise([x], [y]);
    }
    if NamesMatch([x], [y]) {
      var ns, ss :| Sorted(ns, NameLess) && multiset(ns) == multiset([x]) && Sorted(ss, NameLess)
                    && multiset(ss) == multiset([y]) && Pairwise(ns, ss);
      SameLength(ns, [x]);
      SameLength(ss, [y]);
      assert ns[0] in multiset(ns) && ss[0] in multiset(ss);
    }
  }

  method SortWhole<T(!new)>(a: array<T>, less: (T, T) -> bool)
    requires TotalOrder(less)
    modifies a
    ensures Sorted(a[..], less) && multiset(a[..]) == multiset(old(a[..]))
  {
    assert a[0..a.Length] == a[..];
    if a.Length > 1 {
      QuickSort(a, less, 0, a.Length);
      assert a[0..a.Length] == a[..];
    }
  }

  /** The counting loop of the check. */
  method Compare(names: array<Name>, schema: array<Name>, types: array<int>, schemaTypes: array<int>) returns (eq: bool)
    requires names.Length == schema.Length == types.Length == schemaTypes.Length
    ensures eq <==> Pairwise(names[..], schema[..]) && types[..] == schemaTypes[..]
  {
    var n := names.Length;
    var fieldsEq, typesEq := 0, 0;
    for i := 0 to n
      invariant 0 <= fieldsEq <= i && (fieldsEq == i <==> forall j :: 0 <= j < i ==> Begins(names[j], schema[j]))
      invariant 0 <= typesEq <= i && (typesEq == i <==> types[..i] == schemaTypes[..i])
    {
      if Begins(names[i], schema[i]) {
        fieldsEq := fieldsEq + 1;
      }
      assert types[..i + 1] == types[..i] + [types[i]];
      assert schemaTypes[..i + 1] == schemaTypes[..i] + [schemaTypes[i]];
      if schemaTypes[i] == types[i] {
        typesEq := typesEq + 1;
      }
    }
    assert types[..n] == types[..] && schemaTypes[..n] == schemaTypes[..];
    eq := fieldsEq == n && typesEq == n;
  }

  lemma {:induction false} IntsOrdered()
    ensures TotalOrder(IntLess)
  {
  }

  lemma {:induction false} Verdict(names: seq<Name>, schema: seq<Name>, ns: seq<Name>, ss: seq<Name>)
    requires Sorted(ns, NameLess) && multiset(ns) == multiset(names)
    requires Sorted(ss, NameLess) && multiset(ss) == multiset(schema)
    ensures NamesMatch(names, schema) <==> Pairwise(ns, ss)
  {
    NamesOrdered();
    hide NameLess, Sorted, TotalOrder;
    if NamesMatch(names, schema) {
      var ns', ss' :| Sorted(ns', NameLess) && multiset(ns') == multiset(names) && Sorted(ss', NameLess)
                      && multiset(ss') == multiset(schema) && Pairwise(ns', ss');
      SortedUnique(ns, ns', NameLess);
      SortedUnique(ss, ss', NameLess);
    }
  }

  lemma {:induction false} TypesVerdict(types: seq<int>, schema: seq<int>, ts: seq<int>, ss: seq<int>)
    requires Sorted(ts, IntLess) && multiset(ts) == multiset(types)
    requires Sorted(ss, IntLess) && multiset(ss) == multiset(schema)
    ensures multiset(types) == multiset(schema) <==> ts == ss
  {
    IntsOrdered();
    if multiset(types) == multiset(schema) {
      SortedUnique(ts, ss, IntLess);
    }
  }

  /** With names of which none begins a different schema name, the check compares the two lists as bags. */
  lemma {:induction false} MatchIsSameBag(names: seq<Name>, schema: seq<Name>)
    requires |names| == |schema|
    requires forall x, y :: x in names && y in schema && Begins(x, y) ==> x == y
    ensures NamesMatch(names, schema) <==> multiset(names) == multiset(schema)
  {
    if NamesMatch(names, schema) {
      var ns, ss :| Sorted(ns, NameLess) && multiset(ns) == multiset(names) && Sorted(ss, NameLess)
                    && multiset(ss) == multiset(schema) && Pairwise(ns, ss);
      forall i | 0 <= i < |ns| ensures ns[i] == ss[i] {
        assert ns[i] in multiset(names) && ss[i] in multiset(schema);
      }
      assert ns == ss;
    } else if multiset(names) == multiset(schema) {
      SameBagMatches(names, schema);
    }
  }

  /** Any permutation of the schema's names passes the check. */
  lemma {:induction false} SameBagMatches(names: seq<Name>, schema: seq<Name>)
    requires multiset(names) == multiset(schema)
    ensures NamesMatch(names, schema)
  {
    var ns := SortedNames(names);
    assert Pairwise(ns, ns);
  }

  lemma {:induction false} SortedNames(names: seq<Name>) returns (ns: seq<Name>)
    ensures Sorted(ns, NameLess) && multiset(ns) == multiset(names)
    decreases |names|
  {
    if |names| == 0 {
      ns := names;
    } else {
      var rest := SortedNames(names[1..]);
      assert names == [names[0]] + names[1..];
      ns := Inserted(rest, names[0]);
    }
  }

  lemma {:induction false} Inserted(s: seq<Name>, x: Name) returns (r: seq<Name>)
    requires Sorted(s, NameLess)
    ensures Sorted(r, NameLess) && multiset(r) == multiset(s) + multiset{x}
    decreases |s|
  {
    NamesOrdered();
    hide NameLess;
    if |s| == 0 || !NameLess(s[0], x) {
      r := [x] + s;
    } else {
      var t := Inserted(s[1..], x);
      r := [s[0]] + t;
      assert s == [s[0]] + s[1..];
      forall j | 0 <= j < |t| ensures !NameLess(t[j], s[0]) {
        assert t[j] in multiset(t);
        assert t[j] == x || t[j] in multiset(s[1..]);
      }
    }
  }

  datatype Field = Field(name: Name, ty: int)

  function Project<A, B>(s: seq<A>, f: A -> B): (r: seq<B>)
    ensures |r| == |s| && forall i :: 0 <= i < |s| ==> r[i] == f(s[i])
  {
    seq(|s|, i requires 0 <= i < |s| => f(s[i]))
  }

  function Names(fields: seq<Field>): seq<Name> {
    Project(fields, (f: Field) => f.name)
  }

  function Types(fields: seq<Field>): seq<int> {
    Project(fields, (f: Field) => f.ty)
  }

  lemma {:induction false} ProjectWithout<A, B>(y: seq<A>, i: nat, f: A -> B)
    requires i < |y|
    ensures multiset(Project(y, f)) == multiset(Project(y[..i] + y[i + 1..], f)) + multiset{f(y[i])}
  {
    var p, r := Project(y, f), Project(y[..i] + y[i + 1..], f);
    assert r == p[..i] + p[i + 1..];
    assert p[i] == f(y[i]);
    Without(p, i);
  }

  lemma {:induction false} SameProjection<A(!new), B>(x: seq<A>, y: seq<A>, f: A -> B)
    requires multiset(x) == multiset(y)
    ensures multiset(Project(x, f)) == multiset(Project(y, f))
    decreases |x|
  {
    hide *;
    SameLength(x, y);
    if |x| == 0 {
      assert x == y;
    } else {
      var i := IndexOf(x, y);
      BothWithout(x, y, i);
      SameProjection(x[..0] + x[1..], y[..i] + y[i + 1..], f);
      ProjectWithout(x, 0, f);
      ProjectWithout(y, i, f);
    }
  }

  lemma {:induction false} BothWithout<A(!new)>(x: seq<A>, y: seq<A>, i: nat)
    requires multiset(x) == multiset(y) && |x| > 0 && i < |y| && y[i] == x[0]
    ensures multiset(x[..0] + x[1..]) == multiset(y[..i] + y[i + 1..])
  {
    Without(x, 0);
    Without(y, i);
  }

  /** Where the first element of one arrangement is in another one. */
  lemma {:induction false} IndexOf<A(!new)>(x: seq<A>, y: seq<A>) returns (i: nat)
    requires multiset(x) == multiset(y) && |x| > 0
    ensures i < |y| && y[i] == x[0]
  {
    assert x[0] in multiset(y);
    i :| 0 <= i < |y| && y[i] == x[0];
  }

  lemma {:induction false} Without<A>(y: seq<A>, i: nat)
    requires i < |y|
    ensures multiset(y[..i] + y[i + 1..]) == multiset(y) - multiset{y[i]}
  {
    assert y == y[..i] + [y[i]] + y[i + 1..];
  }

  /** Whatever order the schema's fields come in, they pass the check. */
  lemma {:induction false} PermutationPasses(fields: seq<Field>, schema: seq<Field>)
    requires multiset(fields) == multiset(schema)
    ensures NamesMatch(Names(fields), Names(schema)) && multiset(Types(fields)) == multiset(Types(schema))
  {
    SameProjection(fields, schema, (f: Field) => f.name);
    SameProjection(fields, schema, (f: Field) => f.ty);
    SameBagMatches(Names(fields), Names(schema));
  }

  // ----- when the check is right -----

  /** What `ck_input_schema_fields` accepts. */
  ghost predicate Accepted(fields: seq<Field>, schema: seq<Field>) {
    |fields| == |schema| && NamesMatch(Names(fields), Names(schema)) && multiset(Types(fields)) == multiset(Types(schema))
  }

  /** No name of the one begins a different name of the other. */
  predicate Unmistakable(fields: seq<Field>, schema: seq<Field>) {
    forall i, j :: 0 <= i < |fields| && 0 <= j < |schema| && Begins(fields[i].name, schema[j].name) ==>
      fields[i].name == schema[j].name
  }

  /** The fields have different names. */
  predicate Named(schema: seq<Field>) {
    forall i, j :: 0 <= i < j < |schema| ==> schema[i].name != schema[j].name
  }

  /** Every input that is accepted, and in which no name can be mistaken, has the schema's fields. */
  ghost predicate Sound(schema: seq<Field>) {
    forall fields :: Accepted(fields, schema) && Unmistakable(fields, schema) ==> multiset(fields) == multiset(schema)
  }

  predicate OneType(schema: seq<Field>) {
    forall i, j :: 0 <= i < j < |schema| ==> schema[i].ty == schema[j].ty
  }

  /** With one type for all fields, the names are enough. */
  lemma {:induction false} OneTypeSound(fields: seq<Field>, schema: seq<Field>)
    requires OneType(schema) && Accepted(fields, schema) && Unmistakable(fields, schema)
    ensures multiset(fields) == multiset(schema)
  {
    if |schema| > 0 {
      var t := schema[0].ty;
      var whole := (n: Name) => Field(n, t);
      SameNames(fields, schema);
      TypeOfAll(fields, schema, t);
      hide *;
      SameProjection(Names(fields), Names(schema), whole);
      assert fields == Project(Names(fields), whole);
      assert schema == Project(Names(schema), whole);
    }
  }

  lemma {:induction false} SameNames(fields: seq<Field>, schema: seq<Field>)
    requires Accepted(fields, schema) && Unmistakable(fields, schema)
    ensures multiset(Names(fields)) == multiset(Names(schema))
    ensures |Names(fields)| == |fields| && forall i :: 0 <= i < |fields| ==> Names(fields)[i] == fields[i].name
    ensures |Names(schema)| == |schema| && forall i :: 0 <= i < |schema| ==> Names(schema)[i] == schema[i].name
  {
    hide NamesMatch, Begins;
    var ns, ss := Names(fields), Names(schema);
    forall x, y | x in ns && y in ss && Begins(x, y) ensures x == y {
      var i :| 0 <= i < |ns| && ns[i] == x;
      var j :| 0 <= j < |ss| && ss[j] == y;
      assert fields[i].name == x && schema[j].name == y;
    }
    MatchIsSameBag(ns, ss);
  }

  lemma {:induction false} TypeOfAll(fields: seq<Field>, schema: seq<Field>, t: int)
    requires multiset(Types(fields)) == multiset(Types(schema)) && OneType(schema) && |schema| > 0 && schema[0].ty == t
    ensures forall i :: 0 <= i < |fields| ==> fields[i].ty == t
    ensures forall i :: 0 <= i < |schema| ==> schema[i].ty == t
  {
    forall i | 0 <= i < |fields| ensures fields[i].ty == t {
      assert Types(fields)[i] in multiset(Types(fields));
      assert Types(fields)[i] in multiset(Types(schema));
      var j :| 0 <= j < |schema| && Types(schema)[j] == Types(fields)[i];
      assert schema[j].ty == schema[0].ty;
    }
  }

  /** The schema with the types of two fields exchanged. */
  function Exchanged(schema: seq<Field>, i: nat, j: nat): (r: seq<Field>)
    requires i < j < |schema|
    ensures |r| == |schema|
  {
    schema[i := Field(schema[i].name, schema[j].ty)][j := Field(schema[j].name, schema[i].ty)]
  }

  /** It is accepted, whatever the types, and is another bag of fields if they differ. */
  lemma {:induction false} ExchangedPasses(schema: seq<Field>, i: nat, j: nat)
    requires Named(schema) && i < j < |schema| && schema[i].ty != schema[j].ty
    ensures Accepted(Exchanged(schema, i, j), schema)
    ensures multiset(Exchanged(schema, i, j)) != multiset(schema)
  {
    var fields := Exchanged(schema, i, j);
    assert Names(fields) == Names(schema);
    SameBagMatches(Names(fields), Names(schema));
    ExchangedTypes(schema, i, j);
    assert fields[i] in multiset(fields);
    forall k | 0 <= k < |schema| ensures schema[k] != fields[i] {
      if k != i {
        assert schema[k].name != schema[i].name;
      }
    }
  }

  lemma {:induction false} ExchangedTypes(schema: seq<Field>, i: nat, j: nat)
    requires i < j < |schema|
    ensures multiset(Types(Exchanged(schema, i, j))) == multiset(Types(schema))
  {
    var ts := Types(schema);
    assert Types(Exchanged(schema, i, j)) == ts[i := ts[j]][j := ts[i]];
  }

  /**
   * For a schema of which no name begins another, the check accepts just the permutations of
   * its fields, among inputs whose names cannot be mistaken, if and only if all its types are
   * the same; otherwise two fields with each other's type pass.
   */
  lemma {:induction false} SoundIff(schema: seq<Field>)
    requires Named(schema) && Unmistakable(schema, schema)
    ensures Sound(schema) <==> OneType(schema)
  {
    hide Accepted, Unmistakable, Named;
    if OneType(schema) {
      forall fields | Accepted(fields, schema) && Unmistakable(fields, schema)
        ensures multiset(fields) == multiset(schema)
      {
        OneTypeSound(fields, schema);
      }
    } else {
      var i, j :| 0 <= i < j < |schema| && schema[i].ty != schema[j].ty;
      ExchangedPasses(schema, i, j);
      ExchangedNames(schema, i, j);
    }
  }

  lemma {:induction false} ExchangedNames(schema: seq<Field>, i: nat, j: nat)
    requires i < j < |schema| && Unmistakable(schema, schema)
    ensures Unmistakable(Exchanged(schema, i, j), schema)
  {
    var fields := Exchanged(schema, i, j);
    assert forall k :: 0 <= k < |fields| ==> fields[k].name == schema[k].name;
  }

  // ----- reordering -----

  /** The first schema field whose name the given name begins. */
  function FirstMatch(name: Name, schema: seq<Name>, from: nat): (j: Option<nat>)
    requires from <= |schema|
    decreases |schema| - from
    ensures j.Some? ==> from <= j.value < |schema| && Begins(name, schema[j.value])
    ensures j.Some? ==> forall k :: from <= k < j.value ==> !Begins(name, schema[k])
    ensures j.None? ==> forall k :: from <= k < |schema| ==> !Begins(name, schema[k])
  {
    if from == |schema| then None
    else if Begins(name, schema[from]) then Some(from)
    else FirstMatch(name, schema, from + 1)
  }

  predicate AllFound(names: seq<Name>, schema: seq<Name>) {
    forall i :: 0 <= i < |names| ==> FirstMatch(names[i], schema, 0).Some?
  }

  /** Slot j after the first n items were put where pos says: the last one put there. */
  function Slot<T>(pos: seq<nat>, xs: seq<T>, none: T, j: nat, n: nat): T
    requires n <= |pos| && n <= |xs|
  {
    if n == 0 then none else if pos[n - 1] == j then xs[n - 1] else Slot(pos, xs, none, j, n - 1)
  }

  /** strncpy without the terminator: what an earlier, longer name left behind stays. */
  function Overlay(name: Name, prev: Name): Name {
    name + if |name| < |prev| then prev[|name|..] else []
  }

  function NameSlot(pos: seq<nat>, names: seq<Name>, j: nat, n: nat): Name
    requires n <= |pos| && n <= |names|
  {
    if n == 0 then []
    else
      var prev := NameSlot(pos, names, j, n - 1);
      if pos[n - 1] == j then Overlay(names[n - 1], prev) else prev
  }

  /** The search loops of the reordering: for each name its place in the schema. */
  method FindPlaces(names: seq<Name>, schema: seq<Name>) returns (ok: bool, pos: seq<nat>)
    ensures ok <==> AllFound(names, schema)
    ensures ok ==> |pos| == |names| && forall i :: 0 <= i < |pos| ==>
                     pos[i] < |schema| && FirstMatch(names[i], schema, 0) == Some(pos[i])
  {
    pos := [];
    for i := 0 to |names|
      invariant |pos| == i
      invariant forall k :: 0 <= k < i ==> pos[k] < |schema| && FirstMatch(names[k], schema, 0) == Some(pos[k])
    {
      var j := 0;
      while j < |schema| && !Begins(names[i], schema[j])
        invariant 0 <= j <= |schema| && FirstMatch(names[i], schema, 0) == FirstMatch(names[i], schema, j)
      {
        j := j + 1;
      }
      if j == |schema| {
        return false, pos;
      }
      pos := pos + [j];
    }
    ok := true;
  }

  /**
   * The part of `sort_input_like_header_schema` for input with all the schema's fields:
   * names, types and values are put at the places of the schema fields found for them.
   */
  method Reorder(schema: seq<Name>, names: array<Name>, types: array<int>, values: array<Option<seq<byte>>>) returns (ok: bool)
    requires |schema| == names.Length == types.Length == values.Length
    modifies names, types, values
    ensures ok <==> AllFound(old(names[..]), schema)
    ensures !ok ==> names[..] == old(names[..]) && types[..] == old(types[..]) && values[..] == old(values[..])
    ensures ok ==> Reordered(schema, old(names[..]), old(types[..]), old(values[..]), names[..], types[..], values[..])
  {
    hide *;
    ghost var ns, ts, vs := names[..], types[..], values[..];
    var found, pos := FindPlaces(names[..], schema);
    if !found {
      return false;
    }
    var tempName, tempTypes, tempVal := Spread(names, types, values, pos);
    CopyBack(names, tempName);
    CopyBack(types, tempTypes);
    CopyBack(values, tempVal);
    ok := true;
    PlacedIs(schema, ns, ts, vs, names[..], types[..], values[..], pos);
  }

  /** The loop that copies a temporary array back. */
  method CopyBack<T>(a: array<T>, temp: array<T>)
    requires a.Length == temp.Length && a != temp
    modifies a
    ensures a[..] == temp[..]
  {
    for i := 0 to a.Length
      invariant temp[..] == old(temp[..]) && a[..i] == temp[..i]
    {
      a[i] := temp[i];
    }
  }

  lemma {:induction false} PlacedIs(schema: seq<Name>, names: seq<Name>, types: seq<int>, values: seq<Option<seq<byte>>>,
                                    names': seq<Name>, types': seq<int>, values': seq<Option<seq<byte>>>, pos: seq<nat>)
    requires |schema| == |names| == |types| == |values| == |pos|
    requires forall i :: 0 <= i < |pos| ==> pos[i] < |schema| && FirstMatch(names[i], schema, 0) == Some(pos[i])
    requires names' == NameSlots(pos, names) && types' == Slots(pos, types, -1) && values' == Slots(pos, values, None)
    ensures Reordered(schema, names, types, values, names', types', values')
  {
    hide FirstMatch, Slot, NameSlot;
    assert Placed(schema, names, types, values, names', types', values', pos);
  }

  function Slots<T>(pos: seq<nat>, xs: seq<T>, none: T): (r: seq<T>)
    requires |pos| == |xs|
    ensures |r| == |pos| && forall j :: 0 <= j < |r| ==> r[j] == Slot(pos, xs, none, j, |pos|)
  {
    seq(|pos|, j requires 0 <= j < |pos| => Slot(pos, xs, none, j, |pos|))
  }

  function NameSlots(pos: seq<nat>, names: seq<Name>): (r: seq<Name>)
    requires |pos| == |names|
    ensures |r| == |pos| && forall j :: 0 <= j < |r| ==> r[j] == NameSlot(pos, names, j, |pos|)
  {
    seq(|pos|, j requires 0 <= j < |pos| => NameSlot(pos, names, j, |pos|))
  }

  /** The loop that puts names, types and values into temporary arrays. */
  method Spread(names: array<Name>, types: array<int>, values: array<Option<seq<byte>>>, pos: seq<nat>)
    returns (tempName: array<Name>, tempTypes: array<int>, tempVal: array<Option<seq<byte>>>)
    requires |pos| == names.Length == types.Length == values.Length && forall i :: 0 <= i < |pos| ==> pos[i] < |pos|
    ensures fresh(tempName) && fresh(tempTypes) && fresh(tempVal)
    ensures tempName[..] == NameSlots(pos, names[..]) && tempTypes[..] == Slots(pos, types[..], -1)
    ensures tempVal[..] == Slots(pos, values[..], None)
  {
    var n := names.Length;
    tempName := new Name[n](_ => []);
    tempTypes := new int[n](_ => -1);
    tempVal := new Option<seq<byte>>[n](_ => None);
    for i := 0 to n
      invariant forall j :: 0 <= j < n ==> tempName[j] == NameSlot(pos, names[..], j, i)
      invariant forall j :: 0 <= j < n ==> tempTypes[j] == Slot(pos, types[..], -1, j, i)
      invariant forall j :: 0 <= j < n ==> tempVal[j] == Slot(pos, values[..], None, j, i)
    {
      tempVal[pos[i]] := values[i];
      tempName[pos[i]] := Overlay(names[i], tempName[pos[i]]);
      tempTypes[pos[i]] := types[i];
    }
  }

  ghost predicate Reordered(schema: seq<Name>, names: seq<Name>, types: seq<int>, values: seq<Option<seq<byte>>>,
                            names': seq<Name>, types': seq<int>, values': seq<Option<seq<byte>>>)
  {
    exists pos :: Placed(schema, names, types, values, names', types', values', pos)
  }

  /** The three lists after the reordering, pos[i] being the place found for name i. */
  ghost predicate Placed(schema: seq<Name>, names: seq<Name>, types: seq<int>, values: seq<Option<seq<byte>>>,
                         names': seq<Name>, types': seq<int>, values': seq<Option<seq<byte>>>, pos: seq<nat>)
  {
    && |schema| == |names| == |types| == |values| == |names'| == |types'| == |values'| == |pos|
    && forall i :: 0 <= i < |pos| ==>
         && pos[i] < |schema| && FirstMatch(names[i], schema, 0) == Some(pos[i])
         && names'[i] == NameSlot(pos, names, i, |pos|)
         && types'[i] == Slot(pos, types, -1, i, |pos|)
         && values'[i] == Slot(pos, values, None, i, |pos|)
  }

  /** No field's name begins the name of an earlier field. */
  predicate NoEarlierPrefix(schema: seq<Name>) {
    forall i, j :: 0 <= i < j < |schema| ==> !Begins(schema[j], schema[i])
  }

  /** The input's fields in schema order, each name with the type and the value it came with. */
  ghost predicate Aligned(schema: seq<Name>, names: seq<Name>, types: seq<int>, values: seq<Option<seq<byte>>>,
                          names': seq<Name>, types': seq<int>, values': seq<Option<seq<byte>>>)
  {
    && |schema| == |names| == |types| == |values| == |names'| == |types'| == |values'| && names' == schema
    && forall i, j :: 0 <= i < |names| && 0 <= j < |schema| && names[i] == schema[j] ==>
         types'[j] == types[i] && values'[j] == values[i]
  }

  lemma {:induction false} SlotIs<T>(pos: seq<nat>, xs: seq<T>, none: T, i: nat, n: nat)
    requires i < n <= |pos| == |xs| && forall k :: 0 <= k < |pos| && k != i ==> pos[k] != pos[i]
    ensures Slot(pos, xs, none, pos[i], n) == xs[i]
    decreases n
  {
    if i < n - 1 {
      SlotIs(pos, xs, none, i, n - 1);
    }
  }

  lemma {:induction false} NoSlot(pos: seq<nat>, names: seq<Name>, j: nat, n: nat)
    requires n <= |pos| == |names| && forall k :: 0 <= k < n ==> pos[k] != j
    ensures NameSlot(pos, names, j, n) == []
  {
    if n > 0 {
      NoSlot(pos, names, j, n - 1);
    }
  }

  lemma {:induction false} NameSlotIs(pos: seq<nat>, names: seq<Name>, i: nat, n: nat)
    requires i < n <= |pos| == |names| && forall k :: 0 <= k < |pos| && k != i ==> pos[k] != pos[i]
    ensures NameSlot(pos, names, pos[i], n) == names[i]
    decreases n
  {
    if i < n - 1 {
      NameSlotIs(pos, names, i, n - 1);
    } else {
      NoSlot(pos, names, pos[i], n - 1);
    }
  }

  predicate Distinct(names: seq<Name>) {
    forall i, j :: 0 <= i < j < |names| ==> names[i] != names[j]
  }

  /**
   * For distinct names in any order: the reordering puts the names in schema order, with
   * their types and values, if and only if no field's name begins the name of an earlier
   * field. Prefix-free names are one such case.
   */
  lemma {:induction false} AlignedIff(schema: seq<Name>, names: seq<Name>, types: seq<int>, values: seq<Option<seq<byte>>>,
                                      names': seq<Name>, types': seq<int>, values': seq<Option<seq<byte>>>)
    requires Reordered(schema, names, types, values, names', types', values')
    requires Distinct(schema) && Distinct(names) && multiset(names) == multiset(schema) && [] !in schema
    ensures Aligned(schema, names, types, values, names', types', values') <==> NoEarlierPrefix(schema)
  {
    var pos :| Placed(schema, names, types, values, names', types', values', pos);
    if NoEarlierPrefix(schema) {
      InOrder(schema, names, types, values, names', types', values', pos);
    } else {
      var i, j :| 0 <= i < j < |schema| && Begins(schema[j], schema[i]);
      forall k | 0 <= k < |pos| ensures pos[k] != j {
        NotFoundThere(schema, names[k], i, j);
      }
      NoSlot(pos, names, j, |pos|);
      assert schema[j] in schema;
    }
  }

  /** A field whose name begins an earlier one is never the first match. */
  lemma {:induction false} NotFoundThere(schema: seq<Name>, name: Name, i: nat, j: nat)
    requires i < j < |schema| && Begins(schema[j], schema[i])
    ensures FirstMatch(name, schema, 0) != Some(j)
  {
    if Begins(name, schema[j]) {
      assert Begins(name, schema[i]);
    }
  }

  lemma {:induction false} InOrder(schema: seq<Name>, names: seq<Name>, types: seq<int>, values: seq<Option<seq<byte>>>,
                                   names': seq<Name>, types': seq<int>, values': seq<Option<seq<byte>>>, pos: seq<nat>)
    requires Placed(schema, names, types, values, names', types', values', pos) && NoEarlierPrefix(schema)
    requires Distinct(schema) && Distinct(names) && multiset(names) == multiset(schema)
    ensures Aligned(schema, names, types, values, names', types', values')
  {
    hide *;
    OwnPlaces(schema, names, types, values, names', types', values', pos);
    forall i | 0 <= i < |names|
      ensures names'[pos[i]] == names[i] && types'[pos[i]] == types[i] && values'[pos[i]] == values[i]
    {
      OneSlot(names, types, values, pos, schema, i);
    }
    OwnPlacesAlign(schema, names, types, values, names', types', values', pos);
  }

  /** Every place found is the name's own place in the schema. */
  lemma {:induction false} OwnPlaces(schema: seq<Name>, names: seq<Name>, types: seq<int>, values: seq<Option<seq<byte>>>,
                                     names': seq<Name>, types': seq<int>, values': seq<Option<seq<byte>>>, pos: seq<nat>)
    requires Placed(schema, names, types, values, names', types', values', pos) && NoEarlierPrefix(schema)
    requires multiset(names) == multiset(schema)
    ensures |schema| == |names| == |types| == |values| == |names'| == |types'| == |values'| == |pos|
    ensures forall i :: 0 <= i < |pos| ==> pos[i] < |schema| && schema[pos[i]] == names[i]
    ensures forall j :: 0 <= j < |pos| ==>
              && names'[j] == NameSlot(pos, names, j, |pos|) && types'[j] == Slot(pos, types, -1, j, |pos|)
              && values'[j] == Slot(pos, values, None, j, |pos|)
  {
    hide Slot, NameSlot, FirstMatch, NoEarlierPrefix;
    forall i | 0 <= i < |pos| ensures pos[i] < |schema| && schema[pos[i]] == names[i] {
      OwnPlace(schema, names, i, pos[i]);
    }
  }

  lemma {:induction false} OwnPlacesAlign(schema: seq<Name>, names: seq<Name>, types: seq<int>, values: seq<Option<seq<byte>>>,
                                          names': seq<Name>, types': seq<int>, values': seq<Option<seq<byte>>>, pos: seq<nat>)
    requires |schema| == |names| == |types| == |values| == |names'| == |types'| == |values'| == |pos|
    requires forall i :: 0 <= i < |pos| ==>
               && pos[i] < |schema| && schema[pos[i]] == names[i]
               && names'[pos[i]] == names[i] && types'[pos[i]] == types[i] && values'[pos[i]] == values[i]
    requires Distinct(schema) && multiset(names) == multiset(schema)
    ensures Aligned(schema, names, types, values, names', types', values')
  {
    forall i, j | 0 <= i < |names| && 0 <= j < |schema| && names[i] == schema[j] ensures j == pos[i] {
    }
    hide Distinct;
    forall j | 0 <= j < |schema| ensures names'[j] == schema[j] {
      assert schema[j] in multiset(names);
    }
  }

  lemma {:induction false} OneSlot(names: seq<Name>, types: seq<int>, values: seq<Option<seq<byte>>>, pos: seq<nat>,
                                   schema: seq<Name>, i: nat)
    requires i < |pos| == |names| == |types| == |values| == |schema| && Distinct(names)
    requires forall k :: 0 <= k < |pos| ==> pos[k] < |schema| && schema[pos[k]] == names[k]
    ensures NameSlot(pos, names, pos[i], |pos|) == names[i]
    ensures Slot(pos, types, -1, pos[i], |pos|) == types[i] && Slot(pos, values, None, pos[i], |pos|) == values[i]
  {
    NameSlotIs(pos, names, i, |pos|);
    SlotIs(pos, types, -1, i, |pos|);
    SlotIs(pos, values, None, i, |pos|);
  }

  /** A name of the schema is found at its own place. */
  lemma {:induction false} OwnPlace(schema: seq<Name>, names: seq<Name>, i: nat, p: nat)
    requires NoEarlierPrefix(schema) && multiset(names) == multiset(schema) && i < |names|
    requires p < |schema| && FirstMatch(names[i], schema, 0) == Some(p)
    ensures schema[p] == names[i]
  {
    assert names[i] in multiset(schema);
    var j :| 0 <= j < |schema| && schema[j] == names[i];
    assert p <= j;
  }

  // ----- two names at one place -----

  /** The last of several items put at a place is the one that stays. */
  lemma {:induction false} LastStays<T>(pos: seq<nat>, xs: seq<T>, none: T, i: nat, n: nat)
    requires i < n <= |pos| == |xs| && forall k :: i < k < n ==> pos[k] != pos[i]
    ensures Slot(pos, xs, none, pos[i], n) == xs[i]
    decreases n
  {
    if i < n - 1 {
      LastStays(pos, xs, none, i, n - 1);
    }
  }

  lemma {:induction false} NothingPut<T>(pos: seq<nat>, xs: seq<T>, none: T, j: nat, n: nat)
    requires n <= |pos| == |xs| && forall k :: 0 <= k < n ==> pos[k] != j
    ensures Slot(pos, xs, none, j, n) == none
    decreases n
  {
    if n > 0 {
      NothingPut(pos, xs, none, j, n - 1);
    }
  }

  lemma {:induction false} NameStays(pos: seq<nat>, names: seq<Name>, i: nat, m: nat, n: nat)
    requires i < m <= n <= |pos| == |names| && forall k :: m <= k < n ==> pos[k] != pos[i]
    ensures NameSlot(pos, names, pos[i], n) == NameSlot(pos, names, pos[i], m)
    decreases n
  {
    if m < n {
      NameStays(pos, names, i, m, n - 1);
    }
  }

  /** Of two names at one place the later one stands there, followed by what an earlier, longer one had behind its length. */
  lemma {:induction false} TwoAtOnePlace(pos: seq<nat>, names: seq<Name>, i: nat, k: nat)
    requires i < k < |pos| == |names| && pos[i] == pos[k]
    requires forall l :: 0 <= l < |pos| && l != i && l != k ==> pos[l] != pos[i]
    ensures var s, t := names[i], names[k];
            NameSlot(pos, names, pos[i], |pos|) == if |t| < |s| then t + s[|t|..] else t
  {
    NameStays(pos, names, k, k + 1, |pos|);
    NameStays(pos, names, i, i + 1, k);
    NoSlot(pos, names, pos[i], i);
  }

  /**
   * Whatever the input: at a field whose name begins the name of an earlier field the
   * reordering leaves no name, no type and no value.
   */
  lemma {:induction false} LaterFieldLeftEmpty(schema: seq<Name>, names: seq<Name>, types: seq<int>, values: seq<Option<seq<byte>>>,
                                               names': seq<Name>, types': seq<int>, values': seq<Option<seq<byte>>>,
                                               i: nat, j: nat, r: Name)
    requires Reordered(schema, names, types, values, names', types', values')
    requires i < j < |schema| && schema[i] == schema[j] + r
    ensures |names'| == |types'| == |values'| == |schema|
    ensures names'[j] == [] && types'[j] == -1 && values'[j] == None
  {
    var pos :| Placed(schema, names, types, values, names', types', values', pos);
    forall k | 0 <= k < |pos| ensures pos[k] != j {
      NotFoundThere(schema, names[k], i, j);
    }
    NoSlot(pos, names, j, |pos|);
    NothingPut(pos, types, -1, j, |pos|);
    NothingPut(pos, values, None, j, |pos|);
  }

  const Name1: Name := [110, 97, 109, 101, 49]
  const Name0: Name := [110, 97, 109, 101]

  /** "name1:A:name:B" for the fields name1 and name: both values go to the first field, and B stays there. */
  lemma {:induction false} NameGoesToName1(t: int, u: int, a: seq<byte>, b: seq<byte>,
                                           names': seq<Name>, types': seq<int>, values': seq<Option<seq<byte>>>)
    requires Reordered([Name1, Name0], [Name1, Name0], [t, u], [Some(a), Some(b)], names', types', values')
    ensures names' == [Name1, []] && types' == [u, -1] && values' == [Some(b), None]
  {
    var schema := [Name1, Name0];
    var pos :| Placed(schema, schema, [t, u], [Some(a), Some(b)], names', types', values', pos);
    assert Name1 == Name0 + [49];
    LaterFieldLeftEmpty(schema, schema, [t, u], [Some(a), Some(b)], names', types', values', 0, 1, [49]);
    BothFirst(pos);
    TwoAtOnePlace(pos, schema, 0, 1);
    LastStays(pos, [t, u], -1, 1, 2);
    LastStays(pos, [Some(a), Some(b)], None, 1, 2);
    assert Name0 + Name1[4..] == Name1;
  }

  lemma {:induction false} BothFirst(pos: seq<nat>)
    requires |pos| == 2 && forall i :: 0 <= i < 2 ==> FirstMatch([Name1, Name0][i], [Name1, Name0], 0) == Some(pos[i])
    ensures pos[0] == 0 && pos[1] == 0
  {
    assert Name1 == Name0 + [49];
  }
}
