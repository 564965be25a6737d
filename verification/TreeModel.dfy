// The self-adjusting binary search tree as a value: what the rotations do, and the shape
// that makes them safe.
module TreeModel {
  import opened Bytes

  const LEFT := 0
  const RIGHT := 1
  const LR_ROT := 10
  const RL_ROT := 11

  datatype Tree = Empty | Branch(left: Tree, key: i32, data: int, right: Tree)

  function Leaf(k: i32, d: int): Tree {
    Branch(Empty, k, d, Empty)
  }

  predicate IsLeaf(t: Tree) {
    t.Branch? && t.left.Empty? && t.right.Empty?
  }

  /** `height`: it follows only children down and tells which rotation is due. */
  function Height(t: Tree, branch: nat): int {
    if t.Empty? then -1
    else if t.left.Empty? == t.right.Empty? then 0
    else if t.left.Empty? then
      var bf := Height(t.right, branch);
      if branch == RIGHT && bf == 1 then RL_ROT else bf - 1
    else
      var bf := Height(t.left, branch);
      if branch == LEFT && bf == -1 then LR_ROT else bf + 1
  }

  /** A node with one child has a leaf child. */
  predicate Shape(t: Tree) {
    t.Branch? ==>
      && Shape(t.left) && Shape(t.right)
      && (t.left.Empty? && t.right.Branch? ==> IsLeaf(t.right))
      && (t.right.Empty? && t.left.Branch? ==> IsLeaf(t.left))
  }

  /** The pointer rewrites of the four rotations. What they overwrite is gone. */
  function RotateRR(t: Tree): Tree
    requires t.Branch? && t.right.Branch?
  {
    Branch(t.(right := Empty), t.right.key, t.right.data, t.right.right)
  }

  function RotateRL(t: Tree): Tree
    requires t.Branch? && t.right.Branch? && t.right.left.Branch?
  {
    var m := t.right.left;
    Branch(t.(right := Empty), m.key, m.data, t.right.(left := Empty))
  }

  function RotateLL(t: Tree): Tree
    requires t.Branch? && t.left.Branch?
  {
    Branch(t.left.left, t.left.key, t.left.data, t.(left := Empty))
  }

  function RotateLR(t: Tree): Tree
    requires t.Branch? && t.left.Branch? && t.left.right.Branch?
  {
    var m := t.left.right;
    Branch(t.left.(right := Empty), m.key, m.data, t.(left := Empty))
  }

  /** One node, or two. */
  predicate Small(t: Tree) {
    t.Branch? && (t.left.Empty? || t.right.Empty?) && (t.left.Empty? || IsLeaf(t.left)) && (t.right.Empty? || IsLeaf(t.right))
  }

  /** What an insertion on the right can leave: an only child has at most two nodes. */
  predicate AlmostRight(t: Tree) {
    t.Branch? && Shape(t.left) && Shape(t.right) && t.right.Branch? && (t.left.Empty? ==> Small(t.right))
  }

  predicate AlmostLeft(t: Tree) {
    t.Branch? && Shape(t.left) && Shape(t.right) && t.left.Branch? && (t.right.Empty? ==> Small(t.left))
  }

  lemma {:induction false} HeightRight(t: Tree)
    requires AlmostRight(t)
    ensures Height(t, RIGHT) ==
              if t.left.Branch? then 0
              else if IsLeaf(t.right) then -1
              else if t.right.right.Branch? then -2 else RL_ROT
  {
    if t.left.Empty? && t.right.right.Branch? {
      assert Height(t.right.right, RIGHT) == 0 && Height(t.right, RIGHT) == -1;
    } else if t.left.Empty? && t.right.left.Branch? {
      assert Height(t.right.left, RIGHT) == 0 && Height(t.right, RIGHT) == 1;
    }
  }

  lemma {:induction false} HeightLeft(t: Tree)
    requires AlmostLeft(t)
    ensures Height(t, LEFT) ==
              if t.right.Branch? then 0
              else if IsLeaf(t.left) then 1
              else if t.left.left.Branch? then 2 else LR_ROT
  {
    if t.right.Empty? && t.left.left.Branch? {
      assert Height(t.left.left, LEFT) == 0 && Height(t.left, LEFT) == 1;
    } else if t.right.Empty? && t.left.right.Branch? {
      assert Height(t.left.right, LEFT) == 0 && Height(t.left, LEFT) == -1;
    }
  }

  /** The check after an insertion on the right. */
  function BalanceRight(t: Tree): (r: Tree)
    requires AlmostRight(t)
    ensures Shape(r) && r.Branch? && (IsLeaf(t.right) ==> r == t)
  {
    HeightRight(t);
    var bf := Height(t, RIGHT);
    if bf == -2 then RotateRR(t) else if bf == RL_ROT then RotateRL(t) else t
  }

  /** The check after an insertion on the left. */
  function BalanceLeft(t: Tree): (r: Tree)
    requires AlmostLeft(t)
    ensures Shape(r) && r.Branch? && (IsLeaf(t.left) ==> r == t)
  {
    HeightLeft(t);
    var bf := Height(t, LEFT);
    if bf == 2 then RotateLL(t) else if bf == LR_ROT then RotateLR(t) else t
  }

  /** `insert_bst`. */
  function Insert(t: Tree, k: i32, d: int): (r: Tree)
    requires Shape(t)
    ensures Shape(r) && r.Branch?
    ensures t.Empty? || IsLeaf(t) ==> Small(r)
  {
    if t.Empty? then Leaf(k, d)
    else if k > t.key then BalanceRight(t.(right := Insert(t.right, k, d)))
    else if k < t.key then BalanceLeft(t.(left := Insert(t.left, k, d)))
    else t
  }

  /** `find`: the data of the key. */
  function Find(t: Tree, k: i32): Option<int> {
    if t.Empty? then None
    else if k > t.key then Find(t.right, k)
    else if k < t.key then Find(t.left, k)
    else Some(t.data)
  }

  // ----- what is in the tree -----

  datatype Item = Item(key: i32, data: int)

  /** The items from left to right. */
  function Items(t: Tree): seq<Item> {
    if t.Empty? then [] else Items(t.left) + [Item(t.key, t.data)] + Items(t.right)
  }

  predicate Ascending(items: seq<Item>) {
    forall i, j :: 0 <= i < j < |items| ==> items[i].key < items[j].key
  }

  /** An ascending list with one more item, unless its key is there. */
  function Place(items: seq<Item>, item: Item): (r: seq<Item>) {
    if |items| == 0 then [item]
    else if items[0].key < item.key then [items[0]] + Place(items[1..], item)
    else if items[0].key == item.key then items
    else [item] + items
  }

  lemma {:induction false} ItemsOfLeaf(t: Tree)
    requires IsLeaf(t)
    ensures Items(t) == [Item(t.key, t.data)]
  {
    assert Items(t.left) == [] && Items(t.right) == [];
  }

  /** No rotation drops, adds or moves an item. */
  lemma {:induction false} RightKeepsItems(t: Tree)
    requires AlmostRight(t)
    ensures Items(BalanceRight(t)) == Items(t)
  {
    HeightRight(t);
    if t.left.Empty? && !IsLeaf(t.right) {
      var u, v := Item(t.key, t.data), Item(t.right.key, t.right.data);
      var c := if t.right.right.Branch? then t.right.right else t.right.left;
      var w := Item(c.key, c.data);
      ItemsOfLeaf(c);
      ItemsOfLeaf(t.(right := Empty));
      assert Items(t.left) == [];
      if t.right.right.Branch? {
        assert Items(t.right.left) == [];
        assert Items(t.right) == [v, w];
        assert Items(t) == [u, v, w] == Items(RotateRR(t));
      } else {
        ItemsOfLeaf(t.right.(left := Empty));
        assert Items(t.right.right) == [];
        assert Items(t.right) == [w, v];
        assert Items(t) == [u, w, v] == Items(RotateRL(t));
      }
    }
  }

  lemma {:induction false} LeftKeepsItems(t: Tree)
    requires AlmostLeft(t)
    ensures Items(BalanceLeft(t)) == Items(t)
  {
    HeightLeft(t);
    if t.right.Empty? && !IsLeaf(t.left) {
      var u, v := Item(t.key, t.data), Item(t.left.key, t.left.data);
      var c := if t.left.left.Branch? then t.left.left else t.left.right;
      var w := Item(c.key, c.data);
      ItemsOfLeaf(c);
      ItemsOfLeaf(t.(left := Empty));
      assert Items(t.right) == [];
      if t.left.left.Branch? {
        assert Items(t.left.right) == [];
        assert Items(t.left) == [w, v];
        assert Items(t) == [w, v, u] == Items(RotateLL(t));
      } else {
        ItemsOfLeaf(t.left.(right := Empty));
        assert Items(t.left.left) == [];
        assert Items(t.left) == [v, w];
        assert Items(t) == [v, w, u] == Items(RotateLR(t));
      }
    }
  }

  lemma {:induction false} PlaceAfter(x: seq<Item>, y: seq<Item>, item: Item)
    requires forall i :: 0 <= i < |x| ==> x[i].key < item.key
    ensures Place(x + y, item) == x + Place(y, item)
    decreases |x|
  {
    if |x| == 0 {
      assert x + y == y;
    } else {
      assert (x + y)[1..] == x[1..] + y;
      PlaceAfter(x[1..], y, item);
    }
  }

  lemma {:induction false} PlaceBefore(x: seq<Item>, y: seq<Item>, item: Item)
    requires |y| > 0 && item.key < y[0].key
    ensures Place(x + y, item) == Place(x, item) + y
    decreases |x|
  {
    if |x| == 0 {
      assert x + y == y;
    } else if x[0].key < item.key {
      assert (x + y)[1..] == x[1..] + y;
      PlaceBefore(x[1..], y, item);
    }
  }

  /** The three parts of an ascending list ascend, in order. */
  predicate InOrder(l: seq<Item>, m: Item, r: seq<Item>) {
    && Ascending(l) && Ascending(r)
    && (forall i :: 0 <= i < |l| ==> l[i].key < m.key) && (forall i :: 0 <= i < |r| ==> m.key < r[i].key)
  }

  lemma {:induction false} AscendingParts(l: seq<Item>, m: Item, r: seq<Item>)
    ensures Ascending(l + [m] + r) <==> InOrder(l, m, r)
  {
    var all := l + [m] + r;
    assert forall i :: 0 <= i < |l| ==> all[i] == l[i];
    assert forall i :: 0 <= i < |r| ==> all[|l| + 1 + i] == r[i];
    assert all[|l|] == m;
  }

  lemma {:induction false} PlaceParts(l: seq<Item>, m: Item, r: seq<Item>, item: Item)
    requires InOrder(l, m, r)
    ensures Place(l + [m] + r, item) ==
              if item.key > m.key then l + [m] + Place(r, item)
              else if item.key < m.key then Place(l, item) + [m] + r
              else l + [m] + r
  {
    if item.key > m.key {
      PlaceAfter(l + [m], r, item);
    } else if item.key < m.key {
      assert l + [m] + r == l + ([m] + r);
      PlaceBefore(l, [m] + r, item);
      assert Place(l, item) + ([m] + r) == Place(l, item) + [m] + r;
    } else {
      assert l + [m] + r == l + ([m] + r);
      PlaceAfter(l, [m] + r, item);
    }
  }

  /** insert_bst puts the item where it belongs among the others; a key that is there stays as it is. */
  lemma {:induction false} InsertItems(t: Tree, k: i32, d: int)
    requires Shape(t) && Ascending(Items(t))
    ensures Items(Insert(t, k, d)) == Place(Items(t), Item(k, d))
    decreases t
  {
    if t.Branch? {
      AscendingParts(Items(t.left), Item(t.key, t.data), Items(t.right));
      PlaceParts(Items(t.left), Item(t.key, t.data), Items(t.right), Item(k, d));
      hide Ascending, Place, BalanceLeft, BalanceRight, Shape;
      if k > t.key {
        InsertItems(t.right, k, d);
        RightKeepsItems(t.(right := Insert(t.right, k, d)));
      } else if k < t.key {
        InsertItems(t.left, k, d);
        LeftKeepsItems(t.(left := Insert(t.left, k, d)));
      }
    } else {
      ItemsOfLeaf(Leaf(k, d));
    }
  }

  // ----- look-up -----

  function FindItem(items: seq<Item>, k: i32): Option<int> {
    if |items| == 0 then None else if items[0].key == k then Some(items[0].data) else FindItem(items[1..], k)
  }

  lemma {:induction false} FindItemConcat(x: seq<Item>, y: seq<Item>, k: i32)
    ensures FindItem(x + y, k) == if FindItem(x, k).Some? then FindItem(x, k) else FindItem(y, k)
    decreases |x|
  {
    if |x| == 0 {
      assert x + y == y;
    } else if x[0].key != k {
      assert (x + y)[1..] == x[1..] + y;
      FindItemConcat(x[1..], y, k);
    }
  }

  lemma {:induction false} FindItemNone(items: seq<Item>, k: i32)
    requires forall i :: 0 <= i < |items| ==> items[i].key != k
    ensures FindItem(items, k) == None
    decreases |items|
  {
    if |items| > 0 {
      FindItemNone(items[1..], k);
    }
  }

  /** `find` succeeds exactly on the keys of the tree. */
  lemma {:induction false} FindIsFindItem(t: Tree, k: i32)
    requires Ascending(Items(t))
    ensures Find(t, k) == FindItem(Items(t), k)
  {
    if t.Branch? {
      var l, m, r := Items(t.left), Item(t.key, t.data), Items(t.right);
      AscendingParts(l, m, r);
      FindItemConcat(l + [m], r, k);
      FindItemConcat(l, [m], k);
      FindIsFindItem(t.left, k);
      FindIsFindItem(t.right, k);
      if k >= t.key {
        FindItemNone(l, k);
      }
      if k <= t.key {
        FindItemNone(r, k);
      }
      assert FindItem([m], k) == if k == t.key then Some(t.data) else FindItem([], k);
    }
  }

  lemma {:induction false} FindPlaced(items: seq<Item>, item: Item, k: i32)
    requires Ascending(items)
    ensures FindItem(Place(items, item), k) ==
              if FindItem(items, k).Some? then FindItem(items, k)
              else if k == item.key then Some(item.data) else None
    decreases |items|
  {
    if |items| > 0 {
      if items[0].key < item.key {
        FindPlaced(items[1..], item, k);
        assert ([items[0]] + Place(items[1..], item))[1..] == Place(items[1..], item);
      } else if items[0].key > item.key {
        assert ([item] + items)[1..] == items;
        FindItemNone(items, item.key);
      }
    } else {
      assert [item][1..] == [];
    }
  }

  lemma {:induction false} PlaceAscends(items: seq<Item>, item: Item)
    requires Ascending(items)
    ensures Ascending(Place(items, item))
    ensures |Place(items, item)| > 0
    ensures Place(items, item)[0] == item || (|items| > 0 && Place(items, item)[0] == items[0])
    ensures |Place(items, item)| == |items| + if FindItem(items, item.key).Some? then 0 else 1
    decreases |items|
  {
    if |items| > 0 && items[0].key < item.key {
      PlaceAscends(items[1..], item);
      var rest := Place(items[1..], item);
      assert items[0].key < rest[0].key;
    } else if |items| > 0 && items[0].key > item.key {
      FindItemNone(items, item.key);
    }
  }

  /** After an insertion: the new key is found with its data, all others as before, and one more node is there. */
  lemma {:induction false} InsertFinds(t: Tree, k: i32, d: int, q: i32)
    requires Shape(t) && Ascending(Items(t))
    ensures Ascending(Items(Insert(t, k, d)))
    ensures Find(Insert(t, k, d), q) ==
              if Find(t, q).Some? then Find(t, q) else if q == k then Some(d) else None
    ensures |Items(Insert(t, k, d))| == |Items(t)| + if Find(t, k).Some? then 0 else 1
  {
    hide Shape, Insert, Place, FindItem, Find;
    InsertItems(t, k, d);
    PlaceAscends(Items(t), Item(k, d));
    FindPlaced(Items(t), Item(k, d), q);
    FindIsFindItem(t, k);
    FindIsFindItem(t, q);
    FindIsFindItem(Insert(t, k, d), q);
  }

  // ----- any sequence of insertions -----

  function Built(items: seq<Item>): (t: Tree)
    ensures Shape(t)
  {
    if |items| == 0 then Empty
    else var last := items[|items| - 1]; Insert(Built(items[..|items| - 1]), last.key, last.data)
  }

  function KeysOf(items: seq<Item>): set<i32> {
    set i | 0 <= i < |items| :: items[i].key
  }

  lemma {:induction false} FindItemIn(items: seq<Item>, k: i32)
    ensures FindItem(items, k).Some? <==> k in KeysOf(items)
    decreases |items|
  {
    if |items| > 0 && items[0].key != k {
      FindItemIn(items[1..], k);
      if i :| 0 <= i < |items| && items[i].key == k {
        assert items[1..][i - 1].key == k;
      }
    }
  }

  /**
   * Whatever was inserted, in whatever order: the tree is a search tree with one node for
   * each key, and find gives the data that came first with the key.
   */
  lemma {:induction false} BuiltFinds(items: seq<Item>, k: i32)
    ensures Ascending(Items(Built(items)))
    ensures Find(Built(items), k) == FindItem(items, k)
    ensures |Items(Built(items))| == |KeysOf(items)|
    decreases |items|
  {
    hide Shape, Insert, Find, Items;
    if |items| > 0 {
      var n := |items| - 1;
      var t, last := Built(items[..n]), items[n];
      BuiltFinds(items[..n], k);
      BuiltFinds(items[..n], last.key);
      InsertFinds(t, last.key, last.data, k);
      assert items == items[..n] + [last];
      FindItemConcat(items[..n], [last], k);
      assert FindItem([last], k) == if last.key == k then Some(last.data) else FindItem([], k);
      FindItemIn(items[..n], last.key);
      assert KeysOf(items) == KeysOf(items[..n]) + {last.key};
    } else {
      assert Items(Empty) == [] && Find(Empty, k) == None by {
        ItemsOfEmpty(k);
      }
    }
  }

  lemma {:induction false} ItemsOfEmpty(k: i32)
    ensures Items(Empty) == [] && Find(Empty, k) == None
  {
  }

  // ----- the number of levels -----

  function Levels(t: Tree): nat {
    if t.Empty? then 0 else 1 + Max(Levels(t.left), Levels(t.right))
  }

  function Max(x: nat, y: nat): nat {
    if x < y then y else x
  }

  lemma {:induction false} ShapeBound(t: Tree)
    requires Shape(t)
    ensures Levels(t) <= |Items(t)| / 2 + 1 && (t.Branch? ==> |Items(t)| > 0)
  {
    if t.Branch? {
      ShapeBound(t.left);
      ShapeBound(t.right);
    }
  }

  /** n keys never take more than n / 2 + 1 levels. */
  lemma {:induction false} LevelBound(items: seq<Item>)
    ensures Levels(Built(items)) <= |KeysOf(items)| / 2 + 1
  {
    ShapeBound(Built(items));
    BuiltFinds(items, 0);
  }

  /** The keys 0, then -1 and 2, 1 and 4, 3 and 6, ...: m pairs after the first. */
  function Zigzag(m: nat): seq<Item>
    requires m < 0x3fff_ffff
  {
    if m == 0 then [Item(0, 0)] else Zigzag(m - 1) + [Item(2 * m - 3, 0), Item(2 * m, 0)]
  }

  /** A spine to the right with a leaf at every left. */
  function Spine(x: int, m: nat): Tree
    requires -1 <= x - 1 && x + 2 * m < 0x7fff_ffff
    decreases m
  {
    if m == 0 then Leaf(x, 0) else Branch(Leaf(x - 1, 0), x, 0, Spine(x + 2, m - 1))
  }

  lemma {:induction false} SpineGrows(x: int, m: nat)
    requires -1 <= x - 1 && x + 2 * m + 2 < 0x7fff_ffff
    ensures Shape(Spine(x, m))
    ensures var t := Insert(Spine(x, m), x + 2 * m - 1, 0);
            Insert(t, x + 2 * m + 2, 0) == Spine(x, m + 1)
    decreases m
  {
    if m > 0 {
      SpineGrows(x + 2, m - 1);
    }
  }

  /** The bound is reached: 2 * m + 1 keys can take m + 1 levels. */
  lemma {:induction false} BoundReached(m: nat)
    requires m < 0x3fff_ffff
    ensures Built(Zigzag(m)) == Spine(0, m) && Levels(Built(Zigzag(m))) == m + 1
    ensures |Zigzag(m)| == 2 * m + 1
    decreases m
  {
    hide *;
    ZigzagNext(m);
    if m > 0 {
      BoundReached(m - 1);
      SpineGrows(0, m - 1);
      var z, x, y := Zigzag(m - 1), Item(2 * m - 3, 0), Item(2 * m, 0);
      BuiltNext(z, x);
      BuiltNext(z + [x], y);
      assert z + [x] + [y] == z + [x, y];
    } else {
      OneLeaf();
    }
    SpineLevels(0, m);
  }

  lemma {:induction false} ZigzagNext(m: nat)
    requires m < 0x3fff_ffff
    ensures m == 0 ==> Zigzag(0) == [Item(0, 0)] && Spine(0, 0) == Leaf(0, 0)
    ensures m > 0 ==> Zigzag(m) == Zigzag(m - 1) + [Item(2 * m - 3, 0), Item(2 * m, 0)]
  {
  }

  lemma {:induction false} BuiltNext(items: seq<Item>, x: Item)
    ensures Built(items + [x]) == Insert(Built(items), x.key, x.data)
  {
    assert (items + [x])[..|items|] == items;
  }

  lemma {:induction false} OneLeaf()
    ensures Built([Item(0, 0)]) == Leaf(0, 0)
  {
    assert [Item(0, 0)][..0] == [];
    assert Built([]) == Empty;
    assert Insert(Empty, 0, 0) == Leaf(0, 0);
  }

  lemma {:induction false} SpineLevels(x: int, m: nat)
    requires -1 <= x - 1 && x + 2 * m < 0x7fff_ffff
    ensures Levels(Spine(x, m)) == m + 1
    decreases m
  {
    if m > 0 {
      SpineLevels(x + 2, m - 1);
    }
  }
}
