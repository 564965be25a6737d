// The self-adjusting binary search tree as the program keeps it: nodes linked by pointers,
// rotated by rewriting the pointers in place (integer keys).
module BinaryTree {
  import opened Bytes
  import opened TreeModel

  class Node {
    const key: i32
    const data: int
    var left: Node?
    var right: Node?
    ghost var Repr: set<Node>

    constructor (key: i32, data: int)
      ensures Valid() && fresh(Repr) && left == null && right == null
      ensures Value() == Leaf(key, data)
    {
      this.key, this.data := key, data;
      left, right := null, null;
      Repr := {this};
    }

    ghost predicate Valid()
      reads this, Repr
      decreases Repr
    {
      && this in Repr
      && (left != null ==> left in Repr && left.Repr < Repr && this !in left.Repr && left.Valid())
      && (right != null ==> right in Repr && right.Repr < Repr && this !in right.Repr && right.Valid())
      && (left != null && right != null ==> left.Repr !! right.Repr)
    }

    /** The tree below this node as a value. */
    ghost function Value(): (t: Tree)
      requires Valid()
      reads this, Repr
      decreases Repr
      ensures t.Branch? && t.key == key && t.data == data
      ensures t.left == (if left == null then Empty else left.Value())
      ensures t.right == (if right == null then Empty else right.Value())
    {
      Branch(if left == null then Empty else left.Value(), key, data, if right == null then Empty else right.Value())
    }
  }

  /** The tree below a pointer. */
  ghost function ValueOf(node: Node?): Tree
    requires node != null ==> node.Valid()
    reads node, if node == null then {} else node.Repr
  {
    if node == null then Empty else node.Value()
  }

  /** `height`. */
  method HeightOf(node: Node?, branch: nat) returns (bf: int)
    requires node != null ==> node.Valid()
    ensures bf == Height(ValueOf(node), branch)
    decreases ValueOf(node)
  {
    if node == null {
      return -1;
    }
    if (node.left == null) == (node.right == null) {
      return 0;
    }
    if node.right != null {
      bf := HeightOf(node.right, branch);
      bf := if branch == RIGHT && bf == 1 then RL_ROT else bf - 1;
    } else {
      bf := HeightOf(node.left, branch);
      bf := if branch == LEFT && bf == -1 then LR_ROT else bf + 1;
    }
  }

  /** `find`. */
  method FindIn(node: Node?, key: i32) returns (data: Option<int>)
    requires node != null ==> node.Valid()
    ensures data == Find(ValueOf(node), key)
    decreases ValueOf(node)
  {
    if node == null {
      return None;
    }
    if key > node.key {
      data := FindIn(node.right, key);
    } else if key < node.key {
      data := FindIn(node.left, key);
    } else {
      data := Some(node.data);
    }
  }

  /** The RR rewrite of the tree below `current`. */
  method RewriteRR(current: Node) returns (root: Node)
    requires current.Valid() && current.left == null && current.right != null
    modifies current.Repr
    ensures root.Valid() && root.Repr == old(current.Repr)
    ensures root.Value() == RotateRR(old(current.Value()))
  {
    var temp := current.right;
    current.right := null;
    temp.left := current;
    temp.Repr := current.Repr;
    current.Repr := {current};
    root := temp;
  }

  /** The LL rewrite. */
  method RewriteLL(current: Node) returns (root: Node)
    requires current.Valid() && current.right == null && current.left != null
    modifies current.Repr
    ensures root.Valid() && root.Repr == old(current.Repr)
    ensures root.Value() == RotateLL(old(current.Value()))
  {
    var temp := current.left;
    current.left := null;
    temp.right := current;
    temp.Repr := current.Repr;
    current.Repr := {current};
    root := temp;
  }

  /** The RL rewrite: the middle node comes up between the two others. */
  method RewriteRL(current: Node) returns (root: Node)
    requires current.Valid() && current.left == null && current.right != null
    requires current.right.left != null && current.right.right == null
    modifies current.Repr
    ensures root.Valid() && root.Repr == old(current.Repr)
    ensures root.Value() == RotateRL(old(current.Value()))
  {
    var temp := current.right;
    current.right := temp.left;
    temp.left := null;
    current.right.right := temp;
    ghost var third := temp;
    temp := current.right;
    current.right := null;
    temp.left := current;
    third.Repr := {third};
    temp.Repr := current.Repr;
    current.Repr := {current};
    root := temp;
  }

  /** The LR rewrite. */
  method RewriteLR(current: Node) returns (root: Node)
    requires current.Valid() && current.right == null && current.left != null
    requires current.left.right != null && current.left.left == null
    modifies current.Repr
    ensures root.Valid() && root.Repr == old(current.Repr)
    ensures root.Value() == RotateLR(old(current.Value()))
  {
    var temp := current.left;
    current.left := temp.right;
    temp.right := null;
    current.left.left := temp;
    ghost var third := temp;
    temp := current.left;
    current.left := null;
    temp.right := current;
    third.Repr := {third};
    temp.Repr := current.Repr;
    current.Repr := {current};
    root := temp;
  }

  /** The check that follows an insertion on the right. */
  method CheckRight(current: Node) returns (root: Node)
    requires current.Valid() && AlmostRight(current.Value())
    modifies current.Repr
    ensures root.Valid() && root.Repr == old(current.Repr)
    ensures root.Value() == BalanceRight(old(current.Value()))
  {
    HeightRight(current.Value());
    root := current;
    var bf := HeightOf(current, RIGHT);
    if bf > 1 || bf < -1 {
      if bf == -2 {
        root := RewriteRR(current);
      } else if bf == RL_ROT {
        root := RewriteRL(current);
      }
    }
  }

  method CheckLeft(current: Node) returns (root: Node)
    requires current.Valid() && AlmostLeft(current.Value())
    modifies current.Repr
    ensures root.Valid() && root.Repr == old(current.Repr)
    ensures root.Value() == BalanceLeft(old(current.Value()))
  {
    HeightLeft(current.Value());
    root := current;
    var bf := HeightOf(current, LEFT);
    if bf > 1 || bf < -1 {
      if bf == 2 {
        root := RewriteLL(current);
      } else if bf == LR_ROT {
        root := RewriteLR(current);
      }
    }
  }

  ghost function ReprOf(node: Node?): set<Node>
    reads node
  {
    if node == null then {} else node.Repr
  }

  /** The right subtree is replaced by the tree the insertion returned. */
  method HangRight(current: Node, child: Node)
    requires current in current.Repr && child.Valid() && current !in child.Repr
    requires current.left != null ==>
               && current.left in current.Repr && current.left.Repr < current.Repr && current !in current.left.Repr
               && current.left.Valid() && current.left.Repr !! child.Repr
    modifies current`right, current`Repr
    ensures current.Valid() && current.Repr == old(current.Repr) + child.Repr
    ensures current.right == child && current.left == old(current.left)
    ensures current.Value().right == old(child.Value()) && current.Value().left == old(ValueOf(current.left))
  {
    current.right := child;
    current.Repr := current.Repr + child.Repr;
  }

  /** The left subtree is replaced by the tree the insertion returned. */
  method HangLeft(current: Node, child: Node)
    requires current in current.Repr && child.Valid() && current !in child.Repr
    requires current.right != null ==>
               && current.right in current.Repr && current.right.Repr < current.Repr && current !in current.right.Repr
               && current.right.Valid() && current.right.Repr !! child.Repr
    modifies current`left, current`Repr
    ensures current.Valid() && current.Repr == old(current.Repr) + child.Repr
    ensures current.left == child && current.right == old(current.right)
    ensures current.Value().left == old(child.Value()) && current.Value().right == old(ValueOf(current.right))
  {
    current.left := child;
    current.Repr := current.Repr + child.Repr;
  }

  /** `insert_bst`: the new root of the tree that hung at `current`. */
  method InsertAt(current: Node?, key: i32, data: int) returns (root: Node)
    requires (current != null ==> current.Valid()) && Shape(ValueOf(current))
    modifies ReprOf(current)
    ensures root.Valid() && fresh(root.Repr - old(ReprOf(current)))
    ensures root.Value() == Insert(old(ValueOf(current)), key, data)
    decreases ValueOf(current), 1
  {
    if current == null {
      root := new Node(key, data);
      return;
    }
    InsertIs(current.Value(), key, data);
    if key > current.key {
      root := InsertRight(current, key, data);
    } else if key < current.key {
      root := InsertLeft(current, key, data);
    } else {
      root := current;
    }
  }

  method InsertRight(current: Node, key: i32, data: int) returns (root: Node)
    requires current.Valid() && Shape(current.Value()) && key > current.key
    modifies current.Repr
    ensures root.Valid() && fresh(root.Repr - old(current.Repr))
    ensures root.Value() == Insert(old(current.Value()), key, data)
    decreases current.Value(), 0
  {
    ghost var was := current.Value();
    InsertIs(was, key, data);
    hide Insert, Shape, AlmostRight, BalanceRight;
    var child := InsertAt(current.right, key, data);
    HangRight(current, child);
    assert current.Value() == was.(right := Insert(was.right, key, data));
    root := CheckRight(current);
  }

  method InsertLeft(current: Node, key: i32, data: int) returns (root: Node)
    requires current.Valid() && Shape(current.Value()) && key < current.key
    modifies current.Repr
    ensures root.Valid() && fresh(root.Repr - old(current.Repr))
    ensures root.Value() == Insert(old(current.Value()), key, data)
    decreases current.Value(), 0
  {
    ghost var was := current.Value();
    InsertIs(was, key, data);
    hide Insert, Shape, AlmostLeft, BalanceLeft;
    var child := InsertAt(current.left, key, data);
    HangLeft(current, child);
    assert current.Value() == was.(left := Insert(was.left, key, data));
    root := CheckLeft(current);
  }

  lemma {:induction false} InsertIs(t: Tree, k: i32, d: int)
    requires t.Branch? && Shape(t)
    ensures Shape(t.left) && Shape(t.right)
    ensures k > t.key ==>
              && AlmostRight(t.(right := Insert(t.right, k, d)))
              && Insert(t, k, d) == BalanceRight(t.(right := Insert(t.right, k, d)))
    ensures k < t.key ==>
              && AlmostLeft(t.(left := Insert(t.left, k, d)))
              && Insert(t, k, d) == BalanceLeft(t.(left := Insert(t.left, k, d)))
    ensures k == t.key ==> Insert(t, k, d) == t
  {
  }

  /** The BST structure: the root pointer that BST_insert and find work through. */
  class SearchTree {
    var root: Node?
    ghost var inserted: seq<Item> // every insertion made, oldest first

    constructor ()
      ensures Valid() && inserted == [] && ReprOf(root) == {}
    {
      root, inserted := null, [];
    }

    /** The nodes form the tree that the insertions build. */
    ghost predicate Valid()
      reads this, root, ReprOf(root)
    {
      (root != null ==> root.Valid()) && ValueOf(root) == Built(inserted)
    }

    method Insert(key: i32, data: int)
      requires Valid()
      modifies this, ReprOf(root)
      ensures Valid() && inserted == old(inserted) + [Item(key, data)]
      ensures fresh(ReprOf(root) - old(ReprOf(root)))
    {
      hide Shape, TreeModel.Insert;
      assert (inserted + [Item(key, data)])[..|inserted|] == inserted;
      root := InsertAt(root, key, data);
      inserted := inserted + [Item(key, data)];
    }

    /** The data that was inserted first with the key, if any was. */
    method Find(key: i32) returns (data: Option<int>)
      requires Valid()
      ensures data == FindItem(inserted, key)
      ensures data.Some? <==> key in KeysOf(inserted)
    {
      hide Shape, TreeModel.Insert, TreeModel.Find;
      BuiltFinds(inserted, key);
      FindItemIn(inserted, key);
      data := FindIn(root, key);
    }
  }
}
