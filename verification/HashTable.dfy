// The hash table as the program keeps it: an array of singly linked chains of nodes.
module HashTable {
  import opened Bytes
  import opened TableModel

  class Node {
    const key: Key
    var value: nat
    var next: Node?
    ghost const home: nat // the bucket the node was made for
    ghost const rank: nat // grows along the chain, so no node occurs twice

    constructor (key: Key, value: nat, ghost home: nat, ghost rank: nat)
      ensures this.key == key && this.value == value && next == null
      ensures this.home == home && this.rank == rank
    {
      this.key, this.value, next := key, value, null;
      this.home, this.rank := home, rank;
    }
  }

  class HashTable {
    var size: nat
    const dataMap: array<Node?>
    ghost var chains: seq<seq<Node>> // the nodes of each bucket, head first
    ghost var Repr: set<Node>

    /** An empty table. */
    constructor (size: nat)
      requires SizeOK(size)
      ensures Valid() && fresh(dataMap) && Repr == {}
      ensures Value() == Table(size, seq(size, _ => []))
    {
      this.size := size;
      dataMap := new Node?[MAX_HT_BUCKET](_ => null);
      chains := seq(size, _ => []);
      Repr := {};
      new;
      assert forall b :: 0 <= b < size ==> ChainOf(chains[b]) == [];
    }

    /** The nodes ns, in this order, hang at `head`. */
    ghost predicate Linked(head: Node?, ns: seq<Node>)
      reads ns
    {
      && head == (if |ns| == 0 then null else ns[0])
      && forall i {:trigger ns[i].next} :: 0 <= i < |ns| ==> ns[i].next == if i + 1 < |ns| then ns[i + 1] else null
    }

    /** The nodes of a chain are this table's, belong to bucket b, and are all different. */
    ghost predicate Own(ns: seq<Node>, b: nat)
      reads this
    {
      && (forall i :: 0 <= i < |ns| ==> ns[i] in Repr && ns[i].home == b && KeyOK(ns[i].key))
      && (forall i, j :: 0 <= i < j < |ns| ==> ns[i].rank < ns[j].rank)
    }

    ghost predicate Valid()
      reads this, dataMap, Repr
      ensures Valid() ==> SizeOK(size) && |chains| == size
    {
      && SizeOK(size) && dataMap.Length == MAX_HT_BUCKET && |chains| == size
      && (forall b :: 0 <= b < size ==> Own(chains[b], b) && Linked(dataMap[b], chains[b]))
    }

    ghost function ChainOf(ns: seq<Node>): (r: seq<Entry>)
      reads ns
      ensures |r| == |ns|
      ensures forall i :: 0 <= i < |ns| ==> r[i] == Entry(ns[i].key, ns[i].value)
    {
      if |ns| == 0 then [] else ChainOf(ns[..|ns| - 1]) + [Entry(ns[|ns| - 1].key, ns[|ns| - 1].value)]
    }

    /** The first n chains as values. */
    ghost function BucketsUpTo(n: nat): (r: seq<seq<Entry>>)
      requires Valid() && n <= size
      reads this, dataMap, Repr
      ensures |r| == n && forall b :: 0 <= b < n ==> r[b] == ChainOf(chains[b])
    {
      if n == 0 then [] else BucketsUpTo(n - 1) + [ChainOf(chains[n - 1])]
    }

    /** The table as a value. */
    ghost function Value(): (t: Table)
      requires Valid()
      reads this, dataMap, Repr
      ensures SizeOK(t.size) && |t.buckets| == t.size == size
    {
      Table(size, BucketsUpTo(size))
    }

    /** Chains whose nodes kept their values still say the same. */
    twostate lemma SameChain(ns: seq<Node>)
      requires forall i :: 0 <= i < |ns| ==> old(allocated(ns[i])) && ns[i].value == old(ns[i].value)
      ensures ChainOf(ns) == old(ChainOf(ns))
    {
    }

    lemma {:induction false} ChainAppend(ns: seq<Node>, n: Node)
      ensures ChainOf(ns + [n]) == ChainOf(ns) + [Entry(n.key, n.value)]
    {
      assert (ns + [n])[..|ns|] == ns;
    }

    /** Only the chain of bucket b changed. */
    twostate lemma OneBucketChanged(b: nat)
      requires old(Valid()) && Valid() && size == old(size) && b < size
      requires forall c :: 0 <= c < size && c != b ==> chains[c] == old(chains)[c]
      requires forall n :: n in old(Repr) ==> n.value == old(n.value)
      ensures Value() == Table(size, old(Value()).buckets[b := ChainOf(chains[b])])
    {
      hide Own, Linked, ChainOf;
      forall c | 0 <= c < size && c != b ensures ChainOf(chains[c]) == old(ChainOf(chains[c])) {
        SameBucket(c);
      }
      assert Value().buckets == old(Value()).buckets[b := ChainOf(chains[b])];
    }

    /** The end of bucket b is `last` (null when empty): store the new node there. */
    method LinkLast(b: nat, last: Node?, node: Node)
      requires Valid() && b < size && node !in Repr && KeyOK(node.key) && node.next == null && node.home == b
      requires last == if |chains[b]| == 0 then null else chains[b][|chains[b]| - 1]
      requires last != null ==> last.rank < node.rank
      modifies this, dataMap, Repr
      ensures Valid() && size == old(size) && Repr == old(Repr) + {node}
      ensures Value() == Table(size, old(Value()).buckets[b := old(Value()).buckets[b] + [Entry(node.key, node.value)]])
    {
      NodesOwned(b);
      hide *;
      if last == null {
        dataMap[b] := node;
      } else {
        last.next := node;
      }
      chains := chains[b := chains[b] + [node]];
      Repr := Repr + {node};
      NodeAdded(b);
    }

    /** The chain of bucket c, when only links of other buckets changed. */
    twostate lemma OtherChain(c: nat)
      requires old(Valid()) && c < size == old(size) && dataMap.Length == MAX_HT_BUCKET && dataMap[c] == old(dataMap[c])
      requires |chains| == size && chains[c] == old(chains)[c] && old(Repr) <= Repr
      requires forall n :: n in old(Repr) && n.home == c ==> n.next == old(n.next)
      ensures Own(chains[c], c) && Linked(dataMap[c], chains[c])
    {
      assert old(Own(chains[c], c)) && old(Linked(dataMap[c], chains[c]));
    }

    /** Bucket b with one node more at its end. */
    ghost predicate Ended(b: nat, was: seq<Node>, owned: set<Node>)
      reads this
      requires b < |chains|
    {
      && |chains[b]| == |was| + 1 && chains[b][..|was|] == was
      && var node := chains[b][|was|];
      && KeyOK(node.key) && node.home == b && node !in owned && Repr == owned + {node}
      && (|was| > 0 ==> was[|was| - 1].rank < node.rank)
    }

    /** The chain of bucket b with one node more. */
    twostate lemma LongerChain(b: nat)
      requires old(Valid()) && b < size == old(size) && dataMap.Length == MAX_HT_BUCKET
      requires |chains| == size && Ended(b, old(chains)[b], old(Repr)) && chains[b][|chains[b]| - 1].next == null
      requires var ns := old(chains)[b]; var node := chains[b][|ns|];
               && (|ns| == 0 ==> dataMap[b] == node)
               && (|ns| > 0 ==> dataMap[b] == old(dataMap[b]) && ns[|ns| - 1].next == node
                                && forall j :: 0 <= j < |ns| - 1 ==> ns[j].next == old(ns[j].next))
      ensures Own(chains[b], b) && Linked(dataMap[b], chains[b])
    {
      OldChain(b);
      var ns, node := old(chains)[b], chains[b][|old(chains)[b]|];
      EndedIs(b, ns, old(Repr));
      hide *;
      OwnLonger(ns, node, b);
      LinkedLonger(old(dataMap[b]), ns, old(Links(ns)), dataMap[b], node);
    }

    /** What the links and nodes of a bucket were. */
    twostate lemma OldChain(b: nat)
      requires old(Valid()) && b < old(size)
      ensures old(Own(chains[b], b))
      ensures var ns := old(chains)[b];
              && (forall j :: 0 <= j < |ns| ==> ns[j] in old(Repr) && ns[j].home == b && KeyOK(ns[j].key))
              && (forall j, k :: 0 <= j < k < |ns| ==> ns[j].rank < ns[k].rank)
              && (|ns| > 0 ==> old(dataMap[b]) == ns[0]) && Chained(ns, old(Links(ns)))
              && (forall j {:trigger old(Links(ns))[j]} :: 0 <= j < |ns| ==> old(Links(ns))[j] == old(ns[j].next))
    {
      hide KeyOK;
      var ns := old(chains)[b];
      assert old(Own(chains[b], b)) && old(Linked(dataMap[b], chains[b]));
      forall j | 0 <= j < |ns| ensures old(Links(ns))[j] == if j + 1 < |ns| then ns[j + 1] else null {
        assert old(Links(ns))[j] == old(ns[j].next);
      }
    }

    lemma {:induction false} EndedIs(b: nat, was: seq<Node>, owned: set<Node>)
      requires b < |chains| && Ended(b, was, owned)
      ensures |chains[b]| == |was| + 1 && chains[b] == was + [chains[b][|was|]]
      ensures var node := chains[b][|was|];
              && KeyOK(node.key) && node.home == b && Repr == owned + {node}
              && (|was| > 0 ==> was[|was| - 1].rank < node.rank)
    {
      hide KeyOK;
    }

    lemma {:induction false} OwnLonger(ns: seq<Node>, node: Node, b: nat)
      requires forall j :: 0 <= j < |ns| ==> ns[j] in Repr && ns[j].home == b && KeyOK(ns[j].key)
      requires forall j, k :: 0 <= j < k < |ns| ==> ns[j].rank < ns[k].rank
      requires node in Repr && node.home == b && KeyOK(node.key) && (|ns| > 0 ==> ns[|ns| - 1].rank < node.rank)
      ensures Own(ns + [node], b)
    {
      hide KeyOK;
      assert forall j :: 0 <= j < |ns| - 1 ==> ns[j].rank < ns[|ns| - 1].rank;
    }

    /** A node after the last one of a chain that had the given links. */
    lemma {:induction false} LinkedLonger(head: Node?, ns: seq<Node>, links: seq<Node?>, head': Node?, node: Node)
      requires Chained(ns, links) && |links| == |ns| && (|ns| > 0 ==> head == ns[0]) && node.next == null
      requires forall j :: 0 <= j < |ns| - 1 ==> ns[j].next == links[j]
      requires |ns| == 0 ==> head' == node
      requires |ns| > 0 ==> head' == head && ns[|ns| - 1].next == node
      ensures Linked(head', ns + [node])
    {
      var r := ns + [node];
      forall j {:trigger r[j].next} | 0 <= j < |r| ensures r[j].next == if j + 1 < |r| then r[j + 1] else null {
        assert j < |ns| ==> r[j] == ns[j];
        var n := j + 1;
        assert n < |ns| ==> r[n] == ns[n];
      }
    }

    /** A new node was hung at the end of bucket b. */
    twostate lemma NodeAdded(b: nat)
      requires old(Valid()) && b < size == old(size) && dataMap.Length == MAX_HT_BUCKET && size <= MAX_HT_BUCKET
      requires |chains| == size && Ended(b, old(chains)[b], old(Repr)) && chains[b][|chains[b]| - 1].next == null
      requires forall c :: 0 <= c < size && c != b ==> chains[c] == old(chains)[c] && dataMap[c] == old(dataMap[c])
      requires forall n :: n in old(Repr) ==> n.value == old(n.value)
      requires var ns := old(chains)[b]; var node := chains[b][|ns|];
               && (|ns| == 0 ==> dataMap[b] == node && forall n :: n in old(Repr) ==> n.next == old(n.next))
               && (|ns| > 0 ==> dataMap[b] == old(dataMap[b]) && ns[|ns| - 1].next == node
                                && forall n :: n in old(Repr) && n != ns[|ns| - 1] ==> n.next == old(n.next))
      ensures Valid()
      ensures var node := chains[b][|chains[b]| - 1];
              Value() == Table(size, old(Value()).buckets[b := old(Value()).buckets[b] + [Entry(node.key, node.value)]])
    {
      var ns, node := old(chains)[b], chains[b][|chains[b]| - 1];
      assert old(Own(chains[b], b)) && chains[b] == ns + [node];
      LongerChain(b);
      forall c | 0 <= c < size ensures Own(chains[c], c) && Linked(dataMap[c], chains[c]) {
        if c != b {
          OtherChain(c);
        }
      }
      hide KeyOK, ChainOf, Own, Linked, Ended;
      SameBucket(b);
      ChainAppend(ns, node);
      OneBucketChanged(b);
    }

    /** What the old nodes of a bucket say has not changed. */
    twostate lemma SameBucket(c: nat)
      requires old(Valid()) && c < old(size) && forall n :: n in old(Repr) ==> n.value == old(n.value)
      ensures ChainOf(old(chains)[c]) == old(ChainOf(chains[c]))
    {
      assert old(Own(chains[c], c));
      SameChain(old(chains)[c]);
    }

    /** A new node at the end of bucket b, which is `last` (null when empty). */
    method Hang(b: nat, last: Node?, key: Key, value: nat)
      requires Valid() && b < size && KeyOK(key)
      requires last == if |chains[b]| == 0 then null else chains[b][|chains[b]| - 1]
      modifies this, dataMap, Repr
      ensures Valid() && size == old(size) && fresh(Repr - old(Repr))
      ensures Value() == Table(size, old(Value()).buckets[b := old(Value()).buckets[b] + [Entry(key, value)]])
    {
      hide KeyOK;
      ghost var rank := if last == null then 0 else last.rank + 1;
      var node := new Node(key, value, b, rank);
      LinkLast(b, last, node);
    }

    /** The chain of a bucket, as a value and as nodes. */
    lemma {:induction false} Bucket(b: nat)
      requires Valid() && b < size
      ensures Value().buckets[b] == ChainOf(chains[b]) && |Value().buckets| == size && b < dataMap.Length
      ensures |Value().buckets[b]| == |chains[b]| && (dataMap[b] == null <==> |chains[b]| == 0)
      ensures dataMap[b] == if |chains[b]| == 0 then null else chains[b][0]
    {
    }

    /** One node of a chain, and the one after it. */
    lemma {:induction false} NodeAt(b: nat, i: nat)
      requires Valid() && b < size && i < |chains[b]|
      ensures var n := chains[b][i];
              && Value().buckets[b][i] == Entry(n.key, n.value) && n in Repr && n.home == b
              && n.next == (if i + 1 < |chains[b]| then chains[b][i + 1] else null)
              && (n.next == null <==> i + 1 == |chains[b]|)
    {
      Bucket(b);
      assert Own(chains[b], b) && Linked(dataMap[b], chains[b]);
    }

    /** `get`: the value of the key, or -1. */
    method Get(key: Key) returns (value: int)
      requires Valid() && KeyOK(key) && OneKind(Value(), key.Str?)
      ensures value == match TableModel.Get(Value(), key) { case Some(v) => v case None => -1 }
    {
      hide *;
      var index := HashOf(key, size);
      ghost var chain, ns := Value().buckets[index], chains[index];
      Bucket(index);
      DeleteIs(Value(), key);
      NoneMissed(chain, key);
      var temp := dataMap[index];
      ghost var i := 0;
      while temp != null
        invariant Missed(chain, key, i) && i <= |chain| == |ns|
        invariant temp == (if i < |ns| then ns[i] else null) && (temp == null <==> i == |ns|)
        decreases |ns| - i
      {
        NodeAt(index, i);
        if temp.key == key {
          WalkEnds(chain, key, i);
          return temp.value;
        }
        OneMissed(chain, key, i);
        temp := temp.next;
        i := i + 1;
      }
      WalkEnds(chain, key, i);
      value := -1;
    }

    lemma {:induction false} NoneMissed(chain: seq<Entry>, key: Key)
      ensures Missed(chain, key, 0)
    {
    }

    lemma {:induction false} OneMissed(chain: seq<Entry>, key: Key, i: nat)
      requires Missed(chain, key, i) && i < |chain| && chain[i].key != key
      ensures Missed(chain, key, i + 1)
    {
    }

    /** The duplicate check of `set`: is the key in the chain, and if not, where does the chain end? */
    method Search(index: nat, key: Key) returns (found: bool, last: Node?)
      requires Valid() && index < size
      ensures found <==> Find(Value().buckets[index], key).Some?
      ensures !found ==> last == if |chains[index]| == 0 then null else chains[index][|chains[index]| - 1]
    {
      hide *;
      ghost var chain, ns := Value().buckets[index], chains[index];
      Bucket(index);
      NoneMissed(chain, key);
      var temp := dataMap[index];
      if temp == null {
        WalkEnds(chain, key, 0);
        return false, null;
      }
      NodeAt(index, 0);
      if temp.key == key {
        WalkEnds(chain, key, 0);
        return true, null;
      }
      OneMissed(chain, key, 0);
      ghost var i := 0;
      while temp.next != null
        invariant i < |chain| == |ns| && Missed(chain, key, i + 1)
        invariant temp == ns[i]
        decreases |ns| - i
      {
        NodeAt(index, i);
        NodeAt(index, i + 1);
        if temp.next.key == key {
          WalkEnds(chain, key, i + 1);
          return true, null;
        }
        OneMissed(chain, key, i + 1);
        temp := temp.next;
        i := i + 1;
      }
      NodeAt(index, i);
      WalkEnds(chain, key, i + 1);
      found, last := false, temp;
    }

    /** `set`: a new node at the end of the chain, unless the key is there already. */
    method Set(key: Key, value: nat) returns (ok: bool)
      requires Valid() && KeyOK(key) && OneKind(Value(), key.Str?)
      modifies this, dataMap, Repr
      ensures Valid() && size == old(size) && fresh(Repr - old(Repr))
      ensures ok <==> TableModel.Set(old(Value()), key, value).Some?
      ensures Value() == if ok then TableModel.Set(old(Value()), key, value).value else old(Value())
    {
      var index := HashOf(key, size);
      var found, last := Search(index, key);
      ok := !found;
      hide Valid, Value, Hash, KeyOK, Find;
      if ok {
        Hang(index, last, key, value);
      }
    }

    lemma {:induction false} ChainDrop(ns: seq<Node>, i: nat)
      requires i < |ns|
      ensures ChainOf(ns[..i] + ns[i + 1..]) == ChainOf(ns)[..i] + ChainOf(ns)[i + 1..]
    {
    }

    /** Bucket b without node i of the nodes it had. */
    ghost predicate Dropped(b: nat, was: seq<Node>, i: nat)
      reads this
    {
      b < |chains| && i < |was| && chains[b] == was[..i] + was[i + 1..]
    }

    /** The nodes before and after node i of a chain, once the node before it, or the head, took over its link. */
    twostate lemma ShorterChain(at: (nat, nat))
      requires old(Valid()) && at.0 < size == old(size) <= dataMap.Length == MAX_HT_BUCKET && Repr == old(Repr)
      requires Dropped(at.0, old(chains)[at.0], at.1)
      requires var (b, i) := at; var ns := old(chains)[b];
               && (forall j :: 0 <= j < |ns| && j != i - 1 ==> ns[j].next == old(ns[j].next))
               && (i == 0 ==> dataMap[b] == old(ns[0].next))
               && (i > 0 ==> dataMap[b] == old(dataMap[b]) && ns[i - 1].next == old(ns[i].next))
      ensures Own(chains[at.0], at.0) && Linked(dataMap[at.0], chains[at.0])
    {
      hide *;
      OldChain(at.0);
      var ns := old(chains)[at.0];
      DroppedIs(at.0, ns, at.1);
      LinkedDrop(old(dataMap[at.0]), ns, old(Links(ns)), dataMap[at.0], at.1);
      OwnDrop(ns, at.0, at.1);
    }

    lemma {:induction false} DroppedIs(b: nat, ns: seq<Node>, i: nat)
      requires Dropped(b, ns, i)
      ensures b < |chains| && i < |ns| && chains[b] == ns[..i] + ns[i + 1..]
    {
    }

    lemma {:induction false} OwnDrop(ns: seq<Node>, b: nat, i: nat)
      requires forall j :: 0 <= j < |ns| ==> ns[j] in Repr && ns[j].home == b && KeyOK(ns[j].key)
      requires (forall j, k :: 0 <= j < k < |ns| ==> ns[j].rank < ns[k].rank) && i < |ns|
      ensures Own(ns[..i] + ns[i + 1..], b)
    {
      hide KeyOK;
      ShorterIs(ns, ns[..i] + ns[i + 1..], i);
    }

    /** Each node's link is the next node, the last one's is null. */
    ghost predicate Chained(ns: seq<Node>, links: seq<Node?>) {
      |links| == |ns| && forall j :: 0 <= j < |ns| ==> links[j] == if j + 1 < |ns| then ns[j + 1] else null
    }

    /** The links of the nodes ns. */
    ghost function Links(ns: seq<Node>): (r: seq<Node?>)
      reads ns
      ensures |r| == |ns| && forall i {:trigger r[i]} :: 0 <= i < |ns| ==> r[i] == ns[i].next
    {
      if |ns| == 0 then [] else Links(ns[..|ns| - 1]) + [ns[|ns| - 1].next]
    }

    /** Node i leaves a chain that had the given links: the node before it, or the head, takes over its link. */
    lemma {:induction false} LinkedDrop(head: Node?, ns: seq<Node>, links: seq<Node?>, head': Node?, i: nat)
      requires i < |ns| == |links| && head == ns[0] && Chained(ns, links)
      requires forall j :: 0 <= j < |ns| && j != i - 1 ==> ns[j].next == links[j]
      requires i == 0 ==> head' == links[0]
      requires i > 0 ==> head' == head && ns[i - 1].next == links[i]
      ensures Linked(head', ns[..i] + ns[i + 1..])
    {
      var rest := ns[..i] + ns[i + 1..];
      forall j {:trigger rest[j].next} | 0 <= j < |rest| ensures rest[j].next == if j + 1 < |rest| then rest[j + 1] else null {
        var k := if j < i then j else j + 1;
        assert rest[j] == ns[k];
        assert links[k] == if k + 1 < |ns| then ns[k + 1] else null;
        assert links[i] == if i + 1 < |ns| then ns[i + 1] else null;
        var n := j + 1;
        assert n < |rest| ==> rest[n] == ns[if n < i then n else n + 1];
      }
      assert links[0] == if 1 < |ns| then ns[1] else null;
      assert |rest| > 0 ==> rest[0] == if i == 0 then ns[1] else ns[0];
    }

    lemma {:induction false} ShorterIs(ns: seq<Node>, rest: seq<Node>, i: nat)
      requires i < |ns| && rest == ns[..i] + ns[i + 1..]
      ensures |rest| == |ns| - 1 && forall j :: 0 <= j < |rest| ==> rest[j] == ns[if j < i then j else j + 1]
    {
    }

    /** Node i of bucket b was taken out of its chain. */
    twostate lemma NodeDropped(at: (nat, nat))
      requires old(Valid()) && at.0 < size == old(size) && dataMap.Length == MAX_HT_BUCKET && size <= MAX_HT_BUCKET
      requires |chains| == size && Repr == old(Repr) && Dropped(at.0, old(chains)[at.0], at.1)
      requires forall c :: 0 <= c < size && c != at.0 ==> chains[c] == old(chains)[c] && dataMap[c] == old(dataMap[c])
      requires forall n :: n in old(Repr) ==> n.value == old(n.value)
      requires var (b, i) := at; var ns := old(chains)[b];
               && (i == 0 ==> dataMap[b] == old(ns[0].next) && forall n :: n in old(Repr) ==> n.next == old(n.next))
               && (i > 0 ==> dataMap[b] == old(dataMap[b]) && ns[i - 1].next == old(ns[i].next)
                             && forall n :: n in old(Repr) && n != ns[i - 1] ==> n.next == old(n.next))
      ensures Valid()
      ensures Value() == Table(size, old(Value()).buckets[at.0 :=
                                       old(Value()).buckets[at.0][..at.1] + old(Value()).buckets[at.0][at.1 + 1..]])
    {
      var (b, i) := at;
      assert old(Own(chains[b], b));
      ShorterChain(at);
      forall c | 0 <= c < size ensures Own(chains[c], c) && Linked(dataMap[c], chains[c]) {
        if c != b {
          OtherChain(c);
        }
      }
      hide KeyOK, ChainOf, Own, Linked;
      SameBucket(b);
      ChainDrop(old(chains)[b], i);
      OneBucketChanged(b);
    }

    /** Node i of bucket b, which comes after `previous` (null for the head), is unlinked. */
    method Unlink(b: nat, previous: Node?, current: Node, ghost i: nat)
      requires Valid() && b < size && i < |chains[b]| && chains[b][i] == current
      requires previous == if i == 0 then null else chains[b][i - 1]
      modifies this`chains, dataMap, Repr
      ensures Valid() && size == old(size) && Repr == old(Repr)
      ensures Value() == Table(size, old(Value()).buckets[b :=
                                       old(Value()).buckets[b][..i] + old(Value()).buckets[b][i + 1..]])
      ensures current.value == old(current.value)
    {
      NodesOwned(b);
      hide *;
      if previous == null {
        dataMap[b] := current.next;
      } else {
        previous.next := current.next;
      }
      chains := chains[b := chains[b][..i] + chains[b][i + 1..]];
      NodeDropped((b, i));
    }

    lemma {:induction false} NodesOwned(b: nat)
      requires Valid() && b < size
      ensures b < dataMap.Length == MAX_HT_BUCKET && |chains| == size <= MAX_HT_BUCKET
      ensures forall i :: 0 <= i < |chains[b]| ==> chains[b][i] in Repr
      ensures forall i, j :: 0 <= i < j < |chains[b]| ==> chains[b][i] != chains[b][j]
    {
      assert Own(chains[b], b);
    }

    /** The walk of `delete`: the node of the key, or null, and the node before it. */
    method Locate(index: nat, key: Key) returns (previous: Node?, current: Node?, ghost i: nat)
      requires Valid() && index < size
      ensures Missed(Value().buckets[index], key, i) && i <= |chains[index]| == |Value().buckets[index]|
      ensures current == if i < |chains[index]| then chains[index][i] else null
      ensures current == null <==> i == |chains[index]|
      ensures previous == if i == 0 then null else chains[index][i - 1]
      ensures current != null ==> current.key == key
    {
      ghost var chain, ns := Value().buckets[index], chains[index];
      Bucket(index);
      current, previous := dataMap[index], null;
      i := 0;
      NoneMissed(chain, key);
      hide *;
      while current != null && current.key != key
        invariant Missed(chain, key, i) && i <= |chain| == |ns|
        invariant current == (if i < |ns| then ns[i] else null) && (current == null <==> i == |ns|)
        invariant previous == if i == 0 then null else ns[i - 1]
        decreases |ns| - i
      {
        NodeAt(index, i);
        OneMissed(chain, key, i);
        previous := current;
        current := current.next;
        i := i + 1;
      }
    }

    /** `delete`: the node of the key is unlinked and returned, or null when there is none. */
    method Delete(key: Key) returns (removed: Node?)
      requires Valid() && KeyOK(key) && OneKind(Value(), key.Str?)
      modifies this, dataMap, Repr
      ensures Valid() && size == old(size) && Repr == old(Repr)
      ensures Value() == TableModel.Delete(old(Value()), key)
      ensures match TableModel.Get(old(Value()), key)
              case Some(v) => removed != null && removed.key == key && removed.value == v
              case None => removed == null
    {
      hide *;
      var index := HashOf(key, size);
      var previous, current, i := Locate(index, key);
      Bucket(index);
      if current != null {
        NodeAt(index, i);
      }
      WalkEnds(Value().buckets[index], key, i);
      DeleteIs(Value(), key);
      assert Table(size, Value().buckets) == Value();
      if current != null {
        Unlink(index, previous, current, i);
      }
      removed := current;
    }

    lemma {:induction false} DeleteIs(t: Table, key: Key)
      requires SizeOK(t.size) && |t.buckets| == t.size && KeyOK(key)
      ensures TableModel.Get(t, key) == Find(t.buckets[Hash(key, t.size)], key)
      ensures var h := Hash(key, t.size);
              TableModel.Delete(t, key) == Table(t.size, t.buckets[h := Remove(t.buckets[h], key)])
      ensures forall b :: 0 <= b < t.size ==> Table(t.size, t.buckets[b := t.buckets[b]]) == t
    {
    }

    /** The walk to the last node of a chain. */
    method LastNode(b: nat) returns (last: Node?)
      requires Valid() && b < size
      ensures last == if |chains[b]| == 0 then null else chains[b][|chains[b]| - 1]
    {
      ghost var ns := chains[b];
      Bucket(b);
      last := dataMap[b];
      hide Valid, ChainOf, Value, KeyOK, Own, Linked;
      if last != null {
        ghost var i := 0;
        NodeAt(b, 0);
        while last.next != null
          invariant i < |ns| && last == ns[i]
          decreases |ns| - i
        {
          NodeAt(b, i);
          last := last.next;
          i := i + 1;
        }
        NodeAt(b, i);
      }
    }

    /** The inner loop of `len`, `keys` and `write_ht`: the entries of one chain. */
    method ChainEntries(b: nat) returns (es: seq<Entry>)
      requires Valid() && b < size
      ensures es == Value().buckets[b]
    {
      ghost var chain, ns := Value().buckets[b], chains[b];
      Bucket(b);
      var temp := dataMap[b];
      es := [];
      hide Valid, ChainOf, Value, KeyOK, Own, Linked;
      while temp != null
        invariant |es| <= |chain| == |ns| && es == chain[..|es|]
        invariant temp == if |es| < |ns| then ns[|es|] else null
        decreases |ns| - |es|
      {
        NodeAt(b, |es|);
        es := es + [Entry(temp.key, temp.value)];
        temp := temp.next;
      }
    }

    /** `keys`: every key, bucket by bucket. */
    method Keys() returns (keys: seq<Key>)
      requires Valid()
      ensures |keys| == |Entries(Value())|
      ensures forall i :: 0 <= i < |keys| ==> keys[i] == Entries(Value())[i].key
    {
      hide *;
      keys := [];
      EntriesAre();
      for b := 0 to size
        invariant |keys| == |Flat(Value().buckets, b)|
        invariant forall i :: 0 <= i < |keys| ==> keys[i] == Flat(Value().buckets, b)[i].key
      {
        var es := ChainEntries(b);
        keys := keys + seq(|es|, i requires 0 <= i < |es| => es[i].key);
      }
    }

    lemma {:induction false} EntriesAre()
      requires Valid()
      ensures |Value().buckets| == size && Entries(Value()) == Flat(Value().buckets, size) && Flat(Value().buckets, 0) == []
      ensures forall b :: 0 <= b < size ==> Flat(Value().buckets, b + 1) == Flat(Value().buckets, b) + Value().buckets[b]
    {
      hide Valid, Value;
    }

    /** `len`: the number of nodes. */
    method Len() returns (counter: nat)
      requires Valid()
      ensures counter == |Entries(Value())|
    {
      hide *;
      counter := 0;
      EntriesAre();
      for b := 0 to size
        invariant counter == |Flat(Value().buckets, b)|
      {
        var es := ChainEntries(b);
        counter := counter + |es|;
      }
    }

    /** Every entry of a chain of another table is set here. */
    method SetPart(part: seq<Entry>, ghost str: bool)
      requires Valid() && OneKind(Value(), str)
      requires forall i :: 0 <= i < |part| ==> KeyOK(part[i].key) && part[i].key.Str? == str
      modifies this, dataMap, Repr
      ensures Valid() && fresh(Repr - old(Repr)) && OneKind(Value(), str)
      ensures Value() == SetAll(old(Value()), part, |part|)
    {
      hide *;
      ghost var was := Value();
      SetAllStart(was, part);
      for i := 0 to |part|
        invariant Valid() && fresh(Repr - old(Repr)) && Value() == SetAll(was, part, i)
      {
        SetAllStep(was, part, i);
        SetAllKind(was, part, i, str);
        var _ := Set(part[i].key, part[i].value);
      }
      SetAllKind(was, part, |part|, str);
    }

    /** Two tables that share no node. */
    ghost predicate Beside(src: HashTable)
      reads this, dataMap, Repr, src, src.dataMap, src.Repr
      ensures Beside(src) ==> Valid() && src.Valid() && src != this && src.dataMap != dataMap && src.Repr !! Repr
    {
      Valid() && src.Valid() && src != this && src.dataMap != dataMap && src.Repr !! Repr
    }

    /** One bucket of src is set here. */
    method MergeBucket(src: HashTable, b: nat, ghost was: Table, ghost str: bool)
      requires Beside(src) && OneKind(Value(), str) && OneKind(src.Value(), str)
      requires b < src.size && SizeOK(was.size) && |was.buckets| == was.size
      requires forall i :: 0 <= i < |Entries(src.Value())| ==> KeyOK(Entries(src.Value())[i].key)
      requires |Flat(src.Value().buckets, b)| <= |Entries(src.Value())|
      requires Value() == SetAll(was, Entries(src.Value()), |Flat(src.Value().buckets, b)|)
      modifies this, dataMap, Repr
      ensures Beside(src) && fresh(Repr - old(Repr)) && src.Value() == old(src.Value()) && OneKind(Value(), str)
      ensures |Flat(src.Value().buckets, b + 1)| <= |Entries(src.Value())|
      ensures Value() == SetAll(was, Entries(src.Value()), |Flat(src.Value().buckets, b + 1)|)
    {
      hide Valid, Value, KeyOK, SetAll;
      ghost var from, es := src.Value(), Entries(src.Value());
      ghost var done := |Flat(from.buckets, b)|;
      var part := src.ChainEntries(b);
      FlatPrefix(from.buckets, b + 1, |from.buckets|);
      assert es[done..done + |part|] == part;
      SetAllParts(was, es, done, part, |part|);
      SetPart(part, str);
    }

    /** `copy_ht` in mode 0: every pair of src is set here; keys that are here already stay as they are. */
    method MergeFrom(src: HashTable, ghost str: bool)
      requires Beside(src) && OneKind(Value(), str) && OneKind(src.Value(), str)
      modifies this, dataMap, Repr
      ensures Valid() && fresh(Repr - old(Repr))
      ensures forall i :: 0 <= i < |Entries(src.Value())| ==> KeyOK(Entries(src.Value())[i].key)
      ensures Value() == SetAll(old(Value()), Entries(src.Value()), |Entries(src.Value())|)
    {
      hide *;
      ghost var from, was := src.Value(), Value();
      src.KeysFine();
      MergeStart(was, from);
      var n := src.size;
      for b := 0 to n
        invariant Beside(src) && fresh(Repr - old(Repr)) && src.Value() == from && OneKind(Value(), str)
        invariant |Flat(from.buckets, b)| <= |Entries(from)|
        invariant Value() == SetAll(was, Entries(from), |Flat(from.buckets, b)|)
      {
        MergeBucket(src, b, was, str);
      }
    }

    lemma {:induction false} MergeStart(was: Table, from: Table)
      requires SizeOK(was.size) && |was.buckets| == was.size
      requires forall i :: 0 <= i < |Entries(from)| ==> KeyOK(Entries(from)[i].key)
      ensures SetAll(was, Entries(from), 0) == was && Flat(from.buckets, 0) == []
      ensures Flat(from.buckets, |from.buckets|) == Entries(from)
    {
    }

    lemma {:induction false} KeysFine()
      requires Valid()
      ensures forall i :: 0 <= i < |Entries(Value())| ==> KeyOK(Entries(Value())[i].key)
    {
      forall i | 0 <= i < |Entries(Value())| ensures KeyOK(Entries(Value())[i].key) {
        var b, j := FlatFrom(Value().buckets, size, i);
        assert Own(chains[b], b);
      }
    }
  }

  /** `hash`: the bucket of a key in a table of the given size. */
  method HashOf(key: Key, size: nat) returns (hash: nat)
    requires SizeOK(size) && KeyOK(key)
    ensures hash == Hash(key, size)
  {
    match key
    case Num(n) =>
      hash := (COPRIME * n + 78) % 0x1_0000_0000 % PRIME % size;
    case Str(s) =>
      hash := HashString(s, size);
  }

  method HashString(s: seq<byte>, size: nat) returns (hash: nat)
    requires SizeOK(size) && KeyOK(Str(s))
    ensures hash == StrHash(s, size, |s|)
  {
    hide *;
    StrHashStart(s, size);
    hash := 0;
    var number := 78;
    for i := 0 to |s|
      invariant hash == StrHash(s, size, i) && number == Number(size, i)
    {
      StrHashStep(s, size, i);
      hash := (number * hash + s[i]) % size;
      number := COPRIME * number % (size - 1);
    }
  }
}
