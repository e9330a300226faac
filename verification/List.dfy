/** The doubly linked list of kernel/list.c.  Nodes are found by their address; each field of the nodes
of one list is kept as a map. */
module Lists {

  type Node = int

  ghost predicate Distinct(ns: seq<Node>) {
    forall i, j | 0 <= i < j < |ns| :: ns[i] != ns[j]
  }

  /** `next` and `prev` lead from node to node in the order of `ns`. */
  ghost predicate Chained(next: map<Node, Node>, prev: map<Node, Node>, ns: seq<Node>) {
    && Distinct(ns)
    && (forall n | n in ns :: n != 0 && n in next && n in prev)
    && (forall i, j | 0 <= i < j < |ns| && j == i + 1 :: next[ns[i]] == ns[j] && prev[ns[j]] == ns[i])
    && (ns != [] ==> prev[ns[0]] == 0 && next[ns[|ns| - 1]] == 0)
  }

  predicate Ends(head: Node, tail: Node, ns: seq<Node>) {
    if ns == [] then head == 0 && tail == 0 else head == ns[0] && tail == ns[|ns| - 1]
  }

  function Without(ns: seq<Node>, i: nat): seq<Node>
    requires i < |ns|
  {
    ns[..i] + ns[i + 1..]
  }

  /** `list_append` of a node whose links are NULL. */
  lemma ChainAppend(next: map<Node, Node>, prev: map<Node, Node>, ns: seq<Node>, n: Node)
    requires Chained(next, prev, ns) && n != 0 && n !in ns
    ensures Chained(if ns == [] then next[n := 0] else next[n := 0][ns[|ns| - 1] := n],
                    prev[n := if ns == [] then 0 else ns[|ns| - 1]], ns + [n])
  {
  }

  lemma DistinctWithout(ns: seq<Node>, i: nat)
    requires Distinct(ns) && i < |ns|
    ensures Distinct(Without(ns, i)) && ns[i] !in Without(ns, i)
  {
  }

  /** `list_delete` */
  lemma ChainDelete(next: map<Node, Node>, prev: map<Node, Node>, ns: seq<Node>, i: nat)
    requires Chained(next, prev, ns) && i < |ns|
    ensures Chained(if i == 0 then next else next[ns[i - 1] := next[ns[i]]],
                    if i + 1 == |ns| then prev else prev[ns[i + 1] := prev[ns[i]]], Without(ns, i))
  {
    var ms := Without(ns, i);
    var next' := if i == 0 then next else next[ns[i - 1] := next[ns[i]]];
    var prev' := if i + 1 == |ns| then prev else prev[ns[i + 1] := prev[ns[i]]];
    assert forall n | n in ms :: n in ns;
    DistinctWithout(ns, i);
    forall a, b | 0 <= a < b < |ms| && b == a + 1
      ensures next'[ms[a]] == ms[b] && prev'[ms[b]] == ms[a]
    {
      if b < i {
        assert ms[a] == ns[a] && ms[b] == ns[b];
      } else if a + 1 == i {
        var c := i + 1;
        assert ms[a] == ns[a] && ms[b] == ns[c] && next[ns[i]] == ns[c] && prev[ns[i]] == ns[a];
      } else {
        var c, d := a + 1, b + 1;
        assert ms[a] == ns[c] && ms[b] == ns[d];
      }
    }
  }

  /** ... and the removed node's own links are cleared. */
  lemma ChainCleared(next: map<Node, Node>, prev: map<Node, Node>, ns: seq<Node>, i: nat)
    requires Chained(next, prev, ns) && i < |ns|
    ensures ns[i] in next && ns[i] in prev && ns[i] !in Without(ns, i)
    ensures i > 0 ==> ns[i - 1] in next
    ensures i + 1 < |ns| ==> ns[i + 1] in prev
    ensures Chained((if i == 0 then next else next[ns[i - 1] := next[ns[i]]])[ns[i] := 0],
                    (if i + 1 == |ns| then prev else prev[ns[i + 1] := prev[ns[i]]])[ns[i] := 0], Without(ns, i))
  {
    ChainDelete(next, prev, ns, i);
    DistinctWithout(ns, i);
    Neighbours(next, prev, ns, i);
    hide Chained, Distinct, Without;
    OtherNode(if i == 0 then next else next[ns[i - 1] := next[ns[i]]],
              if i + 1 == |ns| then prev else prev[ns[i + 1] := prev[ns[i]]], Without(ns, i), ns[i]);
  }

  predicate Known<V>(value: map<Node, V>, ns: seq<Node>) {
    forall i | 0 <= i < |ns| :: ns[i] in value
  }

  function Values<V>(value: map<Node, V>, ns: seq<Node>): (vs: seq<V>)
    requires Known(value, ns)
    ensures |vs| == |ns| && forall i | 0 <= i < |ns| :: vs[i] == value[ns[i]]
  {
    if ns == [] then [] else [value[ns[0]]] + Values(value, ns[1..])
  }

  lemma ValuesWithout<V>(value: map<Node, V>, ns: seq<Node>, i: nat)
    requires i < |ns| && Known(value, ns)
    ensures Known(value, Without(ns, i))
    ensures Values(value, Without(ns, i)) == Values(value, ns)[..i] + Values(value, ns)[i + 1..]
  {
    hide Distinct;
    forall k | 0 <= k < |Without(ns, i)|
      ensures Without(ns, i)[k] == ns[if k < i then k else k + 1]
    {
    }
  }

  class List<V(==)> {
    var head: Node
    var tail: Node
    var length: nat
    var next: map<Node, Node>
    var prev: map<Node, Node>
    var value: map<Node, V>
    ghost var nodes: seq<Node>

    ghost predicate Valid()
      reads this
    {
      && Chained(next, prev, nodes) && Ends(head, tail, nodes) && length == |nodes|
      && Known(value, nodes)
    }

    ghost function Contents(): (vs: seq<V>)
      reads this
      requires Valid()
      ensures |vs| == length == |nodes|
    {
      Values(value, nodes)
    }

    /** `list_init` */
    constructor ()
      ensures Valid() && Contents() == []
    {
      head, tail, length := 0, 0, 0;
      next, prev, value, nodes := map[], map[], map[], [];
    }

    /** `list_append` of a node that belongs to no list. */
    method Append(node: Node)
      requires Valid() && node != 0 && node !in nodes && node in value && node in next && next[node] == 0
      modifies `head, `tail, `length, `next, `prev, `nodes
      ensures Valid() && nodes == old(nodes) + [node]
    {
      ChainAppend(next, prev, nodes, node);
      hide Chained;
      assert next[node := 0] == next;
      if length == 0 {
        head := node;
        tail := node;
        prev := prev[node := 0];
        next := next[node := 0];
      } else {
        next := next[tail := node];
        prev := prev[node := tail];
        tail := node;
      }
      length := length + 1;
      nodes := nodes + [node];
    }

    /** `list_insert`; `node` is what kcalloc returned. */
    method Insert(v: V, node: Node)
      requires Valid() && node != 0 && node !in nodes
      modifies this
      ensures Valid() && Contents() == old(Contents()) + [v] && nodes == old(nodes) + [node]
    {
      OtherNode(next, prev, nodes, node);
      next := next[node := 0];
      prev := prev[node := 0];
      value := value[node := v];
      Append(node);
    }

    /** `list_delete` of the node at place `i` */
    method Delete(node: Node, ghost i: nat)
      requires Valid() && i < |nodes| && node == nodes[i]
      modifies `head, `tail, `length, `next, `prev, `nodes
      ensures Valid() && nodes == old(Without(nodes, i))
      ensures node !in nodes && node in next && node in prev && next[node] == 0 && prev[node] == 0
      ensures Contents() == old(Contents()[..i]) + old(Contents()[i + 1..])
    {
      hide Chained, Values, Without, Ends, Known;
      ValuesWithout(value, nodes, i);
      Drop(node, i);
    }

    method Drop(node: Node, ghost i: nat)
      requires Valid() && i < |nodes| && node == nodes[i]
      modifies `head, `tail, `length, `next, `prev, `nodes
      ensures nodes == old(Without(nodes, i)) && Chained(next, prev, nodes) && Ends(head, tail, nodes)
      ensures length == |nodes|
      ensures node !in nodes && node in next && node in prev && next[node] == 0 && prev[node] == 0
    {
      ChainCleared(next, prev, nodes, i);
      Neighbours(next, prev, nodes, i);
      hide Chained, Distinct, Without, Ends, Known;
      Unlink(node, i);
      nodes := Without(nodes, i);
    }

    method Unlink(node: Node, ghost i: nat)
      requires i < |nodes| && node == nodes[i] && node in next && node in prev && Ends(head, tail, nodes)
      requires next[node] == if i + 1 < |nodes| then nodes[i + 1] else 0
      requires prev[node] == if i > 0 then nodes[i - 1] else 0
      requires i + 1 < |nodes| ==> nodes[i + 1] != 0
      requires i > 0 ==> nodes[i - 1] != 0 && nodes[i - 1] != node
      requires (node == nodes[0] <==> i == 0) && (node == nodes[|nodes| - 1] <==> i + 1 == |nodes|)
      requires length == |nodes|
      modifies `head, `tail, `length, `next, `prev
      ensures next == (if i == 0 then old(next) else old(next)[nodes[i - 1] := old(next[node])])[node := 0]
      ensures prev == (if i + 1 == |nodes| then old(prev) else old(prev)[nodes[i + 1] := old(prev[node])])[node := 0]
      ensures Ends(head, tail, Without(nodes, i)) && length == |Without(nodes, i)|
    {
      if node == head {
        head := next[node];
      }
      if node == tail {
        tail := prev[node];
      }
      if prev[node] != 0 {
        next := next[prev[node] := next[node]];
      }
      if next[node] != 0 {
        prev := prev[next[node] := prev[node]];
      }
      prev := prev[node := 0];
      next := next[node := 0];
      length := length - 1;
    }

    /** `list_dequeue` of a list that is not empty, as the source asserts. */
    method Dequeue() returns (v: V)
      requires Valid() && length > 0
      modifies this
      ensures Valid() && v == old(Contents()[0]) && Contents() == old(Contents()[1..])
    {
      var out := head;
      Delete(out, 0);
      v := value[out];
    }

    /** `list_remove`: the first node with that value, if any, goes. */
    method Remove(v: V)
      requires Valid()
      modifies this
      ensures Valid()
      ensures Contents() == WithoutFirst(old(Contents()), v)
    {
      hide Chained, Values;
      var n := head;
      ghost var i := 0;
      while n != 0
        invariant Valid() && Contents() == old(Contents())
        invariant i <= |nodes| && v !in Contents()[..i]
        invariant n == if i < |nodes| then nodes[i] else 0
        decreases |nodes| - i
      {
        Neighbours(next, prev, nodes, i);
        assert Contents()[..i + 1] == Contents()[..i] + [value[n]];
        if value[n] == v {
          FirstAt(Contents(), v, i);
          Delete(n, i);
          return;
        }
        n := next[n];
        i := i + 1;
      }
      if i < |nodes| { Neighbours(next, prev, nodes, i); }
      assert Contents()[..i] == Contents();
      FirstAt(Contents(), v, i);
    }
  }

  function WithoutFirst<V(==)>(vs: seq<V>, v: V): seq<V> {
    if vs == [] then [] else if vs[0] == v then vs[1..] else [vs[0]] + WithoutFirst(vs[1..], v)
  }

  lemma {:induction false} FirstAt<V>(vs: seq<V>, v: V, i: nat)
    requires i <= |vs| && v !in vs[..i] && (i < |vs| ==> vs[i] == v)
    ensures WithoutFirst(vs, v) == if i < |vs| then vs[..i] + vs[i + 1..] else vs
  {
    if i > 0 {
      assert vs[..i] == [vs[0]] + vs[1..][..i - 1];
      FirstAt(vs[1..], v, i - 1);
      assert vs == [vs[0]] + vs[1..];
      if i < |vs| {
        assert vs[..i] + vs[i + 1..] == [vs[0]] + (vs[1..][..i - 1] + vs[1..][i..]);
      }
    } else if vs != [] {
      assert vs[..0] + vs[1..] == vs[1..];
    }
  }

  lemma OtherNode(next: map<Node, Node>, prev: map<Node, Node>, ns: seq<Node>, n: Node)
    requires Chained(next, prev, ns) && n !in ns
    ensures Chained(next[n := 0], prev[n := 0], ns)
  {
  }

  lemma Neighbours(next: map<Node, Node>, prev: map<Node, Node>, ns: seq<Node>, i: nat)
    requires Chained(next, prev, ns) && i < |ns|
    ensures ns[i] in next && ns[i] in prev && ns[i] != 0
    ensures next[ns[i]] == if i + 1 < |ns| then ns[i + 1] else 0
    ensures prev[ns[i]] == if i > 0 then ns[i - 1] else 0
    ensures i + 1 < |ns| ==> ns[i + 1] != 0
    ensures i > 0 ==> ns[i - 1] != 0 && ns[i - 1] != ns[i]
    ensures (ns[i] == ns[0] <==> i == 0) && (ns[i] == ns[|ns| - 1] <==> i + 1 == |ns|)
  {
    var last := |ns| - 1;
    assert ns[i] != ns[0] <==> i != 0;
    assert ns[i] != ns[last] <==> i != last;
    if i < last {
      var j := i + 1;
      assert ns[j] in ns && next[ns[i]] == ns[j];
    }
    if i > 0 {
      var j := i - 1;
      assert ns[j] in ns && prev[ns[i]] == ns[j] && ns[j] != ns[i];
    }
  }
}
