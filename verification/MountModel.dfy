/** The mount graph of kernel/fs.c as a value: which mount a sequence of path elements leads to. */
module MountModel {
  import opened Outcomes

  type Mount = int
  type FsNode = int

  datatype Graph = Graph(
    root: Mount,
    element: map<Mount, string>,
    node: map<Mount, FsNode>,
    mounts: map<Mount, seq<Mount>>)

  /** `findmount`: the first mount of that name, or NULL. */
  function FindIn(element: map<Mount, string>, ms: seq<Mount>, name: string): Mount {
    if ms == [] then 0
    else if ms[0] in element && element[ms[0]] == name then ms[0]
    else FindIn(element, ms[1..], name)
  }

  function Find(g: Graph, parent: Mount, name: string): Mount {
    if parent in g.mounts then FindIn(g.element, g.mounts[parent], name) else 0
  }

  /** `walk_mount_graph`: as deep as names match; the mount reached and the elements left over. */
  function Walk(g: Graph, m: Mount, es: seq<string>): (Mount, seq<string>)
    decreases |es|
  {
    if es == [] || Find(g, m, es[0]) == 0 then (m, es) else Walk(g, Find(g, m, es[0]), es[1..])
  }

  predicate Child(g: Graph, parent: Mount, i: nat, m: Mount) {
    parent in g.mounts && i < |g.mounts[parent]| && g.mounts[parent][i] == m
  }

  /** Mounts form a tree below the root, and no two siblings have the same name. */
  ghost predicate Tree(g: Graph) {
    && g.root in g.mounts && 0 !in g.mounts && g.element.Keys == g.mounts.Keys && g.node.Keys == g.mounts.Keys
    && (forall p, i: nat, m | Child(g, p, i, m) :: m in g.mounts && m != g.root)
    && (forall p, i: nat, q, j: nat, m | Child(g, p, i, m) && Child(g, q, j, m) :: p == q && i == j)
    && (forall p, i: nat, j: nat, m, n | Child(g, p, i, m) && Child(g, p, j, n) && i != j ::
          m in g.element && n in g.element && g.element[m] != g.element[n])
  }

  lemma {:induction false} FindInIs(element: map<Mount, string>, ms: seq<Mount>, name: string)
    requires 0 !in ms && forall m | m in ms :: m in element
    ensures var r := FindIn(element, ms, name);
            if r == 0 then forall m | m in ms :: element[m] != name else r in ms && element[r] == name
  {
    if ms != [] { FindInIs(element, ms[1..], name); }
  }

  lemma RootIn(g: Graph)
    requires Tree(g)
    ensures g.root in g.mounts && g.element.Keys == g.mounts.Keys && g.node.Keys == g.mounts.Keys
  {
  }

  lemma WalkStep(g: Graph, m: Mount, es: seq<string>)
    ensures Walk(g, m, es) ==
            if es == [] || Find(g, m, es[0]) == 0 then (m, es) else Walk(g, Find(g, m, es[0]), es[1..])
  {
  }

  /** What `findmount` returns: a child of that name, and NULL only if there is none. */
  lemma FindIs(g: Graph, p: Mount, name: string)
    requires Tree(g) && p in g.mounts
    ensures var r := Find(g, p, name);
            && (r != 0 ==> r in g.mounts && r in g.mounts[p] && g.element[r] == name)
            && (r == 0 ==> forall i: nat, m | Child(g, p, i, m) :: m in g.element && g.element[m] != name)
  {
    var ms := g.mounts[p];
    forall m | m in ms
      ensures m in g.mounts && m != 0
    {
      var i: nat :| i < |ms| && ms[i] == m;
      assert Child(g, p, i, m);
    }
    FindInIs(g.element, ms, name);
    forall i: nat, m | Child(g, p, i, m)
      ensures m in ms
    {
    }
  }

  lemma {:induction false} WalkStays(g: Graph, m: Mount, es: seq<string>)
    requires Tree(g) && m in g.mounts
    ensures Walk(g, m, es).0 in g.mounts && |Walk(g, m, es).1| <= |es|
    ensures Walk(g, m, es).1 == es[|es| - |Walk(g, m, es).1|..]
    decreases |es|
  {
    hide Tree, Find;
    if es != [] && Find(g, m, es[0]) != 0 {
      FindIs(g, m, es[0]);
      WalkStays(g, Find(g, m, es[0]), es[1..]);
    }
  }

  lemma {:induction false} WalkConcat(g: Graph, m: Mount, a: seq<string>, b: seq<string>)
    ensures var r := Walk(g, m, a);
            Walk(g, m, a + b) == if r.1 == [] then Walk(g, r.0, b) else (r.0, r.1 + b)
    decreases |a|
  {
    hide Find;
    if a == [] {
      assert a + b == b;
    } else {
      assert (a + b)[0] == a[0] && (a + b)[1..] == a[1..] + b;
      if Find(g, m, a[0]) != 0 { WalkConcat(g, Find(g, m, a[0]), a[1..], b); }
    }
  }

  /** A walk of one element. */
  lemma OneStep(g: Graph, m: Mount, name: string, es: seq<string>)
    requires es == [name]
    ensures Walk(g, m, es) == if Find(g, m, name) == 0 then (m, es) else (Find(g, m, name), [])
  {
    hide Find;
    WalkStep(g, m, es);
    WalkStep(g, Find(g, m, name), es[1..]);
  }

  /** A path that is used up: its last element names the mount reached, below the one before. */
  lemma WalkLast(g: Graph, es: seq<string>)
    requires Tree(g) && es != [] && Walk(g, g.root, es).1 == []
    ensures var n := |es| - 1;
            var r, m := Walk(g, g.root, es[..n]), Walk(g, g.root, es).0;
            && r.1 == [] && r.0 in g.mounts && m in g.mounts[r.0] && m in g.element && g.element[m] == es[n]
  {
    hide Tree, Find, Walk;
    var n := |es| - 1;
    var p := Walk(g, g.root, es[..n]).0;
    RootIn(g);
    assert es[..n] + es[n..] == es;
    WalkConcat(g, g.root, es[..n], es[n..]);
    WalkStays(g, g.root, es[..n]);
    FindIs(g, p, es[n]);
    OneStep(g, p, es[n], es[n..]);
  }

  lemma ChildOnce(g: Graph, p: Mount, q: Mount, m: Mount)
    requires Tree(g) && p in g.mounts && q in g.mounts && m in g.mounts[p] && m in g.mounts[q]
    ensures p == q && m != g.root
  {
    var i: nat :| i < |g.mounts[p]| && g.mounts[p][i] == m;
    var j: nat :| j < |g.mounts[q]| && g.mounts[q][j] == m;
    assert Child(g, p, i, m) && Child(g, q, j, m);
  }

  /** Only one path leads to a mount. */
  lemma {:induction false} OnePath(g: Graph, a: seq<string>, b: seq<string>)
    requires Tree(g) && Walk(g, g.root, a).1 == [] && Walk(g, g.root, b).1 == []
    requires Walk(g, g.root, a).0 == Walk(g, g.root, b).0
    ensures a == b
    decreases |a|
  {
    hide Tree, Find, Walk;
    var m := Walk(g, g.root, a).0;
    if a != [] { WalkLast(g, a); }
    if b != [] { WalkLast(g, b); }
    if a != [] && b != [] {
      var i, j := |a| - 1, |b| - 1;
      var p, q := Walk(g, g.root, a[..i]).0, Walk(g, g.root, b[..j]).0;
      ChildOnce(g, p, q, m);
      OnePath(g, a[..i], b[..j]);
      assert a == a[..i] + [a[i]] && b == b[..j] + [b[j]];
    } else {
      RootHere(g);
      if a != [] {
        var p := Walk(g, g.root, a[..|a| - 1]).0;
        ChildOnce(g, p, p, m);
      }
      if b != [] {
        var p := Walk(g, g.root, b[..|b| - 1]).0;
        ChildOnce(g, p, p, m);
      }
    }
  }

  lemma RootHere(g: Graph)
    ensures Walk(g, g.root, []) == (g.root, [])
  {
  }

  // ----- a new mount -----

  /** `fs_mount_submount` with the mount that `fs_mount_new` returned. */
  function AddMount(g: Graph, parent: Mount, name: string, m: Mount, node: FsNode): Graph
    requires parent in g.mounts
  {
    g.(element := g.element[m := name], node := g.node[m := node],
       mounts := g.mounts[m := []][parent := g.mounts[parent] + [m]])
  }

  lemma {:induction false} FindInAppend(element: map<Mount, string>, ms: seq<Mount>, m: Mount, name: string, y: string)
    requires m != 0 && m !in ms && 0 !in ms && forall k | k in ms :: k in element
    ensures FindIn(element[m := name], ms + [m], y) ==
            if FindIn(element, ms, y) != 0 then FindIn(element, ms, y) else if y == name then m else 0
  {
    if ms == [] {
      assert ms + [m] == [m];
    } else {
      assert (ms + [m])[0] == ms[0] && (ms + [m])[1..] == ms[1..] + [m];
      FindInAppend(element, ms[1..], m, name, y);
    }
  }

  lemma {:induction false} FindInOther(element: map<Mount, string>, ms: seq<Mount>, m: Mount, name: string, y: string)
    requires m !in ms
    ensures FindIn(element[m := name], ms, y) == FindIn(element, ms, y)
  {
    if ms != [] { FindInOther(element, ms[1..], m, name, y); }
  }

  lemma Known(g: Graph, p: Mount, m: Mount)
    requires Tree(g) && p in g.mounts && m !in g.mounts
    ensures m !in g.mounts[p] && 0 !in g.mounts[p] && (forall k | k in g.mounts[p] :: k in g.element)
  {
    forall k | k in g.mounts[p]
      ensures k in g.mounts
    {
      var i: nat :| i < |g.mounts[p]| && g.mounts[p][i] == k;
      assert Child(g, p, i, k);
    }
  }

  /** The searches after a mount: only one of them answers differently. */
  lemma FindAfter(g: Graph, parent: Mount, name: string, m: Mount, node: FsNode, q: Mount, y: string)
    requires Tree(g) && parent in g.mounts && m !in g.mounts && m != 0 && Find(g, parent, name) == 0
    ensures Find(AddMount(g, parent, name, m, node), q, y) ==
            if q == m then 0 else if q == parent && y == name then m else Find(g, q, y)
  {
    if q in g.mounts {
      Known(g, q, m);
      if q == parent {
        FindInAppend(g.element, g.mounts[q], m, name, y);
      } else {
        FindInOther(g.element, g.mounts[q], m, name, y);
      }
    }
  }

  lemma AddKeepsTree(g: Graph, parent: Mount, name: string, m: Mount, node: FsNode)
    requires Tree(g) && parent in g.mounts && m !in g.mounts && m != 0 && Find(g, parent, name) == 0
    ensures Tree(AddMount(g, parent, name, m, node))
  {
    var w := AddMount(g, parent, name, m, node);
    var n := |g.mounts[parent]|;
    FindIs(g, parent, name);
    forall p, i: nat, k | Child(w, p, i, k)
      ensures if p == parent && i == n then k == m else Child(g, p, i, k) && k in g.mounts && k != m
    {
      if !(p == parent && i == n) { assert Child(g, p, i, k); }
    }
    hide Find;
  }

  lemma Shorter(pre: seq<string>, name: string)
    ensures !Extends(pre + [name], [] + pre)
  {
  }

  /** The new mount is found at its path, and what follows the path is left over. */
  lemma FoundAfter(g: Graph, ts: seq<string>, m: Mount, node: FsNode, rest: seq<string>)
    requires Tree(g) && ts != [] && m !in g.mounts && m != 0
    requires var r := Walk(g, g.root, ts); |r.1| == 1
    ensures var p, n := Walk(g, g.root, ts).0, |ts| - 1;
            p in g.mounts && Walk(AddMount(g, p, ts[n], m, node), g.root, ts + rest) == (m, rest)
  {
    hide Tree, Find, Walk, AddMount, Extends;
    var n := |ts| - 1;
    Stuck(g, ts);
    var p := Walk(g, g.root, ts).0;
    var w := AddMount(g, p, ts[n], m, node);
    RootHere(g);
    Shorter(ts[..n], ts[n]);
    SameWalk(g, p, ts[n], m, node, ts[..n], g.root, [], ts[..n]);
    var tail := [ts[n]] + rest;
    WalkConcat(w, g.root, ts[..n], tail);
    assert ts[..n] + tail == ts + rest;
    assert tail[0] == ts[n] && tail[1..] == rest;
    WalkStep(w, p, tail);
    FindAfter(g, p, ts[n], m, node, p, ts[n]);
    WalkStep(w, m, rest);
    if rest != [] { FindAfter(g, p, ts[n], m, node, m, rest[0]); }
  }

  /** A walk with one element left stopped before the last element. */
  lemma Stuck(g: Graph, ts: seq<string>)
    requires Tree(g) && |Walk(g, g.root, ts).1| == 1
    ensures var n, p := |ts| - 1, Walk(g, g.root, ts).0;
            ts != [] && p in g.mounts && Walk(g, g.root, ts[..n]) == (p, []) && Find(g, p, ts[n]) == 0
  {
    hide Tree, Find, Walk;
    RootIn(g);
    WalkStays(g, g.root, ts);
    var n := |ts| - 1;
    assert ts[..n] + ts[n..] == ts;
    WalkConcat(g, g.root, ts[..n], ts[n..]);
    var r := Walk(g, g.root, ts[..n]);
    assert |r.1 + ts[n..]| == |r.1| + 1;
    OneStep(g, r.0, ts[n], ts[n..]);
  }

  predicate Extends(ts: seq<string>, es: seq<string>) {
    ts <= es
  }

  /** A walk that does not pass the new mount's place goes as before. */
  lemma {:induction false} SameWalk(g: Graph, p: Mount, name: string, m: Mount, node: FsNode, pre: seq<string>,
                                    q: Mount, gone: seq<string>, es: seq<string>)
    requires Tree(g) && p in g.mounts && m !in g.mounts && m != 0 && Find(g, p, name) == 0
    requires Walk(g, g.root, pre) == (p, []) && Walk(g, g.root, gone) == (q, [])
    requires !Extends(pre + [name], gone + es)
    ensures Walk(AddMount(g, p, name, m, node), q, es) == Walk(g, q, es)
    decreases |es|
  {
    hide Tree, Find, Walk, AddMount, Extends;
    RootIn(g);
    WalkStays(g, g.root, gone);
    var w := AddMount(g, p, name, m, node);
    WalkStep(g, q, es);
    WalkStep(w, q, es);
    if es != [] {
      if q == p && es[0] == name {
        Passes(g, pre, gone, es);
      } else {
        FindAfter(g, p, name, m, node, q, es[0]);
        var c := Find(g, q, es[0]);
        if c != 0 {
          WalkConcat(g, g.root, gone, [es[0]]);
          OneStep(g, q, es[0], [es[0]]);
          assert gone + [es[0]] + es[1..] == gone + es;
          SameWalk(g, p, name, m, node, pre, c, gone + [es[0]], es[1..]);
        }
      }
    }
  }

  lemma Passes(g: Graph, pre: seq<string>, gone: seq<string>, es: seq<string>)
    requires Tree(g) && es != [] && Walk(g, g.root, pre).1 == [] && Walk(g, g.root, gone) == Walk(g, g.root, pre)
    ensures Extends(pre + [es[0]], gone + es)
  {
    hide Tree, Walk, Find;
    OnePath(g, pre, gone);
    assert pre + [es[0]] <= pre + es;
  }

  /** Every path that does not extend the new one resolves as before. */
  lemma OthersAfter(g: Graph, ts: seq<string>, m: Mount, node: FsNode, es: seq<string>)
    requires Tree(g) && m !in g.mounts && m != 0 && |Walk(g, g.root, ts).1| == 1 && !(ts <= es)
    ensures var p, n := Walk(g, g.root, ts).0, |ts| - 1;
            ts != [] && p in g.mounts && Walk(AddMount(g, p, ts[n], m, node), g.root, es) == Walk(g, g.root, es)
  {
    hide Walk, Find, Tree, AddMount;
    Stuck(g, ts);
    var n := |ts| - 1;
    assert ts[..n] + [ts[n]] == ts && [] + es == es;
    RootHere(g);
    SameWalk(g, Walk(g, g.root, ts).0, ts[n], m, node, ts[..n], g.root, [], es);
  }

  // ----- runs of kmount -----

  /** One call of `kmount`: the elements of its path, and the mount that it allocates if it comes to it. */
  datatype Request = Request(path: seq<string>, mount: Mount, node: FsNode)

  /** `kmount` */
  function Mounted(g: Graph, r: Request): Outcome<(Graph, bool)> {
    var w := Walk(g, g.root, r.path);
    if |w.1| == 0 then Done((g, false))
    else if |w.1| == 1 && w.0 in g.mounts then Done((AddMount(g, w.0, r.path[|r.path| - 1], r.mount, r.node), true))
    else Stopped
  }

  /** `table` lists what has been mounted where: its path leads to the mount, which has the file system it was
      mounted with. */
  ghost predicate Resolves(g: Graph, table: seq<Request>) {
    forall r | r in table ::
      Walk(g, g.root, r.path) == (r.mount, []) && r.mount in g.node && g.node[r.mount] == r.node
  }

  /** The new mount has the new file system and name, and every other mount has what it had. */
  lemma NodesAfter(g: Graph, parent: Mount, name: string, m: Mount, node: FsNode)
    requires Tree(g) && parent in g.mounts && m !in g.mounts
    ensures var w := AddMount(g, parent, name, m, node);
            && w.root == g.root && w.mounts.Keys == g.mounts.Keys + {m}
            && m in w.node && w.node[m] == node && m in w.element && w.element[m] == name
            && forall k | k in g.mounts :: k in w.node && w.node[k] == g.node[k] && w.element[k] == g.element[k]
  {
  }

  /** A mount is at the end of that path. */
  ghost predicate Leads(g: Graph, ts: seq<string>) {
    Walk(g, g.root, ts).1 == []
  }

  /** `kmount` succeeds if and only if something is mounted at the parent path and nothing at the path itself;
      it fails where something is, and stops where a parent is missing. */
  lemma MountedExactly(g: Graph, r: Request)
    requires Tree(g)
    ensures Mounted(g, r).Done? && Mounted(g, r).value.1 <==>
              r.path != [] && Leads(g, r.path[..|r.path| - 1]) && !Leads(g, r.path)
    ensures Mounted(g, r).Done? && !Mounted(g, r).value.1 <==> Leads(g, r.path)
  {
    hide Tree, Find, Walk, AddMount;
    RootIn(g);
    WalkStays(g, g.root, r.path);
    if r.path == [] {
      RootHere(g);
    } else {
      var n := |r.path| - 1;
      var w, p := Walk(g, g.root, r.path), Walk(g, g.root, r.path[..n]);
      WalkStays(g, g.root, r.path[..n]);
      assert r.path[..n] + r.path[n..] == r.path;
      WalkConcat(g, g.root, r.path[..n], r.path[n..]);
      OneStep(g, p.0, r.path[n], r.path[n..]);
      assert |p.1 + r.path[n..]| == |p.1| + 1;
    }
  }

  lemma MountKeeps(g: Graph, table: seq<Request>, r: Request)
    requires Tree(g) && Resolves(g, table) && r.mount !in g.mounts && r.mount != 0
    requires |Walk(g, g.root, r.path).1| == 1
    ensures r.path != [] && Walk(g, g.root, r.path).0 in g.mounts
    ensures var w := AddMount(g, Walk(g, g.root, r.path).0, r.path[|r.path| - 1], r.mount, r.node);
            Tree(w) && Resolves(w, table + [r])
  {
    hide Tree, Find, Walk;
    Stuck(g, r.path);
    var p, n := Walk(g, g.root, r.path).0, |r.path| - 1;
    var w := AddMount(g, p, r.path[n], r.mount, r.node);
    AddKeepsTree(g, p, r.path[n], r.mount, r.node);
    FoundAfter(g, r.path, r.mount, r.node, []);
    NodesAfter(g, p, r.path[n], r.mount, r.node);
    RootIn(g);
    assert r.path + [] == r.path;
    forall s | s in table
      ensures Walk(w, g.root, s.path) == (s.mount, []) && s.mount in w.node && w.node[s.mount] == s.node
    {
      if r.path <= s.path {
        var rest := s.path[|r.path|..];
        assert r.path + rest == s.path;
        WalkConcat(g, g.root, r.path, rest);
      } else {
        OthersAfter(g, r.path, r.mount, r.node, s.path);
      }
    }
  }

  /** Calls of `kmount` in sequence, each with a mount record of its own, until one stops. */
  ghost predicate Mounts(g: Graph, rs: seq<Request>, w: Graph, table: seq<Request>)
    decreases |rs|
  {
    if rs == [] then w == g && table == []
    else
      && rs[0].mount !in g.mounts && rs[0].mount != 0
      && Mounted(g, rs[0]).Done?
      && var (next, ok) := Mounted(g, rs[0]).value;
      if ok then table != [] && table[0] == rs[0] && Mounts(next, rs[1..], w, table[1..])
      else Mounts(next, rs[1..], w, table)
  }

  /** After any run, sibling names are unique and every path that was ever mounted still leads to its
  mount, with nothing left over. */
  lemma {:induction false} MountsResolve(g: Graph, before: seq<Request>, rs: seq<Request>, w: Graph,
                                         table: seq<Request>)
    requires Tree(g) && Resolves(g, before) && Mounts(g, rs, w, table)
    ensures Tree(w) && Resolves(w, before + table)
    decreases |rs|
  {
    hide Tree, Resolves, Walk, AddMount;
    if rs == [] {
      assert before + table == before;
    } else {
      var (next, ok) := Mounted(g, rs[0]).value;
      if ok {
        MountKeeps(g, before, rs[0]);
        MountsResolve(next, before + [table[0]], rs[1..], w, table[1..]);
        assert before + [table[0]] + table[1..] == before + table;
      } else {
        MountsResolve(next, before, rs[1..], w, table);
      }
    }
  }
}
