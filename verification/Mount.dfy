/** The mount functions of kernel/fs.c on their own data: mount records found by their address, each
field kept as a map; `mounts` maps to what the record's list contains (module `Lists`). */
module MountGraph {
  import opened Lists
  import opened Outcomes
  import opened Paths
  import opened MountModel

  class Mounts {
    var root: Mount
    var element: map<Mount, string>
    var node: map<Mount, FsNode>
    var mounts: map<Mount, seq<Mount>>

    ghost function Abs(): Graph
      reads this
    {
      Graph(root, element, node, mounts)
    }

    ghost predicate Valid()
      reads this
    {
      Tree(Abs())
    }

    /** `fs_mount_root` */
    constructor (rootMount: Mount, rootNode: FsNode)
      requires rootMount != 0
      ensures Valid() && root == rootMount && mounts == map[rootMount := []]
    {
      root := rootMount;
      element := map[rootMount := "/"];
      node := map[rootMount := rootNode];
      mounts := map[rootMount := []];
    }

    /** `findmount` */
    method FindMount(parent: Mount, subpath: string) returns (m: Mount)
      requires Valid() && parent in mounts
      ensures m == Find(Abs(), parent, subpath)
    {
      var ms := mounts[parent];
      var i := 0;
      assert ms[0..] == ms;
      while i < |ms|
        invariant i <= |ms| && FindIn(element, ms[i..], subpath) == FindIn(element, ms, subpath)
      {
        Named(i, parent);
        assert ms[i..][0] == ms[i] && ms[i..][1..] == ms[i + 1..];
        if element[ms[i]] == subpath {
          return ms[i];
        }
        i := i + 1;
      }
      return 0;
    }

    lemma Named(i: nat, parent: Mount)
      requires Valid() && parent in mounts && i < |mounts[parent]|
      ensures mounts[parent][i] in element
    {
      assert Child(Abs(), parent, i, mounts[parent][i]);
    }

    /** `walk_mount_graph`: takes the elements that it has followed off the list. */
    method WalkMountGraph(elements: List<string>, start: Mount) returns (mount: Mount)
      requires Valid() && elements.Valid() && start in mounts
      modifies elements
      ensures elements.Valid() && (mount, elements.Contents()) == Walk(Abs(), start, old(elements.Contents()))
      ensures mount in mounts
    {
      hide List.Valid, List.Contents, Tree, Find, Walk;
      mount := start;
      HeadOf(elements);
      while elements.head != 0
        invariant elements.Valid() && mount in mounts && (elements.head == 0 <==> elements.Contents() == [])
        invariant elements.Contents() != [] ==>
                    elements.head in elements.value && elements.value[elements.head] == elements.Contents()[0]
                    && elements.nodes != [] && elements.head == elements.nodes[0]
        invariant Walk(Abs(), mount, elements.Contents()) == Walk(Abs(), start, old(elements.Contents()))
        decreases |elements.Contents()|
      {
        var name := elements.value[elements.head];
        var newMount := FindMount(mount, name);
        FindIs(Abs(), mount, name);
        WalkStep(Abs(), mount, elements.Contents());
        if newMount == 0 {
          return;
        }
        mount := newMount;
        ghost var es := elements.Contents();
        elements.Delete(elements.head, 0);
        assert es[..0] + es[1..] == es[1..];
        HeadOf(elements);
      }
      WalkStep(Abs(), mount, elements.Contents());
    }

    /** `fs_mount_submount`; `m` is what fs_mount_new returned. */
    method SubMount(parent: Mount, fsNode: FsNode, name: string, m: Mount)
      requires Valid() && parent in mounts && m != 0 && m !in mounts && Find(Abs(), parent, name) == 0
      modifies `element, `node, `mounts
      ensures Valid() && Abs() == AddMount(old(Abs()), parent, name, m, fsNode)
    {
      AddKeepsTree(Abs(), parent, name, m, fsNode);
      hide Tree, Find;
      element := element[m := name];
      mounts := mounts[m := []];
      node := node[m := fsNode];
      mounts := mounts[parent := mounts[parent] + [m]];
    }

    /** `kmount`; a stop is its assertion that parents are mounted first. */
    method KMount(path: string, fsNode: FsNode, m: Mount) returns (r: Outcome<bool>)
      requires Valid() && m != 0 && m !in mounts
      modifies `element, `node, `mounts
      ensures Valid()
      ensures match Mounted(old(Abs()), Request(Tokens(path), m, fsNode))
              case Done(result) => r == Done(result.1) && Abs() == result.0
              case Stopped => r == Stopped && Abs() == old(Abs())
      ensures var ts := Tokens(path);
              && (r == Done(true) <==> ts != [] && Leads(old(Abs()), ts[..|ts| - 1]) && !Leads(old(Abs()), ts))
              && (r == Done(false) <==> Leads(old(Abs()), ts))
      ensures r == Done(true) ==>
                && m in node && node[m] == fsNode && mounts.Keys == old(mounts.Keys) + {m}
                && forall k | k in old(mounts) :: k in node && node[k] == old(node[k]) && element[k] == old(element[k])
    {
      hide List.Valid, List.Contents, Tree, Find, Tokens, Walk, AddMount, Leads;
      RootIn(Abs());
      MountedExactly(Abs(), Request(Tokens(path), m, fsNode));
      var elements := TokenizePathList(path);
      ghost var ts := elements.Contents();
      LengthOf(elements);
      if elements.length < 1 {
        RootHere(Abs());
        return Done(false);
      }
      LastOf(elements);
      var mountElement := elements.value[elements.tail];
      var parent := WalkMountGraph(elements, root);
      LengthOf(elements);
      if elements.length == 0 {
        return Done(false);
      }
      if elements.length != 1 {
        return Stopped;
      }
      Stuck(Abs(), ts);
      NodesAfter(Abs(), parent, mountElement, m, fsNode);
      SubMount(parent, fsNode, mountElement, m);
      return Done(true);
    }

    /** What `kmount` promises its caller: the mount is found at its path, what follows it is left over,
    and every other path resolves as before. */
    lemma KMountLaw(path: string, m: Mount, fsNode: FsNode, es: seq<string>)
      requires Valid() && m != 0 && m !in mounts
      requires Mounted(Abs(), Request(Tokens(path), m, fsNode)).Done?
      requires Mounted(Abs(), Request(Tokens(path), m, fsNode)).value.1
      ensures var g, w, ts := Abs(), Mounted(Abs(), Request(Tokens(path), m, fsNode)).value.0, Tokens(path);
              && Walk(w, root, ts + es) == (m, es) && m in w.node && w.node[m] == fsNode
              && (forall k | k in g.node :: k in w.node && w.node[k] == g.node[k])
              && (!(ts <= es) ==> Walk(w, root, es) == Walk(g, root, es))
    {
      hide Tree, Find, Tokens, Walk;
      var ts := Tokens(path);
      Stuck(Abs(), ts);
      RootIn(Abs());
      NodesAfter(Abs(), Walk(Abs(), root, ts).0, ts[|ts| - 1], m, fsNode);
      FoundAfter(Abs(), ts, m, fsNode, es);
      if !(ts <= es) {
        OthersAfter(Abs(), ts, m, fsNode, es);
      }
    }
  }

  lemma HeadOf(l: List<string>)
    requires l.Valid()
    ensures l.head == 0 <==> l.Contents() == []
    ensures l.Contents() != [] ==>
              && l.nodes != [] && l.head == l.nodes[0]
              && l.head in l.value && l.value[l.head] == l.Contents()[0]
  {
    if l.nodes != [] { assert l.nodes[0] in l.nodes; }
  }

  lemma LastOf(l: List<string>)
    requires l.Valid() && l.length > 0
    ensures l.tail in l.value && l.Contents() != [] && l.value[l.tail] == l.Contents()[|l.Contents()| - 1]
  {
  }

  lemma LengthOf(l: List<string>)
    requires l.Valid()
    ensures l.length == |l.Contents()|
  {
  }
}
