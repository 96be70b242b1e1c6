/** The inode tree that internal/kdfs/kdfs.go builds in place: addEntry, addGroup and
    kdfsRoot.OnAdd walk the vault and find or create child inodes with GetChild,
    NewPersistentInode and AddChild. The inodes are kept in an arena indexed by
    number, the root inode being number 0; a ghost parent number per inode records
    which inode it was created under. Each method is proved against the functions of
    the Projection module: what it does to the tree below its parent inode, seen as a
    value, is what the matching function computes. The code panics where AddChild
    meets an empty name or a holder that backs a file (go-fuse gives such an inode no
    children map), and where addEntry's type assertion meets a file; each method
    reports that panic with ok false, exactly where the panic predicates of
    Projection say, and stops. */
module Kdfs {
  import opened Vault
  import opened Wrappers
  import opened FileOps
  import opened Projection

  /** One inode: its children by name (numbers of other inodes) and what it backs. */
  datatype Inode = Inode(children: map<Bytes, nat>, payload: Payload)

  /** Every child number is above its holder's and inside the arena. */
  ghost predicate Shaped(nodes: seq<Inode>) {
    forall i, n :: 0 <= i < |nodes| && n in nodes[i].children ==> i < nodes[i].children[n] < |nodes|
  }

  /** The arena holds a forest of inodes: each child was created under its holder,
      and no inode is the child of one holder under two names. */
  ghost predicate ArenaValid(nodes: seq<Inode>, parent: seq<int>) {
    && |nodes| > 0 && |parent| == |nodes|
    && Shaped(nodes)
    && (forall i :: 0 <= i < |parent| ==> parent[i] < i)
    && (forall i, n :: 0 <= i < |nodes| && n in nodes[i].children ==> parent[nodes[i].children[n]] == i)
    && (forall i, n, m :: 0 <= i < |nodes| && n in nodes[i].children && m in nodes[i].children && n != m ==>
          nodes[i].children[n] != nodes[i].children[m])
  }

  /** The subtree below inode i, as a value. */
  ghost function TreeAt(nodes: seq<Inode>, i: nat): Tree
    requires Shaped(nodes) && i < |nodes|
    decreases |nodes| - i
  {
    Tree(map n | n in nodes[i].children :: TreeAt(nodes, nodes[i].children[n]), nodes[i].payload)
  }

  /** Inode k was created, directly or through intermediate inodes, under inode a. */
  ghost predicate Desc(parent: seq<int>, a: int, k: int)
    decreases k
  {
    0 <= k < |parent| && (k == a || (parent[k] < k && Desc(parent, a, parent[k])))
  }

  ghost predicate Extends(a: seq<int>, b: seq<int>) {
    |a| <= |b| && forall i :: 0 <= i < |a| ==> b[i] == a[i]
  }

  lemma {:induction false} DescAbove(parent: seq<int>, a: int, k: int)
    requires Desc(parent, a, k)
    ensures a <= k
    decreases k
  {
    if k != a {
      DescAbove(parent, a, parent[k]);
    }
  }

  lemma {:induction false} DescTrans(parent: seq<int>, a: int, b: int, k: int)
    requires Desc(parent, a, b) && Desc(parent, b, k)
    ensures Desc(parent, a, k)
    decreases k
  {
    if k != b {
      DescTrans(parent, a, b, parent[k]);
    }
  }

  /** The inodes above k form a chain. */
  lemma {:induction false} DescLinear(parent: seq<int>, a: int, b: int, k: int)
    requires Desc(parent, a, k) && Desc(parent, b, k) && a <= b
    ensures Desc(parent, a, b)
    decreases k
  {
    if k != b {
      DescAbove(parent, b, parent[k]);
      DescLinear(parent, a, b, parent[k]);
    }
  }

  lemma {:induction false} DescExtend(pa: seq<int>, pb: seq<int>, a: int, k: int)
    requires Extends(pa, pb) && 0 <= k < |pa|
    ensures Desc(pb, a, k) == Desc(pa, a, k)
    decreases k
  {
    if k != a && 0 <= pa[k] < k {
      DescExtend(pa, pb, a, pa[k]);
    }
  }

  /** A child is a descendant of its holder. */
  lemma ChildIsDesc(nodes: seq<Inode>, parent: seq<int>, p: nat, n: Bytes)
    requires ArenaValid(nodes, parent) && p < |nodes| && n in nodes[p].children
    ensures Desc(parent, p, nodes[p].children[n])
  {
    assert Desc(parent, p, p);
  }

  /** The subtrees below two different children of one inode share no inode. */
  lemma SiblingsDisjoint(nodes: seq<Inode>, parent: seq<int>, p: nat, n: Bytes, m: Bytes, k: int)
    requires ArenaValid(nodes, parent) && p < |nodes|
    requires n in nodes[p].children && m in nodes[p].children && n != m
    requires Desc(parent, nodes[p].children[n], k)
    ensures !Desc(parent, nodes[p].children[m], k)
  {
    var c, d := nodes[p].children[n], nodes[p].children[m];
    if Desc(parent, d, k) {
      if c <= d {
        DescLinear(parent, c, d, k);
        DescAbove(parent, c, parent[d]);
      } else {
        DescLinear(parent, d, c, k);
        DescAbove(parent, d, parent[c]);
      }
      assert false;
    }
  }

  /** The subtree below i depends only on the inodes created under i. */
  lemma {:induction false} TreeAtFrame(nodes: seq<Inode>, parent: seq<int>, nodes': seq<Inode>, i: nat)
    requires ArenaValid(nodes, parent) && Shaped(nodes') && |nodes| <= |nodes'| && i < |nodes|
    requires forall k :: 0 <= k < |nodes| && Desc(parent, i, k) ==> nodes'[k] == nodes[k]
    ensures TreeAt(nodes', i) == TreeAt(nodes, i)
    decreases |nodes| - i
  {
    assert Desc(parent, i, i);
    var m := nodes[i].children;
    forall n | n in m
      ensures TreeAt(nodes', m[n]) == TreeAt(nodes, m[n])
    {
      var c := m[n];
      ChildIsDesc(nodes, parent, i, n);
      forall k | 0 <= k < |nodes| && Desc(parent, c, k)
        ensures nodes'[k] == nodes[k]
      {
        DescTrans(parent, i, c, k);
      }
      TreeAtFrame(nodes, parent, nodes', c);
    }
    assert TreeAt(nodes', i).children == TreeAt(nodes, i).children;
  }

  /** Attaching inode c, created under p, to p under name. */
  function Attach(nodes: seq<Inode>, p: nat, name: Bytes, c: nat): seq<Inode>
    requires p < |nodes|
  {
    nodes[p := Inode(nodes[p].children[name := c], nodes[p].payload)]
  }

  lemma TreeAtUnfold(nodes: seq<Inode>, i: nat)
    requires Shaped(nodes) && i < |nodes|
    ensures TreeAt(nodes, i).payload == nodes[i].payload
    ensures TreeAt(nodes, i).children.Keys == nodes[i].children.Keys
    ensures forall n :: n in nodes[i].children ==> TreeAt(nodes, i).children[n] == TreeAt(nodes, nodes[i].children[n])
  {
  }

  lemma AttachValid(nodes: seq<Inode>, parent: seq<int>, p: nat, name: Bytes, c: nat)
    requires ArenaValid(nodes, parent) && p < |nodes| && c < |nodes| && parent[c] == p
    requires forall n :: n in nodes[p].children ==> nodes[p].children[n] != c
    ensures ArenaValid(Attach(nodes, p, name, c), parent)
  {
  }

  lemma AttachView(nodes: seq<Inode>, parent: seq<int>, p: nat, name: Bytes, c: nat)
    requires ArenaValid(nodes, parent) && p < |nodes| && c < |nodes| && parent[c] == p
    requires forall n :: n in nodes[p].children ==> nodes[p].children[n] != c
    ensures ArenaValid(Attach(nodes, p, name, c), parent)
    ensures TreeAt(Attach(nodes, p, name, c), c) == TreeAt(nodes, c)
    ensures TreeAt(Attach(nodes, p, name, c), p) == SetChild(TreeAt(nodes, p), name, TreeAt(nodes, c))
  {
    var nodes' := Attach(nodes, p, name, c);
    AttachValid(nodes, parent, p, name, c);
    forall d | p < d < |nodes|
      ensures TreeAt(nodes', d) == TreeAt(nodes, d)
    {
      forall k | 0 <= k < |nodes| && Desc(parent, d, k)
        ensures nodes'[k] == nodes[k]
      {
        DescAbove(parent, d, k);
      }
      TreeAtFrame(nodes, parent, nodes', d);
    }
    TreeAtUnfold(nodes, p);
    TreeAtUnfold(nodes', p);
    var l, r := TreeAt(nodes', p).children, SetChild(TreeAt(nodes, p), name, TreeAt(nodes, c)).children;
    assert l.Keys == r.Keys;
    forall n | n in l
      ensures l[n] == r[n]
    {
      if n != name {
        assert p < nodes[p].children[n];
      }
    }
    assert l == r;
  }

  /** When only the inodes under child c = na[p].children[name] changed (and new ones
      were appended), the tree below p changed only in its child name. */
  lemma SubtreeUpdate(na: seq<Inode>, pa: seq<int>, nb: seq<Inode>, p: nat, name: Bytes)
    requires ArenaValid(na, pa) && Shaped(nb) && |na| <= |nb|
    requires p < |na| && name in na[p].children
    requires forall k :: 0 <= k < |na| && !Desc(pa, na[p].children[name], k) ==> nb[k] == na[k]
    ensures TreeAt(nb, p) == SetChild(TreeAt(na, p), name, TreeAt(nb, na[p].children[name]))
  {
    var c := na[p].children[name];
    if Desc(pa, c, p) {
      DescAbove(pa, c, p);
    }
    assert nb[p] == na[p];
    forall n | n in na[p].children && n != name
      ensures TreeAt(nb, na[p].children[n]) == TreeAt(na, na[p].children[n])
    {
      SiblingFrame(na, pa, nb, p, n, name);
    }
    TreeAtUnfold(na, p);
    TreeAtUnfold(nb, p);
    var l, r := TreeAt(nb, p).children, SetChild(TreeAt(na, p), name, TreeAt(nb, c)).children;
    assert l.Keys == r.Keys;
    forall n | n in l
      ensures l[n] == r[n]
    {
    }
    assert l == r;
  }

  /** A sibling of the updated child keeps its subtree. */
  lemma SiblingFrame(na: seq<Inode>, pa: seq<int>, nb: seq<Inode>, p: nat, n: Bytes, name: Bytes)
    requires ArenaValid(na, pa) && Shaped(nb) && |na| <= |nb|
    requires p < |na| && name in na[p].children && n in na[p].children && n != name
    requires forall k :: 0 <= k < |na| && !Desc(pa, na[p].children[name], k) ==> nb[k] == na[k]
    ensures TreeAt(nb, na[p].children[n]) == TreeAt(na, na[p].children[n])
  {
    var d := na[p].children[n];
    forall k | 0 <= k < |na| && Desc(pa, d, k)
      ensures nb[k] == na[k]
    {
      SiblingsDisjoint(na, pa, p, n, name, k);
    }
    TreeAtFrame(na, pa, nb, d);
  }

  /** Filling child c = na[p].children[name] of p, after p was given that child: the
      tree below p changed only in its child name, and nothing outside the inodes
      under p changed since n0. */
  lemma ChildFilled(n0: seq<Inode>, p0: seq<int>, t0: Tree, na: seq<Inode>, pa: seq<int>, nb: seq<Inode>,
                    p: nat, name: Bytes)
    requires ArenaValid(na, pa) && Shaped(nb) && Extends(p0, pa)
    requires p < |n0| <= |na| <= |nb| && |n0| == |p0| && name in na[p].children
    requires TreeAt(na, p) == SetChild(t0, name, TreeAt(na, na[p].children[name]))
    requires forall k :: 0 <= k < |n0| && k != p ==> na[k] == n0[k]
    requires forall k :: 0 <= k < |na| && !Desc(pa, na[p].children[name], k) ==> nb[k] == na[k]
    ensures TreeAt(nb, p) == SetChild(t0, name, TreeAt(nb, na[p].children[name]))
    ensures forall k :: 0 <= k < |n0| && !Desc(p0, p, k) ==> nb[k] == n0[k]
  {
    var c := na[p].children[name];
    SubtreeUpdate(na, pa, nb, p, name);
    SetChildTwice(t0, name, TreeAt(na, c), TreeAt(nb, c));
    ChildIsDesc(na, pa, p, name);
    FrameBelow(n0, p0, na, pa, nb, p, c);
  }

  /** Two rounds of changes confined to the inodes under c are one such round. */
  lemma FrameStep(na: seq<Inode>, pa: seq<int>, nb: seq<Inode>, pb: seq<int>, nc: seq<Inode>, c: nat)
    requires Extends(pa, pb) && |pa| == |na| <= |nb| <= |nc| && |pb| == |nb|
    requires forall k :: 0 <= k < |na| && !Desc(pa, c, k) ==> nb[k] == na[k]
    requires forall k :: 0 <= k < |nb| && !Desc(pb, c, k) ==> nc[k] == nb[k]
    ensures forall k :: 0 <= k < |na| && !Desc(pa, c, k) ==> nc[k] == na[k]
  {
    forall k | 0 <= k < |na| && !Desc(pa, c, k)
      ensures nc[k] == na[k]
    {
      DescExtend(pa, pb, c, k);
    }
  }

  /** Changes confined to p itself and then to the inodes under its child c stay
      inside the inodes under p. */
  lemma FrameBelow(n0: seq<Inode>, p0: seq<int>, na: seq<Inode>, pa: seq<int>, nb: seq<Inode>, p: nat, c: nat)
    requires Extends(p0, pa) && p < |n0| <= |na| <= |nb| && |n0| == |p0| && Desc(pa, p, c)
    requires forall k :: 0 <= k < |n0| && k != p ==> na[k] == n0[k]
    requires forall k :: 0 <= k < |na| && !Desc(pa, c, k) ==> nb[k] == na[k]
    ensures forall k :: 0 <= k < |n0| && !Desc(p0, p, k) ==> nb[k] == n0[k]
  {
    forall k | 0 <= k < |n0| && !Desc(p0, p, k)
      ensures nb[k] == n0[k]
    {
      DescExtend(p0, pa, p, k);
      if Desc(pa, c, k) {
        DescTrans(pa, p, c, k);
      }
      assert Desc(pa, p, p);
    }
  }

  /** kdfsRoot: the root inode of the mount together with the vault root it projects. */
  class KdfsRoot {
    const root: RootData
    var nodes: seq<Inode>
    ghost var parent: seq<int>

    ghost predicate Valid()
      reads this
    {
      ArenaValid(nodes, parent)
    }

    /** The tree below inode i. */
    ghost function View(i: nat): Tree
      reads this
      requires Valid() && i < |nodes|
    {
      TreeAt(nodes, i)
    }

    /** &kdfsRoot{root: ...}: a root inode with no children yet. */
    constructor (root: RootData)
      ensures Valid() && this.root == root
      ensures |nodes| == 1 && View(0) == EmptyDir
    {
      this.root := root;
      nodes := [Inode(map[], Directory)];
      parent := [-1];
      new;
      assert TreeAt(nodes, 0).children == map[];
    }

    /** Inode.GetChild: the child called name, if there is one. */
    function GetChild(p: nat, name: Bytes): (r: Option<nat>)
      reads this
      requires Valid() && p < |nodes|
      ensures r.Some? <==> name in View(p).children
      ensures r.Some? ==> p < r.value < |nodes| && parent[r.value] == p
      ensures r.Some? ==> View(r.value) == View(p).children[name]
    {
      if name in nodes[p].children then Some(nodes[p].children[name]) else None
    }

    /** Inode.NewPersistentInode, called on inode owner: a new inode, not yet attached. */
    method NewPersistentInode(owner: nat, payload: Payload) returns (c: nat)
      requires Valid() && owner < |nodes|
      modifies this
      ensures Valid()
      ensures c == old(|nodes|)
      ensures nodes == old(nodes) + [Inode(map[], payload)] && parent == old(parent) + [owner]
      ensures View(c) == Tree(map[], payload)
      ensures View(owner) == old(View(owner))
    {
      c := |nodes|;
      ghost var before := nodes;
      nodes := nodes + [Inode(map[], payload)];
      parent := parent + [owner];
      assert TreeAt(nodes, c).children == map[];
      TreeAtFrame(before, old(parent), nodes, owner);
    }

    /** Inode.AddChild(name, c, true): c becomes the child called name, replacing the
        old child of that name if there is one. go-fuse panics (ok is false) on an
        empty name, and on a holder made as a regular file, which has no children map. */
    method AddChild(p: nat, name: Bytes, c: nat) returns (ok: bool)
      requires Valid() && p < |nodes| && c < |nodes| && parent[c] == p
      requires forall n :: n in nodes[p].children ==> nodes[p].children[n] != c
      modifies this
      ensures Valid() && parent == old(parent)
      ensures ok == (name != [] && !old(nodes[p].payload).File?)
      ensures !ok ==> nodes == old(nodes)
      ensures ok ==> nodes == Attach(old(nodes), p, name, c)
      ensures ok ==> View(c) == old(View(c))
      ensures ok ==> View(p) == SetChild(old(View(p)), name, old(View(c)))
    {
      if name == [] || nodes[p].payload.File? {
        return false;
      }
      AttachView(nodes, parent, p, name, c);
      nodes := Attach(nodes, p, name, c);
      ok := true;
    }

    /** NewPersistentInode followed by AddChild on p: a new inode backing payload
        becomes the child called name of p, unless AddChild panics, leaving the new
        inode unattached. */
    method AttachNew(p: nat, name: Bytes, payload: Payload) returns (c: nat, ok: bool)
      requires Valid() && p < |nodes|
      modifies this
      ensures Valid() && |nodes| == old(|nodes|) + 1 && Extends(old(parent), parent)
      ensures c == old(|nodes|)
      ensures ok == (name != [] && !old(View(p)).payload.File?)
      ensures forall k :: 0 <= k < old(|nodes|) && k != p ==> nodes[k] == old(nodes[k])
      ensures !ok ==> nodes[p] == old(nodes[p])
      ensures ok ==> name in nodes[p].children && nodes[p].children[name] == c
      ensures ok ==> View(c) == Tree(map[], payload)
      ensures ok ==> View(p) == SetChild(old(View(p)), name, Tree(map[], payload))
    {
      c := NewPersistentInode(p, payload);
      ok := AddChild(p, name, c);
    }

    /** The get-or-create step shared by addEntry and addGroup: the child called name
        of p if GetChild finds one, otherwise a new directory inode made with
        NewPersistentInode and attached with AddChild. addEntry's new directory copies
        the group of its parent, parent.Operations().(*kdfsDir).group (copyGroup), and
        that type assertion panics on a parent that backs a file before any inode is
        made; addGroup's panics in AddChild instead. Either way nothing is attached. */
    method ChildDir(p: nat, name: Bytes, copyGroup: bool) returns (c: nat, ok: bool)
      requires Valid() && p < |nodes|
      modifies this
      ensures Valid() && old(|nodes|) <= |nodes| && Extends(old(parent), parent)
      ensures ok == !(name !in old(View(p)).children && (name == [] || old(View(p)).payload.File?))
      ensures forall k :: 0 <= k < old(|nodes|) && k != p ==> nodes[k] == old(nodes[k])
      ensures !ok ==> nodes[p] == old(nodes[p])
      ensures !ok && copyGroup && name != [] ==> nodes == old(nodes)
      ensures ok ==> p < c < |nodes| && name in nodes[p].children && nodes[p].children[name] == c
      ensures ok && name in old(nodes[p].children) ==> c == old(nodes[p].children[name]) && nodes == old(nodes)
      ensures ok && name !in old(nodes[p].children) ==> c == old(|nodes|) && |nodes| == old(|nodes|) + 1
      ensures ok ==> View(c) == GetOrCreate(old(View(p)), name)
      ensures ok ==> View(p) == SetChild(old(View(p)), name, View(c))
    {
      ghost var before := View(p);
      var ch := GetChild(p, name);
      if ch.Some? {
        c, ok := ch.value, true;
        assert View(p) == SetChild(before, name, View(c)) by {
          assert before.children[name := View(c)] == before.children;
        }
      } else if copyGroup && nodes[p].payload.File? {
        return 0, false;
      } else {
        c, ok := AttachNew(p, name, Directory);
      }
    }

    /** addEntry: an entry with a title gets a directory under p, found or created,
        and a file per attribute key with a non-empty value. It panics, before
        attaching anything, where EntryPanics says. */
    method AddEntry(p: nat, e: Entry) returns (ok: bool)
      requires Valid() && p < |nodes|
      modifies this
      ensures Valid() && old(|nodes|) <= |nodes| && Extends(old(parent), parent)
      ensures forall k :: 0 <= k < old(|nodes|) && !Desc(old(parent), p, k) ==> nodes[k] == old(nodes[k])
      ensures ok == !EntryPanics(old(View(p)), e)
      ensures !ok ==> forall k :: 0 <= k < old(|nodes|) ==> nodes[k] == old(nodes[k])
      ensures ok ==> View(p) == EntrySpec(old(View(p)), e)
    {
      var title := Title(e);
      if |title| == 0 {
        return true;
      }
      ghost var before := View(p);
      var c;
      c, ok := ChildDir(p, title, true);
      if !ok {
        return;
      }
      ghost var nodesA, parentA := nodes, parent;
      ok := AttachFiles(c, e);
      if !ok {
        return;
      }
      forall k | 0 <= k < |nodesA| && !Desc(parentA, c, k)
        ensures nodes[k] == nodesA[k]
      {
        assert Desc(parentA, c, c);
      }
      ChildFilled(old(nodes), old(parent), before, nodesA, parentA, nodes, p, title);
    }

    /** The attribute loop of addEntry on the entry's directory c: for each key in
        order, a non-empty value becomes a new file inode attached under the key's
        lower-cased name, replacing a file of that name. When c backs a file, the
        first such AddChild panics. */
    method AttachFiles(c: nat, e: Entry) returns (ok: bool)
      requires Valid() && c < |nodes|
      modifies this
      ensures Valid() && old(|nodes|) <= |nodes| && Extends(old(parent), parent)
      ensures forall k :: 0 <= k < old(|nodes|) && k != c ==> nodes[k] == old(nodes[k])
      ensures ok == !(old(View(c)).payload.File? && FilesOf(e) != {})
      ensures !ok ==> forall k :: 0 <= k < old(|nodes|) ==> nodes[k] == old(nodes[k])
      ensures ok ==> View(c) == AddFiles(old(View(c)), e, |AttributeKeys|)
    {
      FileNamesAreLowerCasedKeys();
      for i := 0 to |AttributeKeys|
        invariant Valid() && old(|nodes|) <= |nodes| && Extends(old(parent), parent)
        invariant forall k :: 0 <= k < old(|nodes|) && k != c ==> nodes[k] == old(nodes[k])
        invariant View(c) == AddFiles(old(View(c)), e, i)
        invariant old(View(c)).payload.File? ==> FilesUpTo(e, i) == {} && nodes[c] == old(nodes[c])
      {
        var key := AttributeKeys[i];
        var content := Content(e, key);
        if |content| == 0 {
          assert FilesUpTo(e, i + 1) == FilesUpTo(e, i);
          continue;
        }
        AddFilesEffect(old(View(c)), e, i);
        var f;
        f, ok := AttachNew(c, ToLower(key), File(FileNode(content, e.times)));
        if !ok {
          assert FileNames[i] in FilesOf(e);
          return;
        }
        assert FilesUpTo(e, i + 1) != {} by {
          assert FileNames[i] in FilesUpTo(e, i + 1);
        }
      }
      ok := true;
    }

    /** addGroup: the group's directory under p, found or created, then its subgroups
        into it, recursively, then its entries. A panic in either loop (ok is false)
        ends the walk where it happens. */
    method AddGroup(p: nat, g: Group) returns (ok: bool)
      requires Valid() && p < |nodes|
      modifies this
      decreases g
      ensures Valid() && old(|nodes|) <= |nodes| && Extends(old(parent), parent)
      ensures forall k :: 0 <= k < old(|nodes|) && !Desc(old(parent), p, k) ==> nodes[k] == old(nodes[k])
      ensures ok == !GroupPanics(old(View(p)), g)
      ensures ok ==> View(p) == GroupSpec(old(View(p)), g)
    {
      ghost var before := View(p);
      var c;
      c, ok := ChildDir(p, g.name, false);
      if !ok {
        return;
      }
      ghost var nodesA, parentA := nodes, parent;
      ok := AddGroups(c, g.groups);
      ghost var nodesB, parentB := nodes, parent;
      if ok {
        ok := AddEntries(c, g.entries);
      }
      FrameStep(nodesA, parentA, nodesB, parentB, nodes, c);
      if ok {
        ChildFilled(old(nodes), old(parent), before, nodesA, parentA, nodes, p, g.name);
      } else {
        ChildIsDesc(nodesA, parentA, p, g.name);
        FrameBelow(old(nodes), old(parent), nodesA, parentA, nodes, p, c);
      }
    }

    /** The loop over a list of groups, in order, that kdfsRoot.OnAdd runs over the
        top-level groups and addGroup over the subgroups of a group; it stops at the
        first group that panics. */
    method AddGroups(p: nat, gs: seq<Group>) returns (ok: bool)
      requires Valid() && p < |nodes|
      modifies this
      decreases gs
      ensures Valid() && old(|nodes|) <= |nodes| && Extends(old(parent), parent)
      ensures forall k :: 0 <= k < old(|nodes|) && !Desc(old(parent), p, k) ==> nodes[k] == old(nodes[k])
      ensures ok == !GroupsPanic(old(View(p)), gs)
      ensures ok ==> View(p) == GroupsSpec(old(View(p)), gs)
    {
      for i := 0 to |gs|
        invariant Valid() && old(|nodes|) <= |nodes| && Extends(old(parent), parent)
        invariant forall k :: 0 <= k < old(|nodes|) && !Desc(old(parent), p, k) ==> nodes[k] == old(nodes[k])
        invariant !GroupsPanic(old(View(p)), gs[..i])
        invariant View(p) == GroupsSpec(old(View(p)), gs[..i])
      {
        ghost var nodesB, parentB := nodes, parent;
        ok := AddGroup(p, gs[i]);
        FrameStep(old(nodes), old(parent), nodesB, parentB, nodes, p);
        assert gs[..i + 1][..i] == gs[..i];
        if !ok {
          GroupsPanicGrows(old(View(p)), gs, i + 1);
          return;
        }
      }
      assert gs[..|gs|] == gs;
      ok := true;
    }

    /** The loop of addGroup over the entries of a group, in order; it stops at the
        first entry that panics. */
    method AddEntries(p: nat, es: seq<Entry>) returns (ok: bool)
      requires Valid() && p < |nodes|
      modifies this
      ensures Valid() && old(|nodes|) <= |nodes| && Extends(old(parent), parent)
      ensures forall k :: 0 <= k < old(|nodes|) && !Desc(old(parent), p, k) ==> nodes[k] == old(nodes[k])
      ensures ok == !EntriesPanic(old(View(p)), es)
      ensures ok ==> View(p) == EntriesSpec(old(View(p)), es)
    {
      for i := 0 to |es|
        invariant Valid() && old(|nodes|) <= |nodes| && Extends(old(parent), parent)
        invariant forall k :: 0 <= k < old(|nodes|) && !Desc(old(parent), p, k) ==> nodes[k] == old(nodes[k])
        invariant !EntriesPanic(old(View(p)), es[..i])
        invariant View(p) == EntriesSpec(old(View(p)), es[..i])
      {
        ghost var nodesB, parentB := nodes, parent;
        ok := AddEntry(p, es[i]);
        FrameStep(old(nodes), old(parent), nodesB, parentB, nodes, p);
        assert es[..i + 1][..i] == es[..i];
        if !ok {
          EntriesPanicGrows(old(View(p)), es, i + 1);
          return;
        }
      }
      assert es[..|es|] == es;
      ok := true;
    }

    /** kdfsRoot.OnAdd: every top-level group of the vault, in order, under the root,
        until one panics. */
    method OnAdd() returns (ok: bool)
      requires Valid()
      modifies this
      ensures Valid()
      ensures ok == !GroupsPanic(old(View(0)), root.groups)
      ensures ok ==> View(0) == GroupsSpec(old(View(0)), root.groups)
    {
      ok := AddGroups(0, root.groups);
    }
  }

  /** Mounting: a fresh kdfsRoot for the vault root, populated by OnAdd. The mount
      panics exactly where MountPanics says, and otherwise holds Build(root). */
  method Mount(root: RootData) returns (fs: KdfsRoot, ok: bool)
    ensures fresh(fs) && fs.Valid() && fs.root == root
    ensures ok == !MountPanics(root)
    ensures ok ==> fs.View(0) == Build(root)
  {
    fs := new KdfsRoot(root);
    ok := fs.OnAdd();
  }
}
