/** The expectation of tests/mount_ronly_test.go: collectExpectedFiles walks a group
    and records, for every path below the mount point the test expects to find, the
    bytes the file there must hold (empty for a directory, whose existence is all the
    test checks). The main theorem says the tree that OnAdd builds meets every one of
    these expectations when sibling names do not collide. */
module Oracle {
  import opened Vault
  import opened Wrappers
  import opened FileOps
  import opened Projection

  /** Expected paths, relative to the mount point, with their expected contents. */
  type Expectation = map<Path, Bytes>

  /** The value switch of collectExpectedFiles for one entry whose directory is dir,
      over the first n attribute keys: a key with a non-empty value is expected as the
      file of the same name in lower case. */
  function CollectValues(e: Entry, dir: Path, paths: Expectation, n: nat): Expectation
    requires n <= |AttributeKeys|
    decreases n
  {
    if n == 0 then paths
    else
      var prev := CollectValues(e, dir, paths, n - 1);
      var content := Content(e, AttributeKeys[n - 1]);
      if content == [] then prev else prev[dir + [FileNames[n - 1]] := content]
  }

  /** The entry loop of collectExpectedFiles: entries without a title are skipped. */
  function CollectEntries(es: seq<Entry>, base: Path, paths: Expectation): Expectation
    decreases es
  {
    if es == [] then paths
    else
      var prev := CollectEntries(es[..|es| - 1], base, paths);
      var e := es[|es| - 1];
      if !Titled(e) then prev else CollectValues(e, base + [Title(e)], prev, |AttributeKeys|)
  }

  /** collectExpectedFiles(g, base, paths): the entries of g first, then its subgroups. */
  function Collect(g: Group, base: Path, paths: Expectation): Expectation
    decreases g
  {
    CollectGroups(g.groups, base, CollectEntries(g.entries, base, paths))
  }

  /** The subgroup loop of collectExpectedFiles: each subgroup's directory is expected
      (with empty contents), then everything below it. */
  function CollectGroups(gs: seq<Group>, base: Path, paths: Expectation): Expectation
    decreases gs
  {
    if gs == [] then paths
    else
      var prev := CollectGroups(gs[..|gs| - 1], base, paths);
      var sub := gs[|gs| - 1];
      var dir := base + [sub.name];
      Collect(sub, dir, prev[dir := []])
  }

  /** What TestMountRONLY expects: the paths below the directory of the first top-level
      group (the test indexes Groups[0], so it needs one). */
  function Expected(root: RootData): Expectation
    requires |root.groups| > 0
  {
    var g := root.groups[0];
    Collect(g, [g.name], map[])
  }

  /** What the test checks of one expected path: it is found, and when the expected
      contents are non-empty it is a file holding exactly those bytes. */
  predicate Present(t: Tree, p: Path, v: Bytes) {
    var r := Resolve(t, p);
    r.Some? && (v != [] ==> r.value.payload.File? && r.value.payload.file.data == v)
  }

  /** Every path that after adds or changes relative to before is present in t. */
  ghost predicate Grows(before: Expectation, after: Expectation, t: Tree) {
    forall p :: p in after ==> (p in before && after[p] == before[p]) || Present(t, p, after[p])
  }

  /** Sibling names never collide anywhere below g: subgroup names are pairwise
      different, so are the titles of titled entries, and no subgroup shares its name
      with an entry's title. */
  ghost predicate DistinctNames(g: Group)
    decreases g
  {
    && (forall i, j :: 0 <= i < j < |g.groups| ==> g.groups[i].name != g.groups[j].name)
    && (forall i, j :: 0 <= i < j < |g.entries| && Titled(g.entries[i]) && Titled(g.entries[j]) ==>
          Title(g.entries[i]) != Title(g.entries[j]))
    && (forall i, j :: 0 <= i < |g.groups| && 0 <= j < |g.entries| && Titled(g.entries[j]) ==>
          g.groups[i].name != Title(g.entries[j]))
    && (forall i :: 0 <= i < |g.groups| ==> DistinctNames(g.groups[i]))
  }

  /** The directory an entry gets when its title is new to its parent. */
  function EntryDir(e: Entry): Tree {
    AddFiles(EmptyDir, e, |AttributeKeys|)
  }

  /** The directory a group gets when its name is new to its parent. */
  function Proj(g: Group): Tree {
    EntriesSpec(GroupsSpec(EmptyDir, g.groups), g.entries)
  }

  // ---------------------------------------------------------------- the projection

  /** An entry whose title no other entry of es shares, and which the starting
      directory does not hold, ends up with a directory of its own files only. */
  lemma {:induction false} EntriesChild(t: Tree, es: seq<Entry>, i: nat)
    requires i < |es| && Titled(es[i]) && Title(es[i]) !in t.children
    requires forall j :: 0 <= j < |es| && j != i && Titled(es[j]) ==> Title(es[j]) != Title(es[i])
    ensures Title(es[i]) in EntriesSpec(t, es).children
    ensures EntriesSpec(t, es).children[Title(es[i])] == EntryDir(es[i])
    decreases es
  {
    var init, last := es[..|es| - 1], es[|es| - 1];
    var prev := EntriesSpec(t, init);
    if i == |es| - 1 {
      EntriesSpecKeys(t, init);
      assert Title(last) !in Titles(init);
      assert GetOrCreate(prev, Title(last)) == EmptyDir;
    } else {
      forall j | 0 <= j < |init| && j != i && Titled(init[j])
        ensures Title(init[j]) != Title(init[i])
      {
        assert init[j] == es[j];
      }
      EntriesChild(t, init, i);
      assert init[i] == es[i];
      EntrySpecEffect(prev, last);
    }
  }

  /** Entries leave alone every child not named by one of their titles. */
  lemma {:induction false} EntriesSpecOther(t: Tree, es: seq<Entry>, name: Bytes)
    requires name in t.children && name !in Titles(es)
    ensures name in EntriesSpec(t, es).children
    ensures EntriesSpec(t, es).children[name] == t.children[name]
    decreases es
  {
    if es != [] {
      var init, last := es[..|es| - 1], es[|es| - 1];
      assert Titles(init) <= Titles(es) by {
        forall x | x in Titles(init)
          ensures x in Titles(es)
        {
          var j :| 0 <= j < |init| && Titled(init[j]) && Title(init[j]) == x;
          assert es[j] == init[j];
        }
      }
      EntriesSpecOther(t, init, name);
      EntrySpecEffect(EntriesSpec(t, init), last);
      if Titled(last) {
        assert Title(last) in Titles(es);
      }
    }
  }

  /** A group whose name no other group of gs shares, and which the starting directory
      does not hold, ends up with the directory it would get on its own. */
  lemma {:induction false} GroupsChild(t: Tree, gs: seq<Group>, i: nat)
    requires i < |gs| && gs[i].name !in t.children
    requires forall j :: 0 <= j < |gs| && j != i ==> gs[j].name != gs[i].name
    ensures gs[i].name in GroupsSpec(t, gs).children
    ensures GroupsSpec(t, gs).children[gs[i].name] == Proj(gs[i])
    decreases gs
  {
    var init, last := gs[..|gs| - 1], gs[|gs| - 1];
    var prev := GroupsSpec(t, init);
    if i == |gs| - 1 {
      GroupsSpecKeys(t, init);
      assert last.name !in Names(init);
      assert GetOrCreate(prev, last.name) == EmptyDir;
    } else {
      forall j | 0 <= j < |init| && j != i
        ensures init[j].name != init[i].name
      {
        assert init[j] == gs[j];
      }
      GroupsChild(t, init, i);
      assert init[i] == gs[i];
      GroupSpecEffect(prev, last);
    }
  }

  /** One step of a path: the child called x of the node at base. */
  lemma ResolveChild(t: Tree, base: Path, x: Bytes, d: Tree)
    requires Resolve(t, base) == Some(d) && x in d.children
    ensures Resolve(t, base + [x]) == Some(d.children[x])
  {
    ResolveAppend(t, base, [x]);
    assert Resolve(d.children[x], []) == Some(d.children[x]);
  }

  // ---------------------------------------------------------------- the expectation

  lemma GrowsTrans(a: Expectation, b: Expectation, c: Expectation, t: Tree)
    requires Grows(a, b, t) && Grows(b, c, t)
    ensures Grows(a, c, t)
  {
  }

  lemma GrowsSet(a: Expectation, p: Path, v: Bytes, t: Tree)
    requires Present(t, p, v)
    ensures Grows(a, a[p := v], t)
  {
  }

  /** The files expected of an entry are the ones its directory holds. */
  lemma {:induction false} CollectValuesPresent(e: Entry, dir: Path, paths: Expectation, n: nat, t: Tree)
    requires n <= |AttributeKeys| && Resolve(t, dir) == Some(EntryDir(e))
    ensures Grows(paths, CollectValues(e, dir, paths, n), t)
    decreases n
  {
    if n == 0 {
      return;
    }
    var prev := CollectValues(e, dir, paths, n - 1);
    CollectValuesPresent(e, dir, paths, n - 1, t);
    var content := Content(e, AttributeKeys[n - 1]);
    if content != [] {
      AddFilesEffect(EmptyDir, e, |AttributeKeys|);
      assert FileNames[n - 1] in FilesOf(e);
      ResolveChild(t, dir, FileNames[n - 1], EntryDir(e));
      GrowsSet(prev, dir + [FileNames[n - 1]], content, t);
      GrowsTrans(paths, prev, prev[dir + [FileNames[n - 1]] := content], t);
    }
  }

  lemma {:induction false} CollectEntriesPresent(es: seq<Entry>, base: Path, paths: Expectation, t: Tree)
    requires forall i :: 0 <= i < |es| && Titled(es[i]) ==> Resolve(t, base + [Title(es[i])]) == Some(EntryDir(es[i]))
    ensures Grows(paths, CollectEntries(es, base, paths), t)
    decreases es
  {
    if es != [] {
      var init, last := es[..|es| - 1], es[|es| - 1];
      forall i | 0 <= i < |init| && Titled(init[i])
        ensures Resolve(t, base + [Title(init[i])]) == Some(EntryDir(init[i]))
      {
        assert init[i] == es[i];
      }
      CollectEntriesPresent(init, base, paths, t);
      var prev := CollectEntries(init, base, paths);
      if Titled(last) {
        CollectValuesPresent(last, base + [Title(last)], prev, |AttributeKeys|, t);
        GrowsTrans(paths, prev, CollectEntries(es, base, paths), t);
      }
    }
  }

  /** Everything collectExpectedFiles expects below a group's directory is there,
      provided the directory is the one the group gets on its own. */
  lemma {:induction false} CollectPresent(g: Group, base: Path, paths: Expectation, t: Tree)
    requires DistinctNames(g) && Resolve(t, base) == Some(Proj(g))
    ensures Grows(paths, Collect(g, base, paths), t)
    decreases g
  {
    var dirs := GroupsSpec(EmptyDir, g.groups);
    GroupsSpecKeys(EmptyDir, g.groups);
    forall i | 0 <= i < |g.entries| && Titled(g.entries[i])
      ensures Resolve(t, base + [Title(g.entries[i])]) == Some(EntryDir(g.entries[i]))
    {
      var e := g.entries[i];
      EntriesChild(dirs, g.entries, i);
      ResolveChild(t, base, Title(e), Proj(g));
    }
    CollectEntriesPresent(g.entries, base, paths, t);
    forall i | 0 <= i < |g.groups|
      ensures Resolve(t, base + [g.groups[i].name]) == Some(Proj(g.groups[i]))
    {
      var name := g.groups[i].name;
      GroupsChild(EmptyDir, g.groups, i);
      EntriesSpecOther(dirs, g.entries, name);
      ResolveChild(t, base, name, Proj(g));
    }
    var afterEntries := CollectEntries(g.entries, base, paths);
    CollectGroupsPresent(g.groups, base, afterEntries, t);
    GrowsTrans(paths, afterEntries, Collect(g, base, paths), t);
  }

  lemma {:induction false} CollectGroupsPresent(gs: seq<Group>, base: Path, paths: Expectation, t: Tree)
    requires forall i :: 0 <= i < |gs| ==> DistinctNames(gs[i])
    requires forall i :: 0 <= i < |gs| ==> Resolve(t, base + [gs[i].name]) == Some(Proj(gs[i]))
    ensures Grows(paths, CollectGroups(gs, base, paths), t)
    decreases gs
  {
    if gs != [] {
      var init, sub := gs[..|gs| - 1], gs[|gs| - 1];
      forall i | 0 <= i < |init|
        ensures DistinctNames(init[i]) && Resolve(t, base + [init[i].name]) == Some(Proj(init[i]))
      {
        assert init[i] == gs[i];
      }
      CollectGroupsPresent(init, base, paths, t);
      var prev := CollectGroups(init, base, paths);
      var dir := base + [sub.name];
      GrowsSet(prev, dir, [], t);
      CollectPresent(sub, dir, prev[dir := []], t);
      GrowsTrans(prev, prev[dir := []], CollectGroups(gs, base, paths), t);
      GrowsTrans(paths, prev, CollectGroups(gs, base, paths), t);
    }
  }

  /** The mount test's expectation is met: every path collectExpectedFiles records for
      the first top-level group exists in the tree OnAdd builds, and every expected
      file holds exactly the expected bytes. The hypotheses are that no other
      top-level group shares the first one's name and that sibling names below it do
      not collide. */
  lemma MountMeetsExpectation(root: RootData)
    requires |root.groups| > 0
    requires forall j :: 0 < j < |root.groups| ==> root.groups[j].name != root.groups[0].name
    requires DistinctNames(root.groups[0])
    ensures forall p :: p in Expected(root) ==> Present(Build(root), p, Expected(root)[p])
  {
    var g := root.groups[0];
    GroupsChild(EmptyDir, root.groups, 0);
    ResolveChild(Build(root), [], g.name, Build(root));
    CollectPresent(g, [g.name], map[], Build(root));
  }
}
