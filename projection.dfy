/** The projected filesystem as a value, and the effect of each step of the tree
    construction in internal/kdfs/kdfs.go (addEntry, addGroup, OnAdd) on it. A node
    has named children, kept in a map because go-fuse keys an inode's children by
    name, and is either a directory or an attribute file. */
module Projection {
  import opened Vault
  import opened Wrappers
  import opened FileOps

  datatype Payload = Directory | File(file: FileNode)

  datatype Tree = Tree(children: map<Bytes, Tree>, payload: Payload)

  type Path = seq<Bytes>

  const EmptyDir: Tree := Tree(map[], Directory)

  function Leaf(f: FileNode): Tree {
    Tree(map[], File(f))
  }

  /** AddChild(name, c, true): the child called name becomes c, replacing any old one. */
  function SetChild(t: Tree, name: Bytes, c: Tree): Tree {
    t.(children := t.children[name := c])
  }

  /** A second AddChild under the same name replaces the first. */
  lemma SetChildTwice(t: Tree, name: Bytes, a: Tree, b: Tree)
    ensures SetChild(SetChild(t, name, a), name, b) == SetChild(t, name, b)
  {
    assert t.children[name := a][name := b] == t.children[name := b];
  }

  /** GetChild(name), or a new empty directory when there is none. */
  function GetOrCreate(t: Tree, name: Bytes): Tree {
    if name in t.children then t.children[name] else EmptyDir
  }

  /** The node reached by following path from t, if every step names a child. */
  function Resolve(t: Tree, path: Path): Option<Tree>
    decreases path
  {
    if path == [] then Some(t)
    else if path[0] in t.children then Resolve(t.children[path[0]], path[1..])
    else None
  }

  // ---------------------------------------------------------------- file names

  function LowerByte(b: bv8): bv8 {
    if 0x41 <= b <= 0x5A then b + 0x20 else b
  }

  /** strings.ToLower on ASCII text, which every attribute key is. */
  function ToLower(s: Bytes): Bytes {
    seq(|s|, i requires 0 <= i < |s| => LowerByte(s[i]))
  }

  const UserNameFile: Bytes := [0x75, 0x73, 0x65, 0x72, 0x6E, 0x61, 0x6D, 0x65] // "username"
  const PasswordFile: Bytes := [0x70, 0x61, 0x73, 0x73, 0x77, 0x6F, 0x72, 0x64] // "password"
  const NotesFile: Bytes := [0x6E, 0x6F, 0x74, 0x65, 0x73]                    // "notes"
  const UrlFile: Bytes := [0x75, 0x72, 0x6C]                                  // "url"

  /** The file names, index for index with AttributeKeys. */
  const FileNames: seq<Bytes> := [UserNameFile, PasswordFile, NotesFile, UrlFile]

  /** Lower-casing the four keys gives the four file names, which are all different. */
  lemma FileNamesAreLowerCasedKeys()
    ensures |FileNames| == |AttributeKeys|
    ensures forall i :: 0 <= i < |AttributeKeys| ==> ToLower(AttributeKeys[i]) == FileNames[i]
    ensures forall i, j :: 0 <= i < j < |FileNames| ==> FileNames[i] != FileNames[j]
  {
    assert ToLower(UserNameKey) == UserNameFile;
    assert ToLower(PasswordKey) == PasswordFile;
    assert ToLower(NotesKey) == NotesFile;
    assert ToLower(UrlKey) == UrlFile;
    assert UserNameFile[0] != PasswordFile[0];
  }

  /** The names of the files the first n keys of e give rise to: those with a value. */
  ghost function FilesUpTo(e: Entry, n: nat): set<Bytes>
    requires n <= |AttributeKeys|
  {
    set i | 0 <= i < n && |Content(e, AttributeKeys[i])| > 0 :: FileNames[i]
  }

  ghost function FilesOf(e: Entry): set<Bytes> {
    FilesUpTo(e, |AttributeKeys|)
  }

  // ---------------------------------------------------------------- addEntry

  /** The entry directory d after the attribute loop of addEntry has visited the
      first n keys: each key with a non-empty value attaches a file, with overwrite. */
  function AddFiles(d: Tree, e: Entry, n: nat): Tree
    requires n <= |AttributeKeys|
    decreases n
  {
    if n == 0 then d
    else
      var prev := AddFiles(d, e, n - 1);
      var key := AttributeKeys[n - 1];
      var content := Content(e, key);
      if |content| == 0 then prev
      else SetChild(prev, ToLower(key), Leaf(FileNode(content, e.times)))
  }

  /** addEntry applied to a parent directory t. */
  function EntrySpec(t: Tree, e: Entry): Tree {
    if !Titled(e) then t
    else SetChild(t, Title(e), AddFiles(GetOrCreate(t, Title(e)), e, |AttributeKeys|))
  }

  lemma {:induction false} AddFilesEffect(d: Tree, e: Entry, n: nat)
    requires n <= |AttributeKeys|
    ensures AddFiles(d, e, n).payload == d.payload
    ensures AddFiles(d, e, n).children.Keys == d.children.Keys + FilesUpTo(e, n)
    ensures forall i :: 0 <= i < n && |Content(e, AttributeKeys[i])| > 0 ==>
              AddFiles(d, e, n).children[FileNames[i]] == Leaf(FileNode(Content(e, AttributeKeys[i]), e.times))
    ensures forall name :: name in d.children && name !in FilesUpTo(e, n) ==>
              AddFiles(d, e, n).children[name] == d.children[name]
    decreases n
  {
    FileNamesAreLowerCasedKeys();
    if n > 0 {
      AddFilesEffect(d, e, n - 1);
      var key := AttributeKeys[n - 1];
      if |Content(e, key)| == 0 {
        assert FilesUpTo(e, n) == FilesUpTo(e, n - 1);
      } else {
        assert FilesUpTo(e, n) == FilesUpTo(e, n - 1) + {FileNames[n - 1]};
      }
    }
  }

  /** What addEntry does to its parent directory. An entry without a title changes
      nothing. A titled one gets its directory, the existing child of that name or a
      new one, and no sibling is touched. The directory keeps what it held and
      receives a file for each key with a non-empty value, and for no other key,
      named by the lower-cased key and holding the value and the entry's times;
      a file of the same name from earlier is replaced (last wins). */
  lemma EntrySpecEffect(t: Tree, e: Entry)
    ensures !Titled(e) ==> EntrySpec(t, e) == t
    ensures Titled(e) ==>
      var r := EntrySpec(t, e);
      && r.payload == t.payload
      && r.children.Keys == t.children.Keys + {Title(e)}
      && (forall name :: name in t.children && name != Title(e) ==> r.children[name] == t.children[name])
      && var before := GetOrCreate(t, Title(e));
         var d := r.children[Title(e)];
         && (Title(e) !in t.children ==> d.payload == Directory)
         && d.payload == before.payload
         && d.children.Keys == before.children.Keys + FilesOf(e)
         && (forall i :: 0 <= i < |AttributeKeys| && |Content(e, AttributeKeys[i])| > 0 ==>
               d.children[FileNames[i]] == Leaf(FileNode(Content(e, AttributeKeys[i]), e.times)))
         && (forall name :: name in before.children && name !in FilesOf(e) ==>
               d.children[name] == before.children[name])
  {
    if Titled(e) {
      AddFilesEffect(GetOrCreate(t, Title(e)), e, |AttributeKeys|);
    }
  }

  /** The part of EntrySpecEffect about the parent alone. */
  lemma EntrySpecKeys(t: Tree, e: Entry)
    ensures EntrySpec(t, e).payload == t.payload
    ensures EntrySpec(t, e).children.Keys == t.children.Keys + (if Titled(e) then {Title(e)} else {})
  {
  }

  /** Every file an entry attaches reports that entry's three timestamps, so any two
      attribute files of one entry report the same times. */
  lemma EntryFilesShareTimes(t: Tree, e: Entry, i: nat, j: nat)
    requires Titled(e) && i < |AttributeKeys| && j < |AttributeKeys|
    requires |Content(e, AttributeKeys[i])| > 0 && |Content(e, AttributeKeys[j])| > 0
    ensures Title(e) in EntrySpec(t, e).children
    ensures var d := EntrySpec(t, e).children[Title(e)];
      FileNames[i] in d.children && FileNames[j] in d.children
    ensures var d := EntrySpec(t, e).children[Title(e)];
      && d.children[FileNames[i]].payload.File?
      && d.children[FileNames[j]].payload.File?
      && var a := Getattr(d.children[FileNames[i]].payload.file);
         var b := Getattr(d.children[FileNames[j]].payload.file);
         && a.mtime == b.mtime == Uint64(e.times.lastModification)
         && a.atime == b.atime == Uint64(e.times.lastAccess)
         && a.ctime == b.ctime == Uint64(e.times.creation)
  {
    EntrySpecEffect(t, e);
  }

  /** Two entries with one title under one parent share a directory, and the later
      one wins file by file: its non-empty values replace the earlier files, and the
      earlier files for keys it leaves empty remain. */
  lemma SameTitleLastWins(t: Tree, e1: Entry, e2: Entry)
    requires Titled(e1) && Titled(e2) && Title(e1) == Title(e2)
    ensures Title(e1) in EntrySpec(EntrySpec(t, e1), e2).children
    ensures var d := EntrySpec(EntrySpec(t, e1), e2).children[Title(e1)];
      && d.children.Keys == GetOrCreate(t, Title(e1)).children.Keys + FilesOf(e1) + FilesOf(e2)
      && forall i :: 0 <= i < |AttributeKeys| ==>
           && (|Content(e2, AttributeKeys[i])| > 0 ==>
                 d.children[FileNames[i]] == Leaf(FileNode(Content(e2, AttributeKeys[i]), e2.times)))
           && (|Content(e2, AttributeKeys[i])| == 0 && |Content(e1, AttributeKeys[i])| > 0 ==>
                 d.children[FileNames[i]] == Leaf(FileNode(Content(e1, AttributeKeys[i]), e1.times)))
  {
    var title := Title(e1);
    var d0 := GetOrCreate(t, title);
    var d1 := AddFiles(d0, e1, |AttributeKeys|);
    var mid := SetChild(t, title, d1);
    assert EntrySpec(t, e1) == mid;
    assert GetOrCreate(mid, title) == d1;
    var d := AddFiles(d1, e2, |AttributeKeys|);
    assert EntrySpec(mid, e2) == SetChild(mid, title, d);
    AddFilesEffect(d0, e1, |AttributeKeys|);
    AddFilesEffect(d1, e2, |AttributeKeys|);
    FileNamesAreLowerCasedKeys();
    forall i | 0 <= i < |AttributeKeys| && |Content(e2, AttributeKeys[i])| == 0
      ensures FileNames[i] !in FilesOf(e2)
    {
    }
  }

  // ---------------------------------------------------------------- addGroup

  /** addGroup applied to a parent directory t: find or create the group's directory,
      project the subgroups into it, then the entries. */
  function GroupSpec(t: Tree, g: Group): Tree
    decreases g
  {
    var dir := GetOrCreate(t, g.name);
    SetChild(t, g.name, EntriesSpec(GroupsSpec(dir, g.groups), g.entries))
  }

  /** addGroup for each of gs in order (the subgroup loop of addGroup, and OnAdd). */
  function GroupsSpec(t: Tree, gs: seq<Group>): Tree
    decreases gs
  {
    if gs == [] then t
    else GroupSpec(GroupsSpec(t, gs[..|gs| - 1]), gs[|gs| - 1])
  }

  /** addEntry for each of es in order (the entry loop of addGroup). */
  function EntriesSpec(t: Tree, es: seq<Entry>): Tree
    decreases es
  {
    if es == [] then t
    else EntrySpec(EntriesSpec(t, es[..|es| - 1]), es[|es| - 1])
  }

  /** The tree OnAdd builds under a root that starts out empty. */
  function Build(root: RootData): Tree {
    GroupsSpec(EmptyDir, root.groups)
  }

  ghost function Names(gs: seq<Group>): set<Bytes> {
    set i | 0 <= i < |gs| :: gs[i].name
  }

  ghost function Titles(es: seq<Entry>): set<Bytes> {
    set i | 0 <= i < |es| && Titled(es[i]) :: Title(es[i])
  }

  /** Projecting entries in order adds exactly the titled entries' names. */
  lemma {:induction false} EntriesSpecKeys(t: Tree, es: seq<Entry>)
    ensures EntriesSpec(t, es).payload == t.payload
    ensures EntriesSpec(t, es).children.Keys == t.children.Keys + Titles(es)
    decreases es
  {
    if es != [] {
      var init, last := es[..|es| - 1], es[|es| - 1];
      EntriesSpecKeys(t, init);
      EntrySpecKeys(EntriesSpec(t, init), last);
      if Titled(last) {
        assert Titles(es) == Titles(init) + {Title(last)};
      } else {
        assert Titles(es) == Titles(init);
      }
    }
  }

  /** Projecting groups in order adds exactly their names. */
  lemma {:induction false} GroupsSpecKeys(t: Tree, gs: seq<Group>)
    ensures GroupsSpec(t, gs).payload == t.payload
    ensures GroupsSpec(t, gs).children.Keys == t.children.Keys + Names(gs)
    decreases gs
  {
    if gs != [] {
      var init := gs[..|gs| - 1];
      GroupsSpecKeys(t, init);
      assert Names(gs) == Names(init) + {gs[|gs| - 1].name};
    }
  }

  /** What addGroup does to its parent directory: the group's directory is the
      existing child of that name, reused with its payload, or a new directory; it is
      the only child touched; afterwards it holds what it held before, one child per
      subgroup name and one per titled entry, and nothing else. A group with no
      subgroups and no entries still yields its directory. */
  lemma GroupSpecEffect(t: Tree, g: Group)
    ensures var r := GroupSpec(t, g);
      && r.payload == t.payload
      && r.children.Keys == t.children.Keys + {g.name}
      && (forall name :: name in t.children && name != g.name ==> r.children[name] == t.children[name])
      && var before := GetOrCreate(t, g.name);
         var d := r.children[g.name];
         && (g.name !in t.children ==> d.payload == Directory)
         && d.payload == before.payload
         && d.children.Keys == before.children.Keys + Names(g.groups) + Titles(g.entries)
  {
    var before := GetOrCreate(t, g.name);
    GroupsSpecKeys(before, g.groups);
    EntriesSpecKeys(GroupsSpec(before, g.groups), g.entries);
  }

  /** The entries of es that have a title, in order. */
  function TitledOnly(es: seq<Entry>): (r: seq<Entry>)
    ensures |r| <= |es|
    ensures forall i :: 0 <= i < |r| ==> Titled(r[i]) && r[i] in es
    decreases es
  {
    if es == [] then []
    else
      var last := es[|es| - 1];
      TitledOnly(es[..|es| - 1]) + (if Titled(last) then [last] else [])
  }

  /** g with every untitled entry removed, at every depth. */
  function Strip(g: Group): Group
    decreases g
  {
    Group(g.name, StripAll(g.groups), TitledOnly(g.entries))
  }

  function StripAll(gs: seq<Group>): (r: seq<Group>)
    ensures |r| == |gs|
    decreases gs
  {
    seq(|gs|, i requires 0 <= i < |gs| => Strip(gs[i]))
  }

  /** Untitled entries add nothing: dropping them from the entry loop changes nothing. */
  lemma {:induction false} UntitledEntriesAddNothing(t: Tree, es: seq<Entry>)
    ensures EntriesSpec(t, TitledOnly(es)) == EntriesSpec(t, es)
    decreases es
  {
    if es != [] {
      var init, last := es[..|es| - 1], es[|es| - 1];
      UntitledEntriesAddNothing(t, init);
      if Titled(last) {
        var r := TitledOnly(init) + [last];
        assert TitledOnly(es) == r;
        assert r[..|r| - 1] == TitledOnly(init);
      } else {
        assert TitledOnly(es) == TitledOnly(init) + [] == TitledOnly(init);
        assert EntriesSpec(t, es) == EntrySpec(EntriesSpec(t, init), last) == EntriesSpec(t, init);
      }
    }
  }

  /** Untitled entries yield no node anywhere below a group. */
  lemma {:induction false} UntitledEntriesAddNothingBelow(t: Tree, g: Group)
    ensures GroupSpec(t, Strip(g)) == GroupSpec(t, g)
    decreases g
  {
    var dir := GetOrCreate(t, g.name);
    UntitledGroupsAddNothing(dir, g.groups);
    UntitledEntriesAddNothing(GroupsSpec(dir, g.groups), g.entries);
  }

  lemma {:induction false} UntitledGroupsAddNothing(t: Tree, gs: seq<Group>)
    ensures GroupsSpec(t, StripAll(gs)) == GroupsSpec(t, gs)
    decreases gs
  {
    if gs != [] {
      var init := gs[..|gs| - 1];
      UntitledGroupsAddNothing(t, init);
      assert StripAll(gs)[..|gs| - 1] == StripAll(init);
      UntitledEntriesAddNothingBelow(GroupsSpec(t, init), gs[|gs| - 1]);
    }
  }

  /** The whole mount does not depend on the vault's untitled entries. */
  lemma UntitledEntriesInvisible(root: RootData)
    ensures Build(RootData(StripAll(root.groups))) == Build(root)
  {
    UntitledGroupsAddNothing(EmptyDir, root.groups);
  }

  /** Groups and entries share one namespace under a parent: an entry titled like a
      group merges its files into the group's directory. */
  lemma GroupAndEntryMerge(t: Tree, g: Group, e: Entry)
    requires Titled(e) && Title(e) == g.name
    ensures EntrySpec(GroupSpec(t, g), e).children.Keys == t.children.Keys + {g.name}
    ensures EntrySpec(GroupSpec(t, g), e).children[g.name].children.Keys ==
      GetOrCreate(t, g.name).children.Keys + Names(g.groups) + Titles(g.entries) + FilesOf(e)
  {
    GroupSpecEffect(t, g);
    EntrySpecEffect(GroupSpec(t, g), e);
  }

  // ---------------------------------------------------------------- panics

  /** Where addEntry panics, before attaching anything. When the title has no child
      yet, the new directory copies the parent's group through the type assertion
      parent.Operations().(*kdfsDir), which fails on a parent that backs a file. When
      the child exists and backs a file, the first AddChild of the attribute loop
      panics: go-fuse gives an inode made as a regular file no children map. */
  ghost predicate EntryPanics(t: Tree, e: Entry) {
    && Titled(e)
    && if Title(e) in t.children then t.children[Title(e)].payload.File? && FilesOf(e) != {}
       else t.payload.File?
  }

  /** The entry loop panics at some entry, each entry meeting the tree its
      predecessors built. */
  ghost predicate EntriesPanic(t: Tree, es: seq<Entry>)
    decreases es
  {
    es != [] && (EntriesPanic(t, es[..|es| - 1]) || EntryPanics(EntriesSpec(t, es[..|es| - 1]), es[|es| - 1]))
  }

  /** addGroup panics when it has to attach its new directory with AddChild and the
      name is empty or the parent backs a file (go-fuse refuses both); otherwise it
      panics in its subgroup loop or in its entry loop. */
  ghost predicate GroupPanics(t: Tree, g: Group)
    decreases g
  {
    || (g.name !in t.children && (g.name == [] || t.payload.File?))
    || var dir := GetOrCreate(t, g.name);
       GroupsPanic(dir, g.groups) || EntriesPanic(GroupsSpec(dir, g.groups), g.entries)
  }

  ghost predicate GroupsPanic(t: Tree, gs: seq<Group>)
    decreases gs
  {
    gs != [] && (GroupsPanic(t, gs[..|gs| - 1]) || GroupPanics(GroupsSpec(t, gs[..|gs| - 1]), gs[|gs| - 1]))
  }

  /** OnAdd panics while mounting root; when it does not, the mount holds Build(root). */
  ghost predicate MountPanics(root: RootData) {
    GroupsPanic(EmptyDir, root.groups)
  }

  /** Once a prefix of the entry loop panics, the whole loop does. */
  lemma {:induction false} EntriesPanicGrows(t: Tree, es: seq<Entry>, j: nat)
    requires j <= |es| && EntriesPanic(t, es[..j])
    ensures EntriesPanic(t, es)
    decreases |es|
  {
    if j < |es| {
      var init := es[..|es| - 1];
      assert init[..j] == es[..j];
      EntriesPanicGrows(t, init, j);
    } else {
      assert es[..j] == es;
    }
  }

  lemma {:induction false} GroupsPanicGrows(t: Tree, gs: seq<Group>, j: nat)
    requires j <= |gs| && GroupsPanic(t, gs[..j])
    ensures GroupsPanic(t, gs)
    decreases |gs|
  {
    if j < |gs| {
      var init := gs[..|gs| - 1];
      assert init[..j] == gs[..j];
      GroupsPanicGrows(t, init, j);
    } else {
      assert gs[..j] == gs;
    }
  }

  /** Below t, only a child called by one of the four file names can back a file. */
  ghost predicate FilesNamed(t: Tree)
    decreases t
  {
    forall n :: n in t.children ==>
      (n !in FileNames ==> t.children[n].payload == Directory) && FilesNamed(t.children[n])
  }

  /** No group name is empty, and no group name or entry title, at any depth, is one
      of the four file names. */
  ghost predicate AvoidsFileNames(g: Group)
    decreases g
  {
    && g.name != [] && g.name !in FileNames
    && (forall i :: 0 <= i < |g.entries| ==> Title(g.entries[i]) !in FileNames)
    && (forall i :: 0 <= i < |g.groups| ==> AvoidsFileNames(g.groups[i]))
  }

  lemma SetChildFilesNamed(t: Tree, name: Bytes, c: Tree)
    requires FilesNamed(t) && FilesNamed(c) && (name !in FileNames ==> c.payload == Directory)
    ensures FilesNamed(SetChild(t, name, c))
  {
  }

  /** The attribute loop attaches files under file names only. */
  lemma {:induction false} AddFilesFilesNamed(d: Tree, e: Entry, n: nat)
    requires n <= |AttributeKeys| && FilesNamed(d)
    ensures FilesNamed(AddFiles(d, e, n))
    decreases n
  {
    if n > 0 {
      AddFilesFilesNamed(d, e, n - 1);
      var key := AttributeKeys[n - 1];
      var content := Content(e, key);
      if |content| > 0 {
        FileNamesAreLowerCasedKeys();
        assert ToLower(key) == FileNames[n - 1];
        SetChildFilesNamed(AddFiles(d, e, n - 1), ToLower(key), Leaf(FileNode(content, e.times)));
      }
    }
  }

  /** addEntry keeps every file under a file name. */
  lemma EntrySpecFilesNamed(t: Tree, e: Entry)
    requires FilesNamed(t)
    ensures FilesNamed(EntrySpec(t, e))
  {
    if Titled(e) {
      var before := GetOrCreate(t, Title(e));
      AddFilesFilesNamed(before, e, |AttributeKeys|);
      AddFilesEffect(before, e, |AttributeKeys|);
      SetChildFilesNamed(t, Title(e), AddFiles(before, e, |AttributeKeys|));
    }
  }

  lemma {:induction false} EntriesSpecFilesNamed(t: Tree, es: seq<Entry>)
    requires FilesNamed(t)
    ensures FilesNamed(EntriesSpec(t, es))
    decreases es
  {
    if es != [] {
      EntriesSpecFilesNamed(t, es[..|es| - 1]);
      EntrySpecFilesNamed(EntriesSpec(t, es[..|es| - 1]), es[|es| - 1]);
    }
  }

  /** addGroup keeps every file under a file name, whatever the group is called. */
  lemma {:induction false} GroupSpecFilesNamed(t: Tree, g: Group)
    requires FilesNamed(t)
    ensures FilesNamed(GroupSpec(t, g))
    decreases g
  {
    var dir := GetOrCreate(t, g.name);
    GroupsSpecFilesNamed(dir, g.groups);
    GroupsSpecKeys(dir, g.groups);
    EntriesSpecFilesNamed(GroupsSpec(dir, g.groups), g.entries);
    EntriesSpecKeys(GroupsSpec(dir, g.groups), g.entries);
    SetChildFilesNamed(t, g.name, EntriesSpec(GroupsSpec(dir, g.groups), g.entries));
  }

  lemma {:induction false} GroupsSpecFilesNamed(t: Tree, gs: seq<Group>)
    requires FilesNamed(t)
    ensures FilesNamed(GroupsSpec(t, gs))
    decreases gs
  {
    if gs != [] {
      GroupsSpecFilesNamed(t, gs[..|gs| - 1]);
      GroupSpecFilesNamed(GroupsSpec(t, gs[..|gs| - 1]), gs[|gs| - 1]);
    }
  }

  /** Under a directory whose files all hang under file names, the entry loop never
      panics when no title is a file name: every entry meets a directory. */
  lemma {:induction false} EntriesNoPanic(t: Tree, es: seq<Entry>)
    requires t.payload == Directory && FilesNamed(t)
    requires forall i :: 0 <= i < |es| ==> Title(es[i]) !in FileNames
    ensures !EntriesPanic(t, es)
    decreases es
  {
    if es != [] {
      var init := es[..|es| - 1];
      assert forall i :: 0 <= i < |init| ==> init[i] == es[i];
      EntriesNoPanic(t, init);
      EntriesSpecKeys(t, init);
      EntriesSpecFilesNamed(t, init);
    }
  }

  /** A group that avoids the file names never panics under such a directory. */
  lemma {:induction false} GroupNoPanic(t: Tree, g: Group)
    requires t.payload == Directory && FilesNamed(t) && AvoidsFileNames(g)
    ensures !GroupPanics(t, g)
    decreases g
  {
    var dir := GetOrCreate(t, g.name);
    GroupsNoPanic(dir, g.groups);
    GroupsSpecKeys(dir, g.groups);
    GroupsSpecFilesNamed(dir, g.groups);
    EntriesNoPanic(GroupsSpec(dir, g.groups), g.entries);
  }

  lemma {:induction false} GroupsNoPanic(t: Tree, gs: seq<Group>)
    requires t.payload == Directory && FilesNamed(t)
    requires forall i :: 0 <= i < |gs| ==> AvoidsFileNames(gs[i])
    ensures !GroupsPanic(t, gs)
    decreases gs
  {
    if gs != [] {
      var init := gs[..|gs| - 1];
      assert forall i :: 0 <= i < |init| ==> init[i] == gs[i];
      GroupsNoPanic(t, init);
      GroupsSpecFilesNamed(t, init);
      GroupsSpecKeys(t, init);
      GroupNoPanic(GroupsSpec(t, init), gs[|gs| - 1]);
    }
  }

  /** The mount completes whenever no group is unnamed and no group or entry is named
      username, password, notes or url. */
  lemma MountCompletesAvoidingFileNames(root: RootData)
    requires forall i :: 0 <= i < |root.groups| ==> AvoidsFileNames(root.groups[i])
    ensures !MountPanics(root)
  {
    GroupsNoPanic(EmptyDir, root.groups);
  }

  // ---------------------------------------------------------------- the guarded projection

  /** Every node that backs a file, t included, has no children. */
  ghost predicate LeafFiles(t: Tree)
    decreases t
  {
    && (t.payload.File? ==> t.children == map[])
    && forall n :: n in t.children ==> LeafFiles(t.children[n])
  }

  /** addEntry with a guard: an entry on which the code panics is skipped instead. */
  ghost function GuardedEntry(t: Tree, e: Entry): Tree {
    if EntryPanics(t, e) then t else EntrySpec(t, e)
  }

  ghost function GuardedEntries(t: Tree, es: seq<Entry>): Tree
    decreases es
  {
    if es == [] then t
    else GuardedEntry(GuardedEntries(t, es[..|es| - 1]), es[|es| - 1])
  }

  /** addGroup with a guard: a group whose directory cannot be attached (an empty name,
      or a parent that backs a file) is skipped instead, and so is everything below
      that would panic. */
  ghost function GuardedGroup(t: Tree, g: Group): Tree
    decreases g
  {
    if g.name !in t.children && (g.name == [] || t.payload.File?) then t
    else
      var dir := GetOrCreate(t, g.name);
      SetChild(t, g.name, GuardedEntries(GuardedGroups(dir, g.groups), g.entries))
  }

  ghost function GuardedGroups(t: Tree, gs: seq<Group>): Tree
    decreases gs
  {
    if gs == [] then t
    else GuardedGroup(GuardedGroups(t, gs[..|gs| - 1]), gs[|gs| - 1])
  }

  ghost function GuardedBuild(root: RootData): Tree {
    GuardedGroups(EmptyDir, root.groups)
  }

  /** Wherever the code does not panic, the guard changes nothing. */
  lemma {:induction false} GuardedEntriesAgree(t: Tree, es: seq<Entry>)
    requires !EntriesPanic(t, es)
    ensures GuardedEntries(t, es) == EntriesSpec(t, es)
    decreases es
  {
    if es != [] {
      GuardedEntriesAgree(t, es[..|es| - 1]);
    }
  }

  lemma {:induction false} GuardedGroupAgrees(t: Tree, g: Group)
    requires !GroupPanics(t, g)
    ensures GuardedGroup(t, g) == GroupSpec(t, g)
    decreases g
  {
    var dir := GetOrCreate(t, g.name);
    GuardedGroupsAgree(dir, g.groups);
    GuardedEntriesAgree(GroupsSpec(dir, g.groups), g.entries);
  }

  lemma {:induction false} GuardedGroupsAgree(t: Tree, gs: seq<Group>)
    requires !GroupsPanic(t, gs)
    ensures GuardedGroups(t, gs) == GroupsSpec(t, gs)
    decreases gs
  {
    if gs != [] {
      GuardedGroupsAgree(t, gs[..|gs| - 1]);
      GuardedGroupAgrees(GroupsSpec(t, gs[..|gs| - 1]), gs[|gs| - 1]);
    }
  }

  /** Adding a child keeps files leaves as long as the holder is a directory. */
  lemma SetChildLeafFiles(t: Tree, name: Bytes, c: Tree)
    requires LeafFiles(t) && LeafFiles(c) && t.payload == Directory
    ensures LeafFiles(SetChild(t, name, c))
  {
  }

  lemma {:induction false} AddFilesLeafFiles(d: Tree, e: Entry, n: nat)
    requires n <= |AttributeKeys| && LeafFiles(d) && d.payload == Directory
    ensures LeafFiles(AddFiles(d, e, n)) && AddFiles(d, e, n).payload == Directory
    decreases n
  {
    if n > 0 {
      AddFilesLeafFiles(d, e, n - 1);
      var content := Content(e, AttributeKeys[n - 1]);
      if |content| > 0 {
        SetChildLeafFiles(AddFiles(d, e, n - 1), ToLower(AttributeKeys[n - 1]), Leaf(FileNode(content, e.times)));
      }
    }
  }

  lemma GuardedEntryLeafFiles(t: Tree, e: Entry)
    requires LeafFiles(t)
    ensures LeafFiles(GuardedEntry(t, e))
  {
    if !EntryPanics(t, e) && Titled(e) {
      var d := GetOrCreate(t, Title(e));
      AddFilesEffect(d, e, |AttributeKeys|);
      if d.payload.File? {
        assert FilesOf(e) == {};
        assert AddFiles(d, e, |AttributeKeys|).children == d.children;
        assert AddFiles(d, e, |AttributeKeys|) == d;
      } else {
        AddFilesLeafFiles(d, e, |AttributeKeys|);
      }
      SetChildLeafFiles(t, Title(e), AddFiles(d, e, |AttributeKeys|));
    }
  }

  lemma {:induction false} GuardedEntriesLeafFiles(t: Tree, es: seq<Entry>)
    requires LeafFiles(t)
    ensures LeafFiles(GuardedEntries(t, es))
    decreases es
  {
    if es != [] {
      GuardedEntriesLeafFiles(t, es[..|es| - 1]);
      GuardedEntryLeafFiles(GuardedEntries(t, es[..|es| - 1]), es[|es| - 1]);
    }
  }

  lemma {:induction false} GuardedGroupLeafFiles(t: Tree, g: Group)
    requires LeafFiles(t)
    ensures LeafFiles(GuardedGroup(t, g))
    decreases g
  {
    if !(g.name !in t.children && (g.name == [] || t.payload.File?)) {
      var dir := GetOrCreate(t, g.name);
      GuardedGroupsLeafFiles(dir, g.groups);
      GuardedEntriesLeafFiles(GuardedGroups(dir, g.groups), g.entries);
      SetChildLeafFiles(t, g.name, GuardedEntries(GuardedGroups(dir, g.groups), g.entries));
    }
  }

  lemma {:induction false} GuardedGroupsLeafFiles(t: Tree, gs: seq<Group>)
    requires LeafFiles(t)
    ensures LeafFiles(GuardedGroups(t, gs))
    decreases gs
  {
    if gs != [] {
      GuardedGroupsLeafFiles(t, gs[..|gs| - 1]);
      GuardedGroupLeafFiles(GuardedGroups(t, gs[..|gs| - 1]), gs[|gs| - 1]);
    }
  }

  /** The guarded mount never hangs anything below a file, and wherever the code
      completes it builds the same tree. */
  lemma GuardedBuildCorrect(root: RootData)
    ensures LeafFiles(GuardedBuild(root))
    ensures !MountPanics(root) ==> GuardedBuild(root) == Build(root)
  {
    GuardedGroupsLeafFiles(EmptyDir, root.groups);
    if !MountPanics(root) {
      GuardedGroupsAgree(EmptyDir, root.groups);
    }
  }

  /** Resolving a path in two steps. */
  lemma {:induction false} ResolveAppend(t: Tree, a: Path, b: Path)
    ensures Resolve(t, a + b) == if Resolve(t, a).Some? then Resolve(Resolve(t, a).value, b) else None
    decreases a
  {
    if a == [] {
      assert a + b == b;
    } else {
      assert (a + b)[0] == a[0];
      assert (a + b)[1..] == a[1..] + b;
      if a[0] in t.children {
        ResolveAppend(t.children[a[0]], a[1..], b);
      }
    }
  }
}
