/** Worked vaults: a top-level group "Passwords" holding one entry "Bank" with a user
    name and a password and no notes or URL; two vaults on which OnAdd panics; and one
    with the same clash on which it completes. */
module Scenario {
  import opened Vault
  import opened FileOps
  import opened Projection
  import opened Wrappers

  const PasswordsName: Bytes := [0x50, 0x61, 0x73, 0x73, 0x77, 0x6F, 0x72, 0x64, 0x73] // "Passwords"
  const BankName: Bytes := [0x42, 0x61, 0x6E, 0x6B]                                    // "Bank"
  const Alice: Bytes := [0x61, 0x6C, 0x69, 0x63, 0x65]                                // "alice"
  const Secret: Bytes := [0x73, 0x65, 0x63, 0x72, 0x65, 0x74, 0x31, 0x32, 0x33]       // "secret123"

  function BankEntry(t: Times): Entry {
    Entry(map[TitleKey := BankName, UserNameKey := Alice, PasswordKey := Secret], t)
  }

  function BankVault(t: Times): RootData {
    RootData([Group(PasswordsName, [], [BankEntry(t)])])
  }

  /** The mount holds exactly Passwords/Bank/username with "alice" and
      Passwords/Bank/password with "secret123", both carrying the entry's times, and
      neither a notes nor a url file. */
  lemma BankVaultTree(t: Times)
    ensures !MountPanics(BankVault(t))
    ensures Build(BankVault(t)).children.Keys == {PasswordsName}
    ensures var g := Build(BankVault(t)).children[PasswordsName];
      && g.payload == Directory && g.children.Keys == {BankName}
      && g.children[BankName].payload == Directory
      && g.children[BankName].children ==
           map[UserNameFile := Leaf(FileNode(Alice, t)), PasswordFile := Leaf(FileNode(Secret, t))]
  {
    var e := BankEntry(t);
    assert Title(e) == BankName;
    assert Content(e, UrlKey) == [] && Content(e, NotesKey) == [];
    FileNamesAreLowerCasedKeys();
    assert Content(e, UserNameKey) == Alice && Content(e, PasswordKey) == Secret;
    var one := SetChild(EmptyDir, UserNameFile, Leaf(FileNode(Alice, t)));
    var two := SetChild(one, PasswordFile, Leaf(FileNode(Secret, t)));
    assert AddFiles(EmptyDir, e, 1) == one;
    assert AddFiles(EmptyDir, e, 2) == two;
    assert AddFiles(EmptyDir, e, 3) == two;
    var files := AddFiles(EmptyDir, e, |AttributeKeys|);
    assert files == two;
    assert files == Tree(map[UserNameFile := Leaf(FileNode(Alice, t)), PasswordFile := Leaf(FileNode(Secret, t))], Directory);
    var g := BankVault(t).groups[0];
    assert GroupsSpec(EmptyDir, g.groups) == EmptyDir;
    assert EntriesSpec(EmptyDir, g.entries) == EntrySpec(EmptyDir, e);
    assert GroupsSpec(EmptyDir, BankVault(t).groups) == GroupSpec(EmptyDir, g);
    assert !MountPanics(BankVault(t)) by {
      assert BankVault(t).groups[..0] == [] && g.entries[..0] == [];
      assert !EntryPanics(EmptyDir, e);
      assert !EntriesPanic(EmptyDir, g.entries);
      assert !GroupPanics(EmptyDir, g);
    }
  }

  const A: Bytes := [0x41] // "A"
  const B: Bytes := [0x42] // "B"
  const X: Bytes := [0x78] // "x"

  /** Two top-level groups called A. The first holds an entry B with a user name, so
      A/B/username is a file. The second holds a subgroup B, which reuses the entry's
      directory, with a subgroup username, which reuses that file, holding an entry x. */
  function ClashVault(t: Times): RootData {
    var first := Group(A, [], [Entry(map[TitleKey := B, UserNameKey := Alice], t)]);
    var inner := Group(UserNameFile, [], [Entry(map[TitleKey := X], t)]);
    var second := Group(A, [Group(B, [inner], [])], []);
    RootData([first, second])
  }

  /** OnAdd panics on ClashVault: entry x meets the file A/B/username as its parent and
      has to create its directory there. Past that point the tree functions keep going
      and hang a directory x below the file. */
  lemma FileParentPanics(t: Times)
    ensures MountPanics(ClashVault(t))
    ensures var f := Resolve(Build(ClashVault(t)), [A, B, UserNameFile]);
      f.Some? && f.value.payload == File(FileNode(Alice, t)) && X in f.value.children
  {
    var root := ClashVault(t);
    var first, second := root.groups[0], root.groups[1];
    var e := first.entries[0];
    var bGroup := second.groups[0];
    var inner := bGroup.groups[0];
    var x := inner.entries[0];
    FileNamesAreLowerCasedKeys();
    assert Title(e) == B && Content(e, UserNameKey) == Alice;
    assert Content(e, PasswordKey) == [] && Content(e, NotesKey) == [] && Content(e, UrlKey) == [];
    var file := Leaf(FileNode(Alice, t));
    var bDir := SetChild(EmptyDir, UserNameFile, file);
    assert AddFiles(EmptyDir, e, 1) == bDir;
    assert AddFiles(EmptyDir, e, 2) == bDir;
    assert AddFiles(EmptyDir, e, 3) == bDir;
    assert AddFiles(EmptyDir, e, |AttributeKeys|) == bDir;
    var aDir := SetChild(EmptyDir, B, bDir);
    assert EntriesSpec(EmptyDir, first.entries) == EntrySpec(EmptyDir, e) == aDir;
    var t1 := SetChild(EmptyDir, A, aDir);
    assert GroupsSpec(EmptyDir, root.groups[..1]) == GroupSpec(EmptyDir, first) == t1;
    assert root.groups[..1] == [first];
    assert !GroupsPanic(EmptyDir, [first]) by {
      assert [first][..0] == [] && first.entries[..0] == [];
      assert !EntryPanics(EmptyDir, e);
      assert !EntriesPanic(EmptyDir, first.entries);
      assert !GroupPanics(EmptyDir, first);
    }
    // The second A: B is the entry directory, username is the file.
    assert GetOrCreate(t1, A) == aDir && GetOrCreate(aDir, B) == bDir && GetOrCreate(bDir, UserNameFile) == file;
    assert Title(x) == X;
    assert EntryPanics(file, x);
    assert EntriesPanic(file, inner.entries) by {
      assert inner.entries[..0] == [];
    }
    assert GroupPanics(bDir, inner) by {
      assert GroupsSpec(file, inner.groups) == file;
    }
    assert GroupsPanic(bDir, bGroup.groups) by {
      assert bGroup.groups[..0] == [];
    }
    assert GroupPanics(aDir, bGroup);
    assert GroupsPanic(aDir, second.groups) by {
      assert second.groups[..0] == [];
    }
    assert GroupPanics(t1, second);
    assert MountPanics(root);
    // What the tree functions build past the panic.
    var xDir := AddFiles(EmptyDir, x, |AttributeKeys|);
    var file' := SetChild(file, X, xDir);
    assert EntriesSpec(file, inner.entries) == EntrySpec(file, x) == file';
    assert GroupSpec(bDir, inner) == SetChild(bDir, UserNameFile, file');
    var bDir' := SetChild(bDir, UserNameFile, file');
    assert GroupsSpec(bDir, bGroup.groups) == bDir';
    assert GroupSpec(aDir, bGroup) == SetChild(aDir, B, bDir');
    var aDir' := SetChild(aDir, B, bDir');
    assert GroupsSpec(aDir, second.groups) == aDir';
    assert GroupSpec(t1, second) == SetChild(t1, A, aDir');
    var t2 := SetChild(t1, A, aDir');
    assert Build(root) == t2;
    assert Resolve(file', []) == Some(file');
    assert Resolve(bDir', [UserNameFile]) == Some(file') by {
      assert [UserNameFile][1..] == [];
    }
    assert Resolve(aDir', [B, UserNameFile]) == Some(file') by {
      assert [B, UserNameFile][1..] == [UserNameFile];
    }
    assert Resolve(t2, [A, B, UserNameFile]) == Some(file') by {
      assert [A, B, UserNameFile][1..] == [B, UserNameFile];
    }
  }

  /** Two top-level groups called A. The first holds an entry B with a user name, so
      A/B/username is a file. The second holds a subgroup B, which reuses the entry's
      directory, holding an entry titled username with a password. */
  function FileTitleVault(t: Times): RootData {
    var first := Group(A, [], [Entry(map[TitleKey := B, UserNameKey := Alice], t)]);
    var inner := Entry(map[TitleKey := UserNameFile, PasswordKey := Secret], t);
    var second := Group(A, [Group(B, [], [inner])], []);
    RootData([first, second])
  }

  /** OnAdd panics on FileTitleVault: the entry titled username reuses the file
      A/B/username as its directory, and attaching its password file to it panics in
      AddChild. No group is named like a file here. */
  lemma FileEntryDirPanics(t: Times)
    ensures MountPanics(FileTitleVault(t))
  {
    var root := FileTitleVault(t);
    var first, second := root.groups[0], root.groups[1];
    var e := first.entries[0];
    var bGroup := second.groups[0];
    var y := bGroup.entries[0];
    FileNamesAreLowerCasedKeys();
    assert Title(e) == B && Content(e, UserNameKey) == Alice;
    assert Content(e, PasswordKey) == [] && Content(e, NotesKey) == [] && Content(e, UrlKey) == [];
    var file := Leaf(FileNode(Alice, t));
    var bDir := SetChild(EmptyDir, UserNameFile, file);
    assert AddFiles(EmptyDir, e, 1) == bDir;
    assert AddFiles(EmptyDir, e, 2) == bDir;
    assert AddFiles(EmptyDir, e, 3) == bDir;
    assert AddFiles(EmptyDir, e, |AttributeKeys|) == bDir;
    var aDir := SetChild(EmptyDir, B, bDir);
    assert EntriesSpec(EmptyDir, first.entries) == EntrySpec(EmptyDir, e) == aDir;
    var t1 := SetChild(EmptyDir, A, aDir);
    assert GroupsSpec(EmptyDir, root.groups[..1]) == GroupSpec(EmptyDir, first) == t1;
    assert root.groups[..1] == [first];
    assert GetOrCreate(t1, A) == aDir && GetOrCreate(aDir, B) == bDir;
    assert Title(y) == UserNameFile && Content(y, PasswordKey) == Secret;
    assert PasswordFile in FilesOf(y) by {
      assert |Content(y, AttributeKeys[1])| > 0;
    }
    assert EntryPanics(bDir, y);
    assert EntriesPanic(bDir, bGroup.entries) by {
      assert bGroup.entries[..0] == [];
    }
    assert GroupsSpec(bDir, bGroup.groups) == bDir;
    assert GroupPanics(aDir, bGroup);
    assert GroupsPanic(aDir, second.groups) by {
      assert second.groups[..0] == [];
    }
    assert GroupPanics(t1, second);
    assert MountPanics(root);
  }

  /** Two top-level groups called A, as in ClashVault, except that the clashing
      subgroup username is empty and the clashing entry titled username has no value. */
  function QuietClashVault(t: Times): RootData {
    var first := Group(A, [], [Entry(map[TitleKey := B, UserNameKey := Alice], t)]);
    var inner := Group(UserNameFile, [], []);
    var quiet := Entry(map[TitleKey := UserNameFile], t);
    var second := Group(A, [Group(B, [inner], [quiet])], []);
    RootData([first, second])
  }

  /** A group or an entry that reuses the file A/B/username does not panic when it has
      nothing to put there: OnAdd completes on QuietClashVault, and the second A adds
      nothing to what the first one built. */
  lemma QuietClashCompletes(t: Times)
    ensures !MountPanics(QuietClashVault(t))
    ensures Build(QuietClashVault(t)) == Build(RootData(QuietClashVault(t).groups[..1]))
  {
    var root := QuietClashVault(t);
    var first, second := root.groups[0], root.groups[1];
    var e := first.entries[0];
    var bGroup := second.groups[0];
    var inner := bGroup.groups[0];
    var y := bGroup.entries[0];
    FileNamesAreLowerCasedKeys();
    assert Title(e) == B && Content(e, UserNameKey) == Alice;
    assert Content(e, PasswordKey) == [] && Content(e, NotesKey) == [] && Content(e, UrlKey) == [];
    var file := Leaf(FileNode(Alice, t));
    var bDir := SetChild(EmptyDir, UserNameFile, file);
    assert AddFiles(EmptyDir, e, 1) == bDir;
    assert AddFiles(EmptyDir, e, 2) == bDir;
    assert AddFiles(EmptyDir, e, 3) == bDir;
    assert AddFiles(EmptyDir, e, |AttributeKeys|) == bDir;
    var aDir := SetChild(EmptyDir, B, bDir);
    assert EntriesSpec(EmptyDir, first.entries) == EntrySpec(EmptyDir, e) == aDir;
    var t1 := SetChild(EmptyDir, A, aDir);
    assert GroupsSpec(EmptyDir, root.groups[..1]) == GroupSpec(EmptyDir, first) == t1;
    assert root.groups[..1] == [first];
    assert !GroupsPanic(EmptyDir, [first]) by {
      assert [first][..0] == [] && first.entries[..0] == [];
      assert !EntryPanics(EmptyDir, e);
      assert !EntriesPanic(EmptyDir, first.entries);
      assert !GroupPanics(EmptyDir, first);
    }
    assert GetOrCreate(t1, A) == aDir && GetOrCreate(aDir, B) == bDir && GetOrCreate(bDir, UserNameFile) == file;
    // The empty subgroup username reuses the file and leaves it as it is.
    assert !GroupPanics(bDir, inner);
    assert GroupSpec(bDir, inner) == bDir;
    assert !GroupsPanic(bDir, bGroup.groups) by {
      assert bGroup.groups[..0] == [];
    }
    assert GroupsSpec(bDir, bGroup.groups) == bDir;
    // The entry titled username reuses the file and attaches nothing to it.
    assert Title(y) == UserNameFile;
    assert Content(y, UserNameKey) == [] && Content(y, PasswordKey) == [] && Content(y, NotesKey) == [] && Content(y, UrlKey) == [];
    assert AddFiles(file, y, 1) == file;
    assert AddFiles(file, y, 2) == file;
    assert AddFiles(file, y, 3) == file;
    assert AddFiles(file, y, |AttributeKeys|) == file;
    assert FilesUpTo(y, |AttributeKeys|) == {};
    assert !EntryPanics(bDir, y);
    assert !EntriesPanic(bDir, bGroup.entries) by {
      assert bGroup.entries[..0] == [];
    }
    assert EntriesSpec(bDir, bGroup.entries) == EntrySpec(bDir, y) == bDir;
    assert !GroupPanics(aDir, bGroup);
    assert GroupSpec(aDir, bGroup) == aDir;
    assert !GroupsPanic(aDir, second.groups) by {
      assert second.groups[..0] == [];
    }
    assert GroupsSpec(aDir, second.groups) == aDir;
    assert !GroupPanics(t1, second);
    assert GroupSpec(t1, second) == t1;
    assert !MountPanics(root);
  }
}
