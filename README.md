# kdfs projection engine, modelled in Dafny

kdfs mounts a KeePass (KDBX) vault as a read-only FUSE filesystem. Its core,
`internal/kdfs/kdfs.go`, projects the decrypted vault onto a tree of inodes:

- every group becomes a directory named after the group;
- every entry with a non-empty title becomes a directory named after the title,
  inside its group's directory;
- every non-empty `UserName`, `Password`, `Notes` and `URL` value of an entry becomes
  a file named by the lower-cased key (`username`, `password`, `notes`, `url`)
  inside the entry's directory.

A directory is found by name when it already exists and created otherwise. Files are
attached with overwrite. go-fuse's `AddChild` panics on an empty name and on a holder
inode made as a regular file, which is how every attribute file is made; addEntry's
type assertion on its parent panics on a file too. A group or an entry may reuse an
attribute file of its name as its directory. Such a group stops the mount with a panic
only when it has a subgroup or a titled entry to put there, and such an entry only
when it has a non-empty value to attach; otherwise nothing happens there. A file
answers three requests: `Getattr` (synthetic metadata), `Open` (constant flags) and
`Read` (a slice of its bytes).

The Dafny project has these modules:

- `Vault` (`vault.dfy`): the vault as values. `Entry`, `Group`, `RootData`, the
  attribute keys, and `GetContent`/`GetTitle`. Go strings are byte strings, so every
  name and value is a `seq<bv8>`.
- `FileOps` (`file_ops.dfy`): the file node and its three requests. `Read` comes in
  two forms: as written (`ReadAsWritten`) and with the missing guard (`Read`).
- `Projection` (`projection.dfy`): the projected filesystem as a value (`Tree`), and
  the effect of `addEntry`, `addGroup` and `OnAdd` on it as pure functions
  (`EntrySpec`, `GroupSpec`, `GroupsSpec`, `EntriesSpec`, `Build`). Lemmas about
  these functions state the properties of the projection. The predicates
  `EntryPanics`, `EntriesPanic`, `GroupPanics`, `GroupsPanic` and `MountPanics` say
  where the code panics; where it does not, it builds what the functions compute.
  `GuardedBuild` is the corrected projection, which skips what would panic.
- `Kdfs` (`inode_tree.dfy`): the imperative construction.
  - `KdfsRoot` is a class whose inodes live in an arena (`seq<Inode>`, the root
    inode at number 0), with a ghost parent number per inode.
  - `GetChild`, `NewPersistentInode` and `AddChild` model the go-fuse inode
    operations the code calls.
  - `AddEntry`, `AddGroup` and `OnAdd` are methods with the source's loops and
    recursion. Each one is proved to change the subtree under its parent inode
    exactly as the matching `Projection` function says, and to change no inode
    outside that subtree. Each returns `ok` false exactly where the code panics,
    given go-fuse's `AddChild` as described above.
  - `Mount` creates the root and runs `OnAdd`. Unless it panics, the mounted tree is
    `Build(root)`.
- `Oracle` (`oracle.dfy`): `collectExpectedFiles` of the mount test as pure
  functions. It also holds the theorem that the mounted tree meets every
  expectation of the test.
- `Scenario` (`scenario.dfy`): a one-group, one-entry vault, and the exact tree it
  yields; two vaults on which the mount panics; and a vault with the same name clash
  on which it completes.
- `Wrappers` (`wrappers.dfy`): `Option`.

## Model

| member | source | states |
|---|---|---|
| FileOps.ReadAsWritten | internal/kdfs/kdfs.go:68-74 | Read as written succeeds exactly when off <= len(data); past the end the unguarded slice panics. On success it returns min(len(dest), len(data)-off) bytes, and the i-th is data[off+i]. |
| FileOps.Read | internal/kdfs/kdfs.go:68-74 | Read with the guard: zero bytes when off >= len(data); otherwise min(len(dest), len(data)-off) bytes copied from data[off:]. Never longer than dest, never padded. |
| FileOps.ReadPastEndPanics | internal/kdfs/kdfs.go:72-73 | A one-byte read at offset 1 of an empty file panics as written and reads nothing once guarded. |
| FileOps.ReadAgreesWhereDefined | internal/kdfs/kdfs.go:72-73 | Wherever the handler as written does not panic, the guarded Read returns the same bytes. |
| FileOps.ReadFromReassembles | internal/kdfs/kdfs.go:68-74 | Consecutive reads of any positive chunk size, from off until a read returns nothing, reassemble exactly data[off:]. |
| FileOps.Uint64 | internal/kdfs/kdfs.go:48-50 | uint64 of an int64 timestamp is below 2^64, keeps every non-negative int64 value and adds 2^64 to a negative one. |
| FileOps.Getattr | internal/kdfs/kdfs.go:43-58 | The reported attributes are: mode 0o7777; one link; size = len(data); block size 512; blocks = ceil(size/512), so blocks*512 >= size, (blocks-1)*512 < size when size > 0, and blocks = 0 iff size = 0; mtime, atime and ctime are the owning entry's three times. |
| FileOps.Open | internal/kdfs/kdfs.go:60-66 | Open returns the file itself as the handle. The flag word has every bit of FOPEN_CACHE_DIR and of O_ANYWRITE and no other bit, whatever flags were passed in. |
| Projection.FileNamesAreLowerCasedKeys | internal/kdfs/kdfs.go:88-96 | Lower-casing UserName, Password, Notes and URL gives username, password, notes and url, and these four names are pairwise different. |
| Projection.AddFilesEffect | internal/kdfs/kdfs.go:88-101 | After the attribute loop has visited the first n keys, the entry directory's children are its old ones plus one file per visited key with a non-empty value, and no other. Each such file holds that value and the entry's times. Other children are untouched. |
| Projection.EntrySpecEffect | internal/kdfs/kdfs.go:76-102 | addEntry where it does not panic (where it does is EntryPanics). An untitled entry leaves the parent unchanged. A titled one adds only its title to the parent and touches no sibling. It reuses the existing child of that name, or creates a directory. That directory keeps what it held and gains exactly the files of the entry's non-empty keys, each holding its value and the entry's times. |
| Projection.EntryFilesShareTimes | internal/kdfs/kdfs.go:48-50 | Any two attribute files of one entry report the same mtime, atime and ctime: those of the entry. |
| Projection.SameTitleLastWins | internal/kdfs/kdfs.go:82-99 | Two entries with one title share one directory. A non-empty value of the later entry replaces the earlier file of that name. The earlier file stays where the later value is empty. |
| Projection.EntriesSpecKeys | internal/kdfs/kdfs.go:113-115 | The entry loop adds to a directory exactly the titles of its titled entries and keeps its payload. |
| Projection.GroupsSpecKeys | internal/kdfs/kdfs.go:110-112 | The subgroup loop adds to a directory exactly the names of the groups and keeps its payload. |
| Projection.GroupSpecEffect | internal/kdfs/kdfs.go:104-116 | Where it does not panic (GroupPanics), addGroup adds only the group's name to the parent and touches no sibling. It reuses the existing child, with its payload, or creates a directory, even for an empty group. Afterwards that directory holds what it held before, plus the subgroup names and the titles of the titled entries, and nothing else. |
| Projection.GroupAndEntryMerge | internal/kdfs/kdfs.go:82-86 | Groups and entries share one namespace: an entry titled like a group adds its files to the group's directory, next to the group's own children. |
| Projection.UntitledEntriesAddNothing | internal/kdfs/kdfs.go:77-81 | Removing the untitled entries from the entry loop leaves its result unchanged. |
| Projection.UntitledEntriesAddNothingBelow | internal/kdfs/kdfs.go:104-116 | Removing every untitled entry, at every depth below a group, leaves addGroup's result unchanged. |
| Projection.UntitledGroupsAddNothing | internal/kdfs/kdfs.go:110-112 | The same holds for a sequence of groups. |
| Projection.UntitledEntriesInvisible | internal/kdfs/kdfs.go:120-126 | The mounted tree does not depend on the vault's untitled entries: they yield no node anywhere. |
| Projection.EntriesPanicGrows | internal/kdfs/kdfs.go:113-115 | A panic at some entry is a panic of the whole entry loop, whatever entries follow. |
| Projection.GroupsPanicGrows | internal/kdfs/kdfs.go:110-112 | A panic in some group is a panic of the whole group loop, whatever groups follow. |
| Projection.AddFilesFilesNamed | internal/kdfs/kdfs.go:88-101 | The attribute loop attaches files only under the names username, password, notes and url. |
| Projection.EntrySpecFilesNamed | internal/kdfs/kdfs.go:76-102 | addEntry keeps every node that backs a file under one of those four names. |
| Projection.EntriesSpecFilesNamed | internal/kdfs/kdfs.go:113-115 | The same holds for the entry loop. |
| Projection.GroupSpecFilesNamed | internal/kdfs/kdfs.go:104-116 | The same holds for addGroup, whatever the group is called. |
| Projection.GroupsSpecFilesNamed | internal/kdfs/kdfs.go:110-112 | The same holds for a sequence of groups. |
| Projection.EntriesNoPanic | internal/kdfs/kdfs.go:76-102 | Under a directory whose files all hang under the four file names, the entry loop never panics when no title is one of those names: every entry meets a directory, both at the type assertion and at AddChild of its files. |
| Projection.GroupNoPanic | internal/kdfs/kdfs.go:104-116 | A group whose name and whose subgroups' names, at any depth, are non-empty, and none of whose groups or entries is named username, password, notes or url, never panics under such a directory. |
| Projection.GroupsNoPanic | internal/kdfs/kdfs.go:110-112 | The same holds for a sequence of such groups. |
| Projection.MountCompletesAvoidingFileNames | internal/kdfs/kdfs.go:120-126 | OnAdd completes whenever no group at any depth is unnamed and no group or entry is named username, password, notes or url. |
| Projection.GuardedEntriesAgree | internal/kdfs/kdfs.go:113-115 | Where the entry loop does not panic, the loop that skips panicking entries builds the same tree. |
| Projection.GuardedGroupAgrees | internal/kdfs/kdfs.go:104-116 | Where addGroup does not panic, the guarded addGroup builds the same tree. |
| Projection.GuardedGroupsAgree | internal/kdfs/kdfs.go:110-112 | The same holds for the subgroup loop. |
| Projection.AddFilesLeafFiles | internal/kdfs/kdfs.go:88-101 | The attribute loop on a directory keeps it a directory and attaches only childless files. |
| Projection.GuardedEntryLeafFiles | internal/kdfs/kdfs.go:76-102 | The guarded addEntry never hangs anything below a file. |
| Projection.GuardedEntriesLeafFiles | internal/kdfs/kdfs.go:113-115 | The same holds for the guarded entry loop. |
| Projection.GuardedGroupLeafFiles | internal/kdfs/kdfs.go:104-116 | The same holds for the guarded addGroup. |
| Projection.GuardedGroupsLeafFiles | internal/kdfs/kdfs.go:110-112 | The same holds for the guarded subgroup loop. |
| Projection.GuardedBuildCorrect | internal/kdfs/kdfs.go:120-126 | The guarded mount never hangs anything below a file, and wherever the code completes (no MountPanics) it builds the same tree as the code. |
| Kdfs.KdfsRoot.constructor | internal/kdfs/server.go:29 | A new kdfsRoot holds the vault root and a single root inode with no children. |
| Kdfs.KdfsRoot.GetChild | internal/kdfs/kdfs.go:82 | GetChild finds a child exactly when the name is a child of the inode. The child found is that name's subtree, and was created under that inode. |
| Kdfs.KdfsRoot.NewPersistentInode | internal/kdfs/kdfs.go:84 | NewPersistentInode adds one inode, with no children, at the end of the arena. It leaves every existing subtree as it was. |
| Kdfs.KdfsRoot.AddChild | internal/kdfs/kdfs.go:85 | AddChild with overwrite panics (ok false) exactly on an empty name or a holder that backs a file, and then nothing changes. Otherwise c becomes the child called name, replacing any old child of that name, and only the holder inode changes. |
| Kdfs.KdfsRoot.AttachNew | internal/kdfs/kdfs.go:95-98 | A new inode is added, and the arena grows by one inode. It becomes the child called name of p, unless AddChild panics (ok false: an empty name, or p backs a file) and p stays as it was. No other existing inode changes. |
| Kdfs.KdfsRoot.ChildDir | internal/kdfs/kdfs.go:82-86 | Get-or-create. An existing child is reused and no inode is created. Otherwise one directory inode is added under that name. That panics (ok false) when the name is empty or p backs a file; addEntry's call then panics at the type assertion before creating anything, so nothing changes. No other existing inode changes. |
| Kdfs.KdfsRoot.AddEntry | internal/kdfs/kdfs.go:76-102 | addEntry panics (ok false) exactly when EntryPanics holds: the entry has a title, and either p has no child of that name and backs a file, or that child backs a file and the entry has a non-empty value. Then no existing inode changes. Otherwise the subtree under p becomes EntrySpec of its old value. Only inodes created under p change. |
| Kdfs.KdfsRoot.AttachFiles | internal/kdfs/kdfs.go:88-101 | The attribute loop panics (ok false) exactly when the entry directory backs a file and the entry has a non-empty value; then no existing inode changes. Otherwise the directory becomes AddFiles of its old value. No other existing inode changes. |
| Kdfs.KdfsRoot.AddGroup | internal/kdfs/kdfs.go:104-116 | addGroup panics exactly when GroupPanics holds of the old subtree under p: its directory has to be created under an empty name or below a file, or a subgroup or entry panics. Otherwise that subtree becomes GroupSpec of its old value. Either way only inodes created under p change. |
| Kdfs.KdfsRoot.AddGroups | internal/kdfs/kdfs.go:110-112 | The subgroup loop panics exactly when GroupsPanic holds, and otherwise turns the subtree under p into GroupsSpec of its old value. Only inodes created under p change. |
| Kdfs.KdfsRoot.AddEntries | internal/kdfs/kdfs.go:113-115 | The entry loop panics exactly when EntriesPanic holds, and otherwise turns the subtree under p into EntriesSpec of its old value. Only inodes created under p change. |
| Kdfs.KdfsRoot.OnAdd | internal/kdfs/kdfs.go:120-126 | OnAdd panics exactly when GroupsPanic holds of the root over the top-level groups. Otherwise it turns the root's tree into GroupsSpec of the old one over those groups, in order. |
| Kdfs.Mount | internal/kdfs/server.go:29-30 | Populating the mounted root panics exactly when MountPanics(root) holds. Otherwise the root holds Build(root). |
| Oracle.EntriesChild | internal/kdfs/kdfs.go:113-115 | An entry whose title is new to the directory and shared with no other entry gets a directory holding its own files only. |
| Oracle.EntriesSpecOther | internal/kdfs/kdfs.go:113-115 | The entry loop leaves alone every child not named by a title. |
| Oracle.GroupsChild | internal/kdfs/kdfs.go:110-112 | A group whose name is new and unshared gets the directory it would get on its own. |
| Oracle.CollectValuesPresent | tests/mount_ronly_test.go:19-37 | Every file the test expects of an entry exists in its directory and holds exactly the expected value. |
| Oracle.CollectEntriesPresent | tests/mount_ronly_test.go:13-39 | The same holds for every titled entry of a group. |
| Oracle.CollectPresent | tests/mount_ronly_test.go:12-46 | Every path collectExpectedFiles records below a group's directory is present, with the expected contents for files. |
| Oracle.CollectGroupsPresent | tests/mount_ronly_test.go:41-45 | The same holds for every subgroup, including the subgroup directory itself. |
| Oracle.MountMeetsExpectation | tests/mount_ronly_test.go:60-93 | The tree OnAdd builds meets the mount test's expectation. Every expected path exists, and every expected file holds exactly the expected bytes. The hypothesis is that sibling names do not collide. |
| Scenario.BankVaultTree | internal/kdfs/kdfs.go:76-126 | The vault Passwords / Bank (UserName alice, Password secret123) mounts as exactly Passwords/Bank/username holding alice and Passwords/Bank/password holding secret123. There is no notes or url file, and the mount does not panic. |
| Scenario.FileParentPanics | internal/kdfs/kdfs.go:82-86 | On two top-level groups A, one holding entry B with a user name and the other holding subgroup B with subgroup username holding entry x, the mount panics: entry x meets the file A/B/username as its parent. Past that point the tree functions hang a directory x below the file. |
| Scenario.FileEntryDirPanics | internal/kdfs/kdfs.go:95-98 | On two top-level groups A, one holding entry B with a user name and the other holding subgroup B with an entry titled username that has a password, the mount panics: the entry reuses the file A/B/username as its directory, and attaching its password file to that file panics. |
| Scenario.QuietClashCompletes | internal/kdfs/kdfs.go:104-116 | When the subgroup username reusing the file A/B/username is empty, and the entry titled username has no value, the mount does not panic, and the second group A adds nothing to the tree the first one built. |

## Left out

- cmd/main/main.go and cmd/main/kdfs.go are not part of this model: argument parsing, terminal password input, daemonisation and signal handling are process plumbing.
- internal/kdbx/kdbx.go is not part of this model: opening and decrypting the vault is I/O in gokeepasslib. The vault is taken as a given `RootData` value.
- internal/kdfs/server.go is modelled only at lines 29-30. `Mount` creates the root and runs `OnAdd` at once, as go-fuse does inside `fs.Mount`. That is before cmd/main/main.go:100 locks the vault again, so the files hold the unlocked values. `Unmount`, `Wait` and the error wrapping are not modelled.
- pkg/multih/multih.go and every `slog` call: logging only.
- The `sync.RWMutex` fields are never used by the code. Concurrent requests are not modelled.
- Times are taken as Unix seconds. The conversion from `time.Time` is not modelled.
- The `group` field of `kdfsDir` is not modelled. kdfs.go:84 reads the parent's field only to copy it into a new entry directory, and nothing reads the copy. The type assertion on that read is modelled, by `EntryPanics`.
- The root inode is a `kdfsRoot`, on which the type assertion at kdfs.go:84 would also fail. addEntry is never called on it, because OnAdd calls only addGroup. The model gives the root a `Directory` payload.
- The `entry` field of `kdfsFile` is not modelled: a file node carries a copy of the entry's times instead.
- Go 1.22 per-iteration loop variables are assumed; go.mod is not part of this model. addGroup passes `&entry` (kdfs.go:114), addEntry stores it in `kdfsFile.entry` (kdfs.go:94), and Getattr reads it after OnAdd (kdfs.go:48-50). With an older `go` line, all entries of a group share one variable, and every file of the group reports the times of the group's last entry.
- go-fuse inode numbering and `StableAttr` modes are not modelled. A node is a `Directory` or a `File` payload. Directory attributes, `Lookup` and `Readdir` are go-fuse's, not this code's.
- go-fuse is not part of this model. The model takes from it that `AddChild` panics on an empty name and on a holder inode made without `S_IFDIR`, which has no children map, and that `GetChild` finds nothing in such an inode. A name containing `/` is not rejected; names are arbitrary byte strings.
- Entry values are a map from key to value. A vault entry that lists the same key twice is not modelled. `GetContent` returns the value or the empty string.
- The test's loop over `entry.Values` is modelled as a pass over the four keys in fixed order. With unique keys, each key writes a different path, so the order does not matter.
- `filepath.Join` path cleaning is not modelled. Paths are sequences of names relative to the mount point. `filepath.Walk` and `os.ReadFile` are modelled by `Resolve` and by the file's data; `ReadFromReassembles` shows that chunked reads return exactly that data.
- Oracle.MountMeetsExpectation: proved only when sibling names do not collide below the first top-level group, and no other top-level group shares its name. With collisions the expectation can be unmeetable. Example: a group holds an entry T with a user name and a subgroup T, and the subgroup holds an entry titled username with a password. The test then expects T/username both as a file and as a directory. The theorem is about the tree the mount holds when OnAdd completes. Another top-level group can still make the mount panic (`MountPanics`).
- Projection.EntryFilesShareTimes: the files report their own entry's times only with Go 1.22 loop variables (see above).
- Projection.EntrySpecEffect: describes addEntry where it completes. Where `EntryPanics` holds, the code panics instead (AddEntry's `ok`), and EntrySpec only says what the tree functions compute past that point. The corrected behaviour, skipping such an entry, is `GuardedEntry`.
- FileOps.Getattr: assumes Go 1.22 loop variables for its times (see above). It does not model uint64 wrap-around of `Size + 511`, because a file's size is the length of one attribute value.
- FileOps.Read: takes the offset as a natural number. Negative `int64` offsets and `int` overflow of `off + len(dest)` are not modelled.
- FileOps.ReadAsWritten: the same offset restriction as Read.
- FileOps.Open: the flag values 0x8 (`FOPEN_CACHE_DIR`) and 0x643 (`O_ANYWRITE`) are go-fuse's Linux constants, which are not part of this model. The incoming flags are ignored, as in the code.

## Findings

| source | as written | input that shows it | evidently intended | confidence | as-written member | corrected member |
|---|---|---|---|---|---|---|
| internal/kdfs/kdfs.go:72-73 | `end := min(off+len(dest), len(data))` then `data[off:end]` with no guard, so `off > end` makes the slice panic | a one-byte read at offset 1 of an empty file: end = 0 < off = 1 (FileOps.ReadPastEndPanics) | a read at or past the end of the data returns zero bytes without error | not executed | FileOps.ReadAsWritten | FileOps.Read |
| internal/kdfs/kdfs.go:82-108 | a group or an entry whose name is already taken by an attribute file reuses that file as its directory. Anything it then puts there panics: a subgroup or a titled entry of such a group, at the type assertion at line 84 (an entry) or at `AddChild` on the file at line 108 (a subgroup), and a non-empty value of such an entry, at `AddChild` on the file at lines 95-98. A clashing group or entry with nothing to put there does not panic (Scenario.QuietClashCompletes). An empty group name also makes `AddChild` panic | top-level groups A{entry B with UserName alice} and A{group B{group username{entry x}}} (Scenario.FileParentPanics), or A{entry B with UserName alice} and A{group B{entry username with Password pw}} (Scenario.FileEntryDirPanics) | such a group or entry is skipped without a panic. Files stay leaves, and wherever the code completes the mount is the same | not executed | Kdfs.Mount | Projection.GuardedBuildCorrect |
