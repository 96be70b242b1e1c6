/** The decrypted vault as the projection engine reads it: gokeepasslib's RootData,
    Group and Entry, reduced to the fields that internal/kdfs/kdfs.go looks at.
    Go strings are byte strings, so every string of the vault (names, titles,
    attribute keys and values) is a sequence of bytes here, and converting one to
    []byte is the identity on that sequence. */
module Vault {

  type Bytes = seq<bv8>

  /** The three timestamps of an entry, already converted to Unix seconds. */
  datatype Times = Times(lastModification: int, lastAccess: int, creation: int)

  /** A credential record: its attribute values keyed by attribute name
      ("Title", "UserName", "Password", "Notes", "URL", ...) and its times. */
  datatype Entry = Entry(values: map<Bytes, Bytes>, times: Times)

  /** A named group with its ordered subgroups and ordered entries. */
  datatype Group = Group(name: Bytes, groups: seq<Group>, entries: seq<Entry>)

  /** The root of the database: the ordered top-level groups. */
  datatype RootData = RootData(groups: seq<Group>)

  const TitleKey: Bytes := [0x54, 0x69, 0x74, 0x6C, 0x65]                    // "Title"
  const UserNameKey: Bytes := [0x55, 0x73, 0x65, 0x72, 0x4E, 0x61, 0x6D, 0x65] // "UserName"
  const PasswordKey: Bytes := [0x50, 0x61, 0x73, 0x73, 0x77, 0x6F, 0x72, 0x64] // "Password"
  const NotesKey: Bytes := [0x4E, 0x6F, 0x74, 0x65, 0x73]                    // "Notes"
  const UrlKey: Bytes := [0x55, 0x52, 0x4C]                                  // "URL"

  /** The attribute keys that become files, in the order addEntry visits them. */
  const AttributeKeys: seq<Bytes> := [UserNameKey, PasswordKey, NotesKey, UrlKey]

  /** Entry.GetContent: the value stored under key, or the empty string. */
  function Content(e: Entry, key: Bytes): Bytes {
    if key in e.values then e.values[key] else []
  }

  /** Entry.GetTitle. */
  function Title(e: Entry): Bytes {
    Content(e, TitleKey)
  }

  predicate Titled(e: Entry) {
    |Title(e)| > 0
  }
}
