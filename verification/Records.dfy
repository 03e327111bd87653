/** Users, directories and files as records, and how a map of typed keys represents them. */
module Records {
  import opened Basics
  import opened Text
  import opened Keys

  const NO_PARENT: Id := "no_parent"

  // The records. Token lists are read as sequences and numerals as numbers.
  datatype User = User(email: string, name: string, location: string, root: Id,
                       shared: seq<Id>, quota: nat, deleted: seq<Id>)

  datatype Dir = Dir(name: string, date: string, tags: string, owner: Id, parent: Id,
                     files: seq<Id>, dirs: seq<Id>, size: nat)

  datatype File = File(name: string, extension: string, date: string, modifier: Id, tags: string, owner: Id,
                       size: nat, users: seq<Id>, revision: nat, parent: Id)

  datatype Store = Store(users: map<Id, User>, dirs: map<Id, Dir>, files: map<Id, File>,
                         nextUser: nat, nextDir: nat, nextFile: nat,
                         index: map<string, Id>, emails: seq<string>)

  // The same records as the strings that are read and written.
  datatype UserInfo = UserInfo(email: string, name: string, location: string, root: string,
                               shared: string, quota: string, deleted: string)

  datatype DirInfo = DirInfo(name: string, date: string, tags: string, owner: string, parent: string,
                             files: string, dirs: string, size: string)

  datatype FileInfo = FileInfo(name: string, extension: string, date: string, modifier: string, tags: string,
                               owner: string, size: string, users: string, revision: string, parent: string)

  datatype RawStore = RawStore(users: map<Id, UserInfo>, dirs: map<Id, DirInfo>, files: map<Id, FileInfo>,
                               tickets: map<TicketKind, string>, index: map<string, Id>, emails: string)

  function ReadUser(i: UserInfo): User {
    User(i.email, i.name, i.location, i.root, Split(i.shared), Val(i.quota), Split(i.deleted))
  }

  function ReadDir(i: DirInfo): Dir {
    Dir(i.name, i.date, i.tags, i.owner, i.parent, Split(i.files), Split(i.dirs), Val(i.size))
  }

  function ReadFile(i: FileInfo): File {
    File(i.name, i.extension, i.date, i.modifier, i.tags, i.owner, Val(i.size), Split(i.users), Val(i.revision),
         i.parent)
  }

  ghost function ReadTicket(r: RawStore, kind: TicketKind): nat {
    if kind in r.tickets then Val(r.tickets[kind]) else 0
  }

  ghost function Read(r: RawStore): Store {
    Store(map id | id in r.users :: ReadUser(r.users[id]),
          map id | id in r.dirs :: ReadDir(r.dirs[id]),
          map id | id in r.files :: ReadFile(r.files[id]),
          ReadTicket(r, UserTicket), ReadTicket(r, DirTicket), ReadTicket(r, FileTicket),
          r.index, Split(r.emails))
  }

  function Ticket(s: Store, kind: TicketKind): nat {
    match kind
    case UserTicket => s.nextUser
    case DirTicket => s.nextDir
    case FileTicket => s.nextFile
  }

  function WithTicket(s: Store, kind: TicketKind, n: nat): Store {
    match kind
    case UserTicket => s.(nextUser := n)
    case DirTicket => s.(nextDir := n)
    case FileTicket => s.(nextFile := n)
  }

  type Table = map<Key, string>

  // ---------- records in a table ----------

  ghost predicate HasUser(keys: set<Key>, id: Id) {
    && UserKey(id, UEmail) in keys && UserKey(id, UName) in keys && UserKey(id, ULocation) in keys
    && UserKey(id, UDirRoot) in keys && UserKey(id, USharedFiles) in keys && UserKey(id, UQuotaUsed) in keys
    && UserKey(id, UFilesDeleted) in keys
  }

  ghost predicate HasDir(keys: set<Key>, id: Id) {
    && DirKey(id, DName) in keys && DirKey(id, DDate) in keys && DirKey(id, DTags) in keys
    && DirKey(id, DOwner) in keys && DirKey(id, DParent) in keys && DirKey(id, DFiles) in keys
    && DirKey(id, DDirs) in keys && DirKey(id, DSize) in keys
  }

  ghost predicate HasFile(keys: set<Key>, id: Id) {
    && FileKey(id, FName) in keys && FileKey(id, FExtension) in keys && FileKey(id, FDate) in keys
    && FileKey(id, FModifier) in keys && FileKey(id, FTags) in keys && FileKey(id, FOwner) in keys
    && FileKey(id, FSize) in keys && FileKey(id, FUsersShared) in keys && FileKey(id, FRevision) in keys
    && FileKey(id, FParent) in keys
  }

  ghost function UserInfoAt(t: Table, id: Id): UserInfo
    requires HasUser(t.Keys, id)
  {
    UserInfo(t[UserKey(id, UEmail)], t[UserKey(id, UName)], t[UserKey(id, ULocation)], t[UserKey(id, UDirRoot)],
             t[UserKey(id, USharedFiles)], t[UserKey(id, UQuotaUsed)], t[UserKey(id, UFilesDeleted)])
  }

  ghost function DirInfoAt(t: Table, id: Id): DirInfo
    requires HasDir(t.Keys, id)
  {
    DirInfo(t[DirKey(id, DName)], t[DirKey(id, DDate)], t[DirKey(id, DTags)], t[DirKey(id, DOwner)],
            t[DirKey(id, DParent)], t[DirKey(id, DFiles)], t[DirKey(id, DDirs)], t[DirKey(id, DSize)])
  }

  ghost function FileInfoAt(t: Table, id: Id): FileInfo
    requires HasFile(t.Keys, id)
  {
    FileInfo(t[FileKey(id, FName)], t[FileKey(id, FExtension)], t[FileKey(id, FDate)], t[FileKey(id, FModifier)],
             t[FileKey(id, FTags)], t[FileKey(id, FOwner)], t[FileKey(id, FSize)], t[FileKey(id, FUsersShared)],
             t[FileKey(id, FRevision)], t[FileKey(id, FParent)])
  }

  ghost function UserIds(keys: set<Key>): (ids: set<Id>)
    ensures forall id :: id in ids <==> HasUser(keys, id)
  {
    var ids := set k | k in keys && k.UserKey? && k.uf == UEmail && HasUser(keys, k.id) :: k.id;
    assert forall id :: HasUser(keys, id) ==> UserKey(id, UEmail) in keys && id in ids;
    ids
  }

  ghost function UsersOf(t: Table): map<Id, UserInfo> {
    map id | id in UserIds(t.Keys) :: UserInfoAt(t, id)
  }

  ghost function DirIds(keys: set<Key>): (ids: set<Id>)
    ensures forall id :: id in ids <==> HasDir(keys, id)
  {
    var ids := set k | k in keys && k.DirKey? && k.df == DName && HasDir(keys, k.id) :: k.id;
    assert forall id :: HasDir(keys, id) ==> DirKey(id, DName) in keys && id in ids;
    ids
  }

  ghost function DirsOf(t: Table): map<Id, DirInfo> {
    map id | id in DirIds(t.Keys) :: DirInfoAt(t, id)
  }

  ghost function FileIds(keys: set<Key>): (ids: set<Id>)
    ensures forall id :: id in ids <==> HasFile(keys, id)
  {
    var ids := set k | k in keys && k.FileKey? && k.ff == FName && HasFile(keys, k.id) :: k.id;
    assert forall id :: HasFile(keys, id) ==> FileKey(id, FName) in keys && id in ids;
    ids
  }

  ghost function FilesOf(t: Table): map<Id, FileInfo> {
    map id | id in FileIds(t.Keys) :: FileInfoAt(t, id)
  }

  ghost function TicketsOf(t: Table): map<TicketKind, string> {
    map k | k in t && k.TicketKey? :: k.kind := t[k]
  }

  ghost function IndexedEmails(keys: set<Key>): (emails: set<string>)
    ensures forall e :: e in emails <==> IndexKey(e) in keys
  {
    set k | k in keys && k.IndexKey? :: k.email
  }

  ghost function IndexOf(t: Table): map<string, Id> {
    map e | e in IndexedEmails(t.Keys) :: t[IndexKey(e)]
  }

  ghost function EmailsOf(t: Table): string {
    if EmailListKey in t then t[EmailListKey] else ""
  }

  ghost function Raw(t: Table): RawStore {
    RawStore(UsersOf(t), DirsOf(t), FilesOf(t), TicketsOf(t), IndexOf(t), EmailsOf(t))
  }

  // ---------- what every operation keeps ----------

  // A directory, or a user with an e-mail, is there as a whole or not at all; the counters are there.
  ghost predicate Whole(keys: set<Key>) {
    && (forall id, f :: DirKey(id, f) in keys ==> HasDir(keys, id))
    && (forall id :: UserKey(id, UEmail) in keys ==> HasUser(keys, id))
    && (forall kind :: TicketKey(kind) in keys)
    && EmailListKey in keys
  }

  // Numeric fields satisfy isNum, counters isTicket.
  ghost predicate Numeric(r: RawStore, isNum: string -> bool, isTicket: string -> bool) {
    && (forall id :: id in r.users ==> isNum(r.users[id].quota))
    && (forall id :: id in r.dirs ==> isNum(r.dirs[id].size))
    && (forall id :: id in r.files ==> isNum(r.files[id].size) && isNum(r.files[id].revision))
    && (forall kind :: kind in r.tickets ==> isTicket(r.tickets[kind]))
  }

  predicate IsTicket(s: string) {
    IsNum(s) && IsId(s)
  }

  ghost predicate Sane(t: Table) {
    Whole(t.Keys) && Numeric(Raw(t), IsNum, IsTicket)
  }

  // ---------- a change to the keys of one record changes that record only ----------

  ghost predicate AgreeAt(t: Table, u: Table, k: Key) {
    (k in t <==> k in u) && (k in t ==> t[k] == u[k])
  }

  ghost predicate OnlyUser(t: Table, u: Table, id: Id) {
    forall k: Key :: !(k.UserKey? && k.id == id) ==> AgreeAt(t, u, k)
  }

  ghost predicate SameUserKeys(t: Table, u: Table) {
    forall k: Key :: k.UserKey? ==> AgreeAt(t, u, k)
  }

  lemma SameUser(t: Table, u: Table, id: Id)
    requires forall f :: AgreeAt(t, u, UserKey(id, f))
    ensures HasUser(t.Keys, id) <==> HasUser(u.Keys, id)
    ensures HasUser(t.Keys, id) ==> UserInfoAt(t, id) == UserInfoAt(u, id)
  {
  }

  lemma UsersFrame(t: Table, u: Table)
    requires SameUserKeys(t, u)
    ensures UsersOf(t) == UsersOf(u)
  {
    forall id ensures id in UsersOf(t) <==> id in UsersOf(u)
      ensures id in UsersOf(t) ==> UsersOf(t)[id] == UsersOf(u)[id]
    {
      SameUser(t, u, id);
    }
  }

  // Two maps that agree at all keys but one.
  lemma SameExcept<T>(m: map<Id, T>, before: map<Id, T>, id: Id)
    requires forall j :: j != id ==> (j in before <==> j in m) && (j in before ==> before[j] == m[j])
    ensures m == if id in m then before[id := m[id]] else before - {id}
  {
  }

  lemma UsersExcept(t: Table, u: Table, id: Id)
    requires OnlyUser(t, u, id)
    ensures UsersOf(u) == if HasUser(u.Keys, id) then UsersOf(t)[id := UserInfoAt(u, id)] else UsersOf(t) - {id}
  {
    forall j | j != id
      ensures j in UsersOf(t) <==> j in UsersOf(u)
      ensures j in UsersOf(t) ==> UsersOf(t)[j] == UsersOf(u)[j]
    {
      SameUser(t, u, j);
    }
    SameExcept(UsersOf(u), UsersOf(t), id);
  }

  ghost predicate OnlyDir(t: Table, u: Table, id: Id) {
    forall k: Key :: !(k.DirKey? && k.id == id) ==> AgreeAt(t, u, k)
  }

  ghost predicate SameDirKeys(t: Table, u: Table) {
    forall k: Key :: k.DirKey? ==> AgreeAt(t, u, k)
  }

  lemma SameDir(t: Table, u: Table, id: Id)
    requires forall f :: AgreeAt(t, u, DirKey(id, f))
    ensures HasDir(t.Keys, id) <==> HasDir(u.Keys, id)
    ensures HasDir(t.Keys, id) ==> DirInfoAt(t, id) == DirInfoAt(u, id)
  {
  }

  lemma DirsFrame(t: Table, u: Table)
    requires SameDirKeys(t, u)
    ensures DirsOf(t) == DirsOf(u)
  {
    forall id ensures id in DirsOf(t) <==> id in DirsOf(u)
      ensures id in DirsOf(t) ==> DirsOf(t)[id] == DirsOf(u)[id]
    {
      SameDir(t, u, id);
    }
  }

  lemma DirsExcept(t: Table, u: Table, id: Id)
    requires OnlyDir(t, u, id)
    ensures DirsOf(u) == if HasDir(u.Keys, id) then DirsOf(t)[id := DirInfoAt(u, id)] else DirsOf(t) - {id}
  {
    forall j | j != id
      ensures j in DirsOf(t) <==> j in DirsOf(u)
      ensures j in DirsOf(t) ==> DirsOf(t)[j] == DirsOf(u)[j]
    {
      SameDir(t, u, j);
    }
    SameExcept(DirsOf(u), DirsOf(t), id);
  }

  ghost predicate OnlyFile(t: Table, u: Table, id: Id) {
    forall k: Key :: !(k.FileKey? && k.id == id) ==> AgreeAt(t, u, k)
  }

  ghost predicate SameFileKeys(t: Table, u: Table) {
    forall k: Key :: k.FileKey? ==> AgreeAt(t, u, k)
  }

  lemma SameFile(t: Table, u: Table, id: Id)
    requires forall f :: AgreeAt(t, u, FileKey(id, f))
    ensures HasFile(t.Keys, id) <==> HasFile(u.Keys, id)
    ensures HasFile(t.Keys, id) ==> FileInfoAt(t, id) == FileInfoAt(u, id)
  {
  }

  lemma FilesFrame(t: Table, u: Table)
    requires SameFileKeys(t, u)
    ensures FilesOf(t) == FilesOf(u)
  {
    forall id ensures id in FilesOf(t) <==> id in FilesOf(u)
      ensures id in FilesOf(t) ==> FilesOf(t)[id] == FilesOf(u)[id]
    {
      SameFile(t, u, id);
    }
  }

  lemma FilesExcept(t: Table, u: Table, id: Id)
    requires OnlyFile(t, u, id)
    ensures FilesOf(u) == if HasFile(u.Keys, id) then FilesOf(t)[id := FileInfoAt(u, id)] else FilesOf(t) - {id}
  {
    forall j | j != id
      ensures j in FilesOf(t) <==> j in FilesOf(u)
      ensures j in FilesOf(t) ==> FilesOf(t)[j] == FilesOf(u)[j]
    {
      SameFile(t, u, j);
    }
    SameExcept(FilesOf(u), FilesOf(t), id);
  }

  ghost predicate SameRest(t: Table, u: Table) {
    forall k: Key :: k.IndexKey? || k.TicketKey? || k.EmailListKey? ==> AgreeAt(t, u, k)
  }

  lemma RestFrame(t: Table, u: Table)
    requires SameRest(t, u)
    ensures IndexOf(t) == IndexOf(u) && TicketsOf(t) == TicketsOf(u) && EmailsOf(t) == EmailsOf(u)
  {
    IndexFrame(t, u);
    TicketsFrame(t, u);
    EmailsFrame(t, u);
  }

  lemma RawOnlyUser(t: Table, u: Table, id: Id)
    requires OnlyUser(t, u, id)
    ensures Raw(u) == Raw(t).(users := if HasUser(u.Keys, id) then Raw(t).users[id := UserInfoAt(u, id)]
                                      else Raw(t).users - {id})
  {
    UsersExcept(t, u, id);
    DirsFrame(t, u);
    FilesFrame(t, u);
    RestFrame(t, u);
  }

  lemma RawOnlyDir(t: Table, u: Table, id: Id)
    requires OnlyDir(t, u, id)
    ensures Raw(u) == Raw(t).(dirs := if HasDir(u.Keys, id) then Raw(t).dirs[id := DirInfoAt(u, id)]
                                      else Raw(t).dirs - {id})
  {
    DirsExcept(t, u, id);
    UsersFrame(t, u);
    FilesFrame(t, u);
    RestFrame(t, u);
  }

  lemma RawOnlyFile(t: Table, u: Table, id: Id)
    requires OnlyFile(t, u, id)
    ensures Raw(u) == Raw(t).(files := if HasFile(u.Keys, id) then Raw(t).files[id := FileInfoAt(u, id)]
                                      else Raw(t).files - {id})
  {
    FilesExcept(t, u, id);
    UsersFrame(t, u);
    DirsFrame(t, u);
    RestFrame(t, u);
  }

  lemma RecordsFrame(t: Table, u: Table)
    requires SameUserKeys(t, u) && SameDirKeys(t, u) && SameFileKeys(t, u)
    ensures UsersOf(u) == UsersOf(t) && DirsOf(u) == DirsOf(t) && FilesOf(u) == FilesOf(t)
  {
    UsersFrame(t, u);
    DirsFrame(t, u);
    FilesFrame(t, u);
  }

  // Writes to the index, the counters and the e-mail list.
  lemma RawPutIndex(t: Table, email: string, v: string)
    ensures Raw(t[IndexKey(email) := v]) == Raw(t).(index := Raw(t).index[email := v])
  {
    var u := t[IndexKey(email) := v];
    PutIndexAgrees(t, email, v);
    RecordsFrame(t, u);
    IndexPut(t, email, v);
    TicketsFrame(t, u);
    EmailsFrame(t, u);
  }

  lemma PutIndexAgrees(t: Table, email: string, v: string)
    ensures forall k: Key {:trigger AgreeAt(t, t[IndexKey(email) := v], k)} ::
              k != IndexKey(email) ==> AgreeAt(t, t[IndexKey(email) := v], k)
  {
  }

  lemma RawEraseIndex(t: Table, email: string)
    ensures Raw(t - {IndexKey(email)}) == Raw(t).(index := Raw(t).index - {email})
  {
    var u := t - {IndexKey(email)};
    RecordsFrame(t, u);
    IndexErase(t, email);
    TicketsFrame(t, u);
  }

  lemma RawPutEmails(t: Table, v: string)
    ensures Raw(t[EmailListKey := v]) == Raw(t).(emails := v)
  {
    var u := t[EmailListKey := v];
    PutEmailsAgrees(t, v);
    RecordsFrame(t, u);
    IndexFrame(t, u);
    TicketsFrame(t, u);
  }

  lemma PutEmailsAgrees(t: Table, v: string)
    ensures forall k: Key {:trigger AgreeAt(t, t[EmailListKey := v], k)} ::
              k != EmailListKey ==> AgreeAt(t, t[EmailListKey := v], k)
  {
  }

  lemma RawPutTicket(t: Table, kind: TicketKind, v: string)
    ensures Raw(t[TicketKey(kind) := v]) == Raw(t).(tickets := Raw(t).tickets[kind := v])
  {
    var u := t[TicketKey(kind) := v];
    RecordsFrame(t, u);
    IndexFrame(t, u);
    TicketsPut(t, kind, v);
  }

  lemma IndexFrame(t: Table, u: Table)
    requires forall k: Key :: k.IndexKey? ==> AgreeAt(t, u, k)
    ensures IndexOf(u) == IndexOf(t)
  {
  }

  lemma IndexPut(t: Table, email: string, v: string)
    ensures IndexOf(t[IndexKey(email) := v]) == IndexOf(t)[email := v]
  {
  }

  lemma IndexErase(t: Table, email: string)
    ensures IndexOf(t - {IndexKey(email)}) == IndexOf(t) - {email}
  {
  }

  lemma TicketsFrame(t: Table, u: Table)
    requires forall k: Key :: k.TicketKey? ==> AgreeAt(t, u, k)
    ensures TicketsOf(u) == TicketsOf(t)
  {
  }

  lemma EmailsFrame(t: Table, u: Table)
    requires AgreeAt(t, u, EmailListKey)
    ensures EmailsOf(u) == EmailsOf(t)
  {
  }

  lemma TicketsPut(t: Table, kind: TicketKind, v: string)
    ensures TicketsOf(t[TicketKey(kind) := v]) == TicketsOf(t)[kind := v]
  {
  }

  lemma WholeRest(keys: set<Key>, keys': set<Key>)
    requires Whole(keys)
    requires forall k: Key :: !k.IndexKey? ==> (k in keys' <==> k in keys)
    ensures Whole(keys')
  {
    forall id, f | DirKey(id, f) in keys' ensures HasDir(keys', id) {
      assert HasDir(keys, id);
    }
    forall id | UserKey(id, UEmail) in keys' ensures HasUser(keys', id) {
      assert HasUser(keys, id);
    }
  }

  // ---------- whole records ----------

  ghost function PutUser(t: Table, id: Id, i: UserInfo): Table {
    t[UserKey(id, UEmail) := i.email][UserKey(id, UName) := i.name][UserKey(id, ULocation) := i.location]
     [UserKey(id, UDirRoot) := i.root][UserKey(id, USharedFiles) := i.shared]
     [UserKey(id, UQuotaUsed) := i.quota][UserKey(id, UFilesDeleted) := i.deleted]
  }

  ghost function PutDir(t: Table, id: Id, i: DirInfo): Table {
    t[DirKey(id, DName) := i.name][DirKey(id, DDate) := i.date][DirKey(id, DTags) := i.tags]
     [DirKey(id, DOwner) := i.owner][DirKey(id, DParent) := i.parent][DirKey(id, DFiles) := i.files]
     [DirKey(id, DDirs) := i.dirs][DirKey(id, DSize) := i.size]
  }

  ghost function PutFile(t: Table, id: Id, i: FileInfo): Table {
    t[FileKey(id, FName) := i.name][FileKey(id, FExtension) := i.extension][FileKey(id, FDate) := i.date]
     [FileKey(id, FModifier) := i.modifier][FileKey(id, FTags) := i.tags][FileKey(id, FOwner) := i.owner]
     [FileKey(id, FSize) := i.size][FileKey(id, FUsersShared) := i.users][FileKey(id, FRevision) := i.revision]
     [FileKey(id, FParent) := i.parent]
  }

  ghost function EraseUser(t: Table, id: Id): Table {
    t - {UserKey(id, UEmail)} - {UserKey(id, UPassword)} - {UserKey(id, UToken)} - {UserKey(id, UName)}
      - {UserKey(id, ULocation)} - {UserKey(id, UDirRoot)} - {UserKey(id, USharedFiles)} - {UserKey(id, UQuotaUsed)}
  }

  ghost function EraseDir(t: Table, id: Id): Table {
    t - {DirKey(id, DName)} - {DirKey(id, DDate)} - {DirKey(id, DTags)} - {DirKey(id, DOwner)}
      - {DirKey(id, DParent)} - {DirKey(id, DFiles)} - {DirKey(id, DDirs)} - {DirKey(id, DSize)}
  }

  ghost function EraseFile(t: Table, id: Id): Table {
    t - {FileKey(id, FName)} - {FileKey(id, FExtension)} - {FileKey(id, FDate)} - {FileKey(id, FModifier)}
      - {FileKey(id, FTags)} - {FileKey(id, FOwner)} - {FileKey(id, FSize)} - {FileKey(id, FUsersShared)}
      - {FileKey(id, FRevision)} - {FileKey(id, FParent)} - {FileKey(id, FFilesContained)}
  }

  // Writing a whole record into the table sets that record, whatever was there before.
  lemma PutUserOnly(t: Table, id: Id, i: UserInfo)
    ensures OnlyUser(t, PutUser(t, id, i), id)
  {
  }

  lemma PutUserInfo(t: Table, id: Id, i: UserInfo)
    ensures HasUser(PutUser(t, id, i).Keys, id)
    ensures UserInfoAt(PutUser(t, id, i), id) == i
  {
  }

  lemma RawPutUser(t: Table, id: Id, i: UserInfo)
    ensures Raw(PutUser(t, id, i)) == Raw(t).(users := Raw(t).users[id := i])
  {
    PutUserOnly(t, id, i);
    PutUserInfo(t, id, i);
    RawOnlyUser(t, PutUser(t, id, i), id);
  }

  lemma PutDirOnly(t: Table, id: Id, i: DirInfo)
    ensures OnlyDir(t, PutDir(t, id, i), id)
  {
  }

  lemma PutDirInfo(t: Table, id: Id, i: DirInfo)
    ensures HasDir(PutDir(t, id, i).Keys, id)
    ensures DirInfoAt(PutDir(t, id, i), id) == i
  {
  }

  lemma RawPutDir(t: Table, id: Id, i: DirInfo)
    ensures Raw(PutDir(t, id, i)) == Raw(t).(dirs := Raw(t).dirs[id := i])
  {
    PutDirOnly(t, id, i);
    PutDirInfo(t, id, i);
    RawOnlyDir(t, PutDir(t, id, i), id);
  }

  lemma PutFileOnly(t: Table, id: Id, i: FileInfo)
    ensures OnlyFile(t, PutFile(t, id, i), id)
  {
  }

  lemma PutFileInfo(t: Table, id: Id, i: FileInfo)
    ensures HasFile(PutFile(t, id, i).Keys, id)
    ensures FileInfoAt(PutFile(t, id, i), id) == i
  {
  }

  lemma RawPutFile(t: Table, id: Id, i: FileInfo)
    ensures Raw(PutFile(t, id, i)) == Raw(t).(files := Raw(t).files[id := i])
  {
    PutFileOnly(t, id, i);
    PutFileInfo(t, id, i);
    RawOnlyFile(t, PutFile(t, id, i), id);
  }

  // Erasing a record removes it; of a user the key of the trash list stays behind.
  lemma RawEraseUser(t: Table, id: Id)
    ensures Raw(EraseUser(t, id)) == Raw(t).(users := Raw(t).users - {id})
  {
    var u := EraseUser(t, id);
    assert OnlyUser(t, u, id);
    RawOnlyUser(t, u, id);
    assert !HasUser(u.Keys, id);
  }

  lemma RawEraseDir(t: Table, id: Id)
    ensures Raw(EraseDir(t, id)) == Raw(t).(dirs := Raw(t).dirs - {id})
  {
    var u := EraseDir(t, id);
    assert OnlyDir(t, u, id);
    RawOnlyDir(t, u, id);
    assert !HasDir(u.Keys, id);
  }

  lemma RawEraseFile(t: Table, id: Id)
    ensures Raw(EraseFile(t, id)) == Raw(t).(files := Raw(t).files - {id})
  {
    var u := EraseFile(t, id);
    assert OnlyFile(t, u, id);
    RawOnlyFile(t, u, id);
    assert !HasFile(u.Keys, id);
  }

  lemma DirFieldGone(t: Table, id: Id, f: DirField)
    ensures DirKey(id, f) !in EraseDir(t, id)
  {
  }

  lemma WholePutUser(t: Table, id: Id, i: UserInfo)
    requires Whole(t.Keys)
    ensures Whole(PutUser(t, id, i).Keys)
  {
    var u := PutUser(t, id, i);
    forall j, f | DirKey(j, f) in u.Keys ensures HasDir(u.Keys, j) {
      assert j != id ==> HasDir(t.Keys, j);
    }
    forall j | UserKey(j, UEmail) in u.Keys ensures HasUser(u.Keys, j) {
      assert j != id ==> HasUser(t.Keys, j);
    }
  }

  lemma WholePutDir(t: Table, id: Id, i: DirInfo)
    requires Whole(t.Keys)
    ensures Whole(PutDir(t, id, i).Keys)
  {
    var u := PutDir(t, id, i);
    forall j, f | DirKey(j, f) in u.Keys ensures HasDir(u.Keys, j) {
      assert j != id ==> HasDir(t.Keys, j);
    }
    forall j | UserKey(j, UEmail) in u.Keys ensures HasUser(u.Keys, j) {
      assert j != id ==> HasUser(t.Keys, j);
    }
  }

  lemma WholePutFile(t: Table, id: Id, i: FileInfo)
    requires Whole(t.Keys)
    ensures Whole(PutFile(t, id, i).Keys)
  {
    var u := PutFile(t, id, i);
    forall j, f | DirKey(j, f) in u.Keys ensures HasDir(u.Keys, j) {
      assert j != id ==> HasDir(t.Keys, j);
    }
    forall j | UserKey(j, UEmail) in u.Keys ensures HasUser(u.Keys, j) {
      assert j != id ==> HasUser(t.Keys, j);
    }
  }

  lemma WholeEraseUser(t: Table, id: Id)
    requires Whole(t.Keys)
    ensures Whole(EraseUser(t, id).Keys)
  {
    var u := EraseUser(t, id);
    forall j, f | DirKey(j, f) in u.Keys ensures HasDir(u.Keys, j) {
      assert j != id ==> HasDir(t.Keys, j);
    }
    forall j | UserKey(j, UEmail) in u.Keys ensures HasUser(u.Keys, j) {
      assert j != id ==> HasUser(t.Keys, j);
    }
  }

  lemma EraseDirKeeps(t: Table, id: Id)
    ensures forall k: Key {:trigger k in EraseDir(t, id).Keys} ::
              !(k.DirKey? && k.id == id) ==> (k in EraseDir(t, id).Keys <==> k in t.Keys)
  {
  }

  lemma WholeEraseDir(t: Table, id: Id)
    requires Whole(t.Keys)
    ensures Whole(EraseDir(t, id).Keys)
  {
    var u := EraseDir(t, id);
    EraseDirKeeps(t, id);
    forall j, f | DirKey(j, f) in u.Keys ensures HasDir(u.Keys, j) {
      DirFieldGone(t, id, f);
      assert HasDir(t.Keys, j);
    }
    forall j | UserKey(j, UEmail) in u.Keys ensures HasUser(u.Keys, j) {
      assert HasUser(t.Keys, j);
    }
  }

  lemma EraseFileKeeps(t: Table, id: Id)
    ensures forall k: Key {:trigger k in EraseFile(t, id).Keys} ::
              !k.FileKey? ==> (k in EraseFile(t, id).Keys <==> k in t.Keys)
  {
  }

  lemma WholeEraseFile(t: Table, id: Id)
    requires Whole(t.Keys)
    ensures Whole(EraseFile(t, id).Keys)
  {
    var u := EraseFile(t, id);
    EraseFileKeeps(t, id);
    forall j, f | DirKey(j, f) in u.Keys ensures HasDir(u.Keys, j) {
      assert HasDir(t.Keys, j);
    }
    forall j | UserKey(j, UEmail) in u.Keys ensures HasUser(u.Keys, j) {
      assert HasUser(t.Keys, j);
    }
  }

  // ---------- reading ----------

  lemma ReadPutUser(r: RawStore, id: Id, i: UserInfo)
    ensures Read(r.(users := r.users[id := i])) == Read(r).(users := Read(r).users[id := ReadUser(i)])
  {
    var p := r.(users := r.users[id := i]);
    assert Read(p).users == Read(r).users[id := ReadUser(i)];
  }

  lemma ReadEraseUser(r: RawStore, id: Id)
    ensures Read(r.(users := r.users - {id})) == Read(r).(users := Read(r).users - {id})
  {
    var e := r.(users := r.users - {id});
    assert Read(e).users == Read(r).users - {id};
  }

  lemma ReadPutDir(r: RawStore, id: Id, i: DirInfo)
    ensures Read(r.(dirs := r.dirs[id := i])) == Read(r).(dirs := Read(r).dirs[id := ReadDir(i)])
  {
    var p := r.(dirs := r.dirs[id := i]);
    assert Read(p).dirs == Read(r).dirs[id := ReadDir(i)];
  }

  lemma ReadEraseDir(r: RawStore, id: Id)
    ensures Read(r.(dirs := r.dirs - {id})) == Read(r).(dirs := Read(r).dirs - {id})
  {
    var e := r.(dirs := r.dirs - {id});
    assert Read(e).dirs == Read(r).dirs - {id};
  }

  lemma ReadPutFile(r: RawStore, id: Id, i: FileInfo)
    ensures Read(r.(files := r.files[id := i])) == Read(r).(files := Read(r).files[id := ReadFile(i)])
  {
    var p := r.(files := r.files[id := i]);
    assert Read(p).files == Read(r).files[id := ReadFile(i)];
  }

  lemma ReadEraseFile(r: RawStore, id: Id)
    ensures Read(r.(files := r.files - {id})) == Read(r).(files := Read(r).files - {id})
  {
    var e := r.(files := r.files - {id});
    assert Read(e).files == Read(r).files - {id};
  }

  // ---------- the modifications of an existing record ----------

  ghost function SetUserInfo(t: Table, id: Id, email: string, name: string, location: string,
                             shared: string, quota: string, deleted: string): Table {
    t[UserKey(id, UEmail) := email][UserKey(id, UName) := name][UserKey(id, ULocation) := location]
     [UserKey(id, USharedFiles) := shared][UserKey(id, UQuotaUsed) := quota][UserKey(id, UFilesDeleted) := deleted]
  }

  ghost function SetDirInfo(t: Table, id: Id, name: string, date: string, tags: string, size: string): Table {
    t[DirKey(id, DName) := name][DirKey(id, DDate) := date][DirKey(id, DTags) := tags][DirKey(id, DSize) := size]
  }

  ghost function SetFileInfo(t: Table, id: Id, name: string, extension: string, date: string, tags: string,
                             users: string, modifier: Id, parent: Id): Table {
    t[FileKey(id, FName) := name][FileKey(id, FExtension) := extension][FileKey(id, FDate) := date]
     [FileKey(id, FModifier) := modifier][FileKey(id, FTags) := tags][FileKey(id, FUsersShared) := users]
     [FileKey(id, FParent) := parent]
  }

  lemma SetUserInfoAt(t: Table, id: Id, email: string, name: string, location: string,
                       shared: string, quota: string, deleted: string)
    requires HasUser(t.Keys, id)
    ensures
      var u := SetUserInfo(t, id, email, name, location, shared, quota, deleted);
      && OnlyUser(t, u, id) && u.Keys == t.Keys
      && UserInfoAt(u, id) == UserInfoAt(t, id).(email := email, name := name, location := location,
            shared := shared, quota := quota, deleted := deleted)
  {
    var u := SetUserInfo(t, id, email, name, location, shared, quota, deleted);
    assert u.Keys == t.Keys;
  }

  lemma RawSetUserInfo(t: Table, id: Id, email: string, name: string, location: string,
                       shared: string, quota: string, deleted: string)
    requires HasUser(t.Keys, id)
    ensures
      var u := SetUserInfo(t, id, email, name, location, shared, quota, deleted);
      && u.Keys == t.Keys
      && Raw(u) == Raw(t).(users := Raw(t).users[id := Raw(t).users[id].(email := email, name := name,
                           location := location, shared := shared, quota := quota, deleted := deleted)])
  {
    SetUserInfoAt(t, id, email, name, location, shared, quota, deleted);
    RawOnlyUser(t, SetUserInfo(t, id, email, name, location, shared, quota, deleted), id);
  }

  lemma SetDirInfoAt(t: Table, id: Id, name: string, date: string, tags: string, size: string)
    requires HasDir(t.Keys, id)
    ensures
      var u := SetDirInfo(t, id, name, date, tags, size);
      && OnlyDir(t, u, id) && u.Keys == t.Keys
      && DirInfoAt(u, id) == DirInfoAt(t, id).(name := name, date := date, tags := tags, size := size)
  {
    var u := SetDirInfo(t, id, name, date, tags, size);
    assert u.Keys == t.Keys;
  }

  lemma RawSetDirInfo(t: Table, id: Id, name: string, date: string, tags: string, size: string)
    requires HasDir(t.Keys, id)
    ensures
      var u := SetDirInfo(t, id, name, date, tags, size);
      && u.Keys == t.Keys
      && Raw(u) == Raw(t).(dirs := Raw(t).dirs[id := Raw(t).dirs[id].(name := name, date := date,
                           tags := tags, size := size)])
  {
    SetDirInfoAt(t, id, name, date, tags, size);
    RawOnlyDir(t, SetDirInfo(t, id, name, date, tags, size), id);
  }

  lemma RawSetDirLists(t: Table, id: Id, v: string)
    requires HasDir(t.Keys, id)
    ensures t[DirKey(id, DFiles) := v].Keys == t.Keys == t[DirKey(id, DDirs) := v].Keys
    ensures Raw(t[DirKey(id, DFiles) := v]) == Raw(t).(dirs := Raw(t).dirs[id := Raw(t).dirs[id].(files := v)])
    ensures Raw(t[DirKey(id, DDirs) := v]) == Raw(t).(dirs := Raw(t).dirs[id := Raw(t).dirs[id].(dirs := v)])
  {
    var u, w := t[DirKey(id, DFiles) := v], t[DirKey(id, DDirs) := v];
    assert u.Keys == t.Keys == w.Keys;
    RawOnlyDir(t, u, id);
    RawOnlyDir(t, w, id);
  }

  lemma SetFileInfoAt(t: Table, id: Id, name: string, extension: string, date: string, tags: string,
                       users: string, modifier: Id, parent: Id)
    requires HasFile(t.Keys, id)
    ensures
      var u := SetFileInfo(t, id, name, extension, date, tags, users, modifier, parent);
      && OnlyFile(t, u, id) && u.Keys == t.Keys
      && FileInfoAt(u, id) == FileInfoAt(t, id).(name := name, extension := extension, date := date,
            tags := tags, users := users, modifier := modifier, parent := parent)
  {
    var u := SetFileInfo(t, id, name, extension, date, tags, users, modifier, parent);
    assert u.Keys == t.Keys;
  }

  lemma RawSetFileInfo(t: Table, id: Id, name: string, extension: string, date: string, tags: string,
                       users: string, modifier: Id, parent: Id)
    requires HasFile(t.Keys, id)
    ensures
      var u := SetFileInfo(t, id, name, extension, date, tags, users, modifier, parent);
      && u.Keys == t.Keys
      && Raw(u) == Raw(t).(files := Raw(t).files[id := Raw(t).files[id].(name := name, extension := extension,
                           date := date, tags := tags, users := users, modifier := modifier, parent := parent)])
  {
    SetFileInfoAt(t, id, name, extension, date, tags, users, modifier, parent);
    RawOnlyFile(t, SetFileInfo(t, id, name, extension, date, tags, users, modifier, parent), id);
  }

  lemma RawSetRevision(t: Table, id: Id, v: string)
    requires HasFile(t.Keys, id)
    ensures t[FileKey(id, FRevision) := v].Keys == t.Keys
    ensures Raw(t[FileKey(id, FRevision) := v])
         == Raw(t).(files := Raw(t).files[id := Raw(t).files[id].(revision := v)])
  {
    var u := t[FileKey(id, FRevision) := v];
    assert u.Keys == t.Keys;
    RawOnlyFile(t, u, id);
  }

  // ---------- keeping tables sane ----------

  lemma NumericUser(r: RawStore, id: Id, i: UserInfo, isNum: string -> bool, isTicket: string -> bool)
    requires Numeric(r, isNum, isTicket)
    ensures isNum(i.quota) ==> Numeric(r.(users := r.users[id := i]), isNum, isTicket)
    ensures Numeric(r.(users := r.users - {id}), isNum, isTicket)
  {
  }

  lemma NumericDir(r: RawStore, id: Id, i: DirInfo, isNum: string -> bool, isTicket: string -> bool)
    requires Numeric(r, isNum, isTicket)
    ensures isNum(i.size) ==> Numeric(r.(dirs := r.dirs[id := i]), isNum, isTicket)
    ensures Numeric(r.(dirs := r.dirs - {id}), isNum, isTicket)
  {
  }

  lemma NumericFile(r: RawStore, id: Id, i: FileInfo, isNum: string -> bool, isTicket: string -> bool)
    requires Numeric(r, isNum, isTicket)
    ensures isNum(i.size) && isNum(i.revision) ==> Numeric(r.(files := r.files[id := i]), isNum, isTicket)
    ensures Numeric(r.(files := r.files - {id}), isNum, isTicket)
  {
  }

  lemma NumericRest(r: RawStore, kind: TicketKind, v: string, index: map<string, Id>, emails: string,
                    isNum: string -> bool, isTicket: string -> bool)
    requires Numeric(r, isNum, isTicket)
    ensures isTicket(v) ==> Numeric(r.(tickets := r.tickets[kind := v]), isNum, isTicket)
    ensures Numeric(r.(index := index), isNum, isTicket) && Numeric(r.(emails := emails), isNum, isTicket)
  {
  }

  lemma ReadTicketPut(r: RawStore, kind: TicketKind, n: nat)
    ensures Read(r.(tickets := r.tickets[kind := ToStr(n)])) == WithTicket(Read(r), kind, n)
  {
    ToStrRoundTrip(n);
  }

  lemma ReadRest(r: RawStore, index: map<string, Id>, emails: string)
    ensures Read(r.(index := index)) == Read(r).(index := index)
    ensures Read(r.(emails := emails)) == Read(r).(emails := Split(emails))
  {
  }

  lemma NumeralIsTicket(n: nat)
    requires n < WORD
    ensures IsTicket(ToStr(n))
  {
    ToStrRoundTrip(n);
  }

  lemma TicketWritten(t: Table, kind: TicketKind, n: nat)
    requires Sane(t) && n < WORD
    ensures Sane(t[TicketKey(kind) := ToStr(n)])
    ensures Read(Raw(t[TicketKey(kind) := ToStr(n)])) == WithTicket(Read(Raw(t)), kind, n)
  {
    NumeralIsTicket(n);
    RawPutTicket(t, kind, ToStr(n));
    WholeRest(t.Keys, t[TicketKey(kind) := ToStr(n)].Keys);
    NumericRest(Raw(t), kind, ToStr(n), map[], "", IsNum, IsTicket);
    ReadTicketPut(Raw(t), kind, n);
  }

  lemma EmailsWritten(t: Table, v: string)
    requires Sane(t)
    ensures Sane(t[EmailListKey := v])
    ensures Read(Raw(t[EmailListKey := v])) == Read(Raw(t)).(emails := Split(v))
  {
    RawPutEmails(t, v);
    WholeRest(t.Keys, t[EmailListKey := v].Keys);
    NumericRest(Raw(t), UserTicket, "", map[], v, IsNum, IsTicket);
    ReadRest(Raw(t), map[], v);
  }

  lemma IndexWritten(t: Table, email: string, v: string)
    requires Sane(t)
    ensures Sane(t[IndexKey(email) := v])
    ensures Read(Raw(t[IndexKey(email) := v])) == Read(Raw(t)).(index := Read(Raw(t)).index[email := v])
  {
    RawPutIndex(t, email, v);
    WholeRest(t.Keys, t[IndexKey(email) := v].Keys);
    NumericRest(Raw(t), UserTicket, "", Raw(t).index[email := v], "", IsNum, IsTicket);
    ReadRest(Raw(t), Raw(t).index[email := v], "");
  }

  lemma IndexErased(t: Table, email: string)
    requires Sane(t)
    ensures Sane(t - {IndexKey(email)})
    ensures Read(Raw(t - {IndexKey(email)})) == Read(Raw(t)).(index := Read(Raw(t)).index - {email})
  {
    RawEraseIndex(t, email);
    WholeRest(t.Keys, (t - {IndexKey(email)}).Keys);
    NumericRest(Raw(t), UserTicket, "", Raw(t).index - {email}, "", IsNum, IsTicket);
    ReadRest(Raw(t), Raw(t).index - {email}, "");
  }

  lemma UserWritten(t: Table, u: Table, id: Id, i: UserInfo)
    requires Sane(t) && Whole(u.Keys) && Raw(u) == Raw(t).(users := Raw(t).users[id := i])
    requires IsNum(i.quota)
    ensures Sane(u)
    ensures Read(Raw(u)) == Read(Raw(t)).(users := Read(Raw(t)).users[id := ReadUser(i)])
  {
    NumericUser(Raw(t), id, i, IsNum, IsTicket);
    ReadPutUser(Raw(t), id, i);
  }

  lemma UserErased(t: Table, u: Table, id: Id)
    requires Sane(t) && Whole(u.Keys) && Raw(u) == Raw(t).(users := Raw(t).users - {id})
    ensures Sane(u)
    ensures Read(Raw(u)) == Read(Raw(t)).(users := Read(Raw(t)).users - {id})
  {
    NumericUser(Raw(t), id, UserInfo("", "", "", "", "", "", ""), IsNum, IsTicket);
    ReadEraseUser(Raw(t), id);
  }

  lemma DirWritten(t: Table, u: Table, id: Id, i: DirInfo)
    requires Sane(t) && Whole(u.Keys) && Raw(u) == Raw(t).(dirs := Raw(t).dirs[id := i])
    requires IsNum(i.size)
    ensures Sane(u)
    ensures Read(Raw(u)) == Read(Raw(t)).(dirs := Read(Raw(t)).dirs[id := ReadDir(i)])
  {
    NumericDir(Raw(t), id, i, IsNum, IsTicket);
    ReadPutDir(Raw(t), id, i);
  }

  lemma DirErased(t: Table, u: Table, id: Id)
    requires Sane(t) && Whole(u.Keys) && Raw(u) == Raw(t).(dirs := Raw(t).dirs - {id})
    ensures Sane(u)
    ensures Read(Raw(u)) == Read(Raw(t)).(dirs := Read(Raw(t)).dirs - {id})
  {
    NumericDir(Raw(t), id, DirInfo("", "", "", "", "", "", "", ""), IsNum, IsTicket);
    ReadEraseDir(Raw(t), id);
  }

  lemma FileWritten(t: Table, u: Table, id: Id, i: FileInfo)
    requires Sane(t) && Whole(u.Keys) && Raw(u) == Raw(t).(files := Raw(t).files[id := i])
    requires IsNum(i.size) && IsNum(i.revision)
    ensures Sane(u)
    ensures Read(Raw(u)) == Read(Raw(t)).(files := Read(Raw(t)).files[id := ReadFile(i)])
  {
    NumericFile(Raw(t), id, i, IsNum, IsTicket);
    ReadPutFile(Raw(t), id, i);
  }

  lemma FileErased(t: Table, u: Table, id: Id)
    requires Sane(t) && Whole(u.Keys) && Raw(u) == Raw(t).(files := Raw(t).files - {id})
    ensures Sane(u)
    ensures Read(Raw(u)) == Read(Raw(t)).(files := Read(Raw(t)).files - {id})
  {
    NumericFile(Raw(t), id, FileInfo("", "", "", "", "", "", "", "", "", ""), IsNum, IsTicket);
    ReadEraseFile(Raw(t), id);
  }
}
