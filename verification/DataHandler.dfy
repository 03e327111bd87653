/** The data layer: records kept as strings under generated keys in the database. */
module DataHandlers {
  import opened Basics
  import opened Text
  import opened Keys
  import opened Db
  import opened Records

  const STATUS_USER_ALREADY_EXISTS := 2
  const STATUS_KEY_NOT_FOUND := 4

  const LABEL_ROOT := "root"
  const LABEL_SHARED_FILES := "Archivos Compartidos"
  const LABEL_REVISION_1 := "1"

  datatype Outcome = Done | Failed(status: int)

  // ---------- what the operations do to the store of records ----------

  // The id that the next create_id of a kind hands out.
  function NextId(s: Store, kind: TicketKind): Id {
    ToStr(Ticket(s, kind))
  }

  function TakeTicket(s: Store, kind: TicketKind): Store {
    WithTicket(s, kind, (Ticket(s, kind) + 1) % WORD)
  }

  function DirectoryAdded(s: Store, owner: Id, name: string, date: string, parent: Id): (Store, Outcome) {
    var id, s1 := NextId(s, DirTicket), TakeTicket(s, DirTicket);
    if parent == NO_PARENT then
      (s1.(dirs := s1.dirs[id := Dir(name, date, "", owner, parent, [], [], 0)]), Done)
    else if parent !in s.dirs then
      (s1, Failed(STATUS_KEY_NOT_FOUND))
    else
      var kids := s1.dirs[parent].dirs + [id];
      var dirs := s1.dirs[id := Dir(name, date, "", owner, parent, [], [], 0)];
      (s1.(dirs := dirs[parent := dirs[parent].(dirs := kids)]), Done)
  }

  function FileAdded(s: Store, owner: Id, name: string, extension: string, date: string, size: nat, parent: Id): Store
    requires parent in s.dirs
  {
    var id, s1 := NextId(s, FileTicket), TakeTicket(s, FileTicket);
    s1.(files := s1.files[id := File(name, extension, date, owner, "", owner, size, [], 1, parent)],
        dirs := s1.dirs[parent := s1.dirs[parent].(files := s1.dirs[parent].files + [id])])
  }

  const EMPTY_STORE := Store(map[], map[], map[], 1, 1, 1, map[], [])

  function UserModifiedSameEmail(s: Store, id: Id, email: string, name: string, location: string,
                                 shared: seq<Id>, quota: nat, deleted: seq<Id>): Store
    requires id in s.users
  {
    s.(users := s.users[id := s.users[id].(email := email, name := name, location := location,
                                           shared := shared, quota := quota, deleted := deleted)])
  }

  function UserModified(s: Store, id: Id, email: string, name: string, location: string,
                        shared: seq<Id>, quota: nat, deleted: seq<Id>): Store
    requires id in s.users
  {
    EmailChanged(UserModifiedSameEmail(s, id, email, name, location, shared, quota, deleted), id, s.users[id].email,
                 email)
  }

  function EmailChanged(s: Store, id: Id, from: string, to: string): Store {
    if from == to then s
    else s.(index := (s.index - {from})[to := id], emails := InsertText(Remove(s.emails, from), to))
  }

  function UserDropped(s: Store, id: Id): Store
    requires id in s.users
  {
    var email := s.users[id].email;
    s.(users := s.users - {id}, index := s.index - {email}, emails := Remove(s.emails, email))
  }

  function Registered(s: Store, id: Id, email: string, name: string, location: string, root: Id): Store {
    s.(users := s.users[id := User(email, name, location, root, [], 0, [])],
       index := s.index[email := id], emails := InsertText(s.emails, email))
  }

  function UserAdded(s: Store, email: string, name: string, location: string, date: string): (Store, Outcome) {
    if email in s.index then (s, Failed(STATUS_USER_ALREADY_EXISTS))
    else
      var id := NextId(s, UserTicket);
      var s1 := TakeTicket(s, UserTicket);
      var root := NextId(s1, DirTicket);
      var s2 := DirectoryAdded(s1, id, LABEL_ROOT, date, NO_PARENT).0;
      DirectoryAdded(Registered(s2, id, email, name, location, root), id, LABEL_SHARED_FILES, date, root)
  }

  // ---------- a table that represents a store ----------

  // The relation "table t represents store s". The class keeps it as a function value, so that proofs about
  // its methods need not look inside; Opened and Closed below are the two ways in and out.
  type Rep = (Table, Store) -> bool

  // Always true: a handle by which Opened and Closed say which table and store they mean. The quantifier in Meaning has
  // it as its trigger, and so does nothing elsewhere.
  predicate Mentioned(t: Table, s: Store) {
    true
  }

  ghost predicate Meaning(rep: Rep) {
    forall t, s {:trigger Mentioned(t, s)} ::
      Mentioned(t, s) ==> (rep(t, s) <==> Sane(t) && s == Read(Raw(t)))
  }

  ghost function Representation(): Rep {
    (t, s) => Sane(t) && s == Read(Raw(t))
  }

  lemma RepresentationMeans()
    ensures Meaning(Representation())
  {
  }

  ghost predicate Represents(rep: Rep, t: Table, s: Store) {
    Meaning(rep) && rep(t, s)
  }

  lemma Opened(rep: Rep, t: Table, s: Store)
    requires Represents(rep, t, s)
    ensures Sane(t) && s == Read(Raw(t))
  {
    assert Mentioned(t, s);
  }

  lemma Closed(rep: Rep, t: Table, s: Store)
    requires Meaning(rep) && Sane(t) && s == Read(Raw(t))
    ensures Represents(rep, t, s)
  {
    assert Mentioned(t, s);
  }

  // ---------- the class ----------

  class DataHandler {
    const dbh: DbHandler
    ghost const rep: Rep
    ghost var st: Store // the records that the database holds

    ghost function Table(): Table
      reads dbh
    {
      Typed(dbh.db)
    }

    ghost function Staged(): Table
      reads dbh
    {
      Typed(dbh.Pending())
    }

    ghost predicate Valid()
      reads this, dbh
    {
      Represents(rep, Typed(dbh.db), st)
    }

    constructor ()
      ensures fresh(dbh) && Valid()
      ensures st == EMPTY_STORE
    {
      dbh := new DbHandler();
      rep := Representation();
      st := EMPTY_STORE;
      new;
      RepresentationMeans();
      TypedEmpty();
      Init();
      EmptyTable(rep, Table());
    }

    // A restart finds the records of the store before it, and the counters where they stood.
    constructor Reopen(before: DataHandler)
      requires before.Valid()
      ensures fresh(dbh) && Valid()
      ensures st == before.st && dbh.db == before.dbh.db && dbh.batch == []
    {
      dbh := new DbHandler.Open(before.dbh.db);
      rep := Representation();
      st := before.st;
      new;
      RepresentationMeans();
      Opened(before.rep, before.Table(), before.st);
      Init();
      Closed(rep, Table(), st);
    }

    // The counters start at one and the list of e-mails is empty, unless they are there already.
    method Init()
      modifies dbh`db
      ensures old(Table()) == map[] ==> IsEmptyTable(Table())
      ensures (forall kind :: TicketKey(kind) in old(Table())) && EmailListKey in old(Table()) ==> dbh.db == old(dbh.db)
    {
      InitIdTicket(UserTicket);
      ghost var t1 := Table();
      InitIdTicket(DirTicket);
      ghost var t2 := Table();
      InitIdTicket(FileTicket);
      ghost var t3 := Table();
      InitUserList();
      InitSteps(old(Table()), t1, t2, t3, Table());
    }

    // ---------- access by typed key ----------

    method Fetch(k: Key) returns (found: bool, value: string)
      ensures found == (k in Table())
      ensures found ==> value == Table()[k]
    {
      found, value := dbh.Get(Encode(k));
      TypedGet(dbh.db, k);
    }

    method Write(k: Key, value: string)
      modifies dbh`db
      ensures Table() == old(Table())[k := value]
      ensures Encode(k) !in Touched(dbh.batch) ==> Staged() == old(Staged())[k := value]
    {
      TypedPut(dbh.db, k, value);
      TypedPut(dbh.Pending(), k, value);
      dbh.Put(Encode(k), value);
    }

    method Stage(k: Key, value: string)
      modifies dbh`batch
      ensures Staged() == old(Staged())[k := value]
      ensures Touched(dbh.batch) == old(Touched(dbh.batch)) + {Encode(k)}
    {
      TypedPut(dbh.Pending(), k, value);
      dbh.PutBatch(Encode(k), value);
    }

    method StageErase(k: Key)
      modifies dbh`batch
      ensures Staged() == old(Staged()) - {k}
      ensures Touched(dbh.batch) == old(Touched(dbh.batch)) + {Encode(k)}
    {
      TypedErase(dbh.Pending(), k);
      dbh.EraseBatch(Encode(k));
    }

    // ---------- initialisation and ids ----------

    method InitIdTicket(kind: TicketKind)
      modifies dbh`db
      ensures Table() == PutNew(old(Table()), TicketKey(kind), ToStr(1))
      ensures TicketKey(kind) in old(Table()) ==> dbh.db == old(dbh.db)
    {
      var found, _ := Fetch(TicketKey(kind));
      if !found {
        Write(TicketKey(kind), ToStr(1));
      }
    }

    method InitUserList()
      modifies dbh`db
      ensures Table() == PutNew(old(Table()), EmailListKey, "")
      ensures EmailListKey in old(Table()) ==> dbh.db == old(dbh.db)
    {
      var found, _ := Fetch(EmailListKey);
      if !found {
        Write(EmailListKey, "");
      }
    }

    method CreateId(kind: TicketKind) returns (id: Id)
      requires Valid()
      modifies this`st, dbh`db
      ensures Valid() && st == TakeTicket(old(st), kind) && id == NextId(old(st), kind)
    {
      ghost var t := Table();
      TicketText(rep, t, st, kind);
      var found, ticket := Fetch(TicketKey(kind));
      id := ticket;
      Write(TicketKey(kind), ToStr((Val(id) + 1) % WORD));
      TicketTaken(rep, t, st, kind);
      st := TakeTicket(st, kind);
    }

    // ---------- reading ----------

    method GetUserInfo(id: Id) returns (found: bool, info: UserInfo)
      requires Valid()
      ensures found == (id in st.users)
      ensures found ==> ReadUser(info) == st.users[id] && IsNum(info.quota)
    {
      UserInTable(rep, Table(), st, id);
      found, info := false, UserInfo("", "", "", "", "", "", "");
      var f1, email := Fetch(UserKey(id, UEmail));
      if !f1 { return; }
      var f2, name := Fetch(UserKey(id, UName));
      if !f2 { return; }
      var f3, location := Fetch(UserKey(id, ULocation));
      if !f3 { return; }
      var f4, root := Fetch(UserKey(id, UDirRoot));
      if !f4 { return; }
      var f5, shared := Fetch(UserKey(id, USharedFiles));
      if !f5 { return; }
      var f6, quota := Fetch(UserKey(id, UQuotaUsed));
      if !f6 { return; }
      var f7, deleted := Fetch(UserKey(id, UFilesDeleted));
      if !f7 { return; }
      found, info := true, UserInfo(email, name, location, root, shared, quota, deleted);
    }

    method GetDirectoryInfo(id: Id) returns (found: bool, info: DirInfo)
      requires Valid()
      ensures found == (id in st.dirs)
      ensures found ==> ReadDir(info) == st.dirs[id] && IsNum(info.size)
    {
      DirInTable(rep, Table(), st, id);
      found, info := false, DirInfo("", "", "", "", "", "", "", "");
      var f1, name := Fetch(DirKey(id, DName));
      if !f1 { return; }
      var f2, date := Fetch(DirKey(id, DDate));
      if !f2 { return; }
      var f3, tags := Fetch(DirKey(id, DTags));
      if !f3 { return; }
      var f4, owner := Fetch(DirKey(id, DOwner));
      if !f4 { return; }
      var f5, parent := Fetch(DirKey(id, DParent));
      if !f5 { return; }
      var f6, files := Fetch(DirKey(id, DFiles));
      if !f6 { return; }
      var f7, dirs := Fetch(DirKey(id, DDirs));
      if !f7 { return; }
      var f8, size := Fetch(DirKey(id, DSize));
      if !f8 { return; }
      found, info := true, DirInfo(name, date, tags, owner, parent, files, dirs, size);
    }

    method GetFileInfo(id: Id) returns (found: bool, info: FileInfo)
      requires Valid()
      ensures found == (id in st.files)
      ensures found ==> ReadFile(info) == st.files[id] && IsNum(info.size) && IsNum(info.revision)
    {
      FileInTable(rep, Table(), st, id);
      found, info := false, FileInfo("", "", "", "", "", "", "", "", "", "");
      var f1, name := Fetch(FileKey(id, FName));
      if !f1 { return; }
      var f2, extension := Fetch(FileKey(id, FExtension));
      if !f2 { return; }
      var f3, date := Fetch(FileKey(id, FDate));
      if !f3 { return; }
      var f4, modifier := Fetch(FileKey(id, FModifier));
      if !f4 { return; }
      var f5, tags := Fetch(FileKey(id, FTags));
      if !f5 { return; }
      var f6, owner := Fetch(FileKey(id, FOwner));
      if !f6 { return; }
      var f7, size := Fetch(FileKey(id, FSize));
      if !f7 { return; }
      var f8, users := Fetch(FileKey(id, FUsersShared));
      if !f8 { return; }
      var f9, revision := Fetch(FileKey(id, FRevision));
      if !f9 { return; }
      var f10, parent := Fetch(FileKey(id, FParent));
      if !f10 { return; }
      found, info := true, FileInfo(name, extension, date, modifier, tags, owner, size, users, revision, parent);
    }

    method GetEmailUserIdIndex(email: string) returns (found: bool, id: Id)
      requires Valid()
      ensures found == (email in st.index)
      ensures found ==> id == st.index[email]
    {
      IndexInTable(rep, Table(), st, email);
      found, id := Fetch(IndexKey(email));
    }

    // ---------- directories ----------

    method AddDirectory(owner: Id, name: string, date: string, parent: Id) returns (id: Id, r: Outcome)
      requires Valid()
      modifies this`st, dbh
      ensures Valid() && (st, r) == DirectoryAdded(old(st), owner, name, date, parent)
      ensures id == NextId(old(st), DirTicket)
    {
      id := CreateId(DirTicket);
      ghost var t := Table();
      var directoriesContained := "";
      if parent != NO_PARENT {
        DirListsInTable(rep, t, st, parent);
        var found, list := Fetch(DirKey(parent, DDirs));
        if !found {
          return id, Failed(STATUS_KEY_NOT_FOUND);
        }
        directoriesContained := list + [DELIMITER] + id;
      }
      dbh.ClearBatch();
      StageDirectory(id, DirInfo(name, date, "", owner, parent, "", "", "0"), directoriesContained);
      dbh.WriteBatch();
      AddedDirectory(rep, old(st), t, Table(), owner, name, date, parent, directoriesContained);
      st := DirectoryAdded(old(st), owner, name, date, parent).0;
      r := Done;
    }

    // Stages the new directory and its entry in the list of its parent.
    method StageDirectory(id: Id, info: DirInfo, parentList: string)
      modifies dbh`batch
      ensures Staged() == PutNewDir(old(Staged()), id, info, parentList)
    {
      Stage(DirKey(id, DName), info.name);
      Stage(DirKey(id, DDate), info.date);
      Stage(DirKey(id, DTags), info.tags);
      Stage(DirKey(id, DOwner), info.owner);
      Stage(DirKey(id, DParent), info.parent);
      Stage(DirKey(id, DFiles), info.files);
      Stage(DirKey(id, DDirs), info.dirs);
      Stage(DirKey(id, DSize), info.size);
      if info.parent != NO_PARENT {
        Stage(DirKey(info.parent, DDirs), parentList);
      }
    }

    method DeleteDirectory(id: Id)
      requires Valid()
      modifies this`st, dbh
      ensures Valid() && st == old(st).(dirs := old(st).dirs - {id})
    {
      ghost var t := Table();
      dbh.ClearBatch();
      StageErase(DirKey(id, DName));
      StageErase(DirKey(id, DDate));
      StageErase(DirKey(id, DTags));
      StageErase(DirKey(id, DOwner));
      StageErase(DirKey(id, DParent));
      StageErase(DirKey(id, DFiles));
      StageErase(DirKey(id, DDirs));
      StageErase(DirKey(id, DSize));
      dbh.WriteBatch();
      DeletedDir(rep, t, Table(), st, id);
      st := st.(dirs := st.dirs - {id});
    }

    method ModifyDirectoryInfo(id: Id, name: string, date: string, tags: string, size: string)
      requires Valid() && id in st.dirs && IsNum(size)
      modifies this`st, dbh
      ensures Valid()
      ensures st == old(st).(dirs := old(st).dirs[id := old(st).dirs[id].(
                       name := name, date := date, tags := tags, size := Val(size))])
    {
      ghost var t := Table();
      dbh.ClearBatch();
      Stage(DirKey(id, DName), name);
      Stage(DirKey(id, DDate), date);
      Stage(DirKey(id, DTags), tags);
      Stage(DirKey(id, DSize), size);
      dbh.WriteBatch();
      ModifiedDir(rep, t, Table(), st, id, name, date, tags, size);
      st := st.(dirs := st.dirs[id := st.dirs[id].(name := name, date := date, tags := tags, size := Val(size))]);
    }

    method ModifyDirectoryFilesContained(id: Id, filesContained: string)
      requires Valid() && id in st.dirs
      modifies this`st, dbh`db
      ensures Valid()
      ensures st == old(st).(dirs := old(st).dirs[id := old(st).dirs[id].(files := Split(filesContained))])
    {
      ModifiedDirLists(rep, Table(), st, id, filesContained);
      Write(DirKey(id, DFiles), filesContained);
      st := st.(dirs := st.dirs[id := st.dirs[id].(files := Split(filesContained))]);
    }

    method ModifyDirectoryDirsContained(id: Id, directoriesContained: string)
      requires Valid() && id in st.dirs
      modifies this`st, dbh`db
      ensures Valid()
      ensures st == old(st).(dirs := old(st).dirs[id := old(st).dirs[id].(dirs := Split(directoriesContained))])
    {
      ModifiedDirLists(rep, Table(), st, id, directoriesContained);
      Write(DirKey(id, DDirs), directoriesContained);
      st := st.(dirs := st.dirs[id := st.dirs[id].(dirs := Split(directoriesContained))]);
    }

    // ---------- files ----------

    method AddFile(owner: Id, name: string, extension: string, date: string, size: string, revision: string, parent: Id)
      returns (id: Id, r: Outcome)
      requires Valid() && IsNum(size) && revision == LABEL_REVISION_1
      modifies this`st, dbh
      ensures Valid()
      ensures parent !in old(st).dirs ==> st == old(st) && r == Failed(STATUS_KEY_NOT_FOUND)
      ensures parent in old(st).dirs ==>
                && r == Done && id == NextId(old(st), FileTicket)
                && st == FileAdded(old(st), owner, name, extension, date, Val(size), parent)
    {
      id := "";
      DirListsInTable(rep, Table(), st, parent);
      var found, filesContained := Fetch(DirKey(parent, DFiles));
      if !found {
        return id, Failed(STATUS_KEY_NOT_FOUND);
      }
      id := CreateId(FileTicket);
      ghost var t := Table();
      dbh.ClearBatch();
      StageFile(id, FileInfo(name, extension, date, owner, "", owner, size, "", revision, parent));
      Stage(DirKey(parent, DFiles), filesContained + [DELIMITER] + id);
      dbh.WriteBatch();
      AddedFile(rep, old(st), t, Table(), owner, name, extension, date, size, parent, filesContained);
      st := FileAdded(old(st), owner, name, extension, date, Val(size), parent);
      r := Done;
    }

    method StageFile(id: Id, info: FileInfo)
      modifies dbh`batch
      ensures Staged() == PutFile(old(Staged()), id, info)
    {
      Stage(FileKey(id, FName), info.name);
      Stage(FileKey(id, FExtension), info.extension);
      Stage(FileKey(id, FDate), info.date);
      Stage(FileKey(id, FModifier), info.modifier);
      Stage(FileKey(id, FTags), info.tags);
      Stage(FileKey(id, FOwner), info.owner);
      Stage(FileKey(id, FSize), info.size);
      Stage(FileKey(id, FUsersShared), info.users);
      Stage(FileKey(id, FRevision), info.revision);
      Stage(FileKey(id, FParent), info.parent);
    }

    method DeleteFile(id: Id)
      requires Valid()
      modifies this`st, dbh
      ensures Valid() && st == old(st).(files := old(st).files - {id})
    {
      ghost var t := Table();
      dbh.ClearBatch();
      StageErase(FileKey(id, FName));
      StageErase(FileKey(id, FExtension));
      StageErase(FileKey(id, FDate));
      StageErase(FileKey(id, FModifier));
      StageErase(FileKey(id, FTags));
      StageErase(FileKey(id, FOwner));
      StageErase(FileKey(id, FSize));
      StageErase(FileKey(id, FUsersShared));
      StageErase(FileKey(id, FRevision));
      StageErase(FileKey(id, FParent));
      StageErase(FileKey(id, FFilesContained));
      dbh.WriteBatch();
      DeletedFile(rep, t, Table(), st, id);
      st := st.(files := st.files - {id});
    }

    method ModifyFileInfo(id: Id, name: string, extension: string, date: string, tags: string,
                          usersShared: string, modifier: Id, parent: Id)
      requires Valid() && id in st.files
      modifies this`st, dbh
      ensures Valid()
      ensures st == old(st).(files := old(st).files[id := old(st).files[id].(
                       name := name, extension := extension, date := date, tags := tags,
                       users := Split(usersShared), modifier := modifier, parent := parent)])
    {
      ghost var t := Table();
      dbh.ClearBatch();
      Stage(FileKey(id, FName), name);
      Stage(FileKey(id, FExtension), extension);
      Stage(FileKey(id, FDate), date);
      Stage(FileKey(id, FModifier), modifier);
      Stage(FileKey(id, FTags), tags);
      Stage(FileKey(id, FUsersShared), usersShared);
      Stage(FileKey(id, FParent), parent);
      dbh.WriteBatch();
      ModifiedFile(rep, t, Table(), st, id, name, extension, date, tags, usersShared, modifier, parent);
      st := st.(files := st.files[id := st.files[id].(name := name, extension := extension, date := date, tags := tags,
                                                      users := Split(usersShared), modifier := modifier,
                                                      parent := parent)]);
    }

    method ModifyFileRevision(id: Id, revision: string)
      requires Valid() && id in st.files && IsNum(revision)
      modifies this`st, dbh
      ensures Valid()
      ensures st == old(st).(files := old(st).files[id := old(st).files[id].(revision := Val(revision))])
    {
      ghost var t := Table();
      dbh.ClearBatch();
      Stage(FileKey(id, FRevision), revision);
      dbh.WriteBatch();
      ModifiedRevision(rep, t, st, id, revision);
      st := st.(files := st.files[id := st.files[id].(revision := Val(revision))]);
    }

    // ---------- users and e-mails ----------

    method AddUser(email: string, password: string, name: string, location: string, token: string, date: string)
      returns (id: Id, r: Outcome)
      requires Valid()
      modifies this`st, dbh
      ensures Valid() && (st, r) == UserAdded(old(st), email, name, location, date)
      ensures r == Done ==> id == NextId(old(st), UserTicket)
    {
      id := "";
      var found, _ := GetEmailUserIdIndex(email);
      if found {
        return id, Failed(STATUS_USER_ALREADY_EXISTS);
      }
      id := CreateId(UserTicket);
      NextIdNew(st);
      var root, _ := AddDirectory(id, LABEL_ROOT, date, NO_PARENT);
      RegisterUser(id, email, password, name, location, token, root);
      var _, r' := AddDirectory(id, LABEL_SHARED_FILES, date, root);
      r := r';
    }

    // Writes the record, the index entry and the list entry of a new user.
    method RegisterUser(id: Id, email: string, password: string, name: string, location: string, token: string,
                        root: Id)
      requires Valid()
      modifies this`st, dbh
      ensures Valid() && st == Registered(old(st), id, email, name, location, root)
    {
      ghost var t := Table();
      dbh.ClearBatch();
      StageUser(id, UserInfo(email, name, location, root, "", "0", ""), password, token);
      dbh.WriteBatch();
      NewUser(rep, t, Table(), st, id, email, name, location, root, password, token);
      st := st.(users := st.users[id := User(email, name, location, root, [], 0, [])]);
      AddEmailUserIdIndex(email, id);
      ghost var _ := AddEmailToList(email);
    }

    method StageUser(id: Id, info: UserInfo, password: string, token: string)
      modifies dbh`batch
      ensures Staged() == PutNewUser(old(Staged()), id, info, password, token)
    {
      Stage(UserKey(id, UEmail), info.email);
      Stage(UserKey(id, UPassword), password);
      Stage(UserKey(id, UToken), token);
      Stage(UserKey(id, UName), info.name);
      Stage(UserKey(id, ULocation), info.location);
      Stage(UserKey(id, UDirRoot), info.root);
      Stage(UserKey(id, USharedFiles), info.shared);
      Stage(UserKey(id, UQuotaUsed), info.quota);
      Stage(UserKey(id, UFilesDeleted), info.deleted);
    }

    method AddEmailUserIdIndex(email: string, id: Id)
      requires Valid()
      modifies this`st, dbh`db
      ensures Valid() && st == old(st).(index := old(st).index[email := id])
    {
      IndexPutIn(rep, Table(), st, email, id);
      Write(IndexKey(email), id);
      st := st.(index := st.index[email := id]);
    }

    method AddEmailToList(email: string) returns (ghost text: string)
      requires Valid()
      modifies this`st, dbh`db
      ensures Valid() && st == old(st).(emails := InsertText(old(st).emails, email))
      ensures Table() == old(Table())[EmailListKey := text]
      ensures Encode(EmailListKey) !in Touched(dbh.batch) ==> Staged() == old(Staged())[EmailListKey := text]
      ensures Split(text) == InsertText(old(st).emails, email)
    {
      EmailsInTable(rep, Table(), st);
      var _, list := Fetch(EmailListKey);
      var extended := AddKeyToStringList(list, email);
      text := extended;
      EmailsPutIn(rep, Table(), st, text);
      if extended != list {
        Write(EmailListKey, extended);
      } else {
        if Encode(EmailListKey) !in Touched(dbh.batch) {
          UntouchedSame(dbh.db, dbh.batch, Encode(EmailListKey));
          TypedGet(dbh.db, EmailListKey);
          TypedGet(dbh.Pending(), EmailListKey);
          SamePut(Staged(), EmailListKey, text);
        }
        SamePut(Table(), EmailListKey, text);
      }
      st := st.(emails := Split(text));
    }

    method RemoveEmailFromList(email: string) returns (ghost text: string)
      requires Valid()
      modifies this`st, dbh`db
      ensures Valid() && st == old(st).(emails := Remove(old(st).emails, email))
      ensures Table() == old(Table())[EmailListKey := text]
      ensures Encode(EmailListKey) !in Touched(dbh.batch) ==> Staged() == old(Staged())[EmailListKey := text]
      ensures Split(text) == Remove(old(st).emails, email)
    {
      EmailsInTable(rep, Table(), st);
      var _, list := Fetch(EmailListKey);
      var newList := RemoveKeyFromStringList(list, email);
      text := newList;
      EmailsPutIn(rep, Table(), st, text);
      Write(EmailListKey, newList);
      st := st.(emails := Split(text));
    }

    method ModifyUserInfo(id: Id, email: string, name: string, location: string,
                          filesShared: string, quota: string, filesDeleted: string) returns (ok: bool)
      requires Valid() && IsNum(quota)
      modifies this`st, dbh
      ensures Valid() && ok == (id in old(st).users) && (!ok ==> st == old(st))
      ensures ok ==>
                st == UserModified(old(st), id, email, name, location, Split(filesShared), Val(quota),
                                   Split(filesDeleted))
    {
      ghost var t := Table();
      ghost var s := st;
      UserEmailInTable(rep, t, s, id);
      var found, oldEmail := Fetch(UserKey(id, UEmail));
      if !found { return false; }
      dbh.ClearBatch();
      StageUserInfo(id, email, name, location, filesShared, quota, filesDeleted);
      ModifiedUser(rep, t, Staged(), s, id, email, name, location, filesShared, quota, filesDeleted);
      ghost var m := UserModifiedSameEmail(s, id, email, name, location, Split(filesShared), Val(quota),
                                           Split(filesDeleted));
      if email != oldEmail {
        StageEmailChange(m, id, oldEmail, email);
      }
      dbh.WriteBatch();
      st := EmailChanged(m, id, oldEmail, email);
      ok := true;
    }

    // The index is changed in the batch and the list of e-mails directly, before the batch is written.
    method StageEmailChange(ghost m: Store, id: Id, from: string, to: string)
      requires Valid() && Represents(rep, Staged(), m) && m.emails == st.emails && from != to
      requires Encode(EmailListKey) !in Touched(dbh.batch)
      modifies this`st, dbh
      ensures Represents(rep, Staged(), EmailChanged(m, id, from, to))
    {
      ghost var u := Staged();
      StageIndexChange(id, from, to);
      ghost var text1 := RemoveEmailFromList(from);
      ghost var text2 := AddEmailToList(to);
      ChangedEmail(rep, u, m, id, from, to, text1, text2);
    }

    method StageIndexChange(id: Id, from: string, to: string)
      modifies dbh`batch
      ensures Staged() == (old(Staged()) - {IndexKey(from)})[IndexKey(to) := id]
      ensures old(Encode(EmailListKey) !in Touched(dbh.batch)) ==> Encode(EmailListKey) !in Touched(dbh.batch)
    {
      EmailKeyDistinct();
      StageErase(IndexKey(from));
      Stage(IndexKey(to), id);
    }

    method StageUserInfo(id: Id, email: string, name: string, location: string,
                         filesShared: string, quota: string, filesDeleted: string)
      requires Touched(dbh.batch) == {}
      modifies dbh`batch
      ensures Staged() == SetUserInfo(old(Staged()), id, email, name, location, filesShared, quota, filesDeleted)
      ensures Encode(EmailListKey) !in Touched(dbh.batch)
    {
      StageField(id, UEmail, email);
      StageField(id, UName, name);
      StageField(id, ULocation, location);
      StageField(id, USharedFiles, filesShared);
      StageField(id, UQuotaUsed, quota);
      StageField(id, UFilesDeleted, filesDeleted);
    }

    // A field of a user is no e-mail list.
    method StageField(id: Id, f: UserField, value: string)
      modifies dbh`batch
      ensures Staged() == old(Staged())[UserKey(id, f) := value]
      ensures Encode(EmailListKey) !in old(Touched(dbh.batch)) ==> Encode(EmailListKey) !in Touched(dbh.batch)
    {
      EmailKeyDistinct();
      Stage(UserKey(id, f), value);
    }

    method DeleteUser(id: Id) returns (r: Outcome)
      requires Valid()
      modifies this`st, dbh
      ensures Valid()
      ensures id !in old(st).users ==> st == old(st) && r == Failed(STATUS_KEY_NOT_FOUND)
      ensures id in old(st).users ==> st == UserDropped(old(st), id) && r == Done
    {
      ghost var t := Table();
      UserEmailInTable(rep, t, st, id);
      var found, email := Fetch(UserKey(id, UEmail));
      if !found {
        return Failed(STATUS_KEY_NOT_FOUND);
      }
      dbh.ClearBatch();
      StageEraseUser(id);
      StageErase(IndexKey(email));
      dbh.WriteBatch();
      DeletedUser(rep, t, Table(), st, id, email);
      st := st.(users := st.users - {id}, index := st.index - {email});
      ghost var _ := RemoveEmailFromList(email);
      r := Done;
    }

    method StageEraseUser(id: Id)
      modifies dbh`batch
      ensures Staged() == EraseUser(old(Staged()), id)
    {
      StageErase(UserKey(id, UEmail));
      StageErase(UserKey(id, UPassword));
      StageErase(UserKey(id, UToken));
      StageErase(UserKey(id, UName));
      StageErase(UserKey(id, ULocation));
      StageErase(UserKey(id, UDirRoot));
      StageErase(UserKey(id, USharedFiles));
      StageErase(UserKey(id, UQuotaUsed));
    }
  }

  ghost predicate IsEmptyTable(t: Table) {
    t == map[][TicketKey(UserTicket) := ToStr(1)][TicketKey(DirTicket) := ToStr(1)]
              [TicketKey(FileTicket) := ToStr(1)][EmailListKey := ""]
  }

  ghost function PutNew(t: Table, k: Key, v: string): Table {
    if k in t then t else t[k := v]
  }

  lemma InitSteps(t: Table, t1: Table, t2: Table, t3: Table, t4: Table)
    requires t1 == PutNew(t, TicketKey(UserTicket), ToStr(1)) && t2 == PutNew(t1, TicketKey(DirTicket), ToStr(1))
    requires t3 == PutNew(t2, TicketKey(FileTicket), ToStr(1)) && t4 == PutNew(t3, EmailListKey, "")
    ensures t == map[] ==> IsEmptyTable(t4)
  {
  }

  lemma EmptyTable(rep: Rep, t: Table)
    requires Meaning(rep) && IsEmptyTable(t)
    ensures Represents(rep, t, EMPTY_STORE)
  {
    EmptyWhole(t);
    EmptyRaw(t);
    ToStrRoundTrip(1);
    var r := Raw(t);
    assert Read(r).users == map[] && Read(r).dirs == map[] && Read(r).files == map[];
    Closed(rep, t, EMPTY_STORE);
  }

  lemma EmptyWhole(t: Table)
    requires IsEmptyTable(t)
    ensures Whole(t.Keys)
  {
    forall kind ensures TicketKey(kind) in t.Keys {
      match kind {
        case UserTicket =>
        case DirTicket =>
        case FileTicket =>
      }
    }
  }

  lemma EmptyRaw(t: Table)
    requires IsEmptyTable(t)
    ensures
      var one := ToStr(1);
      Raw(t) == RawStore(map[], map[], map[], map[][UserTicket := one][DirTicket := one][FileTicket := one], map[], "")
  {
    var one, t0: Table := ToStr(1), map[];
    assert Raw(t0) == RawStore(map[], map[], map[], map[], map[], "");
    RawPutTicket(t0, UserTicket, one);
    var t1 := t0[TicketKey(UserTicket) := one];
    RawPutTicket(t1, DirTicket, one);
    var t2 := t1[TicketKey(DirTicket) := one];
    RawPutTicket(t2, FileTicket, one);
    RawPutEmails(t2[TicketKey(FileTicket) := one], "");
  }

  // The counter's text is the next id, and storing its successor takes the ticket.
  lemma TicketText(rep: Rep, t: Table, s: Store, kind: TicketKind)
    requires Represents(rep, t, s)
    ensures TicketKey(kind) in t && t[TicketKey(kind)] == NextId(s, kind)
    ensures Val(t[TicketKey(kind)]) == Ticket(s, kind)
  {
    Opened(rep, t, s);
    assert TicketKey(kind) in t.Keys;
    assert kind in Raw(t).tickets && Raw(t).tickets[kind] == t[TicketKey(kind)];
    assert IsTicket(Raw(t).tickets[kind]);
  }

  lemma TicketTaken(rep: Rep, t: Table, s: Store, kind: TicketKind)
    requires Represents(rep, t, s)
    ensures Represents(rep, t[TicketKey(kind) := ToStr((Ticket(s, kind) + 1) % WORD)], TakeTicket(s, kind))
  {
    TicketPutIn(rep, t, s, kind, (Ticket(s, kind) + 1) % WORD);
  }

  lemma TicketPutIn(rep: Rep, t: Table, s: Store, kind: TicketKind, n: nat)
    requires Represents(rep, t, s) && n < WORD
    ensures Represents(rep, t[TicketKey(kind) := ToStr(n)], WithTicket(s, kind, n))
  {
    Opened(rep, t, s);
    TicketWritten(t, kind, n);
    Closed(rep, t[TicketKey(kind) := ToStr(n)], WithTicket(s, kind, n));
  }

  lemma NextIdIsKey(s: Store, kind: TicketKind)
    ensures IsKey(NextId(s, kind))
  {
    ToStrRoundTrip(Ticket(s, kind));
  }

  // The next directory id is neither the mark of a missing parent nor the id after it.
  lemma NextIdNew(s: Store)
    ensures NextId(s, DirTicket) != NO_PARENT
    ensures NextId(s, DirTicket) != NextId(TakeTicket(s, DirTicket), DirTicket)
  {
    ToStrRoundTrip(s.nextDir);
    ToStrRoundTrip((s.nextDir + 1) % WORD);
    assert !IsDigit(NO_PARENT[0]);
  }

  // ---------- reading a table ----------

  lemma UserInTable(rep: Rep, t: Table, s: Store, id: Id)
    requires Represents(rep, t, s)
    ensures HasUser(t.Keys, id) <==> id in s.users
    ensures HasUser(t.Keys, id) ==> ReadUser(UserInfoAt(t, id)) == s.users[id] && IsNum(UserInfoAt(t, id).quota)
  {
    Opened(rep, t, s);
    if HasUser(t.Keys, id) {
      assert Raw(t).users[id] == UserInfoAt(t, id);
    }
  }

  lemma DirInTable(rep: Rep, t: Table, s: Store, id: Id)
    requires Represents(rep, t, s)
    ensures HasDir(t.Keys, id) <==> id in s.dirs
    ensures HasDir(t.Keys, id) ==> ReadDir(DirInfoAt(t, id)) == s.dirs[id] && IsNum(DirInfoAt(t, id).size)
  {
    Opened(rep, t, s);
    if HasDir(t.Keys, id) {
      assert Raw(t).dirs[id] == DirInfoAt(t, id);
    }
  }

  lemma FileInTable(rep: Rep, t: Table, s: Store, id: Id)
    requires Represents(rep, t, s)
    ensures HasFile(t.Keys, id) <==> id in s.files
    ensures HasFile(t.Keys, id) ==>
              && ReadFile(FileInfoAt(t, id)) == s.files[id]
              && IsNum(FileInfoAt(t, id).size) && IsNum(FileInfoAt(t, id).revision)
  {
    Opened(rep, t, s);
    if HasFile(t.Keys, id) {
      assert Raw(t).files[id] == FileInfoAt(t, id);
    }
  }

  lemma DirListsInTable(rep: Rep, t: Table, s: Store, id: Id)
    requires Represents(rep, t, s)
    ensures forall f :: DirKey(id, f) in t ==> id in s.dirs
    ensures id in s.dirs ==>
              && DirKey(id, DFiles) in t && Split(t[DirKey(id, DFiles)]) == s.dirs[id].files
              && DirKey(id, DDirs) in t && Split(t[DirKey(id, DDirs)]) == s.dirs[id].dirs
  {
    Opened(rep, t, s);
    if exists f :: DirKey(id, f) in t {
      assert HasDir(t.Keys, id);
    }
    if HasDir(t.Keys, id) {
      assert Raw(t).dirs[id] == DirInfoAt(t, id);
    }
  }

  lemma UserEmailInTable(rep: Rep, t: Table, s: Store, id: Id)
    requires Represents(rep, t, s)
    ensures UserKey(id, UEmail) in t <==> id in s.users
    ensures id in s.users ==> t[UserKey(id, UEmail)] == s.users[id].email
  {
    Opened(rep, t, s);
    if UserKey(id, UEmail) in t {
      assert HasUser(t.Keys, id);
      assert Raw(t).users[id] == UserInfoAt(t, id);
    }
  }

  lemma IndexInTable(rep: Rep, t: Table, s: Store, email: string)
    requires Represents(rep, t, s)
    ensures IndexKey(email) in t <==> email in s.index
    ensures email in s.index ==> t[IndexKey(email)] == s.index[email]
  {
    Opened(rep, t, s);
  }

  lemma EmailsInTable(rep: Rep, t: Table, s: Store)
    requires Represents(rep, t, s)
    ensures EmailListKey in t && Split(t[EmailListKey]) == s.emails
  {
    Opened(rep, t, s);
  }

  // ---------- the tables after a batch ----------

  lemma IndexPutIn(rep: Rep, t: Table, s: Store, email: string, id: Id)
    requires Represents(rep, t, s)
    ensures Represents(rep, t[IndexKey(email) := id], s.(index := s.index[email := id]))
  {
    Opened(rep, t, s);
    IndexWritten(t, email, id);
    Closed(rep, t[IndexKey(email) := id], s.(index := s.index[email := id]));
  }

  lemma IndexErasedFrom(rep: Rep, t: Table, s: Store, email: string)
    requires Represents(rep, t, s)
    ensures Represents(rep, t - {IndexKey(email)}, s.(index := s.index - {email}))
  {
    Opened(rep, t, s);
    IndexErased(t, email);
    Closed(rep, t - {IndexKey(email)}, s.(index := s.index - {email}));
  }

  lemma EmailsPutIn(rep: Rep, t: Table, s: Store, text: string)
    requires Represents(rep, t, s)
    ensures Represents(rep, t[EmailListKey := text], s.(emails := Split(text)))
  {
    Opened(rep, t, s);
    EmailsWritten(t, text);
    Closed(rep, t[EmailListKey := text], s.(emails := Split(text)));
  }

  lemma NewDirInfo(owner: Id, name: string, date: string, parent: Id)
    ensures
      var i := DirInfo(name, date, "", owner, parent, "", "", "0");
      IsNum(i.size) && ReadDir(i) == Dir(name, date, "", owner, parent, [], [], 0)
  {
    assert "0"[..0] == "";
  }

  lemma PutDirIn(rep: Rep, t: Table, s: Store, id: Id, i: DirInfo)
    requires Represents(rep, t, s) && IsNum(i.size)
    ensures Represents(rep, PutDir(t, id, i), s.(dirs := s.dirs[id := ReadDir(i)]))
  {
    Opened(rep, t, s);
    RawPutDir(t, id, i);
    WholePutDir(t, id, i);
    DirWritten(t, PutDir(t, id, i), id, i);
    Closed(rep, PutDir(t, id, i), s.(dirs := s.dirs[id := ReadDir(i)]));
  }

  ghost function PutNewDir(t: Table, id: Id, i: DirInfo, parentList: string): Table {
    if i.parent == NO_PARENT then PutDir(t, id, i) else PutDir(t, id, i)[DirKey(i.parent, DDirs) := parentList]
  }

  // t is the table after the new id was taken, u after the batch was written.
  lemma AddedDirectory(rep: Rep, s: Store, t: Table, u: Table, owner: Id, name: string, date: string, parent: Id,
                       list: string)
    requires Represents(rep, t, TakeTicket(s, DirTicket))
    requires parent != NO_PARENT ==> parent in s.dirs && DirKey(parent, DDirs) in t
                                     && list == t[DirKey(parent, DDirs)] + [DELIMITER] + NextId(s, DirTicket)
    requires u == PutNewDir(t, NextId(s, DirTicket), DirInfo(name, date, "", owner, parent, "", "", "0"), list)
    ensures Represents(rep, u, DirectoryAdded(s, owner, name, date, parent).0)
  {
    var id, s1 := NextId(s, DirTicket), TakeTicket(s, DirTicket);
    var i := DirInfo(name, date, "", owner, parent, "", "", "0");
    NewDirInfo(owner, name, date, parent);
    PutDirIn(rep, t, s1, id, i);
    if parent != NO_PARENT {
      DirListsInTable(rep, t, s1, parent);
      NextIdIsKey(s, DirTicket);
      SplitAppend(t[DirKey(parent, DDirs)], id);
      ModifiedDirLists(rep, PutDir(t, id, i), s1.(dirs := s1.dirs[id := ReadDir(i)]), parent, list);
    }
  }

  lemma DeletedDir(rep: Rep, t: Table, u: Table, s: Store, id: Id)
    requires Represents(rep, t, s) && u == EraseDir(t, id)
    ensures Represents(rep, u, s.(dirs := s.dirs - {id}))
  {
    Opened(rep, t, s);
    RawEraseDir(t, id);
    WholeEraseDir(t, id);
    DirErased(t, u, id);
    Closed(rep, u, s.(dirs := s.dirs - {id}));
  }

  lemma ModifiedDir(rep: Rep, t: Table, u: Table, s: Store, id: Id, name: string, date: string, tags: string,
                    size: string)
    requires Represents(rep, t, s) && id in s.dirs && IsNum(size) && u == SetDirInfo(t, id, name, date, tags, size)
    ensures Represents(rep, u, s.(dirs := s.dirs[id := s.dirs[id].(name := name, date := date, tags := tags,
                                                              size := Val(size))]))
  {
    Opened(rep, t, s);
    RawSetDirInfo(t, id, name, date, tags, size);
    DirWritten(t, u, id, Raw(t).dirs[id].(name := name, date := date, tags := tags, size := size));
    Closed(rep, u, s.(dirs := s.dirs[id := s.dirs[id].(name := name, date := date, tags := tags, size := Val(size))]));
  }

  lemma ModifiedDirLists(rep: Rep, t: Table, s: Store, id: Id, list: string)
    requires Represents(rep, t, s) && id in s.dirs
    ensures Represents(rep, t[DirKey(id, DFiles) := list], s.(dirs := s.dirs[id := s.dirs[id].(files := Split(list))]))
    ensures Represents(rep, t[DirKey(id, DDirs) := list], s.(dirs := s.dirs[id := s.dirs[id].(dirs := Split(list))]))
  {
    Opened(rep, t, s);
    RawSetDirLists(t, id, list);
    DirWritten(t, t[DirKey(id, DFiles) := list], id, Raw(t).dirs[id].(files := list));
    DirWritten(t, t[DirKey(id, DDirs) := list], id, Raw(t).dirs[id].(dirs := list));
    Closed(rep, t[DirKey(id, DFiles) := list], s.(dirs := s.dirs[id := s.dirs[id].(files := Split(list))]));
    Closed(rep, t[DirKey(id, DDirs) := list], s.(dirs := s.dirs[id := s.dirs[id].(dirs := Split(list))]));
  }

  lemma NewFileInfo(owner: Id, name: string, extension: string, date: string, size: string, parent: Id)
    requires IsNum(size)
    ensures
      var i := FileInfo(name, extension, date, owner, "", owner, size, "", "1", parent);
      && IsNum(i.size) && IsNum(i.revision)
      && ReadFile(i) == File(name, extension, date, owner, "", owner, Val(size), [], 1, parent)
  {
    assert "1"[..0] == "";
  }

  lemma PutFileIn(rep: Rep, t: Table, s: Store, id: Id, i: FileInfo)
    requires Represents(rep, t, s) && IsNum(i.size) && IsNum(i.revision)
    ensures Represents(rep, PutFile(t, id, i), s.(files := s.files[id := ReadFile(i)]))
  {
    Opened(rep, t, s);
    RawPutFile(t, id, i);
    WholePutFile(t, id, i);
    FileWritten(t, PutFile(t, id, i), id, i);
    Closed(rep, PutFile(t, id, i), s.(files := s.files[id := ReadFile(i)]));
  }

  lemma AddedFile(rep: Rep, s: Store, t: Table, u: Table, owner: Id, name: string, extension: string, date: string,
                  size: string, parent: Id, list: string)
    requires Represents(rep, t, TakeTicket(s, FileTicket)) && parent in s.dirs && IsNum(size)
    requires Split(list) == s.dirs[parent].files
    requires
      var id := NextId(s, FileTicket);
      u == PutFile(t, id, FileInfo(name, extension, date, owner, "", owner, size, "", "1", parent))
                  [DirKey(parent, DFiles) := list + [DELIMITER] + id]
    ensures Represents(rep, u, FileAdded(s, owner, name, extension, date, Val(size), parent))
  {
    var id, s1 := NextId(s, FileTicket), TakeTicket(s, FileTicket);
    var i := FileInfo(name, extension, date, owner, "", owner, size, "", "1", parent);
    NewFileInfo(owner, name, extension, date, size, parent);
    PutFileIn(rep, t, s1, id, i);
    NextIdIsKey(s, FileTicket);
    SplitAppend(list, id);
    ModifiedDirLists(rep, PutFile(t, id, i), s1.(files := s1.files[id := ReadFile(i)]), parent,
                     list + [DELIMITER] + id);
  }

  lemma DeletedFile(rep: Rep, t: Table, u: Table, s: Store, id: Id)
    requires Represents(rep, t, s) && u == EraseFile(t, id)
    ensures Represents(rep, u, s.(files := s.files - {id}))
  {
    Opened(rep, t, s);
    RawEraseFile(t, id);
    WholeEraseFile(t, id);
    FileErased(t, u, id);
    Closed(rep, u, s.(files := s.files - {id}));
  }

  lemma ModifiedFile(rep: Rep, t: Table, u: Table, s: Store, id: Id, name: string, extension: string, date: string,
                     tags: string,
                     users: string, modifier: Id, parent: Id)
    requires Represents(rep, t, s) && id in s.files
    requires u == SetFileInfo(t, id, name, extension, date, tags, users, modifier, parent)
    ensures Represents(rep, u,
                       s.(files := s.files[id := s.files[id].(name := name, extension := extension, date := date,
                                                                 tags := tags, users := Split(users),
                                                                 modifier := modifier, parent := parent)]))
  {
    Opened(rep, t, s);
    RawSetFileInfo(t, id, name, extension, date, tags, users, modifier, parent);
    FileWritten(t, u, id, Raw(t).files[id].(name := name, extension := extension, date := date, tags := tags,
                                            users := users, modifier := modifier, parent := parent));
    Closed(rep, u, s.(files := s.files[id := s.files[id].(name := name, extension := extension, date := date,
        tags := tags, users := Split(users), modifier := modifier, parent := parent)]));
  }

  lemma ModifiedRevision(rep: Rep, t: Table, s: Store, id: Id, revision: string)
    requires Represents(rep, t, s) && id in s.files && IsNum(revision)
    ensures Represents(rep, t[FileKey(id, FRevision) := revision],
                       s.(files := s.files[id := s.files[id].(revision := Val(revision))]))
  {
    Opened(rep, t, s);
    RawSetRevision(t, id, revision);
    FileWritten(t, t[FileKey(id, FRevision) := revision], id, Raw(t).files[id].(revision := revision));
    Closed(rep, t[FileKey(id, FRevision) := revision],
           s.(files := s.files[id := s.files[id].(revision := Val(revision))]));
  }

  ghost function PutNewUser(t: Table, id: Id, i: UserInfo, password: string, token: string): Table {
    t[UserKey(id, UEmail) := i.email][UserKey(id, UPassword) := password][UserKey(id, UToken) := token]
     [UserKey(id, UName) := i.name][UserKey(id, ULocation) := i.location][UserKey(id, UDirRoot) := i.root]
      [UserKey(id, USharedFiles) := i.shared][UserKey(id, UQuotaUsed) := i.quota]
      [UserKey(id, UFilesDeleted) := i.deleted]
  }

  // The password and the token are not part of the record; where they are written makes no difference.
  lemma PutNewUserOrder(t: Table, id: Id, i: UserInfo, password: string, token: string)
    ensures PutNewUser(t, id, i, password, token)
         == PutUser(t[UserKey(id, UPassword) := password][UserKey(id, UToken) := token], id, i)
  {
  }

  lemma SecretsPut(rep: Rep, t: Table, s: Store, id: Id, password: string, token: string)
    requires Represents(rep, t, s)
    ensures Represents(rep, t[UserKey(id, UPassword) := password][UserKey(id, UToken) := token], s)
  {
    Opened(rep, t, s);
    RawSecrets(t, id, password, token);
    WholeSecrets(t, id, password, token);
    Closed(rep, t[UserKey(id, UPassword) := password][UserKey(id, UToken) := token], s);
  }

  lemma SameUpdate(m: map<Id, UserInfo>, id: Id)
    ensures id in m ==> m[id := m[id]] == m
    ensures id !in m ==> m - {id} == m
  {
  }

  lemma SecretsApart(t: Table, id: Id, password: string, token: string)
    ensures
      var u := t[UserKey(id, UPassword) := password][UserKey(id, UToken) := token];
      && OnlyUser(t, u, id) && (HasUser(u.Keys, id) <==> HasUser(t.Keys, id))
      && (HasUser(t.Keys, id) ==> UserInfoAt(u, id) == UserInfoAt(t, id))
  {
  }

  lemma RawSecrets(t: Table, id: Id, password: string, token: string)
    ensures Raw(t[UserKey(id, UPassword) := password][UserKey(id, UToken) := token]) == Raw(t)
  {
    var u := t[UserKey(id, UPassword) := password][UserKey(id, UToken) := token];
    SecretsApart(t, id, password, token);
    RawOnlyUser(t, u, id);
    if HasUser(t.Keys, id) {
      assert Raw(t).users[id] == UserInfoAt(t, id);
    }
    SameUpdate(Raw(t).users, id);
  }

  lemma WholeSecrets(t: Table, id: Id, password: string, token: string)
    requires Whole(t.Keys)
    ensures Whole(t[UserKey(id, UPassword) := password][UserKey(id, UToken) := token].Keys)
  {
    var u := t[UserKey(id, UPassword) := password][UserKey(id, UToken) := token];
    forall j, f | DirKey(j, f) in u.Keys ensures HasDir(u.Keys, j) {
      assert HasDir(t.Keys, j);
    }
    forall j | UserKey(j, UEmail) in u.Keys ensures HasUser(u.Keys, j) {
      assert HasUser(t.Keys, j);
    }
  }

  lemma NewUserInfo(email: string, name: string, location: string, root: Id)
    ensures
      var i := UserInfo(email, name, location, root, "", "0", "");
      IsNum(i.quota) && ReadUser(i) == User(email, name, location, root, [], 0, [])
  {
    assert "0"[..0] == "";
  }

  lemma NewUser(rep: Rep, t: Table, u: Table, s: Store, id: Id, email: string, name: string, location: string, root: Id,
                password: string, token: string)
    requires Represents(rep, t, s)
    requires u == PutNewUser(t, id, UserInfo(email, name, location, root, "", "0", ""), password, token)
    ensures Represents(rep, u, s.(users := s.users[id := User(email, name, location, root, [], 0, [])]))
  {
    var i := UserInfo(email, name, location, root, "", "0", "");
    NewUserInfo(email, name, location, root);
    PutNewUserOrder(t, id, i, password, token);
    SecretsPut(rep, t, s, id, password, token);
    PutUserIn(rep, t[UserKey(id, UPassword) := password][UserKey(id, UToken) := token], s, id, i);
  }

  lemma PutUserIn(rep: Rep, t: Table, s: Store, id: Id, i: UserInfo)
    requires Represents(rep, t, s) && IsNum(i.quota)
    ensures Represents(rep, PutUser(t, id, i), s.(users := s.users[id := ReadUser(i)]))
  {
    Opened(rep, t, s);
    RawPutUser(t, id, i);
    WholePutUser(t, id, i);
    UserWritten(t, PutUser(t, id, i), id, i);
    Closed(rep, PutUser(t, id, i), s.(users := s.users[id := ReadUser(i)]));
  }

  lemma SamePut(t: Table, k: Key, v: string)
    requires k in t && t[k] == v
    ensures t == t[k := v]
  {
  }

  lemma EmailKeyDistinct()
    ensures forall k :: k != EmailListKey ==> Encode(k) != Encode(EmailListKey)
  {
    forall k | k != EmailListKey ensures Encode(k) != Encode(EmailListKey) {
      if Encode(k) == Encode(EmailListKey) {
        EncodeInjective(k, EmailListKey);
      }
    }
  }

  lemma ModifiedUser(rep: Rep, t: Table, u: Table, s: Store, id: Id, email: string, name: string, location: string,
                     shared: string, quota: string, deleted: string)
    requires Represents(rep, t, s) && id in s.users && IsNum(quota)
    requires u == SetUserInfo(t, id, email, name, location, shared, quota, deleted)
    ensures Represents(rep, u,
                       UserModifiedSameEmail(s, id, email, name, location, Split(shared), Val(quota), Split(deleted)))
  {
    Opened(rep, t, s);
    RawSetUserInfo(t, id, email, name, location, shared, quota, deleted);
    UserWritten(t, u, id, Raw(t).users[id].(email := email, name := name, location := location,
                                            shared := shared, quota := quota, deleted := deleted));
    Closed(rep, u, UserModifiedSameEmail(s, id, email, name, location, Split(shared), Val(quota), Split(deleted)));
  }

  // The direct writes to the e-mail list and the batched writes to the index together change the e-mail.
  lemma ChangedEmail(rep: Rep, u: Table, s: Store, id: Id, from: string, to: string, text1: string, text2: string)
    requires Represents(rep, u, s) && from != to && Split(text2) == InsertText(Remove(s.emails, from), to)
    ensures Represents(rep, (u - {IndexKey(from)})[IndexKey(to) := id][EmailListKey := text1][EmailListKey := text2],
                       EmailChanged(s, id, from, to))
  {
    IndexErasedFrom(rep, u, s, from);
    var u1, s1 := u - {IndexKey(from)}, s.(index := s.index - {from});
    IndexPutIn(rep, u1, s1, to, id);
    var u2, s2 := u1[IndexKey(to) := id], s1.(index := s1.index[to := id]);
    EmailsPutIn(rep, u2, s2, text1);
    EmailsPutIn(rep, u2[EmailListKey := text1], s2.(emails := Split(text1)), text2);
  }

  lemma DeletedUser(rep: Rep, t: Table, u: Table, s: Store, id: Id, email: string)
    requires Represents(rep, t, s) && u == EraseUser(t, id) - {IndexKey(email)}
    ensures Represents(rep, u, s.(users := s.users - {id}, index := s.index - {email}))
  {
    EraseUserFrom(rep, t, s, id);
    IndexErasedFrom(rep, EraseUser(t, id), s.(users := s.users - {id}), email);
  }

  lemma EraseUserFrom(rep: Rep, t: Table, s: Store, id: Id)
    requires Represents(rep, t, s)
    ensures Represents(rep, EraseUser(t, id), s.(users := s.users - {id}))
  {
    Opened(rep, t, s);
    RawEraseUser(t, id);
    WholeEraseUser(t, id);
    UserErased(t, EraseUser(t, id), id);
    Closed(rep, EraseUser(t, id), s.(users := s.users - {id}));
  }
}
