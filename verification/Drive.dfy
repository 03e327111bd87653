/** What each request does to the store of records. */
module Drive {
  import opened Basics
  import opened Text
  import opened Keys
  import opened Records
  import opened DataHandlers

  const STATUS_FAIL_SAVING_FILE := 7
  const STATUS_USER_FORBIDDEN := 9
  const STATUS_MAX_QUOTA_EXCEEDED := 10
  const STATUS_DELETE_ROOT_DIR_FORBIDDEN := 11

  // A failure that leaves the caller's status variable as it was.
  const STATUS_UNSET := 0

  const LABEL_ZERO: Id := "0"

  // ---------- the directory tree ----------

  type Parents = map<Id, Id>

  function Par(dirs: map<Id, Dir>): Parents {
    map d | d in dirs :: dirs[d].parent
  }

  // d and its ancestors. Ids grow from parent to child, which is why the climb ends.
  function Chain(par: Parents, d: Id): set<Id>
    decreases Val(d)
  {
    if d !in par then {}
    else if par[d] != NO_PARENT && Val(par[d]) < Val(d) then {d} + Chain(par, par[d])
    else {d}
  }

  // The directories below and including d.
  function Subtree(dirs: map<Id, Dir>, d: Id): set<Id> {
    set x | x in dirs && d in Chain(Par(dirs), x)
  }

  // delta more bytes, modulo the word size, in every directory from `at` up to the root.
  function AddSizes(dirs: map<Id, Dir>, at: Id, delta: int): map<Id, Dir> {
    Grown(dirs, Chain(Par(dirs), at), delta)
  }

  function Grown(dirs: map<Id, Dir>, up: set<Id>, delta: int): map<Id, Dir> {
    map d | d in dirs :: if d in up then dirs[d].(size := (dirs[d].size + delta) % WORD) else dirs[d]
  }

  function SetDates(dirs: map<Id, Dir>, at: Id, date: string): map<Id, Dir> {
    Dated(dirs, Chain(Par(dirs), at), date)
  }

  function Dated(dirs: map<Id, Dir>, up: set<Id>, date: string): map<Id, Dir> {
    map d | d in dirs :: if d in up then dirs[d].(date := date) else dirs[d]
  }

  // Ids in the order of a walk of the subtree of d: each directory before (pre) or after its children.
  function Walk(s: Store, pre: bool, d: Id): seq<Id>
    decreases Room(s, d), if d in s.dirs then |s.dirs[d].dirs| + 1 else 0
  {
    if d !in s.dirs then []
    else (if pre then [d] else []) + WalkAll(s, pre, d, s.dirs[d].dirs) + (if pre then [] else [d])
  }

  function WalkAll(s: Store, pre: bool, d: Id, kids: seq<Id>): seq<Id>
    decreases Room(s, d), |kids|
  {
    if kids == [] then []
    else
      var last := kids[|kids| - 1];
      WalkAll(s, pre, d, kids[..|kids| - 1]) + (if Val(d) < Val(last) < s.nextDir then Walk(s, pre, last) else [])
  }

  function Room(s: Store, d: Id): nat {
    if Val(d) < s.nextDir then s.nextDir - Val(d) else 0
  }

  // The files listed in the directories ds, directory by directory.
  function FilesIn(dirs: map<Id, Dir>, ds: seq<Id>): seq<Id> {
    if ds == [] then []
    else
      var last := ds[|ds| - 1];
      FilesIn(dirs, ds[..|ds| - 1]) + (if last in dirs then dirs[last].files else [])
  }

  // ---------- sharing ----------

  function Shared(s: Store, f: Id, u: Id, date: string): Store
    requires f in s.files && u in s.users
  {
    s.(users := s.users[u := s.users[u].(shared := Insert(s.users[u].shared, f))],
       files := s.files[f := s.files[f].(users := Insert(s.files[f].users, u), date := date,
                                         modifier := s.files[f].owner)])
  }

  function Unshared(s: Store, f: Id, u: Id, date: string): Store
    requires f in s.files && u in s.users
  {
    s.(users := s.users[u := s.users[u].(shared := Remove(s.users[u].shared, f))],
       files := s.files[f := s.files[f].(users := Remove(s.files[f].users, u), date := date,
                                         modifier := s.files[f].owner)])
  }

  // ---------- the trash ----------

  // A file is moved from its directory to its owner's trash; all its shares go.
  function Trashed(s: Store, f: Id): Store {
    if f !in s.files || s.files[f].owner !in s.users || s.files[f].parent !in s.dirs then s
    else
      var file := s.files[f];
      var dir := s.dirs[file.parent];
      s.(users := map u | u in s.users :: s.users[u].(
                    deleted := if u == file.owner then s.users[u].deleted + [f] else s.users[u].deleted,
                    shared := if u in file.users then Remove(s.users[u].shared, f) else s.users[u].shared),
         files := s.files[f := file.(users := [], modifier := if file.users == [] then file.modifier else file.owner)],
         dirs := AddSizes(s.dirs[file.parent := dir.(files := Remove(dir.files, f))], file.parent, 0 - file.size))
  }

  function TrashAll(s: Store, fs: seq<Id>): Store {
    if fs == [] then s else Trashed(TrashAll(s, fs[..|fs| - 1]), fs[|fs| - 1])
  }

  // A trashed file returns to its directory, or to root when that directory is gone.
  function Restored(s: Store, root: Id, f: Id): Store {
    if f !in s.files then s
    else
      var file := s.files[f];
      var home := if file.parent in s.dirs then file.parent else root;
      if home !in s.dirs then s
      else
        var dir := s.dirs[home];
        s.(files := if file.parent in s.dirs then s.files
                    else s.files[f := file.(parent := root, modifier := file.owner)],
           dirs := AddSizes(s.dirs[home := dir.(files := Insert(dir.files, f))], home, file.size))
  }

  function RestoreAll(s: Store, root: Id, fs: seq<Id>): Store {
    if fs == [] then s else Restored(RestoreAll(s, root, fs[..|fs| - 1]), root, fs[|fs| - 1])
  }

  function WithQuota(s: Store, u: Id, delta: int): Store
    requires u in s.users
  {
    s.(users := s.users[u := s.users[u].(quota := (s.users[u].quota + delta) % WORD)])
  }

  function Purged(s: Store, f: Id): Store {
    if f !in s.files || s.files[f].owner !in s.users then s
    else WithQuota(s.(files := s.files - {f}), s.files[f].owner, 0 - s.files[f].size)
  }

  function PurgeAll(s: Store, fs: seq<Id>): Store {
    if fs == [] then s else Purged(PurgeAll(s, fs[..|fs| - 1]), fs[|fs| - 1])
  }

  function WithTrash(s: Store, u: Id, deleted: seq<Id>): Store
    requires u in s.users
  {
    s.(users := s.users[u := s.users[u].(deleted := deleted)])
  }

  // ---------- subtree deletion ----------

  function Erased(s: Store, ds: set<Id>): Store {
    s.(dirs := s.dirs - ds)
  }

  // The directories ds are erased and the files listed in them are in the trash.
  function Deleted(s: Store, ds: seq<Id>): Store {
    Erased(TrashAll(s, FilesIn(s.dirs, ds)), set d | d in ds)
  }

  // ---------- the requests ----------

  datatype Request =
    | SignUp(email: string, firstName: string, lastName: string, gpsLat: string, gpsLon: string, date: string)
    | NewDirectory(user: Id, name: string, date: string, parent: Id)
    | NewFile(user: Id, name: string, extension: string, date: string, size: nat, parent: Id, room: nat)
    | DeleteDirectory(user: Id, dir: Id)
    | DeleteFile(user: Id, file: Id)
    | DeleteUser(user: Id)
    | PurgeTrash(user: Id)
    | PurgeSelected(user: Id, selected: seq<Id>)
    | RecoverTrash(user: Id)
    | RecoverSelected(user: Id, selected: seq<Id>)
    | SetFileShare(user: Id, file: Id, other: Id, date: string)
    | UnsetFileShare(user: Id, file: Id, other: Id, date: string)
    | OverwriteSharing(user: Id, file: Id, others: seq<Id>, date: string)
    | ModifyUserInfo(user: Id, email: string, firstName: string, lastName: string, gpsLat: string, gpsLon: string)
    | ModifyDirectoryInfo(user: Id, dir: Id, name: string, date: string, tags: string)
    | ModifyFileInfo(user: Id, file: Id, name: string, extension: string, date: string, tags: string)

  function DoNewDirectory(s: Store, user: Id, name: string, date: string, parentId: Id): (Store, Outcome) {
    if parentId == LABEL_ZERO && user !in s.users then (s, Failed(STATUS_KEY_NOT_FOUND))
    else
      var parent := if parentId == LABEL_ZERO then s.users[user].root else parentId;
      var (s1, r) := DirectoryAdded(s, user, name, date, parent);
      if r != Done then (s1, r)
      else if parent !in s1.dirs then (s1, Failed(STATUS_KEY_NOT_FOUND))
      else (s1.(dirs := SetDates(s1.dirs, parent, date)), Done)
  }

  datatype Revision = NewName | Revision(file: Id) | MissingFile

  // The first listed file with this name and extension; the search fails at an id without a record.
  function FindRevision(s: Store, ids: seq<Id>, name: string, extension: string): Revision {
    if ids == [] then NewName
    else if ids[0] !in s.files then MissingFile
    else if s.files[ids[0]].name == name && s.files[ids[0]].extension == extension then Revision(ids[0])
    else FindRevision(s, ids[1..], name, extension)
  }

  // A new upload of an existing name: the revision grows, the directory sizes trade the recorded size for
  // the new one, and the recorded size stays.
  function Revised(s: Store, user: Id, f: Id, date: string, size: nat, parent: Id): Store
    requires user in s.users && f in s.files
  {
    Accounted(WithRevision(s, f), user, parent, date, size, true, s.files[f].size)
  }

  function WithRevision(s: Store, f: Id): Store
    requires f in s.files
  {
    s.(files := s.files[f := s.files[f].(revision := (s.files[f].revision + 1) % WORD)])
  }

  function Uploaded(s: Store, user: Id, name: string, extension: string, date: string, size: nat, parent: Id): Store
    requires user in s.users && parent in s.dirs
  {
    Accounted(FileAdded(s, user, name, extension, date, size, parent), user, parent, date, size, false, 0)
  }

  // The record is written and erased, but the directory goes on listing it.
  function FailedUpload(s: Store, user: Id, name: string, extension: string, date: string, size: nat, parent: Id): Store
    requires parent in s.dirs
  {
    var s1 := FileAdded(s, user, name, extension, date, size, parent);
    s1.(files := s1.files - {NextId(s, FileTicket)})
  }

  // The quota and the directories after an upload, which may replace `before` bytes.
  function Accounted(s: Store, user: Id, parent: Id, date: string, size: nat, again: bool, before: nat): Store
    requires user in s.users
  {
    WithQuota(s, user, size).(dirs := Replaced(SetDates(s.dirs, parent, date), parent, size, again, before))
  }

  function Replaced(dirs: map<Id, Dir>, parent: Id, size: nat, again: bool, before: nat): map<Id, Dir> {
    AddSizes(if again then AddSizes(dirs, parent, 0 - before) else dirs, parent, size)
  }

  // The bytes of a file that reach a disk on which room bytes are left. Only when there are none is the save a failure;
  // so an empty file is never saved, and a file that is cut off is.
  function Written(size: nat, room: nat): nat {
    if size <= room then size else room
  }

  function DoNewFile(s: Store, max: nat, user: Id, name: string, extension: string, date: string, size: nat,
                     parentId: Id, room: nat): (Store, Outcome)
  {
    if user !in s.users then (s, Failed(STATUS_KEY_NOT_FOUND))
    else if (s.users[user].quota + size) % WORD > max then (s, Failed(STATUS_MAX_QUOTA_EXCEEDED))
    else
      var parent := if parentId == LABEL_ZERO then s.users[user].root else parentId;
      if parent !in s.dirs then (s, Failed(STATUS_UNSET))
      else
        match FindRevision(s, s.dirs[parent].files, name, extension)
        case MissingFile => (s, Failed(STATUS_UNSET))
        case Revision(f) =>
          if f !in s.files then (s, Failed(STATUS_UNSET))
          else if Written(size, room) == 0 then (s, Failed(STATUS_FAIL_SAVING_FILE))
          else (Revised(s, user, f, date, size, parent), Done)
        case NewName =>
          if Written(size, room) == 0 then
            (FailedUpload(s, user, name, extension, date, size, parent), Failed(STATUS_FAIL_SAVING_FILE))
          else (Uploaded(s, user, name, extension, date, size, parent), Done)
  }

  function DoDeleteFile(s: Store, user: Id, f: Id): (Store, Outcome) {
    if f !in s.files then (s, Failed(STATUS_KEY_NOT_FOUND))
    else
      var file := s.files[f];
      if file.owner == user then
        if user !in s.users then (s, Failed(STATUS_KEY_NOT_FOUND))
        else if file.parent !in s.dirs then
          (WithTrash(s, user, s.users[user].deleted + [f]), Failed(STATUS_KEY_NOT_FOUND))
        else (Trashed(s, f), Done)
      else if user !in file.users then (s, Failed(STATUS_USER_FORBIDDEN))
      else if user !in s.users then (s, Failed(STATUS_KEY_NOT_FOUND))
      else (Unshared(s, f, user, file.date), Done)
  }

  function DoDeleteDirectory(s: Store, user: Id, d: Id): (Store, Outcome) {
    if d == LABEL_ZERO then (s, Failed(STATUS_DELETE_ROOT_DIR_FORBIDDEN))
    else if d !in s.dirs then (s, Failed(STATUS_KEY_NOT_FOUND))
    else if s.dirs[d].owner != user then (s, Failed(STATUS_USER_FORBIDDEN))
    else Unlinked(Deleted(s, Walk(s, false, d)), s.dirs[d].parent, d)
  }

  // The parent no longer lists d.
  function Unlinked(s: Store, parent: Id, d: Id): (Store, Outcome) {
    if parent !in s.dirs then (s, Failed(STATUS_KEY_NOT_FOUND))
    else (s.(dirs := s.dirs[parent := s.dirs[parent].(dirs := Remove(s.dirs[parent].dirs, d))]), Done)
  }

  function DoPurge(s: Store, user: Id, ids: seq<Id>, rest: seq<Id>): (Store, Outcome) {
    var s1 := PurgeAll(s, ids);
    if user !in s.users || user !in s1.users then (s, Failed(STATUS_KEY_NOT_FOUND))
    else (WithTrash(s1, user, rest), Done)
  }

  // The root and all below it is deleted, the trash is purged and the record goes.
  function DoDeleteUser(s: Store, user: Id): (Store, Outcome) {
    if user !in s.users then (s, Failed(STATUS_KEY_NOT_FOUND))
    else
      var s1 := Deleted(s, Walk(s, false, s.users[user].root));
      var (s2, r) := DoPurge(s1, user, TrashOf(s1, user), []);
      if r != Done || user !in s2.users then (s2, Failed(STATUS_KEY_NOT_FOUND)) else (UserDropped(s2, user), Done)
  }

  function DoRecover(s: Store, user: Id, ids: seq<Id>, rest: seq<Id>): (Store, Outcome) {
    if user !in s.users then (s, Failed(STATUS_KEY_NOT_FOUND))
    else
      var s1 := RestoreAll(s, s.users[user].root, ids);
      if user !in s1.users then (s, Failed(STATUS_KEY_NOT_FOUND)) else (WithTrash(s1, user, rest), Done)
  }

  function TrashOf(s: Store, user: Id): seq<Id> {
    if user in s.users then s.users[user].deleted else []
  }

  function DoSetShare(s: Store, user: Id, f: Id, other: Id, date: string): (Store, Outcome) {
    if f !in s.files then (s, Failed(STATUS_KEY_NOT_FOUND))
    else if s.files[f].owner != user then (s, Failed(STATUS_USER_FORBIDDEN))
    else if other !in s.users then (s, Failed(STATUS_KEY_NOT_FOUND))
    else (Shared(s, f, other, date), Done)
  }

  function DoUnsetShare(s: Store, user: Id, f: Id, other: Id, date: string): (Store, Outcome) {
    if f !in s.files then (s, Failed(STATUS_KEY_NOT_FOUND))
    else if s.files[f].owner != user then (s, Failed(STATUS_USER_FORBIDDEN))
    else if other !in s.users then (s, Failed(STATUS_KEY_NOT_FOUND))
    else (Unshared(s, f, other, date), Done)
  }

  // The requests for each user in turn, up to the first that fails.
  function ShareEach(s: Store, user: Id, f: Id, others: seq<Id>, date: string): (Store, Outcome)
    decreases |others|
  {
    if others == [] then (s, Done)
    else
      var (s1, r) := DoSetShare(s, user, f, others[0], date);
      if r != Done then (s1, r) else ShareEach(s1, user, f, others[1..], date)
  }

  function UnshareEach(s: Store, user: Id, f: Id, others: seq<Id>, date: string): (Store, Outcome)
    decreases |others|
  {
    if others == [] then (s, Done)
    else
      var (s1, r) := DoUnsetShare(s, user, f, others[0], date);
      if r != Done then (s1, r) else UnshareEach(s1, user, f, others[1..], date)
  }

  function DoOverwrite(s: Store, user: Id, f: Id, others: seq<Id>, date: string): (Store, Outcome) {
    if f !in s.files then (s, Failed(STATUS_KEY_NOT_FOUND))
    else if s.files[f].owner != user then (s, Failed(STATUS_USER_FORBIDDEN))
    else
      var (s1, r) := UnshareEach(s, user, f, s.files[f].users, s.files[f].date);
      if r != Done then (s1, r) else ShareEach(s1, user, f, others, date)
  }

  function DoModifyUser(s: Store, user: Id, email: string, name: string, location: string): (Store, Outcome) {
    if user !in s.users then (s, Failed(STATUS_KEY_NOT_FOUND))
    else
      var u := s.users[user];
      (UserModified(s, user, email, name, location, u.shared, u.quota, u.deleted), Done)
  }

  function DoModifyDirectory(s: Store, user: Id, d: Id, name: string, date: string, tags: string): (Store, Outcome) {
    if d == LABEL_ZERO then (s, Failed(STATUS_DELETE_ROOT_DIR_FORBIDDEN))
    else if d !in s.dirs then (s, Failed(STATUS_KEY_NOT_FOUND))
    else if s.dirs[d].owner != user then (s, Failed(STATUS_USER_FORBIDDEN))
    else (s.(dirs := s.dirs[d := s.dirs[d].(name := name, date := date, tags := tags)]), Done)
  }

  function DoModifyFile(s: Store, user: Id, f: Id, name: string, extension: string, date: string, tags: string)
    : (Store, Outcome)
  {
    if f !in s.files then (s, Failed(STATUS_KEY_NOT_FOUND))
    else if s.files[f].owner != user && user !in s.files[f].users then (s, Failed(STATUS_USER_FORBIDDEN))
    else (s.(files := s.files[f := s.files[f].(name := name, extension := extension, date := date, tags := tags,
                                               modifier := user)]), Done)
  }

  // Names and locations are kept as two parts with a delimiter between them.
  function Pair(a: string, b: string): string {
    a + [DELIMITER] + b
  }

  function Step(s: Store, max: nat, q: Request): (Store, Outcome) {
    match q
    case SignUp(email, firstName, lastName, gpsLat, gpsLon, date) =>
      UserAdded(s, email, Pair(firstName, lastName), Pair(gpsLat, gpsLon), date)
    case NewDirectory(user, name, date, parent) => DoNewDirectory(s, user, name, date, parent)
    case NewFile(user, name, extension, date, size, parent, room) =>
      DoNewFile(s, max, user, name, extension, date, size, parent, room)
    case DeleteDirectory(user, d) => DoDeleteDirectory(s, user, d)
    case DeleteFile(user, f) => DoDeleteFile(s, user, f)
    case DeleteUser(user) => DoDeleteUser(s, user)
    case PurgeTrash(user) => DoPurge(s, user, TrashOf(s, user), [])
    case PurgeSelected(user, selected) =>
      DoPurge(s, user, Select(TrashOf(s, user), selected, true), Select(TrashOf(s, user), selected, false))
    case RecoverTrash(user) => DoRecover(s, user, TrashOf(s, user), [])
    case RecoverSelected(user, selected) =>
      DoRecover(s, user, Select(TrashOf(s, user), selected, true), Select(TrashOf(s, user), selected, false))
    case SetFileShare(user, f, other, date) => DoSetShare(s, user, f, other, date)
    case UnsetFileShare(user, f, other, date) => DoUnsetShare(s, user, f, other, date)
    case OverwriteSharing(user, f, others, date) => DoOverwrite(s, user, f, others, date)
    case ModifyUserInfo(user, email, firstName, lastName, gpsLat, gpsLon) =>
      DoModifyUser(s, user, email, Pair(firstName, lastName), Pair(gpsLat, gpsLon))
    case ModifyDirectoryInfo(user, d, name, date, tags) => DoModifyDirectory(s, user, d, name, date, tags)
    case ModifyFileInfo(user, f, name, extension, date, tags) => DoModifyFile(s, user, f, name, extension, date, tags)
  }

  // The store after a sequence of requests.
  function Run(s: Store, max: nat, qs: seq<Request>): Store {
    if qs == [] then s else Step(Run(s, max, qs[..|qs| - 1]), max, qs[|qs| - 1]).0
  }
}
