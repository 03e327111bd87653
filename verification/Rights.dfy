/** Who may change what, over all requests. */
module Rights {
  import opened Basics
  import opened Text
  import opened Keys
  import opened Records
  import opened DataHandlers
  import opened Drive
  import opened Tree
  import opened Invariants
  import opened KeepBasics
  import opened KeepDelete
  import opened Answers
  import opened Uploads
  import opened TrashAnswers

  // The user in whose name the request is made; a sign-up is made in nobody's.
  function Actor(q: Request): Id {
    match q
    case SignUp(_, _, _, _, _, _) => ""
    case NewDirectory(user, _, _, _) => user
    case NewFile(user, _, _, _, _, _, _) => user
    case DeleteDirectory(user, _) => user
    case DeleteFile(user, _) => user
    case DeleteUser(user) => user
    case PurgeTrash(user) => user
    case PurgeSelected(user, _) => user
    case RecoverTrash(user) => user
    case RecoverSelected(user, _) => user
    case SetFileShare(user, _, _, _) => user
    case UnsetFileShare(user, _, _, _) => user
    case OverwriteSharing(user, _, _, _) => user
    case ModifyUserInfo(user, _, _, _, _, _) => user
    case ModifyDirectoryInfo(user, _, _, _, _) => user
    case ModifyFileInfo(user, _, _, _, _, _) => user
  }

  // The counters have room for the request.
  ghost predicate RoomFor(s: Store, max: nat) {
    max < WORD && s.nextUser + 1 < WORD && s.nextDir + 2 < WORD && s.nextFile + 1 < WORD
  }

  // ---------- files ----------

  // The file is the user's or shared with the user, or it lies in or below a directory of the user.
  ghost predicate MayChange(s: Store, user: Id, f: Id)
    requires f in s.files
  {
    || s.files[f].owner == user || user in s.files[f].users
    || exists d :: d in s.dirs && s.dirs[d].owner == user && f in Under(s, d)
  }

  ghost predicate SameFile(s: Store, t: Store, f: Id)
    requires f in s.files
  {
    f in t.files && t.files[f] == s.files[f]
  }

  // A file is changed or erased only at the request of somebody who may, but for one thing: an upload of the same name
  // into the same directory, which no right is checked for, counts its revision on.
  lemma FilesByRight(s: Store, max: nat, q: Request, f: Id)
    requires Inv(s, max) && RoomFor(s, max) && f in s.files
    ensures
      var t := Step(s, max, q).0;
      || SameFile(s, t, f) || MayChange(s, Actor(q), f)
      || (q.NewFile? && f in t.files && t.files[f] == s.files[f].(revision := (s.files[f].revision + 1) % WORD))
  {
    match q {
      case NewFile(_, _, _, _, _, _, _) => UploadedFiles(s, max, q, f);
      case DeleteDirectory(user, d) => DirectoryFiles(s, max, user, d, f);
      case DeleteFile(user, g) => DeletedFile(s, max, user, g, f);
      case DeleteUser(user) => UserFiles(s, max, user, f);
      case PurgeTrash(_) => PurgedFiles(s, max, q, f);
      case PurgeSelected(_, _) => PurgedFiles(s, max, q, f);
      case RecoverTrash(_) => RecoveredFiles(s, max, q, f);
      case RecoverSelected(_, _) => RecoveredFiles(s, max, q, f);
      case SetFileShare(_, _, _, _) => SharedFile(s, max, q, f);
      case UnsetFileShare(_, _, _, _) => SharedFile(s, max, q, f);
      case OverwriteSharing(user, g, others, date) => OverwrittenFiles(s, max, user, g, others, date, f);
      case ModifyFileInfo(_, _, _, _, _, _) => SharedFile(s, max, q, f);
      case _ => NoFiles(s, max, q);
    }
  }

  // Requests that do not touch files.
  lemma NoFiles(s: Store, max: nat, q: Request)
    requires Inv(s, max) && RoomFor(s, max)
    requires q.SignUp? || q.NewDirectory? || q.ModifyUserInfo? || q.ModifyDirectoryInfo?
    ensures Step(s, max, q).0.files == s.files
  {
    if q.SignUp? {
      SignUpAnswers(s, max, q.email, q.firstName, q.lastName, q.gpsLat, q.gpsLon, q.date);
    } else if q.NewDirectory? {
      NewDirectoryAnswers(s, max, q.user, q.name, q.date, q.parent);
    } else if q.ModifyUserInfo? {
      ModifyUserAnswers(s, max, q.user, q.email, q.firstName, q.lastName, q.gpsLat, q.gpsLon);
    } else {
      ModifyDirectoryAnswers(s, max, q.user, q.dir, q.name, q.date, q.tags);
    }
  }

  lemma SharedFile(s: Store, max: nat, q: Request, f: Id)
    requires f in s.files && (q.SetFileShare? || q.UnsetFileShare? || q.ModifyFileInfo?)
    ensures SameFile(s, Step(s, max, q).0, f) || MayChange(s, q.user, f)
  {
    if q.SetFileShare? {
      SetFileShareAnswers(s, max, q.user, q.file, q.other, q.date);
    } else if q.UnsetFileShare? {
      UnsetFileShareAnswers(s, max, q.user, q.file, q.other, q.date);
    } else {
      ModifyFileAnswers(s, max, q.user, q.file, q.name, q.extension, q.date, q.tags);
    }
  }

  lemma UploadedFiles(s: Store, max: nat, q: Request, f: Id)
    requires Inv(s, max) && RoomFor(s, max) && f in s.files && q.NewFile?
    ensures
      var t := Step(s, max, q).0;
      || SameFile(s, t, f)
      || (f in t.files && t.files[f] == s.files[f].(revision := (s.files[f].revision + 1) % WORD))
  {
    var t, i := UploadAnswers(s, max, q);
    WaysFiles(s, t, q, i, f);
  }

  // The three ways an upload goes: refused, to a new name, or to the first file of the name.
  ghost predicate UploadWays(s: Store, t: Store, q: Request, i: nat) {
    || t == s
    || (q.NewFile? && q.user in s.users && Place(s, q) in s.dirs
        && (|| NameGiven(s, t, q) || IdLost(s, t, q)
            || (NamedAt(s, q, i) && RevisionGiven(s, t, q, s.dirs[Place(s, q)].files[i]))))
  }

  lemma WaysFiles(s: Store, t: Store, q: Request, i: nat, f: Id)
    requires UploadWays(s, t, q, i) && f in s.files
    ensures SameFile(s, t, f)
            || (f in t.files && t.files[f] == s.files[f].(revision := (s.files[f].revision + 1) % WORD))
  {
  }

  lemma UploadAnswers(s: Store, max: nat, q: Request) returns (t: Store, i: nat)
    requires Inv(s, max) && RoomFor(s, max) && q.NewFile?
    ensures t == Step(s, max, q).0 && UploadWays(s, t, q, i)
  {
    t, i := Step(s, max, q).0, 0;
    if !Admitted(s, max, q) {
      UploadRefused(s, max, q);
    } else {
      var list := s.dirs[Place(s, q)].files;
      while i < |list| && !NamedAt(s, q, i)
        invariant i <= |list| && forall j: nat :: j < i ==> !NamedAt(s, q, j)
      {
        i := i + 1;
      }
      if i < |list| {
        SameNameAnswers(s, max, q, i);
      } else {
        NewNameAnswers(s, max, q);
      }
    }
  }

  lemma DirectoryFiles(s: Store, max: nat, user: Id, d: Id, f: Id)
    requires Inv(s, max) && f in s.files
    ensures SameFile(s, Step(s, max, DeleteDirectory(user, d)).0, f) || MayChange(s, user, f)
  {
    DeleteDirectoryAnswers(s, max, user, d);
    if DirGranted(s, user, d) {
      var t := DoDeleteDirectory(s, user, d).0;
      DeleteDirectoryExactly(s, max, user, d);
      assert TrashedFile(s, t, SubtreeFiles(s, d), f);
    }
  }

  lemma DeletedFile(s: Store, max: nat, user: Id, g: Id, f: Id)
    requires Inv(s, max) && f in s.files
    ensures SameFile(s, Step(s, max, DeleteFile(user, g)).0, f) || MayChange(s, user, f)
  {
    DeleteFileAnswers(s, max, user, g);
    if g in s.files && s.files[g].owner == user {
      DeleteFileByOwner(s, max, user, g);
    } else if g in s.files && user in s.files[g].users {
      DeleteFileBySharing(s, max, user, g);
    }
  }

  lemma UserFiles(s: Store, max: nat, user: Id, f: Id)
    requires Inv(s, max) && max < WORD && f in s.files
    ensures SameFile(s, Step(s, max, DeleteUser(user)).0, f) || MayChange(s, user, f)
  {
    DeleteUserAnswers(s, max, user);
    if user in s.users {
      var t, fs := Step(s, max, DeleteUser(user)).0, SubtreeFiles(s, s.users[user].root);
      assert RootThere(s, user);
      if f in t.files {
        assert TrashedFile(s, t, fs, f);
      }
    }
  }

  lemma PurgedFiles(s: Store, max: nat, q: Request, f: Id)
    requires Inv(s, max) && max < WORD && f in s.files && (q.PurgeTrash? || q.PurgeSelected?)
    ensures SameFile(s, Step(s, max, q).0, f) || MayChange(s, q.user, f)
  {
    if q.user in s.users {
      assert TrashPlaced(s, q.user);
    }
    if q.PurgeTrash? {
      PurgeTrashAnswers(s, max, q.user);
    } else {
      PurgeSelectedAnswers(s, max, q.user, q.selected);
    }
  }

  lemma RecoveredFiles(s: Store, max: nat, q: Request, f: Id)
    requires Inv(s, max) && f in s.files && (q.RecoverTrash? || q.RecoverSelected?)
    ensures SameFile(s, Step(s, max, q).0, f) || MayChange(s, q.user, f)
  {
    var t := Step(s, max, q).0;
    if q.RecoverTrash? {
      RecoverTrashAnswers(s, max, q.user);
      if q.user in s.users {
        assert RecoveredFile(s, t, q.user, s.users[q.user].deleted, f);
      }
    } else {
      RecoverSelectedAnswers(s, max, q.user, q.selected);
      if q.user in s.users {
        assert RecoveredFile(s, t, q.user, Select(s.users[q.user].deleted, q.selected, true), f);
      }
    }
  }

  lemma OverwrittenFiles(s: Store, max: nat, user: Id, g: Id, others: seq<Id>, date: string, f: Id)
    requires Inv(s, max) && f in s.files
    ensures SameFile(s, Step(s, max, OverwriteSharing(user, g, others, date)).0, f) || MayChange(s, user, f)
  {
    var k := Known(s, others);
    OverwriteAnswers(s, max, user, g, others, date, k);
  }

  lemma Known(s: Store, others: seq<Id>) returns (k: nat)
    ensures KnownUpTo(s, others, k)
  {
    k := 0;
    while k < |others| && others[k] in s.users
      invariant k <= |others| && forall i :: 0 <= i < k ==> others[i] in s.users
    {
      k := k + 1;
    }
  }

  // ---------- directories ----------

  ghost predicate SameLabels(s: Store, t: Store, d: Id)
    requires d in s.dirs
  {
    && d in t.dirs && t.dirs[d].name == s.dirs[d].name && t.dirs[d].tags == s.dirs[d].tags
    && t.dirs[d].owner == s.dirs[d].owner && t.dirs[d].parent == s.dirs[d].parent
  }

  // The directory or one above it is the user's.
  ghost predicate MayErase(s: Store, user: Id, d: Id) {
    exists x :: x in Way(s, d) && x in s.dirs && s.dirs[x].owner == user
  }

  ghost predicate DirRight(s: Store, t: Store, user: Id, d: Id)
    requires d in s.dirs
  {
    && (SameLabels(s, t, d) || MayErase(s, user, d))
    && (d in t.dirs ==> t.dirs[d].owner == s.dirs[d].owner && t.dirs[d].parent == s.dirs[d].parent)
  }

  // A directory is erased, or gets another name or other tags, only at the request of somebody who owns it or a
  // directory above it. Owner and parent never change.
  lemma DirsByRight(s: Store, max: nat, q: Request, d: Id)
    requires Inv(s, max) && RoomFor(s, max) && d in s.dirs
    ensures DirRight(s, Step(s, max, q).0, Actor(q), d)
  {
    match q {
      case SignUp(_, _, _, _, _, _) => SignedUpDirs(s, max, q, d);
      case NewDirectory(user, name, date, parent) => AddedDirs(s, max, user, name, date, parent, d);
      case NewFile(_, _, _, _, _, _, _) => UploadedDirLabels(s, max, q, d);
      case DeleteDirectory(user, x) => DeletedDirLabels(s, max, user, x, d);
      case DeleteFile(user, g) => DeletedFileDirs(s, max, user, g, d);
      case DeleteUser(user) => DeletedUserDirs(s, max, user, d);
      case RecoverTrash(_) => RecoveredDirs(s, max, q, d);
      case RecoverSelected(_, _) => RecoveredDirs(s, max, q, d);
      case ModifyDirectoryInfo(user, x, name, date, tags) => RenamedDirs(s, max, user, x, name, date, tags, d);
      case _ => NoDirs(s, max, q);
    }
  }

  // Requests that do not touch directories.
  lemma NoDirs(s: Store, max: nat, q: Request)
    requires Inv(s, max) && max < WORD
    requires q.PurgeTrash? || q.PurgeSelected? || q.SetFileShare? || q.UnsetFileShare? || q.OverwriteSharing?
             || q.ModifyUserInfo? || q.ModifyFileInfo?
    ensures Step(s, max, q).0.dirs == s.dirs
  {
    if q.PurgeTrash? {
      PurgeTrashAnswers(s, max, q.user);
    } else if q.PurgeSelected? {
      PurgeSelectedAnswers(s, max, q.user, q.selected);
    } else if q.OverwriteSharing? {
      OverwrittenDirs(s, max, q.user, q.file, q.others, q.date);
    } else if q.ModifyUserInfo? {
      ModifyUserAnswers(s, max, q.user, q.email, q.firstName, q.lastName, q.gpsLat, q.gpsLon);
    } else {
      SharedNoDirs(s, max, q);
    }
  }

  lemma SharedNoDirs(s: Store, max: nat, q: Request)
    requires q.SetFileShare? || q.UnsetFileShare? || q.ModifyFileInfo?
    ensures Step(s, max, q).0.dirs == s.dirs
  {
  }

  lemma SignedUpDirs(s: Store, max: nat, q: Request, d: Id)
    requires Inv(s, max) && RoomFor(s, max) && d in s.dirs && q.SignUp?
    ensures SameLabels(s, Step(s, max, q).0, d)
  {
    SignUpAnswers(s, max, q.email, q.firstName, q.lastName, q.gpsLat, q.gpsLon, q.date);
    NextIdsFree(s, d);
  }

  // The ids handed out next are not in use.
  lemma NextIdsFree(s: Store, d: Id)
    requires Numbered(s) && d in s.dirs
    ensures d != ToStr(s.nextDir) && d != ToStr(s.nextDir + 1)
  {
    assert IsNumbered(d, s.nextDir);
    ToStrRoundTrip(s.nextDir);
    ToStrRoundTrip(s.nextDir + 1);
  }

  lemma AddedDirs(s: Store, max: nat, user: Id, name: string, date: string, parent: Id, d: Id)
    requires Inv(s, max) && RoomFor(s, max) && d in s.dirs
    ensures SameLabels(s, Step(s, max, NewDirectory(user, name, date, parent)).0, d)
  {
    NewDirectoryAnswers(s, max, user, name, date, parent);
    NextIdsFree(s, d);
  }

  lemma UploadedDirLabels(s: Store, max: nat, q: Request, d: Id)
    requires Inv(s, max) && RoomFor(s, max) && d in s.dirs && q.NewFile?
    ensures SameLabels(s, Step(s, max, q).0, d)
  {
    var t, i := UploadAnswers(s, max, q);
    WaysDirs(s, t, q, i, d);
  }

  lemma WaysDirs(s: Store, t: Store, q: Request, i: nat, d: Id)
    requires UploadWays(s, t, q, i) && d in s.dirs
    ensures SameLabels(s, t, d)
  {
  }

  lemma DeletedDirLabels(s: Store, max: nat, user: Id, x: Id, d: Id)
    requires Inv(s, max) && d in s.dirs
    ensures DirRight(s, Step(s, max, DeleteDirectory(user, x)).0, user, d)
  {
    DeleteDirectoryAnswers(s, max, user, x);
    if DirGranted(s, user, x) {
      DeleteDirectoryExactly(s, max, user, x);
    }
  }

  lemma DeletedFileDirs(s: Store, max: nat, user: Id, g: Id, d: Id)
    requires Inv(s, max) && d in s.dirs
    ensures SameLabels(s, Step(s, max, DeleteFile(user, g)).0, d)
  {
    DeleteFileAnswers(s, max, user, g);
    if g in s.files && s.files[g].owner == user {
      DeleteFileByOwner(s, max, user, g);
    } else if g in s.files && user in s.files[g].users {
      DeleteFileBySharing(s, max, user, g);
    }
  }

  lemma DeletedUserDirs(s: Store, max: nat, user: Id, d: Id)
    requires Inv(s, max) && max < WORD && d in s.dirs
    ensures DirRight(s, Step(s, max, DeleteUser(user)).0, user, d)
  {
    DeleteUserAnswers(s, max, user);
    if user in s.users {
      assert RootThere(s, user);
    }
  }

  lemma RecoveredDirs(s: Store, max: nat, q: Request, d: Id)
    requires Inv(s, max) && d in s.dirs && (q.RecoverTrash? || q.RecoverSelected?)
    ensures SameLabels(s, Step(s, max, q).0, d)
  {
    var t := Step(s, max, q).0;
    if q.RecoverTrash? {
      RecoverTrashAnswers(s, max, q.user);
      if q.user in s.users {
        assert RecoveredDir(s, t, s.users[q.user].deleted, d);
      }
    } else {
      RecoverSelectedAnswers(s, max, q.user, q.selected);
      if q.user in s.users {
        assert RecoveredDir(s, t, Select(s.users[q.user].deleted, q.selected, true), d);
      }
    }
  }

  lemma OverwrittenDirs(s: Store, max: nat, user: Id, g: Id, others: seq<Id>, date: string)
    requires Inv(s, max)
    ensures Step(s, max, OverwriteSharing(user, g, others, date)).0.dirs == s.dirs
  {
    var k := Known(s, others);
    OverwriteAnswers(s, max, user, g, others, date, k);
  }

  lemma RenamedDirs(s: Store, max: nat, user: Id, x: Id, name: string, date: string, tags: string, d: Id)
    requires Inv(s, max) && d in s.dirs
    ensures DirRight(s, Step(s, max, ModifyDirectoryInfo(user, x, name, date, tags)).0, user, d)
  {
    ModifyDirectoryAnswers(s, max, user, x, name, date, tags);
    ChainSelf(Par(s.dirs), d);
  }

  // ---------- users ----------

  ghost predicate SameUser(s: Store, t: Store, u: Id)
    requires u in s.users
  {
    u in t.users && t.users[u] == s.users[u].(shared := t.users[u].shared, deleted := t.users[u].deleted)
  }

  // A user's profile, root and quota change, and the record goes, only at the user's own request.
  lemma UsersByRight(s: Store, max: nat, q: Request, u: Id)
    requires Inv(s, max) && RoomFor(s, max) && u in s.users && u != Actor(q)
    ensures SameUser(s, Step(s, max, q).0, u)
  {
    match q {
      case SignUp(_, _, _, _, _, _) => SignedUpUsers(s, max, q, u);
      case NewFile(_, _, _, _, _, _, _) => UploadedUsers(s, max, q, u);
      case DeleteDirectory(user, x) => DirectoryUsers(s, max, user, x, u);
      case DeleteFile(user, g) => DeletedFileUsers(s, max, user, g, u);
      case DeleteUser(user) => OtherUsers(s, max, user, u);
      case OverwriteSharing(user, g, others, date) => OverwrittenUsers(s, max, user, g, others, date, u);
      case SetFileShare(_, _, _, _) => SharedUsers(s, max, q, u);
      case UnsetFileShare(_, _, _, _) => SharedUsers(s, max, q, u);
      case PurgeTrash(_) => TrashUsers(s, max, q, u);
      case PurgeSelected(_, _) => TrashUsers(s, max, q, u);
      case RecoverTrash(_) => TrashUsers(s, max, q, u);
      case RecoverSelected(_, _) => TrashUsers(s, max, q, u);
      case _ => LabelUsers(s, max, q, u);
    }
  }

  lemma SharedUsers(s: Store, max: nat, q: Request, u: Id)
    requires u in s.users && (q.SetFileShare? || q.UnsetFileShare?)
    ensures SameUser(s, Step(s, max, q).0, u)
  {
    if q.SetFileShare? {
      SetFileShareAnswers(s, max, q.user, q.file, q.other, q.date);
    } else {
      UnsetFileShareAnswers(s, max, q.user, q.file, q.other, q.date);
    }
  }

  lemma TrashUsers(s: Store, max: nat, q: Request, u: Id)
    requires Inv(s, max) && max < WORD && u in s.users
    requires (q.PurgeTrash? || q.PurgeSelected? || q.RecoverTrash? || q.RecoverSelected?) && u != q.user
    ensures SameUser(s, Step(s, max, q).0, u)
  {
    if q.PurgeTrash? {
      PurgeTrashAnswers(s, max, q.user);
    } else if q.PurgeSelected? {
      PurgeSelectedAnswers(s, max, q.user, q.selected);
    } else if q.RecoverTrash? {
      RecoverTrashAnswers(s, max, q.user);
    } else {
      RecoverSelectedAnswers(s, max, q.user, q.selected);
    }
  }

  lemma LabelUsers(s: Store, max: nat, q: Request, u: Id)
    requires Inv(s, max) && RoomFor(s, max) && u in s.users && u != Actor(q)
    requires q.NewDirectory? || q.ModifyUserInfo? || q.ModifyDirectoryInfo? || q.ModifyFileInfo?
    ensures SameUser(s, Step(s, max, q).0, u)
  {
    if q.NewDirectory? {
      NewDirectoryAnswers(s, max, q.user, q.name, q.date, q.parent);
    } else if q.ModifyUserInfo? {
      ModifyUserAnswers(s, max, q.user, q.email, q.firstName, q.lastName, q.gpsLat, q.gpsLon);
    } else if q.ModifyDirectoryInfo? {
      ModifyDirectoryAnswers(s, max, q.user, q.dir, q.name, q.date, q.tags);
    } else {
      ModifyFileAnswers(s, max, q.user, q.file, q.name, q.extension, q.date, q.tags);
    }
  }

  lemma SignedUpUsers(s: Store, max: nat, q: Request, u: Id)
    requires Inv(s, max) && RoomFor(s, max) && u in s.users && q.SignUp?
    ensures SameUser(s, Step(s, max, q).0, u)
  {
    SignUpAnswers(s, max, q.email, q.firstName, q.lastName, q.gpsLat, q.gpsLon, q.date);
    FreshIds(s, UserTicket);
  }

  lemma UploadedUsers(s: Store, max: nat, q: Request, u: Id)
    requires Inv(s, max) && RoomFor(s, max) && u in s.users && q.NewFile? && u != q.user
    ensures SameUser(s, Step(s, max, q).0, u)
  {
    var t, i := UploadAnswers(s, max, q);
    WaysUsers(s, t, q, i, u);
  }

  lemma WaysUsers(s: Store, t: Store, q: Request, i: nat, u: Id)
    requires UploadWays(s, t, q, i) && u in s.users && q.NewFile? && u != q.user
    ensures SameUser(s, t, u)
  {
  }

  lemma DirectoryUsers(s: Store, max: nat, user: Id, d: Id, u: Id)
    requires Inv(s, max) && u in s.users
    ensures SameUser(s, Step(s, max, DeleteDirectory(user, d)).0, u)
  {
    DeleteDirectoryAnswers(s, max, user, d);
    if DirGranted(s, user, d) {
      DeleteDirectoryExactly(s, max, user, d);
      assert TrashedUser(s, DoDeleteDirectory(s, user, d).0, SubtreeFiles(s, d), u);
    }
  }

  lemma DeletedFileUsers(s: Store, max: nat, user: Id, g: Id, u: Id)
    requires Inv(s, max) && u in s.users
    ensures SameUser(s, Step(s, max, DeleteFile(user, g)).0, u)
  {
    DeleteFileAnswers(s, max, user, g);
    if g in s.files && s.files[g].owner == user {
      DeleteFileByOwner(s, max, user, g);
    } else if g in s.files && user in s.files[g].users {
      DeleteFileBySharing(s, max, user, g);
    }
  }

  lemma OtherUsers(s: Store, max: nat, user: Id, u: Id)
    requires Inv(s, max) && max < WORD && u in s.users && u != user
    ensures SameUser(s, Step(s, max, DeleteUser(user)).0, u)
  {
    DeleteUserAnswers(s, max, user);
    if user in s.users {
      assert TrashedUser(s, Step(s, max, DeleteUser(user)).0, SubtreeFiles(s, s.users[user].root), u);
    }
  }

  lemma OverwrittenUsers(s: Store, max: nat, user: Id, g: Id, others: seq<Id>, date: string, u: Id)
    requires Inv(s, max) && u in s.users
    ensures SameUser(s, Step(s, max, OverwriteSharing(user, g, others, date)).0, u)
  {
    var k := Known(s, others);
    OverwriteAnswers(s, max, user, g, others, date, k);
  }

  // ---------- refusals ----------

  const FORBIDDEN := Failed(STATUS_USER_FORBIDDEN)

  // A request that is refused for want of a right leaves the store as it was, whatever the store.
  lemma RefusedLeaves(s: Store, max: nat, q: Request)
    requires Step(s, max, q).1 == FORBIDDEN
    ensures Step(s, max, q).0 == s
  {
    if q.OverwriteSharing? && q.file in s.files && s.files[q.file].owner == q.user {
      OverwriteGoesOn(s, q.user, q.file, q.others, q.date);
    }
  }

  lemma OverwriteGoesOn(s: Store, user: Id, f: Id, others: seq<Id>, date: string)
    requires f in s.files && s.files[f].owner == user
    ensures DoOverwrite(s, user, f, others, date).1 != FORBIDDEN
  {
    UnshareGoesOn(s, user, f, s.files[f].users, s.files[f].date);
    ShareGoesOn(UnshareEach(s, user, f, s.files[f].users, s.files[f].date).0, user, f, others, date);
  }

  lemma {:induction false} UnshareGoesOn(s: Store, user: Id, f: Id, us: seq<Id>, date: string)
    requires f in s.files && s.files[f].owner == user
    ensures
      var (t, r) := UnshareEach(s, user, f, us, date);
      r != FORBIDDEN && f in t.files && t.files[f].owner == user
    decreases |us|
  {
    if us != [] && us[0] in s.users {
      UnshareGoesOn(Unshared(s, f, us[0], date), user, f, us[1..], date);
    }
  }

  lemma {:induction false} ShareGoesOn(s: Store, user: Id, f: Id, us: seq<Id>, date: string)
    requires f in s.files && s.files[f].owner == user
    ensures ShareEach(s, user, f, us, date).1 != FORBIDDEN
    decreases |us|
  {
    if us != [] && us[0] in s.users {
      ShareGoesOn(Shared(s, f, us[0], date), user, f, us[1..], date);
    }
  }
}
