/** What each request answers, and what it changes in the records. The statements do not use the functions that define
    the requests: each names the outcome of every case and the new value of every field. */
module Answers {
  import opened Basics
  import opened Text
  import opened Keys
  import opened Records
  import opened DataHandlers
  import opened Drive
  import opened Tree
  import opened Invariants
  import opened KeepBasics
  import opened KeepFiles
  import opened KeepShare
  import opened KeepTrash
  import opened KeepUsers
  import opened KeepDelete
  import opened Refinement

  // The directory d and all above it.
  ghost function Way(s: Store, d: Id): set<Id> {
    Chain(Par(s.dirs), d)
  }

  // ---------- signing up and profiles ----------

  // Exactly the new e-mails are accepted. The parts of name and place are kept in order with `;` between them.
  lemma SignUpAnswers(s: Store, max: nat, email: string, first: string, last: string, lat: string, lon: string,
                      date: string)
    requires s.nextUser + 1 < WORD && s.nextDir + 2 < WORD
    ensures
      var (t, r) := Step(s, max, SignUp(email, first, last, lat, lon, date));
      var id, root, shared := ToStr(s.nextUser), ToStr(s.nextDir), ToStr(s.nextDir + 1);
      && (email in s.index ==> t == s && r == Failed(STATUS_USER_ALREADY_EXISTS))
      && (email !in s.index ==>
            && r == Done && root != shared
            && t.users == s.users[id := User(email, first + ";" + last, lat + ";" + lon, root, [], 0, [])]
            && t.dirs == s.dirs[root := Dir("root", date, "", id, NO_PARENT, [], [shared], 0)]
                               [shared := Dir("Archivos Compartidos", date, "", id, root, [], [], 0)]
            && t.files == s.files && t.index == s.index[email := id] && t.emails == InsertText(s.emails, email)
            && t.nextUser == s.nextUser + 1 && t.nextDir == s.nextDir + 2 && t.nextFile == s.nextFile)
  {
    if email !in s.index {
      SignUpGives(s, email, Pair(first, last), Pair(lat, lon), date);
    }
  }

  // A profile keeps its root, lists and quota; a new e-mail takes the place of the old one in index and list.
  lemma ModifyUserAnswers(s: Store, max: nat, user: Id, email: string, first: string, last: string, lat: string,
                          lon: string)
    ensures
      var (t, r) := Step(s, max, ModifyUserInfo(user, email, first, last, lat, lon));
      && (user !in s.users ==> t == s && r == Failed(STATUS_KEY_NOT_FOUND))
      && (user in s.users ==>
            var u := s.users[user];
            && r == Done
            && t == s.(users := t.users, index := t.index, emails := t.emails)
            && t.users == s.users[user := User(email, first + ";" + last, lat + ";" + lon, u.root, u.shared, u.quota,
                                               u.deleted)]
            && (email == u.email ==> t.index == s.index && t.emails == s.emails)
            && (email != u.email ==> t.index == (s.index - {u.email})[email := user]
                                     && t.emails == InsertText(Remove(s.emails, u.email), email)))
  {
  }

  // ---------- labels ----------

  // Only the owner changes name, date and tags of a directory.
  lemma ModifyDirectoryAnswers(s: Store, max: nat, user: Id, d: Id, name: string, date: string, tags: string)
    ensures
      var (t, r) := Step(s, max, ModifyDirectoryInfo(user, d, name, date, tags));
      && (d == "0" ==> t == s && r == Failed(STATUS_DELETE_ROOT_DIR_FORBIDDEN))
      && (d != "0" && d !in s.dirs ==> t == s && r == Failed(STATUS_KEY_NOT_FOUND))
      && (d != "0" && d in s.dirs && s.dirs[d].owner != user ==> t == s && r == Failed(STATUS_USER_FORBIDDEN))
      && (d != "0" && d in s.dirs && s.dirs[d].owner == user ==>
            var dir := s.dirs[d];
            && r == Done
            && t == s.(dirs := s.dirs[d := Dir(name, date, tags, user, dir.parent, dir.files, dir.dirs, dir.size)]))
  {
  }

  // The owner and the users a file is shared with change its name, extension, date and tags.
  lemma ModifyFileAnswers(s: Store, max: nat, user: Id, f: Id, name: string, extension: string, date: string,
                          tags: string)
    ensures
      var (t, r) := Step(s, max, ModifyFileInfo(user, f, name, extension, date, tags));
      && (f !in s.files ==> t == s && r == Failed(STATUS_KEY_NOT_FOUND))
      && (f in s.files && s.files[f].owner != user && user !in s.files[f].users ==>
            t == s && r == Failed(STATUS_USER_FORBIDDEN))
      && (f in s.files && (s.files[f].owner == user || user in s.files[f].users) ==>
            var file := s.files[f];
            && r == Done
            && t == s.(files := s.files[f := File(name, extension, date, user, tags, file.owner, file.size, file.users,
                                                  file.revision, file.parent)]))
  {
  }

  // ---------- new directories ----------

  // The directory id was added below home: listed there last, with nothing in it, and home and all above it got the
  // date.
  ghost predicate DirectoryGiven(s: Store, t: Store, id: Id, user: Id, name: string, date: string, home: Id) {
    && id !in s.dirs && t.dirs.Keys == s.dirs.Keys + {id}
    && t.dirs[id] == Dir(name, date, "", user, home, [], [], 0)
    && (forall d :: d in s.dirs ==>
          t.dirs[d] == s.dirs[d].(date := if d in Way(s, home) then date else s.dirs[d].date,
                                  dirs := if d == home then s.dirs[d].dirs + [id] else s.dirs[d].dirs))
    && t == s.(dirs := t.dirs, nextDir := s.nextDir + 1)
  }

  // The directory named does not exist. This costs an id; the text that marks roots even leaves a directory without a
  // parent.
  ghost predicate DirectoryLost(s: Store, t: Store, user: Id, name: string, date: string, parentId: Id) {
    && t == s.(dirs := t.dirs, nextDir := s.nextDir + 1)
    && (parentId != NO_PARENT ==> t.dirs == s.dirs)
    && (parentId == NO_PARENT ==>
          t.dirs == s.dirs[ToStr(s.nextDir) := Dir(name, date, "", user, NO_PARENT, [], [], 0)])
  }

  // The directory named is the place of the new one, or the root of the user for "0".
  lemma NewDirectoryAnswers(s: Store, max: nat, user: Id, name: string, date: string, parentId: Id)
    requires Inv(s, max) && s.nextDir + 1 < WORD
    ensures
      var (t, r) := Step(s, max, NewDirectory(user, name, date, parentId));
      var id := ToStr(s.nextDir);
      && (parentId == "0" && user !in s.users ==> t == s && r == Failed(STATUS_KEY_NOT_FOUND))
      && (parentId == "0" && user in s.users ==>
            DirectoryGiven(s, t, id, user, name, date, s.users[user].root) && r == Done)
      && (parentId != "0" && parentId in s.dirs ==>
            DirectoryGiven(s, t, id, user, name, date, parentId) && r == Done)
      && (parentId != "0" && parentId !in s.dirs ==>
            DirectoryLost(s, t, user, name, date, parentId) && r == Failed(STATUS_KEY_NOT_FOUND))
  {
    if parentId == "0" && user in s.users {
      assert RootThere(s, user);
      PlaceFound(s, user, name, date, parentId, s.users[user].root);
    } else if parentId != "0" && parentId in s.dirs {
      PlaceFound(s, user, name, date, parentId, parentId);
    } else if parentId != "0" {
      PlaceMissing(s, user, name, date, parentId);
    }
  }

  lemma PlaceFound(s: Store, user: Id, name: string, date: string, parentId: Id, home: Id)
    requires Numbered(s) && Forest(s) && home in s.dirs && s.nextDir + 1 < WORD
    requires parentId == home != "0" || (parentId == "0" && user in s.users && home == s.users[user].root)
    ensures
      var (t, r) := DoNewDirectory(s, user, name, date, parentId);
      DirectoryGiven(s, t, ToStr(s.nextDir), user, name, date, home) && r == Done
  {
    LeafGiven(s, user, name, date, home);
  }

  lemma PlaceMissing(s: Store, user: Id, name: string, date: string, parentId: Id)
    requires Numbered(s) && parentId != "0" && parentId !in s.dirs && s.nextDir + 1 < WORD
    ensures
      var (t, r) := DoNewDirectory(s, user, name, date, parentId);
      DirectoryLost(s, t, user, name, date, parentId) && r == Failed(STATUS_KEY_NOT_FOUND)
  {
    FreshIds(s, DirTicket);
  }

  lemma LeafGiven(s: Store, user: Id, name: string, date: string, home: Id)
    requires Numbered(s) && Forest(s) && home in s.dirs && s.nextDir + 1 < WORD
    ensures
      var s1 := DirectoryAdded(s, user, name, date, home).0;
      && DirectoryAdded(s, user, name, date, home).1 == Done && home in s1.dirs
      && DirectoryGiven(s, s1.(dirs := SetDates(s1.dirs, home, date)), ToStr(s.nextDir), user, name, date, home)
  {
    var s1, id := DirectoryAdded(s, user, name, date, home).0, ToStr(s.nextDir);
    FreshIds(s, DirTicket);
    LeafWay(s, s1, id, home);
    LeafRecords(s, user, name, date, home);
  }

  lemma LeafWay(s: Store, s1: Store, id: Id, home: Id)
    requires Forest(s) && home in s.dirs && id !in s.dirs && id in s1.dirs && s1.dirs[id].parent == home
    requires Par(s1.dirs) == Par(s.dirs)[id := home]
    ensures Way(s1, home) == Way(s, home) && id !in Way(s, home)
  {
    var par := Par(s.dirs);
    forall d | d in Chain(par, home) ensures d in par {
      ChainRank(par, home, d);
    }
    ChainFrame(par, Par(s1.dirs), home);
  }

  lemma LeafRecords(s: Store, user: Id, name: string, date: string, home: Id)
    requires home in s.dirs && ToStr(s.nextDir) !in s.dirs && s.nextDir + 1 < WORD && home != NO_PARENT
    requires Way(DirectoryAdded(s, user, name, date, home).0, home) == Way(s, home) && ToStr(s.nextDir) !in Way(s, home)
    ensures
      var s1 := DirectoryAdded(s, user, name, date, home).0;
      DirectoryGiven(s, s1.(dirs := SetDates(s1.dirs, home, date)), ToStr(s.nextDir), user, name, date, home)
  {
    var s1, id := DirectoryAdded(s, user, name, date, home).0, ToStr(s.nextDir);
    var t, dir := s1.(dirs := SetDates(s1.dirs, home, date)), Dir(name, date, "", user, home, [], [], 0);
    LeafListed(s, user, name, date, home);
    LeafDated(s, t, id, dir, home, date);
  }

  lemma LeafListed(s: Store, user: Id, name: string, date: string, home: Id)
    requires home in s.dirs && ToStr(s.nextDir) !in s.dirs && s.nextDir + 1 < WORD && home != NO_PARENT
    ensures
      var s1, id := DirectoryAdded(s, user, name, date, home).0, ToStr(s.nextDir);
      && s1 == s.(dirs := s1.dirs, nextDir := s.nextDir + 1)
      && s1.dirs == s.dirs[id := Dir(name, date, "", user, home, [], [], 0)]
                          [home := s.dirs[home].(dirs := s.dirs[home].dirs + [id])]
  {
  }

  lemma LeafDated(s: Store, t: Store, id: Id, dir: Dir, home: Id, date: string)
    requires home in s.dirs && id !in s.dirs && id !in Way(s, home)
    requires dir == Dir(dir.name, date, "", dir.owner, home, [], [], 0)
    requires t.dirs == Dated(s.dirs[id := dir][home := s.dirs[home].(dirs := s.dirs[home].dirs + [id])], Way(s, home),
                             date)
    requires t == s.(dirs := t.dirs, nextDir := s.nextDir + 1)
    ensures DirectoryGiven(s, t, id, dir.owner, dir.name, date, home)
  {
  }

  // ---------- deleting a directory ----------

  ghost predicate DirGranted(s: Store, user: Id, d: Id) {
    d != "0" && d in s.dirs && s.dirs[d].owner == user
  }

  // Whoever is not the owner is refused, and nothing changes. What a granted request does is the subject of
  // DeleteDirectoryExactly; it succeeds exactly if the directory has a parent.
  lemma DeleteDirectoryAnswers(s: Store, max: nat, user: Id, d: Id)
    requires Inv(s, max)
    ensures
      var (t, r) := Step(s, max, DeleteDirectory(user, d));
      && (!DirGranted(s, user, d) ==> t == s)
      && (d == "0" ==> r == Failed(STATUS_DELETE_ROOT_DIR_FORBIDDEN))
      && (d != "0" && d !in s.dirs ==> r == Failed(STATUS_KEY_NOT_FOUND))
      && (d != "0" && d in s.dirs && s.dirs[d].owner != user ==> r == Failed(STATUS_USER_FORBIDDEN))
      && (DirGranted(s, user, d) ==>
            r == if s.dirs[d].parent == NO_PARENT then Failed(STATUS_KEY_NOT_FOUND) else Done)
  {
    if DirGranted(s, user, d) {
      var par, parent := Par(s.dirs), s.dirs[d].parent;
      DeleteDirectoryIsCutOff(s, max, user, d);
      assert Climbs(par, d);
      DeletedDirs(s, max, d);
      if parent != NO_PARENT {
        WalkMembers(s, false, d, parent);
        if d in Chain(par, parent) {
          ChainRank(par, parent, d);
        }
      }
    }
  }

  // The directories that are left when the subtree of d is deleted.
  lemma DeletedDirs(s: Store, max: nat, d: Id)
    requires Inv(s, max) && d in s.dirs
    ensures forall x :: x in Deleted(s, Walk(s, false, d)).dirs <==> x in s.dirs && x !in Walk(s, false, d)
  {
    SubtreeFilesLive(s, d);
    TrashAllMoves(s, max, SubtreeFiles(s, d));
  }

  // ---------- deleting a file ----------

  // The file f goes from its directory to the trash of its owner: its shares are gone on both sides, and its size
  // leaves the directories on the way up.
  ghost predicate FileTrashed(s: Store, t: Store, f: Id)
    requires f in s.files && s.files[f].owner in s.users
  {
    var file := s.files[f];
    && t.users.Keys == s.users.Keys
    && (forall u :: u in s.users ==>
          t.users[u] == s.users[u].(
            deleted := if u == file.owner then s.users[u].deleted + [f] else s.users[u].deleted,
            shared := if u in file.users then Remove(s.users[u].shared, f) else s.users[u].shared))
    && (file.parent in s.dirs ==>
          Shrunken(s.dirs, t.dirs, Way(s, file.parent), file.parent, Remove(s.dirs[file.parent].files, f), file.size))
    && t.files == s.files[f := Unshown(file)]
    && t == s.(users := t.users, dirs := t.dirs, files := t.files)
  }

  // home lists these files, and the directories on the way up lost this many bytes, as words.
  ghost predicate Shrunken(dirs: map<Id, Dir>, dirs': map<Id, Dir>, up: set<Id>, home: Id, list: seq<Id>, less: nat) {
    && dirs'.Keys == dirs.Keys
    && forall d :: d in dirs ==>
         dirs'[d] == dirs[d].(files := if d == home then list else dirs[d].files,
                              size := if d in up then (dirs[d].size - less) % WORD else dirs[d].size)
  }

  lemma TrashedIs(s: Store, f: Id)
    requires f in s.files && s.files[f].owner in s.users && s.files[f].parent in s.dirs
    ensures FileTrashed(s, Trashed(s, f), f)
  {
    TrashedParts(s, f);
    TrashedFrom(s, Trashed(s, f), f);
  }

  lemma TrashedFrom(s: Store, t: Store, f: Id)
    requires f in s.files && s.files[f].owner in s.users && s.files[f].parent in s.dirs && TrashParts(s, t, f)
    ensures FileTrashed(s, t, f)
  {
    var home := s.files[f].parent;
    var list := Remove(s.dirs[home].files, f);
    AddSizesFrom(s.dirs, home, list, 0 - s.files[f].size);
    GrownShrinks(s.dirs, t.dirs, Way(s, home), home, list, s.files[f].size);
  }

  ghost predicate TrashParts(s: Store, t: Store, f: Id)
    requires f in s.files && s.files[f].parent in s.dirs
  {
    var file := s.files[f];
    var list := Remove(s.dirs[file.parent].files, f);
    && t.users.Keys == s.users.Keys
    && (forall u :: u in s.users ==>
          t.users[u] == s.users[u].(
            deleted := if u == file.owner then s.users[u].deleted + [f] else s.users[u].deleted,
            shared := if u in file.users then Remove(s.users[u].shared, f) else s.users[u].shared))
    && t.dirs == AddSizes(s.dirs[file.parent := s.dirs[file.parent].(files := list)], file.parent, 0 - file.size)
    && t.files == s.files[f := Unshown(file)]
    && t == s.(users := t.users, dirs := t.dirs, files := t.files)
  }

  lemma TrashedParts(s: Store, f: Id)
    requires f in s.files && s.files[f].owner in s.users && s.files[f].parent in s.dirs
    ensures TrashParts(s, Trashed(s, f), f)
  {
  }

  lemma GrownShrinks(dirs: map<Id, Dir>, dirs': map<Id, Dir>, up: set<Id>, home: Id, list: seq<Id>, less: nat)
    requires home in dirs && dirs' == Grown(dirs[home := dirs[home].(files := list)], up, 0 - less as int)
    ensures Shrunken(dirs, dirs', up, home, list, less)
  {
  }

  // The owner moves the file to the trash; if its directory is gone it is only listed there once more. A user with whom
  // it is shared only leaves it, and others are refused.
  lemma DeleteFileAnswers(s: Store, max: nat, user: Id, f: Id)
    requires Inv(s, max)
    ensures
      var (t, r) := Step(s, max, DeleteFile(user, f));
      && (f !in s.files ==> t == s && r == Failed(STATUS_KEY_NOT_FOUND))
      && (f in s.files && s.files[f].owner != user && user !in s.files[f].users ==>
            t == s && r == Failed(STATUS_USER_FORBIDDEN))
  {
    if f in s.files {
      assert FilePlaced(s, f) && FileShares(s, f);
    }
  }

  lemma DeleteFileByOwner(s: Store, max: nat, user: Id, f: Id)
    requires Inv(s, max) && f in s.files && s.files[f].owner == user
    ensures
      var (t, r) := Step(s, max, DeleteFile(user, f));
      && user in s.users
      && (s.files[f].parent in s.dirs ==> FileTrashed(s, t, f) && r == Done)
      && (s.files[f].parent !in s.dirs ==>
            && r == Failed(STATUS_KEY_NOT_FOUND)
            && t == s.(users := s.users[user := s.users[user].(deleted := s.users[user].deleted + [f])]))
  {
    assert FilePlaced(s, f);
    var t, r := OwnerOutcome(s, max, user, f);
    if s.files[f].parent in s.dirs {
      TrashedIs(s, f);
    }
  }

  lemma OwnerOutcome(s: Store, max: nat, user: Id, f: Id) returns (t: Store, r: Outcome)
    requires user in s.users && f in s.files && s.files[f].owner == user
    ensures Step(s, max, DeleteFile(user, f)) == (t, r)
    ensures s.files[f].parent in s.dirs ==> t == Trashed(s, f) && r == Done
    ensures s.files[f].parent !in s.dirs ==>
              && r == Failed(STATUS_KEY_NOT_FOUND)
              && t == s.(users := s.users[user := s.users[user].(deleted := s.users[user].deleted + [f])])
  {
    t, r := Step(s, max, DeleteFile(user, f)).0, Step(s, max, DeleteFile(user, f)).1;
  }

  lemma DeleteFileBySharing(s: Store, max: nat, user: Id, f: Id)
    requires Inv(s, max) && f in s.files && s.files[f].owner != user && user in s.files[f].users
    ensures
      var (t, r) := Step(s, max, DeleteFile(user, f));
      var file := s.files[f];
      && r == Done && user in s.users && Live(s, f) && Live(t, f)
      && t.users == s.users[user := s.users[user].(shared := Remove(s.users[user].shared, f))]
      && t.files == s.files[f := file.(users := Remove(file.users, user), modifier := file.owner)]
      && t == s.(users := t.users, files := t.files)
  {
    assert FileShares(s, f);
  }

  // ---------- sharing ----------

  // A request on shares is answered in this order of tests.
  ghost function ShareAnswer(s: Store, user: Id, f: Id, other: Id): Outcome {
    if f !in s.files then Failed(STATUS_KEY_NOT_FOUND)
    else if s.files[f].owner != user then Failed(STATUS_USER_FORBIDDEN)
    else if other !in s.users then Failed(STATUS_KEY_NOT_FOUND)
    else Done
  }

  // The lists of the share between f and u, on both sides, are these; the file has the date, and its owner modified it.
  ghost predicate ShareWritten(s: Store, t: Store, f: Id, u: Id, date: string, users: seq<Id>, shared: seq<Id>)
    requires f in s.files && u in s.users
  {
    && t.users == s.users[u := s.users[u].(shared := shared)]
    && t.files == s.files[f := s.files[f].(users := users, date := date, modifier := s.files[f].owner)]
    && t == s.(users := t.users, files := t.files)
  }

  lemma SetFileShareAnswers(s: Store, max: nat, user: Id, f: Id, other: Id, date: string)
    ensures
      var (t, r) := Step(s, max, SetFileShare(user, f, other, date));
      && r == ShareAnswer(s, user, f, other) && (r != Done ==> t == s)
      && (r == Done ==>
            var users, shared := s.files[f].users, s.users[other].shared;
            ShareWritten(s, t, f, other, date, if other in users then users else users + [other],
                         if f in shared then shared else shared + [f]))
  {
  }

  lemma UnsetFileShareAnswers(s: Store, max: nat, user: Id, f: Id, other: Id, date: string)
    ensures
      var (t, r) := Step(s, max, UnsetFileShare(user, f, other, date));
      && r == ShareAnswer(s, user, f, other) && (r != Done ==> t == s)
      && (r == Done ==>
            ShareWritten(s, t, f, other, date, Remove(s.files[f].users, other), Remove(s.users[other].shared, f)))
  {
  }

  // Of the users the first k are known, and the next one, if any, is not.
  ghost predicate KnownUpTo(s: Store, others: seq<Id>, k: nat) {
    && k <= |others| && (forall i :: 0 <= i < k ==> others[i] in s.users)
    && (k < |others| ==> others[k] !in s.users)
  }

  // All previous shares go, and then the new users get theirs, up to the first who is not known.
  lemma OverwriteAnswers(s: Store, max: nat, user: Id, f: Id, others: seq<Id>, date: string, k: nat)
    requires Inv(s, max) && KnownUpTo(s, others, k)
    ensures
      var (t, r) := Step(s, max, OverwriteSharing(user, f, others, date));
      && (f !in s.files ==> t == s && r == Failed(STATUS_KEY_NOT_FOUND))
      && (f in s.files && s.files[f].owner != user ==> t == s && r == Failed(STATUS_USER_FORBIDDEN))
      && (f in s.files && s.files[f].owner == user ==>
            && r == (if k == |others| then Done else Failed(STATUS_KEY_NOT_FOUND))
            && Overwritten(s, t, f, others[..k], date))
  {
    if f in s.files && s.files[f].owner == user {
      var before := s.files[f].users;
      assert FileShares(s, f);
      UnshareEachClears(s, user, f, before, s.files[f].date);
      var c := Cleared(s, f, before, s.files[f].date);
      ClearedOf(s, max, c, f);
      ShareEachGrants(c, user, f, others, date, k);
      GrantsAfter(s, c, Granted(c, f, others[..k], date), f, others[..k], date);
    }
  }

  // Exactly the users us have the share, on both sides.
  ghost predicate Overwritten(s: Store, t: Store, f: Id, us: seq<Id>, date: string)
    requires f in s.files
  {
    var file := s.files[f];
    && t.users.Keys == s.users.Keys
    && (forall u :: u in s.users ==>
          t.users[u] == s.users[u].(shared := Remove(s.users[u].shared, f) + if u in us then [f] else []))
    && t.files == s.files[f := file.(users := InsertEach([], us), date := if us == [] then file.date else date,
                                     modifier := if us == [] && file.users == [] then file.modifier else file.owner)]
    && t == s.(users := t.users, files := t.files)
  }

  // The file is unshared.
  ghost predicate Unlisted(s: Store, c: Store, f: Id)
    requires f in s.files
  {
    var file := s.files[f];
    && c.users.Keys == s.users.Keys
    && (forall u :: u in s.users ==> c.users[u] == s.users[u].(shared := Remove(s.users[u].shared, f)))
    && c.files == s.files[f := Unshown(file)]
    && c == s.(users := c.users, files := c.files)
  }

  lemma ClearedOf(s: Store, max: nat, c: Store, f: Id)
    requires Inv(s, max) && f in s.files && c == Cleared(s, f, s.files[f].users, s.files[f].date)
    ensures Unlisted(s, c, f)
  {
    var us := s.files[f].users;
    SelectAll(us, us);
    forall u | u in s.users && u !in us ensures Remove(s.users[u].shared, f) == s.users[u].shared {
      assert UserShares(s, u);
      RemoveAbsent(s.users[u].shared, f);
    }
  }

  ghost function Granted(s: Store, f: Id, us: seq<Id>, date: string): Store
    requires f in s.files
  {
    if us == [] then s else Relisting(s, f, GrantedUsers(s.users, f, us), InsertEach(s.files[f].users, us), date)
  }

  ghost function GrantedUsers(users: map<Id, User>, f: Id, us: seq<Id>): map<Id, User> {
    map u | u in users :: users[u].(shared := if u in us then Insert(users[u].shared, f) else users[u].shared)
  }

  lemma {:induction false} ShareEachGrants(s: Store, user: Id, f: Id, others: seq<Id>, date: string, k: nat)
    requires f in s.files && s.files[f].owner == user && KnownUpTo(s, others, k)
    ensures ShareEach(s, user, f, others, date)
         == (Granted(s, f, others[..k], date), if k == |others| then Done else Failed(STATUS_KEY_NOT_FOUND))
    decreases |others|
  {
    if k > 0 {
      var t := Shared(s, f, others[0], date);
      ShareEachGrants(t, user, f, others[1..], date, k - 1);
      assert others[..k] == [others[0]] + others[1..][..k - 1];
      GrantedOneMore(s, f, others[..k], date);
    }
  }

  lemma GrantedOneMore(s: Store, f: Id, us: seq<Id>, date: string)
    requires f in s.files && us != [] && us[0] in s.users
    ensures Granted(Shared(s, f, us[0], date), f, us[1..], date) == Granted(s, f, us, date)
  {
    var first := s.users[us[0] := s.users[us[0]].(shared := Insert(s.users[us[0]].shared, f))];
    var list := Insert(s.files[f].users, us[0]);
    GrantedUsersOneMore(s.users, f, us);
    SharedRelists(s, f, us[0], date);
    assert InsertEach(s.files[f].users, us) == InsertEach(list, us[1..]);
    if us[1..] != [] {
      RelistedAgain(s, f, first, list, GrantedUsers(s.users, f, us), InsertEach(list, us[1..]), date);
    }
  }

  lemma SharedRelists(s: Store, f: Id, u: Id, date: string)
    requires f in s.files && u in s.users
    ensures Shared(s, f, u, date)
         == Relisting(s, f, s.users[u := s.users[u].(shared := Insert(s.users[u].shared, f))],
                      Insert(s.files[f].users, u), date)
  {
  }

  lemma RelistedAgain(s: Store, f: Id, a: map<Id, User>, x: seq<Id>, b: map<Id, User>, y: seq<Id>, date: string)
    requires f in s.files
    ensures Relisting(Relisting(s, f, a, x, date), f, b, y, date) == Relisting(s, f, b, y, date)
  {
  }

  lemma GrantedUsersOneMore(users: map<Id, User>, f: Id, us: seq<Id>)
    requires us != [] && us[0] in users
    ensures
      var first := users[us[0] := users[us[0]].(shared := Insert(users[us[0]].shared, f))];
      && GrantedUsers(first, f, us[1..]) == GrantedUsers(users, f, us)
      && (us[1..] == [] ==> first == GrantedUsers(users, f, us))
  {
    assert us == [us[0]] + us[1..];
  }

  lemma GrantsAfter(s: Store, c: Store, t: Store, f: Id, us: seq<Id>, date: string)
    requires f in s.files && f in c.files && Unlisted(s, c, f) && t == Granted(c, f, us, date)
    ensures Overwritten(s, t, f, us, date)
  {
    if us == [] {
      forall u | u in s.users ensures t.users[u].shared == Remove(s.users[u].shared, f) + [] {
      }
    }
  }
}
