/** What may change in one request and hence over a whole run: ids are never reused, files keep their owners and
    sizes, and users keep their roots for as long as they are there. */
module History {
  import opened Basics
  import opened Text
  import opened Keys
  import opened Records
  import opened DataHandlers
  import opened Drive
  import opened Invariants
  import opened KeepBasics
  import opened KeepFiles
  import opened KeepRecover
  import opened KeepMany
  import opened Runs

  // ---------- one step ----------

  // A directory was there before, or its id is new; a size that changed is a word.
  ghost predicate DirEvolves(s: Store, t: Store, d: Id)
    requires d in t.dirs
  {
    && (d in s.dirs || s.nextDir <= Val(d))
    && (t.dirs[d].size < WORD || (d in s.dirs && t.dirs[d].size == s.dirs[d].size))
  }

  // A file was there before, with the same owner and size and, while its directory exists, the same
  // directory; or its id is new.
  ghost predicate FileEvolves(s: Store, t: Store, f: Id)
    requires f in t.files
  {
    if f !in s.files then s.nextFile <= Val(f)
    else
      var file := s.files[f];
      && t.files[f].owner == file.owner && t.files[f].size == file.size
      && (t.files[f].parent == file.parent
          || (file.parent !in s.dirs && file.owner in s.users && t.files[f].parent == s.users[file.owner].root))
  }

  // A user was there before, with the same root, or the id is new.
  ghost predicate UserEvolves(s: Store, t: Store, u: Id)
    requires u in t.users
  {
    if u in s.users then t.users[u].root == s.users[u].root else s.nextUser <= Val(u)
  }

  ghost predicate Evolves(s: Store, t: Store) {
    && s.nextUser <= t.nextUser && s.nextDir <= t.nextDir && s.nextFile <= t.nextFile
    && (forall d {:trigger DirEvolves(s, t, d)} :: d in t.dirs ==> DirEvolves(s, t, d))
    && (forall f {:trigger FileEvolves(s, t, f)} :: f in t.files ==> FileEvolves(s, t, f))
    && (forall u {:trigger UserEvolves(s, t, u)} :: u in t.users ==> UserEvolves(s, t, u))
  }

  lemma SameEvolves(s: Store)
    ensures Evolves(s, s)
  {
  }

  // The requests that add nothing and leave what stays in its place.
  ghost predicate KeepsPlaces(s: Store, t: Store) {
    && s.nextUser <= t.nextUser && s.nextDir <= t.nextDir && s.nextFile <= t.nextFile
    && t.dirs.Keys <= s.dirs.Keys && t.files.Keys <= s.files.Keys && t.users.Keys <= s.users.Keys
    && (forall d :: d in t.dirs ==> t.dirs[d].size < WORD || t.dirs[d].size == s.dirs[d].size)
    && (forall f :: f in t.files ==> t.files[f].owner == s.files[f].owner && t.files[f].size == s.files[f].size
                                     && t.files[f].parent == s.files[f].parent)
    && (forall u :: u in t.users ==> t.users[u].root == s.users[u].root)
  }

  lemma PlacesEvolve(s: Store, t: Store)
    requires KeepsPlaces(s, t)
    ensures Evolves(s, t)
  {
  }

  lemma PlacesTwice(s: Store, t: Store, r: Store)
    requires KeepsPlaces(s, t) && KeepsPlaces(t, r)
    ensures KeepsPlaces(s, r)
  {
  }

  lemma SharedPlaces(s: Store, f: Id, u: Id, date: string)
    requires f in s.files && u in s.users
    ensures KeepsPlaces(s, Shared(s, f, u, date))
  {
  }

  lemma UnsharedPlaces(s: Store, f: Id, u: Id, date: string)
    requires f in s.files && u in s.users
    ensures KeepsPlaces(s, Unshared(s, f, u, date))
  {
  }

  lemma TrashedPlaces(s: Store, f: Id)
    ensures KeepsPlaces(s, Trashed(s, f))
  {
  }

  lemma {:induction false} TrashAllPlaces(s: Store, fs: seq<Id>)
    ensures KeepsPlaces(s, TrashAll(s, fs))
  {
    if fs != [] {
      var init := fs[..|fs| - 1];
      TrashAllPlaces(s, init);
      TrashedPlaces(TrashAll(s, init), fs[|fs| - 1]);
      PlacesTwice(s, TrashAll(s, init), TrashAll(s, fs));
    }
  }

  lemma DeleteDirectoryPlaces(s: Store, user: Id, d: Id)
    ensures KeepsPlaces(s, DoDeleteDirectory(s, user, d).0)
  {
    if d in s.dirs {
      var ds := Walk(s, false, d);
      DeletedPlaces(s, ds);
      UnlinkedPlaces(Deleted(s, ds), s.dirs[d].parent, d);
      PlacesTwice(s, Deleted(s, ds), Unlinked(Deleted(s, ds), s.dirs[d].parent, d).0);
    }
  }

  lemma DeletedPlaces(s: Store, ds: seq<Id>)
    ensures KeepsPlaces(s, Deleted(s, ds))
  {
    var t := TrashAll(s, FilesIn(s.dirs, ds));
    TrashAllPlaces(s, FilesIn(s.dirs, ds));
    ErasedPlaces(t, set x | x in ds);
    PlacesTwice(s, t, Deleted(s, ds));
  }

  lemma ErasedPlaces(s: Store, ds: set<Id>)
    ensures KeepsPlaces(s, Erased(s, ds))
  {
  }

  lemma UnlinkedPlaces(s: Store, parent: Id, d: Id)
    ensures KeepsPlaces(s, Unlinked(s, parent, d).0)
  {
  }

  lemma TrashPlaces(s: Store, u: Id, deleted: seq<Id>)
    requires u in s.users
    ensures KeepsPlaces(s, WithTrash(s, u, deleted))
  {
  }

  lemma DeleteFilePlaces(s: Store, user: Id, f: Id)
    ensures KeepsPlaces(s, DoDeleteFile(s, user, f).0)
  {
    if f in s.files && user in s.users {
      if s.files[f].owner == user {
        TrashedPlaces(s, f);
        TrashPlaces(s, user, s.users[user].deleted + [f]);
      } else {
        UnsharedPlaces(s, f, user, s.files[f].date);
      }
    } else {
      DeleteFileRefused(s, user, f);
    }
  }

  lemma DeleteFileRefused(s: Store, user: Id, f: Id)
    requires f !in s.files || user !in s.users
    ensures DoDeleteFile(s, user, f).0 == s
  {
  }

  lemma PurgedPlaces(s: Store, f: Id)
    ensures KeepsPlaces(s, Purged(s, f))
  {
  }

  lemma {:induction false} PurgeAllPlaces(s: Store, fs: seq<Id>)
    ensures KeepsPlaces(s, PurgeAll(s, fs))
  {
    if fs != [] {
      var init := fs[..|fs| - 1];
      PurgeAllPlaces(s, init);
      PurgedPlaces(PurgeAll(s, init), fs[|fs| - 1]);
      PlacesTwice(s, PurgeAll(s, init), PurgeAll(s, fs));
    }
  }

  lemma PurgePlaces(s: Store, user: Id, ids: seq<Id>, rest: seq<Id>)
    ensures KeepsPlaces(s, DoPurge(s, user, ids, rest).0)
  {
    PurgeAllPlaces(s, ids);
  }

  lemma DeleteUserPlaces(s: Store, user: Id)
    ensures KeepsPlaces(s, DoDeleteUser(s, user).0)
  {
    if user in s.users {
      var ds := Walk(s, false, s.users[user].root);
      var s1 := Deleted(s, ds);
      DeletedPlaces(s, ds);
      PurgePlaces(s1, user, TrashOf(s1, user), []);
      var s2 := DoPurge(s1, user, TrashOf(s1, user), []).0;
      PlacesTwice(s, s1, s2);
      if user in s2.users {
        DroppedPlaces(s2, user);
        PlacesTwice(s, s2, UserDropped(s2, user));
      }
    }
  }

  lemma DroppedPlaces(s: Store, user: Id)
    requires user in s.users
    ensures KeepsPlaces(s, UserDropped(s, user))
  {
  }

  lemma ShareRequestPlaces(s: Store, user: Id, f: Id, other: Id, date: string)
    ensures KeepsPlaces(s, DoSetShare(s, user, f, other, date).0)
            && KeepsPlaces(s, DoUnsetShare(s, user, f, other, date).0)
  {
    if f in s.files && other in s.users {
      SharedPlaces(s, f, other, date);
      UnsharedPlaces(s, f, other, date);
    }
  }

  lemma {:induction false} UnshareEachPlaces(s: Store, user: Id, f: Id, others: seq<Id>, date: string)
    ensures KeepsPlaces(s, UnshareEach(s, user, f, others, date).0)
    decreases |others|
  {
    if others != [] {
      var s1 := DoUnsetShare(s, user, f, others[0], date).0;
      ShareRequestPlaces(s, user, f, others[0], date);
      UnshareEachPlaces(s1, user, f, others[1..], date);
      PlacesTwice(s, s1, UnshareEach(s1, user, f, others[1..], date).0);
    }
  }

  lemma {:induction false} ShareEachPlaces(s: Store, user: Id, f: Id, others: seq<Id>, date: string)
    ensures KeepsPlaces(s, ShareEach(s, user, f, others, date).0)
    decreases |others|
  {
    if others != [] {
      var s1 := DoSetShare(s, user, f, others[0], date).0;
      ShareRequestPlaces(s, user, f, others[0], date);
      ShareEachPlaces(s1, user, f, others[1..], date);
      PlacesTwice(s, s1, ShareEach(s1, user, f, others[1..], date).0);
    }
  }

  lemma OverwritePlaces(s: Store, user: Id, f: Id, others: seq<Id>, date: string)
    ensures KeepsPlaces(s, DoOverwrite(s, user, f, others, date).0)
  {
    if f in s.files && s.files[f].owner == user {
      var s1 := UnshareEach(s, user, f, s.files[f].users, s.files[f].date).0;
      UnshareEachPlaces(s, user, f, s.files[f].users, s.files[f].date);
      ShareEachPlaces(s1, user, f, others, date);
      PlacesTwice(s, s1, ShareEach(s1, user, f, others, date).0);
    }
  }

  lemma SimilarPlaces(s: Store, t: Store)
    requires Similar(s, t)
    ensures KeepsPlaces(s, t)
  {
  }

  lemma ModifyUserPlaces(s: Store, user: Id, email: string, name: string, location: string)
    ensures KeepsPlaces(s, DoModifyUser(s, user, email, name, location).0)
  {
  }

  // ---------- the requests that add or move ----------

  lemma {:induction false} DirectoryAddedEvolves(s: Store, owner: Id, name: string, date: string, parent: Id)
    requires s.nextDir + 1 < WORD
    ensures Evolves(s, DirectoryAdded(s, owner, name, date, parent).0)
  {
    ToStrRoundTrip(s.nextDir);
    var t := DirectoryAdded(s, owner, name, date, parent).0;
    forall d | d in t.dirs ensures DirEvolves(s, t, d) {
      AddedDirEvolves(s, owner, name, date, parent, d);
    }
  }

  lemma AddedDirEvolves(s: Store, owner: Id, name: string, date: string, parent: Id, d: Id)
    requires s.nextDir + 1 < WORD && Val(NextId(s, DirTicket)) == s.nextDir
    requires d in DirectoryAdded(s, owner, name, date, parent).0.dirs
    ensures DirEvolves(s, DirectoryAdded(s, owner, name, date, parent).0, d)
  {
  }

  lemma EvolvesTwice(s: Store, t: Store, r: Store)
    requires Evolves(s, t) && KeepsPlaces(t, r)
    ensures Evolves(s, r)
  {
    forall d | d in r.dirs ensures DirEvolves(s, r, d) {
      assert DirEvolves(s, t, d);
    }
    forall f | f in r.files ensures FileEvolves(s, r, f) {
      assert FileEvolves(s, t, f);
    }
    forall u | u in r.users ensures UserEvolves(s, r, u) {
      assert UserEvolves(s, t, u);
    }
  }

  lemma NewDirectoryEvolves(s: Store, user: Id, name: string, date: string, parentId: Id)
    requires s.nextDir + 1 < WORD
    ensures Evolves(s, DoNewDirectory(s, user, name, date, parentId).0)
  {
    SameEvolves(s);
    if parentId != LABEL_ZERO || user in s.users {
      var parent := if parentId == LABEL_ZERO then s.users[user].root else parentId;
      var s1 := DirectoryAdded(s, user, name, date, parent).0;
      DirectoryAddedEvolves(s, user, name, date, parent);
      SetDatesSimilar(s1, parent, date);
      SimilarPlaces(s1, s1.(dirs := SetDates(s1.dirs, parent, date)));
      EvolvesTwice(s, s1, s1.(dirs := SetDates(s1.dirs, parent, date)));
    }
  }

  lemma {:induction false} SignUpEvolves(s: Store, email: string, name: string, location: string, date: string)
    requires s.nextUser + 1 < WORD && s.nextDir + 2 < WORD && NextId(s, UserTicket) !in s.users
    requires Val(NextId(s, UserTicket)) == s.nextUser
    ensures Evolves(s, UserAdded(s, email, name, location, date).0)
  {
    SameEvolves(s);
    if email !in s.index {
      var id, s1, s2, s3, root := SignUpStores(s, email, name, location, date);
      DirectoryAddedEvolves(s1, id, LABEL_ROOT, date, NO_PARENT);
      DirectoryAddedEvolves(s3, id, LABEL_SHARED_FILES, date, root);
      SignUpTwice(s, s1, s2, s3, UserAdded(s, email, name, location, date).0, id);
    }
  }

  // The stores of a sign-up: with the id handed out, with the root, and with the records of the user.
  lemma SignUpStores(s: Store, email: string, name: string, location: string, date: string)
      returns (id: Id, s1: Store, s2: Store, s3: Store, root: Id)
    requires s.nextUser + 1 < WORD && s.nextDir + 2 < WORD && email !in s.index
    ensures id == NextId(s, UserTicket) && s1 == s.(nextUser := s.nextUser + 1)
    ensures s2 == DirectoryAdded(s1, id, LABEL_ROOT, date, NO_PARENT).0 && s2.users == s1.users && s2.files == s1.files
    ensures s3.nextDir + 1 < WORD && s3.nextUser == s1.nextUser
    ensures s3 == s2.(users := s3.users, index := s3.index, emails := s3.emails)
    ensures id in s3.users && s3.users == s2.users[id := s3.users[id]]
    ensures UserAdded(s, email, name, location, date).0 == DirectoryAdded(s3, id, LABEL_SHARED_FILES, date, root).0
  {
    id, s1 := NextId(s, UserTicket), TakeTicket(s, UserTicket);
    root := NextId(s1, DirTicket);
    s2 := DirectoryAdded(s1, id, LABEL_ROOT, date, NO_PARENT).0;
    s3 := Registered(s2, id, email, name, location, root);
  }

  lemma SignUpTwice(s: Store, s1: Store, s2: Store, s3: Store, t: Store, id: Id)
    requires id !in s.users && Val(id) == s.nextUser < s1.nextUser && s1 == s.(nextUser := s1.nextUser)
    requires Evolves(s1, s2) && Evolves(s3, t) && s1.nextUser <= s3.nextUser
    requires s3.dirs == s2.dirs && s3.files == s2.files == s1.files && s3.nextDir == s2.nextDir
             && s3.nextFile == s2.nextFile
    requires s2.users == s1.users && id in s3.users && s3.users == s2.users[id := s3.users[id]] && t.files == s.files
    ensures Evolves(s, t)
  {
    forall d | d in t.dirs ensures DirEvolves(s, t, d) {
      assert DirEvolves(s3, t, d);
      assert d in s2.dirs ==> DirEvolves(s1, s2, d);
    }
    forall u | u in t.users ensures UserEvolves(s, t, u) {
      assert UserEvolves(s3, t, u);
    }
  }

  lemma UploadEvolves(s: Store, t: Store, up: set<Id>, id: Id, user: Id, size: nat, parent: Id)
    requires IsUpload(s, t, up, id, user, size, parent) && s.nextFile <= Val(id) && s.nextFile <= t.nextFile
    ensures Evolves(s, t)
  {
    forall d | d in t.dirs ensures DirEvolves(s, t, d) {
      assert DirStep(s, t, up, size, parent, s.dirs[parent].files + [id], d);
    }
  }

  lemma RevisionPlaces(s: Store, t: Store, up: set<Id>, user: Id, f: Id, size: nat, parent: Id)
    requires IsRevision(s, t, up, user, f, size, parent)
    ensures KeepsPlaces(s, t)
  {
    forall d | d in t.dirs ensures t.dirs[d].size < WORD || t.dirs[d].size == s.dirs[d].size {
      assert DirStep(s, t, up, size as int - s.files[f].size, parent, s.dirs[parent].files, d);
    }
  }

  // An upload that is refused, or names no directory, changes nothing.
  lemma NewFileRejected(s: Store, max: nat, user: Id, name: string, extension: string, date: string, size: nat,
                        parentId: Id, room: nat)
    requires user in s.users && (s.users[user].quota + size) % WORD <= max ==> UploadDir(s, user, parentId) !in s.dirs
    ensures DoNewFile(s, max, user, name, extension, date, size, parentId, room).0 == s
  {
  }

  lemma NewFileEvolves(s: Store, max: nat, user: Id, name: string, extension: string, date: string, size: nat,
                       parentId: Id, room: nat)
    requires Numbered(s) && s.nextFile + 1 < WORD && 0 < size && 0 < room
    ensures Evolves(s, DoNewFile(s, max, user, name, extension, date, size, parentId, room).0)
  {
    SameEvolves(s);
    if user in s.users && (s.users[user].quota + size) % WORD <= max && UploadDir(s, user, parentId) in s.dirs {
      UploadOutcome(s, max, user, name, extension, date, size, parentId, room);
      match Target(s, user, parentId, name, extension) {
        case MissingFile =>
        case NewName => UploadedEvolves(s, user, name, extension, date, size, UploadDir(s, user, parentId));
        case Revision(f) =>
          if f in s.files { RevisedEvolves(s, user, f, date, size, UploadDir(s, user, parentId)); }
      }
    } else {
      NewFileRejected(s, max, user, name, extension, date, size, parentId, room);
    }
  }

  lemma RevisedEvolves(s: Store, user: Id, f: Id, date: string, size: nat, parent: Id)
    requires user in s.users && f in s.files && parent in s.dirs
    ensures Evolves(s, Revised(s, user, f, date, size, parent))
  {
    var r := Revised(s, user, f, date, size, parent);
    RevisedIsRevision(s, user, f, date, size, parent);
    RevisionPlaces(s, r, Chain(Par(s.dirs), parent), user, f, size, parent);
    PlacesEvolve(s, r);
  }

  lemma UploadedEvolves(s: Store, user: Id, name: string, extension: string, date: string, size: nat, parent: Id)
    requires Numbered(s) && s.nextFile + 1 < WORD && user in s.users && parent in s.dirs
    ensures Evolves(s, Uploaded(s, user, name, extension, date, size, parent))
  {
    FreshIds(s, FileTicket);
    UploadedRest(s, user, name, extension, date, size, parent);
    UploadedIsUpload(s, user, name, extension, date, size, parent);
    UploadEvolves(s, Uploaded(s, user, name, extension, date, size, parent), Chain(Par(s.dirs), parent),
                  NextId(s, FileTicket), user, size, parent);
  }

  // The files fs are back in a directory, and the rest is in place.
  ghost predicate BackIn(s: Store, t: Store, root: Id, fs: seq<Id>) {
    && t.nextUser == s.nextUser && t.nextDir == s.nextDir && t.nextFile == s.nextFile && t.users == s.users
    && t.dirs.Keys == s.dirs.Keys && t.files.Keys == s.files.Keys
    && (forall d :: d in t.dirs ==> t.dirs[d].size < WORD || t.dirs[d].size == s.dirs[d].size)
    && (forall f :: f in t.files ==>
          && t.files[f].owner == s.files[f].owner && t.files[f].size == s.files[f].size
          && (t.files[f].parent == s.files[f].parent
              || (f in fs && s.files[f].parent !in s.dirs && t.files[f].parent == root)))
  }

  lemma {:induction false} RestoreAllBack(s: Store, root: Id, fs: seq<Id>)
    ensures BackIn(s, RestoreAll(s, root, fs), root, fs)
  {
    if fs != [] {
      var init, last := fs[..|fs| - 1], fs[|fs| - 1];
      RestoreAllBack(s, root, init);
      assert fs == init + [last];
      RestoredBack(s, RestoreAll(s, root, init), root, init, last);
    }
  }

  lemma RestoredBack(s: Store, t: Store, root: Id, fs: seq<Id>, f: Id)
    requires BackIn(s, t, root, fs)
    ensures BackIn(s, Restored(t, root, f), root, fs + [f])
  {
    var r := Restored(t, root, f);
    RestoredRecords(t, root, f);
    forall g | g in r.files
      ensures r.files[g].owner == s.files[g].owner && r.files[g].size == s.files[g].size
      ensures r.files[g].parent == s.files[g].parent
              || (g in fs + [f] && s.files[g].parent !in s.dirs && r.files[g].parent == root)
    {
    }
  }

  lemma RestoredRecords(t: Store, root: Id, f: Id)
    ensures
      var r := Restored(t, root, f);
      && r.nextUser == t.nextUser && r.nextDir == t.nextDir && r.nextFile == t.nextFile && r.users == t.users
      && r.dirs.Keys == t.dirs.Keys && r.files.Keys == t.files.Keys
      && (forall d :: d in r.dirs ==> r.dirs[d].size < WORD || r.dirs[d].size == t.dirs[d].size)
      && (forall g :: g in r.files ==>
            && r.files[g].owner == t.files[g].owner && r.files[g].size == t.files[g].size
            && (r.files[g].parent == t.files[g].parent
                || (g == f && t.files[g].parent !in t.dirs && r.files[g].parent == root)))
  {
  }

  lemma RecoverEvolves(s: Store, user: Id, ids: seq<Id>, rest: seq<Id>)
    requires user in s.users ==> AllTrashOf(s, user, ids)
    requires Placed(s)
    ensures Evolves(s, DoRecover(s, user, ids, rest).0)
  {
    SameEvolves(s);
    if user in s.users {
      assert TrashPlaced(s, user);
      RestoreAllBack(s, s.users[user].root, ids);
      BackEvolves(s, RestoreAll(s, s.users[user].root, ids), user, ids, rest);
    }
  }

  lemma BackEvolves(s: Store, t: Store, user: Id, ids: seq<Id>, rest: seq<Id>)
    requires user in s.users && BackIn(s, t, s.users[user].root, ids)
    requires forall f :: f in ids ==> f in s.files && s.files[f].owner == user
    ensures Evolves(s, WithTrash(t, user, rest))
  {
  }

  lemma StepEvolves(s: Store, max: nat, q: Request)
    requires Inv(s, max) && Admissible(s, max, q)
    ensures Evolves(s, Step(s, max, q).0)
  {
    match q {
      case SignUp(email, firstName, lastName, gpsLat, gpsLon, date) =>
        FreshIds(s, UserTicket);
        SignUpEvolves(s, email, Pair(firstName, lastName), Pair(gpsLat, gpsLon), date);
      case NewDirectory(user, name, date, parent) => NewDirectoryEvolves(s, user, name, date, parent);
      case NewFile(user, name, extension, date, size, parent, room) =>
        NewFileEvolves(s, max, user, name, extension, date, size, parent, room);
      case RecoverTrash(_) => TrashStepEvolves(s, max, q);
      case RecoverSelected(_, _) => TrashStepEvolves(s, max, q);
      case _ =>
        OtherStepPlaces(s, max, q);
        PlacesEvolve(s, Step(s, max, q).0);
    }
  }

  lemma TrashStepEvolves(s: Store, max: nat, q: Request)
    requires Inv(s, max) && (q.RecoverTrash? || q.RecoverSelected?)
    ensures Evolves(s, Step(s, max, q).0)
  {
    var list := TrashOf(s, q.user);
    if q.RecoverSelected? {
      if q.user in s.users { SelectedTrash(s, q.user, q.selected); }
      RecoverEvolves(s, q.user, Select(list, q.selected, true), Select(list, q.selected, false));
    } else {
      if q.user in s.users { WholeTrash(s, q.user); }
      RecoverEvolves(s, q.user, list, []);
    }
  }

  lemma OtherStepPlaces(s: Store, max: nat, q: Request)
    requires !(q.SignUp? || q.NewDirectory? || q.NewFile? || q.RecoverTrash? || q.RecoverSelected?)
    ensures KeepsPlaces(s, Step(s, max, q).0)
  {
    match q {
      case DeleteDirectory(user, d) => DeleteDirectoryPlaces(s, user, d);
      case DeleteFile(user, f) => DeleteFilePlaces(s, user, f);
      case DeleteUser(user) => DeleteUserPlaces(s, user);
      case PurgeTrash(user) => PurgePlaces(s, user, TrashOf(s, user), []);
      case PurgeSelected(user, selected) =>
        PurgePlaces(s, user, Select(TrashOf(s, user), selected, true), Select(TrashOf(s, user), selected, false));
      case SetFileShare(user, f, other, date) => ShareRequestPlaces(s, user, f, other, date);
      case UnsetFileShare(user, f, other, date) => ShareRequestPlaces(s, user, f, other, date);
      case OverwriteSharing(user, f, others, date) => OverwritePlaces(s, user, f, others, date);
      case ModifyUserInfo(user, email, firstName, lastName, gpsLat, gpsLon) =>
        ModifyUserPlaces(s, user, email, Pair(firstName, lastName), Pair(gpsLat, gpsLon));
      case ModifyDirectoryInfo(user, d, name, date, tags) =>
        ModifyDirectorySimilar(s, user, d, name, date, tags);
        SimilarPlaces(s, Step(s, max, q).0);
      case ModifyFileInfo(user, f, name, extension, date, tags) =>
        ModifyFileSimilar(s, user, f, name, extension, date, tags);
        SimilarPlaces(s, Step(s, max, q).0);
    }
  }

  // ---------- runs ----------

  function Ids(s: Store, kind: TicketKind): set<Id> {
    match kind
    case UserTicket => s.users.Keys
    case DirTicket => s.dirs.Keys
    case FileTicket => s.files.Keys
  }

  // The id was handed out and is in use no more.
  ghost predicate Gone(s: Store, kind: TicketKind, id: Id) {
    Val(id) < Ticket(s, kind) && id !in Ids(s, kind)
  }

  lemma GoneStep(s: Store, t: Store, kind: TicketKind, id: Id)
    requires Evolves(s, t) && Gone(s, kind, id)
    ensures Gone(t, kind, id)
  {
    assert id in t.dirs ==> DirEvolves(s, t, id);
    assert id in t.files ==> FileEvolves(s, t, id);
    assert id in t.users ==> UserEvolves(s, t, id);
  }

  // Ids of deleted users, directories and files never come back.
  lemma {:induction false} GoneForEver(s: Store, max: nat, qs: seq<Request>, kind: TicketKind, id: Id)
    requires Inv(s, max) && AdmissibleRun(s, max, qs) && Gone(s, kind, id)
    ensures Gone(Run(s, max, qs), kind, id)
  {
    if qs != [] {
      var init, last := qs[..|qs| - 1], qs[|qs| - 1];
      RunSnoc(s, max, qs);
      RunKeeps(s, max, init);
      GoneForEver(s, max, init, kind, id);
      StepEvolves(Run(s, max, init), max, last);
      GoneStep(Run(s, max, init), Run(s, max, qs), kind, id);
    }
  }

  // A file whose directory is gone has no home but its owner's root.
  ghost predicate Homeless(s: Store, f: Id, o: Id, root: Id) {
    && Val(f) < s.nextFile && Val(o) < s.nextUser && (o in s.users ==> s.users[o].root == root)
    && (f in s.files ==> s.files[f].owner == o && (s.files[f].parent == root || Gone(s, DirTicket, s.files[f].parent)))
  }

  lemma HomelessStep(s: Store, t: Store, f: Id, o: Id, root: Id)
    requires Evolves(s, t) && Homeless(s, f, o, root)
    ensures Homeless(t, f, o, root)
  {
    assert o in t.users ==> UserEvolves(s, t, o);
    if f in t.files {
      assert FileEvolves(s, t, f);
      assert t.files[f].parent in t.dirs ==> DirEvolves(s, t, t.files[f].parent);
    }
  }

  lemma {:induction false} HomelessRun(s: Store, max: nat, qs: seq<Request>, f: Id, o: Id, root: Id)
    requires Inv(s, max) && AdmissibleRun(s, max, qs) && Homeless(s, f, o, root)
    ensures Homeless(Run(s, max, qs), f, o, root)
  {
    if qs != [] {
      var init, last := qs[..|qs| - 1], qs[|qs| - 1];
      RunSnoc(s, max, qs);
      RunKeeps(s, max, init);
      HomelessRun(s, max, init, f, o, root);
      StepEvolves(Run(s, max, init), max, last);
      HomelessStep(Run(s, max, init), Run(s, max, qs), f, o, root);
    }
  }

  // However long a file stays in the trash after its directory was deleted, recovery puts it into the root of
  // its owner: the id of the old directory has not been given to another.
  lemma LandsInRoot(s: Store, max: nat, qs: seq<Request>, f: Id)
    requires Inv(s, max) && AdmissibleRun(s, max, qs) && f in s.files && s.files[f].parent !in s.dirs
    requires InTrash(Run(s, max, qs), f)
    ensures
      var o := s.files[f].owner;
      var t := Run(s, max, qs);
      var r := Step(t, max, RecoverSelected(o, [f])).0;
      && o in s.users && o in r.users && f in r.files && s.users[o].root in r.dirs
      && r.files[f].parent == s.users[o].root && f in r.dirs[s.users[o].root].files && !InTrash(r, f)
  {
    var o, t := s.files[f].owner, Run(s, max, qs);
    assert FilePlaced(s, f) && IsNumbered(f, s.nextFile) && IsNumbered(o, s.nextUser) && ParentHanded(s, f);
    RunKeeps(s, max, qs);
    HomelessRun(s, max, qs, f, o, s.users[o].root);
    RecoverOne(t, o, f);
    RecoverStep(t, max, o, [f]);
    RecoveredIsRecover(t, f);
    RecoverLive(t, Recovered(t, f), Chain(Par(t.dirs), Home(t, f)), f, f);
  }

  lemma {:induction false} SelectOne(toks: seq<Id>, f: Id)
    requires NoDup(toks)
    ensures Select(toks, [f], true) == if f in toks then [f] else []
    ensures Select(toks, [f], false) == Remove(toks, f)
  {
    if toks != [] {
      assert toks == [toks[0]] + toks[1..];
      assert toks[0] !in toks[1..];
      SelectOne(toks[1..], f);
    }
  }

  lemma RecoverOne(s: Store, user: Id, f: Id)
    requires Placed(s) && InTrash(s, f) && s.files[f].owner == user
    ensures
      var list := TrashOf(s, user);
      DoRecover(s, user, Select(list, [f], true), Select(list, [f], false)) == (Recovered(s, f), Done)
  {
    var list := s.users[user].deleted;
    assert TrashPlaced(s, user);
    SelectOne(list, f);
    RestoreOne(s, user, f, Remove(list, f));
    RecoveredIs(s, user, f);
  }

  lemma RecoverStep(s: Store, max: nat, user: Id, selected: seq<Id>)
    ensures
      var list := TrashOf(s, user);
      Step(s, max, RecoverSelected(user, selected))
      == DoRecover(s, user, Select(list, selected, true), Select(list, selected, false))
  {
  }

  lemma RecoveredIs(s: Store, user: Id, f: Id)
    requires f in s.files && s.files[f].owner == user && user in s.users
    ensures user in Restored(s, s.users[user].root, f).users
    ensures Recovered(s, f) == WithTrash(Restored(s, s.users[user].root, f), user, Remove(s.users[user].deleted, f))
  {
  }

  lemma RestoreOne(s: Store, user: Id, f: Id, rest: seq<Id>)
    requires user in s.users
    ensures user in Restored(s, s.users[user].root, f).users
    ensures DoRecover(s, user, [f], rest) == (WithTrash(Restored(s, s.users[user].root, f), user, rest), Done)
  {
    assert [f][..0] == [];
    assert RestoreAll(s, s.users[user].root, [f]) == Restored(s, s.users[user].root, f);
  }
}
