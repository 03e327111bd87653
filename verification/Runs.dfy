/** Whole requests and whole runs. */
module Runs {
  import opened Basics
  import opened Text
  import opened Keys
  import opened Records
  import opened DataHandlers
  import opened Drive
  import opened Invariants
  import opened KeepBasics
  import opened KeepFiles
  import opened KeepTrash
  import opened KeepMany
  import opened KeepShare
  import opened KeepUsers
  import opened KeepDelete
  import opened KeepLeave

  // ---------- uploads ----------

  // With all listed files present, the search finds exactly a listed file of that name and extension.
  lemma {:induction false} FoundRevision(s: Store, ids: seq<Id>, name: string, extension: string)
    requires forall f :: f in ids ==> f in s.files
    ensures
      var r := FindRevision(s, ids, name, extension);
      && r != MissingFile
      && (r.Revision? ==> r.file in ids && s.files[r.file].name == name && s.files[r.file].extension == extension)
      && (r == NewName <==> forall f :: f in ids ==> s.files[f].name != name || s.files[f].extension != extension)
  {
    if ids != [] {
      assert ids == [ids[0]] + ids[1..];
      FoundRevision(s, ids[1..], name, extension);
    }
  }

  // The directory that an upload names.
  function UploadDir(s: Store, user: Id, parentId: Id): Id
    requires user in s.users
  {
    if parentId == LABEL_ZERO then s.users[user].root else parentId
  }

  // What the upload of such a file replaces.
  function Target(s: Store, user: Id, parentId: Id, name: string, extension: string): Revision {
    if user !in s.users || UploadDir(s, user, parentId) !in s.dirs then NewName
    else FindRevision(s, s.dirs[UploadDir(s, user, parentId)].files, name, extension)
  }

  // The branches of an upload into a directory that exists, within the quota.
  lemma UploadOutcome(s: Store, max: nat, user: Id, name: string, extension: string, date: string, size: nat,
                      parentId: Id, room: nat)
    requires user in s.users && (s.users[user].quota + size) % WORD <= max && UploadDir(s, user, parentId) in s.dirs
    ensures
      var home, failed := UploadDir(s, user, parentId), Failed(STATUS_FAIL_SAVING_FILE);
      var found := Target(s, user, parentId, name, extension);
      DoNewFile(s, max, user, name, extension, date, size, parentId, room)
      == if found == NewName then
           if size == 0 || room == 0 then (FailedUpload(s, user, name, extension, date, size, home), failed)
           else (Uploaded(s, user, name, extension, date, size, home), Done)
         else if found == MissingFile || found.file !in s.files then (s, Failed(STATUS_UNSET))
         else if size == 0 || room == 0 then (s, failed)
         else (Revised(s, user, found.file, date, size, home), Done)
  {
  }

  // An upload under a new name keeps the invariants exactly if the file is not empty, the disk takes some of it, and
  // the sum that was checked against the maximum did not wrap around.
  lemma NewNameKeeps(s: Store, max: nat, user: Id, name: string, extension: string, date: string, size: nat,
                     parentId: Id, room: nat)
    requires Inv(s, max) && max < WORD && s.nextFile + 1 < WORD && size < WORD && user in s.users
    requires (s.users[user].quota + size) % WORD <= max
    requires UploadDir(s, user, parentId) in s.dirs && Target(s, user, parentId, name, extension) == NewName
    ensures
      var t := DoNewFile(s, max, user, name, extension, date, size, parentId, room).0;
      && (Inv(t, max) <==> 0 < size && 0 < room && s.users[user].quota + size < WORD)
      && (Inv(t, max) ==> StaysExact(s, t))
  {
    var parent := UploadDir(s, user, parentId);
    UploadOutcome(s, max, user, name, extension, date, size, parentId, room);
    if size == 0 || room == 0 {
      FailedSaveLeavesId(s, user, name, extension, date, size, parent);
    } else if s.users[user].quota + size < WORD {
      NoWrap(s.users[user].quota + size);
      UploadKeeps(s, max, user, name, extension, date, size, parent);
    } else {
      WrappedQuota(s, max, user, name, extension, date, size, parent);
    }
  }

  lemma FailedSaveLeavesId(s: Store, user: Id, name: string, extension: string, date: string, size: nat, parent: Id)
    requires parent in s.dirs
    ensures !Placed(FailedUpload(s, user, name, extension, date, size, parent))
  {
    var t, id := FailedUpload(s, user, name, extension, date, size, parent), NextId(s, FileTicket);
    assert t.dirs[parent].files == s.dirs[parent].files + [id];
    assert id in t.dirs[parent].files && id !in t.files;
    assert !ListPlaced(t, parent);
  }

  lemma WrappedQuota(s: Store, max: nat, user: Id, name: string, extension: string, date: string, size: nat, parent: Id)
    requires Inv(s, max) && user in s.users && parent in s.dirs && size < WORD && max < WORD
    requires s.users[user].quota + size >= WORD
    ensures !Covered(Uploaded(s, user, name, extension, date, size, parent), max)
  {
    var t, id := Uploaded(s, user, name, extension, date, size, parent), NextId(s, FileTicket);
    UploadedRest(s, user, name, extension, date, size, parent);
    UploadedIsUpload(s, user, name, extension, date, size, parent);
    WrappedQuotaOf(s, t, max, Chain(Par(s.dirs), parent), id, user, size, parent);
  }

  lemma WrappedQuotaOf(s: Store, t: Store, max: nat, up: set<Id>, id: Id, user: Id, size: nat, parent: Id)
    requires IsUpload(s, t, up, id, user, size, parent) && Covered(s, max) && size < WORD && max < WORD
    requires s.users[user].quota + size >= WORD
    ensures !Covered(t, max)
  {
    UploadOwned(s, t, up, id, user, size, parent, user);
    assert CoveredAt(s, max, user) && !CoveredAt(t, max, user);
    assert t.users[user].quota == s.users[user].quota + size - WORD < size;
  }

  // ---------- deleting a file ----------

  // An owner's deletion keeps the invariants exactly if the file is live; a file in the trash is listed twice.
  lemma DeleteFileKeeps(s: Store, max: nat, user: Id, f: Id)
    requires Inv(s, max)
    ensures
      var t := DoDeleteFile(s, user, f).0;
      && (Inv(t, max) <==> (f in s.files && s.files[f].owner == user ==> Live(s, f)))
      && (Inv(t, max) ==> StaysExact(s, t))
  {
    if f in s.files {
      assert FilePlaced(s, f);
      if s.files[f].owner == user {
        if Live(s, f) {
          TrashKeeps(s, max, f);
        } else {
          var t, list := DoDeleteFile(s, user, f).0, s.users[user].deleted;
          var i :| 0 <= i < |list| && list[i] == f;
          assert t.users[user].deleted == list + [f];
          assert (list + [f])[i] == (list + [f])[|list|];
          assert !TrashPlaced(t, user);
        }
      } else if user in s.files[f].users {
        assert FileShares(s, f);
        UnsharedKeeps(s, max, f, user, s.files[f].date);
      }
    }
  }

  // ---------- one request ----------

  // What the server relies on: the counters have room, a file that is deleted or shared is live (or the new list of
  // shares adds nobody), a user's root is not deleted by its own id, a user who is deleted leaves nothing to others, an
  // upload is not empty and the disk takes some of it, e-mails can be held by the list and are not taken over from
  // another user, and a used quota plus a new size fits in a word.
  ghost predicate Admissible(s: Store, max: nat, q: Request) {
    && max < WORD && s.nextUser + 1 < WORD && s.nextDir + 2 < WORD && s.nextFile + 1 < WORD
    && match q
       case SignUp(email, _, _, _, _, _) => email in s.index || IsKey(email)
       case NewFile(user, _, _, _, size, _, room) =>
         0 < size < WORD && 0 < room && (user in s.users ==> s.users[user].quota + size < WORD)
       case DeleteDirectory(_, d) => forall u :: u in s.users ==> s.users[u].root != d
       case DeleteFile(user, f) => f in s.files && s.files[f].owner == user ==> Live(s, f)
       case SetFileShare(user, f, _, _) => f in s.files && s.files[f].owner == user ==> Live(s, f)
       case OverwriteSharing(user, f, others, _) =>
         f in s.files && s.files[f].owner == user ==> Live(s, f) || others == [] || others[0] !in s.users
       case DeleteUser(user) => user in s.users ==> LeavesNothing(s, user)
       case ModifyUserInfo(user, email, _, _, _, _) =>
         user in s.users ==> email == s.users[user].email || (IsKey(email) && email !in s.index)
       case _ => true
  }

  // A new upload of an existing name succeeds exactly if something of it reaches the disk. It then keeps the invariants
  // exactly if the checked sum does not wrap around, or wraps to a quota that still covers what the user owns. Without
  // a wrap-around its effect goes into the ledger, and with the ledger as it was the quotas are wrong afterwards.
  lemma SameNameKeeps(s: Store, max: nat, user: Id, name: string, extension: string, date: string, size: nat,
                      parentId: Id, room: nat, f: Id)
    requires Inv(s, max) && max < WORD && size < WORD && user in s.users
    requires (s.users[user].quota + size) % WORD <= max
    requires UploadDir(s, user, parentId) in s.dirs && Target(s, user, parentId, name, extension) == Revision(f)
    ensures f in s.files
    ensures
      var (t, r) := DoNewFile(s, max, user, name, extension, date, size, parentId, room);
      var sum := s.users[user].quota + size;
      && (r == Done <==> 0 < size && 0 < room) && (r != Done ==> t == s)
      && (Inv(t, max) <==> size == 0 || room == 0 || sum < WORD || Sum(s.files, Owned(s, user)) + WORD <= sum)
      && (r == Done && sum < WORD ==>
            Rebooked(s, t, Chain(Par(s.dirs), UploadDir(s, user, parentId)), user, size, s.files[f].size))
  {
    var home := UploadDir(s, user, parentId);
    assert ListPlaced(s, home);
    FoundRevision(s, s.dirs[home].files, name, extension);
    UploadOutcome(s, max, user, name, extension, date, size, parentId, room);
    RevisedKeeps(s, max, user, f, date, size, home);
  }

  // The request uploads an existing name again.
  ghost predicate Replaces(s: Store, max: nat, q: Request) {
    && q.NewFile? && q.user in s.users && Step(s, max, q).1 == Done
    && var found := Target(s, q.user, q.parent, q.name, q.extension);
    && found.Revision? && found.file in s.files
  }

  ghost function LedgerAfter(s: Store, max: nat, q: Request, g: Ledger): Ledger {
    if Replaces(s, max, q) then
      Replacing(g, Chain(Par(s.dirs), UploadDir(s, q.user, q.parent)), q.user, q.size,
                s.files[Target(s, q.user, q.parent, q.name, q.extension).file].size)
    else g
  }

  // With the entries for the request the ledger is right again.
  ghost predicate ExactStep(s: Store, max: nat, q: Request) {
    forall g {:trigger Exact(s, g)} :: Exact(s, g) ==> Exact(Step(s, max, q).0, LedgerAfter(s, max, q, g))
  }

  lemma NewFileStep(s: Store, max: nat, q: Request)
    requires q.NewFile?
    ensures Step(s, max, q) == DoNewFile(s, max, q.user, q.name, q.extension, q.date, q.size, q.parent, q.room)
  {
  }

  lemma NewFileKeeps(s: Store, max: nat, q: Request)
    requires Inv(s, max) && q.NewFile? && Admissible(s, max, q)
    ensures Inv(Step(s, max, q).0, max) && ExactStep(s, max, q)
  {
    NewFileStep(s, max, q);
    if q.user in s.users && s.users[q.user].quota + q.size <= max && UploadDir(s, q.user, q.parent) in s.dirs {
      NewFileIn(s, max, q);
    } else {
      NewFileRefused(s, max, q);
      SameStaysExact(s);
    }
  }

  lemma NewFileRefused(s: Store, max: nat, q: Request)
    requires q.NewFile? && (q.user in s.users ==> s.users[q.user].quota + q.size < WORD)
    requires !(q.user in s.users && s.users[q.user].quota + q.size <= max && UploadDir(s, q.user, q.parent) in s.dirs)
    ensures
      var (t, r) := DoNewFile(s, max, q.user, q.name, q.extension, q.date, q.size, q.parent, q.room);
      t == s && r != Done
  {
    if q.user in s.users {
      NoWrap(s.users[q.user].quota + q.size);
    }
  }

  lemma NoWrap(n: nat)
    requires n < WORD
    ensures n % WORD == n
  {
  }

  lemma {:induction false} NewFileIn(s: Store, max: nat, q: Request)
    requires Inv(s, max) && q.NewFile? && Admissible(s, max, q)
    requires q.user in s.users && s.users[q.user].quota + q.size <= max && UploadDir(s, q.user, q.parent) in s.dirs
    ensures Inv(Step(s, max, q).0, max) && ExactStep(s, max, q)
  {
    var home := UploadDir(s, q.user, q.parent);
    assert ListPlaced(s, home);
    FoundRevision(s, s.dirs[home].files, q.name, q.extension);
    var found := Target(s, q.user, q.parent, q.name, q.extension);
    if found == NewName {
      NewNameIn(s, max, q);
    } else {
      SameNameIn(s, max, q, found.file);
    }
  }

  lemma {:induction false} NewNameIn(s: Store, max: nat, q: Request)
    requires Inv(s, max) && q.NewFile? && Admissible(s, max, q)
    requires q.user in s.users && s.users[q.user].quota + q.size <= max && UploadDir(s, q.user, q.parent) in s.dirs
    requires Target(s, q.user, q.parent, q.name, q.extension) == NewName
    ensures Inv(Step(s, max, q).0, max) && ExactStep(s, max, q)
  {
    NewFileStep(s, max, q);
    NoWrap(s.users[q.user].quota + q.size);
    NewNameKeeps(s, max, q.user, q.name, q.extension, q.date, q.size, q.parent, q.room);
    OtherStepExact(s, max, q);
  }

  lemma {:induction false} SameNameIn(s: Store, max: nat, q: Request, f: Id)
    requires Inv(s, max) && q.NewFile? && Admissible(s, max, q)
    requires q.user in s.users && s.users[q.user].quota + q.size <= max && UploadDir(s, q.user, q.parent) in s.dirs
    requires Target(s, q.user, q.parent, q.name, q.extension) == Revision(f)
    ensures Inv(Step(s, max, q).0, max) && ExactStep(s, max, q)
  {
    NewFileStep(s, max, q);
    NoWrap(s.users[q.user].quota + q.size);
    SameNameKeeps(s, max, q.user, q.name, q.extension, q.date, q.size, q.parent, q.room, f);
    ReplacedStep(s, max, q, f);
  }

  lemma ReplacedStep(s: Store, max: nat, q: Request, f: Id)
    requires q.NewFile? && q.user in s.users && f in s.files
    requires Target(s, q.user, q.parent, q.name, q.extension) == Revision(f)
    requires
      var (t, r) := Step(s, max, q);
      if r == Done then Rebooked(s, t, Chain(Par(s.dirs), UploadDir(s, q.user, q.parent)), q.user, q.size,
                                 s.files[f].size)
      else t == s
    ensures ExactStep(s, max, q)
  {
  }

  // Every admissible request keeps the invariants and the accounts: sizes and quotas change only as the files do and as
  // the ledger says.
  lemma StepKeeps(s: Store, max: nat, q: Request)
    requires Inv(s, max) && Admissible(s, max, q)
    ensures Inv(Step(s, max, q).0, max)
    ensures ExactStep(s, max, q)
  {
    if q.NewFile? {
      NewFileKeeps(s, max, q);
    } else {
      OtherStepKeeps(s, max, q);
      OtherStepExact(s, max, q);
    }
  }

  lemma OtherStepExact(s: Store, max: nat, q: Request)
    requires StaysExact(s, Step(s, max, q).0)
    requires !q.NewFile? || Target(s, q.user, q.parent, q.name, q.extension) == NewName
    ensures ExactStep(s, max, q)
  {
  }

  lemma OtherStepKeeps(s: Store, max: nat, q: Request)
    requires Inv(s, max) && Admissible(s, max, q) && !q.NewFile?
    ensures Inv(Step(s, max, q).0, max) && StaysExact(s, Step(s, max, q).0)
  {
    match q {
      case SignUp(email, firstName, lastName, gpsLat, gpsLon, date) =>
        SignUpKeeps(s, max, email, Pair(firstName, lastName), Pair(gpsLat, gpsLon), date);
      case NewDirectory(user, name, date, parent) => DoNewDirectoryKeeps(s, max, user, name, date, parent);
      case DeleteDirectory(user, d) => DeleteDirectoryKeeps(s, max, user, d);
      case DeleteFile(user, f) => DeleteFileKeeps(s, max, user, f);
      case DeleteUser(user) => DeleteUserRequestKeeps(s, max, user);
      case PurgeTrash(_) => TrashRequestKeeps(s, max, q);
      case PurgeSelected(_, _) => TrashRequestKeeps(s, max, q);
      case RecoverTrash(_) => TrashRequestKeeps(s, max, q);
      case RecoverSelected(_, _) => TrashRequestKeeps(s, max, q);
      case SetFileShare(_, _, _, _) => ShareRequestKeeps(s, max, q);
      case UnsetFileShare(_, _, _, _) => ShareRequestKeeps(s, max, q);
      case OverwriteSharing(user, f, others, date) => OverwriteKeeps(s, max, user, f, others, date);
      case ModifyUserInfo(user, email, firstName, lastName, gpsLat, gpsLon) =>
        if user in s.users { ModifyUserKeeps(s, max, user, email, Pair(firstName, lastName), Pair(gpsLat, gpsLon)); }
      case ModifyDirectoryInfo(user, d, name, date, tags) => ModifyDirectoryKeeps(s, max, user, d, name, date, tags);
      case ModifyFileInfo(user, f, name, extension, date, tags) =>
        ModifyFileKeeps(s, max, user, f, name, extension, date, tags);
    }
  }

  lemma DeleteUserRequestKeeps(s: Store, max: nat, user: Id)
    requires Inv(s, max) && max < WORD && (user in s.users ==> LeavesNothing(s, user))
    ensures Inv(DoDeleteUser(s, user).0, max) && StaysExact(s, DoDeleteUser(s, user).0)
  {
    if user in s.users {
      DeleteUserKeeps(s, max, user);
    } else {
      SameStaysExact(s);
    }
  }

  lemma TrashRequestKeeps(s: Store, max: nat, q: Request)
    requires Inv(s, max) && max < WORD && (q.PurgeTrash? || q.PurgeSelected? || q.RecoverTrash? || q.RecoverSelected?)
    ensures Inv(Step(s, max, q).0, max)
    ensures StaysExact(s, Step(s, max, q).0)
  {
    var list := TrashOf(s, q.user);
    if q.PurgeSelected? || q.RecoverSelected? {
      var ids, rest := Select(list, q.selected, true), Select(list, q.selected, false);
      if q.user in s.users { SelectedTrash(s, q.user, q.selected); }
      if q.PurgeSelected? {
        PurgeKeeps(s, max, q.user, ids, rest);
      } else {
        RecoverRequestKeeps(s, max, q.user, ids, rest);
      }
    } else {
      if q.user in s.users { WholeTrash(s, q.user); }
      if q.PurgeTrash? { PurgeKeeps(s, max, q.user, list, []); } else { RecoverRequestKeeps(s, max, q.user, list, []); }
    }
  }

  lemma ShareRequestKeeps(s: Store, max: nat, q: Request)
    requires Inv(s, max) && Admissible(s, max, q) && (q.SetFileShare? || q.UnsetFileShare?)
    ensures Inv(Step(s, max, q).0, max)
    ensures StaysExact(s, Step(s, max, q).0)
  {
    if q.file in s.files && q.other in s.users {
      if q.UnsetFileShare? {
        UnsharedKeeps(s, max, q.file, q.other, q.date);
      } else {
        SharedKeeps(s, max, q.file, q.other, q.date);
      }
    }
  }

  lemma ModifyDirectoryKeeps(s: Store, max: nat, user: Id, d: Id, name: string, date: string, tags: string)
    requires Inv(s, max)
    ensures
      var t := DoModifyDirectory(s, user, d, name, date, tags).0;
      Inv(t, max) && StaysExact(s, t)
  {
    ModifyDirectorySimilar(s, user, d, name, date, tags);
    SimilarKeeps(s, DoModifyDirectory(s, user, d, name, date, tags).0, max);
  }

  lemma ModifyDirectorySimilar(s: Store, user: Id, d: Id, name: string, date: string, tags: string)
    ensures Similar(s, DoModifyDirectory(s, user, d, name, date, tags).0)
  {
    if d in s.dirs {
      LabelsSimilar(s, d, name, date, tags);
    }
  }

  lemma LabelsSimilar(s: Store, d: Id, name: string, date: string, tags: string)
    requires d in s.dirs
    ensures Similar(s, s.(dirs := s.dirs[d := s.dirs[d].(name := name, date := date, tags := tags)]))
  {
  }

  lemma ModifyFileKeeps(s: Store, max: nat, user: Id, f: Id, name: string, extension: string, date: string,
                        tags: string)
    requires Inv(s, max)
    ensures
      var t := DoModifyFile(s, user, f, name, extension, date, tags).0;
      Inv(t, max) && StaysExact(s, t)
  {
    ModifyFileSimilar(s, user, f, name, extension, date, tags);
    SimilarKeeps(s, DoModifyFile(s, user, f, name, extension, date, tags).0, max);
  }

  lemma ModifyFileSimilar(s: Store, user: Id, f: Id, name: string, extension: string, date: string, tags: string)
    ensures Similar(s, DoModifyFile(s, user, f, name, extension, date, tags).0)
  {
  }

  // ---------- runs ----------

  ghost predicate AdmissibleRun(s: Store, max: nat, qs: seq<Request>) {
    forall i :: 0 <= i < |qs| ==> Admissible(Run(s, max, qs[..i]), max, qs[i])
  }

  // The ledger after a run that began with the ledger g.
  ghost function RunLedger(s: Store, max: nat, qs: seq<Request>, g: Ledger): Ledger {
    if qs == [] then g
    else
      var init, last := qs[..|qs| - 1], qs[|qs| - 1];
      LedgerAfter(Run(s, max, init), max, last, RunLedger(s, max, init, g))
  }

  ghost predicate ExactRun(s: Store, max: nat, qs: seq<Request>) {
    forall g {:trigger Exact(s, g)} :: Exact(s, g) ==> Exact(Run(s, max, qs), RunLedger(s, max, qs, g))
  }

  // No request of the run uploads an existing name again on behalf of u.
  ghost predicate FirstUploads(s: Store, max: nat, qs: seq<Request>, u: Id) {
    qs != [] ==>
      var init, last := qs[..|qs| - 1], qs[|qs| - 1];
      FirstUploads(s, max, init, u) && !(Replaces(Run(s, max, init), max, last) && last.user == u)
  }

  lemma EmptyStoreKeeps(max: nat)
    ensures Inv(EMPTY_STORE, max) && Exact(EMPTY_STORE, CLEAN)
  {
  }

  lemma RunSnoc(s: Store, max: nat, qs: seq<Request>)
    requires qs != []
    ensures
      var init, last := qs[..|qs| - 1], qs[|qs| - 1];
      && Run(s, max, qs) == Step(Run(s, max, init), max, last).0
      && (AdmissibleRun(s, max, qs) ==> AdmissibleRun(s, max, init) && Admissible(Run(s, max, init), max, last))
  {
    var init := qs[..|qs| - 1];
    forall i | 0 <= i < |init| ensures qs[..i] == init[..i] && qs[i] == init[i] {
    }
    assert qs[..|init|] == init;
  }

  lemma RunPlus(s: Store, max: nat, qs: seq<Request>, q: Request)
    requires AdmissibleRun(s, max, qs)
    ensures Run(s, max, qs + [q]) == Step(Run(s, max, qs), max, q).0
    ensures Admissible(Run(s, max, qs), max, q) ==> AdmissibleRun(s, max, qs + [q])
  {
    var all := qs + [q];
    assert all[..|qs|] == qs;
    forall i | 0 <= i < |qs| ensures all[..i] == qs[..i] && all[i] == qs[i] {
    }
  }

  // Safety over whole runs.
  lemma {:induction false} RunKeeps(s: Store, max: nat, qs: seq<Request>)
    requires Inv(s, max) && AdmissibleRun(s, max, qs)
    ensures Inv(Run(s, max, qs), max)
    ensures ExactRun(s, max, qs)
  {
    if qs != [] {
      var init, last := qs[..|qs| - 1], qs[|qs| - 1];
      RunSnoc(s, max, qs);
      RunKeeps(s, max, init);
      StepKeeps(Run(s, max, init), max, last);
    }
  }

  lemma ReplacesSome(s: Store, max: nat, q: Request)
    requires Replaces(s, max, q)
    ensures 0 < q.size
  {
    NewFileStep(s, max, q);
  }

  lemma {:induction false} LedgerOfUser(s: Store, max: nat, qs: seq<Request>, u: Id)
    ensures
      var entry := Entry(RunLedger(s, max, qs, CLEAN).users, u);
      0 <= entry && (entry == 0 <==> FirstUploads(s, max, qs, u))
  {
    if qs != [] {
      var init, last := qs[..|qs| - 1], qs[|qs| - 1];
      LedgerOfUser(s, max, init, u);
      if Replaces(Run(s, max, init), max, last) {
        ReplacesSome(Run(s, max, init), max, last);
      }
    }
  }

  // After a run a user's quota is the sum of the recorded sizes if and only if the user never uploaded a name again.
  lemma MeteredExactly(s: Store, max: nat, qs: seq<Request>, u: Id)
    requires Inv(s, max) && Exact(s, CLEAN) && AdmissibleRun(s, max, qs) && u in Run(s, max, qs).users
    ensures MeteredAt(Run(s, max, qs), CLEAN, u) <==> FirstUploads(s, max, qs, u)
  {
    RunKeeps(s, max, qs);
    LedgerOfUser(s, max, qs, u);
    assert MeteredAt(Run(s, max, qs), RunLedger(s, max, qs, CLEAN), u);
  }

  // Without such uploads nothing is entered, and all sizes and quotas are the sums of the records.
  lemma {:induction false} CleanRun(s: Store, max: nat, qs: seq<Request>)
    requires forall u :: FirstUploads(s, max, qs, u)
    ensures RunLedger(s, max, qs, CLEAN) == CLEAN
  {
    if qs != [] {
      var init, last := qs[..|qs| - 1], qs[|qs| - 1];
      forall u ensures FirstUploads(s, max, init, u) {
        assert FirstUploads(s, max, qs, u);
      }
      CleanRun(s, max, init);
      assert Replaces(Run(s, max, init), max, last) ==> !FirstUploads(s, max, qs, last.user);
    }
  }
}
