/** What an upload answers, and what it changes in the records. */
module Uploads {
  import opened Basics
  import opened Text
  import opened Keys
  import opened Records
  import opened DataHandlers
  import opened Drive
  import opened Invariants
  import opened KeepBasics
  import opened KeepFiles
  import opened Runs
  import opened Answers

  // The directory named, or the root of the user for "0".
  ghost function Place(s: Store, q: Request): Id
    requires q.NewFile? && q.user in s.users
  {
    if q.parent == "0" then s.users[q.user].root else q.parent
  }

  // What is checked before anything is written.
  lemma UploadRefused(s: Store, max: nat, q: Request)
    requires q.NewFile? && !Admitted(s, max, q)
    ensures
      var (t, r) := Step(s, max, q);
      && t == s
      && r == if q.user !in s.users then Failed(STATUS_KEY_NOT_FOUND)
              else if (s.users[q.user].quota + q.size) % WORD > max then Failed(STATUS_MAX_QUOTA_EXCEEDED)
              else Failed(STATUS_UNSET)
  {
    NewFileStep(s, max, q);
  }

  // The upload is within the quota, and there is a directory for it.
  ghost predicate Admitted(s: Store, max: nat, q: Request) {
    && q.NewFile? && q.user in s.users && (s.users[q.user].quota + q.size) % WORD <= max && Place(s, q) in s.dirs
  }

  // The i-th file of the directory has the name and the extension.
  ghost predicate NamedAt(s: Store, q: Request, i: nat)
    requires q.NewFile? && q.user in s.users && Place(s, q) in s.dirs
  {
    var list := s.dirs[Place(s, q)].files;
    i < |list| && list[i] in s.files && s.files[list[i]].name == q.name && s.files[list[i]].extension == q.extension
  }

  // The used quota of the user grew by the size, as a word.
  ghost function QuotaGrown(s: Store, q: Request): map<Id, User>
    requires q.NewFile? && q.user in s.users
  {
    s.users[q.user := s.users[q.user].(quota := (s.users[q.user].quota + q.size) % WORD)]
  }

  // The place lists these files; it and all above it have the date, and their sizes grew.
  ghost predicate Entered(s: Store, t: Store, q: Request, list: seq<Id>, more: int)
    requires q.NewFile? && q.user in s.users
  {
    && t.dirs.Keys == s.dirs.Keys
    && forall d :: d in s.dirs ==> t.dirs[d] == EnteredDir(s, q, list, more, d)
  }

  ghost function EnteredDir(s: Store, q: Request, list: seq<Id>, more: int, d: Id): Dir
    requires q.NewFile? && q.user in s.users && d in s.dirs
  {
    var dir, home := s.dirs[d], Place(s, q);
    dir.(files := if d == home then list else dir.files,
         date := if d in Way(s, home) then q.date else dir.date,
         size := if d in Way(s, home) then (dir.size + more) % WORD else dir.size)
  }

  // A file of a new name is recorded with revision 1 and listed last in its place, and the quota grows.
  ghost predicate NameGiven(s: Store, t: Store, q: Request)
    requires q.NewFile? && q.user in s.users && Place(s, q) in s.dirs
  {
    && UploadRecords(s, t, q)
    && Entered(s, t, q, s.dirs[Place(s, q)].files + [ToStr(s.nextFile)], q.size)
  }

  ghost predicate UploadRecords(s: Store, t: Store, q: Request)
    requires q.NewFile? && q.user in s.users
  {
    var id := ToStr(s.nextFile);
    && id !in s.files
    && t.files == s.files[id := File(q.name, q.extension, q.date, q.user, "", q.user, q.size, [], 1, Place(s, q))]
    && t == s.(users := QuotaGrown(s, q), dirs := t.dirs, files := t.files, nextFile := s.nextFile + 1)
  }

  // If nothing is written the new id stays in the list of the place, without a record.
  ghost predicate IdLost(s: Store, t: Store, q: Request)
    requires q.NewFile? && q.user in s.users && Place(s, q) in s.dirs
  {
    var home := Place(s, q);
    t == s.(dirs := s.dirs[home := s.dirs[home].(files := s.dirs[home].files + [ToStr(s.nextFile)])],
            nextFile := s.nextFile + 1)
  }

  lemma NewNameAnswers(s: Store, max: nat, q: Request)
    requires Inv(s, max) && Admitted(s, max, q) && s.nextFile + 1 < WORD && forall i :: !NamedAt(s, q, i)
    ensures
      var (t, r) := Step(s, max, q);
      && (q.size > 0 && q.room > 0 ==> NameGiven(s, t, q) && r == Done)
      && (q.size == 0 || q.room == 0 ==> IdLost(s, t, q) && r == Failed(STATUS_FAIL_SAVING_FILE))
  {
    NoneNamed(s, q);
    NewFileStep(s, max, q);
    var t, r := SavedOutcome(s, max, q, NewName);
    if r == Done {
      UploadGiven(s, t, q);
    } else {
      FailedGiven(s, t, q);
    }
  }

  lemma UploadGiven(s: Store, t: Store, q: Request)
    requires Numbered(s) && q.NewFile? && q.user in s.users && Place(s, q) in s.dirs && s.nextFile + 1 < WORD
    requires t == Uploaded(s, q.user, q.name, q.extension, q.date, q.size, Place(s, q))
    ensures NameGiven(s, t, q)
  {
    UploadedRecords(s, t, q);
    UploadedEntered(s, t, q);
  }

  lemma UploadedRecords(s: Store, t: Store, q: Request)
    requires Numbered(s) && q.NewFile? && q.user in s.users && Place(s, q) in s.dirs && s.nextFile + 1 < WORD
    requires t == Uploaded(s, q.user, q.name, q.extension, q.date, q.size, Place(s, q))
    ensures UploadRecords(s, t, q)
  {
    UploadedRest(s, q.user, q.name, q.extension, q.date, q.size, Place(s, q));
    RecordsFrom(s, t, q);
  }

  lemma RecordsFrom(s: Store, t: Store, q: Request)
    requires q.NewFile? && q.user in s.users && ToStr(s.nextFile) !in s.files && s.nextFile + 1 < WORD
    requires
      var file := File(q.name, q.extension, q.date, q.user, "", q.user, q.size, [], 1, Place(s, q));
      t.files == s.files[ToStr(s.nextFile) := file]
    requires t.users == QuotaGrown(s, q) && t.index == s.index && t.emails == s.emails
    requires t.nextDir == s.nextDir && t.nextUser == s.nextUser && t.nextFile == (s.nextFile + 1) % WORD
    ensures UploadRecords(s, t, q)
  {
    NoWrap(s.nextFile + 1);
  }

  lemma UploadedEntered(s: Store, t: Store, q: Request)
    requires q.NewFile? && q.user in s.users && Place(s, q) in s.dirs
    requires t == Uploaded(s, q.user, q.name, q.extension, q.date, q.size, Place(s, q))
    ensures Entered(s, t, q, s.dirs[Place(s, q)].files + [ToStr(s.nextFile)], q.size)
  {
    UploadedDirs(s, q.user, q.name, q.extension, q.date, q.size, Place(s, q));
    UploadEntered(s, t, q, s.dirs[Place(s, q)].files + [ToStr(s.nextFile)]);
  }

  lemma UploadEntered(s: Store, t: Store, q: Request, list: seq<Id>)
    requires q.NewFile? && q.user in s.users && Place(s, q) in s.dirs
    requires
      var home := Place(s, q);
      t.dirs == Grown(Dated(s.dirs[home := s.dirs[home].(files := list)], Way(s, home), q.date), Way(s, home), q.size)
    ensures Entered(s, t, q, list, q.size)
  {
    var home := Place(s, q);
    var listed := s.dirs[home := s.dirs[home].(files := list)];
    assert listed.Keys == s.dirs.Keys;
    forall d | d in s.dirs ensures d in t.dirs && t.dirs[d] == EnteredDir(s, q, list, q.size, d) {
      GrownAt(listed, Way(s, home), q.size, q.date, d);
    }
  }

  lemma FailedGiven(s: Store, t: Store, q: Request)
    requires Numbered(s) && q.NewFile? && q.user in s.users && Place(s, q) in s.dirs && s.nextFile + 1 < WORD
    requires t == FailedUpload(s, q.user, q.name, q.extension, q.date, q.size, Place(s, q))
    ensures IdLost(s, t, q)
  {
    FreshIds(s, FileTicket);
    assert t.files == s.files;
  }

  lemma NoneNamed(s: Store, q: Request)
    requires q.NewFile? && q.user in s.users && Place(s, q) in s.dirs && Placed(s)
    requires forall i :: !NamedAt(s, q, i)
    ensures FindRevision(s, s.dirs[Place(s, q)].files, q.name, q.extension) == NewName
  {
    var list := s.dirs[Place(s, q)].files;
    assert ListPlaced(s, Place(s, q));
    FoundRevision(s, list, q.name, q.extension);
    forall f | f in list ensures s.files[f].name != q.name || s.files[f].extension != q.extension {
      var i :| 0 <= i < |list| && list[i] == f;
      assert !NamedAt(s, q, i);
    }
  }

  // What the upload does once it is admitted and the directory has been searched.
  lemma SavedOutcome(s: Store, max: nat, q: Request, found: Revision) returns (t: Store, r: Outcome)
    requires Admitted(s, max, q) && found == FindRevision(s, s.dirs[Place(s, q)].files, q.name, q.extension)
    requires found == NewName || (found.Revision? && found.file in s.files)
    ensures DoNewFile(s, max, q.user, q.name, q.extension, q.date, q.size, q.parent, q.room) == (t, r)
    ensures r == if q.size > 0 && q.room > 0 then Done else Failed(STATUS_FAIL_SAVING_FILE)
    ensures found == NewName ==>
              t == if r == Done then Uploaded(s, q.user, q.name, q.extension, q.date, q.size, Place(s, q))
                   else FailedUpload(s, q.user, q.name, q.extension, q.date, q.size, Place(s, q))
    ensures found.Revision? ==> t == if r == Done then Revised(s, q.user, found.file, q.date, q.size, Place(s, q))
            else s
  {
    UploadOutcome(s, max, q.user, q.name, q.extension, q.date, q.size, q.parent, q.room);
    var o := DoNewFile(s, max, q.user, q.name, q.extension, q.date, q.size, q.parent, q.room);
    t, r := o.0, o.1;
  }

  // Of several files of the name the first listed one gets the new revision. The place and all above it exchange the
  // recorded size for the new one, the used quota grows by the new size, and the record keeps its size.
  ghost predicate RevisionGiven(s: Store, t: Store, q: Request, f: Id)
    requires q.NewFile? && q.user in s.users && Place(s, q) in s.dirs && f in s.files
  {
    && RevisionRecords(s, t, q, f)
    && Entered(s, t, q, s.dirs[Place(s, q)].files, Gain(s, q, f))
  }

  // How much more than the recorded size the upload has, which may be less than nothing.
  ghost function Gain(s: Store, q: Request, f: Id): int
    requires q.NewFile? && f in s.files
  {
    q.size as int - s.files[f].size
  }

  ghost predicate RevisionRecords(s: Store, t: Store, q: Request, f: Id)
    requires q.NewFile? && q.user in s.users && f in s.files
  {
    t == s.(users := QuotaGrown(s, q), dirs := t.dirs,
            files := s.files[f := s.files[f].(revision := (s.files[f].revision + 1) % WORD)])
  }

  lemma SameNameAnswers(s: Store, max: nat, q: Request, i: nat)
    requires Inv(s, max) && Admitted(s, max, q) && NamedAt(s, q, i) && forall j: nat :: j < i ==> !NamedAt(s, q, j)
    ensures
      var (t, r) := Step(s, max, q);
      && (q.size > 0 && q.room > 0 ==> RevisionGiven(s, t, q, s.dirs[Place(s, q)].files[i]) && r == Done)
      && (q.size == 0 || q.room == 0 ==> t == s && r == Failed(STATUS_FAIL_SAVING_FILE))
  {
    var f := s.dirs[Place(s, q)].files[i];
    FirstNamed(s, q, i);
    NewFileStep(s, max, q);
    var t, r := SavedOutcome(s, max, q, Revision(f));
    if r == Done {
      RevisedGiven(s, t, q, f);
    }
  }

  lemma FirstNamed(s: Store, q: Request, i: nat)
    requires q.NewFile? && q.user in s.users && Place(s, q) in s.dirs && Placed(s)
    requires NamedAt(s, q, i) && forall j: nat :: j < i ==> !NamedAt(s, q, j)
    ensures FindRevision(s, s.dirs[Place(s, q)].files, q.name, q.extension) == Revision(s.dirs[Place(s, q)].files[i])
  {
    var list := s.dirs[Place(s, q)].files;
    assert ListPlaced(s, Place(s, q));
    forall j: nat | j < i ensures s.files[list[j]].name != q.name || s.files[list[j]].extension != q.extension {
      assert !NamedAt(s, q, j);
    }
    FirstFound(s, list, q.name, q.extension, i);
  }

  lemma {:induction false} FirstFound(s: Store, list: seq<Id>, name: string, extension: string, i: nat)
    requires i < |list| && forall j :: 0 <= j < |list| ==> list[j] in s.files
    requires s.files[list[i]].name == name && s.files[list[i]].extension == extension
    requires forall j :: 0 <= j < i ==> s.files[list[j]].name != name || s.files[list[j]].extension != extension
    ensures FindRevision(s, list, name, extension) == Revision(list[i])
    decreases |list|
  {
    if i > 0 {
      FirstFound(s, list[1..], name, extension, i - 1);
    }
  }

  lemma RevisedGiven(s: Store, t: Store, q: Request, f: Id)
    requires q.NewFile? && q.user in s.users && Place(s, q) in s.dirs && f in s.files
    requires t == Revised(s, q.user, f, q.date, q.size, Place(s, q))
    ensures RevisionGiven(s, t, q, f)
  {
    RevisedRecords(s, t, q, f);
    RevisedGrown(s, t, q, f);
    RevisionGivenBy(s, t, q, f);
  }

  lemma RevisionGivenBy(s: Store, t: Store, q: Request, f: Id)
    requires q.NewFile? && q.user in s.users && Place(s, q) in s.dirs && f in s.files
    requires RevisionRecords(s, t, q, f)
    requires
      var up := Way(s, Place(s, q));
      t.dirs == Grown(Grown(Dated(s.dirs, up, q.date), up, 0 - s.files[f].size), up, q.size)
    ensures RevisionGiven(s, t, q, f)
  {
    RevisionEntered(s, t, q, 0 - s.files[f].size, Gain(s, q, f));
  }

  lemma RevisedRecords(s: Store, t: Store, q: Request, f: Id)
    requires q.NewFile? && q.user in s.users && f in s.files
    requires t == Revised(s, q.user, f, q.date, q.size, Place(s, q))
    ensures RevisionRecords(s, t, q, f)
  {
    RevisedRest(s, q.user, f, q.date, q.size, Place(s, q));
  }

  lemma RevisedGrown(s: Store, t: Store, q: Request, f: Id)
    requires q.NewFile? && q.user in s.users && Place(s, q) in s.dirs && f in s.files
    requires t == Revised(s, q.user, f, q.date, q.size, Place(s, q))
    ensures
      var up := Way(s, Place(s, q));
      t.dirs == Grown(Grown(Dated(s.dirs, up, q.date), up, 0 - s.files[f].size), up, q.size)
  {
    RevisedDirs(s, Way(s, Place(s, q)), q.user, f, q.date, q.size, Place(s, q));
  }

  lemma RevisionEntered(s: Store, t: Store, q: Request, less: int, more: int)
    requires q.NewFile? && q.user in s.users && Place(s, q) in s.dirs && more == less + q.size
    requires
      var up := Way(s, Place(s, q));
      t.dirs == Grown(Grown(Dated(s.dirs, up, q.date), up, less), up, q.size)
    ensures Entered(s, t, q, s.dirs[Place(s, q)].files, more)
  {
    var up, list := Way(s, Place(s, q)), s.dirs[Place(s, q)].files;
    forall d | d in s.dirs ensures d in t.dirs && t.dirs[d] == EnteredDir(s, q, list, more, d) {
      GrownTwice(s.dirs, up, q.date, less, q.size, d);
    }
  }
}
