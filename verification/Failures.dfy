/** For each property that the code does not keep, a run of requests from the empty store that breaks it. All requests
    but the last one meet the conditions under which the property is kept. */
module Failures {
  import opened Basics
  import opened Text
  import opened Records
  import opened DataHandlers
  import opened Drive
  import opened Tree
  import opened Invariants
  import opened KeepFiles
  import opened KeepTrash
  import opened KeepShare
  import opened KeepUsers
  import opened KeepDelete
  import opened KeepLeave
  import opened Runs
  import opened Totals

  const ANN := SignUp("a", "", "", "", "", "")
  const BOB := SignUp("b", "", "", "", "", "")

  // The first user uploads a file of this name and size into the root.
  function Upload(name: string, size: nat): Request {
    NewFile("1", name, "", "", size, LABEL_ZERO, size)
  }

  const DELETE := DeleteFile("1", "1")

  // ---------- the stores before the last request ----------

  // The run meets the conditions and leads to s, in which the invariants hold and all sizes and quotas are exact.
  ghost predicate Reaches(max: nat, qs: seq<Request>, s: Store) {
    AdmissibleRun(EMPTY_STORE, max, qs) && s == Run(EMPTY_STORE, max, qs) && Inv(s, max) && Exact(s, CLEAN)
  }

  lemma Longer(a: Request, b: Request, c: Request, d: Request)
    ensures [] + [a] == [a] && [a] + [b] == [a, b] && [a, b] + [c] == [a, b, c] && [a, b, c] + [d] == [a, b, c, d]
  {
  }

  lemma ReachesNext(max: nat, qs: seq<Request>, s: Store, q: Request)
    requires Reaches(max, qs, s) && Admissible(s, max, q)
    requires Inv(Step(s, max, q).0, max) && StaysExact(s, Step(s, max, q).0)
    ensures Reaches(max, qs + [q], Step(s, max, q).0)
  {
    RunPlus(EMPTY_STORE, max, qs, q);
  }

  // One user, with an empty root.
  ghost predicate AnnAlone(s: Store) {
    && s.users == map["1" := User("a", Pair("", ""), Pair("", ""), "1", [], 0, [])]
    && "1" in s.dirs && s.dirs["1"].files == [] && s.dirs["1"].owner == "1" && s.dirs["1"].parent == NO_PARENT
    && s.files == map[] && s.nextUser == 2 && s.nextDir == 3 && s.nextFile == 1
    && s.index == map["a" := "1"] && s.emails == ["a"]
  }

  lemma Numerals()
    ensures ToStr(1) == "1" && ToStr(2) == "2" && ToStr(3) == "3" && ToStr(4) == "4"
  {
  }

  lemma EmptyReached(max: nat)
    ensures Reaches(max, [], EMPTY_STORE)
  {
    EmptyStoreKeeps(max);
  }

  lemma SignUpStep(s: Store, max: nat, email: string)
    ensures Step(s, max, SignUp(email, "", "", "", "", "")) == UserAdded(s, email, Pair("", ""), Pair("", ""), "")
  {
  }

  lemma AnnAdded()
    ensures AnnAlone(UserAdded(EMPTY_STORE, "a", Pair("", ""), Pair("", ""), "").0)
  {
    Numerals();
    InsertTextKey([], "a");
    SignUpGives(EMPTY_STORE, "a", Pair("", ""), Pair("", ""), "");
  }

  lemma AnnSignsUp(max: nat) returns (s: Store)
    requires max < WORD
    ensures Reaches(max, [ANN], s) && AnnAlone(s)
  {
    EmptyReached(max);
    s := Step(EMPTY_STORE, max, ANN).0;
    SignUpStep(EMPTY_STORE, max, "a");
    AnnAdded();
    SignUpKeeps(EMPTY_STORE, max, "a", Pair("", ""), Pair("", ""), "");
    ReachesNext(max, [], EMPTY_STORE, ANN);
    Longer(ANN, ANN, ANN, ANN);
  }

  // A second user.
  ghost predicate AnnAndBob(s: Store) {
    && AnnReady(s) && "2" in s.users && s.users["2"] == User("b", Pair("", ""), Pair("", ""), "3", [], 0, [])
    && s.index == map["a" := "1", "b" := "2"]
  }

  // The first user has an empty root, and no file has been uploaded.
  ghost predicate AnnReady(s: Store) {
    && "1" in s.users && s.users["1"].root == "1" && s.users["1"].quota == 0 && s.users["1"].deleted == []
    && "1" in s.dirs && s.dirs["1"].files == []
    && s.files == map[] && s.nextFile == 1 && s.nextDir <= 5 && s.nextUser <= 3
  }

  lemma BobSignsUp(max: nat) returns (s: Store)
    requires max < WORD
    ensures Reaches(max, [ANN, BOB], s) && AnnAndBob(s)
  {
    var s0 := AnnSignsUp(max);
    s := Step(s0, max, BOB).0;
    SignUpStep(s0, max, "b");
    BobAdded(s0);
    SignUpKeeps(s0, max, "b", Pair("", ""), Pair("", ""), "");
    ReachesNext(max, [ANN], s0, BOB);
    Longer(ANN, BOB, BOB, BOB);
  }

  lemma BobAdded(s: Store)
    requires AnnAlone(s)
    ensures AnnAndBob(UserAdded(s, "b", Pair("", ""), Pair("", ""), "").0)
  {
    Numerals();
    SignUpGives(s, "b", Pair("", ""), Pair("", ""), "");
  }

  // The first user has one file of one byte in the root.
  ghost predicate AnnHolds(s: Store) {
    && "1" in s.users && s.users["1"].root == "1" && s.users["1"].quota == 1 && s.users["1"].deleted == []
    && "1" in s.dirs && s.dirs["1"].files == ["1"]
    && s.files == map["1" := File("f", "", "", "1", "", "1", 1, [], 1, "1")]
    && s.nextFile == 2 && s.nextDir <= 5 && s.nextUser <= 3
  }

  lemma AnnUploads(max: nat, qs: seq<Request>, s: Store) returns (t: Store)
    requires 1 <= max < WORD && Reaches(max, qs, s) && AnnReady(s)
    ensures Reaches(max, qs + [Upload("f", 1)], t) && AnnHolds(t)
    ensures t.users.Keys == s.users.Keys && forall u :: u in s.users && u != "1" ==> t.users[u] == s.users[u]
  {
    t := Step(s, max, Upload("f", 1)).0;
    UploadStep(s, max, "f", 1);
    FirstUpload(s, max);
    FirstFile(s);
    ReachesNext(max, qs, s, Upload("f", 1));
  }

  lemma UploadStep(s: Store, max: nat, name: string, size: nat)
    ensures Step(s, max, Upload(name, size)) == DoNewFile(s, max, "1", name, "", "", size, LABEL_ZERO, size)
  {
    NewFileStep(s, max, Upload(name, size));
  }

  lemma FirstUpload(s: Store, max: nat)
    requires 1 <= max < WORD && Inv(s, max) && AnnReady(s)
    ensures
      var t := DoNewFile(s, max, "1", "f", "", "", 1, LABEL_ZERO, 1).0;
      t == Uploaded(s, "1", "f", "", "", 1, "1") && Inv(t, max) && StaysExact(s, t)
  {
    FirstOutcome(s, max);
    NewNameKeeps(s, max, "1", "f", "", "", 1, LABEL_ZERO, 1);
  }

  lemma FirstOutcome(s: Store, max: nat)
    requires 1 <= max < WORD && AnnReady(s)
    ensures DoNewFile(s, max, "1", "f", "", "", 1, LABEL_ZERO, 1) == (Uploaded(s, "1", "f", "", "", 1, "1"), Done)
  {
    UploadOutcome(s, max, "1", "f", "", "", 1, LABEL_ZERO, 1);
  }

  lemma FirstFile(s: Store)
    requires AnnReady(s) && Numbered(s)
    ensures
      var t := Uploaded(s, "1", "f", "", "", 1, "1");
      AnnHolds(t) && t.users.Keys == s.users.Keys && forall u :: u in s.users && u != "1" ==> t.users[u] == s.users[u]
  {
    Numerals();
    UploadedRest(s, "1", "f", "", "", 1, "1");
    UploadedIsUpload(s, "1", "f", "", "", 1, "1");
    FirstHeld(s, Uploaded(s, "1", "f", "", "", 1, "1"), Chain(Par(s.dirs), "1"));
  }

  lemma FirstHeld(s: Store, t: Store, up: set<Id>)
    requires AnnReady(s) && IsUpload(s, t, up, "1", "1", 1, "1") && t.nextFile == 2
    requires t.files == s.files["1" := File("f", "", "", "1", "", "1", 1, [], 1, "1")]
    ensures AnnHolds(t) && t.users.Keys == s.users.Keys
    ensures forall u :: u in s.users && u != "1" ==> t.users[u] == s.users[u]
  {
    assert DirStep(s, t, up, 1, "1", [] + ["1"], "1");
  }

  lemma AnnHasFile(max: nat) returns (s: Store)
    requires 1 <= max < WORD
    ensures Reaches(max, [ANN, Upload("f", 1)], s) && AnnHolds(s)
  {
    var s0 := AnnSignsUp(max);
    s := AnnUploads(max, [ANN], s0);
    Longer(ANN, Upload("f", 1), ANN, ANN);
  }

  // The file is in the trash.
  lemma AnnDeletes(max: nat) returns (s: Store)
    requires 1 <= max < WORD
    ensures Reaches(max, [ANN, Upload("f", 1), DELETE], s) && InTrash(s, "1") && s.files["1"].owner == "1"
  {
    var s0 := AnnHasFile(max);
    s := Step(s0, max, DELETE).0;
    DeleteIsTrashed(s0, max, "1");
    InTrashNow(s0, "1");
    TrashKeeps(s0, max, "1");
    ReachesNext(max, [ANN, Upload("f", 1)], s0, DELETE);
    Longer(ANN, Upload("f", 1), DELETE, DELETE);
  }

  // ---------- the requests that break a property ----------

  // The invariants hold after the run and do not survive the request q.
  ghost predicate Breaks(max: nat, qs: seq<Request>, q: Request) {
    var s := Run(EMPTY_STORE, max, qs);
    AdmissibleRun(EMPTY_STORE, max, qs) && Inv(s, max) && !Inv(Step(s, max, q).0, max)
  }

  lemma BreaksBy(max: nat, qs: seq<Request>, s: Store, q: Request)
    requires Reaches(max, qs, s) && !Inv(Step(s, max, q).0, max)
    ensures Breaks(max, qs, q)
  {
  }

  // An empty file is written nowhere, which counts as a failed save.
  lemma EmptyUpload(max: nat)
    requires max < WORD
    ensures Breaks(max, [ANN], Upload("f", 0))
  {
    var s := AnnSignsUp(max);
    UploadStep(s, max, "f", 0);
    NewNameKeeps(s, max, "1", "f", "", "", 0, LABEL_ZERO, 0);
    BreaksBy(max, [ANN], s, Upload("f", 0));
  }

  const FULL_DISK := NewFile("1", "f", "", "", 1, LABEL_ZERO, 0)

  lemma DiskFull(max: nat)
    requires 1 <= max < WORD
    ensures Breaks(max, [ANN], FULL_DISK)
  {
    var s := AnnSignsUp(max);
    NewFileStep(s, max, FULL_DISK);
    NothingWritten(s, max);
    BreaksBy(max, [ANN], s, FULL_DISK);
  }

  lemma NothingWritten(s: Store, max: nat)
    requires 1 <= max < WORD && Inv(s, max) && AnnAlone(s)
    ensures !Inv(DoNewFile(s, max, "1", "f", "", "", 1, LABEL_ZERO, 0).0, max)
  {
    NewNameKeeps(s, max, "1", "f", "", "", 1, LABEL_ZERO, 0);
  }

  // One byte is used, and with 2^64 - 1 more the sum that is checked is 0.
  lemma QuotaWraps(max: nat)
    requires 1 <= max < WORD
    ensures Breaks(max, [ANN, Upload("f", 1)], Upload("g", WORD - 1))
  {
    var s := AnnHasFile(max);
    UploadStep(s, max, "g", WORD - 1);
    WrappingUpload(s, max);
    BreaksBy(max, [ANN, Upload("f", 1)], s, Upload("g", WORD - 1));
  }

  lemma WrappingUpload(s: Store, max: nat)
    requires 1 <= max < WORD && Inv(s, max) && AnnHolds(s)
    ensures !Inv(DoNewFile(s, max, "1", "g", "", "", WORD - 1, LABEL_ZERO, WORD - 1).0, max)
  {
    assert "f"[0] != "g"[0];
    FoundRevision(s, s.dirs["1"].files, "g", "");
    NewNameKeeps(s, max, "1", "g", "", "", WORD - 1, LABEL_ZERO, WORD - 1);
  }

  // The recorded size is 1; the directory grows to 2 and the quota to 3.
  lemma UploadedAgain(max: nat)
    requires 3 <= max < WORD
    ensures
      var t := Run(EMPTY_STORE, max, [ANN, Upload("f", 1), Upload("f", 2)]);
      && AdmissibleRun(EMPTY_STORE, max, [ANN, Upload("f", 1), Upload("f", 2)])
      && Inv(t, max) && !Sized(t, CLEAN) && !Metered(t, CLEAN)
  {
    var s := AnnHasFile(max);
    var qs, q := [ANN, Upload("f", 1)], Upload("f", 2);
    UploadStep(s, max, "f", 2);
    SecondUpload(s, max);
    RunPlus(EMPTY_STORE, max, qs, q);
    Longer(ANN, Upload("f", 1), q, q);
  }

  lemma SecondUpload(s: Store, max: nat)
    requires 3 <= max < WORD && Inv(s, max) && Exact(s, CLEAN) && AnnHolds(s)
    ensures
      var t := DoNewFile(s, max, "1", "f", "", "", 2, LABEL_ZERO, 2).0;
      Inv(t, max) && !Sized(t, CLEAN) && !Metered(t, CLEAN)
  {
    SameNameKeeps(s, max, "1", "f", "", "", 2, LABEL_ZERO, 2, "1");
  }

  // The first user has one file, of the recorded size 1, and this used quota.
  ghost predicate AnnUses(s: Store, quota: nat) {
    && "1" in s.users && s.users["1"].root == "1" && s.users["1"].quota == quota
    && "1" in s.dirs && s.dirs["1"].files == ["1"]
    && s.files.Keys == {"1"} && s.files["1"].owner == "1" && s.files["1"].size == 1
    && s.files["1"].name == "f" && s.files["1"].extension == "" && s.nextFile == 2 && s.nextDir <= 5 && s.nextUser <= 3
  }

  lemma OneByteOwned(s: Store, quota: nat)
    requires AnnUses(s, quota)
    ensures Sum(s.files, Owned(s, "1")) == 1
  {
    assert Owned(s, "1") == {"1"};
    SumTake(s.files, {"1"}, "1");
    assert {"1"} - {"1"} == {};
  }

  // What a new upload of the file does.
  lemma Reupload(s: Store, max: nat, quota: nat, size: nat, after: nat) returns (t: Store)
    requires Inv(s, max) && AnnUses(s, quota) && max < WORD && 0 < size < WORD && (quota + size) % WORD == after <= max
    ensures t == Step(s, max, Upload("f", size)).0 && AnnUses(t, after)
    ensures Inv(t, max) <==> quota + size < WORD || WORD < quota + size
  {
    UploadStep(s, max, "f", size);
    ReuploadOutcome(s, max, quota, size);
    ReuploadKeeps(s, max, quota, size);
    var up;
    t, up := RevisedStore(s, "1", "1", "", size, "1");
    UsesMore(s, t, up, quota, size);
  }

  lemma ReuploadOutcome(s: Store, max: nat, quota: nat, size: nat)
    requires AnnUses(s, quota) && 0 < size && (quota + size) % WORD <= max
    ensures DoNewFile(s, max, "1", "f", "", "", size, LABEL_ZERO, size).0 == Revised(s, "1", "1", "", size, "1")
  {
    UploadOutcome(s, max, "1", "f", "", "", size, LABEL_ZERO, size);
  }

  lemma ReuploadKeeps(s: Store, max: nat, quota: nat, size: nat)
    requires Inv(s, max) && AnnUses(s, quota) && max < WORD && 0 < size < WORD && (quota + size) % WORD <= max
    ensures Inv(DoNewFile(s, max, "1", "f", "", "", size, LABEL_ZERO, size).0, max)
       <==> quota + size < WORD || WORD < quota + size
  {
    OneByteOwned(s, quota);
    SameNameKeeps(s, max, "1", "f", "", "", size, LABEL_ZERO, size, "1");
  }

  lemma UsesMore(s: Store, t: Store, up: set<Id>, quota: nat, size: nat)
    requires AnnUses(s, quota) && IsRevision(s, t, up, "1", "1", size, "1")
    ensures AnnUses(t, (quota + size) % WORD)
  {
    assert DirStep(s, t, up, size as int - s.files["1"].size, "1", s.dirs["1"].files, "1");
  }

  // With 2^64 - 1 bytes the sum wraps to 0, less than the byte that is recorded.
  lemma QuotaWrapsAgain(max: nat)
    requires 1 <= max < WORD
    ensures Breaks(max, [ANN, Upload("f", 1)], Upload("f", WORD - 1))
  {
    var s := AnnHasFile(max);
    var _ := Reupload(s, max, 1, WORD - 1, 0);
    BreaksBy(max, [ANN, Upload("f", 1)], s, Upload("f", WORD - 1));
  }

  lemma ElevenUsed(max: nat) returns (s: Store)
    requires 11 <= max < WORD
    ensures s == Run(EMPTY_STORE, max, [ANN, Upload("f", 1), Upload("f", 10)]) && Inv(s, max) && AnnUses(s, 11)
    ensures AdmissibleRun(EMPTY_STORE, max, [ANN, Upload("f", 1), Upload("f", 10)])
  {
    var s0 := AnnHasFile(max);
    s := Reupload(s0, max, 1, 10, 11);
    UploadAdmissible(s0, max, 1, 10);
    RunPlus(EMPTY_STORE, max, [ANN, Upload("f", 1)], Upload("f", 10));
    Longer(ANN, Upload("f", 1), Upload("f", 10), ANN);
  }

  lemma UploadAdmissible(s: Store, max: nat, quota: nat, size: nat)
    requires AnnUses(s, quota) && max < WORD && 0 < size && quota + size < WORD
    ensures Admissible(s, max, Upload("f", size))
  {
  }

  // The invariants survive the request q after the run, and this quota is then used.
  ghost predicate Survives(max: nat, qs: seq<Request>, q: Request, quota: nat) {
    var t := Step(Run(EMPTY_STORE, max, qs), max, q).0;
    AdmissibleRun(EMPTY_STORE, max, qs) && Inv(t, max) && AnnUses(t, quota)
  }

  lemma SurvivesBy(max: nat, qs: seq<Request>, s: Store, q: Request, t: Store, quota: nat)
    requires AdmissibleRun(EMPTY_STORE, max, qs) && s == Run(EMPTY_STORE, max, qs) && t == Step(s, max, q).0
    requires Inv(t, max) && AnnUses(t, quota)
    ensures Survives(max, qs, q, quota)
  {
  }

  lemma WrapsToSix()
    ensures (11 + (WORD - 5)) % WORD == 6
  {
  }

  // From 11 bytes the sum with 2^64 - 5 wraps to 6, which still covers the recorded byte.
  lemma QuotaWrapsUnnoticed(max: nat)
    requires 11 <= max < WORD
    ensures Survives(max, [ANN, Upload("f", 1), Upload("f", 10)], Upload("f", WORD - 5), 6)
  {
    var s := ElevenUsed(max);
    WrapsToSix();
    var t := Reupload(s, max, 11, WORD - 5, 6);
    SurvivesBy(max, [ANN, Upload("f", 1), Upload("f", 10)], s, Upload("f", WORD - 5), t, 6);
  }

  lemma DeletedTwice(max: nat)
    requires 1 <= max < WORD
    ensures Breaks(max, [ANN, Upload("f", 1), DELETE], DELETE)
  {
    var s := AnnDeletes(max);
    SecondDeletion(s, max);
    BreaksBy(max, [ANN, Upload("f", 1), DELETE], s, DELETE);
  }

  lemma SecondDeletion(s: Store, max: nat)
    requires Inv(s, max) && InTrash(s, "1") && s.files["1"].owner == "1"
    ensures !Inv(Step(s, max, DELETE).0, max)
  {
    assert FilePlaced(s, "1");
    DeleteFileKeeps(s, max, "1", "1");
  }

  const SHARE := SetFileShare("1", "1", "1", "")

  // Sharing a file in the trash, even with oneself.
  lemma SharedFromTrash(max: nat)
    requires 1 <= max < WORD
    ensures Breaks(max, [ANN, Upload("f", 1), DELETE], SHARE)
  {
    var s := AnnDeletes(max);
    assert FilePlaced(s, "1");
    SharedKeeps(s, max, "1", "1", "");
    ShareStep(s, max, "1");
    BreaksBy(max, [ANN, Upload("f", 1), DELETE], s, SHARE);
  }

  lemma ShareStep(s: Store, max: nat, other: Id)
    requires "1" in s.files && s.files["1"].owner == "1" && other in s.users
    ensures Step(s, max, SetFileShare("1", "1", other, "")) == (Shared(s, "1", other, ""), Done)
  {
  }

  const OVERWRITE := OverwriteSharing("1", "1", ["1"], "")

  // The same with the request that replaces the whole list.
  lemma OverwrittenInTrash(max: nat)
    requires 1 <= max < WORD
    ensures Breaks(max, [ANN, Upload("f", 1), DELETE], OVERWRITE)
  {
    var s := AnnDeletes(max);
    assert FilePlaced(s, "1");
    OverwriteKeeps(s, max, "1", "1", ["1"], "");
    OverwriteStep(s, max);
    BreaksBy(max, [ANN, Upload("f", 1), DELETE], s, OVERWRITE);
  }

  lemma OverwriteStep(s: Store, max: nat)
    ensures Step(s, max, OVERWRITE) == DoOverwrite(s, "1", "1", ["1"], "")
  {
  }

  const DELETE_ROOT := DeleteDirectory("1", "1")

  lemma RootDeleted(max: nat)
    requires max < WORD
    ensures Breaks(max, [ANN], DELETE_ROOT)
  {
    var s := AnnSignsUp(max);
    RootGone(s, max);
    BreaksBy(max, [ANN], s, DELETE_ROOT);
  }

  lemma RootGone(s: Store, max: nat)
    requires Inv(s, max) && AnnAlone(s)
    ensures !Inv(Step(s, max, DELETE_ROOT).0, max)
  {
    DeleteDirectoryKeeps(s, max, "1", "1");
    assert s.users["1"].root == "1";
  }

  // An e-mail that the list of e-mails cannot hold.
  lemma SignedUpUnlisted(max: nat)
    requires max < WORD
    ensures Breaks(max, [], SignUp("a;b", "", "", "", "", ""))
  {
    EmptyReached(max);
    assert "a;b"[1] == DELIMITER;
    SignUpStep(EMPTY_STORE, max, "a;b");
    SignUpKeeps(EMPTY_STORE, max, "a;b", Pair("", ""), Pair("", ""), "");
    BreaksBy(max, [], EMPTY_STORE, SignUp("a;b", "", "", "", "", ""));
  }

  lemma EmailUnlisted(max: nat)
    requires max < WORD
    ensures Breaks(max, [ANN], ModifyUserInfo("1", "", "", "", "", ""))
  {
    var s := AnnSignsUp(max);
    ModifyUserKeeps(s, max, "1", "", Pair("", ""), Pair("", ""));
    ProfileStep(s, max, "1", "");
    BreaksBy(max, [ANN], s, ModifyUserInfo("1", "", "", "", "", ""));
  }

  lemma ProfileStep(s: Store, max: nat, user: Id, email: string)
    ensures Step(s, max, ModifyUserInfo(user, email, "", "", "", ""))
            == DoModifyUser(s, user, email, Pair("", ""), Pair("", ""))
  {
  }

  const TAKE_OVER := ModifyUserInfo("2", "a", "", "", "", "")

  // The second user takes the e-mail of the first.
  lemma EmailTaken(max: nat)
    requires max < WORD
    ensures Breaks(max, [ANN, BOB], TAKE_OVER)
  {
    var s := BobSignsUp(max);
    ModifyUserKeeps(s, max, "2", "a", Pair("", ""), Pair("", ""));
    ProfileStep(s, max, "2", "a");
    BreaksBy(max, [ANN, BOB], s, TAKE_OVER);
  }

  const SHARE_WITH_BOB := SetFileShare("1", "1", "2", "")

  // A user with whom a file is shared is deleted, and stays in the file's list.
  lemma SharingUserDeleted(max: nat)
    requires 1 <= max < WORD
    ensures Breaks(max, [ANN, BOB, Upload("f", 1), SHARE_WITH_BOB], DeleteUser("2"))
  {
    var s0 := BobSignsUp(max);
    Longer(ANN, BOB, Upload("f", 1), SHARE_WITH_BOB);
    var s1 := AnnUploads(max, [ANN, BOB], s0);
    var qs := [ANN, BOB, Upload("f", 1)];
    var s := Step(s1, max, SHARE_WITH_BOB).0;
    SharedKeeps(s1, max, "1", "2", "");
    ShareStep(s1, max, "2");
    ReachesNext(max, qs, s1, SHARE_WITH_BOB);
    BobHasShare(s1);
    LeavingStep(s, max, "2");
    DeleteUserKeeps(s, max, "2");
    BreaksBy(max, qs + [SHARE_WITH_BOB], s, DeleteUser("2"));
  }

  lemma LeavingStep(s: Store, max: nat, user: Id)
    ensures Step(s, max, DeleteUser(user)) == DoDeleteUser(s, user)
  {
  }

  lemma BobHasShare(s: Store)
    requires AnnHolds(s) && "2" in s.users && s.users["2"].root == "3"
    ensures "2" in Shared(s, "1", "2", "").users && !LeavesNothing(Shared(s, "1", "2", ""), "2")
  {
    var t := Shared(s, "1", "2", "");
    assert "1" in t.users["2"].shared && t.files["1"].parent == "1" && t.users["2"].root == "3";
    if "3" in Chain(Par(t.dirs), "1") {
      ChainRank(Par(t.dirs), "1", "3");
    }
  }
}
