/** When the stored sizes are exact, and what a deletion followed by a recovery gives back. */
module Totals {
  import opened Basics
  import opened Text
  import opened Records
  import opened DataHandlers
  import opened Drive
  import opened Tree
  import opened Invariants
  import opened KeepFiles
  import opened KeepTrash
  import opened KeepRecover
  import opened KeepDelete
  import opened Runs
  import opened History

  // ---------- sizes without wrap-around ----------

  lemma {:induction false} SumUnion(files: map<Id, File>, a: set<Id>, b: set<Id>)
    requires a !! b
    ensures Sum(files, a + b) == Sum(files, a) + Sum(files, b)
    decreases a
  {
    if a == {} {
      assert a + b == b;
    } else {
      var f :| f in a;
      SumTake(files, a, f);
      SumTake(files, a + b, f);
      assert a + b - {f} == (a - {f}) + b;
      SumUnion(files, a - {f}, b);
    }
  }

  ghost function OwnedBy(s: Store, us: set<Id>): set<Id> {
    set f | f in s.files && s.files[f].owner in us
  }

  // No set of users has more than its share of the disk.
  lemma {:induction false} TotalBound(s: Store, max: nat, us: set<Id>)
    requires Covered(s, max) && us <= s.users.Keys
    ensures Sum(s.files, OwnedBy(s, us)) <= |us| * max
    decreases us
  {
    if us == {} {
      assert OwnedBy(s, us) == {};
    } else {
      var u :| u in us;
      var rest := us - {u};
      TotalBound(s, max, rest);
      assert OwnedBy(s, us) == OwnedBy(s, rest) + Owned(s, u);
      SumUnion(s.files, OwnedBy(s, rest), Owned(s, u));
      assert CoveredAt(s, max, u);
      OneMore(|us|, |rest|, max);
    }
  }

  lemma OneMore(n: nat, m: nat, max: nat)
    requires n == m + 1
    ensures n * max == m * max + max
  {
  }

  // When everybody's quota together fits in a word, every stored directory size is exactly the sum of the
  // sizes of the live files below it.
  lemma SizesExact(s: Store, max: nat, d: Id)
    requires Inv(s, max) && Sized(s, CLEAN) && |s.users| * max < WORD && d in s.dirs
    ensures s.dirs[d].size == Sum(s.files, Under(s, d))
  {
    assert SizeFits(s, CLEAN, d);
    SizesBound(s, max, d);
    NoWrap(Sum(s.files, Under(s, d)));
  }

  // In every run from the empty store without re-uploads, with all quotas fitting in a word, each stored directory size
  // is the sum of the sizes of the live files below it, and each used quota the sum of the sizes of what the user owns.
  lemma ExactInEveryRun(max: nat, qs: seq<Request>)
    requires AdmissibleRun(EMPTY_STORE, max, qs) && forall u :: FirstUploads(EMPTY_STORE, max, qs, u)
    requires |Run(EMPTY_STORE, max, qs).users| * max < WORD
    ensures
      var s := Run(EMPTY_STORE, max, qs);
      && (forall d :: d in s.dirs ==> s.dirs[d].size == Sum(s.files, Under(s, d)))
      && (forall u :: u in s.users ==> s.users[u].quota == Sum(s.files, Owned(s, u)))
  {
    EmptyStoreKeeps(max);
    RunKeeps(EMPTY_STORE, max, qs);
    CleanRun(EMPTY_STORE, max, qs);
    CleanSums(Run(EMPTY_STORE, max, qs), max);
  }

  lemma CleanSums(s: Store, max: nat)
    requires Inv(s, max) && Exact(s, CLEAN) && |s.users| * max < WORD
    ensures forall d :: d in s.dirs ==> s.dirs[d].size == Sum(s.files, Under(s, d))
    ensures forall u :: u in s.users ==> s.users[u].quota == Sum(s.files, Owned(s, u))
  {
    forall d | d in s.dirs ensures s.dirs[d].size == Sum(s.files, Under(s, d)) {
      SizesExact(s, max, d);
    }
    forall u | u in s.users ensures s.users[u].quota == Sum(s.files, Owned(s, u)) {
      assert MeteredAt(s, CLEAN, u);
    }
  }

  // The live files below a directory are among the files of all users.
  lemma SizesBound(s: Store, max: nat, d: Id)
    requires Placed(s) && Covered(s, max)
    ensures Sum(s.files, Under(s, d)) <= |s.users| * max
  {
    forall f | f in Under(s, d) ensures f in OwnedBy(s, s.users.Keys) {
      assert FilePlaced(s, f);
    }
    SumSubset(s.files, Under(s, d), OwnedBy(s, s.users.Keys));
    TotalBound(s, max, s.users.Keys);
    assert |s.users.Keys| == |s.users|;
  }

  // Then no decrease of a directory size on behalf of a live file goes below zero.
  lemma DecreaseFits(s: Store, max: nat, f: Id, d: Id)
    requires Inv(s, max) && Sized(s, CLEAN) && |s.users| * max < WORD
    requires Live(s, f) && d in Chain(Par(s.dirs), s.files[f].parent)
    ensures d in s.dirs && s.files[f].size <= s.dirs[d].size
  {
    ChainRank(Par(s.dirs), s.files[f].parent, d);
    SizesExact(s, max, d);
    SumTake(s.files, Under(s, d), f);
  }

  // The same for each of the many decreases of a directory deletion.
  lemma DecreasesFit(s: Store, max: nat, fs: seq<Id>, i: nat, d: Id)
    requires Inv(s, max) && Exact(s, CLEAN) && |s.users| * max < WORD && NoDup(fs) && AllLive(s, fs) && i < |fs|
    requires d in Chain(Par(s.dirs), s.files[fs[i]].parent)
    ensures
      var t := TrashAll(s, fs[..i]);
      d in t.dirs && s.files[fs[i]].size <= t.dirs[d].size
  {
    var t := TrashAll(s, fs[..i]);
    TrashAllMoves(s, max, fs[..i]);
    StillLive(s, t, fs[..i], fs[i]);
    assert TrashedFile(s, t, fs[..i], fs[i]);
    assert |t.users.Keys| == |s.users.Keys|;
    DecreaseFits(t, max, fs[i], d);
  }

  // ---------- deleting and recovering ----------

  ghost predicate Worded(s: Store) {
    forall d :: d in s.dirs ==> s.dirs[d].size < WORD
  }

  lemma {:induction false} WordedRun(s: Store, max: nat, qs: seq<Request>)
    requires Inv(s, max) && AdmissibleRun(s, max, qs) && Worded(s)
    ensures Worded(Run(s, max, qs))
  {
    if qs != [] {
      var init, last := qs[..|qs| - 1], qs[|qs| - 1];
      RunSnoc(s, max, qs);
      RunKeeps(s, max, init);
      WordedRun(s, max, init);
      StepEvolves(Run(s, max, init), max, last);
      forall d | d in Run(s, max, qs).dirs ensures Run(s, max, qs).dirs[d].size < WORD {
        assert DirEvolves(Run(s, max, init), Run(s, max, qs), d);
      }
    }
  }

  ghost function WithFiles(dirs: map<Id, Dir>, p: Id, list: seq<Id>): map<Id, Dir>
    requires p in dirs
  {
    dirs[p := dirs[p].(files := list)]
  }

  lemma GrownBack(dirs: map<Id, Dir>, up: set<Id>, size: nat, p: Id, list: seq<Id>, list': seq<Id>)
    requires p in dirs && forall d :: d in dirs ==> dirs[d].size < WORD
    ensures p in Grown(WithFiles(dirs, p, list), up, 0 - size)
    ensures Grown(WithFiles(Grown(WithFiles(dirs, p, list), up, 0 - size), p, list'), up, size)
            == WithFiles(dirs, p, list')
  {
    var g := Grown(WithFiles(dirs, p, list), up, 0 - size);
    var h := Grown(WithFiles(g, p, list'), up, size);
    assert h.Keys == dirs.Keys;
    forall d | d in dirs ensures h[d] == WithFiles(dirs, p, list')[d] {
      GrownBackAt(dirs, up, size, p, list, list', d);
    }
  }

  lemma GrownBackAt(dirs: map<Id, Dir>, up: set<Id>, size: nat, p: Id, list: seq<Id>, list': seq<Id>, d: Id)
    requires p in dirs && d in dirs && dirs[d].size < WORD && p in Grown(WithFiles(dirs, p, list), up, 0 - size)
    ensures
      var h := Grown(WithFiles(Grown(WithFiles(dirs, p, list), up, 0 - size), p, list'), up, size);
      d in h && h[d] == WithFiles(dirs, p, list')[d]
  {
    GrownOnly(WithFiles(dirs, p, list), up, 0 - size, d);
    GrownOnly(WithFiles(Grown(WithFiles(dirs, p, list), up, 0 - size), p, list'), up, size, d);
    WordSum(dirs[d].size - size, size);
  }

  lemma RemoveSnoc(toks: seq<Id>, f: Id)
    requires f !in toks
    ensures Remove(toks + [f], f) == toks
  {
    RemoveConcat(toks, [f], f);
    RemoveAbsent(toks, f);
    assert [f][1..] == [];
  }

  // The file's record, every size and date, the trash and the quotas are as before; only the place of the
  // file in its directory's list is now the last.
  lemma DeleteThenRecover(s: Store, max: nat, f: Id)
    requires Inv(s, max) && Worded(s) && Live(s, f) && s.files[f].users == []
    ensures
      var o, p := s.files[f].owner, s.files[f].parent;
      Run(s, max, [DeleteFile(o, f), RecoverSelected(o, [f])])
      == s.(dirs := WithFiles(s.dirs, p, Remove(s.dirs[p].files, f) + [f]))
  {
    var o := s.files[f].owner;
    assert FilePlaced(s, f);
    DeleteIsTrashed(s, max, f);
    TrashKeeps(s, max, f);
    InTrashNow(s, f);
    RecoverOne(Trashed(s, f), o, f);
    RecoverStep(Trashed(s, f), max, o, [f]);
    TrashedRecovered(s, max, f);
    TwoSteps(s, max, DeleteFile(o, f), RecoverSelected(o, [f]));
  }

  lemma DeleteIsTrashed(s: Store, max: nat, f: Id)
    requires Live(s, f) && s.files[f].owner in s.users
    ensures Step(s, max, DeleteFile(s.files[f].owner, f)) == (Trashed(s, f), Done)
  {
  }

  lemma InTrashNow(s: Store, f: Id)
    requires Live(s, f) && s.files[f].owner in s.users
    ensures InTrash(Trashed(s, f), f) && Trashed(s, f).files[f].owner == s.files[f].owner
  {
    TrashedIsTrash(s, f);
    TrashLive(s, Trashed(s, f), Chain(Par(s.dirs), s.files[f].parent), f, f);
  }

  lemma TrashedRecovered(s: Store, max: nat, f: Id)
    requires Inv(s, max) && Worded(s) && Live(s, f) && s.files[f].users == []
    ensures
      var p := s.files[f].parent;
      Recovered(Trashed(s, f), f) == s.(dirs := WithFiles(s.dirs, p, Remove(s.dirs[p].files, f) + [f]))
  {
    assert FilePlaced(s, f) && ListPlaced(s, s.files[f].parent);
    TrashedIsTrash(s, f);
    TrashedDirsAre(s, f);
    RecoveredDirs(s, Trashed(s, f), f);
    RecoveredRest(s, Trashed(s, f), f);
  }

  lemma TwoSteps(s: Store, max: nat, a: Request, b: Request)
    ensures Run(s, max, [a, b]) == Step(Step(s, max, a).0, max, b).0
  {
    assert [a, b][..1] == [a] && [a][..0] == [];
    assert Run(s, max, [a]) == Step(s, max, a).0;
  }

  lemma {:induction false} RecoveredDirs(s: Store, t: Store, f: Id)
    requires Live(s, f) && Worded(s) && s.files[f].owner in s.users && NoDup(s.dirs[s.files[f].parent].files)
    requires IsTrash(s, t, Chain(Par(s.dirs), s.files[f].parent), f)
    requires t.dirs == Grown(Unlisted(s, f), Chain(Par(s.dirs), s.files[f].parent), 0 - s.files[f].size)
    ensures
      var p := s.files[f].parent;
      Recovered(t, f).dirs == WithFiles(s.dirs, p, Remove(s.dirs[p].files, f) + [f])
  {
    var p, size := s.files[f].parent, s.files[f].size;
    var up, list := Chain(Par(s.dirs), p), Remove(s.dirs[p].files, f);
    GrownBack(s.dirs, up, size, p, list, list + [f]);
    assert DirStep(s, t, up, 0 - size as int, p, list, p);
    assert TrashUser(s, t, f, s.files[f].owner);
    AddSizesFrom(t.dirs, p, list + [f], size);
  }

  lemma RecoveredRest(s: Store, t: Store, f: Id)
    requires t == Trashed(s, f) && Live(s, f) && s.files[f].owner in s.users && s.files[f].users == []
    requires f !in s.users[s.files[f].owner].deleted
    ensures Recovered(t, f) == s.(dirs := Recovered(t, f).dirs)
  {
    var o := s.files[f].owner;
    RemoveSnoc(s.users[o].deleted, f);
    assert t.files == s.files;
    assert Recovered(t, f).files == s.files;
    assert t.users == s.users[o := s.users[o].(deleted := s.users[o].deleted + [f])];
    assert Recovered(t, f).users == s.users;
  }
}
