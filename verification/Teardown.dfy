/** The recursive deletion of a directory, which passes through states where children are gone and their parents
    still list them. */
module Teardown {
  import opened Basics
  import opened Text
  import opened Records
  import opened DataHandlers
  import opened Drive
  import opened Tree
  import opened Invariants
  import opened KeepFiles
  import opened KeepDelete
  import opened KeepMany
  import opened Refinement

  // The directories done are erased, their files are in the trash, and so are the files fs.
  ghost function Halfway(s: Store, done: seq<Id>, fs: seq<Id>): Store {
    Erased(TrashAll(s, FilesIn(s.dirs, done) + fs), set x | x in done)
  }

  lemma HalfwayNone(s: Store, done: seq<Id>)
    ensures Halfway(s, done, []) == Deleted(s, done)
  {
    assert FilesIn(s.dirs, done) + [] == FilesIn(s.dirs, done);
  }

  // None of the directories done is below, above or equal to d.
  ghost predicate Apart(s: Store, done: seq<Id>, d: Id) {
    forall y :: y in done ==> y in s.dirs && d !in Chain(Par(s.dirs), y) && y !in Chain(Par(s.dirs), d)
  }

  ghost predicate Ready(s: Store, max: nat, done: seq<Id>, d: Id) {
    Inv(s, max) && d in s.dirs && NoDup(done) && Apart(s, done, d)
  }

  // What was done once the first of the children of d are deleted as well.
  ghost function DoneKids(s: Store, done: seq<Id>, d: Id, kids: seq<Id>): seq<Id> {
    done + WalkAll(s, false, d, kids)
  }

  // Directories visited below d are below it, and not on the way up from it.
  lemma BelowOnly(s: Store, d: Id, kids: seq<Id>, y: Id)
    requires TreeShape(s) && KidsOf(s, d, kids) && y in WalkAll(s, false, d, kids)
    ensures y in s.dirs && d in Chain(Par(s.dirs), y) && y !in Chain(Par(s.dirs), d)
  {
    var par := Par(s.dirs);
    WalkAllMembers(s, false, d, kids, y);
    var c :| c in kids && c in Chain(par, y);
    assert c in s.dirs[d].dirs;
    KidRoom(s, d, c);
    ChainTransitive(par, y, c);
    ChainSelf(par, c);
    ChainRank(par, y, c);
    if y in Chain(par, d) {
      ChainRank(par, d, y);
    }
  }

  lemma DoneKidsApart(s: Store, max: nat, done: seq<Id>, d: Id, kids: seq<Id>)
    requires Ready(s, max, done, d) && KidsOf(s, d, kids)
    ensures NoDup(DoneKids(s, done, d, kids))
    ensures forall y :: y in DoneKids(s, done, d, kids) ==> y in s.dirs && y !in Chain(Par(s.dirs), d)
  {
    var below := WalkAll(s, false, d, kids);
    WalkAllNoDup(s, false, d, kids);
    forall y | y in below ensures y !in done && y in s.dirs && y !in Chain(Par(s.dirs), d) {
      BelowOnly(s, d, kids, y);
    }
    NoDupConcat(done, below);
  }

  // Each child in turn is apart from what was done before.
  lemma KidReady(s: Store, max: nat, done: seq<Id>, d: Id, i: nat)
    requires Ready(s, max, done, d) && i < |s.dirs[d].dirs|
    ensures
      var kids := s.dirs[d].dirs;
      Ready(s, max, DoneKids(s, done, d, kids[..i]), kids[i]) && Room(s, kids[i]) < Room(s, d)
  {
    var par, kids := Par(s.dirs), s.dirs[d].dirs;
    var c := kids[i];
    KidRoom(s, d, c);
    DoneKidsApart(s, max, done, d, kids[..i]);
    forall y | y in DoneKids(s, done, d, kids[..i])
      ensures y in s.dirs && c !in Chain(par, y) && y !in Chain(par, c)
    {
      KidApart(s, max, done, d, i, y);
    }
  }

  lemma KidApart(s: Store, max: nat, done: seq<Id>, d: Id, i: nat, y: Id)
    requires Ready(s, max, done, d) && i < |s.dirs[d].dirs| && y in DoneKids(s, done, d, s.dirs[d].dirs[..i])
    ensures s.dirs[d].dirs[i] !in Chain(Par(s.dirs), y) && y !in Chain(Par(s.dirs), s.dirs[d].dirs[i])
  {
    var par, kids := Par(s.dirs), s.dirs[d].dirs;
    var c := kids[i];
    KidRoom(s, d, c);
    ChainSelf(par, c);
    assert Chain(par, c) == {c} + Chain(par, d);
    DoneKidsApart(s, max, done, d, kids[..i]);
    if y in done {
      if c in Chain(par, y) {
        ChainTransitive(par, y, c);
      }
    } else {
      WalkAllMembers(s, false, d, kids[..i], y);
      var b :| b in kids[..i] && b in Chain(par, y);
      assert b in kids;
      KidRoom(s, d, b);
      assert DirLinked(s.dirs, d);
      if c in Chain(par, y) {
        SiblingsApart(par, b, c, y);
      }
      ChainSelf(par, y);
    }
  }

  lemma KidDone(s: Store, done: seq<Id>, d: Id, i: nat)
    requires TreeShape(s) && d in s.dirs && i < |s.dirs[d].dirs|
    ensures
      var kids := s.dirs[d].dirs;
      DoneKids(s, done, d, kids[..i]) + Walk(s, false, kids[i]) == DoneKids(s, done, d, kids[..i + 1])
  {
    var kids := s.dirs[d].dirs;
    assert kids[..i + 1][..i] == kids[..i];
    WalkAllStep(s, false, d, kids[..i + 1]);
  }

  // The first i children of d are deleted.
  ghost function DeletedKids(s: Store, done: seq<Id>, d: Id, i: nat): Store
    requires d in s.dirs && i <= |s.dirs[d].dirs|
  {
    Deleted(s, DoneKids(s, done, d, s.dirs[d].dirs[..i]))
  }

  lemma KidsStart(s: Store, done: seq<Id>, d: Id)
    requires d in s.dirs
    ensures DeletedKids(s, done, d, 0) == Deleted(s, done)
  {
    assert DoneKids(s, done, d, s.dirs[d].dirs[..0]) == done;
  }

  lemma KidsEnd(s: Store, done: seq<Id>, d: Id)
    requires d in s.dirs
    ensures DeletedKids(s, done, d, |s.dirs[d].dirs|) == Deleted(s, DoneKids(s, done, d, s.dirs[d].dirs))
  {
    assert s.dirs[d].dirs[..|s.dirs[d].dirs|] == s.dirs[d].dirs;
  }

  // ---------- the files of the directories done ----------

  lemma DoneFiles(s: Store, ds: seq<Id>)
    requires Placed(s) && NoDup(ds)
    ensures NoDup(FilesIn(s.dirs, ds)) && AllLive(s, FilesIn(s.dirs, ds))
    ensures forall f :: f in FilesIn(s.dirs, ds) ==> f in s.files && s.files[f].parent in ds
  {
    var fs := FilesIn(s.dirs, ds);
    FilesInNoDup(s, ds);
    forall f | f in fs ensures Live(s, f) && s.files[f].parent in ds {
      FilesInMembers(s.dirs, ds, f);
      var y :| y in ds && y in s.dirs && f in s.dirs[y].files;
      assert ListPlaced(s, y);
    }
    forall i | 0 <= i < |fs| ensures Live(s, fs[i]) {
      assert fs[i] in fs;
    }
  }

  // The record of d is still there, with its two lists as they were.
  lemma DirThere(s: Store, max: nat, done: seq<Id>, d: Id)
    requires Ready(s, max, done, d)
    ensures
      var t := Deleted(s, done);
      d in t.dirs && t.dirs[d].dirs == s.dirs[d].dirs && t.dirs[d].files == s.dirs[d].files
  {
    var fs := FilesIn(s.dirs, done);
    ChainSelf(Par(s.dirs), d);
    DoneFiles(s, done);
    TrashAllMoves(s, max, fs);
    assert TrashedDir(s, TrashAll(s, fs), fs, d);
    assert ListPlaced(s, d);
    SelectNoneOf(s.dirs[d].files, fs);
  }

  // ---------- one file ----------

  ghost predicate Outside(t: Store, ds: set<Id>, f: Id) {
    && f in t.files && t.files[f].owner in t.users && t.files[f].parent in t.dirs
    && Rooted(Par(t.dirs)) && Chain(Par(t.dirs), t.files[f].parent) !! ds
  }

  lemma ErasedChain(dirs: map<Id, Dir>, ds: set<Id>, p: Id)
    requires Rooted(Par(dirs)) && p in dirs && Chain(Par(dirs), p) !! ds
    ensures p !in ds && Chain(Par(dirs - ds), p) == Chain(Par(dirs), p) && Ascends(dirs - ds, p)
  {
    var par, par' := Par(dirs), Par(dirs - ds);
    ChainSelf(par, p);
    forall x | x in Chain(par, p)
      ensures x in par && x in par' && par'[x] == par[x] && Climbs(par', x)
    {
      ChainRank(par, p, x);
      assert Climbs(par, x);
      ChainTransitive(par, p, x);
      ChainSelf(par, x);
    }
    ChainFrame(par, par', p);
  }

  // Erasing directories apart from its own does not disturb the deletion of a file.
  lemma TrashedErased(t: Store, ds: set<Id>, f: Id)
    requires Outside(t, ds, f)
    ensures Trashed(Erased(t, ds), f) == Erased(Trashed(t, f), ds)
  {
    var p := t.files[f].parent;
    ErasedChain(t.dirs, ds, p);
    ErasedUnlisted(t.dirs, ds, p, Remove(t.dirs[p].files, f), 0 - t.files[f].size);
  }

  lemma ErasedUnlisted(dirs: map<Id, Dir>, ds: set<Id>, p: Id, list: seq<Id>, delta: int)
    requires Rooted(Par(dirs)) && p in dirs && Chain(Par(dirs), p) !! ds && p !in ds
    ensures
      var erased := dirs - ds;
      AddSizes(erased[p := erased[p].(files := list)], p, delta)
      == AddSizes(dirs[p := dirs[p].(files := list)], p, delta) - ds
  {
    ErasedChain(dirs, ds, p);
    AddSizesFrom(dirs, p, list, delta);
    AddSizesFrom(dirs - ds, p, list, delta);
    ErasedGrown(dirs, ds, Chain(Par(dirs), p), delta, p, list);
  }

  lemma ErasedGrown(dirs: map<Id, Dir>, ds: set<Id>, up: set<Id>, delta: int, p: Id, list: seq<Id>)
    requires p in dirs && p !in ds
    ensures
      var erased := dirs - ds;
      Grown(erased[p := erased[p].(files := list)], up, delta)
        == Grown(dirs[p := dirs[p].(files := list)], up, delta) - ds
  {
  }

  // fs are the files moved so far and f is the next.
  ghost predicate NextFile(s: Store, ds: seq<Id>, fs: seq<Id>, f: Id) {
    && NoDup(fs) && AllLive(s, fs) && Live(s, f) && f !in fs
    && forall y :: y in ds ==> y !in Chain(Par(s.dirs), s.files[f].parent)
  }

  lemma NextFileOutside(s: Store, t: Store, ds: set<Id>, fs: seq<Id>, f: Id)
    requires MovedToTrash(s, t, fs) && Rooted(Par(t.dirs)) && Placed(t) && Live(t, f)
    requires forall y :: y in ds ==> y !in Chain(Par(s.dirs), s.files[f].parent)
    ensures Outside(t, ds, f) && t.files[f].parent == s.files[f].parent
  {
    assert FilePlaced(t, f) && TrashedFile(s, t, fs, f);
  }

  lemma OutsideDeletable(t: Store, ds: set<Id>, f: Id)
    requires Outside(t, ds, f) && Numbered(t) && Symmetric(t)
    ensures Deletable(Erased(t, ds), f)
  {
    ErasedChain(t.dirs, ds, t.files[f].parent);
    assert IsNumbered(f, t.nextFile) && FileShares(t, f);
    NumberIsKey(f);
  }

  // The next file is moved by its owner's deletion.
  lemma {:induction false} DeleteNext(s: Store, max: nat, ds: seq<Id>, fs: seq<Id>, f: Id)
    requires Inv(s, max) && NextFile(s, ds, fs, f)
    ensures
      var t := Erased(TrashAll(s, fs), set y | y in ds);
      && f in t.files && Deletable(t, f)
      && DoDeleteFile(t, t.files[f].owner, f) == (Erased(TrashAll(s, fs + [f]), set y | y in ds), Done)
  {
    var t, gone := TrashAll(s, fs), set y | y in ds;
    TrashAllMoves(s, max, fs);
    StillLive(s, t, fs, f);
    NextFileOutside(s, t, gone, fs, f);
    OutsideDeletable(t, gone, f);
    TrashedErased(t, gone, f);
    ErasedChain(t.dirs, gone, t.files[f].parent);
    TrashAllSnoc(s, fs, f);
  }

  lemma FileNext(s: Store, max: nat, done: seq<Id>, d: Id, j: nat)
    requires Ready(s, max, done, d) && j < |s.dirs[d].files|
    ensures
      var ds, files := DoneKids(s, done, d, s.dirs[d].dirs), s.dirs[d].files;
      NextFile(s, ds, FilesIn(s.dirs, ds) + files[..j], files[j])
  {
    var ds, files := DoneKids(s, done, d, s.dirs[d].dirs), s.dirs[d].files;
    var fs := FilesIn(s.dirs, ds);
    DoneKidsApart(s, max, done, d, s.dirs[d].dirs);
    DoneFiles(s, ds);
    ChainSelf(Par(s.dirs), d);
    assert ListPlaced(s, d);
    forall k | 0 <= k < |files| ensures Live(s, files[k]) && files[k] !in fs && s.files[files[k]].parent == d {
      assert files[k] in files;
    }
    NoDupConcat(fs, files[..j]);
  }

  lemma DeleteNextFile(s: Store, max: nat, done: seq<Id>, d: Id, j: nat)
    requires Ready(s, max, done, d) && j < |s.dirs[d].files|
    ensures
      var ds, files := DoneKids(s, done, d, s.dirs[d].dirs), s.dirs[d].files;
      var t := Halfway(s, ds, files[..j]);
      && files[j] in t.files && Deletable(t, files[j])
      && DoDeleteFile(t, t.files[files[j]].owner, files[j]) == (Halfway(s, ds, files[..j + 1]), Done)
  {
    var ds, files := DoneKids(s, done, d, s.dirs[d].dirs), s.dirs[d].files;
    FileNext(s, max, done, d, j);
    DeleteNext(s, max, ds, FilesIn(s.dirs, ds) + files[..j], files[j]);
    TakeOneMore(FilesIn(s.dirs, ds), files, j);
  }

  lemma TakeOneMore(a: seq<Id>, b: seq<Id>, j: nat)
    requires j < |b|
    ensures a + b[..j] + [b[j]] == a + b[..j + 1]
  {
  }

  // ---------- the directory itself ----------

  lemma WalkLast(s: Store, done: seq<Id>, d: Id)
    requires d in s.dirs
    ensures
      var ds := DoneKids(s, done, d, s.dirs[d].dirs);
      done + Walk(s, false, d) == ds + [d] && FilesIn(s.dirs, ds + [d]) == FilesIn(s.dirs, ds) + s.dirs[d].files
  {
    var ds := DoneKids(s, done, d, s.dirs[d].dirs);
    assert (ds + [d])[..|ds|] == ds;
  }

  lemma EraseOneMore(t: Store, ds: seq<Id>, d: Id)
    ensures
      var e := Erased(t, set x | x in ds);
      e.(dirs := e.dirs - {d}) == Erased(t, set x | x in ds + [d])
  {
    assert (set x | x in ds + [d]) == (set x | x in ds) + {d};
    assert t.dirs - (set x | x in ds) - {d} == t.dirs - ((set x | x in ds) + {d});
  }

  lemma EraseLast(s: Store, done: seq<Id>, d: Id)
    requires d in s.dirs
    ensures
      var t := Halfway(s, DoneKids(s, done, d, s.dirs[d].dirs), s.dirs[d].files);
      t.(dirs := t.dirs - {d}) == Deleted(s, done + Walk(s, false, d))
  {
    var ds := DoneKids(s, done, d, s.dirs[d].dirs);
    WalkLast(s, done, d);
    EraseOneMore(TrashAll(s, FilesIn(s.dirs, ds) + s.dirs[d].files), ds, d);
  }

  lemma NothingDeleted(s: Store)
    ensures Deleted(s, []) == s
  {
    assert (set x: Id | x in []) == {};
    assert s.dirs - {} == s.dirs;
  }

  lemma StartReady(s: Store, max: nat, d: Id)
    requires Inv(s, max) && d in s.dirs
    ensures Ready(s, max, [], d) && [] + Walk(s, false, d) == Walk(s, false, d)
  {
  }

  // The trash can be purged while the record of the user is still there.
  lemma LeavePurgeable(s: Store, max: nat, user: Id)
    requires Inv(s, max) && user in s.users && max < WORD
    ensures
      var t := Deleted(s, Walk(s, false, s.users[user].root));
      user in t.users && Purgeable(t, t.users[user].deleted)
  {
    var fs := SubtreeFiles(s, s.users[user].root);
    var m := TrashAll(s, fs);
    assert RootThere(s, user);
    SubtreeFilesLive(s, s.users[user].root);
    TrashAllMoves(s, max, fs);
    WholeTrash(m, user);
    TrashReady(m, max, user, m.users[user].deleted);
  }
}
