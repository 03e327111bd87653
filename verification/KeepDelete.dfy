/** Deleting a directory with everything below it. */
module KeepDelete {
  import opened Basics
  import opened Text
  import opened Records
  import opened DataHandlers
  import opened Drive
  import opened Tree
  import opened Invariants
  import opened KeepFiles
  import opened KeepTrash

  // ---------- the files of a list of directories ----------

  lemma {:induction false} FilesInMembers(dirs: map<Id, Dir>, ds: seq<Id>, f: Id)
    ensures f in FilesIn(dirs, ds) <==> exists d :: d in ds && d in dirs && f in dirs[d].files
  {
    if ds != [] {
      var init, last := ds[..|ds| - 1], ds[|ds| - 1];
      FilesInMembers(dirs, init, f);
      assert forall d :: d in ds <==> d in init || d == last by {
        assert ds == init + [last];
      }
    }
  }

  lemma {:induction false} FilesInNoDup(s: Store, ds: seq<Id>)
    requires Placed(s) && NoDup(ds)
    ensures NoDup(FilesIn(s.dirs, ds))
  {
    if ds != [] {
      var init, last := ds[..|ds| - 1], ds[|ds| - 1];
      FilesInNoDup(s, init);
      if last in s.dirs {
        assert ListPlaced(s, last);
        forall f | f in FilesIn(s.dirs, init) ensures f !in s.dirs[last].files {
          FilesInMembers(s.dirs, init, f);
          var d :| d in init && d in s.dirs && f in s.dirs[d].files;
          assert ListPlaced(s, d);
        }
        NoDupConcat(FilesIn(s.dirs, init), s.dirs[last].files);
      }
    }
  }

  // The files listed in a walk are exactly the live files of the subtree.
  lemma WalkFiles(s: Store, d: Id, f: Id)
    requires Forest(s) && Placed(s) && d in s.dirs
    ensures f in FilesIn(s.dirs, Walk(s, false, d)) <==> f in Under(s, d)
  {
    var w := Walk(s, false, d);
    FilesInMembers(s.dirs, w, f);
    if f in FilesIn(s.dirs, w) {
      var x :| x in w && x in s.dirs && f in s.dirs[x].files;
      WalkMembers(s, false, d, x);
      assert ListPlaced(s, x);
    }
    if f in Under(s, d) {
      WalkMembers(s, false, d, s.files[f].parent);
    }
  }

  // ---------- moving many files to the trash ----------

  // What moving the files fs to the trash leaves of directories, files and users.
  ghost predicate TrashedDir(s: Store, t: Store, fs: seq<Id>, d: Id)
    requires d in s.dirs && d in t.dirs
  {
    t.dirs[d] == s.dirs[d].(files := Select(s.dirs[d].files, fs, false), size := t.dirs[d].size)
  }

  ghost predicate TrashedFile(s: Store, t: Store, fs: seq<Id>, f: Id)
    requires f in s.files && f in t.files
  {
    t.files[f] == if f in fs then Unshown(s.files[f]) else s.files[f]
  }

  function OwnedIn(s: Store, fs: seq<Id>, u: Id): seq<Id> {
    if fs == [] then []
    else
      var last := fs[|fs| - 1];
      OwnedIn(s, fs[..|fs| - 1], u) + (if last in s.files && s.files[last].owner == u then [last] else [])
  }

  ghost predicate TrashedUser(s: Store, t: Store, fs: seq<Id>, u: Id)
    requires u in s.users && u in t.users
  {
    t.users[u] == s.users[u].(deleted := s.users[u].deleted + OwnedIn(s, fs, u),
                              shared := Select(s.users[u].shared, fs, false))
  }

  ghost predicate TrashedRest(s: Store, t: Store) {
    && t.dirs.Keys == s.dirs.Keys && Par(t.dirs) == Par(s.dirs)
    && t.files.Keys == s.files.Keys && t.users.Keys == s.users.Keys
    && t.nextUser == s.nextUser && t.nextDir == s.nextDir && t.nextFile == s.nextFile
    && t.index == s.index && t.emails == s.emails
  }

  ghost predicate MovedToTrash(s: Store, t: Store, fs: seq<Id>) {
    && TrashedRest(s, t)
    && (forall d {:trigger TrashedDir(s, t, fs, d)} :: d in s.dirs ==> TrashedDir(s, t, fs, d))
    && (forall f {:trigger TrashedFile(s, t, fs, f)} :: f in s.files ==> TrashedFile(s, t, fs, f))
    && (forall u {:trigger TrashedUser(s, t, fs, u)} :: u in s.users ==> TrashedUser(s, t, fs, u))
  }

  ghost predicate AllLive(s: Store, fs: seq<Id>) {
    forall i :: 0 <= i < |fs| ==> Live(s, fs[i])
  }

  // Exactly fs is moved, in order, each file to its owner's trash and without its shares.
  lemma {:induction false} TrashAllMoves(s: Store, max: nat, fs: seq<Id>)
    requires Inv(s, max) && NoDup(fs) && AllLive(s, fs)
    ensures Inv(TrashAll(s, fs), max) && MovedToTrash(s, TrashAll(s, fs), fs)
    ensures StaysExact(s, TrashAll(s, fs))
  {
    if fs == [] {
      NothingMoved(s);
    } else {
      var init, last := fs[..|fs| - 1], fs[|fs| - 1];
      assert fs == init + [last] && last !in init && Live(s, last);
      TrashAllMoves(s, max, init);
      assert TrashAll(s, fs) == Trashed(TrashAll(s, init), last);
      MoveOneMore(s, TrashAll(s, init), max, init, last);
    }
  }

  lemma {:induction false} TrashAllSnoc(s: Store, fs: seq<Id>, f: Id)
    ensures TrashAll(s, fs + [f]) == Trashed(TrashAll(s, fs), f)
  {
    assert (fs + [f])[..|fs|] == fs;
  }

  lemma NothingMoved(s: Store)
    ensures MovedToTrash(s, s, [])
  {
    forall d | d in s.dirs ensures TrashedDir(s, s, [], d) {
      SelectNone(s.dirs[d].files);
    }
    forall u | u in s.users ensures TrashedUser(s, s, [], u) {
      SelectNone(s.users[u].shared);
    }
  }

  lemma StillLive(s: Store, t: Store, fs: seq<Id>, f: Id)
    requires MovedToTrash(s, t, fs)
    ensures Live(t, f) <==> Live(s, f) && f !in fs
  {
    if f in s.files {
      assert TrashedFile(s, t, fs, f);
      if s.files[f].parent in s.dirs {
        assert TrashedDir(s, t, fs, s.files[f].parent);
      }
    }
  }

  lemma MoveOneMore(s: Store, t: Store, max: nat, fs: seq<Id>, f: Id)
    requires Inv(t, max) && MovedToTrash(s, t, fs) && Live(s, f) && f !in fs
    ensures Inv(Trashed(t, f), max) && MovedToTrash(s, Trashed(t, f), fs + [f])
    ensures StaysExact(t, Trashed(t, f))
  {
    StillLive(s, t, fs, f);
    TrashKeeps(t, max, f);
    assert FilePlaced(t, f);
    TrashedIsTrash(t, f);
    TrashedDirsAre(t, f);
    Moved(s, t, Trashed(t, f), max, fs, f);
  }

  lemma TrashedDirsAre(t: Store, f: Id)
    requires Live(t, f) && t.files[f].owner in t.users
    ensures Trashed(t, f).dirs == Grown(Unlisted(t, f), Chain(Par(t.dirs), t.files[f].parent), 0 - t.files[f].size)
  {
    AddSizesFrom(t.dirs, t.files[f].parent, Remove(t.dirs[t.files[f].parent].files, f), 0 - t.files[f].size);
  }

  ghost function Unlisted(t: Store, f: Id): map<Id, Dir>
    requires Live(t, f)
  {
    var home := t.files[f].parent;
    t.dirs[home := t.dirs[home].(files := Remove(t.dirs[home].files, f))]
  }

  lemma Moved(s: Store, t: Store, t': Store, max: nat, fs: seq<Id>, f: Id)
    requires Inv(t, max) && MovedToTrash(s, t, fs) && Live(t, f) && f !in fs
    requires IsTrash(t, t', Chain(Par(t.dirs), t.files[f].parent), f)
    requires t'.dirs == Grown(Unlisted(t, f), Chain(Par(t.dirs), t.files[f].parent), 0 - t.files[f].size)
    ensures MovedToTrash(s, t', fs + [f])
  {
    MovedRecords(s, t, t', max, Chain(Par(t.dirs), t.files[f].parent), fs, f);
  }

  lemma MovedRecords(s: Store, t: Store, t': Store, max: nat, up: set<Id>, fs: seq<Id>, f: Id)
    requires Inv(t, max) && MovedToTrash(s, t, fs) && Live(t, f) && f !in fs && IsTrash(t, t', up, f)
    requires t'.dirs == Grown(Unlisted(t, f), up, 0 - t.files[f].size)
    ensures MovedToTrash(s, t', fs + [f])
  {
    MovedRest(s, t, t', up, f);
    forall d | d in s.dirs ensures TrashedDir(s, t', fs + [f], d) {
      MoveDir(s, t, t', max, up, fs, f, d);
    }
    forall g | g in s.files ensures TrashedFile(s, t', fs + [f], g) {
      MoveFile(s, t, t', up, fs, f, g);
    }
    forall u | u in s.users ensures TrashedUser(s, t', fs + [f], u) {
      MoveUser(s, t, t', max, up, fs, f, u);
    }
  }

  lemma MovedRest(s: Store, t: Store, t': Store, up: set<Id>, f: Id)
    requires TrashedRest(s, t) && IsTrash(t, t', up, f)
    ensures TrashedRest(s, t')
  {
  }

  lemma MoveFile(s: Store, t: Store, t': Store, up: set<Id>, fs: seq<Id>, f: Id, g: Id)
    requires MovedToTrash(s, t, fs) && g in s.files && f !in fs && IsTrash(t, t', up, f)
    ensures TrashedFile(s, t', fs + [f], g)
  {
    assert TrashedFile(s, t, fs, g);
  }

  lemma MoveDir(s: Store, t: Store, t': Store, max: nat, up: set<Id>, fs: seq<Id>, f: Id, d: Id)
    requires Inv(t, max) && MovedToTrash(s, t, fs) && Live(t, f) && d in s.dirs
    requires t'.dirs == Grown(Unlisted(t, f), up, 0 - t.files[f].size)
    ensures d in t'.dirs && TrashedDir(s, t', fs + [f], d)
  {
    assert TrashedDir(s, t, fs, d);
    GrownOnly(Unlisted(t, f), up, 0 - t.files[f].size, d);
    SelectSnocAll(s.dirs[d].files, fs, f);
    if d != t.files[f].parent {
      assert ListPlaced(t, d);
      RemoveAbsent(t.dirs[d].files, f);
    }
  }

  lemma MoveUser(s: Store, t: Store, t': Store, max: nat, up: set<Id>, fs: seq<Id>, f: Id, u: Id)
    requires Inv(t, max) && MovedToTrash(s, t, fs) && u in s.users && IsTrash(t, t', up, f)
    ensures TrashedUser(s, t', fs + [f], u)
  {
    assert TrashedUser(s, t, fs, u) && TrashedFile(s, t, fs, f) && TrashUser(t, t', f, u);
    OwnedInSnoc(s, fs, u, f);
    MoveShares(s, t, t', max, fs, f, u);
  }

  lemma OwnedInSnoc(s: Store, fs: seq<Id>, u: Id, f: Id)
    ensures OwnedIn(s, fs + [f], u) == OwnedIn(s, fs, u) + if f in s.files && s.files[f].owner == u then [f] else []
  {
    assert (fs + [f])[..|fs|] == fs;
  }

  lemma MoveShares(s: Store, t: Store, t': Store, max: nat, fs: seq<Id>, f: Id, u: Id)
    requires Inv(t, max) && u in s.users && u in t.users && u in t'.users && f in t.files
    requires TrashedUser(s, t, fs, u) && TrashUser(t, t', f, u)
    ensures t'.users[u].shared == Select(s.users[u].shared, fs + [f], false)
  {
    SelectSnocAll(s.users[u].shared, fs, f);
    if u !in t.files[f].users {
      NotShared(t, f, u);
      RemoveAbsent(t.users[u].shared, f);
    }
  }

  lemma NotShared(t: Store, f: Id, u: Id)
    requires Symmetric(t) && f in t.files && u in t.users && u !in t.files[f].users
    ensures f !in t.users[u].shared
  {
    assert UserShares(t, u);
  }

  // ---------- erasing an emptied subtree ----------

  // ds is the subtree of d, and no file is left in it.
  ghost predicate Emptied(t: Store, d: Id, ds: set<Id>) {
    && d in t.dirs && ds == Subtree(t.dirs, d)
    && forall x :: x in ds ==> t.dirs[x].files == []
  }

  // The subtree is erased and its top is taken out of its parent's list, if it has a parent.
  ghost function CutOff(t: Store, d: Id, ds: set<Id>): Store
    requires d in t.dirs
  {
    var p, dirs := t.dirs[d].parent, t.dirs - ds;
    t.(dirs := if p in dirs then dirs[p := dirs[p].(dirs := Remove(dirs[p].dirs, d))] else dirs)
  }

  lemma ParentOutside(t: Store, d: Id, ds: set<Id>)
    requires Forest(t) && Emptied(t, d, ds)
    ensures d in ds && t.dirs[d].parent !in ds
    ensures t.dirs[d].parent != NO_PARENT ==> t.dirs[d].parent in t.dirs && t.dirs[d].parent != d
  {
    var par := Par(t.dirs);
    ChainSelf(par, d);
    assert DirLinked(t.dirs, d) && Climbs(par, d);
    if t.dirs[d].parent in ds {
      ChainRank(par, par[d], d);
    }
  }

  // Outside a subtree the chains do not meet it.
  lemma ChainOutside(t: Store, d: Id, ds: set<Id>, x: Id)
    requires Forest(t) && Emptied(t, d, ds) && x in t.dirs && x !in ds
    ensures Chain(Par(CutOff(t, d, ds).dirs), x) == Chain(Par(t.dirs), x)
    ensures Chain(Par(t.dirs), x) !! ds
  {
    var par := Par(t.dirs);
    forall y | y in Chain(par, x) ensures y in par && y !in ds {
      ChainRank(par, x, y);
      ChainTransitive(par, x, y);
    }
    ChainFrame(par, Par(CutOff(t, d, ds).dirs), x);
  }

  lemma CutOffRecord(t: Store, d: Id, ds: set<Id>, x: Id)
    requires Forest(t) && Emptied(t, d, ds) && x in t.dirs && x !in ds
    ensures
      var u := CutOff(t, d, ds);
      && x in u.dirs
      && u.dirs[x] == if x == t.dirs[d].parent then t.dirs[x].(dirs := Remove(t.dirs[x].dirs, d)) else t.dirs[x]
  {
  }

  lemma CutOffForest(t: Store, d: Id, ds: set<Id>)
    requires Forest(t) && Emptied(t, d, ds) && forall u :: u in t.users ==> t.users[u].root != d
    ensures Forest(CutOff(t, d, ds))
  {
    var c := CutOff(t, d, ds);
    CutOffShape(t, d, ds);
    forall u | u in c.users ensures RootThere(c, u) {
      assert RootThere(t, u);
      RootOutside(t, d, ds, t.users[u].root);
      CutOffRecord(t, d, ds, t.users[u].root);
    }
  }

  lemma CutOffShape(t: Store, d: Id, ds: set<Id>)
    requires Forest(t) && Emptied(t, d, ds)
    ensures TreeShape(CutOff(t, d, ds))
  {
    var c := CutOff(t, d, ds);
    CutOffKeys(t, d, ds);
    forall x | x in c.dirs ensures Climbs(Par(c.dirs), x) && DirLinked(c.dirs, x) && Handed(x, c.nextDir) {
      CutOffLinked(t, d, ds, x);
      assert Handed(x, t.nextDir);
    }
  }

  lemma CutOffKeys(t: Store, d: Id, ds: set<Id>)
    requires Forest(t) && Emptied(t, d, ds)
    ensures CutOff(t, d, ds).dirs.Keys == t.dirs.Keys - ds
  {
    ParentOutside(t, d, ds);
  }

  lemma RootOutside(t: Store, d: Id, ds: set<Id>, root: Id)
    requires Forest(t) && Emptied(t, d, ds) && root in t.dirs && t.dirs[root].parent == NO_PARENT && root != d
    ensures root !in ds
  {
  }

  lemma CutOffLinked(t: Store, d: Id, ds: set<Id>, x: Id)
    requires Forest(t) && Emptied(t, d, ds) && x in t.dirs && x !in ds
    ensures
      var c := CutOff(t, d, ds);
      x in c.dirs && Climbs(Par(c.dirs), x) && DirLinked(c.dirs, x)
  {
    var c, par := CutOff(t, d, ds), Par(t.dirs);
    assert Climbs(par, x) && DirLinked(t.dirs, x);
    ParentOutside(t, d, ds);
    CutOffRecord(t, d, ds, x);
    if par[x] != NO_PARENT {
      ChainSelf(par, x);
      ChainOutside(t, d, ds, x);
      CutOffRecord(t, d, ds, par[x]);
    }
    RemoveNoDup(t.dirs[x].dirs, d);
    forall k | k in c.dirs[x].dirs ensures k in c.dirs && c.dirs[k].parent == x {
      assert k in t.dirs[x].dirs && par[k] == x;
      KidOutside(t, d, ds, x, k);
      CutOffRecord(t, d, ds, k);
    }
  }

  lemma KidOutside(t: Store, d: Id, ds: set<Id>, x: Id, k: Id)
    requires Forest(t) && Emptied(t, d, ds) && x in t.dirs && x !in ds && k in t.dirs && t.dirs[k].parent == x
    requires k != d
    ensures k !in ds
  {
    assert Climbs(Par(t.dirs), k);
  }

  lemma CutOffLive(t: Store, d: Id, ds: set<Id>, f: Id)
    requires Forest(t) && Emptied(t, d, ds)
    ensures Live(CutOff(t, d, ds), f) <==> Live(t, f)
  {
    if f in t.files && t.files[f].parent in t.dirs && t.files[f].parent !in ds {
      CutOffRecord(t, d, ds, t.files[f].parent);
    }
    ParentOutside(t, d, ds);
    assert CutOff(t, d, ds).dirs.Keys == t.dirs.Keys - ds;
  }

  lemma CutOffPlaced(t: Store, d: Id, ds: set<Id>)
    requires Forest(t) && Placed(t) && Emptied(t, d, ds)
    ensures Placed(CutOff(t, d, ds))
  {
    var c := CutOff(t, d, ds);
    ParentOutside(t, d, ds);
    assert c.dirs.Keys == t.dirs.Keys - ds;
    forall f | f in c.files ensures FilePlaced(c, f) {
      CutOffLive(t, d, ds, f);
      assert FilePlaced(t, f);
    }
    forall x | x in c.dirs ensures ListPlaced(c, x) {
      CutOffRecord(t, d, ds, x);
      assert ListPlaced(t, x);
    }
    forall u | u in c.users ensures TrashPlaced(c, u) {
      assert TrashPlaced(t, u);
    }
  }

  lemma CutOffSymmetric(t: Store, d: Id, ds: set<Id>)
    requires Forest(t) && Symmetric(t) && Emptied(t, d, ds)
    ensures Symmetric(CutOff(t, d, ds))
  {
    var c := CutOff(t, d, ds);
    forall f | f in c.files ensures FileShares(c, f) {
      CutOffLive(t, d, ds, f);
      assert FileShares(t, f);
    }
    forall u | u in c.users ensures UserShares(c, u) {
      assert UserShares(t, u);
    }
  }

  lemma CutOffExact(t: Store, d: Id, ds: set<Id>)
    requires Forest(t) && Emptied(t, d, ds)
    ensures StaysExact(t, CutOff(t, d, ds))
  {
    var c := CutOff(t, d, ds);
    ParentOutside(t, d, ds);
    assert c.dirs.Keys == t.dirs.Keys - ds;
    forall x | x in c.dirs ensures x in t.dirs && c.dirs[x].size == t.dirs[x].size && Under(c, x) == Under(t, x) {
      CutOffRecord(t, d, ds, x);
      forall f ensures f in Under(c, x) <==> f in Under(t, x) {
        CutOffLive(t, d, ds, f);
        if Live(t, f) {
          ChainOutside(t, d, ds, t.files[f].parent);
        }
      }
      assert Under(c, x) == Under(t, x);
    }
    forall u | u in c.users ensures Owned(c, u) == Owned(t, u) {
    }
    SameSumsExact(t, c);
  }

  lemma CutOffKeeps(t: Store, max: nat, d: Id, ds: set<Id>)
    requires Inv(t, max) && Emptied(t, d, ds) && forall u :: u in t.users ==> t.users[u].root != d
    ensures Inv(CutOff(t, d, ds), max)
    ensures StaysExact(t, CutOff(t, d, ds))
  {
    var c := CutOff(t, d, ds);
    ParentOutside(t, d, ds);
    assert c.dirs.Keys == t.dirs.Keys - ds;
    NumberedFrame(t, c);
    CutOffForest(t, d, ds);
    CutOffPlaced(t, d, ds);
    CutOffSymmetric(t, d, ds);
    IndexedFrame(t, c);
    SameCovered(t, c, max);
    CutOffExact(t, d, ds);
  }

  // ---------- the request ----------

  // The live files of the subtree, in the order in which they are moved.
  ghost function SubtreeFiles(s: Store, d: Id): seq<Id> {
    FilesIn(s.dirs, Walk(s, false, d))
  }

  lemma SubtreeFilesLive(s: Store, d: Id)
    requires Forest(s) && Placed(s) && d in s.dirs
    ensures NoDup(SubtreeFiles(s, d)) && AllLive(s, SubtreeFiles(s, d))
    ensures forall f :: f in SubtreeFiles(s, d) <==> f in Under(s, d)
    ensures (set x | x in Walk(s, false, d)) == Subtree(s.dirs, d)
  {
    WalkNoDup(s, false, d);
    FilesInNoDup(s, Walk(s, false, d));
    forall f ensures f in SubtreeFiles(s, d) <==> f in Under(s, d) {
      WalkFiles(s, d, f);
    }
    forall i | 0 <= i < |SubtreeFiles(s, d)| ensures Live(s, SubtreeFiles(s, d)[i]) {
      assert SubtreeFiles(s, d)[i] in SubtreeFiles(s, d);
    }
    forall x ensures x in Walk(s, false, d) <==> x in Subtree(s.dirs, d) {
      WalkMembers(s, false, d, x);
    }
  }

  lemma SubtreeEmptied(s: Store, t: Store, d: Id)
    requires Forest(s) && Placed(s) && d in s.dirs && MovedToTrash(s, t, SubtreeFiles(s, d))
    ensures Emptied(t, d, Subtree(s.dirs, d))
  {
    var fs := SubtreeFiles(s, d);
    assert Subtree(t.dirs, d) == Subtree(s.dirs, d);
    forall x | x in Subtree(s.dirs, d) ensures t.dirs[x].files == [] {
      assert TrashedDir(s, t, fs, x) && ListPlaced(s, x);
      forall f | f in s.dirs[x].files ensures f in fs {
        WalkFiles(s, d, f);
      }
      SelectAll(s.dirs[x].files, fs);
    }
  }

  // The files of the trees of these directories, tree by tree.
  ghost function FilesOfTrees(s: Store, kids: seq<Id>): seq<Id> {
    if kids == [] then [] else FilesOfTrees(s, kids[..|kids| - 1]) + SubtreeFiles(s, kids[|kids| - 1])
  }

  // In the order in which they are moved, the files of a tree are those below the children, child by child, and then
  // those of the directory itself.
  lemma FilesOfTree(s: Store, d: Id)
    requires TreeShape(s) && d in s.dirs
    ensures SubtreeFiles(s, d) == FilesOfTrees(s, s.dirs[d].dirs) + s.dirs[d].files
  {
    var kids := s.dirs[d].dirs;
    FilesOfKids(s, d, kids);
    var w := WalkAll(s, false, d, kids);
    assert Walk(s, false, d) == w + [d] && (w + [d])[..|w|] == w;
  }

  lemma {:induction false} FilesOfKids(s: Store, d: Id, kids: seq<Id>)
    requires TreeShape(s) && KidsOf(s, d, kids)
    ensures FilesIn(s.dirs, WalkAll(s, false, d, kids)) == FilesOfTrees(s, kids)
    decreases |kids|
  {
    if kids != [] {
      WalkAllStep(s, false, d, kids);
      FilesOfKids(s, d, kids[..|kids| - 1]);
      FilesInConcat(s.dirs, WalkAll(s, false, d, kids[..|kids| - 1]), Walk(s, false, kids[|kids| - 1]));
    }
  }

  lemma {:induction false} FilesInConcat(dirs: map<Id, Dir>, a: seq<Id>, b: seq<Id>)
    ensures FilesIn(dirs, a + b) == FilesIn(dirs, a) + FilesIn(dirs, b)
  {
    if b == [] {
      assert a + b == a;
    } else {
      assert (a + b)[..|a + b| - 1] == a + b[..|b| - 1];
      FilesInConcat(dirs, a, b[..|b| - 1]);
    }
  }

  // What a granted request leaves behind, whether or not the directory has a parent.
  lemma DeleteDirectoryIsCutOff(s: Store, max: nat, user: Id, d: Id)
    requires Inv(s, max) && d != LABEL_ZERO && d in s.dirs && s.dirs[d].owner == user
    ensures
      var t, ds := TrashAll(s, SubtreeFiles(s, d)), Subtree(s.dirs, d);
      && Inv(t, max) && StaysExact(s, t) && MovedToTrash(s, t, SubtreeFiles(s, d)) && Emptied(t, d, ds)
      && DoDeleteDirectory(s, user, d).0 == CutOff(t, d, ds)
      && (DoDeleteDirectory(s, user, d).1 == Done <==> s.dirs[d].parent != NO_PARENT)
  {
    var fs, ds := SubtreeFiles(s, d), Subtree(s.dirs, d);
    SubtreeFilesLive(s, d);
    TrashAllMoves(s, max, fs);
    var t := TrashAll(s, fs);
    SubtreeEmptied(s, t, d);
    ParentOutside(t, d, ds);
    assert TrashedDir(s, t, fs, d);
  }

  // Deletion keeps the invariants exactly if the directory is not the root of some user.
  lemma DeleteDirectoryKeeps(s: Store, max: nat, user: Id, d: Id)
    requires Inv(s, max)
    ensures
      var t := DoDeleteDirectory(s, user, d).0;
      var granted := d != LABEL_ZERO && d in s.dirs && s.dirs[d].owner == user;
      && (Inv(t, max) <==> granted ==> forall u :: u in s.users ==> s.users[u].root != d)
      && (Inv(t, max) ==> StaysExact(s, t))
  {
    if d != LABEL_ZERO && d in s.dirs && s.dirs[d].owner == user {
      DeleteDirectoryIsCutOff(s, max, user, d);
      var t, ds := TrashAll(s, SubtreeFiles(s, d)), Subtree(s.dirs, d);
      forall u | u in s.users ensures t.users[u].root == s.users[u].root {
        assert TrashedUser(s, t, SubtreeFiles(s, d), u);
      }
      ParentOutside(t, d, ds);
      if forall u :: u in s.users ==> s.users[u].root != d {
        CutOffKeeps(t, max, d, ds);
      } else {
        RootLost(t, d, ds);
      }
    }
  }

  lemma RootLost(t: Store, d: Id, ds: set<Id>)
    requires Forest(t) && Emptied(t, d, ds) && exists u :: u in t.users && t.users[u].root == d
    ensures !Forest(CutOff(t, d, ds))
  {
    ParentOutside(t, d, ds);
    var u :| u in t.users && t.users[u].root == d;
    var c := CutOff(t, d, ds);
    assert c.dirs.Keys == t.dirs.Keys - ds;
    assert !RootThere(c, u);
  }

  // The files among fs on whose way to the root x lies.
  ghost function Through(s: Store, fs: seq<Id>, x: Id): set<Id> {
    set f | f in fs && f in s.files && x in Chain(Par(s.dirs), s.files[f].parent)
  }

  // The size less the sum of what has left, if anything has, as a word.
  function Less(size: nat, none: bool, sum: nat): nat {
    if none then size else (size - sum) % WORD
  }

  // A directory loses the sizes of the moved files on whose way to the root it lies.
  ghost predicate Lighter(s: Store, t: Store, fs: seq<Id>, x: Id)
    requires x in s.dirs
  {
    && x in t.dirs
    && t.dirs[x].size == Less(s.dirs[x].size, Through(s, fs, x) == {}, Sum(s.files, Through(s, fs, x)))
  }

  lemma {:induction false} TrashAllSizes(s: Store, max: nat, fs: seq<Id>, x: Id)
    requires Inv(s, max) && NoDup(fs) && AllLive(s, fs) && x in s.dirs
    ensures Lighter(s, TrashAll(s, fs), fs, x)
  {
    if fs != [] {
      var init, last := fs[..|fs| - 1], fs[|fs| - 1];
      assert fs == init + [last] && Live(s, last);
      TrashAllSizes(s, max, init, x);
      TrashAllMoves(s, max, init);
      TrashedLighter(s, TrashAll(s, init), max, init, last, x);
    }
  }

  lemma TrashedLighter(s: Store, t: Store, max: nat, fs: seq<Id>, f: Id, x: Id)
    requires Inv(t, max) && MovedToTrash(s, t, fs) && Live(s, f) && f !in fs && x in s.dirs && Lighter(s, t, fs, x)
    ensures Lighter(s, Trashed(t, f), fs + [f], x)
  {
    StillLive(s, t, fs, f);
    assert TrashedFile(s, t, fs, f);
    TrashedSize(t, max, f, x);
    SizeMore(s, t, Trashed(t, f), fs, f, x);
  }

  // The size of x when f has left the tree.
  ghost predicate Loses(t: Store, t': Store, f: Id, x: Id)
    requires f in t.files && x in t.dirs
  {
    && x in t'.dirs
    && var way, size := Chain(Par(t.dirs), t.files[f].parent), t.dirs[x].size;
    t'.dirs[x].size == if x in way then (size + (0 - t.files[f].size)) % WORD else size
  }

  lemma TrashedSize(t: Store, max: nat, f: Id, x: Id)
    requires Inv(t, max) && Live(t, f) && x in t.dirs
    ensures Loses(t, Trashed(t, f), f, x)
  {
    assert FilePlaced(t, f);
    TrashedDirsAre(t, f);
    GrownOnly(Unlisted(t, f), Chain(Par(t.dirs), t.files[f].parent), 0 - t.files[f].size, x);
  }

  lemma SizeMore(s: Store, t: Store, t': Store, fs: seq<Id>, f: Id, x: Id)
    requires f in s.files && f !in fs && x in s.dirs && x in t.dirs && Par(t.dirs) == Par(s.dirs)
    requires f in t.files && t.files[f] == s.files[f] && Lighter(s, t, fs, x) && Loses(t, t', f, x)
    ensures Lighter(s, t', fs + [f], x)
  {
    ThroughSnoc(s, fs, f, x);
    if x in Chain(Par(s.dirs), s.files[f].parent) {
      LessMore(s.dirs[x].size, t.dirs[x].size, t'.dirs[x].size, Through(s, fs, x) == {},
               Sum(s.files, Through(s, fs, x)), s.files[f].size);
    }
  }

  lemma ThroughSnoc(s: Store, fs: seq<Id>, f: Id, x: Id)
    requires f in s.files && f !in fs
    ensures
      var before, after := Through(s, fs, x), Through(s, fs + [f], x);
      if x in Chain(Par(s.dirs), s.files[f].parent) then
        after != {} && Sum(s.files, after) == Sum(s.files, before) + s.files[f].size
      else after == before
  {
    var before, after := Through(s, fs, x), Through(s, fs + [f], x);
    if x in Chain(Par(s.dirs), s.files[f].parent) {
      assert after == before + {f} && after - {f} == before;
      SumTake(s.files, after, f);
    } else {
      assert after == before;
    }
  }

  lemma LessMore(first: nat, now: nat, next: nat, none: bool, sum: nat, more: int)
    requires now == Less(first, none, sum) && (none ==> sum == 0) && 0 <= more && next == (now + (0 - more)) % WORD
    ensures next == Less(first, false, sum + more)
  {
    WordSum(first - sum, 0 - more);
  }

  // Records of files and users after the deletion of d.
  lemma DeleteDirectoryMoves(s: Store, max: nat, user: Id, d: Id)
    requires Inv(s, max) && d != LABEL_ZERO && d in s.dirs && s.dirs[d].owner == user
    ensures
      var t, fs := DoDeleteDirectory(s, user, d).0, SubtreeFiles(s, d);
      && t.files.Keys == s.files.Keys && t.users.Keys == s.users.Keys
      && (forall f :: f in s.files ==> TrashedFile(s, t, fs, f))
      && (forall u :: u in s.users ==> TrashedUser(s, t, fs, u))
      && t.index == s.index && t.emails == s.emails
      && t.nextDir == s.nextDir && t.nextFile == s.nextFile && t.nextUser == s.nextUser
  {
    var fs, m := SubtreeFiles(s, d), TrashAll(s, SubtreeFiles(s, d));
    DeleteDirectoryIsCutOff(s, max, user, d);
    var t := CutOff(m, d, Subtree(s.dirs, d));
    forall f | f in s.files ensures TrashedFile(s, t, fs, f) {
      assert TrashedFile(s, m, fs, f);
    }
    forall u | u in s.users ensures TrashedUser(s, t, fs, u) {
      assert TrashedUser(s, m, fs, u);
    }
  }

  // The size of a directory outside the tree of d when the files of the tree have left.
  ghost function SizeAfter(s: Store, d: Id, x: Id): nat
    requires x in s.dirs
  {
    if x in Chain(Par(s.dirs), d) then Less(s.dirs[x].size, Under(s, d) == {}, Sum(s.files, Under(s, d)))
    else s.dirs[x].size
  }

  // The directories after the deletion of d.
  lemma {:induction false} DeleteDirectoryErases(s: Store, max: nat, user: Id, d: Id)
    requires Inv(s, max) && d != LABEL_ZERO && d in s.dirs && s.dirs[d].owner == user
    ensures
      var t, ds := DoDeleteDirectory(s, user, d).0, Subtree(s.dirs, d);
      && t.dirs.Keys == s.dirs.Keys - ds
      && (forall x :: x in s.dirs && x !in ds ==>
            && t.dirs[x] == s.dirs[x].(dirs := t.dirs[x].dirs, size := t.dirs[x].size)
            && t.dirs[x].dirs == (if x == s.dirs[d].parent then Remove(s.dirs[x].dirs, d) else s.dirs[x].dirs)
            && t.dirs[x].size == SizeAfter(s, d, x))
  {
    var ds, m := Subtree(s.dirs, d), TrashAll(s, SubtreeFiles(s, d));
    DeleteDirectoryIsCutOff(s, max, user, d);
    ParentOutside(m, d, ds);
    var t := CutOff(m, d, ds);
    assert t.dirs.Keys == s.dirs.Keys - ds;
    forall x | x in s.dirs && x !in ds
      ensures t.dirs[x] == s.dirs[x].(dirs := t.dirs[x].dirs, size := t.dirs[x].size)
      ensures t.dirs[x].dirs == (if x == s.dirs[d].parent then Remove(s.dirs[x].dirs, d) else s.dirs[x].dirs)
      ensures t.dirs[x].size == SizeAfter(s, d, x)
    {
      OutsideKept(s, max, m, d, x);
    }
  }

  // The main result about deletion: the subtree goes, its live files and no others go to their owners' trash
  // without their shares, and of the remaining directories only the parent's list of children and the sizes
  // of ancestors change.
  lemma DeleteDirectoryExactly(s: Store, max: nat, user: Id, d: Id)
    requires Inv(s, max) && d != LABEL_ZERO && d in s.dirs && s.dirs[d].owner == user
    ensures
      var t, fs, ds := DoDeleteDirectory(s, user, d).0, SubtreeFiles(s, d), Subtree(s.dirs, d);
      && t.dirs.Keys == s.dirs.Keys - ds && t.files.Keys == s.files.Keys && t.users.Keys == s.users.Keys
      && NoDup(fs) && (forall f :: f in fs <==> f in Under(s, d))
      && (forall x :: x in s.dirs && x !in ds ==>
            && t.dirs[x] == s.dirs[x].(dirs := t.dirs[x].dirs, size := t.dirs[x].size)
            && t.dirs[x].dirs == (if x == s.dirs[d].parent then Remove(s.dirs[x].dirs, d) else s.dirs[x].dirs)
            && t.dirs[x].size == SizeAfter(s, d, x))
      && (forall f :: f in s.files ==> TrashedFile(s, t, fs, f))
      && (forall u :: u in s.users ==> TrashedUser(s, t, fs, u))
      && t.index == s.index && t.emails == s.emails
      && t.nextDir == s.nextDir && t.nextFile == s.nextFile && t.nextUser == s.nextUser
  {
    SubtreeFilesLive(s, d);
    DeleteDirectoryMoves(s, max, user, d);
    DeleteDirectoryErases(s, max, user, d);
  }

  lemma {:induction false} OutsideKept(s: Store, max: nat, m: Store, d: Id, x: Id)
    requires Inv(s, max) && d in s.dirs && x in s.dirs && x !in Subtree(s.dirs, d)
    requires m == TrashAll(s, SubtreeFiles(s, d)) && MovedToTrash(s, m, SubtreeFiles(s, d))
    requires Forest(m) && Emptied(m, d, Subtree(s.dirs, d))
    ensures
      var t := CutOff(m, d, Subtree(s.dirs, d));
      && x in t.dirs && t.dirs[x] == s.dirs[x].(dirs := t.dirs[x].dirs, size := t.dirs[x].size)
      && t.dirs[x].dirs == (if x == s.dirs[d].parent then Remove(s.dirs[x].dirs, d) else s.dirs[x].dirs)
      && t.dirs[x].size == SizeAfter(s, d, x)
  {
    var fs := SubtreeFiles(s, d);
    CutOffRecord(m, d, Subtree(s.dirs, d), x);
    assert TrashedDir(s, m, fs, x) && TrashedDir(s, m, fs, d) && ListPlaced(s, x);
    SubtreeFilesLive(s, d);
    SelectNoneOf(s.dirs[x].files, fs);
    TrashAllSizes(s, max, fs, x);
    ThroughTree(s, d, x, fs);
  }

  // Of the files below d, all lie below an ancestor of d, and none below any other directory outside.
  lemma ThroughTree(s: Store, d: Id, x: Id, fs: seq<Id>)
    requires d in s.dirs && x in s.dirs && x !in Subtree(s.dirs, d) && forall f :: f in fs <==> f in Under(s, d)
    ensures Through(s, fs, x) == if x in Chain(Par(s.dirs), d) then Under(s, d) else {}
  {
    var par := Par(s.dirs);
    forall f | f in Under(s, d) ensures x in Chain(par, s.files[f].parent) <==> x in Chain(par, d) {
      ChainTransitive(par, s.files[f].parent, d);
      if x !in Chain(par, d) {
        NotBetween(par, s.files[f].parent, d, x);
      }
    }
  }

  lemma NotBetween(par: Parents, p: Id, d: Id, x: Id)
    requires d in Chain(par, p) && d !in Chain(par, x) && x !in Chain(par, d)
    ensures x !in Chain(par, p)
  {
    if x in Chain(par, p) {
      if Val(x) <= Val(d) {
        ChainLinear(par, p, x, d);
      } else {
        ChainLinear(par, p, d, x);
      }
    }
  }
}
