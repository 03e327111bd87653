/** Sizes on the way to the root, and uploading a file for the first time or again. */
module KeepFiles {
  import opened Basics
  import opened Text
  import opened Keys
  import opened Records
  import opened DataHandlers
  import opened Drive
  import opened Tree
  import opened Invariants
  import opened KeepBasics

  // ---------- sizes ----------

  lemma GrownPar(dirs: map<Id, Dir>, up: set<Id>, delta: int)
    ensures Par(Grown(dirs, up, delta)) == Par(dirs)
  {
  }

  lemma DatedPar(dirs: map<Id, Dir>, up: set<Id>, date: string)
    ensures Par(Dated(dirs, up, date)) == Par(dirs)
  {
  }

  lemma WordSum(a: int, b: int)
    ensures (a % WORD + b) % WORD == (a + b) % WORD
  {
  }

  lemma SumPlus(files: map<Id, File>, files': map<Id, File>, fs: set<Id>, f: Id)
    requires f !in fs && f in files'
    requires forall g :: g in fs ==> g in files && g in files' && files'[g].size == files[g].size
    ensures Sum(files', fs) == Sum(files, fs) && Sum(files', fs + {f}) == Sum(files, fs) + files'[f].size
  {
    SumSame(files, files', fs);
    SumTake(files', fs + {f}, f);
    assert fs + {f} - {f} == fs;
  }

  lemma SumMinus(files: map<Id, File>, files': map<Id, File>, fs: set<Id>, f: Id)
    requires f in fs && f in files
    requires forall g :: g in fs ==> g in files && g in files' && files'[g].size == files[g].size
    ensures Sum(files', fs) == Sum(files, fs) == Sum(files', fs - {f}) + files[f].size
  {
    SumSame(files, files', fs);
    SumTake(files', fs, f);
  }

  // f joins the files below d exactly if d lies on the way up, and then its size is added.
  lemma SizedPlus(s: Store, t: Store, g: Ledger, up: bool, f: Id, d: Id)
    requires d in s.dirs && d in t.dirs && f in t.files && f !in Under(s, d)
    requires SizeFits(s, g, d)
    requires forall x :: x in Under(s, d) ==> x in s.files && x in t.files && t.files[x].size == s.files[x].size
    requires Under(t, d) == if up then Under(s, d) + {f} else Under(s, d)
    requires t.dirs[d].size == if up then (s.dirs[d].size + t.files[f].size) % WORD else s.dirs[d].size
    ensures SizeFits(t, g, d)
  {
    if up {
      SumPlus(s.files, t.files, Under(s, d), f);
      Shifted(s, t, g, g, d, t.files[f].size);
    } else {
      SumSame(s.files, t.files, Under(s, d));
      Shifted(s, t, g, g, d, 0);
    }
  }

  // The stored size and what it should be changed by the same amount.
  lemma Shifted(s: Store, t: Store, g: Ledger, h: Ledger, d: Id, delta: int)
    requires d in s.dirs && d in t.dirs && SizeFits(s, g, d)
    requires t.dirs[d].size == (s.dirs[d].size + delta) % WORD || (delta == 0 && t.dirs[d].size == s.dirs[d].size)
    requires Sum(t.files, Under(t, d)) + Entry(h.dirs, d) == Sum(s.files, Under(s, d)) + Entry(g.dirs, d) + delta
    ensures SizeFits(t, h, d)
  {
    WordSum(Sum(s.files, Under(s, d)) + Entry(g.dirs, d), delta);
  }

  // f leaves the files below d exactly if d lies on the way up, and then its size is subtracted.
  lemma SizedMinus(s: Store, t: Store, g: Ledger, up: bool, f: Id, d: Id)
    requires d in s.dirs && d in t.dirs && f in s.files
    requires SizeFits(s, g, d)
    requires forall x :: x in Under(s, d) ==> x in s.files && x in t.files && t.files[x].size == s.files[x].size
    requires up ==> f in Under(s, d)
    requires Under(t, d) == if up then Under(s, d) - {f} else Under(s, d)
    requires t.dirs[d].size == if up then (s.dirs[d].size - s.files[f].size) % WORD else s.dirs[d].size
    ensures SizeFits(t, g, d)
  {
    var fs := Under(s, d);
    if up {
      SumMinus(s.files, t.files, fs, f);
    } else {
      SumSame(s.files, t.files, fs);
    }
    Shifted(s, t, g, g, d, if up then 0 - s.files[f].size else 0);
  }

  // ---------- directories ----------

  // The home directory gets a new list of files, and the sizes on the way up from it change by delta.
  ghost predicate DirStep(s: Store, t: Store, up: set<Id>, delta: int, home: Id, list: seq<Id>, d: Id)
    requires d in s.dirs && d in t.dirs
  {
    && t.dirs[d].dirs == s.dirs[d].dirs && t.dirs[d].parent == s.dirs[d].parent && t.dirs[d].owner == s.dirs[d].owner
    && t.dirs[d].files == (if d == home then list else s.dirs[d].files)
    && t.dirs[d].size == (if d in up then (s.dirs[d].size + delta) % WORD else s.dirs[d].size)
  }

  ghost predicate DirsStep(s: Store, t: Store, up: set<Id>, delta: int, home: Id, list: seq<Id>) {
    && t.dirs.Keys == s.dirs.Keys && Par(t.dirs) == Par(s.dirs)
    && forall d {:trigger DirStep(s, t, up, delta, home, list, d)} :: d in s.dirs ==>
         DirStep(s, t, up, delta, home, list, d)
  }

  lemma AddSizesStep(s: Store, t: Store, delta: int, home: Id, list: seq<Id>)
    requires home in s.dirs && t.dirs == AddSizes(s.dirs[home := s.dirs[home].(files := list)], home, delta)
    ensures DirsStep(s, t, Chain(Par(s.dirs), home), delta, home, list)
  {
    AddSizesFrom(s.dirs, home, list, delta);
    GrownStep(s, t, Chain(Par(s.dirs), home), delta, home, list);
  }

  // The parents of directories of which one got a new list of files.
  lemma RelistedPar(dirs: map<Id, Dir>, home: Id, list: seq<Id>)
    requires home in dirs
    ensures Par(dirs[home := dirs[home].(files := list)]) == Par(dirs)
  {
  }

  lemma AddSizesIs(dirs: map<Id, Dir>, par: Parents, home: Id, delta: int)
    requires Par(dirs) == par
    ensures AddSizes(dirs, home, delta) == Grown(dirs, Chain(par, home), delta)
  {
  }

  lemma AddSizesFrom(dirs: map<Id, Dir>, home: Id, list: seq<Id>, delta: int)
    requires home in dirs
    ensures
      var listed := dirs[home := dirs[home].(files := list)];
      Par(listed) == Par(dirs) && AddSizes(listed, home, delta) == Grown(listed, Chain(Par(dirs), home), delta)
  {
    RelistedPar(dirs, home, list);
    AddSizesIs(dirs[home := dirs[home].(files := list)], Par(dirs), home, delta);
  }

  lemma GrownStep(s: Store, t: Store, up: set<Id>, delta: int, home: Id, list: seq<Id>)
    requires home in s.dirs && t.dirs == Grown(s.dirs[home := s.dirs[home].(files := list)], up, delta)
    ensures DirsStep(s, t, up, delta, home, list)
  {
    var listed := s.dirs[home := s.dirs[home].(files := list)];
    GrownListedPar(s.dirs, up, delta, home, list);
    forall d | d in s.dirs ensures DirStep(s, t, up, delta, home, list, d) {
      GrownOnly(listed, up, delta, d);
    }
  }

  lemma GrownListedPar(dirs: map<Id, Dir>, up: set<Id>, delta: int, home: Id, list: seq<Id>)
    requires home in dirs
    ensures Par(Grown(dirs[home := dirs[home].(files := list)], up, delta)) == Par(dirs)
  {
    var listed := dirs[home := dirs[home].(files := list)];
    assert Par(listed) == Par(dirs);
    GrownPar(listed, up, delta);
  }

  lemma GrownOnly(dirs: map<Id, Dir>, up: set<Id>, delta: int, d: Id)
    requires d in dirs
    ensures
      var g := Grown(dirs, up, delta);
      d in g && g[d] == if d in up then dirs[d].(size := (dirs[d].size + delta) % WORD) else dirs[d]
  {
  }

  lemma StepForest(s: Store, t: Store, up: set<Id>, delta: int, home: Id, list: seq<Id>)
    requires Forest(s) && DirsStep(s, t, up, delta, home, list) && t.nextDir == s.nextDir
    requires t.users.Keys == s.users.Keys && forall u :: u in s.users ==> t.users[u].root == s.users[u].root
    ensures Forest(t)
  {
    forall d | d in t.dirs
      ensures t.dirs[d].parent == s.dirs[d].parent && t.dirs[d].dirs == s.dirs[d].dirs
      ensures t.dirs[d].owner == s.dirs[d].owner
    {
      assert DirStep(s, t, up, delta, home, list, d);
    }
    forall d | d in t.dirs ensures DirLinked(t.dirs, d) && Handed(d, t.nextDir) {
      assert DirLinked(s.dirs, d) && Handed(d, s.nextDir);
    }
    forall u | u in t.users ensures RootThere(t, u) {
      assert RootThere(s, u);
    }
  }

  // ---------- upload ----------

  // What an upload under a new name does.
  ghost predicate IsUpload(s: Store, t: Store, up: set<Id>, id: Id, user: Id, size: nat, parent: Id) {
    && user in s.users && parent in s.dirs && id !in s.files
    && DirsStep(s, t, up, size, parent, s.dirs[parent].files + [id])
    && id in t.files && t.files == s.files[id := t.files[id]]
    && t.files[id].owner == user && t.files[id].parent == parent && t.files[id].users == [] && t.files[id].size == size
    && t.users == s.users[user := s.users[user].(quota := (s.users[user].quota + size) % WORD)]
    && t.index == s.index && t.emails == s.emails
    && t.nextDir == s.nextDir && t.nextUser == s.nextUser
  }

  lemma UploadedIsUpload(s: Store, user: Id, name: string, extension: string, date: string, size: nat, parent: Id)
    requires Numbered(s) && user in s.users && parent in s.dirs
    ensures IsUpload(s, Uploaded(s, user, name, extension, date, size, parent), Chain(Par(s.dirs), parent),
                     NextId(s, FileTicket), user, size, parent)
  {
    var t := Uploaded(s, user, name, extension, date, size, parent);
    var id, up := NextId(s, FileTicket), Chain(Par(s.dirs), parent);
    UploadedRest(s, user, name, extension, date, size, parent);
    UploadedDirs(s, user, name, extension, date, size, parent);
    UploadedShape(s, t, up, parent, id, date, size);
  }

  lemma UploadedRest(s: Store, user: Id, name: string, extension: string, date: string, size: nat, parent: Id)
    requires Numbered(s) && user in s.users && parent in s.dirs
    ensures
      var t, id := Uploaded(s, user, name, extension, date, size, parent), NextId(s, FileTicket);
      && id !in s.files && t.files == s.files[id := File(name, extension, date, user, "", user, size, [], 1, parent)]
      && t.users == s.users[user := s.users[user].(quota := (s.users[user].quota + size) % WORD)]
      && t.index == s.index && t.emails == s.emails && t.nextDir == s.nextDir && t.nextUser == s.nextUser
      && t.nextFile == (s.nextFile + 1) % WORD
  {
    FreshIds(s, FileTicket);
  }

  function Listed(dirs: map<Id, Dir>, parent: Id, id: Id): map<Id, Dir>
    requires parent in dirs
  {
    dirs[parent := dirs[parent].(files := dirs[parent].files + [id])]
  }

  lemma UploadedDirs(s: Store, user: Id, name: string, extension: string, date: string, size: nat, parent: Id)
    requires user in s.users && parent in s.dirs
    ensures
      var up, listed := Chain(Par(s.dirs), parent), Listed(s.dirs, parent, NextId(s, FileTicket));
      Uploaded(s, user, name, extension, date, size, parent).dirs == Grown(Dated(listed, up, date), up, size)
  {
    var listed := Listed(s.dirs, parent, NextId(s, FileTicket));
    UploadedListed(s, user, name, extension, date, size, parent);
    RelistedPar(s.dirs, parent, s.dirs[parent].files + [NextId(s, FileTicket)]);
    ReplacedDated(listed, Par(s.dirs), parent, date, size, false, 0);
  }

  lemma UploadedListed(s: Store, user: Id, name: string, extension: string, date: string, size: nat, parent: Id)
    requires user in s.users && parent in s.dirs
    ensures
      var listed := Listed(s.dirs, parent, NextId(s, FileTicket));
      Uploaded(s, user, name, extension, date, size, parent).dirs
      == Replaced(SetDates(listed, parent, date), parent, size, false, 0)
  {
  }

  lemma ReplacedDated(dirs: map<Id, Dir>, par: Parents, at: Id, date: string, size: nat, again: bool, before: nat)
    requires Par(dirs) == par
    ensures
      var up := Chain(par, at);
      var dated := Dated(dirs, up, date);
      Replaced(SetDates(dirs, at, date), at, size, again, before)
      == Grown(if again then Grown(dated, up, 0 - before) else dated, up, size)
  {
    var up := Chain(par, at);
    DatedPar(dirs, up, date);
    ReplacedIs(Dated(dirs, up, date), par, at, size, again, before);
  }

  lemma ReplacedIs(dirs: map<Id, Dir>, par: Parents, at: Id, size: nat, again: bool, before: nat)
    requires Par(dirs) == par
    ensures
      var up := Chain(par, at);
      Replaced(dirs, at, size, again, before) == Grown(if again then Grown(dirs, up, 0 - before) else dirs, up, size)
  {
    var up := Chain(par, at);
    AddSizesIs(dirs, par, at, 0 - before);
    GrownPar(dirs, up, 0 - before);
    AddSizesIs(if again then Grown(dirs, up, 0 - before) else dirs, par, at, size);
  }

  lemma UploadedShape(s: Store, t: Store, up: set<Id>, parent: Id, id: Id, date: string, size: nat)
    requires parent in s.dirs && t.dirs == Grown(Dated(Listed(s.dirs, parent, id), up, date), up, size)
    ensures DirsStep(s, t, up, size, parent, s.dirs[parent].files + [id])
  {
    var listed := Listed(s.dirs, parent, id);
    UploadedPar(s.dirs, up, parent, id, date, size);
    forall d | d in s.dirs ensures DirStep(s, t, up, size, parent, s.dirs[parent].files + [id], d) {
      GrownAt(listed, up, size, date, d);
    }
  }

  lemma UploadedPar(dirs: map<Id, Dir>, up: set<Id>, parent: Id, id: Id, date: string, size: nat)
    requires parent in dirs
    ensures Par(Grown(Dated(Listed(dirs, parent, id), up, date), up, size)) == Par(dirs)
  {
    var listed := Listed(dirs, parent, id);
    GrownPar(Dated(listed, up, date), up, size);
    DatedPar(listed, up, date);
    assert Par(listed) == Par(dirs);
  }

  lemma GrownAt(dirs: map<Id, Dir>, up: set<Id>, delta: int, date: string, d: Id)
    requires d in dirs
    ensures
      var g := Grown(Dated(dirs, up, date), up, delta);
      d in g && g[d] == if d in up then dirs[d].(date := date, size := (dirs[d].size + delta) % WORD) else dirs[d]
  {
  }

  lemma UploadLive(s: Store, t: Store, up: set<Id>, id: Id, user: Id, size: nat, parent: Id, f: Id)
    requires IsUpload(s, t, up, id, user, size, parent) && Placed(s)
    ensures Live(t, f) <==> f == id || Live(s, f)
    ensures InTrash(t, f) <==> InTrash(s, f)
  {
    assert DirStep(s, t, up, size, parent, s.dirs[parent].files + [id], parent);
    assert ListPlaced(s, parent) && TrashPlaced(s, user);
    if f in s.files && s.files[f].parent in s.dirs {
      assert DirStep(s, t, up, size, parent, s.dirs[parent].files + [id], s.files[f].parent);
    }
  }

  lemma UploadPlaced(s: Store, t: Store, up: set<Id>, id: Id, user: Id, size: nat, parent: Id)
    requires IsUpload(s, t, up, id, user, size, parent) && Placed(s)
    ensures Placed(t)
  {
    forall f | f in t.files ensures FilePlaced(t, f) {
      UploadLive(s, t, up, id, user, size, parent, f);
      if f != id {
        assert FilePlaced(s, f);
      }
    }
    forall d | d in t.dirs ensures ListPlaced(t, d) {
      assert ListPlaced(s, d) && DirStep(s, t, up, size, parent, s.dirs[parent].files + [id], d);
    }
    forall u | u in t.users ensures TrashPlaced(t, u) {
      assert TrashPlaced(s, u);
    }
  }

  lemma UploadSymmetric(s: Store, t: Store, up: set<Id>, id: Id, user: Id, size: nat, parent: Id)
    requires IsUpload(s, t, up, id, user, size, parent) && Placed(s) && Symmetric(s)
    ensures Symmetric(t)
  {
    forall f | f in t.files ensures FileShares(t, f) {
      UploadLive(s, t, up, id, user, size, parent, f);
      if f != id {
        assert FileShares(s, f);
      }
    }
    forall u | u in t.users ensures UserShares(t, u) {
      assert UserShares(s, u);
    }
  }

  lemma UploadUnder(s: Store, t: Store, up: set<Id>, id: Id, user: Id, size: nat, parent: Id, d: Id)
    requires IsUpload(s, t, up, id, user, size, parent) && Placed(s) && up == Chain(Par(s.dirs), parent)
    ensures Under(t, d) == if d in up then Under(s, d) + {id} else Under(s, d)
  {
    forall f ensures f in Under(t, d) <==> f in Under(s, d) || (f == id && d in up) {
      UploadLive(s, t, up, id, user, size, parent, f);
    }
  }

  lemma {:induction false} UploadSized(s: Store, t: Store, g: Ledger, up: set<Id>, id: Id, user: Id, size: nat,
                                       parent: Id)
    requires IsUpload(s, t, up, id, user, size, parent) && Placed(s) && Sized(s, g) && up == Chain(Par(s.dirs), parent)
    ensures Sized(t, g)
  {
    forall d | d in t.dirs ensures SizeFits(t, g, d) {
      UploadDirSized(s, t, g, up, id, user, size, parent, d);
    }
  }

  lemma {:induction false} UploadDirSized(s: Store, t: Store, g: Ledger, up: set<Id>, id: Id, user: Id, size: nat,
                                          parent: Id, d: Id)
    requires IsUpload(s, t, up, id, user, size, parent) && Placed(s) && up == Chain(Par(s.dirs), parent)
    requires d in t.dirs && SizeFits(s, g, d)
    ensures SizeFits(t, g, d)
  {
    assert DirStep(s, t, up, size, parent, s.dirs[parent].files + [id], d);
    UploadUnder(s, t, up, id, user, size, parent, d);
    SizedPlus(s, t, g, d in up, id, d);
  }

  lemma UploadOwned(s: Store, t: Store, up: set<Id>, id: Id, user: Id, size: nat, parent: Id, u: Id)
    requires IsUpload(s, t, up, id, user, size, parent)
    ensures Sum(t.files, Owned(t, u)) == Sum(s.files, Owned(s, u)) + (if u == user then size else 0)
  {
    SumSame(s.files, t.files, Owned(s, u));
    if u == user {
      SumTake(t.files, Owned(t, u), id);
      assert Owned(t, u) - {id} == Owned(s, u);
    } else {
      assert Owned(t, u) == Owned(s, u);
    }
  }

  lemma UploadCovered(s: Store, t: Store, max: nat, up: set<Id>, id: Id, user: Id, size: nat, parent: Id)
    requires IsUpload(s, t, up, id, user, size, parent) && Covered(s, max)
    requires s.users[user].quota + size < WORD && s.users[user].quota + size <= max
    ensures Covered(t, max)
  {
    forall u | u in t.users ensures CoveredAt(t, max, u) {
      UploadOwned(s, t, up, id, user, size, parent, u);
      assert CoveredAt(s, max, u);
    }
  }

  lemma UploadMetered(s: Store, t: Store, g: Ledger, up: set<Id>, id: Id, user: Id, size: nat, parent: Id)
    requires IsUpload(s, t, up, id, user, size, parent) && Metered(s, g) && s.users[user].quota + size < WORD
    ensures Metered(t, g)
  {
    forall u | u in t.users ensures MeteredAt(t, g, u) {
      UploadOwned(s, t, up, id, user, size, parent, u);
      assert MeteredAt(s, g, u);
    }
  }

  lemma UploadExact(s: Store, t: Store, up: set<Id>, id: Id, user: Id, size: nat, parent: Id)
    requires IsUpload(s, t, up, id, user, size, parent) && Placed(s) && up == Chain(Par(s.dirs), parent)
    requires s.users[user].quota + size < WORD
    ensures StaysExact(s, t)
  {
    forall g | Exact(s, g) ensures Exact(t, g) {
      UploadSized(s, t, g, up, id, user, size, parent);
      UploadMetered(s, t, g, up, id, user, size, parent);
    }
  }

  lemma {:induction false} AnyUploadKeeps(s: Store, t: Store, max: nat, id: Id, user: Id, size: nat, parent: Id)
    requires Inv(s, max) && IsUpload(s, t, Chain(Par(s.dirs), parent), id, user, size, parent)
    requires IsNumbered(id, t.nextFile) && s.nextFile <= t.nextFile
    requires s.users[user].quota + size < WORD && s.users[user].quota + size <= max
    ensures Inv(t, max) && StaysExact(s, t)
  {
    var up := Chain(Par(s.dirs), parent);
    NumberedFrame(s, t);
    StepForest(s, t, up, size, parent, s.dirs[parent].files + [id]);
    UploadPlaced(s, t, up, id, user, size, parent);
    UploadSymmetric(s, t, up, id, user, size, parent);
    UploadCovered(s, t, max, up, id, user, size, parent);
    IndexedFrame(s, t);
    UploadExact(s, t, up, id, user, size, parent);
  }

  // The sum of the used quota and the size must fit in a word; then the check against the maximum means what it says.
  lemma UploadKeeps(s: Store, max: nat, user: Id, name: string, extension: string, date: string, size: nat, parent: Id)
    requires Inv(s, max) && user in s.users && parent in s.dirs && s.nextFile + 1 < WORD
    requires s.users[user].quota + size < WORD && s.users[user].quota + size <= max
    ensures Inv(Uploaded(s, user, name, extension, date, size, parent), max)
    ensures StaysExact(s, Uploaded(s, user, name, extension, date, size, parent))
  {
    var t := Uploaded(s, user, name, extension, date, size, parent);
    UploadedNumbered(s, t, user, name, extension, date, size, parent);
    UploadedIsUpload(s, user, name, extension, date, size, parent);
    AnyUploadKeeps(s, t, max, NextId(s, FileTicket), user, size, parent);
  }

  lemma UploadedNumbered(s: Store, t: Store, user: Id, name: string, extension: string, date: string, size: nat,
                         parent: Id)
    requires Numbered(s) && user in s.users && parent in s.dirs && s.nextFile + 1 < WORD
    requires t == Uploaded(s, user, name, extension, date, size, parent)
    ensures IsNumbered(NextId(s, FileTicket), t.nextFile) && s.nextFile <= t.nextFile
  {
    FreshIds(s, FileTicket);
    UploadedRest(s, user, name, extension, date, size, parent);
  }

  // ---------- a new upload of an existing name ----------

  ghost predicate IsRevision(s: Store, t: Store, up: set<Id>, user: Id, f: Id, size: nat, parent: Id) {
    && user in s.users && parent in s.dirs && f in s.files
    && DirsStep(s, t, up, size as int - s.files[f].size, parent, s.dirs[parent].files)
    && t.files == s.files[f := s.files[f].(revision := (s.files[f].revision + 1) % WORD)]
    && t.users == s.users[user := s.users[user].(quota := (s.users[user].quota + size) % WORD)]
    && t == s.(dirs := t.dirs, files := t.files, users := t.users)
  }

  lemma {:induction false} RevisedIsRevision(s: Store, user: Id, f: Id, date: string, size: nat, parent: Id)
    requires user in s.users && f in s.files && parent in s.dirs
    ensures IsRevision(s, Revised(s, user, f, date, size, parent), Chain(Par(s.dirs), parent), user, f, size, parent)
  {
    var up := Chain(Par(s.dirs), parent);
    RevisedDirs(s, up, user, f, date, size, parent);
    RevisedRest(s, user, f, date, size, parent);
    RevisedIs(s, Revised(s, user, f, date, size, parent), up, user, f, date, size, parent);
  }

  lemma {:induction false} RevisedDirs(s: Store, up: set<Id>, user: Id, f: Id, date: string, size: nat, parent: Id)
    requires user in s.users && f in s.files && up == Chain(Par(s.dirs), parent)
    ensures Revised(s, user, f, date, size, parent).dirs
            == Grown(Grown(Dated(s.dirs, up, date), up, 0 - s.files[f].size), up, size)
  {
    RevisedReplaced(s, user, f, date, size, parent);
    ReplacedAgain(s.dirs, Revised(s, user, f, date, size, parent).dirs, up, parent, date, size, s.files[f].size);
  }

  lemma RevisedIs(s: Store, t: Store, up: set<Id>, user: Id, f: Id, date: string, size: nat, parent: Id)
    requires user in s.users && parent in s.dirs && f in s.files
    requires t.dirs == Grown(Grown(Dated(s.dirs, up, date), up, 0 - s.files[f].size), up, size)
    requires t.files == s.files[f := s.files[f].(revision := (s.files[f].revision + 1) % WORD)]
    requires t.users == s.users[user := s.users[user].(quota := (s.users[user].quota + size) % WORD)]
    requires t == s.(dirs := t.dirs, files := t.files, users := t.users)
    ensures IsRevision(s, t, up, user, f, size, parent)
  {
    RevisedStep(s, t, up, parent, date, 0 - s.files[f].size, size, size as int - s.files[f].size);
  }

  lemma RevisedRest(s: Store, user: Id, f: Id, date: string, size: nat, parent: Id)
    requires user in s.users && f in s.files
    ensures
      var t := Revised(s, user, f, date, size, parent);
      && t.files == s.files[f := s.files[f].(revision := (s.files[f].revision + 1) % WORD)]
      && t.users == s.users[user := s.users[user].(quota := (s.users[user].quota + size) % WORD)]
      && t == s.(dirs := t.dirs, files := t.files, users := t.users)
  {
  }

  lemma ReplacedAgain(dirs: map<Id, Dir>, dirs': map<Id, Dir>, up: set<Id>, at: Id, date: string, size: nat,
                      before: nat)
    requires up == Chain(Par(dirs), at) && dirs' == Replaced(SetDates(dirs, at, date), at, size, true, before)
    ensures dirs' == Grown(Grown(Dated(dirs, up, date), up, 0 - before), up, size)
  {
    ReplacedDated(dirs, Par(dirs), at, date, size, true, before);
  }

  lemma RevisedReplaced(s: Store, user: Id, f: Id, date: string, size: nat, parent: Id)
    requires user in s.users && f in s.files
    ensures Revised(s, user, f, date, size, parent).dirs
         == Replaced(SetDates(s.dirs, parent, date), parent, size, true, s.files[f].size)
  {
  }

  lemma RevisedStep(s: Store, t: Store, up: set<Id>, parent: Id, date: string, a: int, b: int, delta: int)
    requires parent in s.dirs && t.dirs == Grown(Grown(Dated(s.dirs, up, date), up, a), up, b) && delta == a + b
    ensures DirsStep(s, t, up, delta, parent, s.dirs[parent].files)
  {
    GrownTwicePar(s.dirs, up, date, a, b);
    forall d | d in s.dirs ensures DirStep(s, t, up, delta, parent, s.dirs[parent].files, d) {
      GrownTwice(s.dirs, up, date, a, b, d);
    }
  }

  lemma GrownTwicePar(dirs: map<Id, Dir>, up: set<Id>, date: string, a: int, b: int)
    ensures Par(Grown(Grown(Dated(dirs, up, date), up, a), up, b)) == Par(dirs)
  {
    DatedPar(dirs, up, date);
    GrownPar(Dated(dirs, up, date), up, a);
    GrownPar(Grown(Dated(dirs, up, date), up, a), up, b);
  }

  lemma GrownTwice(dirs: map<Id, Dir>, up: set<Id>, date: string, a: int, b: int, d: Id)
    requires d in dirs
    ensures
      var g := Grown(Grown(Dated(dirs, up, date), up, a), up, b);
      d in g && g[d] == if d in up then dirs[d].(date := date, size := (dirs[d].size + (a + b)) % WORD) else dirs[d]
  {
    WordSum(dirs[d].size + a, b);
  }

  lemma RevisionLive(s: Store, t: Store, up: set<Id>, user: Id, f: Id, size: nat, parent: Id, g: Id)
    requires IsRevision(s, t, up, user, f, size, parent)
    ensures Live(t, g) <==> Live(s, g)
    ensures InTrash(t, g) <==> InTrash(s, g)
  {
    if g in s.files && s.files[g].parent in s.dirs {
      assert DirStep(s, t, up, size as int - s.files[f].size, parent, s.dirs[parent].files, s.files[g].parent);
    }
  }

  lemma RevisionPlaced(s: Store, t: Store, up: set<Id>, user: Id, f: Id, size: nat, parent: Id)
    requires IsRevision(s, t, up, user, f, size, parent) && Placed(s) && Symmetric(s)
    ensures Placed(t) && Symmetric(t)
  {
    forall g | g in t.files ensures FilePlaced(t, g) && FileShares(t, g) {
      RevisionLive(s, t, up, user, f, size, parent, g);
      assert FilePlaced(s, g) && FileShares(s, g);
    }
    forall d | d in t.dirs ensures ListPlaced(t, d) {
      assert ListPlaced(s, d);
      assert DirStep(s, t, up, size as int - s.files[f].size, parent, s.dirs[parent].files, d);
    }
    forall u | u in t.users ensures TrashPlaced(t, u) && UserShares(t, u) {
      assert TrashPlaced(s, u) && UserShares(s, u);
    }
  }

  lemma RevisionSums(s: Store, t: Store, up: set<Id>, user: Id, f: Id, size: nat, parent: Id)
    requires IsRevision(s, t, up, user, f, size, parent)
    ensures forall d :: Under(t, d) == Under(s, d) && Sum(t.files, Under(t, d)) == Sum(s.files, Under(s, d))
    ensures forall u :: Sum(t.files, Owned(t, u)) == Sum(s.files, Owned(s, u))
  {
    forall d ensures Under(t, d) == Under(s, d) && Sum(t.files, Under(t, d)) == Sum(s.files, Under(s, d)) {
      forall g ensures g in Under(t, d) <==> g in Under(s, d) {
        RevisionLive(s, t, up, user, f, size, parent, g);
      }
      SumSame(s.files, t.files, Under(s, d));
    }
    forall u ensures Sum(t.files, Owned(t, u)) == Sum(s.files, Owned(s, u)) {
      assert Owned(t, u) == Owned(s, u);
      SumSame(s.files, t.files, Owned(s, u));
    }
  }

  lemma RevisionSized(s: Store, t: Store, g: Ledger, up: set<Id>, user: Id, f: Id, size: nat, parent: Id)
    requires IsRevision(s, t, up, user, f, size, parent) && Sized(s, g) && parent in up
    requires size < WORD && s.files[f].size < WORD
    ensures Sized(t, g) <==> size == s.files[f].size
  {
    var delta := size as int - s.files[f].size;
    RevisionSums(s, t, up, user, f, size, parent);
    if delta == 0 {
      forall d | d in t.dirs ensures SizeFits(t, g, d) {
        RevisionDirSized(s, t, g, up, user, f, size, parent, d);
      }
    } else {
      RevisionDirSized(s, t, g, up, user, f, size, parent, parent);
      assert !SizeFits(t, g, parent);
    }
  }

  lemma {:induction false} RevisionDirSized(s: Store, t: Store, g: Ledger, up: set<Id>, user: Id, f: Id, size: nat,
                                            parent: Id, d: Id)
    requires IsRevision(s, t, up, user, f, size, parent) && Sized(s, g) && d in t.dirs
    requires size < WORD && s.files[f].size < WORD
    requires Sum(t.files, Under(t, d)) == Sum(s.files, Under(s, d))
    ensures SizeFits(t, g, d) <==> d !in up || size == s.files[f].size
  {
    var delta := size as int - s.files[f].size;
    assert SizeFits(s, g, d) && DirStep(s, t, up, delta, parent, s.dirs[parent].files, d);
    DirStepFits(s, t, g, up, delta, parent, s.dirs[parent].files, d);
  }

  lemma DirStepFits(s: Store, t: Store, g: Ledger, up: set<Id>, delta: int, home: Id, list: seq<Id>, d: Id)
    requires d in s.dirs && d in t.dirs && -WORD < delta < WORD
    requires DirStep(s, t, up, delta, home, list, d) && SizeFits(s, g, d)
    requires Sum(t.files, Under(t, d)) == Sum(s.files, Under(s, d))
    ensures SizeFits(t, g, d) <==> d !in up || delta == 0
  {
    SameWord(s.dirs[d].size, t.dirs[d].size, Sum(s.files, Under(s, d)) + Entry(g.dirs, d), d in up, delta);
  }

  lemma SameWord(before: nat, after: nat, sum: int, changed: bool, delta: int)
    requires before == sum % WORD && -WORD < delta < WORD
    requires after == if changed then (before + delta) % WORD else before
    ensures after == sum % WORD <==> !changed || delta == 0
  {
  }

  // The entries for an upload that replaces a file of the recorded size `before`: the directories on the way up got
  // the difference and the quota of the user all of it.
  function Replacing(g: Ledger, up: set<Id>, user: Id, size: nat, before: nat): Ledger {
    Ledger(map d | d in g.dirs.Keys + up :: Entry(g.dirs, d) + (if d in up then size as int - before else 0),
           g.users[user := Entry(g.users, user) + size])
  }

  lemma RevisionExact(s: Store, t: Store, g: Ledger, up: set<Id>, user: Id, f: Id, size: nat, parent: Id)
    requires IsRevision(s, t, up, user, f, size, parent) && Numbered(s) && up <= s.dirs.Keys && Exact(s, g)
    requires t.users[user].quota == s.users[user].quota + size
    ensures Exact(t, Replacing(g, up, user, size, s.files[f].size))
  {
    var h := Replacing(g, up, user, size, s.files[f].size);
    RevisionSums(s, t, up, user, f, size, parent);
    forall d | d in t.dirs ensures SizeFits(t, h, d) {
      RevisionFits(s, t, g, h, up, user, f, size, parent, d);
    }
    forall u | u in t.users ensures MeteredAt(t, h, u) {
      assert MeteredAt(s, g, u);
    }
    RevisionBooked(s, t, g, up, user, size, s.files[f].size);
  }

  lemma RevisionFits(s: Store, t: Store, g: Ledger, h: Ledger, up: set<Id>, user: Id, f: Id, size: nat, parent: Id,
                     d: Id)
    requires IsRevision(s, t, up, user, f, size, parent) && Sized(s, g) && d in t.dirs
    requires h == Replacing(g, up, user, size, s.files[f].size)
    requires Sum(t.files, Under(t, d)) == Sum(s.files, Under(s, d))
    ensures SizeFits(t, h, d)
  {
    var delta := size as int - s.files[f].size;
    assert SizeFits(s, g, d) && DirStep(s, t, up, delta, parent, s.dirs[parent].files, d);
    Shifted(s, t, g, h, d, if d in up then delta else 0);
  }

  lemma RevisionBooked(s: Store, t: Store, g: Ledger, up: set<Id>, user: Id, size: nat, before: nat)
    requires Numbered(s) && up <= s.dirs.Keys && user in s.users && Booked(s, g)
    requires t.nextDir == s.nextDir && t.nextUser == s.nextUser
    ensures Booked(t, Replacing(g, up, user, size, before))
  {
    assert IsNumbered(user, s.nextUser);
    forall d | d in Replacing(g, up, user, size, before).dirs ensures Val(d) < t.nextDir {
      assert d in up ==> IsNumbered(d, s.nextDir);
    }
  }

  // A new upload of an existing name keeps the invariants exactly if the sum that is checked against the maximum does
  // not wrap around, or wraps to a quota that still covers what the user owns. Without a wrap-around what it adds goes
  // into the ledger, for the record keeps its size.
  lemma {:induction false} RevisedKeeps(s: Store, max: nat, user: Id, f: Id, date: string, size: nat, parent: Id)
    requires Inv(s, max) && user in s.users && f in s.files && parent in s.dirs && max < WORD && size < WORD
    requires (s.users[user].quota + size) % WORD <= max
    ensures
      var sum := s.users[user].quota + size;
      Inv(Revised(s, user, f, date, size, parent), max) <==> sum < WORD || Sum(s.files, Owned(s, user)) + WORD <= sum
    ensures s.users[user].quota + size < WORD ==>
              Rebooked(s, Revised(s, user, f, date, size, parent), Chain(Par(s.dirs), parent), user, size,
                       s.files[f].size)
  {
    var t, up := RevisedStore(s, user, f, date, size, parent);
    RevisionKeeps(s, t, max, up, user, f, size, parent);
    if s.users[user].quota + size < WORD {
      RevisionRebooked(s, t, max, up, user, f, size, parent);
    }
  }

  lemma RevisedStore(s: Store, user: Id, f: Id, date: string, size: nat, parent: Id) returns (t: Store, up: set<Id>)
    requires user in s.users && f in s.files && parent in s.dirs
    ensures t == Revised(s, user, f, date, size, parent) && up == Chain(Par(s.dirs), parent)
    ensures IsRevision(s, t, up, user, f, size, parent)
  {
    RevisedIsRevision(s, user, f, date, size, parent);
    t, up := Revised(s, user, f, date, size, parent), Chain(Par(s.dirs), parent);
  }

  lemma RevisionKeeps(s: Store, t: Store, max: nat, up: set<Id>, user: Id, f: Id, size: nat, parent: Id)
    requires Inv(s, max) && IsRevision(s, t, up, user, f, size, parent) && max < WORD && size < WORD
    requires (s.users[user].quota + size) % WORD <= max
    ensures
      var sum := s.users[user].quota + size;
      Inv(t, max) <==> sum < WORD || Sum(s.files, Owned(s, user)) + WORD <= sum
  {
    RevisionFrame(s, t, max, up, user, f, size, parent);
    assert CoveredAt(s, max, user);
    WrappedOnce(s.users[user].quota, size, Sum(s.files, Owned(s, user)));
  }

  // All that an upload of an existing name may break is that the quota covers what the user owns.
  lemma RevisionFrame(s: Store, t: Store, max: nat, up: set<Id>, user: Id, f: Id, size: nat, parent: Id)
    requires Inv(s, max) && IsRevision(s, t, up, user, f, size, parent)
    requires (s.users[user].quota + size) % WORD <= max
    ensures Inv(t, max) <==> Sum(s.files, Owned(s, user)) <= (s.users[user].quota + size) % WORD
  {
    NumberedFrame(s, t);
    StepForest(s, t, up, size as int - s.files[f].size, parent, s.dirs[parent].files);
    RevisionPlaced(s, t, up, user, f, size, parent);
    RevisionSums(s, t, up, user, f, size, parent);
    IndexedFrame(s, t);
    RevisionCovered(s, t, max, up, user, f, size, parent);
  }

  lemma WrappedOnce(a: nat, b: nat, least: nat)
    requires a < WORD && b < WORD && least <= a
    ensures least <= (a + b) % WORD <==> a + b < WORD || least + WORD <= a + b
  {
    assert (a + b) % WORD == if a + b < WORD then a + b else a + b - WORD;
  }

  // The ledger with the entries for the upload is right; the ledger as it was is right about directories only for an
  // upload of the recorded size, and about quotas only for an empty one.
  ghost predicate Rebooked(s: Store, t: Store, up: set<Id>, user: Id, size: nat, before: nat) {
    forall g {:trigger Exact(s, g)} :: Exact(s, g) ==>
      && Exact(t, Replacing(g, up, user, size, before))
      && (Sized(t, g) <==> size == before) && (Metered(t, g) <==> size == 0)
  }

  lemma RevisionRebooked(s: Store, t: Store, max: nat, up: set<Id>, user: Id, f: Id, size: nat, parent: Id)
    requires Inv(s, max) && IsRevision(s, t, up, user, f, size, parent) && up == Chain(Par(s.dirs), parent)
             && max < WORD
    requires s.users[user].quota + size < WORD
    ensures Rebooked(s, t, up, user, size, s.files[f].size)
  {
    forall g | Exact(s, g)
      ensures Exact(t, Replacing(g, up, user, size, s.files[f].size))
      ensures (Sized(t, g) <==> size == s.files[f].size) && (Metered(t, g) <==> size == 0)
    {
      RevisionAccounts(s, t, g, max, up, user, f, size, parent);
    }
  }

  lemma RevisionAccounts(s: Store, t: Store, g: Ledger, max: nat, up: set<Id>, user: Id, f: Id, size: nat, parent: Id)
    requires Inv(s, max) && IsRevision(s, t, up, user, f, size, parent) && up == Chain(Par(s.dirs), parent)
             && max < WORD
    requires s.users[user].quota + size < WORD && Exact(s, g)
    ensures Exact(t, Replacing(g, up, user, size, s.files[f].size))
    ensures (Sized(t, g) <==> size == s.files[f].size) && (Metered(t, g) <==> size == 0)
  {
    FileSizeCovered(s, max, f);
    ChainSelf(Par(s.dirs), parent);
    ChainThere(s.dirs, parent);
    RevisionSized(s, t, g, up, user, f, size, parent);
    RevisionMetered(s, t, g, up, user, f, size, parent);
    RevisionExact(s, t, g, up, user, f, size, parent);
  }

  lemma ChainThere(dirs: map<Id, Dir>, d: Id)
    ensures Chain(Par(dirs), d) <= dirs.Keys
  {
    forall x | x in Chain(Par(dirs), d) ensures x in dirs {
      ChainRank(Par(dirs), d, x);
    }
  }

  lemma RevisionMetered(s: Store, t: Store, g: Ledger, up: set<Id>, user: Id, f: Id, size: nat, parent: Id)
    requires IsRevision(s, t, up, user, f, size, parent) && Metered(s, g)
    requires t.users[user].quota == s.users[user].quota + size
    ensures Metered(t, g) <==> size == 0
  {
    RevisionSums(s, t, up, user, f, size, parent);
    forall u | u in t.users ensures MeteredAt(t, g, u) <==> u != user || size == 0 {
      assert MeteredAt(s, g, u);
    }
    if Metered(t, g) {
      assert MeteredAt(t, g, user);
    }
  }

  lemma RevisionCovered(s: Store, t: Store, max: nat, up: set<Id>, user: Id, f: Id, size: nat, parent: Id)
    requires Covered(s, max) && IsRevision(s, t, up, user, f, size, parent)
    requires (s.users[user].quota + size) % WORD <= max
    requires forall u :: Sum(t.files, Owned(t, u)) == Sum(s.files, Owned(s, u))
    ensures Covered(t, max) <==> Sum(s.files, Owned(s, user)) <= (s.users[user].quota + size) % WORD
  {
    forall u | u in t.users
      ensures CoveredAt(t, max, u) <==>
                u != user || Sum(s.files, Owned(s, user)) <= (s.users[user].quota + size) % WORD
    {
      assert CoveredAt(s, max, u);
    }
    assert Covered(t, max) ==> CoveredAt(t, max, user);
  }

  // A recorded size is at most the maximal quota.
  lemma FileSizeCovered(s: Store, max: nat, f: Id)
    requires Placed(s) && Covered(s, max) && f in s.files
    ensures s.files[f].owner in s.users && s.files[f].size <= s.users[s.files[f].owner].quota <= max
  {
    assert FilePlaced(s, f) && CoveredAt(s, max, s.files[f].owner);
    SumTake(s.files, Owned(s, s.files[f].owner), f);
  }
}
