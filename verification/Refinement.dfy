/** How the requests' effects come about step by step: one record at a time, up the chain of parents and down
    the tree of children. */
module Refinement {
  import opened Basics
  import opened Text
  import opened Keys
  import opened Records
  import opened DataHandlers
  import opened Drive
  import opened Tree
  import opened Invariants
  import opened KeepFiles
  import opened KeepMany

  // ---------- up the chain of parents ----------

  // Every directory on the way up from d has an existing parent with a smaller id, or none.
  ghost predicate Ascends(dirs: map<Id, Dir>, d: Id) {
    forall x {:trigger Climbs(Par(dirs), x)} :: x in Chain(Par(dirs), d) ==> x in dirs && Climbs(Par(dirs), x)
  }

  lemma RootedAscends(dirs: map<Id, Dir>, d: Id)
    requires Rooted(Par(dirs))
    ensures Ascends(dirs, d)
  {
    forall x | x in Chain(Par(dirs), d) ensures x in dirs && Climbs(Par(dirs), x) {
      ChainRank(Par(dirs), d, x);
    }
  }

  lemma AscendsUp(dirs: map<Id, Dir>, d: Id)
    requires Ascends(dirs, d) && d in dirs && dirs[d].parent != NO_PARENT
    ensures
      var p := dirs[d].parent;
      && p in dirs && Val(p) < Val(d) && Ascends(dirs, p) && d !in Chain(Par(dirs), p)
      && Chain(Par(dirs), d) == {d} + Chain(Par(dirs), p)
  {
    var par, p := Par(dirs), dirs[d].parent;
    assert d in Chain(par, d) && Climbs(par, d);
    assert Chain(par, d) == {d} + Chain(par, p);
    if d in Chain(par, p) {
      ChainRank(par, p, d);
    }
  }

  // A change to every directory on the way up is the change further up followed by the change to d itself.
  lemma AddSizesClimb(dirs: map<Id, Dir>, d: Id, delta: int)
    requires Ascends(dirs, d) && d in dirs
    ensures
      var up := if dirs[d].parent == NO_PARENT then dirs else AddSizes(dirs, dirs[d].parent, delta);
      && d in up && up[d] == dirs[d]
      && AddSizes(dirs, d, delta) == up[d := dirs[d].(size := (dirs[d].size + delta) % WORD)]
  {
    if dirs[d].parent != NO_PARENT {
      AscendsUp(dirs, d);
      GrownMore(dirs, Chain(Par(dirs), dirs[d].parent), d, delta);
    } else {
      assert Chain(Par(dirs), d) == {d};
      GrownNone(dirs, delta);
      GrownMore(dirs, {}, d, delta);
    }
  }

  lemma GrownNone(dirs: map<Id, Dir>, delta: int)
    ensures Grown(dirs, {}, delta) == dirs
  {
  }

  lemma GrownMore(dirs: map<Id, Dir>, up: set<Id>, d: Id, delta: int)
    requires d in dirs && d !in up
    ensures Grown(dirs, up, delta)[d] == dirs[d]
    ensures Grown(dirs, {d} + up, delta) == Grown(dirs, up, delta)[d := dirs[d].(size := (dirs[d].size + delta) % WORD)]
  {
  }

  // The directories after the recursion into the parent.
  ghost function AboveGrown(s: Store, d: Id, delta: int): Store
    requires d in s.dirs
  {
    if s.dirs[d].parent == NO_PARENT then s else s.(dirs := AddSizes(s.dirs, s.dirs[d].parent, delta))
  }

  // n bytes less in d and all directories above it.
  ghost function Shrunk(s: Store, d: Id, n: nat): Store {
    s.(dirs := AddSizes(s.dirs, d, 0 - n))
  }

  lemma NothingShrunk(s: Store, d: Id, n: nat)
    requires d !in s.dirs
    ensures Shrunk(s, d, n) == s
  {
    NothingAbove(s.dirs, d, 0 - n, "");
  }

  lemma GrowSelf(s: Store, t: Store, d: Id, delta: int, i: DirInfo, size: string)
    requires Ascends(s.dirs, d) && d in s.dirs && t == AboveGrown(s, d, delta) && ReadDir(i) == s.dirs[d]
    requires Val(size) == (s.dirs[d].size + delta) % WORD
    ensures d in t.dirs
    ensures t.(dirs := t.dirs[d := t.dirs[d].(name := i.name, date := i.date, tags := i.tags, size := Val(size))])
         == s.(dirs := AddSizes(s.dirs, d, delta))
  {
    AddSizesClimb(s.dirs, d, delta);
  }

  lemma ShrinkSelf(s: Store, t: Store, d: Id, i: DirInfo, size: string)
    requires Ascends(s.dirs, d) && d in s.dirs && ReadDir(i) == s.dirs[d]
    requires t == if s.dirs[d].parent == NO_PARENT then s else Shrunk(s, s.dirs[d].parent, Val(size))
    ensures d in t.dirs
    ensures t.(dirs := t.dirs[d := t.dirs[d].(name := i.name, date := i.date, tags := i.tags,
                                              size := Val(Minus(i.size, size)))])
         == Shrunk(s, d, Val(size))
  {
    MinusWord(i.size, size);
    GrowSelf(s, t, d, 0 - Val(size) as int, i, Minus(i.size, size));
  }

  lemma MinusWord(a: string, b: string)
    ensures Val(Minus(a, b)) == (Val(a) + (0 - Val(b) as int)) % WORD
  {
  }

  lemma SetDatesClimb(dirs: map<Id, Dir>, d: Id, date: string)
    requires Ascends(dirs, d) && d in dirs
    ensures
      var up := if dirs[d].parent == NO_PARENT then dirs else SetDates(dirs, dirs[d].parent, date);
      && d in up && up[d] == dirs[d]
      && SetDates(dirs, d, date) == up[d := dirs[d].(date := date)]
  {
    if dirs[d].parent != NO_PARENT {
      AscendsUp(dirs, d);
      DatedMore(dirs, Chain(Par(dirs), dirs[d].parent), d, date);
    } else {
      assert Chain(Par(dirs), d) == {d};
      DatedNone(dirs, date);
      DatedMore(dirs, {}, d, date);
    }
  }

  lemma DatedNone(dirs: map<Id, Dir>, date: string)
    ensures Dated(dirs, {}, date) == dirs
  {
  }

  lemma DatedMore(dirs: map<Id, Dir>, up: set<Id>, d: Id, date: string)
    requires d in dirs && d !in up
    ensures Dated(dirs, up, date)[d] == dirs[d]
    ensures Dated(dirs, {d} + up, date) == Dated(dirs, up, date)[d := dirs[d].(date := date)]
  {
  }

  // A directory that does not exist has nothing above it.
  lemma NothingAbove(dirs: map<Id, Dir>, d: Id, delta: int, date: string)
    requires d !in dirs
    ensures AddSizes(dirs, d, delta) == dirs && SetDates(dirs, d, date) == dirs
  {
    GrownNone(dirs, delta);
    DatedNone(dirs, date);
  }

  // Sizes and dates do not matter to the climb.
  lemma SameParAscends(dirs: map<Id, Dir>, dirs': map<Id, Dir>, d: Id)
    requires Par(dirs') == Par(dirs) && Ascends(dirs, d)
    ensures Ascends(dirs', d)
  {
    assert dirs'.Keys == Par(dirs').Keys == Par(dirs).Keys == dirs.Keys;
    forall x | x in Chain(Par(dirs'), d) ensures x in dirs' && Climbs(Par(dirs'), x) {
      ChainRank(Par(dirs), d, x);
      assert Climbs(Par(dirs), x);
    }
  }

  lemma FileAddedAscends(s: Store, owner: Id, name: string, extension: string, date: string, size: nat, parent: Id)
    requires parent in s.dirs && Ascends(s.dirs, parent)
    ensures
      var t := FileAdded(s, owner, name, extension, date, size, parent);
      parent in t.dirs && Ascends(t.dirs, parent)
  {
    var t := FileAdded(s, owner, name, extension, date, size, parent);
    assert t.dirs.Keys == s.dirs.Keys;
    assert Par(t.dirs) == Par(s.dirs);
    SameParAscends(s.dirs, t.dirs, parent);
  }

  // Sizes and dates leave the way up from a directory as it is.
  lemma DatedAscends(dirs: map<Id, Dir>, at: Id, date: string)
    requires Ascends(dirs, at)
    ensures SetDates(dirs, at, date).Keys == dirs.Keys && Ascends(SetDates(dirs, at, date), at)
  {
    DatedPar(dirs, Chain(Par(dirs), at), date);
    SameParAscends(dirs, SetDates(dirs, at, date), at);
  }

  lemma GrownAscends(dirs: map<Id, Dir>, at: Id, delta: int)
    requires Ascends(dirs, at)
    ensures AddSizes(dirs, at, delta).Keys == dirs.Keys && Ascends(AddSizes(dirs, at, delta), at)
  {
    GrownPar(dirs, Chain(Par(dirs), at), delta);
    SameParAscends(dirs, AddSizes(dirs, at, delta), at);
  }

  // The new directory is not on the way up from its parent.
  lemma AddedAscends(s: Store, owner: Id, name: string, date: string, parent: Id)
    requires Rooted(Par(s.dirs)) && NextId(s, DirTicket) !in s.dirs
             && DirectoryAdded(s, owner, name, date, parent).1 == Done
    ensures Ascends(DirectoryAdded(s, owner, name, date, parent).0.dirs, parent)
  {
    var t, id := DirectoryAdded(s, owner, name, date, parent).0, NextId(s, DirTicket);
    var par := Par(s.dirs);
    ToStrRoundTrip(s.nextDir);
    assert !IsDigit(NO_PARENT[0]);
    if parent in s.dirs {
      assert Par(t.dirs) == par[id := parent];
      LeafAscends(s.dirs, t.dirs, id, parent);
    } else {
      assert parent == NO_PARENT && parent !in s.dirs && parent !in t.dirs;
      NothingOnTop(t.dirs, parent);
    }
  }

  lemma NothingOnTop(dirs: map<Id, Dir>, d: Id)
    requires d !in dirs
    ensures Ascends(dirs, d)
  {
    assert Chain(Par(dirs), d) == {};
  }

  lemma LeafAscends(dirs: map<Id, Dir>, dirs': map<Id, Dir>, id: Id, parent: Id)
    requires Rooted(Par(dirs)) && id !in dirs && parent in dirs && Par(dirs') == Par(dirs)[id := parent]
    ensures Ascends(dirs', parent)
  {
    var par, par' := Par(dirs), Par(dirs');
    assert dirs'.Keys == par'.Keys == dirs.Keys + {id};
    forall x | x in Chain(par, parent) ensures x in dirs && x in par' && Climbs(par', x) {
      ChainRank(par, parent, x);
      assert Climbs(par, x);
    }
    ChainFrame(par, par', parent);
  }

  // ---------- unsharing from many users ----------

  ghost function UnsharedUsers(users: map<Id, User>, f: Id, us: seq<Id>): map<Id, User> {
    map u | u in users :: users[u].(shared := if u in us then Remove(users[u].shared, f) else users[u].shared)
  }

  // The file f is shared with list, and users are the users.
  ghost function Relisting(s: Store, f: Id, users: map<Id, User>, list: seq<Id>, date: string): Store
    requires f in s.files
  {
    s.(users := users, files := s.files[f := s.files[f].(users := list, date := date, modifier := s.files[f].owner)])
  }

  // The file f is unshared from all of us.
  ghost function Cleared(s: Store, f: Id, us: seq<Id>, date: string): Store
    requires f in s.files
  {
    if us == [] then s
    else Relisting(s, f, UnsharedUsers(s.users, f, us), Select(s.files[f].users, us, false), date)
  }

  lemma {:induction false} UnshareEachClears(s: Store, user: Id, f: Id, us: seq<Id>, date: string)
    requires f in s.files && s.files[f].owner == user && forall u :: u in us ==> u in s.users
    ensures UnshareEach(s, user, f, us, date) == (Cleared(s, f, us, date), Done)
    decreases |us|
  {
    if us != [] {
      assert us == [us[0]] + us[1..];
      UnshareEachClears(Unshared(s, f, us[0], date), user, f, us[1..], date);
      ClearedOneMore(s, f, us, date);
    }
  }

  lemma ClearedOneMore(s: Store, f: Id, us: seq<Id>, date: string)
    requires f in s.files && us != [] && us[0] in s.users
    ensures Cleared(Unshared(s, f, us[0], date), f, us[1..], date) == Cleared(s, f, us, date)
  {
    SelectRemove(s.files[f].users, us);
    UnsharedUsersOneMore(s.users, f, us);
    if us[1..] == [] {
      SelectNone(Remove(s.files[f].users, us[0]));
      UnsharedUsersNone(UnsharedOne(s.users, f, us[0]), f);
      UnsharedRelists(s, f, us[0], date);
    } else {
      RelistedTwice(s, f, us[0], UnsharedUsers(s.users, f, us), Select(s.files[f].users, us, false), date);
    }
  }

  lemma UnsharedRelists(s: Store, f: Id, u: Id, date: string)
    requires f in s.files && u in s.users
    ensures Unshared(s, f, u, date)
         == Relisting(s, f, UnsharedOne(s.users, f, u), Remove(s.files[f].users, u), date)
  {
  }

  // The second change overwrites the first.
  lemma RelistedTwice(s: Store, f: Id, u: Id, users: map<Id, User>, list: seq<Id>, date: string)
    requires f in s.files && u in s.users
    ensures Relisting(Unshared(s, f, u, date), f, users, list, date) == Relisting(s, f, users, list, date)
    ensures Unshared(s, f, u, date).users == UnsharedOne(s.users, f, u)
    ensures Unshared(s, f, u, date).files[f].users == Remove(s.files[f].users, u)
  {
  }

  ghost function UnsharedOne(users: map<Id, User>, f: Id, u: Id): map<Id, User>
    requires u in users
  {
    users[u := users[u].(shared := Remove(users[u].shared, f))]
  }

  lemma UnsharedUsersNone(users: map<Id, User>, f: Id)
    ensures UnsharedUsers(users, f, []) == users
  {
  }

  lemma UnsharedUsersOneMore(users: map<Id, User>, f: Id, us: seq<Id>)
    requires us != [] && us[0] in users
    ensures UnsharedUsers(UnsharedOne(users, f, us[0]), f, us[1..]) == UnsharedUsers(users, f, us)
  {
    assert us == [us[0]] + us[1..];
    RemoveAbsent(Remove(users[us[0]].shared, f), f);
  }

  // ---------- moving a file to the trash ----------

  // What the deletion of a file needs: its shares are with existing users, and its directory can be climbed from.
  ghost predicate Deletable(s: Store, f: Id) {
    f in s.files ==>
      IsKey(f) && (forall u :: u in s.files[f].users ==> u in s.users) && Ascends(s.dirs, s.files[f].parent)
  }

  // The file is listed in the trash and no longer in its directory.
  ghost function Relisted(s: Store, f: Id): Store
    requires f in s.files && s.files[f].owner in s.users && s.files[f].parent in s.dirs
  {
    var o, p := s.files[f].owner, s.files[f].parent;
    Delisted(WithTrash(s, o, s.users[o].deleted + [f]), p, f)
  }

  ghost function Delisted(s: Store, d: Id, f: Id): Store
    requires d in s.dirs
  {
    s.(dirs := s.dirs[d := s.dirs[d].(files := Remove(s.dirs[d].files, f))])
  }

  lemma {:induction false} TrashedInSteps(s: Store, f: Id)
    requires f in s.files && s.files[f].owner in s.users && s.files[f].parent in s.dirs && Deletable(s, f)
    ensures
      var file := s.files[f];
      var t := Cleared(Relisted(s, f), f, file.users, file.date);
      && UnshareEach(Relisted(s, f), file.owner, f, file.users, file.date) == (t, Done)
      && Shrunk(t, file.parent, file.size) == Trashed(s, f)
      && file.parent in t.dirs && Ascends(t.dirs, file.parent)
  {
    var file := s.files[f];
    var t := Cleared(Relisted(s, f), f, file.users, file.date);
    UnshareEachClears(Relisted(s, f), file.owner, f, file.users, file.date);
    RelistedUsers(s, f);
    RelistedDirs(s, f);
    RelistedFile(s, f);
    SameParAscends(s.dirs, t.dirs, file.parent);
  }

  lemma RelistedFile(s: Store, f: Id)
    requires f in s.files && s.files[f].owner in s.users && s.files[f].parent in s.dirs
    ensures
      var file := s.files[f];
      Cleared(Relisted(s, f), f, file.users, file.date).files == Trashed(s, f).files
  {
    SelectAll(s.files[f].users, s.files[f].users);
  }

  lemma RelistedDirs(s: Store, f: Id)
    requires f in s.files && s.files[f].owner in s.users && s.files[f].parent in s.dirs
    ensures
      var file := s.files[f];
      var t := Cleared(Relisted(s, f), f, file.users, file.date);
      && t.dirs == s.dirs[file.parent := s.dirs[file.parent].(files := Remove(s.dirs[file.parent].files, f))]
      && Par(t.dirs) == Par(s.dirs)
  {
  }

  lemma RelistedUsers(s: Store, f: Id)
    requires f in s.files && s.files[f].owner in s.users && s.files[f].parent in s.dirs
    ensures
      var t := Cleared(Relisted(s, f), f, s.files[f].users, s.files[f].date);
      t.users == Trashed(s, f).users
  {
    UnsharedUsersNone(Relisted(s, f).users, f);
  }

  // ---------- purging and recovering from a list ----------

  ghost predicate Purgeable(s: Store, fs: seq<Id>) {
    NoDup(fs) && forall f :: f in fs ==> f in s.files && s.files[f].owner in s.users
  }

  lemma {:induction false} PurgeAllRest(s: Store, fs: seq<Id>)
    requires Purgeable(s, fs)
    ensures
      var t := PurgeAll(s, fs);
      && t.users.Keys == s.users.Keys
      && (forall f :: f in s.files && f !in fs ==> f in t.files && t.files[f] == s.files[f])
  {
    if fs != [] {
      var init := fs[..|fs| - 1];
      assert fs == init + [fs[|fs| - 1]];
      PurgeAllRest(s, init);
    }
  }

  // The next file is still there, and purging it is one more step.
  lemma PurgeNext(s: Store, fs: seq<Id>, i: nat)
    requires Purgeable(s, fs) && i < |fs|
    ensures
      var t := PurgeAll(s, fs[..i]);
      && fs[i] in t.files && t.files[fs[i]].owner in t.users && PurgeAll(s, fs[..i + 1]) == Purged(t, fs[i])
  {
    assert fs[..i + 1][..i] == fs[..i];
    assert fs[i] !in fs[..i];
    assert fs[i] in fs;
    forall f | f in fs[..i] ensures f in fs {
    }
    PurgeAllRest(s, fs[..i]);
  }

  ghost function Repaid(s: Store, owner: Id, size: string): Store
    requires owner in s.users
  {
    WithQuota(s, owner, 0 - Val(size) as int)
  }

  lemma RepaidAs(s: Store, u: Id, i: UserInfo, size: string)
    requires u in s.users && ReadUser(i) == s.users[u]
    ensures UserModified(s, u, i.email, i.name, i.location, Split(i.shared), Val(Minus(i.quota, size)),
                         Split(i.deleted))
         == Repaid(s, u, size)
  {
    MinusWord(i.quota, size);
    QuotaOnly(s, u, Val(Minus(i.quota, size)));
  }

  lemma QuotaOnly(s: Store, u: Id, quota: nat)
    requires u in s.users
    ensures
      var a := s.users[u];
      UserModified(s, u, a.email, a.name, a.location, a.shared, quota, a.deleted)
      == s.(users := s.users[u := a.(quota := quota)])
  {
  }

  lemma PurgedInSteps(s: Store, t: Store, f: Id, i: FileInfo)
    requires f in s.files && ReadFile(i) == s.files[f] && i.owner in s.users && t == s.(files := s.files - {f})
    ensures Repaid(t, i.owner, i.size) == Purged(s, f)
  {
  }

  lemma ReplacedInSteps(s: Store, t: Store, r: Store, parent: Id, size: nat, again: bool, before: nat)
    requires t == if again then Shrunk(s, parent, before) else s
    requires r == t.(dirs := AddSizes(t.dirs, parent, size))
    ensures r == s.(dirs := Replaced(s.dirs, parent, size, again, before))
  {
  }

  ghost predicate Restorable(s: Store, root: Id, fs: seq<Id>) {
    && Rooted(Par(s.dirs)) && root in s.dirs && forall f :: f in fs ==> f in s.files && IsKey(f)
  }

  lemma {:induction false} RestoreAllRest(s: Store, root: Id, fs: seq<Id>)
    ensures
      var t := RestoreAll(s, root, fs);
      Par(t.dirs) == Par(s.dirs) && t.dirs.Keys == s.dirs.Keys && t.files.Keys == s.files.Keys && t.users == s.users
  {
    if fs != [] {
      var init := fs[..|fs| - 1];
      RestoreAllRest(s, root, init);
      RestoredRest(RestoreAll(s, root, init), root, fs[|fs| - 1]);
    }
  }

  lemma RestoredRest(s: Store, root: Id, f: Id)
    ensures
      var t := Restored(s, root, f);
      Par(t.dirs) == Par(s.dirs) && t.dirs.Keys == s.dirs.Keys && t.files.Keys == s.files.Keys && t.users == s.users
  {
  }

  lemma RestoreNext(s: Store, root: Id, fs: seq<Id>, i: nat)
    requires Restorable(s, root, fs) && i < |fs|
    ensures
      var t := RestoreAll(s, root, fs[..i]);
      && fs[i] in t.files && IsKey(fs[i]) && root in t.dirs && Rooted(Par(t.dirs))
      && RestoreAll(s, root, fs[..i + 1]) == Restored(t, root, fs[i])
  {
    assert fs[..i + 1][..i] == fs[..i];
    assert fs[i] in fs;
    RestoreAllRest(s, root, fs[..i]);
  }

  // A file put into the list of its home, before the sizes follow.
  ghost function PutBack(s: Store, root: Id, f: Id): Store
    requires f in s.files && root in s.dirs
  {
    var file := s.files[f];
    var home := if file.parent in s.dirs then file.parent else root;
    s.(files := if file.parent in s.dirs then s.files else s.files[f := file.(parent := root, modifier := file.owner)],
       dirs := s.dirs[home := s.dirs[home].(files := Insert(s.dirs[home].files, f))])
  }

  lemma PutBackAscends(s: Store, root: Id, f: Id)
    requires f in s.files && root in s.dirs && Rooted(Par(s.dirs))
    ensures
      var home := if s.files[f].parent in s.dirs then s.files[f].parent else root;
      home in PutBack(s, root, f).dirs && Ascends(PutBack(s, root, f).dirs, home)
  {
    var home := if s.files[f].parent in s.dirs then s.files[f].parent else root;
    assert Par(PutBack(s, root, f).dirs) == Par(s.dirs);
    RootedAscends(s.dirs, home);
    SameParAscends(s.dirs, PutBack(s, root, f).dirs, home);
  }

  // What the requests on the trash need, from the invariants.
  lemma TrashReady(s: Store, max: nat, user: Id, ids: seq<Id>)
    requires Inv(s, max) && user in s.users && AllTrashOf(s, user, ids)
    ensures Purgeable(s, ids) && Restorable(s, s.users[user].root, ids)
  {
    assert TrashPlaced(s, user) && RootThere(s, user);
    forall f | f in ids ensures f in s.files && s.files[f].owner in s.users && IsKey(f) {
      assert IsNumbered(f, s.nextFile);
      NumberIsKey(f);
    }
  }

  lemma NumberIsKey(id: Id)
    requires IsId(id)
    ensures IsKey(id)
  {
    ToStrRoundTrip(Val(id));
  }
}
