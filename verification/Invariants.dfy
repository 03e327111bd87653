/** What holds of the store in every run. */
module Invariants {
  import opened Basics
  import opened Text
  import opened Records
  import opened Drive
  import opened Tree

  // ---------- sums of recorded sizes ----------

  ghost function Sum(files: map<Id, File>, fs: set<Id>): nat {
    if fs == {} then 0
    else
      var f :| f in fs;
      (if f in files then files[f].size else 0) + Sum(files, fs - {f})
  }

  lemma {:induction false} SumTake(files: map<Id, File>, fs: set<Id>, g: Id)
    requires g in fs
    ensures Sum(files, fs) == (if g in files then files[g].size else 0) + Sum(files, fs - {g})
    decreases fs
  {
    var h :| h in fs && Sum(files, fs) == (if h in files then files[h].size else 0) + Sum(files, fs - {h});
    if h != g {
      SumTake(files, fs - {h}, g);
      assert fs - {h} - {g} == fs - {g} - {h};
      SumTake(files, fs - {g}, h);
    }
  }

  lemma {:induction false} SumSame(files: map<Id, File>, files': map<Id, File>, fs: set<Id>)
    requires forall f :: f in fs ==> f in files && f in files' && files[f].size == files'[f].size
    ensures Sum(files, fs) == Sum(files', fs)
    decreases fs
  {
    if fs != {} {
      var f :| f in fs;
      SumTake(files, fs, f);
      SumTake(files', fs, f);
      SumSame(files, files', fs - {f});
    }
  }

  lemma {:induction false} SumSubset(files: map<Id, File>, fs: set<Id>, gs: set<Id>)
    requires fs <= gs
    ensures Sum(files, fs) <= Sum(files, gs)
    decreases fs
  {
    if fs != {} {
      var f :| f in fs;
      SumTake(files, fs, f);
      SumTake(files, gs, f);
      SumSubset(files, fs - {f}, gs - {f});
    }
  }

  // ---------- the invariants ----------

  ghost predicate IsNumbered(id: Id, next: nat) {
    IsId(id) && 1 <= Val(id) < next
  }

  // The directory of a file, which may be gone, has an id that was handed out.
  ghost predicate ParentHanded(s: Store, f: Id)
    requires f in s.files
  {
    Val(s.files[f].parent) < s.nextDir
  }

  // Ids in use are canonical numerals from 1 up to the counter; in particular "0" is never one.
  ghost predicate Numbered(s: Store) {
    && (forall d {:trigger IsNumbered(d, s.nextDir)} :: d in s.dirs ==> IsNumbered(d, s.nextDir))
    && (forall f {:trigger IsNumbered(f, s.nextFile)} :: f in s.files ==> IsNumbered(f, s.nextFile))
    && (forall u {:trigger IsNumbered(u, s.nextUser)} :: u in s.users ==> IsNumbered(u, s.nextUser))
    && (forall f {:trigger ParentHanded(s, f)} :: f in s.files ==> ParentHanded(s, f))
    && 1 <= s.nextDir && 1 <= s.nextFile && 1 <= s.nextUser
  }

  // The directories form a forest, and each user's root is a root of it that belongs to the user; so no two users
  // have the same root.
  ghost predicate Forest(s: Store) {
    && TreeShape(s)
    && (forall u {:trigger RootThere(s, u)} :: u in s.users ==> RootThere(s, u))
  }

  ghost predicate RootThere(s: Store, u: Id)
    requires u in s.users
  {
    var root := s.users[u].root;
    root in s.dirs && s.dirs[root].parent == NO_PARENT && s.dirs[root].owner == u
  }

  ghost predicate Live(s: Store, f: Id) {
    f in s.files && s.files[f].parent in s.dirs && f in s.dirs[s.files[f].parent].files
  }

  ghost predicate InTrash(s: Store, f: Id) {
    f in s.files && s.files[f].owner in s.users && f in s.users[s.files[f].owner].deleted
  }

  // Every file record sits in exactly one place: once in its directory or once in its owner's trash.
  ghost predicate FilePlaced(s: Store, f: Id)
    requires f in s.files
  {
    s.files[f].owner in s.users && (Live(s, f) <==> !InTrash(s, f))
  }

  ghost predicate ListPlaced(s: Store, d: Id)
    requires d in s.dirs
  {
    NoDup(s.dirs[d].files) && forall f :: f in s.dirs[d].files ==> f in s.files && s.files[f].parent == d
  }

  ghost predicate TrashPlaced(s: Store, u: Id)
    requires u in s.users
  {
    NoDup(s.users[u].deleted) && forall f :: f in s.users[u].deleted ==> f in s.files && s.files[f].owner == u
  }

  ghost predicate Placed(s: Store) {
    && (forall f {:trigger FilePlaced(s, f)} :: f in s.files ==> FilePlaced(s, f))
    && (forall d {:trigger ListPlaced(s, d)} :: d in s.dirs ==> ListPlaced(s, d))
    && (forall u {:trigger TrashPlaced(s, u)} :: u in s.users ==> TrashPlaced(s, u))
  }

  // Sharing is recorded on both sides, once, and for live files only.
  ghost predicate FileShares(s: Store, f: Id)
    requires f in s.files
  {
    && NoDup(s.files[f].users)
    && (forall u :: u in s.files[f].users ==> u in s.users && f in s.users[u].shared)
    && (s.files[f].users != [] ==> Live(s, f))
  }

  ghost predicate UserShares(s: Store, u: Id)
    requires u in s.users
  {
    NoDup(s.users[u].shared) && forall f :: f in s.users[u].shared ==> f in s.files && u in s.files[f].users
  }

  ghost predicate Symmetric(s: Store) {
    && (forall f {:trigger FileShares(s, f)} :: f in s.files ==> FileShares(s, f))
    && (forall u {:trigger UserShares(s, u)} :: u in s.users ==> UserShares(s, u))
  }

  // The live files at or below a directory.
  ghost function Under(s: Store, d: Id): set<Id> {
    set f | f in s.files && Live(s, f) && d in Chain(Par(s.dirs), s.files[f].parent)
  }

  // What new uploads of existing names have added to directory sizes and used quotas without a record of it.
  datatype Ledger = Ledger(dirs: map<Id, int>, users: map<Id, int>)

  const CLEAN: Ledger := Ledger(map[], map[])

  function Entry(entries: map<Id, int>, id: Id): int {
    if id in entries then entries[id] else 0
  }

  // A stored directory size is, as a word, the sum of the recorded sizes of all live files in the subtree and the
  // entry in the ledger.
  ghost predicate SizeFits(s: Store, g: Ledger, d: Id)
    requires d in s.dirs
  {
    s.dirs[d].size == (Sum(s.files, Under(s, d)) + Entry(g.dirs, d)) % WORD
  }

  ghost predicate Sized(s: Store, g: Ledger) {
    forall d {:trigger SizeFits(s, g, d)} :: d in s.dirs ==> SizeFits(s, g, d)
  }

  ghost function Owned(s: Store, u: Id): set<Id> {
    set f | f in s.files && s.files[f].owner == u
  }

  // The used quota is at most the maximum and covers the recorded sizes of the user's files, trash included.
  ghost predicate CoveredAt(s: Store, max: nat, u: Id)
    requires u in s.users
  {
    Sum(s.files, Owned(s, u)) <= s.users[u].quota <= max
  }

  ghost predicate Covered(s: Store, max: nat) {
    forall u {:trigger CoveredAt(s, max, u)} :: u in s.users ==> CoveredAt(s, max, u)
  }

  // The used quota is the sum of the recorded sizes of the user's files and the entry in the ledger.
  ghost predicate MeteredAt(s: Store, g: Ledger, u: Id)
    requires u in s.users
  {
    s.users[u].quota == Sum(s.files, Owned(s, u)) + Entry(g.users, u)
  }

  ghost predicate Metered(s: Store, g: Ledger) {
    forall u {:trigger MeteredAt(s, g, u)} :: u in s.users ==> MeteredAt(s, g, u)
  }

  // Entries are made under ids that were handed out.
  ghost predicate Booked(s: Store, g: Ledger) {
    && (forall d {:trigger d in g.dirs} :: d in g.dirs ==> Val(d) < s.nextDir)
    && (forall u {:trigger u in g.users} :: u in g.users ==> Val(u) < s.nextUser)
  }

  // The index is the inverse of the users' e-mails and the list holds each registered e-mail once.
  ghost predicate UserIndexed(s: Store, u: Id)
    requires u in s.users
  {
    s.users[u].email in s.index && s.index[s.users[u].email] == u
  }

  ghost predicate EmailIndexed(s: Store, e: string)
    requires e in s.index
  {
    s.index[e] in s.users && s.users[s.index[e]].email == e
  }

  ghost predicate Indexed(s: Store) {
    && (forall u {:trigger UserIndexed(s, u)} :: u in s.users ==> UserIndexed(s, u))
    && (forall e {:trigger EmailIndexed(s, e)} :: e in s.index ==> EmailIndexed(s, e))
    && (forall e :: e in s.emails <==> e in s.index)
    && NoDup(s.emails) && AllKeys(s.emails)
  }

  // Kept by every admissible request.
  ghost predicate Inv(s: Store, max: nat) {
    Numbered(s) && Forest(s) && Placed(s) && Symmetric(s) && Covered(s, max) && Indexed(s)
  }

  // All sizes and quotas are accounted for by the records and the ledger.
  ghost predicate Exact(s: Store, g: Ledger) {
    Sized(s, g) && Metered(s, g) && Booked(s, g)
  }

  // Whatever the ledger, it is still the right one.
  ghost predicate StaysExact(s: Store, t: Store) {
    forall g {:trigger Exact(s, g)} :: Exact(s, g) ==> Exact(t, g)
  }

  lemma SameStaysExact(s: Store)
    ensures StaysExact(s, s)
  {
  }

  lemma StaysExactTwice(s: Store, t: Store, r: Store)
    requires StaysExact(s, t) && StaysExact(t, r)
    ensures StaysExact(s, r)
  {
  }

  // Sizes and quotas did not change, and neither did the sums.
  lemma SameSumsExact(s: Store, t: Store)
    requires s.nextDir <= t.nextDir && s.nextUser <= t.nextUser
    requires forall d :: d in t.dirs ==>
               d in s.dirs && t.dirs[d].size == s.dirs[d].size && Sum(t.files, Under(t, d)) == Sum(s.files, Under(s, d))
    requires forall u :: u in t.users ==>
               && u in s.users && t.users[u].quota == s.users[u].quota
               && Sum(t.files, Owned(t, u)) == Sum(s.files, Owned(s, u))
    ensures StaysExact(s, t)
  {
    forall g | Exact(s, g) ensures Exact(t, g) {
      forall d | d in t.dirs ensures SizeFits(t, g, d) {
        assert d in s.dirs && SizeFits(s, g, d);
        SameSizeFits(s, t, g, d);
      }
      forall u | u in t.users ensures MeteredAt(t, g, u) {
        assert u in s.users && MeteredAt(s, g, u);
        SameMeteredAt(s, t, g, u);
      }
    }
  }

  lemma SameSizeFits(s: Store, t: Store, g: Ledger, d: Id)
    requires d in s.dirs && d in t.dirs && t.dirs[d].size == s.dirs[d].size
    requires Sum(t.files, Under(t, d)) == Sum(s.files, Under(s, d)) && SizeFits(s, g, d)
    ensures SizeFits(t, g, d)
  {
  }

  lemma SameMeteredAt(s: Store, t: Store, g: Ledger, u: Id)
    requires u in s.users && u in t.users && t.users[u].quota == s.users[u].quota
    requires Sum(t.files, Owned(t, u)) == Sum(s.files, Owned(s, u)) && MeteredAt(s, g, u)
    ensures MeteredAt(t, g, u)
  {
  }

  lemma IndexedFrame(s: Store, t: Store)
    requires Indexed(s) && t.index == s.index && t.emails == s.emails && t.users.Keys == s.users.Keys
    requires forall u :: u in s.users ==> t.users[u].email == s.users[u].email
    ensures Indexed(t)
  {
    forall u | u in t.users ensures UserIndexed(t, u) {
      assert UserIndexed(s, u);
    }
    forall e | e in t.index ensures EmailIndexed(t, e) {
      assert EmailIndexed(s, e);
    }
  }

  lemma NumberedFrame(s: Store, t: Store)
    requires Numbered(s) && s.nextDir <= t.nextDir && s.nextFile <= t.nextFile && s.nextUser <= t.nextUser
    requires forall d :: d in t.dirs && d !in s.dirs ==> IsNumbered(d, t.nextDir)
    requires forall f :: f in t.files && f !in s.files ==> IsNumbered(f, t.nextFile)
    requires forall u :: u in t.users && u !in s.users ==> IsNumbered(u, t.nextUser)
    requires forall f :: f in t.files ==>
               (f in s.files && t.files[f].parent == s.files[f].parent) || t.files[f].parent in s.dirs
    ensures Numbered(t)
  {
    forall d | d in t.dirs ensures IsNumbered(d, t.nextDir) {
      assert d in s.dirs ==> IsNumbered(d, s.nextDir);
    }
    forall f | f in t.files ensures IsNumbered(f, t.nextFile) {
      assert f in s.files ==> IsNumbered(f, s.nextFile);
    }
    forall f | f in t.files ensures ParentHanded(t, f) {
      if t.files[f].parent in s.dirs {
        assert IsNumbered(t.files[f].parent, s.nextDir);
      } else {
        assert ParentHanded(s, f);
      }
    }
    forall u | u in t.users ensures IsNumbered(u, t.nextUser) {
      assert u in s.users ==> IsNumbered(u, s.nextUser);
    }
  }
}
