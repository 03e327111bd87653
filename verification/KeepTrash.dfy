/** Moving a file to the trash and back, and purging it. */
module KeepTrash {
  import opened Text
  import opened Records
  import opened Drive
  import opened Invariants
  import opened KeepFiles

  // ---------- to the trash ----------

  ghost predicate TrashUser(s: Store, t: Store, f: Id, u: Id)
    requires f in s.files && u in s.users && u in t.users
  {
    var a := s.users[u];
    t.users[u] == a.(deleted := if u == s.files[f].owner then a.deleted + [f] else a.deleted,
                     shared := if u in s.files[f].users then Remove(a.shared, f) else a.shared)
  }

  // The record without its shares; taking them back, the owner modified it.
  function Unshown(file: File): File {
    file.(users := [], modifier := if file.users == [] then file.modifier else file.owner)
  }

  // What moving the live file f to the trash does, record by record.
  ghost predicate IsTrash(s: Store, t: Store, up: set<Id>, f: Id) {
    && Live(s, f) && s.files[f].owner in s.users
    && var file := s.files[f];
    && DirsStep(s, t, up, 0 - file.size, file.parent, Remove(s.dirs[file.parent].files, f))
    && t.users.Keys == s.users.Keys
    && (forall u {:trigger TrashUser(s, t, f, u)} :: u in s.users ==> TrashUser(s, t, f, u))
    && f in t.files && t.files == s.files[f := t.files[f]]
    && t.files[f] == Unshown(file)
    && t.nextDir == s.nextDir && t.nextUser == s.nextUser && t.nextFile == s.nextFile
    && t.index == s.index && t.emails == s.emails
  }

  lemma TrashedIsTrash(s: Store, f: Id)
    requires Live(s, f) && s.files[f].owner in s.users
    ensures IsTrash(s, Trashed(s, f), Chain(Par(s.dirs), s.files[f].parent), f)
  {
    var t, file := Trashed(s, f), s.files[f];
    AddSizesStep(s, t, 0 - file.size, file.parent, Remove(s.dirs[file.parent].files, f));
    TrashedUsers(s, f);
  }

  lemma TrashedUsers(s: Store, f: Id)
    requires Live(s, f) && s.files[f].owner in s.users
    ensures
      var t := Trashed(s, f);
      && t.users.Keys == s.users.Keys
      && forall u {:trigger TrashUser(s, t, f, u)} :: u in s.users ==> TrashUser(s, t, f, u)
  {
  }

  lemma TrashLive(s: Store, t: Store, up: set<Id>, f: Id, g: Id)
    requires IsTrash(s, t, up, f)
    ensures Live(t, g) <==> g != f && Live(s, g)
    ensures InTrash(t, g) <==> g == f || InTrash(s, g)
  {
    var file := s.files[f];
    var list := Remove(s.dirs[file.parent].files, f);
    assert TrashUser(s, t, f, file.owner);
    assert DirStep(s, t, up, 0 - file.size, file.parent, list, file.parent);
    if g in s.files {
      assert s.files[g].parent in s.dirs ==> DirStep(s, t, up, 0 - file.size, file.parent, list, s.files[g].parent);
      assert s.files[g].owner in s.users ==> TrashUser(s, t, f, s.files[g].owner);
    }
  }

  lemma TrashPlacedKeeps(s: Store, t: Store, up: set<Id>, f: Id)
    requires IsTrash(s, t, up, f) && Placed(s)
    ensures Placed(t)
  {
    var file := s.files[f];
    forall g | g in t.files ensures FilePlaced(t, g) {
      TrashLive(s, t, up, f, g);
      assert FilePlaced(s, g);
    }
    forall d | d in t.dirs ensures ListPlaced(t, d) {
      assert ListPlaced(s, d);
      assert DirStep(s, t, up, 0 - file.size, file.parent, Remove(s.dirs[file.parent].files, f), d);
      RemoveNoDup(s.dirs[d].files, f);
    }
    forall u | u in t.users ensures TrashPlaced(t, u) {
      assert TrashPlaced(s, u) && TrashUser(s, t, f, u) && FilePlaced(s, f);
    }
  }

  lemma TrashSymmetricKeeps(s: Store, t: Store, up: set<Id>, f: Id)
    requires IsTrash(s, t, up, f) && Symmetric(s)
    ensures Symmetric(t)
  {
    forall g | g in t.files ensures FileShares(t, g) {
      TrashLive(s, t, up, f, g);
      assert FileShares(s, g);
      forall u | u in t.files[g].users ensures u in t.users && g in t.users[u].shared {
        assert TrashUser(s, t, f, u);
      }
    }
    forall u | u in t.users ensures UserShares(t, u) {
      assert UserShares(s, u) && TrashUser(s, t, f, u);
      RemoveNoDup(s.users[u].shared, f);
    }
  }

  lemma TrashUnder(s: Store, t: Store, up: set<Id>, f: Id, d: Id)
    requires IsTrash(s, t, up, f) && up == Chain(Par(s.dirs), s.files[f].parent)
    ensures Under(t, d) == if d in up then Under(s, d) - {f} else Under(s, d)
    ensures d in up ==> f in Under(s, d)
  {
    forall g ensures g in Under(t, d) <==> g in Under(s, d) && !(g == f && d in up) {
      TrashLive(s, t, up, f, g);
    }
  }

  lemma TrashSizedKeeps(s: Store, t: Store, g: Ledger, up: set<Id>, f: Id)
    requires IsTrash(s, t, up, f) && up == Chain(Par(s.dirs), s.files[f].parent) && Sized(s, g)
    ensures Sized(t, g)
  {
    var file := s.files[f];
    forall d | d in t.dirs ensures SizeFits(t, g, d) {
      assert DirStep(s, t, up, 0 - file.size, file.parent, Remove(s.dirs[file.parent].files, f), d)
             && SizeFits(s, g, d);
      TrashUnder(s, t, up, f, d);
      SizedMinus(s, t, g, d in up, f, d);
    }
  }

  // Records owned by u keep their sizes, so the sum stays.
  lemma SameOwned(s: Store, t: Store, u: Id)
    requires t.files.Keys == s.files.Keys
    requires forall f :: f in s.files ==> t.files[f].owner == s.files[f].owner && t.files[f].size == s.files[f].size
    ensures Sum(t.files, Owned(t, u)) == Sum(s.files, Owned(s, u))
  {
    assert Owned(t, u) == Owned(s, u);
    SumSame(s.files, t.files, Owned(s, u));
  }

  lemma SameCovered(s: Store, t: Store, max: nat)
    requires Covered(s, max) && t.files.Keys == s.files.Keys && t.users.Keys == s.users.Keys
    requires forall f :: f in s.files ==> t.files[f].owner == s.files[f].owner && t.files[f].size == s.files[f].size
    requires forall u :: u in s.users ==> t.users[u].quota == s.users[u].quota
    ensures Covered(t, max)
  {
    forall u | u in t.users ensures CoveredAt(t, max, u) {
      SameOwned(s, t, u);
      assert CoveredAt(s, max, u);
    }
  }

  lemma SameMetered(s: Store, t: Store, g: Ledger)
    requires Metered(s, g) && t.files.Keys == s.files.Keys && t.users.Keys == s.users.Keys
    requires forall f :: f in s.files ==> t.files[f].owner == s.files[f].owner && t.files[f].size == s.files[f].size
    requires forall u :: u in s.users ==> t.users[u].quota == s.users[u].quota
    ensures Metered(t, g)
  {
    forall u | u in t.users ensures MeteredAt(t, g, u) {
      SameOwned(s, t, u);
      assert MeteredAt(s, g, u);
    }
  }

  lemma TrashKeeps(s: Store, max: nat, f: Id)
    requires Inv(s, max) && Live(s, f)
    ensures Inv(Trashed(s, f), max) && StaysExact(s, Trashed(s, f))
  {
    assert FilePlaced(s, f);
    TrashedIsTrash(s, f);
    AnyTrashKeeps(s, Trashed(s, f), max, f);
  }

  lemma TrashExact(s: Store, t: Store, up: set<Id>, f: Id)
    requires IsTrash(s, t, up, f) && up == Chain(Par(s.dirs), s.files[f].parent)
    ensures StaysExact(s, t)
  {
    forall u | u in s.users ensures t.users[u].quota == s.users[u].quota {
      assert TrashUser(s, t, f, u);
    }
    forall g | Exact(s, g) ensures Exact(t, g) {
      TrashSizedKeeps(s, t, g, up, f);
      SameMetered(s, t, g);
    }
  }

  lemma TrashFrame(s: Store, t: Store, max: nat, up: set<Id>, f: Id)
    requires IsTrash(s, t, up, f) && Numbered(s) && Forest(s) && Covered(s, max) && Indexed(s)
    ensures Numbered(t) && Forest(t) && Covered(t, max) && Indexed(t)
  {
    var file := s.files[f];
    forall u | u in s.users
      ensures t.users[u].root == s.users[u].root && t.users[u].email == s.users[u].email
              && t.users[u].quota == s.users[u].quota
    {
      assert TrashUser(s, t, f, u);
    }
    NumberedFrame(s, t);
    StepForest(s, t, up, 0 - file.size, file.parent, Remove(s.dirs[file.parent].files, f));
    SameCovered(s, t, max);
    IndexedFrame(s, t);
  }

  lemma AnyTrashKeeps(s: Store, t: Store, max: nat, f: Id)
    requires Inv(s, max) && Live(s, f) && IsTrash(s, t, Chain(Par(s.dirs), s.files[f].parent), f)
    ensures Inv(t, max) && StaysExact(s, t)
  {
    var up := Chain(Par(s.dirs), s.files[f].parent);
    TrashFrame(s, t, max, up, f);
    TrashPlacedKeeps(s, t, up, f);
    TrashSymmetricKeeps(s, t, up, f);
    TrashExact(s, t, up, f);
  }
}
