/** Recovering and purging several files, and then writing the list of the files that stay in the trash. */
module KeepMany {
  import opened Basics
  import opened Text
  import opened Records
  import opened DataHandlers
  import opened Drive
  import opened Invariants
  import opened KeepRecover

  // ---------- recovering and purging several files ----------

  ghost function RecoverEach(s: Store, fs: seq<Id>): Store {
    if fs == [] then s else Recovered(RecoverEach(s, fs[..|fs| - 1]), fs[|fs| - 1])
  }

  ghost function DiscardEach(s: Store, fs: seq<Id>): Store {
    if fs == [] then s else Discarded(DiscardEach(s, fs[..|fs| - 1]), fs[|fs| - 1])
  }

  ghost predicate AllTrashOf(s: Store, u: Id, fs: seq<Id>) {
    u in s.users && NoDup(fs) && forall f :: f in fs ==> f in s.users[u].deleted
  }

  // t is r with the files fs taken out of the trash of u.
  ghost predicate TakenOut(s: Store, u: Id, fs: seq<Id>, t: Store, r: Store) {
    && u in s.users && r.users == s.users
    && t.users == s.users[u := s.users[u].(deleted := Select(s.users[u].deleted, fs, false))]
    && t == r.(users := t.users)
  }

  // Recovering the files first and writing the rest of the trash list afterwards is recovering one by one.
  lemma {:induction false} RestoreIsRecover(s: Store, max: nat, u: Id, fs: seq<Id>)
    requires Inv(s, max) && AllTrashOf(s, u, fs)
    ensures Inv(RecoverEach(s, fs), max) && StaysExact(s, RecoverEach(s, fs))
    ensures TakenOut(s, u, fs, RecoverEach(s, fs), RestoreAll(s, s.users[u].root, fs))
  {
    if fs == [] {
      SelectNone(s.users[u].deleted);
      assert s.users[u := s.users[u]] == s.users;
    } else {
      var init, last := fs[..|fs| - 1], fs[|fs| - 1];
      assert fs == init + [last];
      RestoreIsRecover(s, max, u, init);
      RestoreStep(s, RecoverEach(s, init), RestoreAll(s, s.users[u].root, init), max, u, init, last);
    }
  }

  lemma RestoreStep(s: Store, t: Store, r: Store, max: nat, u: Id, fs: seq<Id>, f: Id)
    requires Inv(t, max) && TakenOut(s, u, fs, t, r) && f in s.users[u].deleted && f !in fs
    ensures Inv(Recovered(t, f), max) && StaysExact(t, Recovered(t, f))
    ensures TakenOut(s, u, fs + [f], Recovered(t, f), Restored(r, s.users[u].root, f))
  {
    assert f in t.users[u].deleted && TrashPlaced(t, u);
    RecoverKeeps(t, max, f);
    SelectSnocAll(s.users[u].deleted, fs, f);
    TakeOut(s, t, r, u, fs, f);
  }

  lemma {:induction false} TakeOut(s: Store, t: Store, r: Store, u: Id, fs: seq<Id>, f: Id)
    requires TakenOut(s, u, fs, t, r) && f in t.files && t.files[f].owner == u
    requires Select(s.users[u].deleted, fs + [f], false) == Remove(Select(s.users[u].deleted, fs, false), f)
    ensures TakenOut(s, u, fs + [f], Recovered(t, f), Restored(r, s.users[u].root, f))
  {
    RestoredApart(t, r, s.users[u].root, f);
    var a := t.users[u];
    assert a.root == s.users[u].root && Recovered(t, f).users == t.users[u := a.(deleted := Remove(a.deleted, f))];
  }

  // Restoring a file does not look at users.
  lemma RestoredApart(t: Store, r: Store, root: Id, f: Id)
    requires t == r.(users := t.users)
    ensures Restored(t, root, f) == Restored(r, root, f).(users := t.users)
  {
  }

  ghost function SetOf(fs: seq<Id>): set<Id> {
    set f | f in fs
  }

  lemma SetOfSnoc(fs: seq<Id>, f: Id)
    ensures SetOf(fs + [f]) == SetOf(fs) + {f}
  {
  }

  // p is t before the trash list of u is written.
  ghost predicate PurgedOut(s: Store, u: Id, fs: seq<Id>, t: Store, p: Store) {
    && u in s.users && u in p.users && p.users[u].deleted == s.users[u].deleted
    && t == WithTrash(p, u, Select(s.users[u].deleted, fs, false))
    && t.files == s.files - SetOf(fs)
  }

  lemma {:induction false} PurgeIsDiscard(s: Store, max: nat, u: Id, fs: seq<Id>)
    requires Inv(s, max) && AllTrashOf(s, u, fs) && max < WORD
    ensures Inv(DiscardEach(s, fs), max) && StaysExact(s, DiscardEach(s, fs))
    ensures PurgedOut(s, u, fs, DiscardEach(s, fs), PurgeAll(s, fs))
  {
    if fs == [] {
      SelectNone(s.users[u].deleted);
      assert s.users[u := s.users[u]] == s.users;
      assert SetOf([]) == {} && s.files - {} == s.files;
    } else {
      var init, last := fs[..|fs| - 1], fs[|fs| - 1];
      assert fs == init + [last];
      PurgeIsDiscard(s, max, u, init);
      PurgeStep(s, DiscardEach(s, init), PurgeAll(s, init), max, u, init, last);
    }
  }

  lemma PurgeStep(s: Store, t: Store, p: Store, max: nat, u: Id, fs: seq<Id>, f: Id)
    requires Inv(t, max) && PurgedOut(s, u, fs, t, p) && f in s.users[u].deleted && f !in fs && max < WORD
    ensures Inv(Discarded(t, f), max) && StaysExact(t, Discarded(t, f))
    ensures PurgedOut(s, u, fs + [f], Discarded(t, f), Purged(p, f))
  {
    assert f in t.users[u].deleted && TrashPlaced(t, u);
    DiscardKeeps(t, max, f);
    SelectSnocAll(s.users[u].deleted, fs, f);
    PurgeOut(s, t, p, u, fs, f);
  }

  lemma PurgeOut(s: Store, t: Store, p: Store, u: Id, fs: seq<Id>, f: Id)
    requires PurgedOut(s, u, fs, t, p) && f in t.files && t.files[f].owner == u
    requires Select(s.users[u].deleted, fs + [f], false) == Remove(Select(s.users[u].deleted, fs, false), f)
    ensures PurgedOut(s, u, fs + [f], Discarded(t, f), Purged(p, f))
  {
    SetOfSnoc(fs, f);
    assert t.files - {f} == s.files - SetOf(fs + [f]);
    DiscardOfTrash(p, u, Select(s.users[u].deleted, fs, false), f);
  }

  // Purging a file and then writing the trash list is writing the list and then discarding the file.
  lemma DiscardOfTrash(p: Store, u: Id, list: seq<Id>, f: Id)
    requires u in p.users && f in p.files && p.files[f].owner == u
    ensures u in Purged(p, f).users && Purged(p, f).users[u].deleted == p.users[u].deleted
    ensures Discarded(WithTrash(p, u, list), f) == WithTrash(Purged(p, f), u, Remove(list, f))
    ensures Discarded(WithTrash(p, u, list), f).files == p.files - {f}
  {
  }

  // ---------- the requests ----------

  lemma PurgeKeeps(s: Store, max: nat, user: Id, ids: seq<Id>, rest: seq<Id>)
    requires Inv(s, max) && max < WORD
    requires user in s.users ==> AllTrashOf(s, user, ids) && rest == Select(s.users[user].deleted, ids, false)
    ensures Inv(DoPurge(s, user, ids, rest).0, max)
    ensures StaysExact(s, DoPurge(s, user, ids, rest).0)
    ensures user in s.users ==> DoPurge(s, user, ids, rest) == (DiscardEach(s, ids), Done)
  {
    if user in s.users {
      PurgeIsDiscard(s, max, user, ids);
    }
  }

  lemma RecoverRequestKeeps(s: Store, max: nat, user: Id, ids: seq<Id>, rest: seq<Id>)
    requires Inv(s, max)
    requires user in s.users ==> AllTrashOf(s, user, ids) && rest == Select(s.users[user].deleted, ids, false)
    ensures Inv(DoRecover(s, user, ids, rest).0, max)
    ensures StaysExact(s, DoRecover(s, user, ids, rest).0)
    ensures user in s.users ==> DoRecover(s, user, ids, rest) == (RecoverEach(s, ids), Done)
  {
    if user in s.users {
      RestoreIsRecover(s, max, user, ids);
      var r := RestoreAll(s, s.users[user].root, ids);
      assert WithTrash(r, user, rest).users == RecoverEach(s, ids).users;
    }
  }

  lemma WholeTrash(s: Store, user: Id)
    requires Placed(s) && user in s.users
    ensures AllTrashOf(s, user, s.users[user].deleted)
            && Select(s.users[user].deleted, s.users[user].deleted, false) == []
  {
    assert TrashPlaced(s, user);
    SelectAll(s.users[user].deleted, s.users[user].deleted);
  }

  lemma SelectedTrash(s: Store, user: Id, selected: seq<Id>)
    requires Placed(s) && user in s.users
    ensures
      var list := s.users[user].deleted;
      && AllTrashOf(s, user, Select(list, selected, true))
      && Select(list, Select(list, selected, true), false) == Select(list, selected, false)
  {
    var list := s.users[user].deleted;
    assert TrashPlaced(s, user);
    SelectNoDup(list, selected, true);
    SelectSame(list, Select(list, selected, true), selected);
  }

  lemma {:induction false} SelectSame(toks: seq<Id>, a: seq<Id>, b: seq<Id>)
    requires forall t :: t in toks ==> (t in a <==> t in b)
    ensures Select(toks, a, false) == Select(toks, b, false)
  {
    if toks != [] {
      SelectSame(toks[1..], a, b);
    }
  }
}
