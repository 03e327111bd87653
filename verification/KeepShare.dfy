/** Sharing a file and taking a share back. */
module KeepShare {
  import opened Text
  import opened Records
  import opened DataHandlers
  import opened Drive
  import opened Invariants
  import opened KeepTrash

  // t differs from s in the two sharing lists of f and u and in what no invariant looks at.
  ghost predicate IsShare(s: Store, t: Store, f: Id, u: Id, users: seq<Id>, shared: seq<Id>) {
    && f in s.files && u in s.users && f in t.files && u in t.users
    && t.dirs == s.dirs
    && t.files == s.files[f := t.files[f]] && t.users == s.users[u := s.users[u].(shared := shared)]
    && t.files[f].owner == s.files[f].owner && t.files[f].parent == s.files[f].parent
    && t.files[f].size == s.files[f].size && t.files[f].users == users
    && t.nextDir == s.nextDir && t.nextUser == s.nextUser && t.nextFile == s.nextFile
    && t.index == s.index && t.emails == s.emails
  }

  lemma ShareLive(s: Store, t: Store, f: Id, u: Id, users: seq<Id>, shared: seq<Id>, g: Id)
    requires IsShare(s, t, f, u, users, shared)
    ensures Live(t, g) <==> Live(s, g)
    ensures InTrash(t, g) <==> InTrash(s, g)
  {
  }

  lemma ShareFrame(s: Store, t: Store, max: nat, f: Id, u: Id, users: seq<Id>, shared: seq<Id>)
    requires Inv(s, max) && IsShare(s, t, f, u, users, shared)
    ensures Numbered(t) && Forest(t) && Placed(t) && Covered(t, max) && Indexed(t)
    ensures StaysExact(s, t)
  {
    NumberedFrame(s, t);
    IndexedFrame(s, t);
    SameCovered(s, t, max);
    forall u' | u' in t.users ensures RootThere(t, u') {
      assert RootThere(s, u');
    }
    SharePlaced(s, t, f, u, users, shared);
    ShareExact(s, t, f, u, users, shared);
  }

  lemma SharePlaced(s: Store, t: Store, f: Id, u: Id, users: seq<Id>, shared: seq<Id>)
    requires Placed(s) && IsShare(s, t, f, u, users, shared)
    ensures Placed(t)
  {
    forall g | g in t.files ensures FilePlaced(t, g) {
      ShareLive(s, t, f, u, users, shared, g);
      assert FilePlaced(s, g);
    }
    forall d | d in t.dirs ensures ListPlaced(t, d) {
      assert ListPlaced(s, d);
    }
    forall v | v in t.users ensures TrashPlaced(t, v) {
      assert TrashPlaced(s, v);
    }
  }

  lemma ShareExact(s: Store, t: Store, f: Id, u: Id, users: seq<Id>, shared: seq<Id>)
    requires IsShare(s, t, f, u, users, shared)
    ensures StaysExact(s, t)
  {
    forall d | d in t.dirs ensures Sum(t.files, Under(t, d)) == Sum(s.files, Under(s, d)) {
      assert Under(t, d) == Under(s, d);
      SumSame(s.files, t.files, Under(s, d));
    }
    forall v | v in t.users ensures Sum(t.files, Owned(t, v)) == Sum(s.files, Owned(s, v)) {
      SameOwned(s, t, v);
    }
    SameSumsExact(s, t);
  }

  lemma InsertNoDup(toks: seq<Id>, k: Id)
    requires NoDup(toks)
    ensures NoDup(Insert(toks, k))
    ensures forall t :: t in Insert(toks, k) <==> t in toks || t == k
  {
  }

  // A share is recorded on both sides; for a file in the trash this breaks the rule, and for no other.
  lemma SharedKeeps(s: Store, max: nat, f: Id, u: Id, date: string)
    requires Inv(s, max) && f in s.files && u in s.users
    ensures Inv(Shared(s, f, u, date), max) <==> Live(s, f)
    ensures StaysExact(s, Shared(s, f, u, date))
  {
    var t := Shared(s, f, u, date);
    var users, shared := Insert(s.files[f].users, u), Insert(s.users[u].shared, f);
    assert IsShare(s, t, f, u, users, shared);
    ShareFrame(s, t, max, f, u, users, shared);
    ShareLive(s, t, f, u, users, shared, f);
    if Live(s, f) {
      SharedSymmetric(s, t, f, u, users, shared);
    } else {
      assert u in t.files[f].users;
      assert !FileShares(t, f);
    }
  }

  lemma SharedSymmetric(s: Store, t: Store, f: Id, u: Id, users: seq<Id>, shared: seq<Id>)
    requires Symmetric(s) && IsShare(s, t, f, u, users, shared) && Live(s, f)
    requires users == Insert(s.files[f].users, u) && shared == Insert(s.users[u].shared, f)
    ensures Symmetric(t)
  {
    forall g | g in t.files ensures FileShares(t, g) {
      ShareLive(s, t, f, u, users, shared, g);
      assert FileShares(s, g);
      InsertNoDup(s.files[g].users, u);
    }
    forall v | v in t.users ensures UserShares(t, v) {
      assert UserShares(s, v);
      InsertNoDup(s.users[v].shared, f);
    }
  }

  lemma UnsharedKeeps(s: Store, max: nat, f: Id, u: Id, date: string)
    requires Inv(s, max) && f in s.files && u in s.users
    ensures Inv(Unshared(s, f, u, date), max)
    ensures StaysExact(s, Unshared(s, f, u, date))
  {
    var t := Unshared(s, f, u, date);
    var users, shared := Remove(s.files[f].users, u), Remove(s.users[u].shared, f);
    assert IsShare(s, t, f, u, users, shared);
    ShareFrame(s, t, max, f, u, users, shared);
    UnsharedSymmetric(s, t, f, u, users, shared);
  }

  lemma UnsharedSymmetric(s: Store, t: Store, f: Id, u: Id, users: seq<Id>, shared: seq<Id>)
    requires Symmetric(s) && IsShare(s, t, f, u, users, shared)
    requires users == Remove(s.files[f].users, u) && shared == Remove(s.users[u].shared, f)
    ensures Symmetric(t)
  {
    forall g | g in t.files ensures FileShares(t, g) {
      ShareLive(s, t, f, u, users, shared, g);
      assert FileShares(s, g);
      RemoveNoDup(s.files[g].users, u);
    }
    forall v | v in t.users ensures UserShares(t, v) {
      assert UserShares(s, v);
      RemoveNoDup(s.users[v].shared, f);
    }
  }

  // ---------- sharing with a list of users ----------

  lemma {:induction false} UnshareEachKeeps(s: Store, max: nat, user: Id, f: Id, others: seq<Id>, date: string)
    requires Inv(s, max) && f in s.files && s.files[f].owner == user
    ensures
      var (t, r) := UnshareEach(s, user, f, others, date);
      && Inv(t, max) && StaysExact(s, t) && t.users.Keys == s.users.Keys && f in t.files
      && t.files[f].owner == user && (Live(t, f) <==> Live(s, f))
      && ((forall u :: u in others ==> u in s.users) ==>
            r == Done && t.files[f].users == Select(s.files[f].users, others, false))
    decreases |others|
  {
    if others == [] {
      SelectNone(s.files[f].users);
    } else if others[0] in s.users {
      UnsharedKeeps(s, max, f, others[0], date);
      UnshareEachKeeps(Unshared(s, f, others[0], date), max, user, f, others[1..], date);
      SelectRemove(s.files[f].users, others);
    }
  }

  // Inserting tokens one by one.
  function InsertEach(toks: seq<Id>, ks: seq<Id>): (r: seq<Id>)
    ensures forall t :: t in r <==> t in toks || t in ks
    decreases |ks|
  {
    if ks == [] then toks else InsertEach(Insert(toks, ks[0]), ks[1..])
  }

  lemma {:induction false} ShareEachKeeps(s: Store, max: nat, user: Id, f: Id, others: seq<Id>, date: string)
    requires Inv(s, max) && Live(s, f) && s.files[f].owner == user
    ensures
      var t := ShareEach(s, user, f, others, date).0;
      Inv(t, max) && StaysExact(s, t)
    decreases |others|
  {
    if others != [] && others[0] in s.users {
      SharedKeeps(s, max, f, others[0], date);
      var t := Shared(s, f, others[0], date);
      assert Live(t, f) && t.files[f].owner == user && t.users.Keys == s.users.Keys;
      ShareEachKeeps(t, max, user, f, others[1..], date);
    }
  }

  lemma AllSplit(ks: seq<Id>, all: set<Id>)
    requires ks != []
    ensures (forall u :: u in ks ==> u in all) <==> ks[0] in all && forall u :: u in ks[1..] ==> u in all
  {
    assert ks == [ks[0]] + ks[1..];
  }

  // A user with whom a file is shared stays in its list when more users are added, and the accounts stay right.
  lemma {:induction false} ShareEachAdds(s: Store, user: Id, f: Id, others: seq<Id>, date: string, u: Id)
    requires f in s.files && s.files[f].owner == user
    ensures
      var t := ShareEach(s, user, f, others, date).0;
      && StaysExact(s, t) && f in t.files && (Live(t, f) <==> Live(s, f))
      && (u in s.files[f].users ==> u in t.files[f].users)
    decreases |others|
  {
    if others != [] && others[0] in s.users {
      var t := Shared(s, f, others[0], date);
      SharedIsShare(s, f, others[0], date);
      ShareExact(s, t, f, others[0], t.files[f].users, t.users[others[0]].shared);
      ShareLive(s, t, f, others[0], t.files[f].users, t.users[others[0]].shared, f);
      ShareEachAdds(t, user, f, others[1..], date, u);
      StaysExactTwice(s, t, ShareEach(t, user, f, others[1..], date).0);
    } else {
      SameStaysExact(s);
    }
  }

  lemma SharedIsShare(s: Store, f: Id, u: Id, date: string)
    requires f in s.files && u in s.users
    ensures
      var t := Shared(s, f, u, date);
      && IsShare(s, t, f, u, t.files[f].users, t.users[u].shared)
      && t.files[f].users == Insert(s.files[f].users, u) && t.files[f].owner == s.files[f].owner
  {
  }

  // A file in the trash is in nobody's list, so an overwrite begins with the new list.
  lemma OverwriteTrashed(s: Store, max: nat, user: Id, f: Id, others: seq<Id>, date: string)
    requires Inv(s, max) && f in s.files && s.files[f].owner == user && !Live(s, f)
    ensures DoOverwrite(s, user, f, others, date) == ShareEach(s, user, f, others, date)
  {
    assert FileShares(s, f) && s.files[f].users == [];
  }

  lemma ShareEachTrashed(s: Store, max: nat, user: Id, f: Id, others: seq<Id>, date: string)
    requires Inv(s, max) && f in s.files && s.files[f].owner == user && !Live(s, f)
    ensures
      var t := ShareEach(s, user, f, others, date).0;
      (Inv(t, max) <==> others == [] || others[0] !in s.users) && StaysExact(s, t)
  {
    if others == [] || others[0] !in s.users {
      SameStaysExact(s);
    } else {
      var t, t' := Shared(s, f, others[0], date), ShareEach(s, user, f, others, date).0;
      SharedIsShare(s, f, others[0], date);
      ShareLive(s, t, f, others[0], t.files[f].users, t.users[others[0]].shared, f);
      ShareEachAdds(t, user, f, others[1..], date, others[0]);
      ShareEachAdds(s, user, f, others, date, others[0]);
      assert !FileShares(t', f);
    }
  }

  lemma {:induction false} ShareEachDone(s: Store, user: Id, f: Id, others: seq<Id>, date: string)
    requires f in s.files && s.files[f].owner == user
    ensures
      var (t, r) := ShareEach(s, user, f, others, date);
      && f in t.files && (r == Done <==> forall u :: u in others ==> u in s.users.Keys)
      && (r == Done ==> t.files[f].users == InsertEach(s.files[f].users, others))
    decreases |others|
  {
    if others != [] && others[0] in s.users {
      var t := Shared(s, f, others[0], date);
      SharedIsShare(s, f, others[0], date);
      assert t.users.Keys == s.users.Keys;
      ShareEachDone(t, user, f, others[1..], date);
      AllSplit(others, s.users.Keys);
    }
  }

  // Overwriting keeps the invariants exactly if the file is live or nothing is added to its list. It succeeds whenever
  // all new users exist, and then leaves exactly the new list, as a set.
  lemma OverwriteKeeps(s: Store, max: nat, user: Id, f: Id, others: seq<Id>, date: string)
    requires Inv(s, max)
    ensures
      var (t, r) := DoOverwrite(s, user, f, others, date);
      var granted := f in s.files && s.files[f].owner == user;
      && (Inv(t, max) <==> granted ==> Live(s, f) || others == [] || others[0] !in s.users) && StaysExact(s, t)
      && (r == Done <==> granted && forall u :: u in others ==> u in s.users)
      && (r == Done ==> f in t.files && forall u :: u in t.files[f].users <==> u in others)
  {
    if f in s.files && s.files[f].owner == user {
      if Live(s, f) {
        OverwriteLive(s, max, user, f, others, date);
      } else {
        assert FileShares(s, f);
        OverwriteTrashed(s, max, user, f, others, date);
        ShareEachTrashed(s, max, user, f, others, date);
        ShareEachDone(s, user, f, others, date);
      }
    } else {
      SameStaysExact(s);
    }
  }

  lemma OverwriteLive(s: Store, max: nat, user: Id, f: Id, others: seq<Id>, date: string)
    requires Inv(s, max) && Live(s, f) && s.files[f].owner == user
    ensures
      var (t, r) := DoOverwrite(s, user, f, others, date);
      && Inv(t, max) && StaysExact(s, t) && (r == Done <==> forall u :: u in others ==> u in s.users)
      && (r == Done ==> f in t.files && forall u :: u in t.files[f].users <==> u in others)
  {
    assert FileShares(s, f);
    UnshareEachKeeps(s, max, user, f, s.files[f].users, s.files[f].date);
    SelectAll(s.files[f].users, s.files[f].users);
    var t := UnshareEach(s, user, f, s.files[f].users, s.files[f].date).0;
    ShareEachKeeps(t, max, user, f, others, date);
    ShareEachDone(t, user, f, others, date);
  }
}
