/** Recovering files from the trash and purging them. */
module KeepRecover {
  import opened Basics
  import opened Text
  import opened Records
  import opened Drive
  import opened Tree
  import opened Invariants
  import opened KeepFiles
  import opened KeepTrash

  // ---------- recovery of one file ----------

  // The directory a trashed file returns to.
  ghost function Home(s: Store, f: Id): Id
    requires f in s.files && s.files[f].owner in s.users
  {
    if s.files[f].parent in s.dirs then s.files[f].parent else s.users[s.files[f].owner].root
  }

  ghost function Recovered(s: Store, f: Id): Store {
    if f !in s.files || s.files[f].owner !in s.users then s
    else
      var o := s.files[f].owner;
      WithTrash(Restored(s, s.users[o].root, f), o, Remove(s.users[o].deleted, f))
  }

  ghost predicate IsRecover(s: Store, t: Store, up: set<Id>, f: Id) {
    && f in s.files && s.files[f].owner in s.users
    && var file, home := s.files[f], Home(s, f);
    && home in s.dirs && f !in s.dirs[home].files
    && DirsStep(s, t, up, file.size, home, s.dirs[home].files + [f])
    && t.users == s.users[file.owner := s.users[file.owner].(deleted := Remove(s.users[file.owner].deleted, f))]
    && f in t.files && t.files == s.files[f := t.files[f]]
    && t.files[f].owner == file.owner && t.files[f].parent == home && t.files[f].size == file.size
    && t.files[f].users == file.users
    && t.nextDir == s.nextDir && t.nextUser == s.nextUser && t.nextFile == s.nextFile
    && t.index == s.index && t.emails == s.emails
  }

  lemma RecoveredIsRecover(s: Store, f: Id)
    requires Forest(s) && Placed(s) && InTrash(s, f)
    ensures IsRecover(s, Recovered(s, f), Chain(Par(s.dirs), Home(s, f)), f)
  {
    var t, file, home := Recovered(s, f), s.files[f], Home(s, f);
    assert FilePlaced(s, f) && RootThere(s, file.owner);
    assert ListPlaced(s, home);
    RecoveredRecords(s, f);
    AddSizesStep(s, t, file.size, home, s.dirs[home].files + [f]);
  }

  // The records that recovery writes.
  lemma RecoveredRecords(s: Store, f: Id)
    requires f in s.files && s.files[f].owner in s.users && Home(s, f) in s.dirs && f !in s.dirs[Home(s, f)].files
    ensures
      var t, file, home := Recovered(s, f), s.files[f], Home(s, f);
      && t.dirs == AddSizes(s.dirs[home := s.dirs[home].(files := s.dirs[home].files + [f])], home, file.size)
      && t.users == s.users[file.owner := s.users[file.owner].(deleted := Remove(s.users[file.owner].deleted, f))]
      && f in t.files && t.files == s.files[f := t.files[f]]
      && t.files[f] == file.(parent := home, modifier := t.files[f].modifier)
      && t == s.(dirs := t.dirs, users := t.users, files := t.files)
  {
  }

  lemma RecoverLive(s: Store, t: Store, up: set<Id>, f: Id, g: Id)
    requires IsRecover(s, t, up, f) && Placed(s) && InTrash(s, f)
    ensures Live(t, g) <==> g == f || Live(s, g)
    ensures InTrash(t, g) <==> g != f && InTrash(s, g)
  {
    var file, home := s.files[f], Home(s, f);
    assert DirStep(s, t, up, file.size, home, s.dirs[home].files + [f], home);
    if g in s.files {
      assert FilePlaced(s, g);
      assert s.files[g].parent in s.dirs ==>
               DirStep(s, t, up, file.size, home, s.dirs[home].files + [f], s.files[g].parent);
    }
  }

  lemma RecoverPlaced(s: Store, t: Store, up: set<Id>, f: Id)
    requires IsRecover(s, t, up, f) && Placed(s) && InTrash(s, f)
    ensures Placed(t)
  {
    var file, home := s.files[f], Home(s, f);
    forall g | g in t.files ensures FilePlaced(t, g) {
      RecoverLive(s, t, up, f, g);
      assert FilePlaced(s, g);
    }
    forall d | d in t.dirs ensures ListPlaced(t, d) {
      assert ListPlaced(s, d) && FilePlaced(s, f);
      assert DirStep(s, t, up, file.size, home, s.dirs[home].files + [f], d);
    }
    forall u | u in t.users ensures TrashPlaced(t, u) {
      assert TrashPlaced(s, u);
      RemoveNoDup(s.users[u].deleted, f);
    }
  }

  lemma RecoverSymmetric(s: Store, t: Store, up: set<Id>, f: Id)
    requires IsRecover(s, t, up, f) && Placed(s) && InTrash(s, f) && Symmetric(s)
    ensures Symmetric(t)
  {
    forall g | g in t.files ensures FileShares(t, g) {
      RecoverLive(s, t, up, f, g);
      assert FileShares(s, g);
    }
    forall u | u in t.users ensures UserShares(t, u) {
      assert UserShares(s, u);
    }
  }

  lemma RecoverUnder(s: Store, t: Store, up: set<Id>, f: Id, d: Id)
    requires IsRecover(s, t, up, f) && Placed(s) && InTrash(s, f) && up == Chain(Par(s.dirs), Home(s, f))
    ensures f !in Under(s, d)
    ensures Under(t, d) == if d in up then Under(s, d) + {f} else Under(s, d)
  {
    assert FilePlaced(s, f);
    forall g ensures g in Under(t, d) <==> g in Under(s, d) || (g == f && d in up) {
      RecoverLive(s, t, up, f, g);
    }
  }

  lemma RecoverSized(s: Store, t: Store, g: Ledger, up: set<Id>, f: Id)
    requires IsRecover(s, t, up, f) && Placed(s) && InTrash(s, f) && Sized(s, g) && up == Chain(Par(s.dirs), Home(s, f))
    ensures Sized(t, g)
  {
    var file, home := s.files[f], Home(s, f);
    forall d | d in t.dirs ensures SizeFits(t, g, d) {
      assert DirStep(s, t, up, file.size, home, s.dirs[home].files + [f], d) && SizeFits(s, g, d);
      RecoverUnder(s, t, up, f, d);
      SizedPlus(s, t, g, d in up, f, d);
    }
  }

  lemma RecoverKeeps(s: Store, max: nat, f: Id)
    requires Inv(s, max) && InTrash(s, f)
    ensures Inv(Recovered(s, f), max) && StaysExact(s, Recovered(s, f))
  {
    RecoveredIsRecover(s, f);
    AnyRecoverKeeps(s, Recovered(s, f), max, f);
  }

  lemma RecoverExact(s: Store, t: Store, up: set<Id>, f: Id)
    requires IsRecover(s, t, up, f) && Placed(s) && InTrash(s, f) && up == Chain(Par(s.dirs), Home(s, f))
    ensures StaysExact(s, t)
  {
    forall g | Exact(s, g) ensures Exact(t, g) {
      RecoverSized(s, t, g, up, f);
      SameMetered(s, t, g);
    }
  }

  lemma RecoverFrame(s: Store, t: Store, max: nat, up: set<Id>, f: Id)
    requires IsRecover(s, t, up, f) && Numbered(s) && Forest(s) && Covered(s, max) && Indexed(s)
    ensures Numbered(t) && Forest(t) && Covered(t, max) && Indexed(t)
  {
    NumberedFrame(s, t);
    StepForest(s, t, up, s.files[f].size, Home(s, f), s.dirs[Home(s, f)].files + [f]);
    SameCovered(s, t, max);
    IndexedFrame(s, t);
  }

  lemma AnyRecoverKeeps(s: Store, t: Store, max: nat, f: Id)
    requires Inv(s, max) && InTrash(s, f) && IsRecover(s, t, Chain(Par(s.dirs), Home(s, f)), f)
    ensures Inv(t, max) && StaysExact(s, t)
  {
    var up := Chain(Par(s.dirs), Home(s, f));
    RecoverFrame(s, t, max, up, f);
    RecoverPlaced(s, t, up, f);
    RecoverSymmetric(s, t, up, f);
    RecoverExact(s, t, up, f);
  }

  // ---------- purge of one file ----------

  ghost function Discarded(s: Store, f: Id): Store {
    if f !in s.files || s.files[f].owner !in s.users then s
    else
      var o := s.files[f].owner;
      WithTrash(Purged(s, f), o, Remove(s.users[o].deleted, f))
  }

  ghost predicate IsDiscard(s: Store, t: Store, f: Id) {
    && InTrash(s, f)
    && var o := s.files[f].owner;
    && t.files == s.files - {f} && t.dirs == s.dirs
    && t.users == s.users[o := s.users[o].(quota := (s.users[o].quota - s.files[f].size) % WORD,
                                           deleted := Remove(s.users[o].deleted, f))]
    && t.nextDir == s.nextDir && t.nextUser == s.nextUser && t.nextFile == s.nextFile
    && t.index == s.index && t.emails == s.emails
  }

  lemma DiscardLive(s: Store, t: Store, f: Id, g: Id)
    requires IsDiscard(s, t, f) && Placed(s)
    ensures Live(t, g) <==> Live(s, g)
    ensures InTrash(t, g) <==> g != f && InTrash(s, g)
  {
    assert FilePlaced(s, f);
    assert g in s.files ==> FilePlaced(s, g);
  }

  lemma DiscardPlaced(s: Store, t: Store, f: Id)
    requires IsDiscard(s, t, f) && Placed(s)
    ensures Placed(t)
  {
    forall g | g in t.files ensures FilePlaced(t, g) {
      DiscardLive(s, t, f, g);
      assert FilePlaced(s, g);
    }
    forall d | d in t.dirs ensures ListPlaced(t, d) {
      assert ListPlaced(s, d) && FilePlaced(s, f);
    }
    forall u | u in t.users ensures TrashPlaced(t, u) {
      assert TrashPlaced(s, u);
      RemoveNoDup(s.users[u].deleted, f);
    }
  }

  lemma DiscardSymmetric(s: Store, t: Store, f: Id)
    requires IsDiscard(s, t, f) && Placed(s) && Symmetric(s)
    ensures Symmetric(t)
  {
    assert FilePlaced(s, f) && FileShares(s, f);
    forall g | g in t.files ensures FileShares(t, g) {
      DiscardLive(s, t, f, g);
      assert FileShares(s, g);
    }
    forall u | u in t.users ensures UserShares(t, u) {
      assert UserShares(s, u);
    }
  }

  lemma DiscardSized(s: Store, t: Store, g: Ledger, f: Id)
    requires IsDiscard(s, t, f) && Placed(s) && Sized(s, g)
    ensures Sized(t, g)
  {
    forall d | d in t.dirs ensures SizeFits(t, g, d) {
      assert SizeFits(s, g, d) && FilePlaced(s, f);
      forall x ensures x in Under(t, d) <==> x in Under(s, d) {
        DiscardLive(s, t, f, x);
      }
      assert Under(t, d) == Under(s, d);
      SumSame(s.files, t.files, Under(s, d));
    }
  }

  lemma DiscardOwned(s: Store, t: Store, f: Id, u: Id)
    requires IsDiscard(s, t, f)
    ensures Sum(t.files, Owned(t, u))
            == Sum(s.files, Owned(s, u)) - (if u == s.files[f].owner then s.files[f].size else 0)
  {
    assert Owned(t, u) == Owned(s, u) - {f};
    SumSame(s.files, t.files, Owned(t, u));
    if u == s.files[f].owner {
      SumTake(s.files, Owned(s, u), f);
    } else {
      assert Owned(t, u) == Owned(s, u);
    }
  }

  // The used quota never goes below zero, because it covers the size of the purged file.
  lemma DiscardCovered(s: Store, t: Store, max: nat, f: Id)
    requires IsDiscard(s, t, f) && Covered(s, max) && max < WORD
    ensures s.files[f].size <= s.users[s.files[f].owner].quota
    ensures t.users[s.files[f].owner].quota == s.users[s.files[f].owner].quota - s.files[f].size
    ensures Covered(t, max)
  {
    var o := s.files[f].owner;
    assert CoveredAt(s, max, o);
    SumTake(s.files, Owned(s, o), f);
    forall u | u in t.users ensures CoveredAt(t, max, u) {
      DiscardOwned(s, t, f, u);
      assert CoveredAt(s, max, u);
    }
  }

  lemma DiscardMetered(s: Store, t: Store, g: Ledger, f: Id)
    requires IsDiscard(s, t, f) && Metered(s, g)
    requires t.users[s.files[f].owner].quota == s.users[s.files[f].owner].quota - s.files[f].size
    ensures Metered(t, g)
  {
    forall u | u in t.users ensures MeteredAt(t, g, u) {
      DiscardOwned(s, t, f, u);
      assert MeteredAt(s, g, u);
    }
  }

  lemma DiscardKeeps(s: Store, max: nat, f: Id)
    requires Inv(s, max) && InTrash(s, f) && max < WORD
    ensures Inv(Discarded(s, f), max) && StaysExact(s, Discarded(s, f))
  {
    var t := Discarded(s, f);
    assert IsDiscard(s, t, f);
    AnyDiscardKeeps(s, t, max, f);
  }

  lemma AnyDiscardKeeps(s: Store, t: Store, max: nat, f: Id)
    requires Inv(s, max) && IsDiscard(s, t, f) && max < WORD
    ensures Inv(t, max) && StaysExact(s, t)
  {
    NumberedFrame(s, t);
    forall d | d in t.dirs ensures Handed(d, t.nextDir) {
      assert Handed(d, s.nextDir);
    }
    forall u | u in t.users ensures RootThere(t, u) {
      assert RootThere(s, u);
    }
    DiscardPlaced(s, t, f);
    DiscardSymmetric(s, t, f);
    DiscardCovered(s, t, max, f);
    IndexedFrame(s, t);
    forall g | Exact(s, g) ensures Exact(t, g) {
      DiscardSized(s, t, g, f);
      DiscardMetered(s, t, g, f);
    }
  }
}
