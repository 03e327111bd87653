/** Deleting a user with everything in the user's tree and trash. */
module KeepLeave {
  import opened Basics
  import opened Text
  import opened Records
  import opened DataHandlers
  import opened Drive
  import opened Tree
  import opened Invariants
  import opened KeepUsers
  import opened KeepDelete
  import opened KeepMany

  // ---------- purging does not look at directories ----------

  lemma {:induction false} PurgeAllErased(s: Store, ds: set<Id>, fs: seq<Id>)
    ensures PurgeAll(Erased(s, ds), fs) == Erased(PurgeAll(s, fs), ds)
  {
    if fs != [] {
      PurgeAllErased(s, ds, fs[..|fs| - 1]);
      PurgedErased(PurgeAll(s, fs[..|fs| - 1]), ds, fs[|fs| - 1]);
    }
  }

  lemma PurgedErased(s: Store, ds: set<Id>, f: Id)
    ensures Purged(Erased(s, ds), f) == Erased(Purged(s, f), ds)
  {
  }

  lemma PurgeErased(s: Store, ds: set<Id>, user: Id, fs: seq<Id>)
    ensures DoPurge(Erased(s, ds), user, fs, []) == (Erased(DoPurge(s, user, fs, []).0, ds), DoPurge(s, user, fs, []).1)
  {
    PurgeAllErased(s, ds, fs);
  }

  // ---------- the store in which only the record and the emptied tree are left ----------

  // The tree of the user is emptied and so is the trash.
  ghost predicate Leaving(p: Store, user: Id, ds: set<Id>) {
    user in p.users && p.users[user].deleted == [] && Emptied(p, p.users[user].root, ds)
  }

  // Nothing of the user is left to anyone else.
  ghost predicate Alone(p: Store, user: Id)
    requires user in p.users
  {
    p.users[user].shared == [] && forall f :: f in p.files ==> p.files[f].owner != user
  }

  ghost function Left(p: Store, user: Id, ds: set<Id>): Store
    requires user in p.users
  {
    UserDropped(Erased(p, ds), user)
  }

  lemma ErasedIsCutOff(p: Store, user: Id, ds: set<Id>)
    requires Forest(p) && Leaving(p, user, ds)
    ensures Erased(p, ds) == CutOff(p, p.users[user].root, ds)
  {
    assert RootThere(p, user);
  }

  lemma LeftForest(p: Store, user: Id, ds: set<Id>)
    requires Forest(p) && Leaving(p, user, ds) && Alone(p, user)
    ensures Forest(Left(p, user, ds))
  {
    var t, root := Left(p, user, ds), p.users[user].root;
    ErasedIsCutOff(p, user, ds);
    var c := CutOff(p, root, ds);
    assert c.dirs.Keys == p.dirs.Keys - ds && t.dirs == c.dirs;
    forall x | x in t.dirs ensures Climbs(Par(t.dirs), x) && DirLinked(t.dirs, x) && Handed(x, t.nextDir) {
      CutOffLinked(p, root, ds, x);
      assert Handed(x, p.nextDir);
    }
    forall u | u in t.users ensures RootThere(t, u) {
      assert RootThere(p, u) && RootThere(p, user);
      RootOutside(p, root, ds, p.users[u].root);
      CutOffRecord(p, root, ds, p.users[u].root);
    }
  }

  lemma LeftPlaced(p: Store, user: Id, ds: set<Id>)
    requires Forest(p) && Placed(p) && Symmetric(p) && Leaving(p, user, ds) && Alone(p, user)
    ensures Placed(Left(p, user, ds)) && Symmetric(Left(p, user, ds))
  {
    var t, root := Left(p, user, ds), p.users[user].root;
    ErasedIsCutOff(p, user, ds);
    CutOffPlaced(p, root, ds);
    CutOffSymmetric(p, root, ds);
    var c := CutOff(p, root, ds);
    forall f | f in t.files ensures FilePlaced(t, f) && FileShares(t, f) {
      assert FilePlaced(c, f) && FileShares(c, f);
      assert f !in c.users[user].shared && user !in t.files[f].users;
    }
    forall d | d in t.dirs ensures ListPlaced(t, d) {
      assert ListPlaced(c, d);
    }
    forall u | u in t.users ensures TrashPlaced(t, u) && UserShares(t, u) {
      assert TrashPlaced(c, u) && UserShares(c, u);
    }
  }

  lemma LeftSums(p: Store, max: nat, user: Id, ds: set<Id>)
    requires Forest(p) && Covered(p, max) && Leaving(p, user, ds)
    ensures Covered(Left(p, user, ds), max)
    ensures StaysExact(p, Left(p, user, ds))
  {
    var t, c := Left(p, user, ds), CutOff(p, p.users[user].root, ds);
    forall u | u in t.users ensures CoveredAt(t, max, u) && Owned(t, u) == Owned(p, u) {
      assert CoveredAt(p, max, u);
    }
    ErasedIsCutOff(p, user, ds);
    CutOffExact(p, p.users[user].root, ds);
    forall d | d in t.dirs ensures Under(t, d) == Under(c, d) {
    }
    SameSumsExact(c, t);
    StaysExactTwice(p, c, t);
  }

  lemma LeftKeeps(p: Store, max: nat, user: Id, ds: set<Id>)
    requires Inv(p, max) && Leaving(p, user, ds) && Alone(p, user)
    ensures Inv(Left(p, user, ds), max)
  {
    NumberedFrame(p, Left(p, user, ds));
    LeftForest(p, user, ds);
    LeftPlaced(p, user, ds);
    LeftSums(p, max, user, ds);
    IndexedFrame(p, Erased(p, ds));
    DropUserIndexed(Erased(p, ds), user);
  }

  // What is left to others refers to a user who is no more.
  lemma LeftBroken(p: Store, max: nat, user: Id, ds: set<Id>)
    requires Inv(p, max) && Leaving(p, user, ds) && !Alone(p, user)
    ensures !Inv(Left(p, user, ds), max)
  {
    var t := Left(p, user, ds);
    ParentOutside(p, p.users[user].root, ds);
    if f :| f in p.files && p.files[f].owner == user {
      assert !FilePlaced(t, f);
    } else {
      assert UserShares(p, user);
      var f := p.users[user].shared[0];
      assert f in t.files && user in t.files[f].users && user !in t.users;
      assert !FileShares(t, f);
    }
  }

  // ---------- the request ----------

  // Seen before the request: no file outside the user's tree is shared with the user, or owned by the user and
  // not in the trash.
  ghost predicate LeavesNothing(s: Store, user: Id)
    requires user in s.users
  {
    var root := s.users[user].root;
    && (forall f :: f in s.users[user].shared ==> f in Under(s, root))
    && (forall f :: f in s.files && s.files[f].owner == user ==> f in Under(s, root) || f in s.users[user].deleted)
  }

  lemma {:induction false} OwnedInMembers(s: Store, fs: seq<Id>, u: Id, f: Id)
    ensures f in OwnedIn(s, fs, u) <==> f in fs && f in s.files && s.files[f].owner == u
  {
    if fs != [] {
      OwnedInMembers(s, fs[..|fs| - 1], u, f);
      assert fs == fs[..|fs| - 1] + [fs[|fs| - 1]];
    }
  }

  lemma {:induction false} PurgeAllUsers(s: Store, fs: seq<Id>, u: Id)
    requires u in s.users
    ensures
      var t := PurgeAll(s, fs);
      && t.dirs == s.dirs && t.users.Keys == s.users.Keys
      && t.users[u] == s.users[u].(quota := t.users[u].quota)
  {
    if fs != [] {
      PurgeAllUsers(s, fs[..|fs| - 1], u);
    }
  }

  // The store after the tree was emptied into the trash and the trash was purged.
  ghost function Emptying(s: Store, user: Id): Store
    requires user in s.users
  {
    var m := TrashAll(s, SubtreeFiles(s, s.users[user].root));
    DoPurge(m, user, TrashOf(m, user), []).0
  }

  lemma EmptyingPurges(s: Store, max: nat, user: Id)
    requires Inv(s, max) && user in s.users && max < WORD
    ensures
      var m, p := TrashAll(s, SubtreeFiles(s, s.users[user].root)), Emptying(s, user);
      && MovedToTrash(s, m, SubtreeFiles(s, s.users[user].root))
      && user in m.users && Inv(p, max) && StaysExact(s, p)
      && DoPurge(m, user, m.users[user].deleted, []) == (p, Done)
      && PurgedOut(m, user, m.users[user].deleted, p, PurgeAll(m, m.users[user].deleted))
  {
    var fs := SubtreeFiles(s, s.users[user].root);
    assert RootThere(s, user);
    SubtreeFilesLive(s, s.users[user].root);
    TrashAllMoves(s, max, fs);
    var m := TrashAll(s, fs);
    var list := m.users[user].deleted;
    WholeTrash(m, user);
    PurgeKeeps(m, max, user, list, []);
    PurgeIsDiscard(m, max, user, list);
  }

  lemma DeleteUserIsLeft(s: Store, max: nat, user: Id)
    requires Inv(s, max) && user in s.users && max < WORD
    ensures
      var p, ds := Emptying(s, user), Subtree(s.dirs, s.users[user].root);
      && Leaving(p, user, ds) && DoDeleteUser(s, user) == (Left(p, user, ds), Done)
  {
    var root := s.users[user].root;
    var fs, ds := SubtreeFiles(s, root), Subtree(s.dirs, root);
    var m, p := TrashAll(s, fs), Emptying(s, user);
    assert RootThere(s, user);
    EmptyingPurges(s, max, user);
    SubtreeFilesLive(s, root);
    SubtreeEmptied(s, m, root);
    PurgeAllUsers(m, m.users[user].deleted, user);
    assert TrashedUser(s, m, fs, user);
    PurgeErased(m, ds, user, m.users[user].deleted);
    assert Deleted(s, Walk(s, false, root)) == Erased(m, ds);
  }

  lemma EmptyingUser(s: Store, max: nat, user: Id, u: Id)
    requires Inv(s, max) && user in s.users && max < WORD && u in s.users
    ensures
      var p := Emptying(s, user);
      && p.users.Keys == s.users.Keys && p.users[u].root == s.users[u].root
      && p.users[u].shared == Select(s.users[u].shared, SubtreeFiles(s, s.users[user].root), false)
  {
    var fs := SubtreeFiles(s, s.users[user].root);
    var m := TrashAll(s, fs);
    EmptyingPurges(s, max, user);
    PurgeAllUsers(m, m.users[user].deleted, u);
    assert TrashedUser(s, m, fs, u);
  }

  lemma EmptyingFile(s: Store, max: nat, user: Id, f: Id)
    requires Inv(s, max) && user in s.users && max < WORD
    ensures
      var p := Emptying(s, user);
      && (f in p.files ==> f in s.files && p.files[f].owner == s.files[f].owner)
      && (f in s.files && s.files[f].owner == user ==>
            (f in p.files <==> f !in Under(s, s.users[user].root) && f !in s.users[user].deleted))
  {
    var root := s.users[user].root;
    var fs := SubtreeFiles(s, root);
    var m := TrashAll(s, fs);
    assert RootThere(s, user);
    EmptyingPurges(s, max, user);
    SubtreeFilesLive(s, root);
    assert TrashedUser(s, m, fs, user);
    OwnedInMembers(s, fs, user, f);
    assert f in s.files ==> TrashedFile(s, m, fs, f);
  }

  lemma AloneAfter(s: Store, max: nat, user: Id)
    requires Inv(s, max) && user in s.users && max < WORD && user in Emptying(s, user).users
    ensures Alone(Emptying(s, user), user) <==> LeavesNothing(s, user)
  {
    var p, root := Emptying(s, user), s.users[user].root;
    assert RootThere(s, user);
    SubtreeFilesLive(s, root);
    NoneSelected(s.users[user].shared, SubtreeFiles(s, root));
    EmptyingUser(s, max, user, user);
    forall f
      ensures f in p.files ==> f in s.files && p.files[f].owner == s.files[f].owner
      ensures f in s.files && s.files[f].owner == user ==>
                (f in p.files <==> f !in Under(s, root) && f !in s.users[user].deleted)
    {
      EmptyingFile(s, max, user, f);
    }
  }

  lemma NoneSelected(toks: seq<Id>, sel: seq<Id>)
    ensures Select(toks, sel, false) == [] <==> forall t :: t in toks ==> t in sel
  {
    if forall t :: t in toks ==> t in sel {
      SelectAll(toks, sel);
    }
  }

  // Deleting a user keeps the invariants exactly if nothing of the user is left to anyone else.
  lemma DeleteUserKeeps(s: Store, max: nat, user: Id)
    requires Inv(s, max) && user in s.users && max < WORD
    ensures
      var t := DoDeleteUser(s, user).0;
      && (Inv(t, max) <==> LeavesNothing(s, user))
      && StaysExact(s, t)
  {
    var p, ds := Emptying(s, user), Subtree(s.dirs, s.users[user].root);
    EmptyingPurges(s, max, user);
    DeleteUserIsLeft(s, max, user);
    AloneAfter(s, max, user);
    LeftSums(p, max, user, ds);
    if Alone(p, user) {
      LeftKeeps(p, max, user, ds);
    } else {
      LeftBroken(p, max, user, ds);
    }
  }
}
