/** Requests that add directories, or change nothing that the invariants look at. */
module KeepBasics {
  import opened Basics
  import opened Text
  import opened Keys
  import opened Records
  import opened DataHandlers
  import opened Drive
  import opened Tree
  import opened Invariants

  // t differs from s only in what no invariant looks at: names, extensions, dates, tags, locations,
  // modifiers, revisions, and counters that went on.
  ghost predicate Similar(s: Store, t: Store) {
    && t.dirs.Keys == s.dirs.Keys && t.files.Keys == s.files.Keys && t.users.Keys == s.users.Keys
    && (forall d :: d in s.dirs ==> t.dirs[d].parent == s.dirs[d].parent && t.dirs[d].files == s.dirs[d].files
                                    && t.dirs[d].dirs == s.dirs[d].dirs && t.dirs[d].size == s.dirs[d].size
                                    && t.dirs[d].owner == s.dirs[d].owner)
    && (forall f :: f in s.files ==> t.files[f].owner == s.files[f].owner && t.files[f].parent == s.files[f].parent
                                     && t.files[f].size == s.files[f].size && t.files[f].users == s.files[f].users)
    && (forall u :: u in s.users ==> t.users[u].email == s.users[u].email && t.users[u].root == s.users[u].root
                                     && t.users[u].shared == s.users[u].shared && t.users[u].quota == s.users[u].quota
                                     && t.users[u].deleted == s.users[u].deleted)
    && t.nextUser >= s.nextUser && t.nextDir >= s.nextDir && t.nextFile >= s.nextFile
    && t.index == s.index && t.emails == s.emails
  }

  lemma SimilarPar(s: Store, t: Store)
    requires Similar(s, t)
    ensures Par(t.dirs) == Par(s.dirs)
  {
  }

  lemma SimilarForest(s: Store, t: Store)
    requires Similar(s, t) && Forest(s)
    ensures Forest(t)
  {
    SimilarPar(s, t);
    forall d | d in t.dirs ensures DirLinked(t.dirs, d) && Handed(d, t.nextDir) {
      assert DirLinked(s.dirs, d) && Handed(d, s.nextDir);
    }
    forall u | u in t.users ensures RootThere(t, u) {
      assert RootThere(s, u);
    }
  }

  lemma SimilarPlaced(s: Store, t: Store)
    requires Similar(s, t) && Placed(s)
    ensures Placed(t)
  {
    forall f | f in t.files ensures FilePlaced(t, f) {
      assert FilePlaced(s, f);
    }
    forall d | d in t.dirs ensures ListPlaced(t, d) {
      assert ListPlaced(s, d);
    }
    forall u | u in t.users ensures TrashPlaced(t, u) {
      assert TrashPlaced(s, u);
    }
  }

  lemma SimilarSymmetric(s: Store, t: Store)
    requires Similar(s, t) && Symmetric(s)
    ensures Symmetric(t)
  {
    forall f | f in t.files ensures FileShares(t, f) {
      assert FileShares(s, f);
    }
    forall u | u in t.users ensures UserShares(t, u) {
      assert UserShares(s, u);
    }
  }

  lemma SimilarSums(s: Store, t: Store)
    requires Similar(s, t)
    ensures forall d :: Under(t, d) == Under(s, d) && Sum(t.files, Under(t, d)) == Sum(s.files, Under(s, d))
    ensures forall u :: Owned(t, u) == Owned(s, u) && Sum(t.files, Owned(t, u)) == Sum(s.files, Owned(s, u))
  {
    SimilarPar(s, t);
    forall d ensures Under(t, d) == Under(s, d) && Sum(t.files, Under(t, d)) == Sum(s.files, Under(s, d)) {
      assert Under(t, d) == Under(s, d);
      SumSame(s.files, t.files, Under(s, d));
    }
    forall u ensures Owned(t, u) == Owned(s, u) && Sum(t.files, Owned(t, u)) == Sum(s.files, Owned(s, u)) {
      assert Owned(t, u) == Owned(s, u);
      SumSame(s.files, t.files, Owned(s, u));
    }
  }

  lemma SimilarKeeps(s: Store, t: Store, max: nat)
    requires Similar(s, t) && Inv(s, max)
    ensures Inv(t, max) && StaysExact(s, t)
  {
    NumberedFrame(s, t);
    SimilarForest(s, t);
    SimilarPlaced(s, t);
    SimilarSymmetric(s, t);
    IndexedFrame(s, t);
    SimilarSums(s, t);
    SameSumsExact(s, t);
    forall u | u in t.users ensures CoveredAt(t, max, u) {
      assert CoveredAt(s, max, u);
    }
  }

  // ---------- new directories ----------

  lemma FreshIds(s: Store, kind: TicketKind)
    requires Numbered(s)
    ensures IsKey(NextId(s, kind)) && NextId(s, kind) != NO_PARENT && IsId(NextId(s, kind))
    ensures Val(NextId(s, kind)) == Ticket(s, kind)
    ensures kind == UserTicket ==> NextId(s, kind) !in s.users
    ensures kind == DirTicket ==> NextId(s, kind) !in s.dirs
    ensures kind == FileTicket ==> NextId(s, kind) !in s.files
  {
    ToStrRoundTrip(Ticket(s, kind));
    assert !IsDigit(NO_PARENT[0]);
    var id := NextId(s, kind);
    assert !IsNumbered(id, Ticket(s, kind));
  }

  // A ticket may be lost, but none may be used twice: the counters must not wrap.
  lemma TicketKeeps(s: Store, max: nat, kind: TicketKind)
    requires Inv(s, max) && Ticket(s, kind) + 1 < WORD
    ensures Inv(TakeTicket(s, kind), max) && StaysExact(s, TakeTicket(s, kind))
  {
    SimilarKeeps(s, TakeTicket(s, kind), max);
  }

  // The new directory p is a leaf without files, listed last in its parent.
  ghost function WithDir(s: Store, id: Id, dir: Dir): Store {
    var dirs := s.dirs[id := dir];
    s.(dirs := if dir.parent in s.dirs then dirs[dir.parent := dirs[dir.parent].(dirs := dirs[dir.parent].dirs + [id])]
               else dirs)
  }

  ghost predicate NewLeaf(s: Store, id: Id, dir: Dir) {
    && id !in s.dirs && id != NO_PARENT && Val(id) < s.nextDir
    && (forall d :: d in s.dirs ==> Handed(d, Val(id)))
    && dir.files == [] && dir.dirs == [] && dir.size == 0
    && (dir.parent == NO_PARENT || dir.parent in s.dirs)
  }

  lemma NewLeafForest(s: Store, id: Id, dir: Dir)
    requires Forest(s) && NewLeaf(s, id, dir)
    ensures Forest(WithDir(s, id, dir))
  {
    var t := WithDir(s, id, dir);
    assert Par(t.dirs) == Par(s.dirs)[id := dir.parent];
    assert dir.parent != NO_PARENT ==> Handed(dir.parent, Val(id));
    RootedPut(Par(s.dirs), id, dir.parent);
    forall d | d in t.dirs ensures DirLinked(t.dirs, d) && Handed(d, t.nextDir) {
      NewLeafLinked(s, id, dir, d);
      assert d != id ==> Handed(d, s.nextDir);
    }
    forall u | u in t.users ensures RootThere(t, u) {
      assert RootThere(s, u);
    }
  }

  lemma RootedPut(par: Parents, id: Id, parent: Id)
    requires Rooted(par) && id !in par && id != NO_PARENT
    requires parent == NO_PARENT || (parent in par && Val(parent) < Val(id))
    ensures Rooted(par[id := parent])
  {
    var par' := par[id := parent];
    forall d | d in par' ensures Climbs(par', d) {
      assert d in par ==> Climbs(par, d);
    }
  }

  lemma NewLeafLinked(s: Store, id: Id, dir: Dir, d: Id)
    requires Linked(s.dirs) && NewLeaf(s, id, dir) && d in WithDir(s, id, dir).dirs
    ensures DirLinked(WithDir(s, id, dir).dirs, d)
  {
    if d != id {
      assert DirLinked(s.dirs, d);
    }
  }

  lemma NewLeafPlaced(s: Store, id: Id, dir: Dir)
    requires Placed(s) && NewLeaf(s, id, dir)
    ensures Placed(WithDir(s, id, dir))
  {
    var t := WithDir(s, id, dir);
    forall d | d in t.dirs ensures ListPlaced(t, d) {
      if d != id {
        assert ListPlaced(s, d);
      }
    }
    forall f | f in t.files ensures FilePlaced(t, f) {
      assert FilePlaced(s, f);
    }
    forall u | u in t.users ensures TrashPlaced(t, u) {
      assert TrashPlaced(s, u);
    }
  }

  lemma NewLeafSymmetric(s: Store, id: Id, dir: Dir)
    requires Symmetric(s) && NewLeaf(s, id, dir)
    ensures Symmetric(WithDir(s, id, dir))
  {
    var t := WithDir(s, id, dir);
    forall f | f in t.files ensures FileShares(t, f) {
      assert FileShares(s, f);
    }
    forall u | u in t.users ensures UserShares(t, u) {
      assert UserShares(s, u);
    }
  }

  lemma NewLeafUnder(s: Store, id: Id, dir: Dir, d: Id)
    requires Forest(s) && Placed(s) && NewLeaf(s, id, dir)
    ensures Under(WithDir(s, id, dir), d) == if d == id then {} else Under(s, d)
  {
    var t := WithDir(s, id, dir);
    assert Par(t.dirs) == Par(s.dirs)[id := dir.parent];
    forall f | f in s.files
      ensures f in Under(t, d) <==> d != id && f in Under(s, d)
    {
      var p := s.files[f].parent;
      assert Live(t, f) <==> Live(s, f);
      if p in s.dirs {
        forall x | x in Chain(Par(s.dirs), p) ensures x in s.dirs {
          ChainRank(Par(s.dirs), p, x);
        }
        ChainFrame(Par(s.dirs), Par(t.dirs), p);
      }
    }
  }

  lemma NewLeafKeeps(s: Store, id: Id, dir: Dir, max: nat)
    requires Inv(s, max) && NewLeaf(s, id, dir) && IsNumbered(id, s.nextDir)
    ensures Inv(WithDir(s, id, dir), max)
    ensures forall g {:trigger Exact(s, g)} :: Exact(s, g) && id !in g.dirs ==> Exact(WithDir(s, id, dir), g)
  {
    var t := WithDir(s, id, dir);
    NumberedFrame(s, t);
    IndexedFrame(s, t);
    NewLeafForest(s, id, dir);
    NewLeafPlaced(s, id, dir);
    NewLeafSymmetric(s, id, dir);
    forall u | u in t.users ensures CoveredAt(t, max, u) {
      assert Owned(t, u) == Owned(s, u);
      assert CoveredAt(s, max, u);
    }
    forall g | Exact(s, g) && id !in g.dirs ensures Exact(t, g) {
      NewLeafExact(s, id, dir, g);
    }
  }

  lemma NewLeafExact(s: Store, id: Id, dir: Dir, g: Ledger)
    requires Forest(s) && Placed(s) && NewLeaf(s, id, dir) && Exact(s, g) && id !in g.dirs
    ensures Exact(WithDir(s, id, dir), g)
  {
    var t := WithDir(s, id, dir);
    forall d | d in t.dirs ensures SizeFits(t, g, d) {
      NewLeafUnder(s, id, dir, d);
      NewLeafSize(s, id, dir, d);
      if d != id {
        assert SizeFits(s, g, d);
      }
    }
    forall u | u in t.users ensures MeteredAt(t, g, u) {
      assert Owned(t, u) == Owned(s, u);
      assert MeteredAt(s, g, u);
    }
  }

  lemma NewLeafSize(s: Store, id: Id, dir: Dir, d: Id)
    requires NewLeaf(s, id, dir) && d in WithDir(s, id, dir).dirs
    ensures WithDir(s, id, dir).dirs[d].size == if d == id then 0 else s.dirs[d].size
    ensures d != id ==> d in s.dirs
  {
  }

  lemma NewDirectoryKeeps(s: Store, max: nat, owner: Id, name: string, date: string, parent: Id)
    requires Inv(s, max) && s.nextDir + 1 < WORD
    ensures Inv(DirectoryAdded(s, owner, name, date, parent).0, max)
    ensures StaysExact(s, DirectoryAdded(s, owner, name, date, parent).0)
  {
    TicketKeeps(s, max, DirTicket);
    FreshIds(s, DirTicket);
    if parent == NO_PARENT || parent in s.dirs {
      forall d | d in s.dirs ensures Handed(d, Val(NextId(s, DirTicket))) {
        assert IsNumbered(d, s.nextDir);
      }
      NewLeafKeeps(TakeTicket(s, DirTicket), NextId(s, DirTicket), Dir(name, date, "", owner, parent, [], [], 0), max);
      forall g | Exact(s, g) ensures Exact(TakeTicket(s, DirTicket), g) && NextId(s, DirTicket) !in g.dirs {
      }
    }
  }

  lemma SetDatesSimilar(s: Store, at: Id, date: string)
    ensures Similar(s, s.(dirs := SetDates(s.dirs, at, date)))
  {
  }

  lemma DoNewDirectoryKeeps(s: Store, max: nat, user: Id, name: string, date: string, parentId: Id)
    requires Inv(s, max) && s.nextDir + 1 < WORD
    ensures Inv(DoNewDirectory(s, user, name, date, parentId).0, max)
    ensures StaysExact(s, DoNewDirectory(s, user, name, date, parentId).0)
  {
    if parentId != LABEL_ZERO || user in s.users {
      var parent := if parentId == LABEL_ZERO then s.users[user].root else parentId;
      NewDirectoryKeeps(s, max, user, name, date, parent);
      var s1 := DirectoryAdded(s, user, name, date, parent).0;
      SetDatesSimilar(s1, parent, date);
      SimilarKeeps(s1, s1.(dirs := SetDates(s1.dirs, parent, date)), max);
    }
  }
}
