/** The directory tree: ancestor chains, subtrees and walks. */
module Tree {
  import opened Text
  import opened Records
  import opened Drive

  // A parent exists and has a smaller id than its child.
  ghost predicate Climbs(par: Parents, d: Id)
    requires d in par
  {
    par[d] != NO_PARENT ==> par[d] in par && Val(par[d]) < Val(d)
  }

  ghost predicate Rooted(par: Parents) {
    NO_PARENT !in par && forall d {:trigger Climbs(par, d)} :: d in par ==> Climbs(par, d)
  }

  // ---------- chains ----------

  lemma {:induction false} ChainRank(par: Parents, x: Id, y: Id)
    requires y in Chain(par, x)
    ensures y in par && x in par && Val(y) <= Val(x)
    ensures Val(y) == Val(x) ==> y == x
    decreases Val(x)
  {
    if y != x {
      ChainRank(par, par[x], y);
    }
  }

  lemma {:induction false} ChainTransitive(par: Parents, x: Id, y: Id)
    requires y in Chain(par, x)
    ensures Chain(par, y) <= Chain(par, x)
    decreases Val(x)
  {
    if y != x {
      ChainTransitive(par, par[x], y);
    }
  }

  // In a forest a climb does not stop before a root: every directory on it has its parent on it, with a smaller id.
  lemma ChainClosed(par: Parents, x: Id, y: Id)
    requires Rooted(par) && y in Chain(par, x)
    ensures y in par
    ensures par[y] == NO_PARENT || (par[y] in Chain(par, x) && Val(par[y]) < Val(y))
  {
    ChainRank(par, x, y);
    ChainTransitive(par, x, y);
    ChainSelf(par, y);
    assert Climbs(par, y);
  }

  // A way up: each directory on it is there, and its parent comes next.
  ghost predicate PathUp(par: Parents, path: seq<Id>) {
    && (forall i :: 0 <= i < |path| ==> path[i] in par)
    && (forall i :: 0 < i < |path| ==> path[i] == par[path[i - 1]])
  }

  ghost predicate LeadsTo(par: Parents, x: Id, y: Id) {
    exists path :: PathUp(par, path) && path != [] && path[0] == x && path[|path| - 1] == y
  }

  // In a forest the chain of a directory holds exactly what a way up from it reaches.
  lemma ChainIsPath(par: Parents, x: Id, y: Id)
    requires Rooted(par)
    ensures y in Chain(par, x) <==> LeadsTo(par, x, y)
  {
    if y in Chain(par, x) {
      var path := PathTo(par, x, y);
    }
    if LeadsTo(par, x, y) {
      var path :| PathUp(par, path) && path != [] && path[0] == x && path[|path| - 1] == y;
      PathInChain(par, path);
    }
  }

  lemma {:induction false} PathTo(par: Parents, x: Id, y: Id) returns (path: seq<Id>)
    requires Rooted(par) && y in Chain(par, x)
    ensures PathUp(par, path) && path != [] && path[0] == x && path[|path| - 1] == y
    decreases Val(x)
  {
    if y == x {
      path := [x];
    } else {
      var rest := PathTo(par, par[x], y);
      path := [x] + rest;
    }
  }

  lemma {:induction false} PathInChain(par: Parents, path: seq<Id>)
    requires Rooted(par) && PathUp(par, path) && path != []
    ensures path[|path| - 1] in Chain(par, path[0])
    decreases |path|
  {
    if |path| > 1 {
      var rest := path[1..];
      assert path[1] == par[path[0]] && path[0] in par;
      assert forall i :: 0 <= i < |rest| ==> rest[i] == path[i + 1];
      PathInChain(par, rest);
      ChainSelf(par, path[0]);
      ChainTransitive(par, path[0], path[1]);
    } else {
      ChainSelf(par, path[0]);
    }
  }

  // Of two ancestors of a directory one is an ancestor of the other.
  lemma {:induction false} ChainLinear(par: Parents, x: Id, a: Id, b: Id)
    requires a in Chain(par, x) && b in Chain(par, x) && Val(a) <= Val(b)
    ensures a in Chain(par, b)
    decreases Val(x)
  {
    if b != x {
      if a == x {
        ChainRank(par, x, b);
      } else {
        ChainLinear(par, par[x], a, b);
      }
    }
  }

  // The chain depends only on the parents of its own members.
  lemma {:induction false} ChainFrame(par: Parents, par': Parents, x: Id)
    requires Rooted(par) && (x in par <==> x in par')
    requires forall d :: d in Chain(par, x) ==> d in par && d in par' && par'[d] == par[d]
    ensures Chain(par', x) == Chain(par, x)
    decreases Val(x)
  {
    if x in par && par[x] != NO_PARENT {
      assert Climbs(par, x);
      ChainSelf(par, par[x]);
      ChainFrame(par, par', par[x]);
    }
  }

  // Siblings have no common descendants.
  lemma SiblingsApart(par: Parents, a: Id, b: Id, x: Id)
    requires Rooted(par) && a in par && b in par && par[a] == par[b] != NO_PARENT
    requires a in Chain(par, x) && b in Chain(par, x)
    ensures a == b
  {
    var lo, hi := if Val(a) <= Val(b) then a else b, if Val(a) <= Val(b) then b else a;
    ChainLinear(par, x, lo, hi);
    if lo != hi {
      assert Climbs(par, hi) && Climbs(par, lo) && par[hi] == par[lo];
      assert Chain(par, hi) == {hi} + Chain(par, par[hi]);
      ChainRank(par, par[hi], lo);
    }
  }

  // A proper descendant of d lies below a child of d.
  lemma {:induction false} ChildOnPath(par: Parents, x: Id, d: Id) returns (c: Id)
    requires Rooted(par) && d in Chain(par, x) && x != d
    ensures c in Chain(par, x) && c in par && par[c] == d
    decreases Val(x)
  {
    if par[x] == d {
      c := x;
    } else {
      c := ChildOnPath(par, par[x], d);
    }
  }

  // ---------- child lists ----------

  // The directory is in its parent's list, and its own list holds its children, each once.
  ghost predicate DirLinked(dirs: map<Id, Dir>, d: Id)
    requires d in dirs
  {
    && (dirs[d].parent != NO_PARENT ==> dirs[d].parent in dirs && d in dirs[dirs[d].parent].dirs)
    && (forall c :: c in dirs[d].dirs ==> c in dirs && dirs[c].parent == d)
    && NoDup(dirs[d].dirs)
  }

  ghost predicate Linked(dirs: map<Id, Dir>) {
    forall d {:trigger DirLinked(dirs, d)} :: d in dirs ==> DirLinked(dirs, d)
  }

  // The id was handed out by a counter that now stands at next.
  ghost predicate Handed(d: Id, next: nat) {
    Val(d) < next
  }

  ghost predicate TreeShape(s: Store) {
    && Rooted(Par(s.dirs)) && Linked(s.dirs)
    && (forall d {:trigger Handed(d, s.nextDir)} :: d in s.dirs ==> Handed(d, s.nextDir))
  }

  // ---------- walks ----------

  // kids is a prefix of the children of d.
  ghost predicate KidsOf(s: Store, d: Id, kids: seq<Id>) {
    d in s.dirs && kids <= s.dirs[d].dirs
  }

  // A walk visits exactly the subtree.
  lemma {:induction false} WalkMembers(s: Store, pre: bool, d: Id, x: Id)
    requires TreeShape(s) && d in s.dirs
    ensures x in Walk(s, pre, d) <==> x in Subtree(s.dirs, d)
    decreases Room(s, d), |s.dirs[d].dirs| + 1
  {
    var par, kids := Par(s.dirs), s.dirs[d].dirs;
    WalkAllMembers(s, pre, d, kids, x);
    SubtreeSplit(s, d, x);
  }

  // One of kids is x or an ancestor of x.
  ghost predicate Above(par: Parents, kids: seq<Id>, x: Id) {
    exists c :: c in kids && c in Chain(par, x)
  }

  lemma SubtreeSplit(s: Store, d: Id, x: Id)
    requires TreeShape(s) && d in s.dirs
    ensures x in Subtree(s.dirs, d) <==> x == d || (x in s.dirs && Above(Par(s.dirs), s.dirs[d].dirs, x))
  {
    var par, kids := Par(s.dirs), s.dirs[d].dirs;
    ChainSelf(par, d);
    if x in s.dirs && d in Chain(par, x) && x != d {
      var c := ChildOnPath(par, x, d);
      assert DirLinked(s.dirs, c);
    }
    if Above(par, kids, x) {
      var c :| c in kids && c in Chain(par, x);
      KidRoom(s, d, c);
      ChainTransitive(par, x, c);
      ChainSelf(par, c);
    }
  }

  lemma AboveSnoc(par: Parents, kids: seq<Id>, c: Id, x: Id)
    ensures Above(par, kids + [c], x) <==> Above(par, kids, x) || c in Chain(par, x)
  {
    assert forall k :: k in kids + [c] <==> k in kids || k == c;
  }

  lemma {:induction false} WalkAllMembers(s: Store, pre: bool, d: Id, kids: seq<Id>, x: Id)
    requires TreeShape(s) && KidsOf(s, d, kids)
    ensures x in WalkAll(s, pre, d, kids) <==> x in s.dirs && Above(Par(s.dirs), kids, x)
    decreases Room(s, d), |kids|
  {
    if kids != [] {
      var init, last := kids[..|kids| - 1], kids[|kids| - 1];
      WalkAllStep(s, pre, d, kids);
      WalkAllMembers(s, pre, d, init, x);
      WalkMembers(s, pre, last, x);
      AboveSnoc(Par(s.dirs), init, last, x);
    }
  }

  lemma WalkAllStep(s: Store, pre: bool, d: Id, kids: seq<Id>)
    requires TreeShape(s) && KidsOf(s, d, kids) && kids != []
    ensures
      var init, last := kids[..|kids| - 1], kids[|kids| - 1];
      && kids == init + [last] && KidsOf(s, d, init) && last in s.dirs && s.dirs[last].parent == d
      && Room(s, last) < Room(s, d)
      && WalkAll(s, pre, d, kids) == WalkAll(s, pre, d, init) + Walk(s, pre, last)
  {
    var last := kids[|kids| - 1];
    assert last in s.dirs[d].dirs;
    KidRoom(s, d, last);
  }

  lemma KidRoom(s: Store, d: Id, c: Id)
    requires TreeShape(s) && d in s.dirs && c in s.dirs[d].dirs
    ensures c in s.dirs && Val(d) < Val(c) < s.nextDir && Room(s, c) < Room(s, d)
    ensures c in Par(s.dirs) && Par(s.dirs)[c] == d != NO_PARENT
  {
    assert DirLinked(s.dirs, d);
    assert Climbs(Par(s.dirs), c) && Handed(c, s.nextDir);
  }

  lemma ChainSelf(par: Parents, d: Id)
    requires d in par
    ensures d in Chain(par, d)
    ensures par[d] != NO_PARENT && Rooted(par) ==> par[d] in Chain(par, d)
  {
    if Rooted(par) {
      assert Climbs(par, d);
    }
  }

  // A walk visits no directory twice.
  lemma {:induction false} WalkNoDup(s: Store, pre: bool, d: Id)
    requires TreeShape(s) && d in s.dirs
    ensures NoDup(Walk(s, pre, d))
    decreases Room(s, d), |s.dirs[d].dirs| + 1
  {
    var kids := s.dirs[d].dirs;
    var w := WalkAll(s, pre, d, kids);
    WalkAllNoDup(s, pre, d, kids);
    assert d !in w by {
      WalkAllMembers(s, pre, d, kids, d);
      if Above(Par(s.dirs), kids, d) {
        var c :| c in kids && c in Chain(Par(s.dirs), d);
        KidRoom(s, d, c);
        ChainRank(Par(s.dirs), d, c);
      }
    }
  }

  lemma {:induction false} WalkAllNoDup(s: Store, pre: bool, d: Id, kids: seq<Id>)
    requires TreeShape(s) && KidsOf(s, d, kids)
    ensures NoDup(WalkAll(s, pre, d, kids))
    decreases Room(s, d), |kids|
  {
    if kids != [] {
      var init, last := kids[..|kids| - 1], kids[|kids| - 1];
      WalkAllStep(s, pre, d, kids);
      WalkAllNoDup(s, pre, d, init);
      WalkNoDup(s, pre, last);
      forall x | x in WalkAll(s, pre, d, init) ensures x !in Walk(s, pre, last) {
        WalksApart(s, pre, d, kids, x);
      }
      NoDupConcat(WalkAll(s, pre, d, init), Walk(s, pre, last));
    }
  }

  lemma WalksApart(s: Store, pre: bool, d: Id, kids: seq<Id>, x: Id)
    requires TreeShape(s) && KidsOf(s, d, kids) && kids != []
    requires x in WalkAll(s, pre, d, kids[..|kids| - 1])
    ensures x !in Walk(s, pre, kids[|kids| - 1])
  {
    var init, last := kids[..|kids| - 1], kids[|kids| - 1];
    WalkAllStep(s, pre, d, kids);
    WalkAllMembers(s, pre, d, init, x);
    WalkMembers(s, pre, last, x);
    if x in Walk(s, pre, last) {
      var c :| c in init && c in Chain(Par(s.dirs), x);
      assert c in s.dirs[d].dirs;
      KidRoom(s, d, c);
      KidRoom(s, d, last);
      assert DirLinked(s.dirs, d);
      SiblingsApart(Par(s.dirs), c, last, x);
      LastIsNew(s.dirs[d].dirs, kids);
    }
  }

  lemma LastIsNew(list: seq<Id>, prefix: seq<Id>)
    requires NoDup(list) && prefix <= list && prefix != []
    ensures prefix[|prefix| - 1] !in prefix[..|prefix| - 1]
  {
  }

  lemma NoDupConcat(a: seq<Id>, b: seq<Id>)
    requires NoDup(a) && NoDup(b) && forall x :: x in a ==> x !in b
    ensures NoDup(a + b)
  {
    var c := a + b;
    forall i, j | 0 <= i < j < |c| ensures c[i] != c[j] {
      if i < |a| <= j {
        assert c[i] in a && c[j] in b;
      } else if |a| <= i {
        assert c[i] == b[i - |a|] && c[j] == b[j - |a|];
      }
    }
  }
}
