/** What purging, recovering and the deletion of a user answer, and what they change in the records. */
module TrashAnswers {
  import opened Basics
  import opened Text
  import opened Records
  import opened DataHandlers
  import opened Drive
  import opened Tree
  import opened Invariants
  import opened KeepFiles
  import opened KeepRecover
  import opened KeepMany
  import opened KeepDelete
  import opened KeepLeave
  import opened Answers

  // ---------- purging ----------

  // The files gone have left the store and their sizes the quota; rest is what stays in the trash.
  ghost predicate FilesPurged(s: Store, t: Store, user: Id, gone: set<Id>, rest: seq<Id>)
    requires user in s.users
  {
    var u := s.users[user];
    && Sum(s.files, gone) <= u.quota
    && t == s.(files := s.files - gone,
               users := s.users[user := u.(quota := u.quota - Sum(s.files, gone), deleted := rest)])
  }

  lemma PurgeTrashAnswers(s: Store, max: nat, user: Id)
    requires Inv(s, max) && max < WORD
    ensures
      var (t, r) := Step(s, max, PurgeTrash(user));
      && (user !in s.users ==> t == s && r == Failed(STATUS_KEY_NOT_FOUND))
      && (user in s.users ==> FilesPurged(s, t, user, (set f | f in s.users[user].deleted), []) && r == Done)
  {
    if user in s.users {
      WholeTrash(s, user);
      PurgeGives(s, max, user, s.users[user].deleted, []);
    }
  }

  // Exactly the selected files of the trash are purged; the others stay in order.
  lemma PurgeSelectedAnswers(s: Store, max: nat, user: Id, selected: seq<Id>)
    requires Inv(s, max) && max < WORD
    ensures
      var (t, r) := Step(s, max, PurgeSelected(user, selected));
      && (user !in s.users ==> t == s && r == Failed(STATUS_KEY_NOT_FOUND))
      && (user in s.users ==>
            var list := s.users[user].deleted;
            && FilesPurged(s, t, user, (set f | f in list && f in selected), Select(list, selected, false))
            && r == Done)
  {
    if user in s.users {
      var list := s.users[user].deleted;
      SelectedTrash(s, user, selected);
      PurgeGives(s, max, user, Select(list, selected, true), Select(list, selected, false));
      SelectedSet(list, selected);
    }
  }

  lemma SelectedSet(list: seq<Id>, selected: seq<Id>)
    ensures SetOf(Select(list, selected, true)) == set f | f in list && f in selected
  {
  }

  lemma PurgeGives(s: Store, max: nat, user: Id, ids: seq<Id>, rest: seq<Id>)
    requires Inv(s, max) && max < WORD && AllTrashOf(s, user, ids) && rest == Select(s.users[user].deleted, ids, false)
    ensures FilesPurged(s, DoPurge(s, user, ids, rest).0, user, SetOf(ids), rest)
    ensures DoPurge(s, user, ids, rest).1 == Done
  {
    PurgeKeeps(s, max, user, ids, rest);
    DiscardEachGives(s, max, user, ids);
  }

  lemma {:induction false} DiscardEachGives(s: Store, max: nat, user: Id, fs: seq<Id>)
    requires Inv(s, max) && max < WORD && AllTrashOf(s, user, fs)
    ensures FilesPurged(s, DiscardEach(s, fs), user, SetOf(fs), Select(s.users[user].deleted, fs, false))
  {
    if fs == [] {
      SelectNone(s.users[user].deleted);
      assert s.users[user := s.users[user]] == s.users && SetOf(fs) == {} && s.files - {} == s.files;
    } else {
      var init, f := fs[..|fs| - 1], fs[|fs| - 1];
      assert fs == init + [f];
      DiscardEachGives(s, max, user, init);
      PurgeIsDiscard(s, max, user, init);
      PurgedOneMore(s, DiscardEach(s, init), max, user, init, f);
    }
  }

  lemma PurgedOneMore(s: Store, t: Store, max: nat, user: Id, fs: seq<Id>, f: Id)
    requires Inv(t, max) && max < WORD && user in s.users && f in s.users[user].deleted && f !in fs
    requires FilesPurged(s, t, user, SetOf(fs), Select(s.users[user].deleted, fs, false))
    ensures FilesPurged(s, Discarded(t, f), user, SetOf(fs + [f]), Select(s.users[user].deleted, fs + [f], false))
  {
    var list := s.users[user].deleted;
    SelectSnocAll(list, fs, f);
    assert f in Select(list, fs, false);
    DiscardQuota(t, max, user, f);
    SetOfSnoc(fs, f);
    SumMore(s.files, SetOf(fs), f);
    PurgedParts(s, t, user, SetOf(fs), Select(list, fs, false), f);
  }

  lemma DiscardQuota(t: Store, max: nat, user: Id, f: Id)
    requires Inv(t, max) && max < WORD && user in t.users && f in t.users[user].deleted
    ensures f in t.files && t.files[f].owner == user && t.files[f].size <= t.users[user].quota
    ensures user in Discarded(t, f).users
    ensures Discarded(t, f).users[user].quota == t.users[user].quota - t.files[f].size
  {
    assert TrashPlaced(t, user);
    assert IsDiscard(t, Discarded(t, f), f);
    DiscardCovered(t, Discarded(t, f), max, f);
  }

  lemma SumMore(files: map<Id, File>, fs: set<Id>, f: Id)
    requires f in files && f !in fs
    ensures Sum(files, fs + {f}) == Sum(files, fs) + files[f].size
  {
    SumTake(files, fs + {f}, f);
    assert fs + {f} - {f} == fs;
  }

  lemma PurgedParts(s: Store, t: Store, user: Id, gone: set<Id>, rest: seq<Id>, f: Id)
    requires user in s.users && FilesPurged(s, t, user, gone, rest) && f !in gone
    requires f in t.files && t.files[f].owner == user && s.files[f].size <= t.users[user].quota
    requires Discarded(t, f).users[user].quota == t.users[user].quota - s.files[f].size
    requires Sum(s.files, gone + {f}) == Sum(s.files, gone) + s.files[f].size
    ensures FilesPurged(s, Discarded(t, f), user, gone + {f}, Remove(rest, f))
  {
    assert s.files - gone - {f} == s.files - (gone + {f});
  }

  // ---------- recovering ----------

  // Those of the files whose home is d.
  ghost function Returning(s: Store, fs: seq<Id>, d: Id): seq<Id>
    requires forall f :: f in fs ==> f in s.files && s.files[f].owner in s.users
  {
    if fs == [] then []
    else Returning(s, fs[..|fs| - 1], d) + if Home(s, fs[|fs| - 1]) == d then [fs[|fs| - 1]] else []
  }

  // Those of the files that come back at or below d.
  ghost function Back(s: Store, fs: seq<Id>, d: Id): set<Id>
    requires forall f :: f in fs ==> f in s.files && s.files[f].owner in s.users
  {
    set f | f in fs && d in Way(s, Home(s, f))
  }

  // The record b is a with these files listed behind the others and, if it grew, with this many more bytes.
  ghost predicate DirBack(a: Dir, b: Dir, list: seq<Id>, grew: bool, more: nat) {
    b == a.(files := a.files + list, size := if grew then (a.size + more) % WORD else a.size)
  }

  ghost predicate RecoveredDir(s: Store, t: Store, fs: seq<Id>, d: Id)
    requires forall f :: f in fs ==> f in s.files && s.files[f].owner in s.users
    requires d in s.dirs && d in t.dirs
  {
    DirBack(s.dirs[d], t.dirs[d], Returning(s, fs, d), Back(s, fs, d) != {}, Sum(s.files, Back(s, fs, d)))
  }

  // A file whose directory is gone moves to the root of its owner.
  ghost predicate RecoveredFile(s: Store, t: Store, user: Id, fs: seq<Id>, f: Id)
    requires user in s.users && f in s.files && f in t.files
  {
    t.files[f] == if f in fs && s.files[f].parent !in s.dirs then
                    s.files[f].(parent := s.users[user].root, modifier := user)
                  else s.files[f]
  }

  // The files fs of the trash of the user are back in their directories, or in the root; rest stays in the trash.
  ghost predicate FilesRecovered(s: Store, t: Store, user: Id, fs: seq<Id>, rest: seq<Id>)
    requires user in s.users && forall f :: f in fs ==> f in s.files && s.files[f].owner in s.users
  {
    && t == s.(dirs := t.dirs, files := t.files, users := s.users[user := s.users[user].(deleted := rest)])
    && t.dirs.Keys == s.dirs.Keys && t.files.Keys == s.files.Keys
    && (forall d {:trigger RecoveredDir(s, t, fs, d)} :: d in s.dirs ==> RecoveredDir(s, t, fs, d))
    && (forall f {:trigger RecoveredFile(s, t, user, fs, f)} :: f in s.files ==> RecoveredFile(s, t, user, fs, f))
  }

  ghost predicate OfUser(s: Store, user: Id, fs: seq<Id>) {
    user in s.users && forall f :: f in fs ==> f in s.files && s.files[f].owner == user
  }

  lemma TrashOfUser(s: Store, user: Id, fs: seq<Id>)
    requires Placed(s) && AllTrashOf(s, user, fs)
    ensures OfUser(s, user, fs)
  {
    assert TrashPlaced(s, user);
  }

  lemma RecoverTrashAnswers(s: Store, max: nat, user: Id)
    requires Inv(s, max)
    ensures
      var (t, r) := Step(s, max, RecoverTrash(user));
      && (user !in s.users ==> t == s && r == Failed(STATUS_KEY_NOT_FOUND))
      && (user in s.users ==>
            OfUser(s, user, s.users[user].deleted) && FilesRecovered(s, t, user, s.users[user].deleted, [])
              && r == Done)
  {
    if user in s.users {
      WholeTrash(s, user);
      RecoverGives(s, max, user, s.users[user].deleted, []);
    }
  }

  // Exactly the selected files of the trash come back; the others stay in order.
  lemma RecoverSelectedAnswers(s: Store, max: nat, user: Id, selected: seq<Id>)
    requires Inv(s, max)
    ensures
      var (t, r) := Step(s, max, RecoverSelected(user, selected));
      && (user !in s.users ==> t == s && r == Failed(STATUS_KEY_NOT_FOUND))
      && (user in s.users ==>
            var list := s.users[user].deleted;
            var picked := Select(list, selected, true);
            && OfUser(s, user, picked) && FilesRecovered(s, t, user, picked, Select(list, selected, false))
               && r == Done)
  {
    if user in s.users {
      var list := s.users[user].deleted;
      SelectedTrash(s, user, selected);
      RecoverGives(s, max, user, Select(list, selected, true), Select(list, selected, false));
    }
  }

  lemma RecoverGives(s: Store, max: nat, user: Id, ids: seq<Id>, rest: seq<Id>)
    requires Inv(s, max) && AllTrashOf(s, user, ids) && rest == Select(s.users[user].deleted, ids, false)
    ensures OfUser(s, user, ids) && FilesRecovered(s, DoRecover(s, user, ids, rest).0, user, ids, rest)
    ensures DoRecover(s, user, ids, rest).1 == Done
  {
    TrashOfUser(s, user, ids);
    RecoverRequestKeeps(s, max, user, ids, rest);
    RecoverEachGives(s, max, user, ids);
  }

  lemma {:induction false} RecoverEachGives(s: Store, max: nat, user: Id, fs: seq<Id>)
    requires Inv(s, max) && AllTrashOf(s, user, fs) && OfUser(s, user, fs)
    ensures FilesRecovered(s, RecoverEach(s, fs), user, fs, Select(s.users[user].deleted, fs, false))
  {
    if fs == [] {
      NothingRecovered(s, user);
    } else {
      var init, f := fs[..|fs| - 1], fs[|fs| - 1];
      assert fs == init + [f];
      RecoverEachGives(s, max, user, init);
      RestoreIsRecover(s, max, user, init);
      RecoveredOneMore(s, RecoverEach(s, init), max, user, init, f);
    }
  }

  lemma NothingRecovered(s: Store, user: Id)
    requires user in s.users
    ensures FilesRecovered(s, s, user, [], Select(s.users[user].deleted, [], false))
  {
    SelectNone(s.users[user].deleted);
    assert s.users[user := s.users[user]] == s.users;
    forall d | d in s.dirs ensures RecoveredDir(s, s, [], d) {
      assert s.dirs[d].files + [] == s.dirs[d].files;
    }
  }

  lemma RecoveredOneMore(s: Store, t: Store, max: nat, user: Id, fs: seq<Id>, f: Id)
    requires Inv(t, max) && OfUser(s, user, fs + [f]) && f in s.users[user].deleted && f !in fs && OfUser(s, user, fs)
    requires FilesRecovered(s, t, user, fs, Select(s.users[user].deleted, fs, false))
    ensures FilesRecovered(s, Recovered(t, f), user, fs + [f], Select(s.users[user].deleted, fs + [f], false))
  {
    var list := s.users[user].deleted;
    assert (fs + [f])[|fs|] == f;
    assert RecoveredFile(s, t, user, fs, f) && f in t.users[user].deleted;
    SelectSnocAll(list, fs, f);
    RecoveredStore(s, t, max, user, fs, Select(list, fs, false), f);
  }

  lemma SamePar(s: Store, t: Store, user: Id, fs: seq<Id>, rest: seq<Id>)
    requires user in s.users && OfUser(s, user, fs) && FilesRecovered(s, t, user, fs, rest)
    ensures Par(t.dirs) == Par(s.dirs)
  {
    forall d | d in s.dirs ensures t.dirs[d].parent == s.dirs[d].parent {
      assert RecoveredDir(s, t, fs, d);
    }
  }

  lemma RecoveredStore(s: Store, t: Store, max: nat, user: Id, fs: seq<Id>, rest: seq<Id>, f: Id)
    requires Inv(t, max) && OfUser(s, user, fs) && OfUser(s, user, fs + [f]) && f in s.files && s.files[f].owner == user
    requires f !in fs && FilesRecovered(s, t, user, fs, rest) && f in t.files && t.files[f] == s.files[f]
    requires f in t.users[user].deleted
    ensures FilesRecovered(s, Recovered(t, f), user, fs + [f], Remove(rest, f))
  {
    SamePar(s, t, user, fs, rest);
    ComesBack(t, max, user, f);
    RecoveredBy(s, t, Recovered(t, f), user, fs, rest, f, Home(s, f));
  }

  lemma ComesBack(t: Store, max: nat, user: Id, f: Id)
    requires Inv(t, max) && user in t.users && f in t.users[user].deleted && f in t.files && t.files[f].owner == user
    ensures OneMoreBack(t, Recovered(t, f), user, t.users[user].deleted, f, Home(t, f))
  {
    var home := Home(t, f);
    assert FilePlaced(t, f) && RootThere(t, user);
    assert home in t.dirs && ListPlaced(t, home);
    RecoveredRecords(t, f);
    RecoveredGrown(t, Recovered(t, f), f, home);
  }

  // t' is t with one more file back home.
  ghost predicate OneMoreBack(t: Store, t': Store, user: Id, rest: seq<Id>, f: Id, home: Id)
    requires f in t.files && user in t.users
  {
    && OneMoreListed(t, t', f, home)
    && t'.users == t.users[user := t.users[user].(deleted := Remove(rest, f))]
    && t'.files == t.files[f := if t.files[f].parent in t.dirs then t.files[f]
                                else t.files[f].(parent := home, modifier := user)]
    && t' == t.(dirs := t'.dirs, users := t'.users, files := t'.files)
  }

  ghost predicate OneMoreListed(t: Store, t': Store, f: Id, home: Id)
    requires f in t.files
  {
    && t'.dirs.Keys == t.dirs.Keys
    && forall d :: d in t.dirs ==>
         DirBack(t.dirs[d], t'.dirs[d], if d == home then [f] else [], d in Way(t, home), t.files[f].size)
  }

  lemma RecoveredBy(s: Store, t: Store, t': Store, user: Id, fs: seq<Id>, rest: seq<Id>, f: Id, home: Id)
    requires OfUser(s, user, fs) && OfUser(s, user, fs + [f]) && f in s.files && s.files[f].owner == user && f !in fs
    requires FilesRecovered(s, t, user, fs, rest) && f in t.files && t.files[f] == s.files[f] && home == Home(s, f)
    requires Par(t.dirs) == Par(s.dirs) && OneMoreBack(t, t', user, rest, f, home)
    ensures FilesRecovered(s, t', user, fs + [f], Remove(rest, f))
  {
    forall d | d in s.dirs ensures RecoveredDir(s, t', fs + [f], d) {
      assert RecoveredDir(s, t, fs, d);
      RecoveredDirOneMore(s, t, t', fs, f, home, d);
    }
    forall g | g in s.files ensures RecoveredFile(s, t', user, fs + [f], g) {
      assert RecoveredFile(s, t, user, fs, g);
    }
  }

  lemma RecoveredGrown(t: Store, t': Store, f: Id, home: Id)
    requires f in t.files && home in t.dirs
    requires t'.dirs == AddSizes(t.dirs[home := t.dirs[home].(files := t.dirs[home].files + [f])], home,
                                 t.files[f].size)
    ensures OneMoreListed(t, t', f, home)
  {
    var list := t.dirs[home].files + [f];
    AddSizesFrom(t.dirs, home, list, t.files[f].size);
    forall d | d in t.dirs
      ensures
        d in t'.dirs
        && DirBack(t.dirs[d], t'.dirs[d], if d == home then [f] else [], d in Way(t, home), t.files[f].size)
    {
      GrownOnly(t.dirs[home := t.dirs[home].(files := list)], Way(t, home), t.files[f].size, d);
      assert t.dirs[d].files + [] == t.dirs[d].files;
    }
  }

  lemma RecoveredDirOneMore(s: Store, t: Store, t': Store, fs: seq<Id>, f: Id, home: Id, d: Id)
    requires d in s.dirs && d in t.dirs && d in t'.dirs && f in s.files && s.files[f].owner in s.users && f !in fs
    requires forall g :: g in fs ==> g in s.files && s.files[g].owner in s.users
    requires home == Home(s, f) && RecoveredDir(s, t, fs, d)
    requires DirBack(t.dirs[d], t'.dirs[d], if d == home then [f] else [], d in Way(s, home), s.files[f].size)
    ensures RecoveredDir(s, t', fs + [f], d)
  {
    var before, after := Back(s, fs, d), Back(s, fs + [f], d);
    ReturningSnoc(s, fs, f, d);
    assert after == if d in Way(s, home) then before + {f} else before;
    SumMore(s.files, before, f);
    DirBackTwice(s.dirs[d], t.dirs[d], t'.dirs[d], Returning(s, fs, d), before != {}, Sum(s.files, before),
                 if d == home then [f] else [], d in Way(s, home), s.files[f].size, Sum(s.files, after));
  }

  lemma DirBackTwice(a: Dir, b: Dir, c: Dir, list: seq<Id>, grew: bool, more: nat, list': seq<Id>, grew': bool,
                     more': nat, sum: nat)
    requires DirBack(a, b, list, grew, more) && DirBack(b, c, list', grew', more')
    requires (!grew ==> more == 0) && sum == more + if grew' then more' else 0
    ensures DirBack(a, c, list + list', grew || grew', sum)
  {
    WordSum(a.size + more, more');
    Associative(a.files, list, list');
  }

  lemma ReturningSnoc(s: Store, fs: seq<Id>, f: Id, d: Id)
    requires f in s.files && s.files[f].owner in s.users
    requires forall g :: g in fs ==> g in s.files && s.files[g].owner in s.users
    ensures Returning(s, fs + [f], d) == Returning(s, fs, d) + if Home(s, f) == d then [f] else []
  {
    assert (fs + [f])[..|fs|] == fs;
  }

  // ---------- deleting a user ----------

  // The files fs of the user's tree are trashed, those of the user and the rest of the user's trash are gone, and so
  // are the tree ds and the record, with its entries in index and list. The directories of others are as they were.
  ghost predicate UserGone(s: Store, t: Store, user: Id, fs: seq<Id>, ds: set<Id>)
    requires user in s.users
  {
    var email := s.users[user].email;
    && t.users.Keys == s.users.Keys - {user}
    && (forall u {:trigger u in t.users} :: u in t.users ==> TrashedUser(s, t, fs, u))
    && t.dirs == s.dirs - ds
    && (forall f :: f in t.files <==>
          f in s.files && !(s.files[f].owner == user && (f in fs || f in s.users[user].deleted)))
    && (forall f {:trigger f in t.files} :: f in t.files ==> TrashedFile(s, t, fs, f))
    && t.index == s.index - {email} && t.emails == Remove(s.emails, email)
    && t.nextUser == s.nextUser && t.nextDir == s.nextDir && t.nextFile == s.nextFile
  }

  lemma DeleteUserAnswers(s: Store, max: nat, user: Id)
    requires Inv(s, max) && max < WORD
    ensures
      var (t, r) := Step(s, max, DeleteUser(user));
      && (user !in s.users ==> t == s && r == Failed(STATUS_KEY_NOT_FOUND))
      && (user in s.users ==>
            var root := s.users[user].root;
            var fs := SubtreeFiles(s, root);
            && r == Done && NoDup(fs) && (forall f :: f in fs <==> f in Under(s, root))
            && UserGone(s, t, user, fs, Subtree(s.dirs, root)))
  {
    if user in s.users {
      var root := s.users[user].root;
      assert RootThere(s, user);
      SubtreeFilesLive(s, root);
      DeleteUserIsLeft(s, max, user);
      EmptyingRecords(s, max, user);
      LeftIs(s, Emptying(s, user), user, SubtreeFiles(s, root), Subtree(s.dirs, root));
    }
  }

  // The store before the record and the tree go.
  ghost predicate TreeEmptied(s: Store, p: Store, user: Id, fs: seq<Id>, ds: set<Id>)
    requires user in s.users
  {
    && p.users.Keys == s.users.Keys && p.users[user].email == s.users[user].email
    && (forall u {:trigger TrashedUser(s, p, fs, u)} :: u in s.users && u != user ==> TrashedUser(s, p, fs, u))
    && p.dirs.Keys == s.dirs.Keys && (forall x :: x in s.dirs && x !in ds ==> p.dirs[x] == s.dirs[x])
    && (forall f :: f in p.files <==>
          f in s.files && !(s.files[f].owner == user && (f in fs || f in s.users[user].deleted)))
    && (forall f {:trigger f in p.files} :: f in p.files ==> TrashedFile(s, p, fs, f))
    && p.index == s.index && p.emails == s.emails
    && p.nextUser == s.nextUser && p.nextDir == s.nextDir && p.nextFile == s.nextFile
  }

  lemma LeftIs(s: Store, p: Store, user: Id, fs: seq<Id>, ds: set<Id>)
    requires user in s.users && TreeEmptied(s, p, user, fs, ds)
    ensures UserGone(s, Left(p, user, ds), user, fs, ds)
  {
    var t := Left(p, user, ds);
    assert t.dirs == s.dirs - ds;
    forall u | u in t.users ensures TrashedUser(s, t, fs, u) {
      assert TrashedUser(s, p, fs, u);
    }
    forall f | f in t.files ensures TrashedFile(s, t, fs, f) {
      assert TrashedFile(s, p, fs, f);
    }
  }

  lemma EmptyingRecords(s: Store, max: nat, user: Id)
    requires Inv(s, max) && user in s.users && max < WORD
    ensures TreeEmptied(s, Emptying(s, user), user, SubtreeFiles(s, s.users[user].root),
                        Subtree(s.dirs, s.users[user].root))
  {
    var root := s.users[user].root;
    var fs, ds := SubtreeFiles(s, root), Subtree(s.dirs, root);
    var m, p := TrashAll(s, fs), Emptying(s, user);
    assert RootThere(s, user);
    EmptyingPurges(s, max, user);
    SubtreeFilesLive(s, root);
    TrashAllMoves(s, max, fs);
    WholeTrash(m, user);
    PurgeGives(m, max, user, m.users[user].deleted, []);
    forall x | x in s.dirs && x !in ds ensures m.dirs[x] == s.dirs[x] {
      OutsideUntouched(s, max, root, x);
    }
    TreeEmptiedBy(s, m, p, user, fs, ds);
  }

  lemma TreeEmptiedBy(s: Store, m: Store, p: Store, user: Id, fs: seq<Id>, ds: set<Id>)
    requires user in s.users && MovedToTrash(s, m, fs) && FilesPurged(m, p, user, SetOf(m.users[user].deleted), [])
    requires forall x :: x in s.dirs && x !in ds ==> m.dirs[x] == s.dirs[x]
    requires TrashPlaced(s, user)
    ensures TreeEmptied(s, p, user, fs, ds)
  {
    forall u | u in s.users && u != user ensures TrashedUser(s, p, fs, u) {
      assert TrashedUser(s, m, fs, u);
    }
    assert TrashedUser(s, m, fs, user);
    forall f
      ensures f in p.files <==> f in s.files && !(s.files[f].owner == user && (f in fs || f in s.users[user].deleted))
    {
      OwnedInMembers(s, fs, user, f);
    }
    forall f | f in p.files ensures TrashedFile(s, p, fs, f) {
      assert TrashedFile(s, m, fs, f);
    }
  }

  // A root's way up is itself, so no directory outside its tree lies above a file in it.
  lemma OutsideUntouched(s: Store, max: nat, root: Id, x: Id)
    requires Inv(s, max) && root in s.dirs && s.dirs[root].parent == NO_PARENT
    requires x in s.dirs && x !in Subtree(s.dirs, root)
    ensures
      var m := TrashAll(s, SubtreeFiles(s, root));
      x in m.dirs && m.dirs[x] == s.dirs[x]
  {
    var fs := SubtreeFiles(s, root);
    SubtreeFilesLive(s, root);
    TrashAllMoves(s, max, fs);
    TrashAllSizes(s, max, fs, x);
    OutsideSame(s, TrashAll(s, fs), root, x, fs);
  }

  lemma OutsideSame(s: Store, m: Store, root: Id, x: Id, fs: seq<Id>)
    requires Placed(s) && root in s.dirs && s.dirs[root].parent == NO_PARENT
    requires x in s.dirs && x !in Subtree(s.dirs, root)
    requires MovedToTrash(s, m, fs) && Lighter(s, m, fs, x) && forall f :: f in fs <==> f in Under(s, root)
    ensures x in m.dirs && m.dirs[x] == s.dirs[x]
  {
    assert Chain(Par(s.dirs), root) == {root};
    ChainSelf(Par(s.dirs), x);
    ThroughTree(s, root, x, fs);
    assert TrashedDir(s, m, fs, x) && ListPlaced(s, x);
    SelectNoneOf(s.dirs[x].files, fs);
  }
}
