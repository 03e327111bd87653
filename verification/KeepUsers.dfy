/** Signing up and changing one's profile. */
module KeepUsers {
  import opened Basics
  import opened Text
  import opened Keys
  import opened Records
  import opened DataHandlers
  import opened Drive
  import opened Invariants
  import opened KeepBasics
  import opened KeepTrash

  // ---------- signing up ----------

  ghost predicate CanRegister(s: Store, id: Id, email: string, root: Id) {
    && id !in s.users && IsNumbered(id, s.nextUser) && email !in s.index
    && root in s.dirs && s.dirs[root].parent == NO_PARENT && s.dirs[root].owner == id
  }

  lemma RegisteredPlaced(s: Store, id: Id, email: string, name: string, location: string, root: Id)
    requires Placed(s) && CanRegister(s, id, email, root)
    ensures Placed(Registered(s, id, email, name, location, root))
  {
    var t := Registered(s, id, email, name, location, root);
    forall f | f in t.files ensures FilePlaced(t, f) {
      assert FilePlaced(s, f);
    }
    forall d | d in t.dirs ensures ListPlaced(t, d) {
      assert ListPlaced(s, d);
    }
    forall u | u in t.users ensures TrashPlaced(t, u) {
      assert u != id ==> TrashPlaced(s, u);
    }
  }

  lemma RegisteredSymmetric(s: Store, id: Id, email: string, name: string, location: string, root: Id)
    requires Symmetric(s) && CanRegister(s, id, email, root)
    ensures Symmetric(Registered(s, id, email, name, location, root))
  {
    var t := Registered(s, id, email, name, location, root);
    forall f | f in t.files ensures FileShares(t, f) {
      assert FileShares(s, f);
    }
    forall u | u in t.users ensures UserShares(t, u) {
      assert u != id ==> UserShares(s, u);
    }
  }

  lemma RegisteredSums(s: Store, max: nat, id: Id, email: string, name: string, location: string, root: Id)
    requires Placed(s) && CanRegister(s, id, email, root) && Covered(s, max)
    ensures Covered(Registered(s, id, email, name, location, root), max)
    ensures forall g {:trigger Exact(s, g)} :: Exact(s, g) && id !in g.users ==>
              Exact(Registered(s, id, email, name, location, root), g)
  {
    var t := Registered(s, id, email, name, location, root);
    forall f | f in s.files ensures s.files[f].owner != id {
      assert FilePlaced(s, f);
    }
    assert Owned(s, id) == {};
    forall u | u in t.users ensures CoveredAt(t, max, u) {
      assert Owned(t, u) == Owned(s, u);
      assert u != id ==> CoveredAt(s, max, u);
    }
    forall g | Exact(s, g) && id !in g.users ensures Exact(t, g) {
      RegisteredExact(s, t, g, id);
    }
  }

  lemma RegisteredExact(s: Store, t: Store, g: Ledger, id: Id)
    requires Exact(s, g) && id !in g.users && Owned(s, id) == {}
    requires t.dirs == s.dirs && t.files == s.files && s.nextDir <= t.nextDir && s.nextUser <= t.nextUser
    requires id in t.users && t.users[id].quota == 0 && t.users == s.users[id := t.users[id]]
    ensures Exact(t, g)
  {
    forall u | u in t.users ensures MeteredAt(t, g, u) {
      assert Owned(t, u) == Owned(s, u);
      assert u != id ==> MeteredAt(s, g, u);
    }
    forall d | d in t.dirs ensures SizeFits(t, g, d) {
      assert SizeFits(s, g, d);
      assert Under(t, d) == Under(s, d);
    }
  }

  // The e-mail index survives exactly if the list of e-mails can hold the new one.
  lemma RegisteredIndexed(s: Store, id: Id, email: string, name: string, location: string, root: Id)
    requires Indexed(s) && CanRegister(s, id, email, root)
    ensures Indexed(Registered(s, id, email, name, location, root)) <==> IsKey(email)
  {
    var t := Registered(s, id, email, name, location, root);
    if IsKey(email) {
      InsertTextKey(s.emails, email);
      assert t.emails == s.emails + [email];
      forall u | u in t.users ensures UserIndexed(t, u) {
        assert u != id ==> UserIndexed(s, u);
      }
      forall e | e in t.index ensures EmailIndexed(t, e) {
        assert e != email ==> EmailIndexed(s, e);
      }
    } else {
      SplitKeys(email);
      assert email in t.index;
      NotAmongKeys(s.emails + Split(email), email);
    }
  }

  lemma NotAmongKeys(toks: seq<string>, k: string)
    requires AllKeys(toks) && !IsKey(k)
    ensures k !in toks
  {
  }

  lemma RegisteredKeeps(s: Store, max: nat, id: Id, email: string, name: string, location: string, root: Id)
    requires Inv(s, max) && CanRegister(s, id, email, root)
    ensures Inv(Registered(s, id, email, name, location, root), max) <==> IsKey(email)
    ensures forall g {:trigger Exact(s, g)} :: Exact(s, g) && id !in g.users ==>
              Exact(Registered(s, id, email, name, location, root), g)
  {
    var t := Registered(s, id, email, name, location, root);
    NumberedFrame(s, t);
    forall u | u in t.users ensures RootThere(t, u) {
      assert u != id ==> RootThere(s, u);
    }
    RegisteredPlaced(s, id, email, name, location, root);
    RegisteredSymmetric(s, id, email, name, location, root);
    RegisteredSums(s, max, id, email, name, location, root);
    RegisteredIndexed(s, id, email, name, location, root);
  }

  // A new user gets a record, a root directory and the directory of shared files below it, all under new ids.
  lemma SignUpGives(s: Store, email: string, name: string, location: string, date: string)
    requires email !in s.index && s.nextUser + 1 < WORD && s.nextDir + 2 < WORD
    ensures
      var id, root, shared := ToStr(s.nextUser), ToStr(s.nextDir), ToStr(s.nextDir + 1);
      && root != shared
      && UserAdded(s, email, name, location, date)
         == (Store(s.users[id := User(email, name, location, root, [], 0, [])],
                   s.dirs[root := Dir(LABEL_ROOT, date, "", id, NO_PARENT, [], [shared], 0)]
                         [shared := Dir(LABEL_SHARED_FILES, date, "", id, root, [], [], 0)],
                   s.files, s.nextUser + 1, s.nextDir + 2, s.nextFile,
                   s.index[email := id], InsertText(s.emails, email)), Done)
  {
    ToStrRoundTrip(s.nextDir);
    ToStrRoundTrip(s.nextDir + 1);
    assert !IsDigit(NO_PARENT[0]);
    var id, root, shared := ToStr(s.nextUser), ToStr(s.nextDir), ToStr(s.nextDir + 1);
    var s1 := TakeTicket(s, UserTicket);
    RootGiven(s1, id, date);
    SharedGiven(s1.dirs,
                Registered(DirectoryAdded(s1, id, LABEL_ROOT, date, NO_PARENT).0, id, email, name, location, root),
                id, root, shared, date);
  }

  lemma RootGiven(s: Store, id: Id, date: string)
    requires s.nextDir + 1 < WORD
    ensures DirectoryAdded(s, id, LABEL_ROOT, date, NO_PARENT).0
         == s.(nextDir := s.nextDir + 1,
               dirs := s.dirs[ToStr(s.nextDir) := Dir(LABEL_ROOT, date, "", id, NO_PARENT, [], [], 0)])
  {
  }

  // Adding the second directory below the first also lists it there.
  lemma SharedGiven(dirs: map<Id, Dir>, s: Store, id: Id, root: Id, shared: Id, date: string)
    requires root != shared && shared == ToStr(s.nextDir) && s.nextDir + 1 < WORD && root != NO_PARENT
    requires s.dirs == dirs[root := Dir(LABEL_ROOT, date, "", id, NO_PARENT, [], [], 0)]
    ensures DirectoryAdded(s, id, LABEL_SHARED_FILES, date, root)
         == (s.(nextDir := s.nextDir + 1,
                dirs := dirs[root := Dir(LABEL_ROOT, date, "", id, NO_PARENT, [], [shared], 0)]
                            [shared := Dir(LABEL_SHARED_FILES, date, "", id, root, [], [], 0)]), Done)
  {
    var t := DirectoryAdded(s, id, LABEL_SHARED_FILES, date, root).0;
    assert [] + [shared] == [shared];
    assert t.dirs == dirs[root := Dir(LABEL_ROOT, date, "", id, NO_PARENT, [], [shared], 0)]
                         [shared := Dir(LABEL_SHARED_FILES, date, "", id, root, [], [], 0)];
  }

  // Signing up keeps the invariants exactly if the e-mail is refused or the list of e-mails can hold it.
  lemma SignUpKeeps(s: Store, max: nat, email: string, name: string, location: string, date: string)
    requires Inv(s, max) && s.nextUser + 1 < WORD && s.nextDir + 2 < WORD
    ensures
      var (t, r) := UserAdded(s, email, name, location, date);
      && (Inv(t, max) <==> email in s.index || IsKey(email)) && (Inv(t, max) ==> StaysExact(s, t))
      && (r == Done <==> email !in s.index) && (r != Done ==> t == s)
  {
    if email in s.index {
      SameStaysExact(s);
    } else {
      SignUpGives(s, email, name, location, date);
      if IsKey(email) {
        FreshIds(s, UserTicket);
        TicketKeeps(s, max, UserTicket);
        NewUserKeeps(TakeTicket(s, UserTicket), max, NextId(s, UserTicket), email, name, location, date);
        forall g | Exact(s, g) ensures Exact(TakeTicket(s, UserTicket), g) && NextId(s, UserTicket) !in g.users {
        }
      } else {
        NotListed(s, UserAdded(s, email, name, location, date).0, email);
      }
    }
  }

  lemma NotListed(s: Store, t: Store, email: string)
    requires Indexed(s) && email in t.index && t.emails == InsertText(s.emails, email) && !IsKey(email)
    ensures !Indexed(t)
  {
    SplitKeys(email);
    NotAmongKeys(s.emails + Split(email), email);
  }

  // The steps after the id is taken.
  ghost function UserWith(s: Store, id: Id, email: string, name: string, location: string, date: string)
    : (Store, Outcome)
  {
    var root := NextId(s, DirTicket);
    DirectoryAdded(Registered(DirectoryAdded(s, id, LABEL_ROOT, date, NO_PARENT).0, id, email, name, location, root),
                   id, LABEL_SHARED_FILES, date, root)
  }

  lemma NewUserKeeps(s: Store, max: nat, id: Id, email: string, name: string, location: string, date: string)
    requires Inv(s, max) && s.nextDir + 2 < WORD && IsKey(email) && email !in s.index
    requires id !in s.users && IsNumbered(id, s.nextUser)
    ensures Inv(UserWith(s, id, email, name, location, date).0, max)
    ensures forall g {:trigger Exact(s, g)} :: Exact(s, g) && id !in g.users ==>
              Exact(UserWith(s, id, email, name, location, date).0, g)
    ensures UserWith(s, id, email, name, location, date).1 == Done
  {
    var root := NextId(s, DirTicket);
    FreshIds(s, DirTicket);
    NewDirectoryKeeps(s, max, id, LABEL_ROOT, date, NO_PARENT);
    var s2 := DirectoryAdded(s, id, LABEL_ROOT, date, NO_PARENT).0;
    RootAdded(s, id, date);
    RegisteredKeeps(s2, max, id, email, name, location, root);
    NewDirectoryKeeps(Registered(s2, id, email, name, location, root), max, id, LABEL_SHARED_FILES, date, root);
  }

  lemma RootAdded(s: Store, id: Id, date: string)
    requires s.nextDir + 1 < WORD
    ensures
      var t, root := DirectoryAdded(s, id, LABEL_ROOT, date, NO_PARENT).0, NextId(s, DirTicket);
      && root in t.dirs && t.dirs[root].parent == NO_PARENT && t.dirs[root].owner == id
      && t.users == s.users && t.index == s.index
      && t.nextUser == s.nextUser && t.nextDir == s.nextDir + 1
  {
  }

  // ---------- changing the profile ----------

  lemma EmailChangedIndexed(s: Store, user: Id, email: string, name: string, location: string)
    requires Indexed(s) && user in s.users && email != s.users[user].email
    ensures
      var u := s.users[user];
      Indexed(UserModified(s, user, email, name, location, u.shared, u.quota, u.deleted))
      <==> IsKey(email) && email !in s.index
  {
    var u := s.users[user];
    var t := UserModified(s, user, email, name, location, u.shared, u.quota, u.deleted);
    EmailListChanged(s, u.email, email);
    if email in s.index {
      var v := s.index[email];
      assert EmailIndexed(s, email);
      assert v in t.users && t.users[v].email == email && t.index[email] == user && v != user;
      assert !UserIndexed(t, v);
    } else if IsKey(email) {
      NewEmailIndexed(s, t, user, email);
    } else {
      assert email in t.index && email !in t.emails;
    }
  }

  // What the list of e-mails holds after the change.
  lemma EmailListChanged(s: Store, from: string, to: string)
    requires Indexed(s)
    ensures
      var rest := Remove(s.emails, from);
      && NoDup(rest) && AllKeys(rest)
      && (!IsKey(to) ==> to !in InsertText(rest, to))
      && (IsKey(to) && to !in rest ==> InsertText(rest, to) == rest + [to])
  {
    var rest := Remove(s.emails, from);
    RemoveNoDup(s.emails, from);
    RemoveKeys(s.emails, from);
    if IsKey(to) {
      InsertTextKey(rest, to);
    } else {
      SplitKeys(to);
      NotAmongKeys(rest + Split(to), to);
    }
  }

  lemma NewEmailIndexed(s: Store, t: Store, user: Id, email: string)
    requires Indexed(s) && user in s.users && IsKey(email) && email !in s.index
    requires t.users.Keys == s.users.Keys && t.users[user].email == email
    requires forall v :: v in s.users && v != user ==> t.users[v].email == s.users[v].email
    requires t.index == (s.index - {s.users[user].email})[email := user]
    requires t.emails == Remove(s.emails, s.users[user].email) + [email]
    ensures Indexed(t)
  {
    assert UserIndexed(s, user);
    NewEmailListed(s, t.index, t.emails, s.users[user].email, user, email);
    forall u | u in t.users ensures UserIndexed(t, u) {
      assert UserIndexed(s, u);
    }
    forall e | e in t.index ensures EmailIndexed(t, e) {
      assert e != email ==> EmailIndexed(s, e);
    }
  }

  lemma NewEmailListed(s: Store, index: map<string, Id>, emails: seq<string>, from: string, user: Id, email: string)
    requires Indexed(s) && IsKey(email) && email !in s.index && from in s.index
    requires index == (s.index - {from})[email := user] && emails == Remove(s.emails, from) + [email]
    ensures (forall e :: e in emails <==> e in index) && NoDup(emails) && AllKeys(emails)
  {
    RemoveNoDup(s.emails, from);
    RemoveKeys(s.emails, from);
  }

  lemma {:induction false} RemoveKeys(toks: seq<string>, k: string)
    requires AllKeys(toks)
    ensures AllKeys(Remove(toks, k))
  {
    forall i | 0 <= i < |Remove(toks, k)| ensures IsKey(Remove(toks, k)[i]) {
      assert Remove(toks, k)[i] in toks;
    }
  }

  // A change of profile keeps everything exactly if the e-mail stays or is a new one that the list can hold.
  lemma ModifyUserKeeps(s: Store, max: nat, user: Id, email: string, name: string, location: string)
    requires Inv(s, max) && user in s.users
    ensures
      var t := DoModifyUser(s, user, email, name, location).0;
      && (Inv(t, max) <==> email == s.users[user].email || (IsKey(email) && email !in s.index))
      && StaysExact(s, t)
  {
    var u := s.users[user];
    var t := DoModifyUser(s, user, email, name, location).0;
    if email == u.email {
      LabelsKeep(s, max, user, name, location);
    } else {
      var labelled := s.(users := s.users[user := u.(name := name, location := location)]);
      LabelsKeep(s, max, user, name, location);
      OtherEmail(labelled, t, max, user);
      EmailChangedIndexed(s, user, email, name, location);
    }
  }

  lemma LabelsKeep(s: Store, max: nat, user: Id, name: string, location: string)
    requires Inv(s, max) && user in s.users
    ensures
      var t := s.(users := s.users[user := s.users[user].(name := name, location := location)]);
      && Inv(t, max) && StaysExact(s, t) && t == DoModifyUser(s, user, s.users[user].email, name, location).0
  {
    var u := s.users[user];
    SimilarKeeps(s, s.(users := s.users[user := u.(name := name, location := location)]), max);
  }

  // Only the e-mail invariant looks at e-mails.
  lemma OtherEmail(s: Store, t: Store, max: nat, user: Id)
    requires Inv(s, max) && user in s.users && user in t.users
    requires t == s.(index := t.index, emails := t.emails, users := t.users)
    requires t.users == s.users[user := s.users[user].(email := t.users[user].email)]
    ensures Numbered(t) && Forest(t) && Placed(t) && Symmetric(t) && Covered(t, max)
    ensures StaysExact(s, t)
  {
    NumberedFrame(s, t);
    SameCovered(s, t, max);
    forall u | u in t.users ensures RootThere(t, u) {
      assert RootThere(s, u);
    }
    OtherEmailRest(s, t, user);
    forall d | d in t.dirs ensures Under(t, d) == Under(s, d) {
    }
    forall u | u in t.users ensures Owned(t, u) == Owned(s, u) {
    }
    SameSumsExact(s, t);
  }

  lemma OtherEmailRest(s: Store, t: Store, user: Id)
    requires Placed(s) && Symmetric(s) && user in s.users && user in t.users && t.dirs == s.dirs && t.files == s.files
    requires t.users == s.users[user := s.users[user].(email := t.users[user].email)]
    ensures Placed(t) && Symmetric(t)
  {
    forall f | f in t.files ensures FilePlaced(t, f) && FileShares(t, f) {
      assert FilePlaced(s, f) && FileShares(s, f);
    }
    forall d | d in t.dirs ensures ListPlaced(t, d) {
      assert ListPlaced(s, d);
    }
    forall u | u in t.users ensures TrashPlaced(t, u) && UserShares(t, u) {
      assert TrashPlaced(s, u) && UserShares(s, u);
    }
  }

  // Removing a user's record keeps the index the inverse of the remaining e-mails.
  lemma DropUserIndexed(s: Store, id: Id)
    requires Indexed(s) && id in s.users
    ensures Indexed(UserDropped(s, id))
  {
    var t, from := UserDropped(s, id), s.users[id].email;
    RemoveNoDup(s.emails, from);
    RemoveKeys(s.emails, from);
    assert UserIndexed(s, id);
    forall u | u in t.users ensures UserIndexed(t, u) {
      assert UserIndexed(s, u);
    }
    forall e | e in t.index ensures EmailIndexed(t, e) {
      assert EmailIndexed(s, e);
    }
  }
}
