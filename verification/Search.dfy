/** Searching a user's tree: a filter over the listing of the tree in the order of a walk. */
module Search {
  import opened Basics
  import opened Text
  import opened Records
  import opened Drive
  import opened Tree
  import opened Invariants

  datatype Mode = Off | ByName | ByExtension | ByTag | ByUser

  datatype Entry = DirEntry(dir: Id) | FileEntry(file: Id)

  // What is shown of an entry.
  datatype Element = Element(id: nat, isDir: bool, name: string, date: string, size: nat, owner: Id, shared: bool,
                             items: nat)

  function Lower(c: char): char {
    if 'A' <= c <= 'Z' then c - 'A' + 'a' else c
  }

  function ToLower(s: string): (r: string)
    ensures |r| == |s| && forall i :: 0 <= i < |s| ==> r[i] == Lower(s[i])
  {
    if s == "" then "" else [Lower(s[0])] + ToLower(s[1..])
  }

  predicate Contains(s: string, t: string) {
    t <= s || (s != "" && Contains(s[1..], t))
  }

  // t occurs in s when both are read without case.
  predicate Included(s: string, t: string) {
    Contains(ToLower(s), ToLower(t))
  }

  predicate OccursAt(s: string, t: string, i: nat) {
    i + |t| <= |s| && s[i..i + |t|] == t
  }

  lemma {:induction false} ContainsAt(s: string, t: string)
    ensures Contains(s, t) <==> exists i :: OccursAt(s, t, i)
  {
    assert OccursAt(s, t, 0) <==> t <= s;
    if s != "" {
      ContainsAt(s[1..], t);
      forall i: nat ensures OccursAt(s[1..], t, i) <==> OccursAt(s, t, i + 1) {
        if i + |t| < |s| {
          assert s[1..][i..i + |t|] == s[i + 1..i + 1 + |t|];
        }
      }
      forall i: nat | OccursAt(s, t, i) && i != 0 ensures OccursAt(s[1..], t, i - 1) {
      }
    }
  }

  // Case makes no difference to the text that is searched for, nor to the text that is searched.
  lemma IncludedAnyCase(s: string, t: string, s': string, t': string)
    requires |s'| == |s| && forall i :: 0 <= i < |s| ==> SameLetter(s'[i], s[i])
    requires |t'| == |t| && forall i :: 0 <= i < |t| ==> SameLetter(t'[i], t[i])
    ensures Included(s', t') == Included(s, t)
  {
    forall i | 0 <= i < |s| ensures Lower(s'[i]) == Lower(s[i]) {
      LowerIff(s'[i], s[i]);
    }
    forall i | 0 <= i < |t| ensures Lower(t'[i]) == Lower(t[i]) {
      LowerIff(t'[i], t[i]);
    }
    assert ToLower(s') == ToLower(s) && ToLower(t') == ToLower(t);
  }

  // The same letter, in either case; other characters only match themselves.
  ghost predicate SameLetter(a: char, b: char) {
    || a == b
    || ('A' <= a <= 'Z' && b as int == a as int + 32)
    || ('A' <= b <= 'Z' && a as int == b as int + 32)
  }

  // At place i the text s reads t, but for case.
  ghost predicate ReadsLike(s: string, t: string, i: nat) {
    i + |t| <= |s| && forall k :: 0 <= k < |t| ==> SameLetter(s[i + k], t[k])
  }

  // The text t that is searched for stands somewhere in s, but for case.
  ghost predicate Holds(s: string, t: string) {
    exists i :: ReadsLike(s, t, i)
  }

  lemma IncludedIff(s: string, t: string)
    ensures Included(s, t) <==> Holds(s, t)
  {
    var low, lowText := ToLower(s), ToLower(t);
    ContainsAt(low, lowText);
    forall i: nat ensures OccursAt(low, lowText, i) <==> ReadsLike(s, t, i) {
      LikeAt(s, t, i);
    }
  }

  lemma LikeAt(s: string, t: string, i: nat)
    ensures OccursAt(ToLower(s), ToLower(t), i) <==> ReadsLike(s, t, i)
  {
    var low, lowText := ToLower(s), ToLower(t);
    if i + |t| <= |s| {
      forall k | 0 <= k < |t| ensures low[i..i + |t|][k] == lowText[k] <==> SameLetter(s[i + k], t[k]) {
        LowerIff(s[i + k], t[k]);
        assert low[i..i + |t|][k] == low[i + k] == Lower(s[i + k]);
      }
      LikeEach(low[i..i + |t|], lowText, s, t, i);
    }
  }

  lemma LikeEach(a: string, b: string, s: string, t: string, i: nat)
    requires |a| == |b| == |t| && i + |t| <= |s|
    requires forall k :: 0 <= k < |t| ==> (a[k] == b[k] <==> SameLetter(s[i + k], t[k]))
    ensures a == b <==> ReadsLike(s, t, i)
  {
  }

  lemma LowerIff(a: char, b: char)
    ensures Lower(a) == Lower(b) <==> SameLetter(a, b)
  {
  }

  predicate DirHit(mode: Mode, text: string, dir: Dir) {
    match mode
    case ByName => Included(dir.name, text)
    case ByTag => Included(dir.tags, text)
    case _ => false
  }

  predicate FileHit(mode: Mode, text: string, file: File) {
    match mode
    case Off => true
    case ByName => Included(file.name, text)
    case ByExtension => Included(file.extension, text)
    case ByTag => Included(file.tags, text)
    case ByUser => file.owner == text
  }

  function DirElement(id: Id, dir: Dir): Element {
    Element(Val(id), true, dir.name, dir.date, dir.size, dir.owner, false, |dir.dirs| + |dir.files|)
  }

  function FileElement(id: Id, file: File): Element {
    Element(Val(id), false, file.name, file.date, file.size, file.owner, |file.users| > 0, 0)
  }

  function PickOne(s: Store, mode: Mode, text: string, e: Entry): seq<Element> {
    match e
    case DirEntry(d) => if d in s.dirs then DirFound(mode, text, d, s.dirs[d]) else []
    case FileEntry(f) => if f in s.files then FileFound(mode, text, f, s.files[f]) else []
  }

  function DirFound(mode: Mode, text: string, id: Id, dir: Dir): seq<Element> {
    if DirHit(mode, text, dir) then [DirElement(id, dir)] else []
  }

  function FileFound(mode: Mode, text: string, id: Id, file: File): seq<Element> {
    if FileHit(mode, text, file) then [FileElement(id, file)] else []
  }

  // The matching entries, in order.
  function Pick(s: Store, mode: Mode, text: string, es: seq<Entry>): seq<Element> {
    if es == [] then [] else Pick(s, mode, text, es[..|es| - 1]) + PickOne(s, mode, text, es[|es| - 1])
  }

  function FileEntries(fs: seq<Id>): seq<Entry> {
    seq(|fs|, i requires 0 <= i < |fs| => FileEntry(fs[i]))
  }

  // Each directory, followed by the files it lists.
  function Listing(s: Store, ds: seq<Id>): seq<Entry> {
    if ds == [] then []
    else
      var d := ds[|ds| - 1];
      Listing(s, ds[..|ds| - 1]) + [DirEntry(d)] + FileEntries(if d in s.dirs then s.dirs[d].files else [])
  }

  lemma {:induction false} PickConcat(s: Store, mode: Mode, text: string, a: seq<Entry>, b: seq<Entry>)
    ensures Pick(s, mode, text, a + b) == Pick(s, mode, text, a) + Pick(s, mode, text, b)
  {
    if b == [] {
      assert a + b == a;
    } else {
      var init, last := b[..|b| - 1], b[|b| - 1];
      assert (a + b)[..|a + b| - 1] == a + init && (a + b)[|a + b| - 1] == last;
      PickConcat(s, mode, text, a, init);
      Associative(Pick(s, mode, text, a), Pick(s, mode, text, init), PickOne(s, mode, text, last));
    }
  }

  lemma {:induction false} ListingConcat(s: Store, a: seq<Id>, b: seq<Id>)
    ensures Listing(s, a + b) == Listing(s, a) + Listing(s, b)
  {
    if b == [] {
      assert a + b == a;
    } else {
      assert (a + b)[..|a + b| - 1] == a + b[..|b| - 1];
      ListingConcat(s, a, b[..|b| - 1]);
    }
  }

  // The search of the subtree of d.
  function Searched(s: Store, mode: Mode, text: string, ds: seq<Id>): seq<Element> {
    Pick(s, mode, text, Listing(s, ds))
  }

  lemma SearchedConcat(s: Store, mode: Mode, text: string, a: seq<Id>, b: seq<Id>)
    ensures Searched(s, mode, text, a + b) == Searched(s, mode, text, a) + Searched(s, mode, text, b)
  {
    ListingConcat(s, a, b);
    PickConcat(s, mode, text, Listing(s, a), Listing(s, b));
  }

  lemma SearchedOne(s: Store, mode: Mode, text: string, d: Id)
    requires d in s.dirs
    ensures Searched(s, mode, text, [d])
         == DirFound(mode, text, d, s.dirs[d]) + FilesFound(s, mode, text, s.dirs[d].files)
  {
    assert [d][..0] == [];
    assert Listing(s, [d]) == [DirEntry(d)] + FileEntries(s.dirs[d].files);
    PickConcat(s, mode, text, [DirEntry(d)], FileEntries(s.dirs[d].files));
    assert [DirEntry(d)][..0] == [];
    assert Pick(s, mode, text, [DirEntry(d)]) == PickOne(s, mode, text, DirEntry(d));
    FilesFoundPicked(s, mode, text, s.dirs[d].files);
  }

  function SearchedTree(s: Store, mode: Mode, text: string, d: Id): seq<Element> {
    Searched(s, mode, text, Walk(s, true, d))
  }

  // What the directory itself and its first i children contribute.
  function SearchedPart(s: Store, mode: Mode, text: string, d: Id, i: nat): seq<Element>
    requires d in s.dirs && i <= |s.dirs[d].dirs|
  {
    Searched(s, mode, text, [d] + WalkAll(s, true, d, s.dirs[d].dirs[..i]))
  }

  lemma {:induction false} SearchedSelf(s: Store, mode: Mode, text: string, d: Id, before: seq<Element>)
    requires d in s.dirs
    ensures before + DirFound(mode, text, d, s.dirs[d]) + FilesFound(s, mode, text, s.dirs[d].files)
         == before + SearchedPart(s, mode, text, d, 0)
    ensures SearchedPart(s, mode, text, d, |s.dirs[d].dirs|) == SearchedTree(s, mode, text, d)
  {
    SearchedStart(s, mode, text, d);
    SearchedEnd(s, mode, text, d);
    assert before + DirFound(mode, text, d, s.dirs[d]) + FilesFound(s, mode, text, s.dirs[d].files)
        == before + (DirFound(mode, text, d, s.dirs[d]) + FilesFound(s, mode, text, s.dirs[d].files));
  }

  lemma SearchedStart(s: Store, mode: Mode, text: string, d: Id)
    requires d in s.dirs
    ensures SearchedPart(s, mode, text, d, 0)
         == DirFound(mode, text, d, s.dirs[d]) + FilesFound(s, mode, text, s.dirs[d].files)
  {
    assert [d] + WalkAll(s, true, d, s.dirs[d].dirs[..0]) == [d];
    SearchedOne(s, mode, text, d);
  }

  lemma SearchedEnd(s: Store, mode: Mode, text: string, d: Id)
    requires d in s.dirs
    ensures SearchedPart(s, mode, text, d, |s.dirs[d].dirs|) == SearchedTree(s, mode, text, d)
  {
    var kids := s.dirs[d].dirs;
    assert kids[..|kids|] == kids;
    assert [d] + WalkAll(s, true, d, kids) == Walk(s, true, d);
  }

  lemma WalkPart(s: Store, d: Id, i: nat)
    requires TreeShape(s) && d in s.dirs && i < |s.dirs[d].dirs|
    ensures
      var kids := s.dirs[d].dirs;
      && Room(s, kids[i]) < Room(s, d) && kids[i] in s.dirs
      && [d] + WalkAll(s, true, d, kids[..i + 1]) == [d] + WalkAll(s, true, d, kids[..i]) + Walk(s, true, kids[i])
  {
    var kids := s.dirs[d].dirs;
    assert kids[..i + 1][..i] == kids[..i];
    WalkAllStep(s, true, d, kids[..i + 1]);
  }

  lemma SearchedNext(s: Store, mode: Mode, text: string, d: Id, i: nat)
    requires TreeShape(s) && d in s.dirs && i < |s.dirs[d].dirs|
    ensures SearchedPart(s, mode, text, d, i + 1)
         == SearchedPart(s, mode, text, d, i) + SearchedTree(s, mode, text, s.dirs[d].dirs[i])
  {
    var kids := s.dirs[d].dirs;
    WalkPart(s, d, i);
    SearchedConcat(s, mode, text, [d] + WalkAll(s, true, d, kids[..i]), Walk(s, true, kids[i]));
  }

  lemma SearchedKid(s: Store, mode: Mode, text: string, d: Id, i: nat, before: seq<Element>)
    requires TreeShape(s) && d in s.dirs && i < |s.dirs[d].dirs|
    ensures
      var kid := s.dirs[d].dirs[i];
      && Room(s, kid) < Room(s, d) && kid in s.dirs
      && before + SearchedPart(s, mode, text, d, i) + SearchedTree(s, mode, text, kid)
      == before + SearchedPart(s, mode, text, d, i + 1)
  {
    WalkPart(s, d, i);
    SearchedNext(s, mode, text, d, i);
    Associative(before, SearchedPart(s, mode, text, d, i), SearchedTree(s, mode, text, s.dirs[d].dirs[i]));
  }

  // ---------- the listing shows everything once ----------

  ghost predicate Once(es: seq<Entry>) {
    forall i, j :: 0 <= i < j < |es| ==> es[i] != es[j]
  }

  lemma OnceConcat(a: seq<Entry>, b: seq<Entry>)
    requires Once(a) && Once(b) && forall e :: e in a ==> e !in b
    ensures Once(a + b)
  {
    var c := a + b;
    forall i, j | 0 <= i < j < |c| ensures c[i] != c[j] {
      if i < |a| <= j {
        assert c[i] in a && c[j] in b;
      } else if |a| <= i {
        assert c[i] == b[i - |a|] && c[j] == b[j - |a|];
      }
    }
  }

  lemma FileEntriesOnce(fs: seq<Id>)
    ensures NoDup(fs) ==> Once(FileEntries(fs))
    ensures forall e :: e in FileEntries(fs) <==> e.FileEntry? && e.file in fs
  {
    forall e ensures e in FileEntries(fs) <==> e.FileEntry? && e.file in fs {
      if e.FileEntry? && e.file in fs {
        var i :| 0 <= i < |fs| && fs[i] == e.file;
        assert FileEntries(fs)[i] == e;
      }
    }
  }

  // f is listed by one of the directories ds.
  ghost predicate ListedIn(s: Store, ds: seq<Id>, f: Id) {
    exists d :: d in ds && d in s.dirs && f in s.dirs[d].files
  }

  lemma ListedSnoc(s: Store, ds: seq<Id>, d: Id, f: Id)
    ensures ListedIn(s, ds + [d], f) <==> ListedIn(s, ds, f) || (d in s.dirs && f in s.dirs[d].files)
  {
    assert forall x :: x in ds + [d] <==> x in ds || x == d;
  }

  lemma {:induction false} ListingMembers(s: Store, ds: seq<Id>, e: Entry)
    ensures e in Listing(s, ds) <==> if e.DirEntry? then e.dir in ds else ListedIn(s, ds, e.file)
  {
    if ds != [] {
      var init, d := ds[..|ds| - 1], ds[|ds| - 1];
      assert ds == init + [d];
      ListingMembers(s, init, e);
      FileEntriesOnce(if d in s.dirs then s.dirs[d].files else []);
      if e.FileEntry? {
        ListedSnoc(s, init, d, e.file);
      }
    }
  }

  lemma {:induction false} ListingOnce(s: Store, ds: seq<Id>)
    requires Placed(s) && NoDup(ds)
    ensures Once(Listing(s, ds))
  {
    if ds != [] {
      var init, d := ds[..|ds| - 1], ds[|ds| - 1];
      assert ds == init + [d];
      var files := if d in s.dirs then s.dirs[d].files else [];
      ListingOnce(s, init);
      EntriesOnce(s, init, d, files);
      OnceConcat(Listing(s, init), [DirEntry(d)] + FileEntries(files));
      Associative(Listing(s, init), [DirEntry(d)], FileEntries(files));
    }
  }

  // The entries of d and its files are distinct, and none of them is listed for the other directories.
  lemma EntriesOnce(s: Store, ds: seq<Id>, d: Id, files: seq<Id>)
    requires Placed(s) && d !in ds && files == if d in s.dirs then s.dirs[d].files else []
    ensures Once([DirEntry(d)] + FileEntries(files))
    ensures forall e :: e in [DirEntry(d)] + FileEntries(files) ==> e !in Listing(s, ds)
  {
    if d in s.dirs {
      assert ListPlaced(s, d);
    }
    FileEntriesOnce(files);
    OnceConcat([DirEntry(d)], FileEntries(files));
    forall e | e in [DirEntry(d)] + FileEntries(files) ensures e !in Listing(s, ds) {
      ListingApart(s, ds, d, e);
    }
  }

  lemma ListingApart(s: Store, ds: seq<Id>, d: Id, e: Entry)
    requires Placed(s) && d !in ds
    requires e == DirEntry(d) || (e.FileEntry? && d in s.dirs && e.file in s.dirs[d].files)
    ensures e !in Listing(s, ds)
  {
    ListingMembers(s, ds, e);
    if e.FileEntry? {
      forall x | x in s.dirs && e.file in s.dirs[x].files ensures x == d {
        assert ListPlaced(s, x) && ListPlaced(s, d);
      }
    }
  }

  // The listing that a search goes through holds each directory and each live file of the tree exactly once,
  // and nothing else.
  lemma ListingExactly(s: Store, max: nat, d: Id)
    requires Inv(s, max) && d in s.dirs
    ensures
      var es := Listing(s, Walk(s, true, d));
      && Once(es)
      && (forall x :: DirEntry(x) in es <==> x in Subtree(s.dirs, d))
      && (forall f :: FileEntry(f) in es <==> f in Under(s, d))
  {
    var w := Walk(s, true, d);
    WalkNoDup(s, true, d);
    ListingOnce(s, w);
    forall x ensures DirEntry(x) in Listing(s, w) <==> x in Subtree(s.dirs, d) {
      ListingMembers(s, w, DirEntry(x));
      WalkMembers(s, true, d, x);
    }
    forall f ensures FileEntry(f) in Listing(s, w) <==> f in Under(s, d) {
      ListingMembers(s, w, FileEntry(f));
      ListedUnder(s, d, f);
    }
  }

  lemma ListedUnder(s: Store, d: Id, f: Id)
    requires Forest(s) && Placed(s) && d in s.dirs
    ensures ListedIn(s, Walk(s, true, d), f) <==> f in Under(s, d)
  {
    var w := Walk(s, true, d);
    if ListedIn(s, w, f) {
      var x :| x in w && x in s.dirs && f in s.dirs[x].files;
      WalkMembers(s, true, d, x);
      assert ListPlaced(s, x);
    }
    if f in Under(s, d) {
      WalkMembers(s, true, d, s.files[f].parent);
    }
  }

  // A search finds exactly the elements of the matching entries.
  lemma {:induction false} PickExactly(s: Store, mode: Mode, text: string, es: seq<Entry>, r: Element)
    ensures r in Pick(s, mode, text, es) <==> exists i :: 0 <= i < |es| && r in PickOne(s, mode, text, es[i])
  {
    if es != [] {
      var init := es[..|es| - 1];
      PickExactly(s, mode, text, init, r);
      assert forall i :: 0 <= i < |init| ==> init[i] == es[i];
    }
  }

  // ---------- what a search finds ----------

  // In which searches a directory or a file is found, and how it is shown.
  ghost predicate DirMatches(mode: Mode, text: string, dir: Dir) {
    (mode == ByName && Holds(dir.name, text)) || (mode == ByTag && Holds(dir.tags, text))
  }

  ghost predicate FileMatches(mode: Mode, text: string, file: File) {
    || mode == Off
    || (mode == ByName && Holds(file.name, text)) || (mode == ByExtension && Holds(file.extension, text))
    || (mode == ByTag && Holds(file.tags, text)) || (mode == ByUser && file.owner == text)
  }

  ghost predicate ShowsDir(s: Store, d: Id, r: Element) {
    && d in s.dirs
    && var dir := s.dirs[d];
    r == Element(Val(d), true, dir.name, dir.date, dir.size, dir.owner, false, |dir.dirs| + |dir.files|)
  }

  ghost predicate ShowsFile(s: Store, f: Id, r: Element) {
    && f in s.files
    && var file := s.files[f];
    r == Element(Val(f), false, file.name, file.date, file.size, file.owner, file.users != [], 0)
  }

  ghost predicate Shows(s: Store, e: Entry, r: Element) {
    if e.DirEntry? then ShowsDir(s, e.dir, r) else ShowsFile(s, e.file, r)
  }

  // An entry that matches is shown once, any other not at all.
  lemma EntryFound(s: Store, mode: Mode, text: string, e: Entry)
    ensures
      var found := PickOne(s, mode, text, e);
      var matches := if e.DirEntry? then e.dir in s.dirs && DirMatches(mode, text, s.dirs[e.dir])
                     else e.file in s.files && FileMatches(mode, text, s.files[e.file]);
      && |found| == (if matches then 1 else 0)
      && (matches ==> Shows(s, e, found[0]))
  {
    if e.DirEntry? && e.dir in s.dirs {
      IncludedIff(s.dirs[e.dir].name, text);
      IncludedIff(s.dirs[e.dir].tags, text);
    }
    if e.FileEntry? && e.file in s.files {
      IncludedIff(s.files[e.file].name, text);
      IncludedIff(s.files[e.file].extension, text);
      IncludedIff(s.files[e.file].tags, text);
    }
  }

  ghost predicate FindsDir(s: Store, mode: Mode, text: string, d: Id, r: Element) {
    ShowsDir(s, d, r) && DirMatches(mode, text, s.dirs[d])
  }

  ghost predicate FindsFile(s: Store, mode: Mode, text: string, f: Id, r: Element) {
    ShowsFile(s, f, r) && FileMatches(mode, text, s.files[f])
  }

  // What is found in a list of entries.
  lemma FoundIn(s: Store, mode: Mode, text: string, es: seq<Entry>, r: Element)
    ensures r in Pick(s, mode, text, es)
       <==> (exists d :: DirEntry(d) in es && FindsDir(s, mode, text, d, r))
            || (exists f :: FileEntry(f) in es && FindsFile(s, mode, text, f, r))
  {
    PickExactly(s, mode, text, es, r);
    forall e ensures r in PickOne(s, mode, text, e)
                <==> if e.DirEntry? then FindsDir(s, mode, text, e.dir, r) else FindsFile(s, mode, text, e.file, r)
    {
      EntryFound(s, mode, text, e);
    }
    forall d | DirEntry(d) in es && FindsDir(s, mode, text, d, r) ensures r in Pick(s, mode, text, es) {
      var i :| 0 <= i < |es| && es[i] == DirEntry(d);
    }
    forall f | FileEntry(f) in es && FindsFile(s, mode, text, f, r) ensures r in Pick(s, mode, text, es) {
      var i :| 0 <= i < |es| && es[i] == FileEntry(f);
    }
    if r in Pick(s, mode, text, es) {
      var i :| 0 <= i < |es| && r in PickOne(s, mode, text, es[i]);
      assert es[i] in es;
      if es[i].DirEntry? {
        assert DirEntry(es[i].dir) in es;
      } else {
        assert FileEntry(es[i].file) in es;
      }
    }
  }

  // The search by name, extension or tag finds exactly the matching directories and live files of the user's tree and
  // the matching files that are shared with the user; the search by owner is its second part alone.
  lemma SearchedExactly(s: Store, max: nat, mode: Mode, text: string, user: Id, r: Element)
    requires Inv(s, max) && user in s.users
    ensures
      var root := s.users[user].root;
      r in SearchedTree(s, mode, text, root)
      <==> (exists d :: d in Subtree(s.dirs, root) && FindsDir(s, mode, text, d, r))
           || (exists f :: f in Under(s, root) && FindsFile(s, mode, text, f, r))
    ensures r in FilesFound(s, mode, text, s.users[user].shared)
       <==> exists f :: f in s.users[user].shared && FindsFile(s, mode, text, f, r)
  {
    var root, shared := s.users[user].root, s.users[user].shared;
    assert RootThere(s, user);
    ListingExactly(s, max, root);
    FoundIn(s, mode, text, Listing(s, Walk(s, true, root)), r);
    FilesFoundPicked(s, mode, text, shared);
    FoundIn(s, mode, text, FileEntries(shared), r);
    FileEntriesOnce(shared);
  }

  ghost predicate Distinct(rs: seq<Element>) {
    forall i, j :: 0 <= i < j < |rs| ==> rs[i] != rs[j]
  }

  lemma DistinctMore(a: seq<Element>, b: seq<Element>)
    requires Distinct(a) && |b| <= 1 && forall r :: r in b ==> r !in a
    ensures Distinct(a + b)
  {
    var c := a + b;
    forall i, j | 0 <= i < j < |c| ensures c[i] != c[j] {
      if j == |a| {
        assert c[j] in b && c[i] in a;
      }
    }
  }

  // In the tree everything is found once.
  lemma FoundOnce(s: Store, max: nat, mode: Mode, text: string, d: Id)
    requires Inv(s, max) && d in s.dirs
    ensures Distinct(SearchedTree(s, mode, text, d))
  {
    ListingExactly(s, max, d);
    PickOnce(s, mode, text, Listing(s, Walk(s, true, d)));
  }

  lemma {:induction false} PickOnce(s: Store, mode: Mode, text: string, es: seq<Entry>)
    requires Numbered(s) && Once(es)
    ensures Distinct(Pick(s, mode, text, es))
  {
    if es != [] {
      var init, e := es[..|es| - 1], es[|es| - 1];
      PickOnce(s, mode, text, init);
      EntryFound(s, mode, text, e);
      forall r | r in PickOne(s, mode, text, e) ensures r !in Pick(s, mode, text, init) {
        NotFoundBefore(s, mode, text, es, r);
      }
      DistinctMore(Pick(s, mode, text, init), PickOne(s, mode, text, e));
    }
  }

  lemma FoundShows(s: Store, mode: Mode, text: string, e: Entry, r: Element)
    requires r in PickOne(s, mode, text, e)
    ensures Shows(s, e, r)
  {
    EntryFound(s, mode, text, e);
  }

  lemma NotFoundBefore(s: Store, mode: Mode, text: string, es: seq<Entry>, r: Element)
    requires Numbered(s) && Once(es) && es != [] && r in PickOne(s, mode, text, es[|es| - 1])
    ensures r !in Pick(s, mode, text, es[..|es| - 1])
  {
    var init, e := es[..|es| - 1], es[|es| - 1];
    PickExactly(s, mode, text, init, r);
    FoundShows(s, mode, text, e, r);
    if r in Pick(s, mode, text, init) {
      var i :| 0 <= i < |init| && r in PickOne(s, mode, text, init[i]);
      assert es[i] == init[i] && es[i] != e;
      FoundShows(s, mode, text, init[i], r);
      ShownOnce(s, init[i], e, r);
    }
  }

  // What is shown tells which entry it is.
  lemma ShownOnce(s: Store, a: Entry, b: Entry, r: Element)
    requires Numbered(s)
    requires Shows(s, a, r) && Shows(s, b, r)
    ensures a == b
  {
    if a.DirEntry? {
      assert IsNumbered(a.dir, s.nextDir) && IsNumbered(b.dir, s.nextDir);
    } else {
      assert IsNumbered(a.file, s.nextFile) && IsNumbered(b.file, s.nextFile);
    }
  }

  ghost predicate Present(s: Store, ids: seq<Id>) {
    ids != [] ==> ids[0] in s.files && Present(s, ids[1..])
  }

  lemma {:induction false} PresentAll(s: Store, ids: seq<Id>)
    ensures Present(s, ids) <==> forall f :: f in ids ==> f in s.files
  {
    if ids != [] {
      PresentAll(s, ids[1..]);
      assert ids == [ids[0]] + ids[1..];
    }
  }

  // What a search relies on: the directories form a tree and list files that exist.
  ghost predicate Searchable(s: Store) {
    TreeShape(s) && forall d {:trigger FilesPresent(s, d)} :: d in s.dirs ==> FilesPresent(s, d)
  }

  ghost predicate FilesPresent(s: Store, d: Id)
    requires d in s.dirs
  {
    Present(s, s.dirs[d].files)
  }

  lemma InvSearchable(s: Store, max: nat)
    requires Inv(s, max)
    ensures Searchable(s)
    ensures forall u :: u in s.users ==> s.users[u].root in s.dirs
    ensures forall u :: u in s.users ==> Present(s, s.users[u].shared)
  {
    forall d | d in s.dirs ensures FilesPresent(s, d) {
      assert ListPlaced(s, d);
      PresentAll(s, s.dirs[d].files);
    }
    forall u | u in s.users ensures s.users[u].root in s.dirs && Present(s, s.users[u].shared) {
      assert RootThere(s, u);
      assert UserShares(s, u);
      PresentAll(s, s.users[u].shared);
    }
  }

  // The matching ones of a list of files.
  function FilesFound(s: Store, mode: Mode, text: string, ids: seq<Id>): seq<Element> {
    if ids == [] then []
    else
      (if ids[0] in s.files then FileFound(mode, text, ids[0], s.files[ids[0]]) else [])
      + FilesFound(s, mode, text, ids[1..])
  }

  // found holds what was found before and the matches among the first of ids; rest is still to be looked at.
  ghost predicate Gathered(s: Store, mode: Mode, text: string, ids: seq<Id>, before: seq<Element>, rest: seq<Id>,
                           found: seq<Element>)
  {
    && before + FilesFound(s, mode, text, ids) == found + FilesFound(s, mode, text, rest)
    && (Present(s, ids) <==> Present(s, rest))
  }

  lemma GatherNext(s: Store, mode: Mode, text: string, ids: seq<Id>, before: seq<Element>, rest: seq<Id>,
                   found: seq<Element>)
    requires rest != [] && rest[0] in s.files && Gathered(s, mode, text, ids, before, rest, found)
    ensures Gathered(s, mode, text, ids, before, rest[1..], found + FileFound(mode, text, rest[0], s.files[rest[0]]))
  {
    Associative(found, FileFound(mode, text, rest[0], s.files[rest[0]]), FilesFound(s, mode, text, rest[1..]));
  }

  lemma {:induction false} FilesFoundPicked(s: Store, mode: Mode, text: string, ids: seq<Id>)
    ensures FilesFound(s, mode, text, ids) == Pick(s, mode, text, FileEntries(ids))
  {
    if ids != [] {
      FilesFoundPicked(s, mode, text, ids[1..]);
      var first, es := [FileEntry(ids[0])], FileEntries(ids[1..]);
      assert FileEntries(ids) == first + es;
      PickConcat(s, mode, text, first, es);
      assert first[..0] == [];
      assert Pick(s, mode, text, first) == PickOne(s, mode, text, FileEntry(ids[0]));
    }
  }
}
