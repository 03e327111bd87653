/** The path normaliser: repeated separators and dot components after a separator are taken out in place. */
module Path {
  import opened Basics
  import opened Bytes

  const DOT: byte := 46

  // A slash or a backslash.
  predicate IsSep(c: byte) {
    c == 47 || c == 92
  }

  // How many bytes of t the code skips at once after a separator; 0 when it goes on.
  function Junk(t: seq<byte>): (n: nat)
    ensures n <= |t|
  {
    if t == [] then 0
    else if IsSep(t[0]) then 1
    else if t[0] == DOT && |t| > 1 && IsSep(t[1]) then 2
    else if t[0] == DOT && |t| == 2 && t[1] == DOT then 2
    else if t[0] == DOT && |t| > 2 && t[1] == DOT && IsSep(t[2]) then 3
    else 0
  }

  function Skip(t: seq<byte>): (r: seq<byte>)
    ensures |r| <= |t|
  {
    if Junk(t) == 0 then t else Skip(t[Junk(t)..])
  }

  function Clean(t: seq<byte>): (r: seq<byte>)
    ensures |r| <= |t|
    decreases |t|
  {
    if t == [] then [] else [t[0]] + Clean(if IsSep(t[0]) then Skip(t[1..]) else t[1..])
  }

  // ---------- the normal form ----------

  // What stands at j is not another separator, nor `./` or `../`, nor `..` at the end.
  ghost predicate Plain(t: seq<byte>, j: nat) {
    && (j < |t| ==> !IsSep(t[j]))
    && (j + 1 < |t| && t[j] == DOT ==> !IsSep(t[j + 1]))
    && (j + 2 == |t| && t[j] == DOT ==> t[j + 1] != DOT)
    && (j + 2 < |t| && t[j] == DOT && t[j + 1] == DOT ==> !IsSep(t[j + 2]))
  }

  // It is so after every separator.
  ghost predicate Normal(t: seq<byte>) {
    forall j {:trigger Plain(t, j)} :: 1 <= j <= |t| && IsSep(t[j - 1]) ==> Plain(t, j)
  }

  lemma PlainCons(c: byte, t: seq<byte>, j: nat)
    ensures Plain([c] + t, j + 1) <==> Plain(t, j)
    ensures j < |t| ==> ([c] + t)[j + 1] == t[j]
    ensures Plain(t, 0) <==> Junk(t) == 0
  {
  }

  lemma NormalCons(c: byte, t: seq<byte>)
    ensures Normal([c] + t) <==> Normal(t) && (IsSep(c) ==> Junk(t) == 0)
  {
    var u := [c] + t;
    PlainCons(c, t, 0);
    if Normal(u) {
      assert IsSep(c) ==> Plain(u, 1);
      forall j | 1 <= j <= |t| && IsSep(t[j - 1]) ensures Plain(t, j) {
        PlainCons(c, t, j);
        PlainCons(c, t, j - 1);
        assert Plain(u, j + 1);
      }
    }
    if Normal(t) && (IsSep(c) ==> Junk(t) == 0) {
      forall j | 1 <= j <= |u| && IsSep(u[j - 1]) ensures Plain(u, j) {
        PlainCons(c, t, j - 1);
        if j > 1 {
          PlainCons(c, t, j - 2);
          assert Plain(t, j - 1);
        }
      }
    }
  }

  lemma {:induction false} SkipEnds(t: seq<byte>)
    ensures Junk(Skip(t)) == 0
    decreases |t|
  {
    if Junk(t) != 0 {
      SkipEnds(t[Junk(t)..]);
    }
  }

  // Cleaning does not bring new junk to the front.
  lemma CleanFront(t: seq<byte>)
    requires Junk(t) == 0
    ensures Junk(Clean(t)) == 0
  {
    if |t| > 1 && !IsSep(t[0]) {
      assert Clean(t) == [t[0]] + Clean(t[1..]);
      if !IsSep(t[1]) && |t| > 2 {
        assert Clean(t[1..]) == [t[1]] + Clean(t[2..]);
        assert Clean(t[2..])[0] == t[2];
      }
    }
  }

  // The result is in normal form,
  lemma {:induction false} CleanIsNormal(t: seq<byte>)
    ensures Normal(Clean(t))
    decreases |t|
  {
    if t != [] {
      var rest := if IsSep(t[0]) then Skip(t[1..]) else t[1..];
      CleanIsNormal(rest);
      if IsSep(t[0]) {
        SkipEnds(t[1..]);
        CleanFront(rest);
      }
      NormalCons(t[0], Clean(rest));
    }
  }

  // and the strings in normal form are exactly those that cleaning does not change.
  lemma {:induction false} NormalIsFixed(t: seq<byte>)
    ensures Normal(t) <==> Clean(t) == t
    decreases |t|
  {
    if t != [] {
      assert t == [t[0]] + t[1..];
      NormalCons(t[0], t[1..]);
      NormalIsFixed(t[1..]);
      if IsSep(t[0]) && Junk(t[1..]) != 0 {
        assert |Skip(t[1..])| < |t[1..]|;
      }
    }
  }

  // A second pass changes nothing.
  lemma CleanTwice(t: seq<byte>)
    ensures Clean(Clean(t)) == Clean(t)
  {
    CleanIsNormal(t);
    NormalIsFixed(Clean(t));
  }

  // ---------- what is kept ----------

  // The length of the first component.
  function Head(t: seq<byte>): (n: nat)
    ensures n <= |t| && (n < |t| ==> IsSep(t[n])) && forall i :: 0 <= i < n ==> !IsSep(t[i])
  {
    if t == [] || IsSep(t[0]) then 0 else 1 + Head(t[1..])
  }

  function Kept(component: seq<byte>): seq<seq<byte>> {
    if component == [] || component == [DOT] || component == [DOT, DOT] then [] else [component]
  }

  // The components between separators, without the empty ones, `.` and `..`.
  function Names(t: seq<byte>): seq<seq<byte>> {
    var n := Head(t);
    Kept(t[..n]) + (if n < |t| then Names(t[n + 1..]) else [])
  }

  lemma NamesOfJunk(t: seq<byte>)
    requires Junk(t) != 0
    ensures Names(t[Junk(t)..]) == Names(t)
  {
    var k := Junk(t);
    var n := if IsSep(t[k - 1]) then k - 1 else k;
    HeadIs(t, n);
    assert Kept(t[..n]) == [] by {
      assert n == 0 || t[..n] == [DOT] || t[..n] == [DOT, DOT];
    }
    assert t[|t|..] == [];
  }

  lemma {:induction false} HeadIs(t: seq<byte>, n: nat)
    requires n <= |t| && (n < |t| ==> IsSep(t[n])) && forall i :: 0 <= i < n ==> !IsSep(t[i])
    ensures Head(t) == n
  {
  }

  lemma {:induction false} NamesOfSkip(t: seq<byte>)
    ensures Names(Skip(t)) == Names(t)
    decreases |t|
  {
    if Junk(t) != 0 {
      NamesOfJunk(t);
      NamesOfSkip(t[Junk(t)..]);
    }
  }

  predicate NoSep(head: seq<byte>) {
    forall i :: 0 <= i < |head| ==> !IsSep(head[i])
  }

  lemma NamesOfParts(head: seq<byte>, c: byte, rest: seq<byte>)
    requires NoSep(head) && IsSep(c)
    ensures Names(head + [c] + rest) == Kept(head) + Names(rest)
  {
    var t := head + [c] + rest;
    HeadIs(t, |head|);
    assert t[..|head|] == head && t[|head| + 1..] == rest;
  }

  // The first component is copied, and its separator; then the junk is skipped.
  lemma {:induction false} CleanParts(head: seq<byte>, c: byte, rest: seq<byte>)
    requires NoSep(head) && IsSep(c)
    ensures Clean(head + [c] + rest) == head + [c] + Clean(Skip(rest))
    decreases |head|
  {
    var t := head + [c] + rest;
    if head == [] {
      assert t == [c] + rest && t[1..] == rest;
    } else {
      assert t[1..] == head[1..] + [c] + rest;
      CleanParts(head[1..], c, rest);
      Associative([head[0]], head[1..] + [c], Clean(Skip(rest)));
      Associative([head[0]], head[1..], [c]);
      assert [head[0]] + head[1..] == head;
    }
  }

  lemma {:induction false} CleanPlain(t: seq<byte>)
    requires NoSep(t)
    ensures Clean(t) == t
    decreases |t|
  {
    if t != [] {
      CleanPlain(t[1..]);
    }
  }

  // Nothing but empty components, `.` and `..` is taken out, and nothing is added.
  lemma {:induction false} CleanKeepsNames(t: seq<byte>)
    ensures Names(Clean(t)) == Names(t)
    decreases |t|
  {
    var n := Head(t);
    if n < |t| {
      var head, c, rest := t[..n], t[n], t[n + 1..];
      assert t == head + [c] + rest;
      CleanParts(head, c, rest);
      NamesOfParts(head, c, rest);
      NamesOfParts(head, c, Clean(Skip(rest)));
      NamesOfSkip(rest);
      CleanKeepsNames(Skip(rest));
    } else {
      CleanPlain(t);
    }
  }

  // A piece of k bytes that is taken out behind a separator: another separator, `./` or `../`, or `..` at the end.
  ghost predicate JunkPiece(t: seq<byte>, k: nat) {
    && k <= |t|
    && (|| (k == 1 && t[0] in {47, 92})
        || (k == 2 && t[0] == 46 && t[1] in {47, 92})
        || (k == 2 && t == [46, 46])
        || (k == 3 && t[0] == 46 && t[1] == 46 && t[2] in {47, 92}))
  }

  // The first k bytes are such pieces, and no further one follows.
  ghost predicate JunkRun(t: seq<byte>, k: nat)
    decreases k
  {
    if k == 0 then forall j :: !JunkPiece(t, j)
    else exists j: nat :: 0 < j <= k && JunkPiece(t, j) && JunkRun(t[j..], k - j)
  }

  lemma JunkIs(t: seq<byte>)
    ensures Junk(t) > 0 ==> JunkPiece(t, Junk(t))
    ensures Junk(t) == 0 ==> forall j :: !JunkPiece(t, j)
  {
  }

  lemma {:induction false} SkipRun(t: seq<byte>) returns (k: nat)
    ensures k <= |t| && JunkRun(t, k) && Skip(t) == t[k..]
    decreases |t|
  {
    JunkIs(t);
    if Junk(t) == 0 {
      k := 0;
    } else {
      var n := SkipRun(t[Junk(t)..]);
      k := Junk(t) + n;
      assert t[Junk(t)..][n..] == t[k..];
    }
  }

  // What cleaning does, component by component: the text up to a separator and the separator are kept, the run of junk
  // behind it is taken out, and so on with the rest; a text without a separator is kept.
  lemma CleanSteps(head: seq<byte>, c: byte, rest: seq<byte>) returns (k: nat)
    requires (forall i :: 0 <= i < |head| ==> head[i] !in {47, 92}) && c in {47, 92}
    ensures k <= |rest| && JunkRun(rest, k) && Clean(head + [c] + rest) == head + [c] + Clean(rest[k..])
    ensures Clean(head) == head
  {
    CleanPlain(head);
    CleanParts(head, c, rest);
    k := SkipRun(rest);
  }

  // ---------- the loop ----------

  // From index s on, a holds the string rest and its terminator at n.
  ghost predicate Holds(a: array<byte>, s: nat, n: nat, rest: seq<byte>)
    reads a
  {
    && s + |rest| == n < a.Length && a[n] == 0
    && forall i :: 0 <= i < |rest| ==> a[s + i] == rest[i] != 0
  }

  // a holds a string of n bytes and its terminator; p is the length that it has afterwards.
  method RemoveDoubleDotsAndDoubleSlashes(a: array<byte>, ghost n: nat) returns (p: nat)
    requires n < a.Length && Holds(a, 0, n, a[..n])
    modifies a
    ensures p <= n && a[..p] == Clean(old(a[..n])) && a[p] == 0
  {
    ghost var t, rest := a[..n], a[..n];
    var s := 0;
    p := 0;
    assert a[..p] == [];
    while a[s] != 0
      invariant p <= s <= n && Holds(a, s, n, rest)
      invariant Cleaned(t, a[..p], rest)
      decreases |rest|
    {
      CleanNext(t, a[..p], rest);
      var c := a[s];
      CopyDown(a, p, s, n, rest);
      p, s := p + 1, s + 1;
      rest := rest[1..];
      if IsSep(c) {
        s, rest := SkipJunk(a, s, n, rest);
      }
    }
    Put(a, p, 0);
  }

  // t cleans to out followed by what rest cleans to.
  ghost predicate Cleaned(t: seq<byte>, out: seq<byte>, rest: seq<byte>) {
    Clean(t) == out + Clean(rest)
  }

  lemma CleanNext(t: seq<byte>, out: seq<byte>, rest: seq<byte>)
    requires rest != [] && Cleaned(t, out, rest)
    ensures Cleaned(t, out + [rest[0]], if IsSep(rest[0]) then Skip(rest[1..]) else rest[1..])
  {
    var more := if IsSep(rest[0]) then Skip(rest[1..]) else rest[1..];
    assert out + ([rest[0]] + Clean(more)) == out + [rest[0]] + Clean(more);
  }

  method CopyDown(a: array<byte>, p: nat, s: nat, ghost n: nat, ghost rest: seq<byte>)
    requires p <= s && rest != [] && Holds(a, s, n, rest)
    modifies a
    ensures a[..p + 1] == old(a[..p]) + [rest[0]] && Holds(a, s + 1, n, rest[1..])
  {
    Put(a, p, a[s]);
  }

  method SkipJunk(a: array<byte>, start: nat, ghost n: nat, ghost t: seq<byte>) returns (s: nat, ghost rest: seq<byte>)
    requires Holds(a, start, n, t)
    ensures start <= s <= n && rest == Skip(t) && Holds(a, s, n, rest)
  {
    s, rest := start, t;
    while a[s] != 0
      invariant start <= s && Holds(a, s, n, rest) && Skip(rest) == Skip(t)
      decreases |rest|
    {
      var k := JunkAt(a, s, n, rest);
      if k == 0 { return; }
      s, rest := s + k, rest[k..];
    }
  }

  // The tests of the skipping loop.
  method JunkAt(a: array<byte>, s: nat, ghost n: nat, ghost rest: seq<byte>) returns (k: nat)
    requires Holds(a, s, n, rest) && rest != []
    ensures k == Junk(rest)
  {
    assert rest[0] == a[s + 0];
    assert |rest| > 1 ==> rest[1] == a[s + 1];
    assert |rest| > 2 ==> rest[2] == a[s + 2];
    if IsSep(a[s]) { k := 1; }
    else if a[s] == DOT && IsSep(a[s + 1]) { k := 2; }
    else if a[s] == DOT && a[s + 1] == DOT && a[s + 2] == 0 { k := 2; }
    else if a[s] == DOT && a[s + 1] == DOT && IsSep(a[s + 2]) { k := 3; }
    else { k := 0; }
  }
}
