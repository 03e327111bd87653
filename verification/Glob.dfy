/** The glob matcher that picks handlers by file name and URI. */
module Glob {
  import opened Bytes

  const BAR: byte := 124
  const QUESTION: byte := 63
  const DOLLAR: byte := 36
  const STAR: byte := 42
  const SLASH: byte := 47

  function Lower(c: byte): byte {
    if 65 <= c <= 90 then c + 32 else c
  }

  // ---------- what a pattern means ----------

  // `*` stands for any text without a slash and `**` for any text.
  predicate IsDouble(p: seq<byte>) {
    |p| > 1 && p[0] == STAR && p[1] == STAR
  }

  function AfterStar(p: seq<byte>): seq<byte>
    requires p != []
  {
    if IsDouble(p) then p[2..] else p[1..]
  }

  ghost predicate StarTakes(p: seq<byte>, s: seq<byte>, k: nat) {
    k <= |s| && (IsDouble(p) || SLASH !in s[..k])
  }

  predicate OneTakes(c: byte, d: byte) {
    c == QUESTION || Lower(c) == Lower(d)
  }

  // The pattern p, without alternatives, matches the first n bytes of s.
  ghost predicate Matches(p: seq<byte>, s: seq<byte>, n: nat)
    decreases |p|
  {
    if p == [] then n == 0
    else if p[0] == DOLLAR then n == 0 && s == []
    else if p[0] == STAR then
      exists k: nat {:trigger StarTakes(p, s, k)} ::
        StarTakes(p, s, k) && k <= n && Matches(AfterStar(p), s[k..], n - k)
    else s != [] && n > 0 && OneTakes(p[0], s[0]) && Matches(p[1..], s[1..], n - 1)
  }

  // No larger take of the star in front leaves a text that the rest matches.
  ghost predicate LargestTake(p: seq<byte>, s: seq<byte>, k: nat)
    requires p != []
  {
    && StarTakes(p, s, k)
    && forall l: nat {:trigger StarTakes(p, s, l)} :: l > k && StarTakes(p, s, l) ==> NoMatch(AfterStar(p), s[l..])
  }

  ghost predicate NoMatch(p: seq<byte>, s: seq<byte>) {
    forall n: nat :: !Matches(p, s, n)
  }

  // The match of n bytes in which each star, from the first on, takes as much as it can.
  ghost predicate Greedy(p: seq<byte>, s: seq<byte>, n: nat)
    decreases |p|
  {
    if p == [] then n == 0
    else if p[0] == DOLLAR then n == 0 && s == []
    else if p[0] == STAR then
      exists k: nat {:trigger LargestTake(p, s, k)} ::
        LargestTake(p, s, k) && k <= n && Greedy(AfterStar(p), s[k..], n - k)
    else s != [] && n > 0 && OneTakes(p[0], s[0]) && Greedy(p[1..], s[1..], n - 1)
  }

  lemma {:induction false} GreedyMatches(p: seq<byte>, s: seq<byte>, n: nat)
    requires Greedy(p, s, n)
    ensures Matches(p, s, n)
    decreases |p|
  {
    if p == [] || p[0] == DOLLAR {
    } else if p[0] == STAR {
      var k: nat :| LargestTake(p, s, k) && k <= n && Greedy(AfterStar(p), s[k..], n - k);
      GreedyMatches(AfterStar(p), s[k..], n - k);
      assert StarTakes(p, s, k);
    } else {
      GreedyMatches(p[1..], s[1..], n - 1);
    }
  }

  // Letters of pattern and text may be replaced by their other case.
  lemma {:induction false} MatchesAnyCase(p: seq<byte>, s: seq<byte>, n: nat, p': seq<byte>, s': seq<byte>)
    requires |p'| == |p| && forall i :: 0 <= i < |p| ==> SameLetter(p[i], p'[i])
    requires |s'| == |s| && forall i :: 0 <= i < |s| ==> SameLetter(s[i], s'[i])
    requires Matches(p, s, n)
    ensures Matches(p', s', n)
    decreases |p|
  {
    if p == [] || p[0] == DOLLAR {
    } else if p[0] == STAR {
      var k: nat :| StarTakes(p, s, k) && k <= n && Matches(AfterStar(p), s[k..], n - k);
      assert IsDouble(p') == IsDouble(p);
      assert StarTakes(p', s', k);
      MatchesAnyCase(AfterStar(p), s[k..], n - k, AfterStar(p'), s'[k..]);
    } else {
      MatchesAnyCase(p[1..], s[1..], n - 1, p'[1..], s'[1..]);
    }
  }

  // The parts of a pattern between bars.
  function FirstBar(p: seq<byte>): (k: nat)
    ensures k <= |p| && BAR !in p[..k] && (k < |p| ==> p[k] == BAR)
  {
    if p == [] || p[0] == BAR then 0 else
      var k := 1 + FirstBar(p[1..]);
      assert p[..k] == [p[0]] + p[1..][..k - 1];
      k
  }

  function Alternatives(p: seq<byte>): seq<seq<byte>> {
    var k := FirstBar(p);
    [p[..k]] + (if k < |p| then Alternatives(p[k + 1..]) else [])
  }

  // ---------- the same by pieces ----------

  // A piece of text for each element of the pattern up to its end or its `$`.
  datatype Element = One(c: byte) | Star(double: bool) | End

  function Elements(p: seq<byte>): seq<Element> {
    if p == [] then []
    else if p[0] == DOLLAR then [End]
    else if p[0] == STAR then [Star(IsDouble(p))] + Elements(AfterStar(p))
    else [One(p[0])] + Elements(p[1..])
  }

  // The same letter, in either case; other bytes only match themselves.
  ghost predicate SameLetter(c: byte, d: byte) {
    c == d || (65 <= c <= 90 && d == c + 32) || (65 <= d <= 90 && c == d + 32)
  }

  lemma OneTakesIff(c: byte, d: byte)
    ensures OneTakes(c, d) <==> c == QUESTION || SameLetter(c, d)
  {
  }

  ghost predicate Fits(e: Element, piece: seq<byte>) {
    match e
    case One(c) => |piece| == 1 && (c == QUESTION || SameLetter(c, piece[0]))
    case Star(double) => double || SLASH !in piece
    case End => piece == []
  }

  ghost predicate AllFit(es: seq<Element>, pieces: seq<seq<byte>>) {
    |pieces| == |es| && forall i :: 0 <= i < |es| ==> Fits(es[i], pieces[i])
  }

  // The first n bytes of s are cut into pieces that fit the elements; a `$` stands at the end of s.
  ghost predicate Cut(es: seq<Element>, s: seq<byte>, n: nat, pieces: seq<seq<byte>>) {
    n <= |s| && AllFit(es, pieces) && Concat(pieces) == s[..n] && (End in es ==> n == |s|)
  }

  lemma CutCons(e: Element, es: seq<Element>, s: seq<byte>, n: nat, k: nat, pieces: seq<seq<byte>>)
    requires k <= n <= |s| && (e == End ==> es == [] && n == |s|)
    ensures Cut([e] + es, s, n, [s[..k]] + pieces) <==> Fits(e, s[..k]) && Cut(es, s[k..], n - k, pieces)
  {
    ConcatCons(s, k, n, pieces);
    FitCons(e, es, s[..k], pieces);
    assert End in [e] + es <==> e == End || End in es;
  }

  lemma ConcatCons(s: seq<byte>, k: nat, n: nat, pieces: seq<seq<byte>>)
    requires k <= n <= |s|
    ensures Concat([s[..k]] + pieces) == s[..n] <==> Concat(pieces) == s[k..][..n - k]
  {
    var all := [s[..k]] + pieces;
    assert all[0] == s[..k] && all[1..] == pieces;
    assert s[..n] == s[..k] + s[k..][..n - k];
    SamePrefix(s[..k], Concat(pieces), s[k..][..n - k]);
  }

  lemma SamePrefix(x: seq<byte>, a: seq<byte>, b: seq<byte>)
    ensures x + a == x + b <==> a == b
  {
    if x + a == x + b {
      assert a == (x + a)[|x|..] && b == (x + b)[|x|..];
    }
  }

  lemma FitCons(e: Element, es: seq<Element>, piece: seq<byte>, pieces: seq<seq<byte>>)
    ensures AllFit([e] + es, [piece] + pieces) <==> Fits(e, piece) && AllFit(es, pieces)
  {
    var es', pieces' := [e] + es, [piece] + pieces;
    if AllFit(es', pieces') {
      assert Fits(es'[0], pieces'[0]);
      forall i | 0 <= i < |es| ensures Fits(es[i], pieces[i]) {
        assert Fits(es'[i + 1], pieces'[i + 1]);
      }
    }
    if Fits(e, piece) && AllFit(es, pieces) {
      forall i | 0 <= i < |es'| ensures Fits(es'[i], pieces'[i]) {
        if i > 0 {
          assert Fits(es[i - 1], pieces[i - 1]);
        }
      }
    }
  }

  // A match cuts the text into pieces,
  lemma {:induction false} MatchIsCut(p: seq<byte>, s: seq<byte>, n: nat) returns (pieces: seq<seq<byte>>)
    requires Matches(p, s, n)
    ensures Cut(Elements(p), s, n, pieces)
    decreases |p|
  {
    if p == [] {
      pieces := [];
    } else if p[0] == DOLLAR {
      pieces := [[]];
      assert Concat(pieces) == [];
    } else {
      var k := HeadMatches(p, s, n);
      var rest := MatchIsCut(AfterFirst(p), s[k..], n - k);
      ElementsHead(p);
      CutCons(First(p), Elements(AfterFirst(p)), s, n, k, rest);
      pieces := [s[..k]] + rest;
    }
  }

  function First(p: seq<byte>): Element
    requires p != []
  {
    if p[0] == DOLLAR then End else if p[0] == STAR then Star(IsDouble(p)) else One(p[0])
  }

  lemma ElementsHead(p: seq<byte>)
    requires p != [] && p[0] != DOLLAR
    ensures Elements(p) == [First(p)] + Elements(AfterFirst(p)) && First(p) != End
  {
  }

  // What the first element takes, and that it may.
  lemma {:induction false} HeadMatches(p: seq<byte>, s: seq<byte>, n: nat) returns (k: nat)
    requires p != [] && p[0] != DOLLAR && Matches(p, s, n)
    ensures k <= n && k <= |s| && Fits(First(p), s[..k]) && Matches(AfterFirst(p), s[k..], n - k)
  {
    if p[0] == STAR {
      k :| StarTakes(p, s, k) && k <= n && Matches(AfterStar(p), s[k..], n - k);
    } else {
      k := 1;
    }
  }

  // The first piece of a cut is what the first element takes.
  lemma {:induction false} CutHead(p: seq<byte>, s: seq<byte>, n: nat, pieces: seq<seq<byte>>)
    requires p != [] && p[0] != DOLLAR && Cut(Elements(p), s, n, pieces)
    ensures
      var k := |pieces[0]|;
      && pieces != [] && k <= n && pieces[0] == s[..k] && Fits(First(p), pieces[0])
      && Cut(Elements(AfterFirst(p)), s[k..], n - k, pieces[1..])
  {
    var es := Elements(AfterFirst(p));
    var e, k := First(p), |pieces[0]|;
    ElementsHead(p);
    assert Elements(p)[0] == e && Fits(e, pieces[0]);
    assert pieces == [pieces[0]] + pieces[1..];
    assert Concat(pieces) == pieces[0] + Concat(pieces[1..]);
    assert s[..k] == s[..n][..k] == pieces[0];
    CutCons(e, es, s, n, k, pieces[1..]);
  }

  // The pattern without its first element.
  function AfterFirst(p: seq<byte>): seq<byte>
    requires p != []
  {
    if p[0] == STAR then AfterStar(p) else p[1..]
  }

  // and every way to cut it into fitting pieces is a match.
  lemma {:induction false} CutIsMatch(p: seq<byte>, s: seq<byte>, n: nat, pieces: seq<seq<byte>>)
    requires Cut(Elements(p), s, n, pieces)
    ensures Matches(p, s, n)
    decreases |p|
  {
    if p == [] {
      assert pieces == [];
    } else if p[0] == DOLLAR {
      assert Fits(Elements(p)[0], pieces[0]) && End in Elements(p);
      assert pieces[1..] == [];
      assert Concat(pieces) == [];
    } else {
      var k := |pieces[0]|;
      CutHead(p, s, n, pieces);
      CutIsMatch(AfterFirst(p), s[k..], n - k, pieces[1..]);
      if p[0] == STAR {
        assert StarTakes(p, s, k);
      }
    }
  }

  // ---------- which match is found ----------

  // At the first piece of another length, a has the longer one.
  ghost predicate AtLeast(a: seq<seq<byte>>, b: seq<seq<byte>>) {
    a == [] || b == [] || |a[0]| > |b[0]| || (|a[0]| == |b[0]| && AtLeast(a[1..], b[1..]))
  }

  // Of all ways to cut the text, the greedy match is the one with the longest pieces, the first piece counting most.
  lemma {:induction false} GreedyIsGreatest(p: seq<byte>, s: seq<byte>, n: nat) returns (pieces: seq<seq<byte>>)
    requires Greedy(p, s, n)
    ensures Cut(Elements(p), s, n, pieces) && Greatest(p, s, pieces)
    decreases |p|
  {
    if p == [] || p[0] == DOLLAR {
      GreedyMatches(p, s, n);
      pieces := MatchIsCut(p, s, n);
      forall m: nat, others | Cut(Elements(p), s, m, others) ensures AtLeast(pieces, others) {
        LastPiece(p, s, m, others, pieces);
      }
    } else {
      var k := GreedyHead(p, s, n);
      var rest := GreedyIsGreatest(AfterFirst(p), s[k..], n - k);
      ElementsHead(p);
      CutCons(First(p), Elements(AfterFirst(p)), s, n, k, rest);
      pieces := [s[..k]] + rest;
      GreatestCons(p, s, k, rest);
    }
  }

  ghost predicate Greatest(p: seq<byte>, s: seq<byte>, pieces: seq<seq<byte>>) {
    forall m: nat, others :: Cut(Elements(p), s, m, others) ==> AtLeast(pieces, others)
  }

  // What the first element takes in the greedy match.
  ghost predicate Takes(p: seq<byte>, s: seq<byte>, k: nat)
    requires p != []
  {
    if p[0] == STAR then LargestTake(p, s, k) else k == 1
  }

  lemma GreedyHead(p: seq<byte>, s: seq<byte>, n: nat) returns (k: nat)
    requires p != [] && p[0] != DOLLAR && Greedy(p, s, n)
    ensures k <= n <= |s| && Takes(p, s, k) && Greedy(AfterFirst(p), s[k..], n - k)
    ensures Fits(First(p), s[..k])
  {
    k := 1;
    if p[0] == STAR {
      k :| LargestTake(p, s, k) && k <= n && Greedy(AfterStar(p), s[k..], n - k);
    }
    GreedyMatches(p, s, n);
    MatchBound(p, s, n);
  }

  lemma GreatestCons(p: seq<byte>, s: seq<byte>, k: nat, rest: seq<seq<byte>>)
    requires p != [] && p[0] != DOLLAR && k <= |s| && Takes(p, s, k) && Greatest(AfterFirst(p), s[k..], rest)
    ensures Greatest(p, s, [s[..k]] + rest)
  {
    var pieces := [s[..k]] + rest;
    assert pieces[1..] == rest;
    forall m: nat, others | Cut(Elements(p), s, m, others) ensures AtLeast(pieces, others) {
      TakesNoMore(p, s, k, m, others);
    }
  }

  lemma LastPiece(p: seq<byte>, s: seq<byte>, m: nat, others: seq<seq<byte>>, pieces: seq<seq<byte>>)
    requires p == [] || p[0] == DOLLAR
    requires Cut(Elements(p), s, m, others) && |pieces| == |Elements(p)|
    ensures AtLeast(pieces, others)
  {
    if p != [] {
      assert Fits(Elements(p)[0], others[0]);
      assert pieces[1..] == [];
    }
  }

  lemma MatchBound(p: seq<byte>, s: seq<byte>, n: nat)
    requires Matches(p, s, n)
    ensures n <= |s|
  {
    var pieces := MatchIsCut(p, s, n);
  }

  // In no cut does the first piece exceed what the greedy match takes.
  lemma TakesNoMore(p: seq<byte>, s: seq<byte>, k: nat, m: nat, others: seq<seq<byte>>)
    requires p != [] && p[0] != DOLLAR && Cut(Elements(p), s, m, others)
    requires Takes(p, s, k)
    ensures others != [] && |others[0]| <= k
    ensures |others[0]| == k ==> k <= m && k <= |s| && Cut(Elements(AfterFirst(p)), s[k..], m - k, others[1..])
  {
    var l := |others[0]|;
    CutHead(p, s, m, others);
    if p[0] == STAR && l > k {
      assert StarTakes(p, s, l);
      CutIsMatch(AfterStar(p), s[l..], m - l, others[1..]);
    }
  }

  // ---------- how a pattern is written ----------

  function Written(es: seq<Element>): seq<byte> {
    if es == [] then []
    else
      (match es[0] case One(c) => [c] case Star(double) => (if double then [42, 42] else [42]) case End => [36])
      + Written(es[1..])
  }

  // Stars and dollars stand for themselves nowhere, a `$` ends the pattern, and `*` before another star would be `**`.
  ghost predicate Writable(es: seq<Element>) {
    forall i :: 0 <= i < |es| ==>
      && es[i] != One(42) && es[i] != One(36) && (es[i] == End ==> i == |es| - 1)
      && (es[i] == Star(false) && i + 1 < |es| ==> !es[i + 1].Star?)
  }

  lemma {:induction false} ElementsOfWritten(es: seq<Element>)
    requires Writable(es)
    ensures Elements(Written(es)) == es
    decreases |es|
  {
    if es != [] {
      var rest := es[1..];
      assert forall i :: 0 <= i < |rest| ==> rest[i] == es[i + 1];
      ElementsOfWritten(rest);
      var p, q := Written(es), Written(rest);
      if es[0] == Star(false) && rest != [] {
        FirstWritten(rest);
      }
      if es[0].Star? {
        assert AfterStar(p) == q;
      } else if es[0].One? {
        assert p[1..] == q;
      } else {
        assert rest == [];
      }
      assert es == [es[0]] + rest;
    }
  }

  lemma FirstWritten(es: seq<Element>)
    requires es != [] && !es[0].Star? && es[0] != One(42)
    ensures Written(es) != [] && Written(es)[0] != STAR
  {
  }

  // ---------- the matcher ----------

  // What a result says about a pattern without alternatives.
  ghost predicate Answers(p: seq<byte>, s: seq<byte>, r: int) {
    if r == -1 then forall n: nat :: !Matches(p, s, n)
    else 0 <= r <= |s| && Matches(p, s, r) && Greedy(p, s, r) && (r == 0 ==> OnlyEmpty(p, s))
  }

  ghost predicate OnlyEmpty(p: seq<byte>, s: seq<byte>) {
    forall n: nat :: Matches(p, s, n) ==> n == 0
  }

  // The i-th alternative is the first to match a non-empty prefix, and r is the length of its greedy match.
  ghost predicate FirstMatch(alternatives: seq<seq<byte>>, s: seq<byte>, i: nat, r: nat) {
    && i < |alternatives| && Matches(alternatives[i], s, r) && Greedy(alternatives[i], s, r)
    && forall j :: 0 <= j < i ==> OnlyEmpty(alternatives[j], s)
  }

  // A positive result is that of the first alternative that matches a non-empty prefix. If none does, the result is 0
  // or -1 as the last alternative matches the empty prefix or not.
  ghost predicate Decides(p: seq<byte>, s: seq<byte>, r: int) {
    var alternatives := Alternatives(p);
    && -1 <= r <= |s|
    && (r > 0 ==> exists i :: FirstMatch(alternatives, s, i, r))
    && (r <= 0 ==> && (forall i :: 0 <= i < |alternatives| ==> OnlyEmpty(alternatives[i], s))
                   && (r == 0 <==> Matches(alternatives[|alternatives| - 1], s, 0)))
  }

  // After j steps the rest rp of the pattern decides on the rest rs of the text.
  ghost predicate Shifted(p: seq<byte>, s: seq<byte>, j: nat, rp: seq<byte>, rs: seq<byte>) {
    && (forall n: nat {:trigger Matches(p, s, n)} :: Matches(p, s, n) <==> n >= j && Matches(rp, rs, n - j))
    && (forall n: nat {:trigger Greedy(p, s, n)} :: Greedy(p, s, n) <==> n >= j && Greedy(rp, rs, n - j))
  }

  lemma ShiftedMore(p: seq<byte>, s: seq<byte>, j: nat, rp: seq<byte>, rs: seq<byte>)
    requires Shifted(p, s, j, rp, rs) && rp != [] && rs != [] && rp[0] != DOLLAR && rp[0] != STAR
             && OneTakes(rp[0], rs[0])
    ensures Shifted(p, s, j + 1, rp[1..], rs[1..])
  {
  }

  lemma ShiftedAnswer(p: seq<byte>, s: seq<byte>, j: nat, rp: seq<byte>, rs: seq<byte>, r: int)
    requires Shifted(p, s, j, rp, rs) && j + |rs| == |s| && Answers(rp, rs, r)
    ensures Answers(p, s, if r == -1 then -1 else j + r)
  {
    if r != -1 {
      assert j + r - j == r;
      assert Matches(p, s, j + r) <==> Matches(rp, rs, j + r - j);
      assert Greedy(p, s, j + r) <==> Greedy(rp, rs, j + r - j);
    }
  }

  // How much a star can take at most.
  ghost predicate StarTop(p: seq<byte>, s: seq<byte>, top: nat) {
    forall k: nat {:trigger StarTakes(p, s, k)} :: StarTakes(p, s, k) <==> k <= top
  }

  // Larger takes of the star have failed, and the take of len has the answer r.
  lemma StarAnswers(p: seq<byte>, s: seq<byte>, top: nat, len: nat, r: int)
    requires p != [] && p[0] == STAR && StarTop(p, s, top) && len <= top <= |s| && Answers(AfterStar(p), s[len..], r)
    requires forall k {:trigger s[k..]} :: len < k <= top ==> NoMatch(AfterStar(p), s[k..])
    requires r == -1 ==> len == 0
    ensures Answers(p, s, if r == -1 then -1 else len + r)
  {
    var after := AfterStar(p);
    assert StarTakes(p, s, len);
    if r != -1 {
      assert Matches(after, s[len..], len + r - len);
      assert LargestTake(p, s, len);
    }
    forall n: nat | Matches(p, s, n) ensures r != -1 && (len + r == 0 ==> n == 0) {
      var k: nat :| StarTakes(p, s, k) && k <= n && Matches(after, s[k..], n - k);
      assert k <= top;
      if k > len {
        assert NoMatch(after, s[k..]);
      }
    }
  }

  // ---------- alternatives ----------

  lemma OneAlternative(p: seq<byte>)
    requires BAR !in p
    ensures Alternatives(p) == [p]
  {
    assert p[..|p|] == p;
  }

  lemma {:induction false} AlternativesAt(p: seq<byte>, bar: nat)
    requires bar < |p| && p[bar] == BAR && BAR !in p[..bar]
    ensures Alternatives(p) == [p[..bar]] + Alternatives(p[bar + 1..])
  {
    FirstBarIs(p, bar);
  }

  lemma {:induction false} FirstBarIs(p: seq<byte>, bar: nat)
    requires bar < |p| && p[bar] == BAR && BAR !in p[..bar]
    ensures FirstBar(p) == bar
    decreases |p|
  {
    if bar > 0 {
      assert p[..bar] == [p[0]] + p[1..bar] && p[1..][..bar - 1] == p[1..bar];
      FirstBarIs(p[1..], bar - 1);
    }
  }

  lemma FirstDecides(p: seq<byte>, s: seq<byte>, bar: nat, r: int)
    requires bar < |p| && p[bar] == BAR && BAR !in p[..bar] && Answers(p[..bar], s, r) && r > 0
    ensures Decides(p, s, r)
  {
    AlternativesAt(p, bar);
    assert FirstMatch(Alternatives(p), s, 0, r);
  }

  lemma OthersDecide(p: seq<byte>, s: seq<byte>, bar: nat, first: int, r: int)
    requires bar < |p| && p[bar] == BAR && BAR !in p[..bar]
    requires Answers(p[..bar], s, first) && first <= 0 && Decides(p[bar + 1..], s, r)
    ensures Decides(p, s, r)
  {
    AlternativesAt(p, bar);
    var all, others := Alternatives(p), Alternatives(p[bar + 1..]);
    assert all == [p[..bar]] + others && OnlyEmpty(all[0], s);
    assert forall i :: 0 < i < |all| ==> all[i] == others[i - 1];
    if r > 0 {
      var i: nat :| FirstMatch(others, s, i, r);
      assert FirstMatch(all, s, i + 1, r);
    }
  }

  lemma AnswerDecides(p: seq<byte>, s: seq<byte>, r: int)
    requires BAR !in p && Answers(p, s, r)
    ensures Decides(p, s, r)
  {
    OneAlternative(p);
    if r > 0 {
      assert FirstMatch([p], s, 0, r);
    }
  }

  // ---------- the matcher ----------

  // s is the text before its terminator. Neither p nor s holds a zero byte, and the byte behind p is no star.
  method MgMatchPrefix(p: seq<byte>, s: seq<byte>) returns (res: int)
    requires 0 !in p && 0 !in s
    ensures Decides(p, s, res)
    ensures BAR !in p ==> Answers(p, s, res)
    decreases |p|, 2
  {
    var bar := 0;
    while bar < |p| && p[bar] != BAR
      invariant bar <= |p| && BAR !in p[..bar]
    {
      assert p[..bar + 1] == p[..bar] + [p[bar]];
      bar := bar + 1;
    }
    if bar < |p| {
      res := MgMatchPrefix(p[..bar], s);
      if res > 0 {
        FirstDecides(p, s, bar, res);
      } else {
        ghost var first := res;
        res := MgMatchPrefix(p[bar + 1..], s);
        OthersDecide(p, s, bar, first, res);
      }
    } else {
      assert p[..bar] == p;
      res := MatchAlternative(p, s);
      AnswerDecides(p, s, res);
    }
  }

  method MatchAlternative(p: seq<byte>, s: seq<byte>) returns (res: int)
    requires 0 !in p && 0 !in s && BAR !in p
    ensures Answers(p, s, res)
    decreases |p|, 1
  {
    var i, rp, rs := 0, p, s;
    while rp != []
      invariant i + |rs| == |s| && 0 !in rp && 0 !in rs && BAR !in rp && |rp| <= |p| && Shifted(p, s, i, rp, rs)
      decreases |rp|
    {
      if rp[0] == QUESTION && rs != [] {
        ShiftedMore(p, s, i, rp, rs);
      } else if rp[0] == DOLLAR {
        var r := if rs == [] then 0 else -1;
        assert Matches(rp, rs, 0) <==> r == 0;
        ShiftedAnswer(p, s, i, rp, rs, r);
        return if rs == [] then i else -1;
      } else if rp[0] == STAR {
        var r := MatchStar(rp, rs);
        ShiftedAnswer(p, s, i, rp, rs, r);
        return if r == -1 then -1 else i + r;
      } else if rs == [] || Lower(rp[0]) != Lower(rs[0]) {
        ShiftedAnswer(p, s, i, rp, rs, -1);
        return -1;
      } else {
        ShiftedMore(p, s, i, rp, rs);
      }
      i, rp, rs := i + 1, rp[1..], rs[1..];
    }
    ShiftedAnswer(p, s, i, rp, rs, 0);
    res := i;
  }

  // The longest take of the star that lets the rest match.
  method MatchStar(p: seq<byte>, s: seq<byte>) returns (res: int)
    requires p != [] && p[0] == STAR && 0 !in p && 0 !in s && BAR !in p
    ensures Answers(p, s, res)
    decreases |p|, 0
  {
    var after, len := AfterStar(p), Span(IsDouble(p), s);
    ghost var top := len;
    SpanIsTop(p, s);
    if after == [] {
      StarAnswers(p, s, top, len, 0);
      return len;
    }
    var r := MgMatchPrefix(after, s[len..]);
    while r == -1 && len > 0
      invariant len <= top && Answers(after, s[len..], r)
      invariant forall k {:trigger s[k..]} :: len < k <= top ==> NoMatch(after, s[k..])
      decreases len
    {
      assert NoMatch(after, s[len..]);
      len := len - 1;
      r := MgMatchPrefix(after, s[len..]);
    }
    StarAnswers(p, s, top, len, r);
    res := if r == -1 then -1 else r + len;
  }

  // `strlen`, or `strcspn` up to the first slash.
  function Span(double: bool, s: seq<byte>): (n: nat)
    ensures n <= |s|
  {
    if double then |s| else if s == [] || s[0] == SLASH then 0 else 1 + Span(double, s[1..])
  }

  lemma SpanIsTop(p: seq<byte>, s: seq<byte>)
    ensures StarTop(p, s, Span(IsDouble(p), s))
  {
    if !IsDouble(p) {
      forall k: nat ensures (k <= |s| && SLASH !in s[..k]) <==> k <= Span(false, s) {
        SpanIs(s, k);
      }
    }
  }

  lemma {:induction false} SpanIs(s: seq<byte>, k: nat)
    ensures (k <= |s| && SLASH !in s[..k]) <==> k <= Span(false, s)
    decreases |s|
  {
    if s != [] && 0 < k <= |s| {
      SpanIs(s[1..], k - 1);
      assert s[1..][..k - 1] == s[1..k] && s[..k] == [s[0]] + s[1..k];
    }
  }
}
