/** Text encodings used by every stored value: decimal numerals for ids, sizes and counters, and
    `;`-separated token lists for sets of ids and e-mails. */
module Text {
  import opened Basics

  type Id = string

  const DELIMITER: char := ';'

  // ---------- decimal numerals ----------

  predicate IsDigit(c: char) {
    '0' <= c <= '9'
  }

  function Digit(c: char): nat {
    if IsDigit(c) then c as int - '0' as int else 0
  }

  function DigitChar(n: nat): char
    requires n < 10
  {
    (n + '0' as int) as char
  }

  // What `stoul(s, nullptr, 10)` returns for a string of digits.
  function Val(s: string): nat {
    if s == "" then 0 else 10 * Val(s[..|s| - 1]) + Digit(s[|s| - 1])
  }

  // What `to_string(n)` returns.
  function ToStr(n: nat): string {
    if n < 10 then [DigitChar(n)] else ToStr(n / 10) + [DigitChar(n % 10)]
  }

  // The strings for which `stoul` neither throws nor drops characters.
  predicate IsNum(s: string) {
    s != "" && (forall i :: 0 <= i < |s| ==> IsDigit(s[i])) && Val(s) < WORD
  }

  // Ids are canonical numerals.
  predicate IsId(s: string) {
    s == ToStr(Val(s))
  }

  lemma {:induction false} ToStrRoundTrip(n: nat)
    ensures Val(ToStr(n)) == n
    ensures ToStr(n) != "" && forall i :: 0 <= i < |ToStr(n)| ==> IsDigit(ToStr(n)[i])
  {
    var s := ToStr(n);
    if n >= 10 {
      ToStrRoundTrip(n / 10);
      assert s[..|s| - 1] == ToStr(n / 10);
    } else {
      assert s[..0] == "";
    }
  }

  // Numerals are positional, highest digit first, and those that are written have no leading zero.
  function Ten(k: nat): nat {
    if k == 0 then 1 else 10 * Ten(k - 1)
  }

  lemma {:induction false} ValConcat(a: string, b: string)
    ensures Val(a + b) == Val(a) * Ten(|b|) + Val(b)
    decreases |b|
  {
    if b == "" {
      assert a + b == a;
    } else {
      var init := b[..|b| - 1];
      assert (a + b)[..|a + b| - 1] == a + init && (a + b)[|a + b| - 1] == b[|b| - 1];
      ValConcat(a, init);
      Spread(Val(a), Ten(|init|), Val(init), Digit(b[|b| - 1]));
    }
  }

  lemma Spread(n: nat, t: nat, m: nat, d: nat)
    ensures 10 * (n * t + m) + d == n * (10 * t) + (10 * m + d)
  {
  }

  lemma {:induction false} ToStrCanonical(n: nat)
    ensures ToStr(n) != "" && (n > 0 ==> ToStr(n)[0] != '0')
  {
    if n >= 10 {
      ToStrCanonical(n / 10);
    }
  }

  // `to_string(stoul(a) + stoul(b))` and `to_string(stoul(a) - stoul(b))`, both modulo the word size.
  function Plus(a: string, b: string): (r: string)
    ensures IsNum(r) && Val(r) == (Val(a) + Val(b)) % WORD
  {
    ToStrRoundTrip((Val(a) + Val(b)) % WORD);
    ToStr((Val(a) + Val(b)) % WORD)
  }

  function Minus(a: string, b: string): (r: string)
    ensures IsNum(r) && Val(r) == (Val(a) - Val(b)) % WORD
  {
    ToStrRoundTrip((Val(a) - Val(b)) % WORD);
    ToStr((Val(a) - Val(b)) % WORD)
  }

  // ---------- token lists ----------

  // A token that a list can hold.
  predicate IsKey(k: string) {
    k != "" && DELIMITER !in k
  }

  predicate AllKeys(toks: seq<string>) {
    forall i :: 0 <= i < |toks| ==> IsKey(toks[i])
  }

  // Length of the longest prefix without a delimiter.
  function Head(s: string): (n: nat)
    ensures n <= |s|
  {
    if s == "" || s[0] == DELIMITER then 0 else 1 + Head(s[1..])
  }

  // What follows the first piece and its delimiter.
  function AfterHead(s: string): (r: string)
    ensures |r| == if Head(s) < |s| then |s| - Head(s) - 1 else 0
  {
    if Head(s) < |s| then s[Head(s) + 1..] else ""
  }

  // The non-empty pieces of s between delimiters.
  function Split(s: string): seq<string>
    decreases |s|
  {
    if s == "" then [] else Piece(s[..Head(s)]) + Split(AfterHead(s))
  }

  function Piece(s: string): seq<string> {
    if s == "" then [] else [s]
  }

  // The string that successive appends of `;` and a token build.
  function Join(toks: seq<string>): string {
    if toks == [] then "" else Join(toks[..|toks| - 1]) + [DELIMITER] + toks[|toks| - 1]
  }

  // Ordered-set insertion and deletion on tokens.
  function Insert(toks: seq<string>, k: string): seq<string> {
    if k in toks then toks else toks + [k]
  }

  // What appending `;` and k does to the tokens, for any text k.
  function InsertText(toks: seq<string>, k: string): seq<string> {
    if k in toks then toks else toks + Split(k)
  }

  function Remove(toks: seq<string>, k: string): (r: seq<string>)
    ensures forall t :: t in r <==> t in toks && t != k
  {
    if toks == [] then []
    else (if toks[0] == k then [] else [toks[0]]) + Remove(toks[1..], k)
  }

  // The tokens that are in (or not in) sel, in their original order.
  function Select(toks: seq<string>, sel: seq<string>, inside: bool): (r: seq<string>)
    ensures forall t :: t in r <==> t in toks && ((t in sel) == inside)
  {
    if toks == [] then []
    else (if (toks[0] in sel) == inside then [toks[0]] else []) + Select(toks[1..], sel, inside)
  }

  predicate NoDup(toks: seq<string>) {
    forall i, j :: 0 <= i < j < |toks| ==> toks[i] != toks[j]
  }

  // ---------- lemmas ----------

  lemma {:induction false} HeadOfConcat(a: string, b: string)
    ensures Head(a + [DELIMITER] + b) == Head(a)
  {
    var s := a + [DELIMITER] + b;
    if a != "" && a[0] != DELIMITER {
      assert s[1..] == a[1..] + [DELIMITER] + b;
      HeadOfConcat(a[1..], b);
    }
  }

  lemma {:induction false} PartsOfConcat(a: string, b: string)
    ensures
      var s := a + [DELIMITER] + b;
      && s[..Head(s)] == a[..Head(a)]
      && AfterHead(s) == if Head(a) < |a| then AfterHead(a) + [DELIMITER] + b else b
  {
    HeadOfConcat(a, b);
    SlicesOfConcat(a, b, Head(a));
  }

  lemma SlicesOfConcat(a: string, b: string, n: nat)
    requires n <= |a|
    ensures (a + [DELIMITER] + b)[..n] == a[..n] && n < |a + [DELIMITER] + b|
    ensures (a + [DELIMITER] + b)[n + 1..] == if n < |a| then a[n + 1..] + [DELIMITER] + b else b
  {
  }

  // Splitting distributes over a delimiter.
  lemma {:induction false} SplitConcat(a: string, b: string)
    ensures Split(a + [DELIMITER] + b) == Split(a) + Split(b)
    decreases |a|
  {
    PartsOfConcat(a, b);
    assert Split("") == [];
    var piece := Piece(a[..Head(a)]);
    if Head(a) < |a| {
      SplitConcat(AfterHead(a), b);
      Associative(piece, Split(AfterHead(a)), Split(b));
    } else {
      Associative(piece, [], Split(b));
    }
  }

  lemma {:induction false} HeadPrefix(s: string)
    ensures forall i :: 0 <= i < Head(s) ==> s[i] != DELIMITER
    ensures Head(s) < |s| ==> s[Head(s)] == DELIMITER
  {
    if s != "" && s[0] != DELIMITER {
      HeadPrefix(s[1..]);
    }
  }

  lemma {:induction false} SplitKeys(s: string)
    ensures AllKeys(Split(s))
    decreases |s|
  {
    HeadPrefix(s);
    if s != "" {
      SplitKeys(AfterHead(s));
    }
  }

  lemma {:induction false} HeadOfKey(k: string)
    requires DELIMITER !in k
    ensures Head(k) == |k|
  {
    if k != "" {
      HeadOfKey(k[1..]);
    }
  }

  lemma SplitKey(k: string)
    requires IsKey(k)
    ensures Split(k) == [k]
  {
    HeadOfKey(k);
    assert k[..|k|] == k;
  }

  lemma InsertTextKey(toks: seq<string>, k: string)
    requires IsKey(k)
    ensures InsertText(toks, k) == Insert(toks, k)
  {
    SplitKey(k);
  }

  // A text with a leading delimiter is never found in a token list, so it is always appended.
  lemma InsertTextDelimited(toks: seq<string>, k: string)
    requires AllKeys(toks) && IsKey(k)
    ensures InsertText(toks, [DELIMITER] + k) == toks + [k]
  {
    SplitConcat("", k);
    SplitKey(k);
    assert [] + [DELIMITER] + k == [DELIMITER] + k;
    assert ([DELIMITER] + k)[0] == DELIMITER;
  }

  // Appending one more token to the string appends it to the tokens.
  lemma SplitAppend(list: string, k: string)
    requires IsKey(k)
    ensures Split(list + [DELIMITER] + k) == Split(list) + [k]
  {
    SplitConcat(list, k);
    SplitKey(k);
  }

  lemma JoinSnoc(toks: seq<string>, k: string)
    ensures Join(toks + [k]) == Join(toks) + [DELIMITER] + k
  {
    assert (toks + [k])[..|toks|] == toks;
  }

  // Round trip: splitting a joined list gives the list back.
  lemma {:induction false} SplitJoin(toks: seq<string>)
    requires AllKeys(toks)
    ensures Split(Join(toks)) == toks
  {
    if toks != [] {
      var init, last := toks[..|toks| - 1], toks[|toks| - 1];
      assert toks == init + [last];
      SplitJoin(init);
      SplitJoinSnoc(init, last);
    }
  }

  lemma SplitJoinSnoc(toks: seq<string>, k: string)
    requires Split(Join(toks)) == toks && IsKey(k)
    ensures Split(Join(toks + [k])) == toks + [k]
  {
    JoinSnoc(toks, k);
    SplitAppend(Join(toks), k);
  }

  lemma {:induction false} RemoveNoDup(toks: seq<string>, k: string)
    requires NoDup(toks)
    ensures NoDup(Remove(toks, k))
    ensures |Remove(toks, k)| == |toks| - (if k in toks then 1 else 0)
  {
    if toks != [] {
      var r := Remove(toks[1..], k);
      RemoveNoDup(toks[1..], k);
      assert toks == [toks[0]] + toks[1..];
      assert toks[0] !in toks[1..];
      NoDupCons(toks[0], r);
    }
  }

  lemma NoDupCons(k: string, toks: seq<string>)
    requires NoDup(toks) && k !in toks
    ensures NoDup([k] + toks)
  {
  }

  lemma {:induction false} RemoveAbsent(toks: seq<string>, k: string)
    requires k !in toks
    ensures Remove(toks, k) == toks
  {
    if toks != [] {
      RemoveAbsent(toks[1..], k);
    }
  }

  lemma {:induction false} RemoveConcat(a: seq<string>, b: seq<string>, k: string)
    ensures Remove(a + b, k) == Remove(a, k) + Remove(b, k)
  {
    if a == [] {
      assert a + b == b;
    } else {
      assert (a + b)[1..] == a[1..] + b;
      RemoveConcat(a[1..], b, k);
    }
  }

  // Both halves of a selection keep the order, lose nothing and duplicate nothing.
  lemma {:induction false} SelectPartition(toks: seq<string>, sel: seq<string>)
    ensures multiset(Select(toks, sel, true)) + multiset(Select(toks, sel, false)) == multiset(toks)
  {
    if toks != [] {
      SelectPartition(toks[1..], sel);
      assert toks == [toks[0]] + toks[1..];
    }
  }

  lemma {:induction false} SelectNoDup(toks: seq<string>, sel: seq<string>, inside: bool)
    requires NoDup(toks)
    ensures NoDup(Select(toks, sel, inside))
  {
    if toks != [] {
      SelectNoDup(toks[1..], sel, inside);
      assert toks == [toks[0]] + toks[1..];
      NoDupCons(toks[0], Select(toks[1..], sel, inside));
    }
  }

  lemma {:induction false} SelectConcat(a: seq<string>, b: seq<string>, sel: seq<string>, inside: bool)
    ensures Select(a + b, sel, inside) == Select(a, sel, inside) + Select(b, sel, inside)
  {
    if a == [] {
      assert a + b == b;
    } else {
      assert (a + b)[1..] == a[1..] + b;
      SelectConcat(a[1..], b, sel, inside);
    }
  }

  lemma {:induction false} SelectSnoc(toks: seq<string>, i: nat, sel: seq<string>, inside: bool)
    requires i < |toks|
    ensures Select(toks[..i + 1], sel, inside)
         == Select(toks[..i], sel, inside) + (if (toks[i] in sel) == inside then [toks[i]] else [])
  {
    assert toks[..i + 1] == toks[..i] + [toks[i]];
    SelectConcat(toks[..i], [toks[i]], sel, inside);
    assert [toks[i]][1..] == [];
  }

  lemma {:induction false} SelectNone(toks: seq<string>)
    ensures Select(toks, [], false) == toks
  {
    if toks != [] {
      SelectNone(toks[1..]);
    }
  }

  lemma {:induction false} SelectRemove(toks: seq<string>, sel: seq<string>)
    requires sel != []
    ensures Select(Remove(toks, sel[0]), sel[1..], false) == Select(toks, sel, false)
  {
    assert forall t :: t in sel <==> t == sel[0] || t in sel[1..];
    if toks != [] {
      SelectRemove(toks[1..], sel);
      if toks[0] == sel[0] {
        assert Remove(toks, sel[0]) == Remove(toks[1..], sel[0]);
      } else {
        assert Remove(toks, sel[0]) == [toks[0]] + Remove(toks[1..], sel[0]);
        assert ([toks[0]] + Remove(toks[1..], sel[0]))[1..] == Remove(toks[1..], sel[0]);
      }
    }
  }

  lemma {:induction false} SelectAll(toks: seq<string>, sel: seq<string>)
    requires forall t :: t in toks ==> t in sel
    ensures Select(toks, sel, false) == []
  {
    if toks != [] {
      SelectAll(toks[1..], sel);
    }
  }

  lemma {:induction false} SelectSnocAll(toks: seq<string>, sel: seq<string>, k: string)
    ensures Select(toks, sel + [k], false) == Remove(Select(toks, sel, false), k)
  {
    if toks != [] {
      SelectSnocAll(toks[1..], sel, k);
      var rest := Select(toks[1..], sel, false);
      if toks[0] in sel {
        assert Select(toks, sel, false) == rest;
      } else {
        assert ([toks[0]] + rest)[1..] == rest;
        assert Remove([toks[0]] + rest, k) == (if toks[0] == k then [] else [toks[0]]) + Remove(rest, k);
      }
    }
  }

  lemma {:induction false} SelectNoneOf(toks: seq<string>, sel: seq<string>)
    requires forall t :: t in toks ==> t !in sel
    ensures Select(toks, sel, false) == toks
  {
    if toks != [] {
      SelectNoneOf(toks[1..], sel);
    }
  }

  // ---------- the source's loops ----------

  // From pos on, s reads rest.
  ghost predicate ReadsAt(s: string, pos: nat, rest: string) {
    pos + |rest| == |s| && forall k :: 0 <= k < |rest| ==> s[pos + k] == rest[k]
  }

  // `split_string`: reads the string piece by piece up to each delimiter, keeping the non-empty ones.
  method SplitString(s: string) returns (tokens: seq<string>)
    ensures tokens == Split(s)
  {
    tokens := [];
    var pos: nat := 0;
    ghost var rest := s;
    SplitStart(s);
    while pos < |s|
      invariant ReadsAt(s, pos, rest) && SplitSoFar(s, tokens, rest)
      decreases |rest|
    {
      var item := GetLine(s, pos, rest);
      rest := SplitStep(s, tokens, pos, rest, item);
      if item != "" {
        tokens := tokens + [item];
      }
      pos := if pos + |item| < |s| then pos + |item| + 1 else |s|;
    }
    SplitEnd(s, tokens);
  }

  // The tokens of s are those read so far and those of the rest.
  ghost predicate SplitSoFar(s: string, tokens: seq<string>, rest: string) {
    Split(s) == tokens + Split(rest)
  }

  lemma SplitStart(s: string)
    ensures SplitSoFar(s, [], s)
  {
    assert [] + Split(s) == Split(s);
  }

  lemma SplitEnd(s: string, tokens: seq<string>)
    requires SplitSoFar(s, tokens, "")
    ensures tokens == Split(s)
  {
    assert tokens + [] == tokens;
  }

  lemma SplitStep(s: string, tokens: seq<string>, pos: nat, rest: string, item: string) returns (next: string)
    requires rest != "" && ReadsAt(s, pos, rest) && SplitSoFar(s, tokens, rest) && item == rest[..Head(rest)]
    ensures ReadsAt(s, if pos + |item| < |s| then pos + |item| + 1 else |s|, next) && |next| < |rest|
    ensures SplitSoFar(s, if item == "" then tokens else tokens + [item], next)
  {
    next := AfterHead(rest);
    ReadsOn(s, pos, rest, item);
    SplitOn(s, tokens, rest, item);
  }

  lemma ReadsOn(s: string, pos: nat, rest: string, item: string)
    requires rest != "" && ReadsAt(s, pos, rest) && item == rest[..Head(rest)]
    ensures ReadsAt(s, if pos + |item| < |s| then pos + |item| + 1 else |s|, AfterHead(rest))
    ensures |AfterHead(rest)| < |rest|
  {
  }

  lemma SplitOn(s: string, tokens: seq<string>, rest: string, item: string)
    requires rest != "" && SplitSoFar(s, tokens, rest) && item == rest[..Head(rest)]
    ensures SplitSoFar(s, if item == "" then tokens else tokens + [item], AfterHead(rest))
  {
    Associative(tokens, Piece(item), Split(AfterHead(rest)));
  }

  // `getline` with a delimiter, without the delimiter itself.
  method GetLine(s: string, start: nat, ghost rest: string) returns (item: string)
    requires ReadsAt(s, start, rest)
    ensures item == rest[..Head(rest)]
  {
    item := "";
    HeadPrefix(rest);
    var n := 0;
    while start + n < |s| && s[start + n] != DELIMITER
      invariant n <= Head(rest) && item == rest[..n]
      decreases |rest| - n
    {
      assert rest[n] == s[start + n];
      item := item + [s[start + n]];
      n := n + 1;
    }
    assert n < |rest| ==> rest[n] == s[start + n];
  }

  method AddKeyToStringList(list: string, key: string) returns (r: string)
    ensures r == if key in Split(list) then list else list + [DELIMITER] + key
    ensures Split(r) == InsertText(Split(list), key)
  {
    var listSplit := SplitString(list);
    var found := false;
    var i := 0;
    while i < |listSplit| && !found
      invariant 0 <= i <= |listSplit|
      invariant found <==> key in listSplit[..i]
    {
      assert listSplit[..i + 1] == listSplit[..i] + [listSplit[i]];
      if listSplit[i] == key {
        found := true;
      }
      i := i + 1;
    }
    assert !found ==> listSplit[..i] == listSplit;
    r := list;
    if !found {
      r := r + [DELIMITER] + key;
      SplitConcat(list, key);
    }
  }

  method RemoveKeyFromStringList(list: string, key: string) returns (r: string)
    ensures r == Join(Remove(Split(list), key))
    ensures Split(r) == Remove(Split(list), key)
  {
    var listSplit := SplitString(list);
    SplitKeys(list);
    r := "";
    var i := 0;
    while i < |listSplit|
      invariant 0 <= i <= |listSplit|
      invariant r == Join(Remove(listSplit[..i], key))
      invariant Split(r) == Remove(listSplit[..i], key)
    {
      RemoveStep(listSplit, i, key, r);
      if listSplit[i] != key {
        r := r + [DELIMITER] + listSplit[i];
      }
      i := i + 1;
    }
    assert listSplit[..i] == listSplit;
  }

  lemma RemoveNext(toks: seq<string>, i: nat, k: string)
    requires i < |toks|
    ensures Remove(toks[..i + 1], k) == Remove(toks[..i], k) + (if toks[i] == k then [] else [toks[i]])
  {
    assert toks[..i + 1] == toks[..i] + [toks[i]];
    RemoveConcat(toks[..i], [toks[i]], k);
    assert [toks[i]][1..] == [];
  }

  lemma RemoveStep(toks: seq<string>, i: nat, k: string, r: string)
    requires i < |toks| && AllKeys(toks) && r == Join(Remove(toks[..i], k)) && Split(r) == Remove(toks[..i], k)
    ensures toks[i] == k ==> Remove(toks[..i + 1], k) == Remove(toks[..i], k)
    ensures toks[i] != k ==> r + [DELIMITER] + toks[i] == Join(Remove(toks[..i + 1], k))
    ensures toks[i] != k ==> Split(r + [DELIMITER] + toks[i]) == Remove(toks[..i + 1], k)
  {
    RemoveNext(toks, i, k);
    if toks[i] != k {
      SplitAppend(r, toks[i]);
      JoinSnoc(Remove(toks[..i], k), toks[i]);
    }
  }

  lemma DivideStep(ids: seq<string>, i: nat, sel: seq<string>, yes: string, no: string)
    requires i < |ids| && AllKeys(ids)
    requires Split(yes) == Select(ids[..i], sel, true) && Split(no) == Select(ids[..i], sel, false)
    ensures ids[i] in sel ==> Split(yes + [DELIMITER] + ids[i]) == Select(ids[..i + 1], sel, true)
    ensures ids[i] in sel ==> Split(no) == Select(ids[..i + 1], sel, false)
    ensures ids[i] !in sel ==> Split(no + [DELIMITER] + ids[i]) == Select(ids[..i + 1], sel, false)
    ensures ids[i] !in sel ==> Split(yes) == Select(ids[..i + 1], sel, true)
  {
    SelectSnoc(ids, i, sel, true);
    SelectSnoc(ids, i, sel, false);
    SplitAppend(yes, ids[i]);
    SplitAppend(no, ids[i]);
  }

  method DivideSelectedIds(originalIds: string, selectedIds: seq<string>)
    returns (coincidence: string, noCoincidence: string)
    ensures Split(coincidence) == Select(Split(originalIds), selectedIds, true)
    ensures Split(noCoincidence) == Select(Split(originalIds), selectedIds, false)
  {
    var ids := SplitString(originalIds);
    SplitKeys(originalIds);
    coincidence, noCoincidence := "", "";
    var i := 0;
    while i < |ids|
      invariant 0 <= i <= |ids|
      invariant Split(coincidence) == Select(ids[..i], selectedIds, true)
      invariant Split(noCoincidence) == Select(ids[..i], selectedIds, false)
    {
      DivideStep(ids, i, selectedIds, coincidence, noCoincidence);
      var found;
      found, coincidence := AppendIfSelected(ids[i], selectedIds, coincidence);
      if !found {
        noCoincidence := noCoincidence + [DELIMITER] + ids[i];
      }
      i := i + 1;
    }
    assert ids[..i] == ids;
  }

  // The inner loop of the division.
  method AppendIfSelected(id: string, selectedIds: seq<string>, list: string) returns (found: bool, extended: string)
    ensures found <==> id in selectedIds
    ensures extended == if found then list + [DELIMITER] + id else list
  {
    found, extended := false, list;
    var j := 0;
    while j < |selectedIds| && !found
      invariant 0 <= j <= |selectedIds|
      invariant found <==> id in selectedIds[..j]
      invariant extended == if found then list + [DELIMITER] + id else list
    {
      assert selectedIds[..j + 1] == selectedIds[..j] + [selectedIds[j]];
      if id == selectedIds[j] {
        extended := extended + [DELIMITER] + id;
        found := true;
      }
      j := j + 1;
    }
    assert !found ==> selectedIds[..j] == selectedIds;
  }
}
