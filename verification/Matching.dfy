/** What the multi-pattern matcher of apache2/acmp.c computes, on words: the
    nodes of its trie, where their fail links lead and how a scan moves. */
module Matching {
  type Word = seq<int>

  // ---------- words ----------

  predicate Suffix(u: Word, w: Word) {
    |u| <= |w| && w[|w| - |u|..] == u
  }

  lemma SuffixTrans(u: Word, v: Word, w: Word)
    requires Suffix(u, v) && Suffix(v, w)
    ensures Suffix(u, w)
  {
    assert w[|w| - |u|..] == w[|w| - |v|..][|v| - |u|..];
  }

  lemma SuffixSnoc(u: Word, w: Word, c: int)
    requires Suffix(u, w)
    ensures Suffix(u + [c], w + [c])
  {
    assert (w + [c])[|w| - |u|..] == w[|w| - |u|..] + [c];
  }

  lemma SuffixInit(u: Word, w: Word)
    requires Suffix(u, w) && u != []
    ensures Suffix(u[..|u| - 1], w[..|w| - 1]) && u[|u| - 1] == w[|w| - 1]
  {
    assert w[..|w| - 1][|w| - |u|..] == w[|w| - |u|..][..|u| - 1];
  }

  /** Of two suffixes of a word the shorter is a suffix of the longer. */
  lemma SuffixOfSuffix(u: Word, v: Word, w: Word)
    requires Suffix(u, w) && Suffix(v, w) && |u| <= |v|
    ensures Suffix(u, v)
  {
    assert w[|w| - |u|..] == w[|w| - |v|..][|v| - |u|..];
  }

  // ---------- the trie ----------

  predicate ParentIn(T: set<Word>, w: Word) {
    w == [] || w[..|w| - 1] in T
  }

  ghost predicate Begins(S: set<Word>, w: Word) {
    exists p :: p in S && w <= p
  }

  // T holds the words of the nodes of a trie over the patterns S.
  ghost predicate TrieOf(T: set<Word>, S: set<Word>) {
    && [] in T && [] !in S && S <= T
    && (forall w {:trigger ParentIn(T, w)} :: w in T ==> ParentIn(T, w))
    && (forall w {:trigger Begins(S, w)} :: w in T && w != [] ==> Begins(S, w))
  }

  lemma {:induction false} PrefixInTrie(T: set<Word>, S: set<Word>, w: Word, n: nat)
    requires TrieOf(T, S) && w in T && n <= |w|
    ensures w[..n] in T
    decreases |w|
  {
    if n == |w| {
      assert w[..n] == w;
    } else {
      assert ParentIn(T, w);
      PrefixInTrie(T, S, w[..|w| - 1], n);
      assert w[..|w| - 1][..n] == w[..n];
    }
  }

  /** Where the builder points the fail link of the node w: one step from the
      fail link of its parent, or else the root. */
  function FailWord(T: set<Word>, w: Word): (f: Word)
    requires w != [] && [] in T
    ensures f in T && Suffix(f, w) && |f| < |w|
    decreases |w|
  {
    if |w| == 1 then []
    else
      var n := |w| - 1;
      var f := FailWord(T, w[..n]) + [w[n]];
      SuffixSnoc(FailWord(T, w[..n]), w[..n], w[n]);
      assert w[..n] + [w[n]] == w;
      if f in T then f else []
  }

  /** A pattern other than w on the way of fail links from w. */
  predicate HasOtherMatch(T: set<Word>, S: set<Word>, w: Word)
    requires [] in T
    decreases |w|
  {
    w != [] && var f := FailWord(T, w); f != [] && (f in S || HasOtherMatch(T, S, f))
  }

  /** The node a scan moves to from w on the letter c. */
  function Next(T: set<Word>, w: Word, c: int): (g: Word)
    requires [] in T
    ensures g in T && Suffix(g, w + [c])
    decreases |w|
  {
    if w + [c] in T then w + [c]
    else if w == [] then []
    else
      var g := Next(T, FailWord(T, w), c);
      SuffixSnoc(FailWord(T, w), w, c);
      SuffixTrans(g, FailWord(T, w) + [c], w + [c]);
      g
  }

  /** That step finds a match. */
  predicate Hits(T: set<Word>, S: set<Word>, w: Word, c: int)
    requires [] in T
  {
    Next(T, w, c) in S || HasOtherMatch(T, S, Next(T, w, c))
  }

  // The outcome of a scan: a match after this many letters, or the node it is at.
  datatype Outcome = Match(end: nat) | At(node: Word)

  function Scan(T: set<Word>, S: set<Word>, w: Word, text: Word): (o: Outcome)
    requires [] in T
    ensures o.Match? ==> 0 < o.end <= |text|
    decreases |text|
  {
    if text == [] then At(w)
    else if Hits(T, S, w, text[0]) then Match(1)
    else
      Delayed(Scan(T, S, Next(T, w, text[0]), text[1..]), 1)
  }

  lemma SuffixShorter(u: Word, w: Word)
    requires Suffix(u, w)
    ensures |u| < |w| || u == w
  {
  }

  lemma SuffixAppend(u: Word, w: Word, t: Word)
    requires Suffix(u, w)
    ensures Suffix(u + t, w + t)
  {
    assert (w + t)[|w| - |u|..] == w[|w| - |u|..] + t;
  }

  // The outcome of a scan that n letters were read before.
  function Delayed(o: Outcome, n: nat): Outcome {
    match o
    case Match(end) => Match(n + end)
    case At(_) => o
  }

  /** Scanning goes on where it stopped, up to the first match. */
  lemma {:induction false} ScanSplit(T: set<Word>, S: set<Word>, w: Word, a: Word, b: Word)
    requires [] in T
    ensures var o := Scan(T, S, w, a);
            o.Match? ==> Scan(T, S, w, a + b) == o
    ensures var o := Scan(T, S, w, a);
            o.At? ==> Scan(T, S, w, a + b) == Delayed(Scan(T, S, o.node, b), |a|)
    decreases |a|
  {
    if a == [] {
      assert a + b == b;
    } else {
      assert (a + b)[0] == a[0] && (a + b)[1..] == a[1..] + b;
      if !Hits(T, S, w, a[0]) {
        ScanSplit(T, S, Next(T, w, a[0]), a[1..], b);
      }
    }
  }

  lemma ScanNone(T: set<Word>, S: set<Word>, w: Word)
    requires [] in T
    ensures Scan(T, S, w, []) == At(w)
  {
  }

  lemma ScanOne(T: set<Word>, S: set<Word>, v: Word, c: int)
    requires [] in T
    ensures Scan(T, S, v, [c]) == if Hits(T, S, v, c) then Match(1) else At(Next(T, v, c))
  {
    hide Hits, Next;
    assert [c][1..] == [];
  }

  /** What the next letter does to a scan that has found nothing so far. */
  lemma ScanLetter(T: set<Word>, S: set<Word>, w: Word, text: Word, i: nat)
    requires [] in T && i < |text| && Scan(T, S, w, text[..i]).At?
    ensures var v := Scan(T, S, w, text[..i]).node;
            if Hits(T, S, v, text[i]) then Scan(T, S, w, text) == Match(i + 1)
            else Scan(T, S, w, text[..i + 1]) == At(Next(T, v, text[i]))
  {
    hide Hits, Next, Scan;
    ScanOne(T, S, Scan(T, S, w, text[..i]).node, text[i]);
    assert text[..i + 1] == text[..i] + [text[i]];
    ScanSplit(T, S, w, text[..i], [text[i]]);
    assert text == text[..i + 1] + text[i + 1..];
    ScanSplit(T, S, w, text[..i + 1], text[i + 1..]);
  }

  // ---------- soundness ----------

  ghost predicate EndsWithPattern(S: set<Word>, w: Word) {
    exists p :: p in S && Suffix(p, w)
  }

  // No pattern occurs anywhere in w.
  ghost predicate Clean(S: set<Word>, w: Word) {
    forall k :: 0 <= k <= |w| ==> !EndsWithPattern(S, w[..k])
  }

  lemma SuffixEnds(S: set<Word>, u: Word, w: Word)
    requires Suffix(u, w) && EndsWithPattern(S, u)
    ensures EndsWithPattern(S, w)
  {
    var p :| p in S && Suffix(p, u);
    SuffixTrans(p, u, w);
  }

  lemma {:induction false} OtherMatchSound(T: set<Word>, S: set<Word>, w: Word)
    requires [] in T && HasOtherMatch(T, S, w)
    ensures EndsWithPattern(S, w)
    decreases |w|
  {
    var f := FailWord(T, w);
    if f in S {
    } else {
      OtherMatchSound(T, S, f);
      SuffixEnds(S, f, w);
    }
  }

  /** A match is a pattern that ends with the letter just read. */
  lemma HitSound(T: set<Word>, S: set<Word>, w: Word, c: int)
    requires [] in T && Hits(T, S, w, c)
    ensures EndsWithPattern(S, Next(T, w, c)) && EndsWithPattern(S, w + [c])
  {
    var g := Next(T, w, c);
    if g in S {
      assert Suffix(g, g);
    } else {
      OtherMatchSound(T, S, g);
    }
    SuffixEnds(S, g, w + [c]);
  }

  lemma Reassociate(read: Word, text: Word, n: nat)
    requires 0 < n <= |text|
    ensures read + [text[0]] + text[1..][..n - 1] == read + text[..n]
  {
    assert text[..n] == [text[0]] + text[1..][..n - 1];
  }

  /** A reported match is an occurrence of a pattern in what was read, and the
      node reached spells a suffix of it. */
  lemma {:induction false} ScanSound(T: set<Word>, S: set<Word>, read: Word, w: Word, text: Word)
    requires [] in T && w in T && Suffix(w, read)
    ensures var o := Scan(T, S, w, text);
            if o.Match? then EndsWithPattern(S, read + text[..o.end])
            else o.node in T && Suffix(o.node, read + text)
    decreases |text|
  {
    if text == [] {
      assert read + text == read;
    } else {
      SuffixSnoc(w, read, text[0]);
      if Hits(T, S, w, text[0]) {
        HitSound(T, S, w, text[0]);
        SuffixEnds(S, w + [text[0]], read + [text[0]]);
        assert text[..1] == [text[0]];
      } else {
        var g := Next(T, w, text[0]);
        SuffixTrans(g, w + [text[0]], read + [text[0]]);
        ScanSound(T, S, read + [text[0]], g, text[1..]);
        match Scan(T, S, w, text)
        case Match(n) => Reassociate(read, text, n);
        case At(_) =>
          Reassociate(read, text, |text|);
          assert text[1..][..|text| - 1] == text[1..] && text[..|text|] == text;
      }
    }
  }

  // ---------- exactness ----------

  /** The scan of the text stops at the earliest end of a pattern, if there is one. */
  ghost predicate Correct(T: set<Word>, S: set<Word>, text: Word)
    requires [] in T
  {
    match Scan(T, S, [], text)
    case Match(n) => EndsWithPattern(S, text[..n]) && Clean(S, text[..n - 1])
    case At(_) => Clean(S, text)
  }

  ghost predicate Exact(T: set<Word>, S: set<Word>)
    requires [] in T
  {
    forall text :: Correct(T, S, text)
  }

  // A pattern that no other pattern occurs in.
  ghost predicate Minimal(S: set<Word>, p: Word) {
    p in S && p != [] && Clean(S, p[..|p| - 1]) && forall u :: u in S && Suffix(u, p) ==> u == p
  }

  /** From the node w, which ends with the first i letters of the pattern p, the
      next letter of p leads to a match or to a node that ends with one letter more. */
  ghost predicate StepKeeps(T: set<Word>, S: set<Word>, w: Word, p: Word, i: nat)
    requires [] in T
  {
    w in T && Clean(S, w) && Minimal(S, p) && i < |p| && Suffix(p[..i], w) ==>
      Hits(T, S, w, p[i]) || (i + 1 < |p| && |Next(T, w, p[i])| >= i + 1)
  }

  ghost predicate NeverDrops(T: set<Word>, S: set<Word>)
    requires [] in T
  {
    forall w, p, i: nat :: StepKeeps(T, S, w, p, i)
  }

  lemma CleanSuffix(S: set<Word>, u: Word, w: Word)
    requires Suffix(u, w) && Clean(S, w)
    ensures Clean(S, u)
  {
    var d := |w| - |u|;
    forall k | 0 <= k <= |u| ensures !EndsWithPattern(S, u[..k]) {
      assert u[..k] == w[..d + k][d..];
      if EndsWithPattern(S, u[..k]) {
        SuffixEnds(S, u[..k], w[..d + k]);
      }
    }
  }

  lemma CleanPrefix(S: set<Word>, w: Word, n: nat)
    requires Clean(S, w) && n <= |w|
    ensures Clean(S, w[..n]) && !EndsWithPattern(S, w[..n])
  {
    forall k | 0 <= k <= n ensures !EndsWithPattern(S, w[..n][..k]) {
      assert w[..n][..k] == w[..k];
    }
  }

  lemma CleanNode(S: set<Word>, read: Word, w: Word, rest: Word)
    requires Suffix(w, read) && Clean(S, read + rest)
    ensures Clean(S, w)
  {
    CleanPrefix(S, read + rest, |read|);
    assert (read + rest)[..|read|] == read;
    CleanSuffix(S, w, read);
  }

  /** In a clean text no step is a hit. */
  lemma CleanStep(T: set<Word>, S: set<Word>, read: Word, w: Word, rest: Word)
    requires [] in T && Suffix(w, read) && rest != [] && Clean(S, read + rest)
    ensures !Hits(T, S, w, rest[0])
  {
    CleanPrefix(S, read + rest, |read| + 1);
    assert (read + rest)[..|read| + 1] == read + [rest[0]];
    SuffixSnoc(w, read, rest[0]);
    if Hits(T, S, w, rest[0]) {
      HitSound(T, S, w, rest[0]);
      SuffixEnds(S, w + [rest[0]], read + [rest[0]]);
    }
  }

  /** Where the letters of a minimal pattern follow, the scan finds it. */
  lemma {:induction false} FindsRest(T: set<Word>, S: set<Word>, read: Word, w: Word, p: Word, i: nat)
    requires [] in T && NeverDrops(T, S) && Minimal(S, p) && i < |p|
    requires w in T && Suffix(w, read) && Suffix(p[..i], w)
    requires Clean(S, read + p[i..|p| - 1])
    ensures Scan(T, S, w, p[i..]) == Match(|p| - i)
    decreases |p| - i
  {
    hide Suffix, Next, Hits, Clean, Minimal;
    var c := p[i];
    CleanNode(S, read, w, p[i..|p| - 1]);
    assert StepKeeps(T, S, w, p, i);
    if i + 1 < |p| {
      CleanStep(T, S, read, w, p[i..|p| - 1]);
      FindsNext(T, read, w, p, i);
      assert read + p[i..|p| - 1] == read + [c] + p[i + 1..|p| - 1];
      FindsRest(T, S, read + [c], Next(T, w, c), p, i + 1);
      assert p[i..][1..] == p[i + 1..];
    }
  }

  lemma FindsNext(T: set<Word>, read: Word, w: Word, p: Word, i: nat)
    requires [] in T && Suffix(w, read) && i < |p| && Suffix(p[..i], w) && |Next(T, w, p[i])| >= i + 1
    ensures Suffix(Next(T, w, p[i]), read + [p[i]]) && Suffix(p[..i + 1], Next(T, w, p[i]))
  {
    hide Next;
    var c := p[i];
    var g := Next(T, w, c);
    SuffixSnoc(w, read, c);
    SuffixTrans(g, w + [c], read + [c]);
    SuffixSnoc(p[..i], w, c);
    assert p[..i] + [c] == p[..i + 1];
    SuffixOfSuffix(p[..i + 1], g, w + [c]);
  }

  // Of the patterns that a word ends with, one that no other pattern occurs in.
  lemma {:induction false} MinimalSuffix(S: set<Word>, t: Word, p: Word) returns (q: Word)
    requires [] !in S && p in S && Suffix(p, t) && t != [] && Clean(S, t[..|t| - 1])
    ensures Minimal(S, q) && Suffix(q, t)
    decreases |p|
  {
    if u :| u in S && Suffix(u, p) && u != p {
      SuffixTrans(u, p, t);
      q := MinimalSuffix(S, t, u);
    } else {
      q := p;
      SuffixInit(p, t);
      CleanSuffix(S, p[..|p| - 1], t[..|t| - 1]);
    }
  }

  lemma ScanFromRoot(T: set<Word>, S: set<Word>, text: Word)
    requires [] in T
    ensures var o := Scan(T, S, [], text);
            if o.Match? then EndsWithPattern(S, text[..o.end]) && !Clean(S, text)
            else o.node in T && Suffix(o.node, text)
  {
    ScanSound(T, S, [], [], text);
    assert [] + text == text;
    match Scan(T, S, [], text)
    case Match(n) => assert [] + text[..n] == text[..n];
    case At(_) =>
  }

  /** The scan stops at the first place where a pattern ends. */
  lemma FindsFirst(T: set<Word>, S: set<Word>, t: Word)
    requires TrieOf(T, S) && NeverDrops(T, S)
    requires EndsWithPattern(S, t) && t != [] && Clean(S, t[..|t| - 1])
    ensures Scan(T, S, [], t) == Match(|t|)
  {
    hide NeverDrops, Clean, Next, Hits, Scan;
    var p0 :| p0 in S && Suffix(p0, t);
    var p := MinimalSuffix(S, t, p0);
    assert p != [] && t[|t| - |p|..] == p;
    assert t == t[..|t| - |p|] + p;
    assert t[..|t| - |p|] + p[..|p| - 1] == t[..|t| - 1];
    FindsAfter(T, S, t[..|t| - |p|], p);
  }

  lemma FindsAfter(T: set<Word>, S: set<Word>, read: Word, p: Word)
    requires [] in T && NeverDrops(T, S) && Minimal(S, p) && Clean(S, read + p[..|p| - 1])
    ensures Scan(T, S, [], read + p) == Match(|read| + |p|)
  {
    hide Next, Hits, Clean, NeverDrops;
    ScanFromRoot(T, S, read);
    CleanPrefix(S, read + p[..|p| - 1], |read|);
    assert (read + p[..|p| - 1])[..|read|] == read;
    ScanSplit(T, S, [], read, p);
    var w := Scan(T, S, [], read).node;
    assert p[..0] == [] && Suffix(p[..0], w) && p[0..] == p && p[0..|p| - 1] == p[..|p| - 1];
    FindsRest(T, S, read, w, p, 0);
  }

  lemma EmptyClean(S: set<Word>)
    requires [] !in S
    ensures Clean(S, [])
  {
  }

  lemma {:induction false} FirstEnd(S: set<Word>, t: Word) returns (k: nat)
    requires !Clean(S, t) && [] !in S
    ensures 0 < k <= |t| && EndsWithPattern(S, t[..k]) && Clean(S, t[..k - 1])
    decreases |t|
  {
    EmptyClean(S);
    if Clean(S, t[..|t| - 1]) {
      k := |t|;
      forall n | 0 <= n < |t| ensures !EndsWithPattern(S, t[..n]) {
        assert t[..n] == t[..|t| - 1][..n];
      }
    } else {
      k := FirstEnd(S, t[..|t| - 1]);
      assert t[..|t| - 1][..k] == t[..k] && t[..|t| - 1][..k - 1] == t[..k - 1];
    }
  }

  lemma NeverDropsCorrect(T: set<Word>, S: set<Word>, text: Word)
    requires TrieOf(T, S) && NeverDrops(T, S)
    ensures Correct(T, S, text)
  {
    hide Next, Hits, Scan, NeverDrops, Clean, EndsWithPattern, Suffix;
    ScanFromRoot(T, S, text);
    if !Clean(S, text) {
      var k := FirstEnd(S, text);
      var t := text[..k];
      assert t[..|t| - 1] == text[..k - 1];
      FindsFirst(T, S, t);
      assert text == t + text[k..];
      ScanSplit(T, S, [], t, text[k..]);
    }
  }

  /** The letters of a clean node lead to it. */
  lemma {:induction false} ReachesItself(T: set<Word>, S: set<Word>, w: Word)
    requires TrieOf(T, S) && w in T && Clean(S, w)
    ensures Scan(T, S, [], w) == At(w)
    decreases |w|
  {
    if w != [] {
      var n := |w| - 1;
      PrefixInTrie(T, S, w, n);
      CleanPrefix(S, w, n);
      CleanPrefix(S, w, |w|);
      assert w[..|w|] == w && w == w[..n] + [w[n]];
      ReachesItself(T, S, w[..n]);
      ScanSplit(T, S, [], w[..n], [w[n]]);
      if Hits(T, S, w[..n], w[n]) {
        HitSound(T, S, w[..n], w[n]);
      }
    }
  }

  /** No pattern ends inside a minimal pattern, other than itself. */
  lemma NoneInside(S: set<Word>, p: Word, m: nat, u: Word)
    requires Minimal(S, p) && m <= |p| && |u| < m && Suffix(u, p[..m])
    ensures !EndsWithPattern(S, u)
  {
    if m < |p| {
      assert p[..|p| - 1][..m] == p[..m];
      CleanPrefix(S, p[..|p| - 1], m);
      if EndsWithPattern(S, u) {
        SuffixEnds(S, u, p[..m]);
      }
    } else {
      assert p[..m] == p;
      forall q | q in S && Suffix(q, u) ensures false {
        SuffixTrans(q, u, p);
      }
    }
  }

  /** Once the scan has dropped letters of a minimal pattern, the pattern is missed. */
  lemma DroppedStaysLost(T: set<Word>, S: set<Word>, g: Word, p: Word, i: nat)
    requires [] in T && g in T && Minimal(S, p) && i <= |p| && |g| < i && Suffix(g, p[..i])
    ensures Scan(T, S, g, p[i..]).At?
  {
    hide Clean, Next, Hits, Scan, Minimal, EndsWithPattern;
    ScanSound(T, S, g, g, p[i..]);
    if Scan(T, S, g, p[i..]).Match? {
      var n := Scan(T, S, g, p[i..]).end;
      assert p[..i] + p[i..][..n] == p[..i + n];
      SuffixAppend(g, p[..i], p[i..][..n]);
      NoneInside(S, p, i + n, g + p[i..][..n]);
    }
  }

  lemma EndsNotClean(S: set<Word>, w: Word, p: Word)
    requires p in S && Suffix(p, w)
    ensures !Clean(S, w)
  {
    assert w[..|w|] == w;
    assert EndsWithPattern(S, w);
  }

  /** The text that shows a step where a minimal pattern is lost. */
  lemma DropMisses(T: set<Word>, S: set<Word>, w: Word, p: Word, i: nat)
    requires TrieOf(T, S) && !StepKeeps(T, S, w, p, i)
    ensures !Correct(T, S, w + p[i..])
  {
    hide Next, Hits, Clean, Scan;
    ReachesItself(T, S, w);
    ScanSplit(T, S, [], w, p[i..]);
    SuffixAppend(p[..i], w, p[i..]);
    assert p[..i] + p[i..] == p;
    EndsNotClean(S, w + p[i..], p);
    StepLoses(T, S, w, p, i);
  }

  /** Where a step loses letters of a minimal pattern, the rest of the pattern leads to no match. */
  lemma StepLoses(T: set<Word>, S: set<Word>, w: Word, p: Word, i: nat)
    requires [] in T && !StepKeeps(T, S, w, p, i)
    ensures Scan(T, S, w, p[i..]).At?
  {
    hide Next, Hits, Clean;
    var c := p[i];
    assert p[i..][0] == c && p[i..][1..] == p[i + 1..];
    if i + 1 < |p| {
      var g := Next(T, w, c);
      SuffixSnoc(p[..i], w, c);
      assert p[..i] + [c] == p[..i + 1];
      SuffixOfSuffix(g, p[..i + 1], w + [c]);
      DroppedStaysLost(T, S, g, p, i + 1);
    }
  }

  /** The matcher reports every text right exactly when no step from a node
      without a match loses the letters of a pattern that contains no other. */
  lemma ExactIff(T: set<Word>, S: set<Word>)
    requires TrieOf(T, S)
    ensures Exact(T, S) <==> NeverDrops(T, S)
  {
    if NeverDrops(T, S) {
      forall text ensures Correct(T, S, text) {
        NeverDropsCorrect(T, S, text);
      }
    } else {
      var w, p, i: nat :| !StepKeeps(T, S, w, p, i);
      DropMisses(T, S, w, p, i);
    }
  }

  // ---------- longest suffixes ----------

  // Every fail link of a node that is not a pattern leads to its longest proper suffix in the trie.
  ghost predicate LongestFails(T: set<Word>, S: set<Word>)
    requires [] in T
  {
    forall w, u :: w in T && w != [] && w !in S && u in T && Suffix(u, w) && |u| < |w| ==> |u| <= |FailWord(T, w)|
  }

  lemma {:induction false} NextLongest(T: set<Word>, S: set<Word>, w: Word, u: Word, c: int)
    requires [] in T && LongestFails(T, S) && w in T && Clean(S, w)
    requires Suffix(u, w) && u in T && u + [c] in T
    ensures |Next(T, w, c)| >= |u| + 1
    decreases |w|
  {
    if w + [c] in T {
    } else {
      assert u != w;
      assert w !in S by { CleanPrefix(S, w, |w|); assert w[..|w|] == w && Suffix(w, w); }
      var f := FailWord(T, w);
      SuffixOfSuffix(u, f, w);
      CleanSuffix(S, f, w);
      NextLongest(T, S, f, u, c);
    }
  }

  lemma {:induction false} OtherMatchComplete(T: set<Word>, S: set<Word>, w: Word, p: Word)
    requires [] in T && [] !in S && LongestFails(T, S) && w in T && w !in S
    requires p in S && p in T && Suffix(p, w)
    ensures HasOtherMatch(T, S, w)
    decreases |w|
  {
    SuffixShorter(p, w);
    var f := FailWord(T, w);
    SuffixOfSuffix(p, f, w);
    if f !in S {
      OtherMatchComplete(T, S, f, p);
    }
  }

  /** With longest-suffix fail links the matcher is exact. */
  lemma LongestExact(T: set<Word>, S: set<Word>)
    requires TrieOf(T, S) && LongestFails(T, S)
    ensures Exact(T, S)
  {
    forall w, p, i: nat ensures StepKeeps(T, S, w, p, i) {
      if w in T && Clean(S, w) && Minimal(S, p) && i < |p| && Suffix(p[..i], w) {
        PrefixInTrie(T, S, p, i);
        PrefixInTrie(T, S, p, i + 1);
        assert p[..i] + [p[i]] == p[..i + 1];
        NextLongest(T, S, w, p[..i], p[i]);
        if i + 1 == |p| {
          var g := Next(T, w, p[i]);
          assert p[..i + 1] == p;
          SuffixSnoc(p[..i], w, p[i]);
          SuffixOfSuffix(p, g, w + [p[i]]);
          if g !in S {
            OtherMatchComplete(T, S, g, p);
          }
        }
      }
    }
    ExactIff(T, S);
  }

  /** The one-step fail links are the longest where all patterns have at most three letters. */
  lemma ShortPatternsExact(T: set<Word>, S: set<Word>)
    requires TrieOf(T, S) && forall p :: p in S ==> |p| <= 3
    ensures Exact(T, S)
  {
    forall w, u | w in T && w != [] && w !in S && u in T && Suffix(u, w) && |u| < |w|
      ensures |u| <= |FailWord(T, w)|
    {
      assert Begins(S, w);
      var p :| p in S && w <= p;
      assert |w| == |p| ==> w == p;
      if |w| == 2 {
        assert w[..1] == [w[0]] && FailWord(T, w[..1]) == [];
        assert [] + [w[1]] == [w[1]];
        assert |u| == 1 ==> u == [w[1]];
      }
    }
    LongestExact(T, S);
  }

  // The patterns 1 2 3 5, 2 9 and 3 4.
  function LossyPatterns(): set<Word> {
    {[1, 2, 3, 5], [2, 9], [3, 4]}
  }

  function LossyTrie(): set<Word> {
    {[], [1], [1, 2], [1, 2, 3], [1, 2, 3, 5], [2], [2, 9], [3], [3, 4]}
  }

  lemma LossyIsTrie()
    ensures TrieOf(LossyTrie(), LossyPatterns())
  {
    var T, S := LossyTrie(), LossyPatterns();
    forall w | w in T ensures ParentIn(T, w) {
      LossyParents(w);
    }
    forall w | w in T && w != [] ensures Begins(S, w) {
      var p := if w[0] == 1 then [1, 2, 3, 5] else if w[0] == 2 then [2, 9] else [3, 4];
      assert p in S && w <= p;
    }
  }

  lemma LossyParents(w: Word)
    requires w in LossyTrie()
    ensures ParentIn(LossyTrie(), w)
  {
    if |w| == 1 {
      assert w[..0] == [];
    } else if |w| == 2 {
      assert w[..1] == [w[0]];
    } else if |w| == 3 {
      assert w[..2] == [1, 2];
    } else if |w| == 4 {
      assert w[..3] == [1, 2, 3];
    }
  }

  /** The one-step fail links are not exact for every dictionary: the pattern
      3 4 is missed in 1 2 3 4, because the fail link of 1 2 3 leads to the root. */
  lemma NotAlwaysExact()
    ensures TrieOf(LossyTrie(), LossyPatterns()) && !Exact(LossyTrie(), LossyPatterns())
  {
    LossyIsTrie();
    LossyScan(LossyTrie(), LossyPatterns());
    var text := [1, 2, 3, 4];
    assert Suffix([3, 4], text[..4]);
    assert !Correct(LossyTrie(), LossyPatterns(), text);
  }

  lemma LossyScan(T: set<Word>, S: set<Word>)
    requires T == LossyTrie() && S == LossyPatterns()
    ensures Scan(T, S, [], [1, 2, 3, 4]).At?
  {
    LossyMoves(T, S);
    hide Hits, Next;
    assert [1, 2, 3, 4][1..] == [2, 3, 4] && [2, 3, 4][1..] == [3, 4] && [3, 4][1..] == [4] && [4][1..] == [];
    assert Scan(T, S, [1, 2, 3], [4]).At?;
    assert Scan(T, S, [1, 2], [3, 4]).At?;
    assert Scan(T, S, [1], [2, 3, 4]).At?;
  }

  lemma LossyMoves(T: set<Word>, S: set<Word>)
    requires T == LossyTrie() && S == LossyPatterns()
    ensures Next(T, [], 1) == [1] && Next(T, [1], 2) == [1, 2] && Next(T, [1, 2], 3) == [1, 2, 3]
    ensures !Hits(T, S, [], 1) && !Hits(T, S, [1], 2) && !Hits(T, S, [1, 2], 3) && !Hits(T, S, [1, 2, 3], 4)
  {
    LossyNext(T);
    LossyLast(T);
    LossyOthers(T, S);
    hide Next, HasOtherMatch;
  }

  lemma LossyOthers(T: set<Word>, S: set<Word>)
    requires T == LossyTrie() && S == LossyPatterns()
    ensures !HasOtherMatch(T, S, []) && !HasOtherMatch(T, S, [1]) && !HasOtherMatch(T, S, [1, 2])
    ensures !HasOtherMatch(T, S, [1, 2, 3])
  {
    LossyFails(T);
    hide FailWord;
    NoOtherMatch(T, S, [1]);
    NoOtherMatch(T, S, [2]);
    NoOtherMatch(T, S, [1, 2]);
    NoOtherMatch(T, S, [1, 2, 3]);
  }

  lemma NoOtherMatch(T: set<Word>, S: set<Word>, w: Word)
    requires [] in T && w != []
    requires var f := FailWord(T, w); f == [] || (f !in S && !HasOtherMatch(T, S, f))
    ensures !HasOtherMatch(T, S, w) && !HasOtherMatch(T, S, [])
  {
  }

  lemma LossyNext(T: set<Word>)
    requires T == LossyTrie()
    ensures Next(T, [], 1) == [1] && Next(T, [1], 2) == [1, 2] && Next(T, [1, 2], 3) == [1, 2, 3]
  {
    assert [] + [1] == [1] && [1] + [2] == [1, 2] && [1, 2] + [3] == [1, 2, 3];
  }

  lemma NotInLossy(w: Word)
    requires w != [] && w[|w| - 1] == 4 && w != [3, 4]
    ensures w !in LossyTrie()
  {
  }

  lemma LossyLast(T: set<Word>)
    requires T == LossyTrie()
    ensures Next(T, [1, 2, 3], 4) == []
  {
    LossyFails(T);
    hide FailWord, Next;
    NotInLossy([1, 2, 3] + [4]);
    NotInLossy([] + [4]);
    NextStep(T, [1, 2, 3], 4);
    NextStep(T, [], 4);
  }

  lemma NextStep(T: set<Word>, w: Word, c: int)
    requires [] in T
    ensures w + [c] in T ==> Next(T, w, c) == w + [c]
    ensures w + [c] !in T ==> Next(T, w, c) == if w == [] then [] else Next(T, FailWord(T, w), c)
  {
  }

  lemma LossyFails(T: set<Word>)
    requires T == LossyTrie()
    ensures FailWord(T, [1]) == [] && FailWord(T, [2]) == [] && FailWord(T, [1, 2]) == [2] && FailWord(T, [1, 2, 3]) == []
  {
    hide FailWord;
    assert [1, 2][..1] == [1] && [1, 2, 3][..2] == [1, 2];
    assert [1][..0] == [] && [2][..0] == [] && [] + [2] == [2] && [2] + [3] == [2, 3];
    FailStep(T, [1]);
    FailStep(T, [2]);
    FailStep(T, [1, 2]);
    FailStep(T, [1, 2, 3]);
  }

  lemma FailStep(T: set<Word>, w: Word)
    requires [] in T && w != []
    ensures w[..|w| - 1] == [] ==> FailWord(T, w) == []
    ensures w[..|w| - 1] != [] ==>
      var f := FailWord(T, w[..|w| - 1]) + [w[|w| - 1]];
      FailWord(T, w) == if f in T then f else []
  {
  }
}
