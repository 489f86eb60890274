/** The Boyer-Moore-Horspool search of ext/mod_op_strstr.c. */
module Horspool {
  import opened Bytes

  const ALPHABET_SIZE := 256
  const MAX_PATTERN_SIZE := 64

  // ---------- the shift table ----------

  /** The entry for c after i letters of the pattern were entered. */
  function Shift(p: seq<Byte>, i: nat, c: Byte): (s: int)
    requires i <= |p|
    ensures |p| - i <= s <= |p|
  {
    if i == 0 then |p| else if p[i - 1] == c then |p| - i else Shift(p, i - 1, c)
  }

  // The part of the pattern that the table is made from.
  function Head(pattern: seq<Byte>): (h: seq<Byte>)
    requires pattern != []
    ensures h != [] && h <= pattern
  {
    if |pattern| < MAX_PATTERN_SIZE then pattern else pattern[..MAX_PATTERN_SIZE]
  }

  function Skip(pattern: seq<Byte>, c: Byte): (s: int)
    requires pattern != []
    ensures 1 <= s <= |pattern|
  {
    var h := Head(pattern);
    Shift(h, |h| - 1, c)
  }

  method PrecomputeBadCharacter(pattern: seq<Byte>, patlength: nat, table: array<int>)
    requires 0 < patlength <= |pattern| && table.Length == ALPHABET_SIZE
    modifies table
    ensures forall c: Byte :: table[c] == Shift(pattern[..patlength], patlength - 1, c)
  {
    ghost var p := pattern[..patlength];
    var i := 0;
    while i < ALPHABET_SIZE
      invariant 0 <= i <= ALPHABET_SIZE
      invariant forall c :: 0 <= c < i ==> table[c] == patlength
    {
      table[i] := patlength;
      i := i + 1;
    }
    i := 0;
    while i < patlength - 1
      invariant 0 <= i <= patlength - 1
      invariant forall c: Byte :: table[c] == Shift(p, i, c)
    {
      table[pattern[i]] := patlength - i - 1;
      i := i + 1;
    }
  }

  method Init(pattern: seq<Byte>, table: array<int>)
    requires pattern != [] && table.Length == ALPHABET_SIZE
    modifies table
    ensures forall c: Byte :: table[c] == Skip(pattern, c)
  {
    var n := if |pattern| < MAX_PATTERN_SIZE then |pattern| else MAX_PATTERN_SIZE;
    PrecomputeBadCharacter(pattern, n, table);
    assert pattern[..n] == Head(pattern);
  }

  // ---------- the search ----------

  predicate OccursAt(pattern: seq<Byte>, text: seq<Byte>, k: int) {
    0 <= k && k + |pattern| <= |text| && text[k..k + |pattern|] == pattern
  }

  function Search(pattern: seq<Byte>, text: seq<Byte>, j: nat): int
    requires pattern != []
    decreases |text| - j
  {
    if j > |text| - |pattern| then -1
    else if OccursAt(pattern, text, j) then j
    else Search(pattern, text, j + Skip(pattern, text[j + |pattern| - 1]))
  }

  method BoyerMooreHorspool(pattern: seq<Byte>, text: seq<Byte>, table: array<int>) returns (r: int)
    requires pattern != [] && table.Length == ALPHABET_SIZE && forall c: Byte :: table[c] == Skip(pattern, c)
    ensures r == Search(pattern, text, 0)
  {
    var m := |pattern|;
    var j := 0;
    while j <= |text| - m
      invariant 0 <= j && Search(pattern, text, 0) == Search(pattern, text, j)
      decreases |text| - j
    {
      var c := text[j + m - 1];
      LastThenRest(pattern, text, j);
      if pattern[m - 1] == c && pattern[..m - 1] == text[j..j + m - 1] {
        return j;
      }
      j := j + table[c];
    }
    return -1;
  }

  /** Comparing the last byte first and then the others is comparing the pattern. */
  lemma LastThenRest(pattern: seq<Byte>, text: seq<Byte>, j: nat)
    requires pattern != [] && j + |pattern| <= |text|
    ensures OccursAt(pattern, text, j) <==>
            pattern[|pattern| - 1] == text[j + |pattern| - 1] && pattern[..|pattern| - 1] == text[j..j + |pattern| - 1]
  {
    var m := |pattern|;
    assert text[j..j + m] == text[j..j + m - 1] + [text[j + m - 1]];
    assert pattern == pattern[..m - 1] + [pattern[m - 1]];
  }

  // ---------- exactness ----------

  /** r is the least place where the pattern occurs, or -1. */
  ghost predicate IsFirst(pattern: seq<Byte>, text: seq<Byte>, r: int) {
    if r == -1 then forall k :: !OccursAt(pattern, text, k)
    else OccursAt(pattern, text, r) && forall k :: k < r ==> !OccursAt(pattern, text, k)
  }

  /** No byte before the last is skipped further than its place in the pattern allows. */
  predicate ShiftsSafe(pattern: seq<Byte>)
    requires pattern != []
  {
    forall j :: 0 <= j < |pattern| - 1 ==> Skip(pattern, pattern[j]) <= |pattern| - 1 - j
  }

  lemma OccursByte(pattern: seq<Byte>, text: seq<Byte>, k: nat, i: nat)
    requires OccursAt(pattern, text, k) && i < |pattern|
    ensures text[k + i] == pattern[i]
  {
    assert text[k..k + |pattern|][i] == text[k + i];
  }

  lemma NoneSkipped(pattern: seq<Byte>, text: seq<Byte>, j: nat, k: int)
    requires pattern != [] && ShiftsSafe(pattern) && j + |pattern| <= |text|
    requires j < k < j + Skip(pattern, text[j + |pattern| - 1])
    ensures !OccursAt(pattern, text, k)
  {
    var m := |pattern|;
    var i := m - 1 - (k - j);
    assert Skip(pattern, pattern[i]) <= m - 1 - i || i == m - 1;
    if OccursAt(pattern, text, k) {
      OccursByte(pattern, text, k, i);
    }
  }

  lemma OccursFits(pattern: seq<Byte>, text: seq<Byte>, k: int)
    ensures OccursAt(pattern, text, k) ==> 0 <= k <= |text| - |pattern|
  {
  }

  lemma {:induction false} SearchFirst(pattern: seq<Byte>, text: seq<Byte>, j: nat)
    requires pattern != [] && ShiftsSafe(pattern)
    requires forall k :: k < j ==> !OccursAt(pattern, text, k)
    ensures IsFirst(pattern, text, Search(pattern, text, j))
    decreases |text| - j
  {
    hide OccursAt, Skip, ShiftsSafe;
    if j > |text| - |pattern| {
      forall k ensures !OccursAt(pattern, text, k) {
        OccursFits(pattern, text, k);
      }
    } else if !OccursAt(pattern, text, j) {
      var next := j + Skip(pattern, text[j + |pattern| - 1]);
      forall k | k < next ensures !OccursAt(pattern, text, k) {
        if j < k {
          NoneSkipped(pattern, text, j, k);
        }
      }
      SearchFirst(pattern, text, next);
    }
  }

  lemma {:induction false} SearchFrom(pattern: seq<Byte>, text: seq<Byte>, j: nat)
    requires pattern != []
    ensures Search(pattern, text, j) == -1 || Search(pattern, text, j) >= j
    decreases |text| - j
  {
    if j <= |text| - |pattern| && !OccursAt(pattern, text, j) {
      SearchFrom(pattern, text, j + Skip(pattern, text[j + |pattern| - 1]));
    }
  }

  /** A text in which an unsafe shift jumps over the pattern. */
  function Overshot(pattern: seq<Byte>, d: nat): seq<Byte>
    requires pattern != []
  {
    seq(d, _ => if pattern[0] == 0 then 1 else 0) + pattern
  }

  lemma NotFirst(pattern: seq<Byte>, text: seq<Byte>, r: int, d: nat)
    requires OccursAt(pattern, text, d) && (r == -1 || r > d)
    ensures !IsFirst(pattern, text, r)
  {
  }

  lemma SearchOnward(pattern: seq<Byte>, text: seq<Byte>)
    requires pattern != [] && |pattern| <= |text| && !OccursAt(pattern, text, 0)
    ensures Search(pattern, text, 0) == Search(pattern, text, Skip(pattern, text[|pattern| - 1]))
  {
  }

  lemma UnsafeMisses(pattern: seq<Byte>, j: nat)
    requires pattern != [] && j < |pattern| - 1 && Skip(pattern, pattern[j]) > |pattern| - 1 - j
    ensures var text := Overshot(pattern, |pattern| - 1 - j); !IsFirst(pattern, text, Search(pattern, text, 0))
  {
    hide OccursAt, Skip, Search, IsFirst, Overshot;
    OvershotFacts(pattern, |pattern| - 1 - j);
    Jumps(pattern, Overshot(pattern, |pattern| - 1 - j), |pattern| - 1 - j);
  }

  /** A shift from 0 that goes beyond an occurrence misses it. */
  lemma Jumps(pattern: seq<Byte>, text: seq<Byte>, d: nat)
    requires pattern != [] && |pattern| <= |text| && !OccursAt(pattern, text, 0) && OccursAt(pattern, text, d)
    requires Skip(pattern, text[|pattern| - 1]) > d
    ensures !IsFirst(pattern, text, Search(pattern, text, 0))
  {
    hide OccursAt, Skip, Search, IsFirst;
    SearchOnward(pattern, text);
    SearchFrom(pattern, text, Skip(pattern, text[|pattern| - 1]));
    NotFirst(pattern, text, Search(pattern, text, 0), d);
  }

  lemma OvershotFacts(pattern: seq<Byte>, d: nat)
    requires pattern != [] && 0 < d < |pattern|
    ensures var text := Overshot(pattern, d);
            && |text| == d + |pattern| && text[|pattern| - 1] == pattern[|pattern| - 1 - d]
            && OccursAt(pattern, text, d) && !OccursAt(pattern, text, 0)
  {
    var m, text := |pattern|, Overshot(pattern, d);
    assert text[d..d + m] == pattern;
    assert text[0..m][0] == text[0] != pattern[0];
  }

  /** The search finds the first occurrence in every text exactly when its shifts are safe. */
  lemma ExactIff(pattern: seq<Byte>)
    requires pattern != []
    ensures (forall text :: IsFirst(pattern, text, Search(pattern, text, 0))) <==> ShiftsSafe(pattern)
  {
    if ShiftsSafe(pattern) {
      forall text ensures IsFirst(pattern, text, Search(pattern, text, 0)) {
        SearchFirst(pattern, text, 0);
      }
    } else {
      var j :| 0 <= j < |pattern| - 1 && Skip(pattern, pattern[j]) > |pattern| - 1 - j;
      UnsafeMisses(pattern, j);
    }
  }

  lemma {:induction false} ShiftBound(p: seq<Byte>, i: nat, j: nat)
    requires j < i <= |p|
    ensures Shift(p, i, p[j]) <= |p| - 1 - j
  {
    if i > 0 && p[i - 1] != p[j] {
      ShiftBound(p, i - 1, j);
    }
  }

  /** Up to 64 bytes all shifts are safe; of longer patterns only the bytes
      from number 63 on can have unsafe ones. */
  lemma ShortSafe(pattern: seq<Byte>)
    requires pattern != []
    ensures ShiftsSafe(pattern) <==>
            forall j :: 63 <= j < |pattern| - 1 ==> Skip(pattern, pattern[j]) <= |pattern| - 1 - j
    ensures |pattern| <= 64 ==> ShiftsSafe(pattern)
  {
    var h := Head(pattern);
    forall j | 0 <= j < |h| - 1 ensures Skip(pattern, pattern[j]) <= |pattern| - 1 - j {
      assert pattern[j] == h[j];
      ShiftBound(h, |h| - 1, j);
    }
  }

  /** A pattern of 65 bytes with an unsafe shift, 63 zeros and then 1, 2, and a
      text that holds it behind one other byte, where the search finds nothing. */
  lemma LongUnsafe()
    ensures var pattern: seq<Byte> := seq(63, _ => 0) + [1, 2];
            var text := Overshot(pattern, 1);
            && !ShiftsSafe(pattern)
            && OccursAt(pattern, text, 1) && Search(pattern, text, 0) == -1
  {
    hide OccursAt, Overshot;
    var pattern: seq<Byte> := seq(63, _ => 0) + [1, 2];
    NotEntered(Head(pattern), 63, 1);
    assert pattern[63] == 1;
    OvershotFacts(pattern, 1);
    SearchOnward(pattern, Overshot(pattern, 1));
  }

  lemma {:induction false} NotEntered(p: seq<Byte>, i: nat, c: Byte)
    requires i <= |p| && forall k :: 0 <= k < i ==> p[k] != c
    ensures Shift(p, i, c) == |p|
  {
    if i > 0 {
      NotEntered(p, i - 1, c);
    }
  }
}
