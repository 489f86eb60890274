/** The balanced search trees over the children of a trie node in apache2/acmp.c. */
module SearchTrees {
  import opened Wrappers

  datatype Btree<N> = Nil | Bnode(letter: int, node: N, left: Btree<N>, right: Btree<N>)

  // A child and its letter.
  datatype Entry<N> = Entry(letter: int, node: N)

  /** The descent of acmp_btree_find. */
  method Find<N>(btree: Btree<N>, letter: int) returns (r: Option<N>)
    ensures r == Lookup(btree, letter)
  {
    var bnode := btree;
    while true
      invariant Lookup(btree, letter) == Lookup(bnode, letter)
      decreases bnode
    {
      match bnode
      case Nil => return None;
      case Bnode(l, node, left, right) =>
        if l == letter {
          return Some(node);
        }
        bnode := if l > letter then left else right;
    }
  }

  function Lookup<N>(t: Btree<N>, letter: int): Option<N> {
    match t
    case Nil => None
    case Bnode(l, n, left, right) =>
      if l == letter then Some(n) else if l > letter then Lookup(left, letter) else Lookup(right, letter)
  }

  /** The linear search of acmp_child_for_code. */
  function Linear<N>(entries: seq<Entry<N>>, letter: int): Option<N> {
    if entries == [] then None
    else if entries[0].letter == letter then Some(entries[0].node)
    else Linear(entries[1..], letter)
  }

  ghost predicate Sorted<N>(entries: seq<Entry<N>>) {
    forall i, j :: 0 <= i < j < |entries| ==> entries[i].letter < entries[j].letter
  }

  ghost predicate Distinct<N>(entries: seq<Entry<N>>) {
    forall i, j :: 0 <= i < j < |entries| ==> entries[i].letter != entries[j].letter
  }

  /** The tree with entry pos on top over the entries between lb and rb. */
  function Balanced<N>(entries: seq<Entry<N>>, pos: int, lb: int, rb: int): Btree<N>
    requires -1 <= lb < pos < rb <= |entries|
    decreases rb - lb
  {
    var left := if pos - lb > 1 then Balanced(entries, lb + (pos - lb) / 2, lb, pos) else Nil;
    var right := if rb - pos > 1 then Balanced(entries, pos + (rb - pos) / 2, pos, rb) else Nil;
    Bnode(entries[pos].letter, entries[pos].node, left, right)
  }

  /** Every entry between the bounds is found by its letter. */
  lemma {:induction false} BalancedFinds<N>(entries: seq<Entry<N>>, pos: int, lb: int, rb: int, i: int)
    requires -1 <= lb < pos < rb <= |entries| && Sorted(entries) && lb < i < rb
    ensures Lookup(Balanced(entries, pos, lb, rb), entries[i].letter) == Some(entries[i].node)
    decreases rb - lb
  {
    if i < pos {
      BalancedFinds(entries, lb + (pos - lb) / 2, lb, pos, i);
    } else if i > pos {
      BalancedFinds(entries, pos + (rb - pos) / 2, pos, rb, i);
    }
  }

  /** Nothing else is found. */
  lemma {:induction false} BalancedFindsOnly<N>(entries: seq<Entry<N>>, pos: int, lb: int, rb: int, letter: int)
    requires -1 <= lb < pos < rb <= |entries|
    requires forall i :: 0 <= i < |entries| ==> entries[i].letter != letter
    ensures Lookup(Balanced(entries, pos, lb, rb), letter) == None
    decreases rb - lb
  {
    if pos - lb > 1 {
      BalancedFindsOnly(entries, lb + (pos - lb) / 2, lb, pos, letter);
    }
    if rb - pos > 1 {
      BalancedFindsOnly(entries, pos + (rb - pos) / 2, pos, rb, letter);
    }
  }

  function Depth<N>(t: Btree<N>): nat {
    match t
    case Nil => 0
    case Bnode(_, _, left, right) => 1 + if Depth(left) > Depth(right) then Depth(left) else Depth(right)
  }

  function Pow2(n: nat): nat {
    if n == 0 then 1 else 2 * Pow2(n - 1)
  }

  /** A tree whose top halves k entries is at most 1 + log2(k) deep. */
  lemma {:induction false} BalancedDepth<N>(entries: seq<Entry<N>>, pos: int, lb: int, rb: int)
    requires -1 <= lb < pos < rb <= |entries|
    requires 2 * (pos - lb - 1) <= rb - lb - 1 && 2 * (rb - pos - 1) <= rb - lb - 1
    ensures Pow2(Depth(Balanced(entries, pos, lb, rb))) <= 2 * (rb - lb - 1)
    decreases rb - lb
  {
    hide Pow2;
    var t := Balanced(entries, pos, lb, rb);
    Halves(lb, pos);
    Halves(pos, rb);
    if pos - lb > 1 {
      BalancedDepth(entries, lb + (pos - lb) / 2, lb, pos);
    }
    if rb - pos > 1 {
      BalancedDepth(entries, pos + (rb - pos) / 2, pos, rb);
    }
    DeeperBy(Depth(t.left), Depth(t.right));
    if Depth(t.left) > Depth(t.right) {} else {}
  }

  lemma Halves(lb: int, rb: int)
    requires lb < rb
    ensures var pos := lb + (rb - lb) / 2; 2 * (pos - lb - 1) <= rb - lb - 1 && 2 * (rb - pos - 1) <= rb - lb - 1
    ensures rb - lb > 1 ==> lb < lb + (rb - lb) / 2 < rb
  {
  }

  lemma DeeperBy(m: nat, n: nat)
    ensures Pow2(0) == 1 && Pow2(m + 1) == 2 * Pow2(m) && Pow2(n + 1) == 2 * Pow2(n)
  {
  }

  // ---------- the linear search as the reference ----------

  lemma {:induction false} LinearFinds<N>(entries: seq<Entry<N>>, i: nat)
    requires Distinct(entries) && i < |entries|
    ensures Linear(entries, entries[i].letter) == Some(entries[i].node)
  {
    if i > 0 {
      LinearFinds(entries[1..], i - 1);
    }
  }

  lemma {:induction false} LinearFindsOnly<N>(entries: seq<Entry<N>>, letter: int)
    requires forall i :: 0 <= i < |entries| ==> entries[i].letter != letter
    ensures Linear(entries, letter) == None
  {
    if entries != [] {
      LinearFindsOnly(entries[1..], letter);
    }
  }

  /** The tree over the sorted children finds what a linear search of the
      children finds, in at most 1 + log2(n) steps down. */
  lemma TreeFindsAsLinear<N>(children: seq<Entry<N>>, sorted: seq<Entry<N>>, letter: int)
    requires children != [] && Distinct(children) && Sorted(sorted) && multiset(sorted) == multiset(children)
    ensures |sorted| == |children|
    ensures Lookup(Balanced(sorted, |sorted| / 2, -1, |sorted|), letter) == Linear(children, letter)
    ensures Pow2(Depth(Balanced(sorted, |sorted| / 2, -1, |sorted|))) <= 2 * |children|
  {
    assert |multiset(sorted)| == |multiset(children)|;
    var n := |sorted|;
    BalancedDepth(sorted, n / 2, -1, n);
    if i :| 0 <= i < n && sorted[i].letter == letter {
      BalancedFinds(sorted, n / 2, -1, n, i);
      assert sorted[i] in multiset(children);
      var j :| 0 <= j < n && children[j] == sorted[i];
      LinearFinds(children, j);
    } else {
      BalancedFindsOnly(sorted, n / 2, -1, n, letter);
      forall j | 0 <= j < n ensures children[j].letter != letter {
        assert children[j] in multiset(sorted);
      }
      LinearFindsOnly(children, letter);
    }
  }

  // ---------- building ----------

  ghost predicate SortedTo<N>(s: seq<Entry<N>>, m: nat)
    requires m <= |s|
  {
    && (forall i, j :: 0 <= i < j < m ==> s[i].letter <= s[j].letter)
    && (forall i, j :: 0 <= i < m <= j < |s| ==> s[i].letter <= s[j].letter)
  }

  function Swapped<N>(s: seq<Entry<N>>, i: nat, j: nat): seq<Entry<N>>
    requires i < j < |s|
  {
    s[i := s[j]][j := s[i]]
  }

  lemma SwapKeeps<N>(s: seq<Entry<N>>, i: nat, j: nat)
    requires i < j < |s| && SortedTo(s, i)
    ensures SortedTo(Swapped(s, i, j), i)
  {
  }

  lemma SwapPermutes<N>(s: seq<Entry<N>>, i: nat, j: nat)
    requires i < j < |s|
    ensures multiset(Swapped(s, i, j)) == multiset(s)
  {
    assert s == s[..i] + [s[i]] + s[i + 1..j] + [s[j]] + s[j + 1..];
    assert Swapped(s, i, j) == s[..i] + [s[j]] + s[i + 1..j] + [s[i]] + s[j + 1..];
  }

  method SortNodes<N>(nodes: array<Entry<N>>)
    requires nodes.Length > 0
    modifies nodes
    ensures multiset(nodes[..]) == multiset(old(nodes[..]))
    ensures SortedTo(nodes[..], nodes.Length)
  {
    var count := nodes.Length;
    var i := 0;
    while i < count - 1
      invariant 0 <= i <= count - 1
      invariant multiset(nodes[..]) == multiset(old(nodes[..]))
      invariant SortedTo(nodes[..], i)
    {
      LeastNext(nodes, i);
      i := i + 1;
    }
  }

  /** One round of the sort: the least of the entries from i on moves to i. */
  method LeastNext<N>(nodes: array<Entry<N>>, i: nat)
    requires i < nodes.Length && SortedTo(nodes[..], i)
    modifies nodes
    ensures multiset(nodes[..]) == multiset(old(nodes[..]))
    ensures SortedTo(nodes[..], i + 1)
  {
    hide SortedTo;
    var j := i + 1;
    while j < nodes.Length
      invariant i < j <= nodes.Length
      invariant multiset(nodes[..]) == multiset(old(nodes[..]))
      invariant SortedTo(nodes[..], i)
      invariant forall k :: i < k < j ==> nodes[i].letter <= nodes[k].letter
    {
      if !(nodes[i].letter < nodes[j].letter) {
        SwapKeeps(nodes[..], i, j);
        SwapPermutes(nodes[..], i, j);
        ghost var was := nodes[..];
        nodes[i], nodes[j] := nodes[j], nodes[i];
        assert nodes[..] == Swapped(was, i, j);
      }
      j := j + 1;
    }
    LeastSorted(nodes[..], i);
  }

  lemma LeastSorted<N>(s: seq<Entry<N>>, i: nat)
    requires i < |s| && SortedTo(s, i) && forall k :: i < k < |s| ==> s[i].letter <= s[k].letter
    ensures SortedTo(s, i + 1)
  {
  }

  method AddBtreeLeaves<N>(nodes: array<Entry<N>>, pos: int, lb: int, rb: int) returns (btree: Btree<N>)
    requires -1 <= lb < pos < rb <= nodes.Length
    ensures btree == Balanced(nodes[..], pos, lb, rb)
    decreases rb - lb
  {
    var left, right := Nil, Nil;
    if rb - pos > 1 {
      right := AddBtreeLeaves(nodes, pos + (rb - pos) / 2, pos, rb);
    }
    if pos - lb > 1 {
      left := AddBtreeLeaves(nodes, lb + (pos - lb) / 2, lb, pos);
    }
    btree := Bnode(nodes[pos].letter, nodes[pos].node, left, right);
  }

  /** The tree over a nonempty list of children. */
  method Build<N>(children: seq<Entry<N>>) returns (btree: Btree<N>)
    requires children != [] && Distinct(children)
    ensures forall letter :: Lookup(btree, letter) == Linear(children, letter)
    ensures Pow2(Depth(btree)) <= 2 * |children|
  {
    var count := |children|;
    var nodes := new Entry<N>[count](i requires 0 <= i < count => children[i]);
    assert nodes[..] == children;
    SortNodes(nodes);
    ghost var sorted := nodes[..];
    DistinctSorted(children, sorted);
    btree := AddBtreeLeaves(nodes, count / 2, -1, count);
    forall letter ensures Lookup(btree, letter) == Linear(children, letter) {
      TreeFindsAsLinear(children, sorted, letter);
    }
    TreeFindsAsLinear(children, sorted, 0);
  }

  /** Sorted distinct letters are strictly increasing. */
  lemma DistinctSorted<N>(children: seq<Entry<N>>, sorted: seq<Entry<N>>)
    requires Distinct(children) && multiset(sorted) == multiset(children)
    requires SortedTo(sorted, |sorted|)
    ensures Sorted(sorted)
  {
    forall i, j | 0 <= i < j < |sorted| ensures sorted[i].letter < sorted[j].letter {
      if sorted[i].letter == sorted[j].letter {
        SameLetterSame(children, sorted[i], sorted[j]);
        TwiceInside(sorted, i, j);
        OnceOnly(children, sorted[i]);
      }
    }
  }

  lemma SameLetterSame<N>(children: seq<Entry<N>>, x: Entry<N>, y: Entry<N>)
    requires Distinct(children) && x in multiset(children) && y in multiset(children) && x.letter == y.letter
    ensures x == y
  {
    var i :| 0 <= i < |children| && children[i] == x;
    var j :| 0 <= j < |children| && children[j] == y;
    if i < j {} else if j < i {} else {}
  }

  lemma TwiceInside<N>(s: seq<Entry<N>>, i: nat, j: nat)
    requires i < j < |s| && s[i] == s[j]
    ensures multiset(s)[s[i]] >= 2
  {
    assert s == s[..j] + [s[j]] + s[j + 1..];
    assert s[i] == s[..j][i];
    assert s[i] in multiset(s[..j]);
  }

  lemma {:induction false} OnceOnly<N>(s: seq<Entry<N>>, x: Entry<N>)
    requires Distinct(s)
    ensures multiset(s)[x] <= 1
  {
    if s != [] {
      OnceOnly(s[1..], x);
      assert s == [s[0]] + s[1..];
      forall j | 0 <= j < |s| - 1 ensures s[1..][j] != s[0] {
        assert s[1..][j] == s[j + 1];
      }
    }
  }
}
