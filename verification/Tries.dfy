/** Bit strings and full binary tries over them, as values: what the IP tree of
    apache2/msc_tree.c is meant to be. A trie records the node each of its
    positions is stored in. */
module Tries {
  // An address, most significant byte first.
  type Key = seq<bv8>

  /** The byte with only bit j set, counted from the most significant one: 0x80 >> j. */
  function BitMask(j: nat): bv8
    requires j < 8
  {
    match j
    case 0 => 0x80
    case 1 => 0x40
    case 2 => 0x20
    case 3 => 0x10
    case 4 => 0x08
    case 5 => 0x04
    case 6 => 0x02
    case 7 => 0x01
  }

  predicate ByteBit(x: bv8, j: nat)
    requires j < 8
  {
    x & BitMask(j) != 0
  }

  predicate Bit(k: Key, i: nat)
    requires i < 8 * |k|
  {
    ByteBit(k[i / 8], i % 8)
  }

  /** Bits are counted from the most significant one of the first byte. */
  lemma BitExact(k: Key, i: nat)
    requires i < 8 * |k|
    ensures Bit(k, i) <==> (k[i / 8] >> (7 - i % 8)) & 1 == 1
  {
    var x, j := k[i / 8], i % 8;
    if j == 0 { ShiftedBit0(x); }
    else if j == 1 { ShiftedBit1(x); }
    else if j == 2 { ShiftedBit2(x); }
    else if j == 3 { ShiftedBit3(x); }
    else if j == 4 { ShiftedBit4(x); }
    else if j == 5 { ShiftedBit5(x); }
    else if j == 6 { ShiftedBit6(x); }
    else { ShiftedBit7(x); }
  }

  lemma ShiftedBit0(x: bv8) ensures x & 0x80 != 0 <==> (x >> 7) & 1 == 1 {}
  lemma ShiftedBit1(x: bv8) ensures x & 0x40 != 0 <==> (x >> 6) & 1 == 1 {}
  lemma ShiftedBit2(x: bv8) ensures x & 0x20 != 0 <==> (x >> 5) & 1 == 1 {}
  lemma ShiftedBit3(x: bv8) ensures x & 0x10 != 0 <==> (x >> 4) & 1 == 1 {}
  lemma ShiftedBit4(x: bv8) ensures x & 0x08 != 0 <==> (x >> 3) & 1 == 1 {}
  lemma ShiftedBit5(x: bv8) ensures x & 0x04 != 0 <==> (x >> 2) & 1 == 1 {}
  lemma ShiftedBit6(x: bv8) ensures x & 0x02 != 0 <==> (x >> 1) & 1 == 1 {}
  lemma ShiftedBit7(x: bv8) ensures x & 0x01 != 0 <==> (x >> 0) & 1 == 1 {}

  /** The first n bits are the same. */
  ghost predicate Agree(a: Key, b: Key, n: nat)
    requires |a| == |b| && n <= 8 * |a|
  {
    forall i :: 0 <= i < n ==> Bit(a, i) == Bit(b, i)
  }

  // ---------- tries ----------

  datatype Trie<N> =
    | Leaf(at: N, key: Key, netmask: nat)
    | Inner(at: N, bit: nat, left: Trie<N>, right: Trie<N>)

  function BitOf<N>(t: Trie<N>, w: nat): nat {
    if t.Leaf? then 8 * w else t.bit
  }

  ghost function Keys<N>(t: Trie<N>): (s: set<Key>)
    ensures s != {}
  {
    match t
    case Leaf(_, k, _) => {k}
    case Inner(_, _, l, r) => assert Keys(l) <= Keys(l) + Keys(r); Keys(l) + Keys(r)
  }

  // Each key with the netmask stored at its leaf.
  ghost function Entries<N>(t: Trie<N>): (m: map<Key, nat>)
    ensures m.Keys == Keys(t)
  {
    match t
    case Leaf(_, k, netmask) => map[k := netmask]
    case Inner(_, _, l, r) => Entries(l) + Entries(r)
  }

  ghost function Nodes<N>(t: Trie<N>): set<N> {
    match t
    case Leaf(n, _, _) => {n}
    case Inner(n, _, l, r) => {n} + Nodes(l) + Nodes(r)
  }

  /** Every position is stored in a node of its own. */
  ghost predicate Distinct<N>(t: Trie<N>) {
    match t
    case Leaf(_, _, _) => true
    case Inner(n, _, l, r) =>
      n !in Nodes(l) && n !in Nodes(r) && Nodes(l) !! Nodes(r) && Distinct(l) && Distinct(r)
  }

  /** A full binary trie over keys of w bytes: bits grow downwards, the keys
      below a node agree on all bits before its own, and its own bit tells left
      from right. */
  ghost predicate WellFormed<N>(t: Trie<N>, w: nat) {
    && (forall k :: k in Keys(t) ==> |k| == w)
    && match t
       case Leaf(_, _, _) => true
       case Inner(_, b, l, r) =>
         && b < BitOf(l, w) <= 8 * w && b < BitOf(r, w) <= 8 * w
         && WellFormed(l, w) && WellFormed(r, w)
         && (forall x, y :: x in Keys(t) && y in Keys(t) ==> Agree(x, y, b))
         && (forall x :: x in Keys(l) ==> !Bit(x, b))
         && (forall x :: x in Keys(r) ==> Bit(x, b))
  }

  function Child<N>(t: Trie<N>, k: Key): Trie<N>
    requires t.Inner? && t.bit < 8 * |k|
  {
    if Bit(k, t.bit) then t.right else t.left
  }

  /** The leaf that the bits of k lead to. */
  function Bottom<N>(t: Trie<N>, k: Key, w: nat): (l: Trie<N>)
    requires WellFormed(t, w) && |k| == w
    ensures l.Leaf? && l.key in Keys(t) && |l.key| == w
  {
    if t.Leaf? then t else Bottom(Child(t, k), k, w)
  }

  /** The leaf reached holds k exactly when k is in the trie. */
  lemma {:induction false} BottomExact<N>(t: Trie<N>, k: Key, w: nat)
    requires WellFormed(t, w) && |k| == w
    ensures Bottom(t, k, w).key == k <==> k in Keys(t)
  {
    if t.Inner? {
      BottomExact(Child(t, k), k, w);
    }
  }

  lemma {:induction false} BottomEntry<N>(t: Trie<N>, k: Key, w: nat)
    requires WellFormed(t, w) && |k| == w
    ensures Entries(t)[Bottom(t, k, w).key] == Bottom(t, k, w).netmask
  {
    if t.Inner? {
      BottomEntry(Child(t, k), k, w);
    }
  }

  /** k leaves the other keys of the trie behind at bit d. */
  ghost predicate DivergesAt<N>(t: Trie<N>, k: Key, d: nat, w: nat)
    requires WellFormed(t, w) && |k| == w
  {
    && d < 8 * w
    && Agree(k, Bottom(t, k, w).key, d) && Bit(k, d) != Bit(Bottom(t, k, w).key, d)
  }

  /** No node on the way of k tests the bit at which k diverges. */
  lemma {:induction false} DivergesBelow<N>(t: Trie<N>, k: Key, d: nat, w: nat)
    requires WellFormed(t, w) && |k| == w && DivergesAt(t, k, d, w) && t.Inner?
    ensures t.bit != d && DivergesAt(Child(t, k), k, d, w)
  {
  }

  /** A new node over t and the leaf, which part at bit d. */
  function Join<N>(n: N, d: nat, k: Key, t: Trie<N>, leaf: Trie<N>): Trie<N>
    requires d < 8 * |k|
  {
    if Bit(k, d) then Inner(n, d, t, leaf) else Inner(n, d, leaf, t)
  }

  /** Inserts a leaf with key k above the first node that tests a later bit than d. */
  function Splice<N>(t: Trie<N>, k: Key, d: nat, w: nat, n: N, leaf: Trie<N>): Trie<N>
    requires d < 8 * w && |k| == w
  {
    if BitOf(t, w) > d || t.Leaf? || t.bit >= 8 * |k| then Join(n, d, k, t, leaf)
    else if Bit(k, t.bit) then t.(right := Splice(t.right, k, d, w, n, leaf))
    else t.(left := Splice(t.left, k, d, w, n, leaf))
  }

  lemma {:induction false} SpliceKeys<N>(t: Trie<N>, k: Key, d: nat, w: nat, n: N, leaf: Trie<N>)
    requires d < 8 * w && |k| == w && leaf.Leaf? && leaf.key == k
    ensures Keys(Splice(t, k, d, w, n, leaf)) == Keys(t) + {k}
  {
    if BitOf(t, w) > d || t.Leaf? || t.bit >= 8 * |k| {
    } else if Bit(k, t.bit) {
      SpliceKeys(t.right, k, d, w, n, leaf);
    } else {
      SpliceKeys(t.left, k, d, w, n, leaf);
    }
  }

  lemma MergeUpdated(a: map<Key, nat>, b: map<Key, nat>, k: Key, netmask: nat)
    requires k !in b
    ensures a[k := netmask] + b == (a + b)[k := netmask]
    ensures a + b[k := netmask] == (a + b)[k := netmask]
  {
  }

  lemma {:induction false} SpliceEntries<N>(t: Trie<N>, k: Key, d: nat, w: nat, n: N, leaf: Trie<N>)
    requires d < 8 * w && |k| == w && leaf.Leaf? && leaf.key == k && k !in Keys(t)
    ensures Entries(Splice(t, k, d, w, n, leaf)) == Entries(t)[k := leaf.netmask]
  {
    if BitOf(t, w) > d || t.Leaf? || t.bit >= 8 * |k| {
    } else if Bit(k, t.bit) {
      SpliceEntries(t.right, k, d, w, n, leaf);
      MergeUpdated(Entries(t.left), Entries(t.right), k, leaf.netmask);
    } else {
      SpliceEntries(t.left, k, d, w, n, leaf);
      MergeUpdated(Entries(t.left), Entries(t.right), k, leaf.netmask);
    }
  }

  /** All keys of a subtrie that tests a later bit agree with k up to d and differ from it there. */
  lemma AgreeAbove<N>(t: Trie<N>, k: Key, d: nat, w: nat, x: Key)
    requires WellFormed(t, w) && |k| == w && DivergesAt(t, k, d, w)
    requires BitOf(t, w) > d && x in Keys(t)
    ensures Agree(k, x, d) && Bit(x, d) != Bit(k, d)
  {
    var b := Bottom(t, k, w).key;
    if t.Inner? {
      assert Agree(b, x, t.bit);
    }
  }

  /** All keys of a subtrie that tests an earlier bit agree with k up to that bit. */
  lemma AgreeBelow<N>(t: Trie<N>, k: Key, d: nat, w: nat, x: Key)
    requires WellFormed(t, w) && |k| == w && DivergesAt(t, k, d, w)
    requires t.Inner? && t.bit < d && x in Keys(t)
    ensures Agree(k, x, t.bit)
  {
    assert Agree(Bottom(t, k, w).key, x, t.bit);
  }

  lemma AgreeTransitive(a: Key, b: Key, c: Key, n: nat)
    requires |a| == |b| == |c| && n <= 8 * |a| && Agree(a, b, n) && Agree(a, c, n)
    ensures Agree(b, c, n) && Agree(c, b, n) && Agree(b, a, n)
  {
  }

  /** Splicing in a key where it diverges keeps the trie well formed. */
  lemma {:induction false} SpliceWellFormed<N>(t: Trie<N>, k: Key, d: nat, w: nat, n: N, leaf: Trie<N>)
    requires WellFormed(t, w) && |k| == w && DivergesAt(t, k, d, w) && leaf.Leaf? && leaf.key == k
    ensures WellFormed(Splice(t, k, d, w, n, leaf), w)
    ensures BitOf(Splice(t, k, d, w, n, leaf), w) == if BitOf(t, w) > d then d else BitOf(t, w)
  {
    var r := Splice(t, k, d, w, n, leaf);
    SpliceKeys(t, k, d, w, n, leaf);
    if BitOf(t, w) > d {
      forall x | x in Keys(t) ensures Agree(k, x, d) && Bit(x, d) != Bit(k, d) {
        AgreeAbove(t, k, d, w, x);
      }
      forall x, y | x in Keys(r) && y in Keys(r) ensures Agree(x, y, d) {
        AgreeTransitive(k, x, y, d);
      }
      if Bit(k, d) {} else {}
    } else {
      DivergesBelow(t, k, d, w);
      SpliceWellFormed(Child(t, k), k, d, w, n, leaf);
      SpliceKeys(Child(t, k), k, d, w, n, leaf);
      forall x | x in Keys(t) ensures Agree(k, x, t.bit) {
        AgreeBelow(t, k, d, w, x);
      }
      forall x, y | x in Keys(r) && y in Keys(r) ensures Agree(x, y, t.bit) {
        AgreeTransitive(k, x, y, t.bit);
      }
      if Bit(k, t.bit) {} else {}
    }
  }

  /** A key that is not in the trie diverges from it at its first bit that
      differs from the leaf it leads to. */
  lemma DifferenceDiverges<N>(t: Trie<N>, k: Key, d: nat, w: nat)
    requires WellFormed(t, w) && |k| == w && d < 8 * w
    requires Agree(k, Bottom(t, k, w).key, d) && Bit(k, d) != Bit(Bottom(t, k, w).key, d)
    ensures DivergesAt(t, k, d, w) && k !in Keys(t)
  {
    BottomExact(t, k, w);
  }
}
