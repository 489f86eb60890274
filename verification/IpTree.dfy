/** The Patricia tree of IP addresses in apache2/msc_tree.c: linked nodes that
    carry out the operations of Tries in place. */
module IpTree {
  import opened Wrappers
  import opened Tries

  // ---------- netmasks ----------

  /** 0xff << s, cut to a byte. */
  function HighMask(s: nat): bv8 {
    match s
    case 0 => 0xff
    case 1 => 0xfe
    case 2 => 0xfc
    case 3 => 0xf8
    case 4 => 0xf0
    case 5 => 0xe0
    case 6 => 0xc0
    case 7 => 0x80
    case _ => 0x00
  }

  /** What a netmask leaves of byte number m of an address. */
  function ByteMask(netmask: nat, m: nat): bv8 {
    if (m + 1) * 8 > netmask then HighMask((m + 1) * 8 - netmask) else 0xff
  }

  function Masked(k: Key, netmask: nat): (r: Key)
    ensures |r| == |k|
  {
    seq(|k|, m requires 0 <= m < |k| => k[m] & ByteMask(netmask, m))
  }

  lemma HighMaskBits(x: bv8, s: nat, j: nat)
    requires j < 8
    ensures ByteBit(x & HighMask(s), j) == (j + s < 8 && ByteBit(x, j))
  {
    if s == 0 { HighMask0(x, j); }
    else if s == 1 { HighMask1(x, j); }
    else if s == 2 { HighMask2(x, j); }
    else if s == 3 { HighMask3(x, j); }
    else if s == 4 { HighMask4(x, j); }
    else if s == 5 { HighMask5(x, j); }
    else if s == 6 { HighMask6(x, j); }
    else if s == 7 { HighMask7(x, j); }
    else {
      assert HighMask(s) == 0;
      assert x & 0 == 0;
    }
  }

  lemma HighMask0(x: bv8, j: nat) requires j < 8 ensures ByteBit(x & 0xff, j) == ByteBit(x, j) {}
  lemma HighMask1(x: bv8, j: nat) requires j < 8 ensures ByteBit(x & 0xfe, j) == (j < 7 && ByteBit(x, j)) {}
  lemma HighMask2(x: bv8, j: nat) requires j < 8 ensures ByteBit(x & 0xfc, j) == (j < 6 && ByteBit(x, j)) {}
  lemma HighMask3(x: bv8, j: nat) requires j < 8 ensures ByteBit(x & 0xf8, j) == (j < 5 && ByteBit(x, j)) {}
  lemma HighMask4(x: bv8, j: nat) requires j < 8 ensures ByteBit(x & 0xf0, j) == (j < 4 && ByteBit(x, j)) {}
  lemma HighMask5(x: bv8, j: nat) requires j < 8 ensures ByteBit(x & 0xe0, j) == (j < 3 && ByteBit(x, j)) {}
  lemma HighMask6(x: bv8, j: nat) requires j < 8 ensures ByteBit(x & 0xc0, j) == (j < 2 && ByteBit(x, j)) {}
  lemma HighMask7(x: bv8, j: nat) requires j < 8 ensures ByteBit(x & 0x80, j) == (j < 1 && ByteBit(x, j)) {}

  /** Masking keeps the first netmask bits and clears the others. */
  lemma MaskedBits(k: Key, netmask: nat, i: nat)
    requires i < 8 * |k|
    ensures Bit(Masked(k, netmask), i) == (i < netmask && Bit(k, i))
  {
    var m, j := i / 8, i % 8;
    assert i == 8 * m + j;
    if (m + 1) * 8 > netmask {
      HighMaskBits(k[m], (m + 1) * 8 - netmask, j);
    } else {
      HighMask0(k[m], j);
    }
  }

  method ConvertIPNetmask(buffer: array<bv8>, netmask: nat, ipBitmask: nat)
    requires ipBitmask / 8 <= buffer.Length
    modifies buffer
    ensures buffer[..ipBitmask / 8] == Masked(old(buffer[..ipBitmask / 8]), netmask)
    ensures buffer[ipBitmask / 8..] == old(buffer[ipBitmask / 8..])
  {
    var aux, bytes := 0, ipBitmask / 8;
    while aux < bytes
      invariant 0 <= aux <= bytes
      invariant forall m :: 0 <= m < aux ==> buffer[m] == old(buffer[m]) & ByteMask(netmask, m)
      invariant forall m :: aux <= m < buffer.Length ==> buffer[m] == old(buffer[m])
    {
      var mask: bv8;
      var maskBit := (1 + aux) * 8;
      if maskBit > netmask {
        mask := 0;
        if maskBit - netmask < 8 {
          mask := HighMask(maskBit - netmask);
        }
      } else {
        mask := 0xff;
      }
      buffer[aux] := buffer[aux] & mask;
      aux := aux + 1;
    }
  }

  /** The netmask names a single address. */
  predicate CheckBitmask(netmask: nat, ipBitmask: nat) {
    netmask == 0xff || (netmask == 0x20 && ipBitmask == 0x20) || (netmask == 0x80 && ipBitmask == 0x80)
  }

  // ---------- the first bit that differs ----------

  /** For a nonzero byte, the loop over halving thresholds finds its highest set bit. */
  method HighestBit(x: bv8) returns (cnt: nat)
    requires x != 0
    ensures cnt < 8 && ByteBit(x, cnt) && forall j :: 0 <= j < cnt ==> !ByteBit(x, j)
  {
    var temp: bv16 := (x as bv16) + (x as bv16);
    var net: bv16, div: bv16 := 0x100, 2;
    cnt := 0;
    while net >= 2 && temp < net
      invariant cnt <= 7
      invariant forall j :: 0 <= j < cnt ==> !ByteBit(x, j)
      invariant temp == (x as bv16) + (x as bv16)
      invariant (cnt == 0 && net == 0x100 && div == 2) || (cnt == 1 && net == 0x80 && div == 4)
             || (cnt == 2 && net == 0x40 && div == 8) || (cnt == 3 && net == 0x20 && div == 16)
             || (cnt == 4 && net == 0x10 && div == 32) || (cnt == 5 && net == 8 && div == 64)
             || (cnt == 6 && net == 4 && div == 128) || (cnt == 7 && net == 2 && div == 256)
      invariant temp < net + net
      decreases 8 - cnt
    {
      net := 0x100 / div;
      div := div + div;
      cnt := cnt + 1;
    }
  }

  lemma XorBits(x: bv8, y: bv8, j: nat)
    requires j < 8
    ensures ByteBit(x ^ y, j) == (ByteBit(x, j) != ByteBit(y, j))
  {
    if j < 4 { XorHighBits(x, y, j); } else { XorLowBits(x, y, j); }
  }

  lemma XorHighBits(x: bv8, y: bv8, j: nat)
    requires j < 4
    ensures ByteBit(x ^ y, j) == (ByteBit(x, j) != ByteBit(y, j))
  {
    if j == 0 {} else if j == 1 {} else if j == 2 {} else {}
  }

  lemma XorLowBits(x: bv8, y: bv8, j: nat)
    requires 4 <= j < 8
    ensures ByteBit(x ^ y, j) == (ByteBit(x, j) != ByteBit(y, j))
  {
    if j == 4 {} else if j == 5 {} else if j == 6 {} else {}
  }

  /** The loop that compares an address with the one found: the first bit in
      which they differ, or the number of bits when there is none. */
  method FirstDifference(a: Key, b: Key) returns (testBit: nat)
    requires |a| == |b|
    ensures testBit <= 8 * |a| && (testBit == 8 * |a| <==> a == b)
    ensures Agree(a, b, testBit) && (testBit < 8 * |a| ==> Bit(a, testBit) != Bit(b, testBit))
  {
    testBit := 0;
    var i := 0;
    while i * 8 < 8 * |a|
      invariant 0 <= i <= |a| && testBit == 8 * i && a[..i] == b[..i]
      decreases |a| - i
    {
      var temp := a[i] ^ b[i];
      if temp == 0 {
        SameByte(a[i], b[i]);
        assert a[..i + 1] == b[..i + 1];
        testBit := (i + 1) * 8;
        i := i + 1;
      } else {
        var cnt := HighestBit(temp);
        testBit := i * 8 + cnt;
        AgreeToByte(a, b, i, cnt, temp);
        XorBits(a[i], b[i], cnt);
        return;
      }
    }
    assert a[..i] == a && b[..i] == b;
  }

  lemma SameByte(x: bv8, y: bv8)
    ensures x ^ y == 0 <==> x == y
  {
  }

  lemma AgreeToByte(a: Key, b: Key, i: nat, cnt: nat, x: bv8)
    requires |a| == |b| && i < |a| && a[..i] == b[..i] && cnt < 8
    requires x == a[i] ^ b[i] && forall j :: 0 <= j < cnt ==> !ByteBit(x, j)
    ensures Agree(a, b, 8 * i + cnt)
  {
    forall n | 0 <= n < 8 * i + cnt ensures Bit(a, n) == Bit(b, n) {
      if n < 8 * i {
        assert a[n / 8] == a[..i][n / 8] == b[..i][n / 8] == b[n / 8];
      } else {
        assert n / 8 == i && n % 8 == n - 8 * i;
        XorBits(a[i], b[i], n % 8);
      }
    }
  }

  // ---------- nodes ----------

  datatype Prefix = Prefix(buffer: Key, bitlen: nat, netmask: nat)

  class TreeNode {
    var bit: nat
    var prefix: Option<Prefix>
    var left: TreeNode?
    var right: TreeNode?
    var parent: TreeNode?

    constructor ()
      ensures bit == 0 && prefix == None && left == null && right == null && parent == null
    {
      bit, prefix, left, right, parent := 0, None, null, null, null;
    }
  }

  // The fields of a node, as a value.
  datatype Cell = Cell(bit: nat, prefix: Option<Prefix>, left: TreeNode?, right: TreeNode?, parent: TreeNode?)

  ghost function Read(n: TreeNode): Cell
    reads n
  {
    Cell(n.bit, n.prefix, n.left, n.right, n.parent)
  }

  ghost function Snapshot(nodes: set<TreeNode>): map<TreeNode, Cell>
    reads nodes
  {
    map n | n in nodes :: Read(n)
  }

  /** In the heap h, the nodes from t.at downwards are linked as the trie t says, below the node p. */
  ghost predicate Realizes(h: map<TreeNode, Cell>, t: Trie<TreeNode>, p: TreeNode?, w: nat)
  {
    && t.at in h && h[t.at].parent == p
    && match t
       case Leaf(n, k, m) => h[n] == Cell(8 * w, Some(Prefix(k, 8 * w, m)), null, null, p)
       case Inner(n, b, l, r) =>
         && h[n] == Cell(b, None, l.at, r.at, p)
         && Realizes(h, l, n, w) && Realizes(h, r, n, w)
  }

  lemma AtInNodes(t: Trie<TreeNode>)
    ensures t.at in Nodes(t)
  {
  }

  // From the heap h to g, x was given the parent inner, and its old parent inner as a child in its place.
  ghost predicate Relinked(h: map<TreeNode, Cell>, g: map<TreeNode, Cell>, n: TreeNode, x: TreeNode, inner: TreeNode) {
    && n in h && n in g
    && g[n] == h[n].(parent := if n == x then inner else h[n].parent,
                     left := if h[n].left == x then inner else h[n].left,
                     right := if h[n].right == x then inner else h[n].right)
  }

  ghost predicate AllRelinked(h: map<TreeNode, Cell>, g: map<TreeNode, Cell>, t: Trie<TreeNode>, x: TreeNode, inner: TreeNode) {
    forall n :: n in Nodes(t) ==> Relinked(h, g, n, x, inner)
  }

  /** A trie that x is not part of is not affected. */
  lemma {:induction false} OthersRealize(h: map<TreeNode, Cell>, g: map<TreeNode, Cell>, t: Trie<TreeNode>,
                                         p: TreeNode?, w: nat, x: TreeNode, inner: TreeNode)
    requires Realizes(h, t, p, w) && x !in Nodes(t) && AllRelinked(h, g, t, x, inner)
    ensures Realizes(g, t, p, w)
    decreases t
  {
    AtInNodes(t);
    assert Relinked(h, g, t.at, x, inner);
    if t.Inner? {
      AtInNodes(t.left);
      AtInNodes(t.right);
      OthersRealize(h, g, t.left, t.at, w, x, inner);
      OthersRealize(h, g, t.right, t.at, w, x, inner);
    }
  }

  /** The trie whose top node was given a new parent. */
  lemma MovedRealizes(h: map<TreeNode, Cell>, g: map<TreeNode, Cell>, t: Trie<TreeNode>,
                      p: TreeNode?, w: nat, inner: TreeNode)
    requires Realizes(h, t, p, w) && Distinct(t) && AllRelinked(h, g, t, t.at, inner)
    ensures Realizes(g, t, inner, w)
  {
    AtInNodes(t);
    assert Relinked(h, g, t.at, t.at, inner);
    if t.Inner? {
      AtInNodes(t.left);
      AtInNodes(t.right);
      OthersRealize(h, g, t.left, t.at, w, t.at, inner);
      OthersRealize(h, g, t.right, t.at, w, t.at, inner);
    }
  }

  /** The subtrie that a splice at bit d moves below a new node. */
  function Target(t: Trie<TreeNode>, k: Key, d: nat, w: nat): Trie<TreeNode>
    requires d < 8 * w && |k| == w
  {
    if BitOf(t, w) > d || t.Leaf? || t.bit >= 8 * |k| then t
    else if Bit(k, t.bit) then Target(t.right, k, d, w) else Target(t.left, k, d, w)
  }

  lemma {:induction false} TargetInside(t: Trie<TreeNode>, k: Key, d: nat, w: nat)
    requires d < 8 * w && |k| == w
    ensures Nodes(Target(t, k, d, w)) <= Nodes(t)
    decreases t
  {
    if BitOf(t, w) > d || t.Leaf? || t.bit >= 8 * |k| {
    } else if Bit(k, t.bit) {
      TargetInside(t.right, k, d, w);
    } else {
      TargetInside(t.left, k, d, w);
    }
  }

  // The two new nodes of a splice, linked to each other and to the target below them.
  ghost predicate Joined(g: map<TreeNode, Cell>, x: TreeNode, up: TreeNode?, k: Key, d: nat, w: nat,
                         inner: TreeNode, leaf: Trie<TreeNode>)
    requires d < 8 * |k|
  {
    && inner in g && leaf.Leaf? && leaf.key == k && Realizes(g, leaf, inner, w)
    && g[inner] == (if Bit(k, d) then Cell(d, None, x, leaf.at, up) else Cell(d, None, leaf.at, x, up))
  }

  lemma CellsJoin(g: map<TreeNode, Cell>, x: TreeNode, up: TreeNode?, prefix: Prefix, d: nat, w: nat,
                  inner: TreeNode, newNode: TreeNode)
    requires d < 8 * |prefix.buffer| && prefix.bitlen == 8 * w && inner in g && newNode in g
    requires g[newNode] == Cell(prefix.bitlen, Some(prefix), null, null, inner)
    requires g[inner] == if Bit(prefix.buffer, d) then Cell(d, None, x, newNode, up) else Cell(d, None, newNode, x, up)
    ensures Joined(g, x, up, prefix.buffer, d, w, inner, Leaf(newNode, prefix.buffer, prefix.netmask))
  {
  }

  /** The pointer updates of an insertion turn the old trie into the spliced one. */
  lemma {:induction false} SpliceRealizes(h: map<TreeNode, Cell>, g: map<TreeNode, Cell>, t: Trie<TreeNode>, p: TreeNode?,
                                          k: Key, d: nat, w: nat, inner: TreeNode, leaf: Trie<TreeNode>)
    requires d < 8 * w && |k| == w
    requires Realizes(h, t, p, w) && Distinct(t) && BitOf(Target(t, k, d, w), w) > d
    requires AllRelinked(h, g, t, Target(t, k, d, w).at, inner)
    requires var x := Target(t, k, d, w).at;
             x in h && Joined(g, x, if x == t.at then p else h[x].parent, k, d, w, inner, leaf)
    ensures Realizes(g, Splice(t, k, d, w, inner, leaf), p, w)
    decreases t
  {
    var x := Target(t, k, d, w).at;
    AtInNodes(t);
    if BitOf(t, w) > d {
      MovedRealizes(h, g, t, p, w, inner);
    } else if t.Inner? && t.bit < 8 * |k| {
      assert Relinked(h, g, t.at, x, inner);
      AtInNodes(t.left);
      AtInNodes(t.right);
      AtInNodes(Target(t, k, d, w));
      TargetInside(Child(t, k), k, d, w);
      if Bit(k, t.bit) {
        OthersRealize(h, g, t.left, t.at, w, x, inner);
        SpliceRealizes(h, g, t.right, t.at, k, d, w, inner, leaf);
      } else {
        OthersRealize(h, g, t.right, t.at, w, x, inner);
        SpliceRealizes(h, g, t.left, t.at, k, d, w, inner, leaf);
      }
    }
  }

  lemma {:induction false} SpliceDistinct(t: Trie<TreeNode>, k: Key, d: nat, w: nat, inner: TreeNode, leaf: Trie<TreeNode>)
    requires d < 8 * w && |k| == w && leaf.Leaf?
    requires Distinct(t) && inner != leaf.at && inner !in Nodes(t) && leaf.at !in Nodes(t)
    ensures Distinct(Splice(t, k, d, w, inner, leaf))
    ensures Nodes(Splice(t, k, d, w, inner, leaf)) == Nodes(t) + {inner, leaf.at}
    decreases t
  {
    if BitOf(t, w) > d || t.Leaf? || t.bit >= 8 * |k| {
    } else if Bit(k, t.bit) {
      SpliceDistinct(t.right, k, d, w, inner, leaf);
    } else {
      SpliceDistinct(t.left, k, d, w, inner, leaf);
    }
  }

  /** Child pointers stay inside the trie and never lead to its top. */
  lemma {:induction false} ChildrenInside(h: map<TreeNode, Cell>, t: Trie<TreeNode>, p: TreeNode?, w: nat, n: TreeNode)
    requires Realizes(h, t, p, w) && Distinct(t) && n in Nodes(t)
    ensures n in h
    ensures h[n].left != null ==> h[n].left in Nodes(t) && h[n].left != t.at
    ensures h[n].right != null ==> h[n].right in Nodes(t) && h[n].right != t.at
    decreases t
  {
    if n != t.at {
      if n in Nodes(t.left) {
        ChildrenInside(h, t.left, t.at, w, n);
      } else {
        ChildrenInside(h, t.right, t.at, w, n);
      }
    } else if t.Inner? {
      AtInNodes(t.left);
      AtInNodes(t.right);
    }
  }

  /** Parent links are inverse to child links. */
  lemma {:induction false} ChildHasParent(h: map<TreeNode, Cell>, t: Trie<TreeNode>, p: TreeNode?, w: nat, n: TreeNode, x: TreeNode)
    requires Realizes(h, t, p, w) && Distinct(t) && n in Nodes(t) && x in Nodes(t)
    ensures n in h && x in h
    ensures h[n].left == x ==> h[x].parent == n && h[n].right != x
    ensures h[n].right == x ==> h[x].parent == n && h[n].left != x
    decreases t
  {
    ChildrenInside(h, t, p, w, n);
    ChildrenInside(h, t, p, w, x);
    if n == t.at {
      if t.Inner? {
        AtInNodes(t.left);
        AtInNodes(t.right);
      }
    } else if n in Nodes(t.left) {
      ChildrenInside(h, t.left, t.at, w, n);
      if x in Nodes(t.left) {
        ChildHasParent(h, t.left, t.at, w, n, x);
      }
    } else {
      ChildrenInside(h, t.right, t.at, w, n);
      if x in Nodes(t.right) {
        ChildHasParent(h, t.right, t.at, w, n, x);
      }
    }
  }

  lemma {:induction false} ParentHasChild(h: map<TreeNode, Cell>, t: Trie<TreeNode>, p: TreeNode?, w: nat, x: TreeNode)
    requires Realizes(h, t, p, w) && Distinct(t) && x in Nodes(t)
    ensures x in h
    ensures x == t.at ==> h[x].parent == p
    ensures x != t.at ==> h[x].parent != null && h[x].parent in Nodes(t) && h[x].parent in h && h[x].parent != x
                          && (h[h[x].parent].left == x || h[h[x].parent].right == x)
    decreases t
  {
    if x != t.at {
      if x in Nodes(t.left) {
        ParentHasChild(h, t.left, t.at, w, x);
      } else {
        ParentHasChild(h, t.right, t.at, w, x);
      }
    }
  }

  // From the heap h to g, only x and its parent changed: what the assignments of an insertion do to an old node.
  ghost predicate Rewired(h: map<TreeNode, Cell>, g: map<TreeNode, Cell>, n: TreeNode, x: TreeNode, inner: TreeNode) {
    && n in h && n in g && x in h
    && (n == x ==> g[n] == h[n].(parent := inner))
    && (n == h[x].parent && n != x ==>
          g[n] == if h[n].right == x then h[n].(right := inner) else h[n].(left := inner))
    && (n != h[x].parent && n != x ==> g[n] == h[n])
  }

  lemma RewiredRelinked(h: map<TreeNode, Cell>, g: map<TreeNode, Cell>, t: Trie<TreeNode>, p: TreeNode?, w: nat,
                        x: TreeNode, inner: TreeNode)
    requires Realizes(h, t, p, w) && Distinct(t) && x in Nodes(t) && p !in Nodes(t)
    requires forall n :: n in Nodes(t) ==> Rewired(h, g, n, x, inner)
    ensures AllRelinked(h, g, t, x, inner)
  {
    hide Realizes, Distinct, Nodes;
    ParentHasChild(h, t, p, w, x);
    forall n | n in Nodes(t) ensures Relinked(h, g, n, x, inner) {
      assert Rewired(h, g, n, x, inner);
      ChildHasParent(h, t, p, w, n, x);
    }
  }

  /** The node on top of a spliced trie: the new one when the whole trie moves below it. */
  lemma SpliceTop(t: Trie<TreeNode>, k: Key, d: nat, w: nat, inner: TreeNode, leaf: Trie<TreeNode>)
    requires d < 8 * w && |k| == w && Distinct(t) && BitOf(Target(t, k, d, w), w) > d
    ensures Splice(t, k, d, w, inner, leaf).at == if Target(t, k, d, w).at == t.at then inner else t.at
  {
    if !(BitOf(t, w) > d || t.Leaf? || t.bit >= 8 * |k|) {
      AtInNodes(Target(t, k, d, w));
      TargetInside(Child(t, k), k, d, w);
    }
  }

  /** The pointer updates of an insertion turn the tree into the one with the new entry. */
  lemma SpliceTree(h: map<TreeNode, Cell>, g: map<TreeNode, Cell>, t: Trie<TreeNode>, k: Key, d: nat, w: nat,
                   inner: TreeNode, leaf: Trie<TreeNode>)
    requires d < 8 * w && |k| == w && WellFormed(t, w) && Realizes(h, t, null, w) && Distinct(t)
    requires BitOf(Target(t, k, d, w), w) > d && DivergesAt(t, k, d, w) && k !in Keys(t)
    requires leaf.Leaf? && leaf.key == k && inner != leaf.at && inner !in Nodes(t) && leaf.at !in Nodes(t)
    requires AllRelinked(h, g, t, Target(t, k, d, w).at, inner)
    requires var x := Target(t, k, d, w).at;
             x in h && Joined(g, x, if x == t.at then null else h[x].parent, k, d, w, inner, leaf)
    ensures var r := Splice(t, k, d, w, inner, leaf);
            && WellFormed(r, w) && Realizes(g, r, null, w) && Distinct(r) && Nodes(r) == Nodes(t) + {inner, leaf.at}
            && Tries.Entries(r) == Tries.Entries(t)[k := leaf.netmask]
            && r.at == if Target(t, k, d, w).at == t.at then inner else t.at
  {
    hide Realizes, Distinct, WellFormed, AllRelinked, Joined, DivergesAt, Target, Splice, Keys, Nodes, Tries.Entries;
    SpliceRealizes(h, g, t, null, k, d, w, inner, leaf);
    SpliceDistinct(t, k, d, w, inner, leaf);
    SpliceWellFormed(t, k, d, w, inner, leaf);
    SpliceEntries(t, k, d, w, inner, leaf);
    SpliceTop(t, k, d, w, inner, leaf);
  }

  // ---------- the way down ----------

  // Position i of a path: a subtrie, where it is in the heap, and the step that leads to it.
  ghost predicate OnPath(h: map<TreeNode, Cell>, path: seq<Trie<TreeNode>>, k: Key, w: nat, i: nat)
    requires i < |path|
  {
    && WellFormed(path[i], w) && |k| == w
    && Nodes(path[i]) <= Nodes(path[0])
    && Realizes(h, path[i], if i == 0 then null else path[i - 1].at, w)
    && (i > 0 ==> path[i - 1].Inner? && path[i - 1].bit < 8 * |k| && path[i] == Child(path[i - 1], k)
                  && path[i - 1].bit < BitOf(path[i], w))
  }

  /** The subtries that the bits of k lead through, from the whole trie on. */
  ghost predicate Path(h: map<TreeNode, Cell>, path: seq<Trie<TreeNode>>, k: Key, w: nat) {
    |path| > 0 && forall i :: 0 <= i < |path| ==> OnPath(h, path, k, w, i)
  }

  lemma PathStart(h: map<TreeNode, Cell>, t: Trie<TreeNode>, k: Key, w: nat)
    requires WellFormed(t, w) && Realizes(h, t, null, w) && |k| == w
    ensures Path(h, [t], k, w)
  {
  }

  lemma PathDown(h: map<TreeNode, Cell>, path: seq<Trie<TreeNode>>, k: Key, w: nat)
    requires Path(h, path, k, w) && path[|path| - 1].Inner?
    ensures |k| == w && path[|path| - 1].bit < 8 * w && Path(h, path + [Child(path[|path| - 1], k)], k, w)
  {
    var n := |path|;
    var last := path[n - 1];
    assert OnPath(h, path, k, w, n - 1);
    var longer := path + [Child(last, k)];
    forall i | 0 <= i < n + 1 ensures OnPath(h, longer, k, w, i) {
      if i < n {
        assert OnPath(h, path, k, w, i);
      } else {
        assert longer[n - 1] == last && longer[0] == path[0];
        if Bit(k, last.bit) {} else {}
      }
    }
  }

  lemma {:induction false} PathBottom(h: map<TreeNode, Cell>, path: seq<Trie<TreeNode>>, k: Key, w: nat, i: nat)
    requires Path(h, path, k, w) && i < |path|
    ensures |k| == w && WellFormed(path[0], w) && WellFormed(path[i], w)
    ensures Bottom(path[0], k, w) == Bottom(path[i], k, w)
  {
    hide Realizes, Nodes, Keys, Bit;
    assert OnPath(h, path, k, w, 0) && OnPath(h, path, k, w, i);
    if i > 0 {
      PathBottom(h, path, k, w, i - 1);
    }
  }

  lemma ReadOnPath(h: map<TreeNode, Cell>, path: seq<Trie<TreeNode>>, k: Key, w: nat, i: nat)
    requires Path(h, path, k, w) && i < |path|
    ensures path[i].at in Nodes(path[0]) && path[i].at in h
    ensures h[path[i].at].bit == BitOf(path[i], w)
    ensures h[path[i].at].parent == if i == 0 then null else path[i - 1].at
    ensures path[i].Inner? ==> h[path[i].at].left == path[i].left.at && h[path[i].at].right == path[i].right.at
    ensures path[i].Inner? ==> BitOf(path[i], w) < 8 * w
    ensures path[i].Leaf? ==> h[path[i].at].prefix == Some(Prefix(path[i].key, 8 * w, path[i].netmask))
  {
    AtInNodes(path[i]);
    assert OnPath(h, path, k, w, i);
  }

  lemma BottomLeaf(t: Trie<TreeNode>, k: Key, w: nat)
    requires WellFormed(t, w) && |k| == w && t.Leaf?
    ensures Bottom(t, k, w) == t
  {
  }

  /** No subtrie on the way tests the bit at which k diverges. */
  lemma PathDiverges(h: map<TreeNode, Cell>, path: seq<Trie<TreeNode>>, k: Key, w: nat, d: nat, i: nat)
    requires Path(h, path, k, w) && i + 1 < |path| && |k| == w && WellFormed(path[0], w) && DivergesAt(path[0], k, d, w)
    ensures path[i].Inner? && path[i].bit != d
  {
    PathBottom(h, path, k, w, i);
    assert OnPath(h, path, k, w, i + 1);
    DivergesBelow(path[i], k, d, w);
  }

  // The parent pointer at position i of a path, and the bit that its target tests.
  lemma ParentOnPath(h: map<TreeNode, Cell>, path: seq<Trie<TreeNode>>, k: Key, w: nat, d: nat, i: nat)
    requires Path(h, path, k, w) && i < |path| && |k| == w && WellFormed(path[0], w) && DivergesAt(path[0], k, d, w)
    ensures path[i].at in h && h[path[i].at].parent == if i == 0 then null else path[i - 1].at
    ensures i > 0 ==> path[i - 1].at in h && h[path[i - 1].at].bit == BitOf(path[i - 1], w) != d
    ensures i > 0 ==> path[i - 1].at in Nodes(path[0])
  {
    ReadOnPath(h, path, k, w, i);
    if i > 0 {
      ReadOnPath(h, path, k, w, i - 1);
      PathDiverges(h, path, k, w, d, i - 1);
    }
  }

  /** The last subtrie on the way whose parent tests a bit before d is the one a splice at d moves. */
  lemma {:induction false} TargetOnPath(h: map<TreeNode, Cell>, path: seq<Trie<TreeNode>>, k: Key, w: nat, d: nat, j: nat, i: nat)
    requires Path(h, path, k, w) && j <= i < |path| && d < 8 * w && |k| == w
    requires BitOf(path[i], w) > d && (i > 0 ==> BitOf(path[i - 1], w) < d)
    ensures Target(path[j], k, d, w) == path[i]
    ensures j < i ==> BitOf(path[j], w) < d
    decreases i - j
  {
    hide Realizes, Nodes, Keys, Bit;
    assert OnPath(h, path, k, w, j);
    if j < i {
      assert OnPath(h, path, k, w, j + 1);
      TargetOnPath(h, path, k, w, d, j + 1, i);
    }
  }

  /** The first subtrie on the way of k that tests no bit of the first netmask ones. */
  function Covering(t: Trie<TreeNode>, k: Key, netmask: nat): Trie<TreeNode> {
    if t.Leaf? || netmask <= t.bit || t.bit >= 8 * |k| then t else Covering(Child(t, k), k, netmask)
  }

  /** Below that subtrie are exactly the keys that share the netmask's bits with k. */
  lemma {:induction false} CoveringExact(t: Trie<TreeNode>, k: Key, w: nat, netmask: nat, x: Key)
    requires WellFormed(t, w) && |k| == w && k in Keys(t) && x in Keys(t)
    ensures |x| == w
    ensures x in Keys(Covering(t, k, netmask)) <==> Agree(x, k, if netmask < 8 * w then netmask else 8 * w)
    decreases t
  {
    hide Bit;
    var n := if netmask < 8 * w then netmask else 8 * w;
    if t.Leaf? {
    } else if netmask <= t.bit {
      assert Agree(x, k, t.bit);
    } else if x in Keys(Child(t, k)) {
      assert k in Keys(Child(t, k));
      CoveringExact(Child(t, k), k, w, netmask, x);
    } else {
      assert Bit(x, t.bit) != Bit(k, t.bit);
      CoveringInside(Child(t, k), k, netmask);
    }
  }

  lemma {:induction false} CoveringInside(t: Trie<TreeNode>, k: Key, netmask: nat)
    ensures Keys(Covering(t, k, netmask)) <= Keys(t)
    decreases t
  {
    if !(t.Leaf? || netmask <= t.bit || t.bit >= 8 * |k|) {
      CoveringInside(Child(t, k), k, netmask);
    }
  }

  lemma {:induction false} CoveringOnPath(h: map<TreeNode, Cell>, path: seq<Trie<TreeNode>>, k: Key, w: nat, netmask: nat,
                                          j: nat, i: nat)
    requires Path(h, path, k, w) && j <= i < |path| && |k| == w
    requires path[i].Leaf? || netmask <= path[i].bit
    requires i > 0 ==> BitOf(path[i - 1], w) < netmask
    ensures Covering(path[j], k, netmask) == path[i]
    ensures j < i ==> BitOf(path[j], w) < netmask
    decreases i - j
  {
    hide Realizes, Nodes, Keys, Bit;
    assert OnPath(h, path, k, w, j);
    if j < i {
      assert OnPath(h, path, k, w, j + 1);
      CoveringOnPath(h, path, k, w, netmask, j + 1, i);
    }
  }

  // ---------- the tree ----------

  /** What one insertion does to the entries: a new masked address is recorded
      with its netmask, a known one keeps the netmask it has. */
  function Inserted(entries: map<Key, nat>, k: Key, netmask: nat): map<Key, nat> {
    if Masked(k, netmask) in entries then entries else entries[Masked(k, netmask) := netmask]
  }

  /** An address that leads to a leaf with the same key is known; any other is
      spliced in at its first bit that differs. */
  lemma LeafKnown(t: Trie<TreeNode>, k: Key, w: nat)
    requires WellFormed(t, w) && |k| == w
    ensures Bottom(t, k, w).key == k <==> k in Tries.Entries(t)
    ensures k in Tries.Entries(t) ==> Tries.Entries(t)[k] == Bottom(t, k, w).netmask
  {
    BottomExact(t, k, w);
    BottomEntry(t, k, w);
  }

  class CPTTree {
    var head: TreeNode?
    ghost var shape: Option<Trie<TreeNode>>
    ghost const width: nat // bytes of an address

    ghost function Repr(): set<TreeNode>
      reads this
    {
      if shape.Some? then Nodes(shape.value) else {}
    }

    /** The linked nodes are a well-formed trie. */
    ghost predicate Valid()
      reads this, Repr()
    {
      && width < 32
      && match shape
         case None => head == null
         case Some(t) =>
           head == t.at && Distinct(t) && WellFormed(t, width) && Realizes(Snapshot(Repr()), t, null, width)
    }

    ghost function Entries(): map<Key, nat>
      reads this
    {
      if shape.Some? then Tries.Entries(shape.value) else map[]
    }

    constructor (ghost w: nat)
      requires w < 32
      ensures Valid() && width == w && Entries() == map[] && Repr() == {}
    {
      head, shape, width := null, None, w;
    }

    method CreateHead(prefix: Prefix) returns (node: TreeNode)
      requires Valid() && head == null
      requires |prefix.buffer| == width && prefix.bitlen == 8 * width
      modifies this
      ensures Valid() && fresh(node) && Repr() == {node}
      ensures node.prefix == Some(prefix) && Entries() == map[prefix.buffer := prefix.netmask]
    {
      node := new TreeNode();
      node.prefix := Some(prefix);
      node.bit := prefix.bitlen;
      head := node;
      shape := Some(Leaf(node, prefix.buffer, prefix.netmask));
    }

    /** The leaf that the bits of the address lead to. */
    method RetrieveNode(buffer: Key, ipBitmask: nat) returns (node: TreeNode, ghost path: seq<Trie<TreeNode>>)
      requires Valid() && shape.Some? && |buffer| == width && ipBitmask == 8 * width
      ensures Path(Snapshot(Repr()), path, buffer, width) && path[0] == shape.value
      ensures path[|path| - 1] == Bottom(shape.value, buffer, width) && node == path[|path| - 1].at
    {
      hide Realizes, WellFormed, Distinct, Keys, OnPath, Bottom;
      ghost var h := Snapshot(Repr());
      node := head;
      path := [shape.value];
      PathStart(h, shape.value, buffer, width);
      while node.bit < ipBitmask
        invariant h == Snapshot(Repr()) && Path(h, path, buffer, width) && path[0] == shape.value
        invariant node == path[|path| - 1].at
        decreases path[|path| - 1]
      {
        ghost var t := path[|path| - 1];
        ReadOnPath(h, path, buffer, width, |path| - 1);
        PathDown(h, path, buffer, width);
        if Bit(buffer, node.bit) {
          node := node.right;
        } else {
          node := node.left;
        }
        path := path + [Child(t, buffer)];
      }
      PathBottom(h, path, buffer, width, |path| - 1);
      ReadOnPath(h, path, buffer, width, |path| - 1);
      BottomLeaf(path[|path| - 1], buffer, width);
    }

    /** From the leaf reached, up to the node whose place a new inner node at testBit takes. */
    method Climb(leaf: TreeNode, testBit: nat, ghost path: seq<Trie<TreeNode>>, ghost k: Key)
      returns (node: TreeNode, ghost i: nat)
      requires Valid() && shape.Some? && testBit < 8 * width && |k| == width
      requires Path(Snapshot(Repr()), path, k, width) && path[0] == shape.value
      requires leaf == path[|path| - 1].at && path[|path| - 1].Leaf? && DivergesAt(shape.value, k, testBit, width)
      ensures i < |path| && node == path[i].at && BitOf(path[i], width) > testBit
      ensures Target(shape.value, k, testBit, width) == path[i]
    {
      ghost var h := Snapshot(Repr());
      node, i := leaf, |path| - 1;
      ReadOnPath(h, path, k, width, i);
      ParentOnPath(h, path, k, width, testBit, i);
      var parent := leaf.parent;
      while parent != null && testBit <= parent.bit
        invariant i < |path| && node == path[i].at && BitOf(path[i], width) > testBit
        invariant parent == (if i == 0 then null else path[i - 1].at)
        invariant i > 0 ==> parent in Repr() && parent.bit == BitOf(path[i - 1], width) != testBit
        decreases i
      {
        i := i - 1;
        node := parent;
        ParentOnPath(h, path, k, width, testBit, i);
        parent := node.parent;
      }
      TargetOnPath(h, path, k, width, testBit, 0, i);
    }

    /** From the leaf reached, up past every node whose bit the netmask does not cover. */
    method ClimbNetmask(leaf: TreeNode, netmask: nat, ghost path: seq<Trie<TreeNode>>, ghost k: Key)
      returns (node: TreeNode)
      requires Valid() && shape.Some? && |k| == width
      requires Path(Snapshot(Repr()), path, k, width) && path[0] == shape.value && leaf == path[|path| - 1].at && path[|path| - 1].Leaf?
      ensures node in Repr() && node == Covering(shape.value, k, netmask).at
    {
      hide Realizes, WellFormed, Distinct, Keys, OnPath;
      ghost var h := Snapshot(Repr());
      node := leaf;
      ghost var i: nat := |path| - 1;
      ReadOnPath(h, path, k, width, i);
      var parent := leaf.parent;
      while parent != null && netmask < parent.bit + 1
        invariant i < |path| && node == path[i].at && node in Repr()
        invariant parent == if i == 0 then null else path[i - 1].at
        invariant path[i].Leaf? || netmask <= path[i].bit
        decreases i
      {
        i := i - 1;
        ReadOnPath(h, path, k, width, i);
        assert h[path[i].at] == Read(path[i].at);
        node := parent;
        parent := parent.parent;
      }
      if i > 0 {
        ReadOnPath(h, path, k, width, i - 1);
        assert h[path[i - 1].at] == Read(path[i - 1].at);
      }
      CoveringOnPath(h, path, k, width, netmask, 0, i);
    }

    method CreateNodes(node: TreeNode, testBit: nat, prefix: Prefix) returns (newNode: TreeNode, iNode: TreeNode)
      requires testBit < 8 * |prefix.buffer|
      ensures fresh(newNode) && fresh(iNode) && newNode != iNode
      ensures Read(newNode) == Cell(prefix.bitlen, Some(prefix), null, null, iNode)
      ensures Read(iNode) == if Bit(prefix.buffer, testBit) then Cell(testBit, None, node, newNode, node.parent)
                             else Cell(testBit, None, newNode, node, node.parent)
    {
      newNode := new TreeNode();
      newNode.prefix := Some(prefix);
      newNode.bit := prefix.bitlen;
      iNode := new TreeNode();
      iNode.bit := testBit;
      iNode.parent := node.parent;
      if Bit(prefix.buffer, testBit) {
        iNode.left := node;
        iNode.right := newNode;
      } else {
        iNode.left := newNode;
        iNode.right := node;
      }
      newNode.parent := iNode;
    }

    /** A new leaf, and a new inner node over it and the node given, in the place of that node. */
    method Link(node: TreeNode, testBit: nat, prefix: Prefix, ghost t: Trie<TreeNode>) returns (newNode: TreeNode, iNode: TreeNode)
      requires shape == Some(t) && Distinct(t) && Realizes(Snapshot(Nodes(t)), t, null, width)
      requires testBit < 8 * width && |prefix.buffer| == width && prefix.bitlen == 8 * width
      requires node in Nodes(t)
      modifies this, Nodes(t)
      ensures fresh(newNode) && fresh(iNode) && newNode != iNode
      ensures newNode.prefix == Some(prefix) && shape == old(shape)
      ensures AllRelinked(old(Snapshot(Nodes(t))), Snapshot(Nodes(t) + {iNode, newNode}), t, node, iNode)
      ensures Joined(Snapshot(Nodes(t) + {iNode, newNode}), node, old(node.parent), prefix.buffer, testBit, width,
                     iNode, Leaf(newNode, prefix.buffer, prefix.netmask))
      ensures head == if node == t.at then iNode else old(head)
    {
      hide Distinct, Bit, AllRelinked, Nodes, Realizes, Joined, Rewired;
      ghost var h := Snapshot(Nodes(t));
      ParentHasChild(h, t, null, width, node);
      assert h[node] == Read(node);
      if node.parent != null {
        ChildHasParent(h, t, null, width, node.parent, node);
        assert h[node.parent] == Read(node.parent);
      }
      newNode, iNode := Rewire(node, testBit, prefix, Nodes(t));
      RewiredRelinked(h, Snapshot(Nodes(t) + {iNode, newNode}), t, null, width, node, iNode);
    }

    /** The pointer assignments of an insertion. */
    method Rewire(node: TreeNode, testBit: nat, prefix: Prefix, ghost nodes: set<TreeNode>)
      returns (newNode: TreeNode, iNode: TreeNode)
      requires testBit < 8 * width && |prefix.buffer| == width && prefix.bitlen == 8 * width
      requires node in nodes && (node.parent != null ==> node.parent in nodes && node.parent != node)
      requires node.parent != null ==> node.parent.left == node || node.parent.right == node
      requires node.parent != null ==> node.parent.left != node.parent.right
      modifies this, nodes
      ensures fresh(newNode) && fresh(iNode) && newNode != iNode
      ensures newNode.prefix == Some(prefix) && shape == old(shape)
      ensures head == if old(node.parent) == null then iNode else old(head)
      ensures forall n :: n in nodes ==> Rewired(old(Snapshot(nodes)), Snapshot(nodes + {iNode, newNode}), n, node, iNode)
      ensures Joined(Snapshot(nodes + {iNode, newNode}), node, old(node.parent), prefix.buffer, testBit, width,
                     iNode, Leaf(newNode, prefix.buffer, prefix.netmask))
    {
      hide Bit, Joined;
      ghost var h, up := Snapshot(nodes), node.parent;
      newNode, iNode := CreateNodes(node, testBit, prefix);
      SetParentNode(node, iNode);
      node.parent := iNode;
      ghost var g := Snapshot(nodes + {iNode, newNode});
      forall n | n in nodes ensures Rewired(h, g, n, node, iNode) {
        assert h[n] == old(Read(n));
        assert g[n] == Read(n);
        if n == node {} else if n == up {} else {}
      }
      assert g[newNode] == Read(newNode);
      assert g[iNode] == Read(iNode);
      CellsJoin(g, node, up, prefix, testBit, width, iNode, newNode);
    }

    method Attach(node: TreeNode, testBit: nat, prefix: Prefix) returns (newNode: TreeNode)
      requires Valid() && shape.Some? && testBit < 8 * width
      requires |prefix.buffer| == width && prefix.bitlen == 8 * width
      requires var t := Target(shape.value, prefix.buffer, testBit, width); node == t.at && BitOf(t, width) > testBit
      requires DivergesAt(shape.value, prefix.buffer, testBit, width) && prefix.buffer !in Keys(shape.value)
      modifies this, Repr()
      ensures Valid() && newNode in Repr() && (forall n :: n in Repr() ==> n in old(Repr()) || fresh(n))
      ensures newNode.prefix == Some(prefix)
      ensures Entries() == old(Entries())[prefix.buffer := prefix.netmask]
    {
      hide Realizes, Distinct, WellFormed, AllRelinked, Joined, DivergesAt, Target, Splice, Keys, Tries.Entries, Bit;
      ghost var h, t, k := Snapshot(Repr()), shape.value, prefix.buffer;
      AtInNodes(Target(t, k, testBit, width));
      TargetInside(t, k, testBit, width);
      ParentHasChild(h, t, null, width, node);
      assert h[node] == Read(node);
      var iNode;
      newNode, iNode := Link(node, testBit, prefix, t);
      ghost var leaf := Leaf(newNode, k, prefix.netmask);
      ghost var g := Snapshot(Nodes(t) + {iNode, newNode});
      SpliceTree(h, g, t, k, testBit, width, iNode, leaf);
      shape := Some(Splice(t, k, testBit, width, iNode, leaf));
    }

    /** The parent of the node, or else the tree, refers to newNode instead. */
    method SetParentNode(node: TreeNode, newNode: TreeNode)
      requires node.parent != null ==> node.parent.left == node || node.parent.right == node
      requires node.parent != null ==> node.parent.left != node.parent.right
      modifies if node.parent == null then {this} else {node.parent}
      ensures node.parent == null ==> head == newNode && shape == old(shape)
      ensures node.parent == old(node.parent)
      ensures node.parent != null ==>
        && node.parent.bit == old(node.parent.bit) && node.parent.prefix == old(node.parent.prefix)
        && node.parent.parent == old(node.parent.parent)
        && node.parent.left == (if old(node.parent.left) == node then newNode else old(node.parent.left))
        && node.parent.right == (if old(node.parent.right) == node then newNode else old(node.parent.right))
    {
      if node.parent == null {
        head := newNode;
      } else if node.parent.right == node {
        node.parent.right := newNode;
      } else {
        node.parent.left := newNode;
      }
    }

    /** The node an insertion answers with: the leaf of the address, unless a
        block is added again with the netmask it has. */
    ghost predicate AnswersFor(r: TreeNode, prefix: Prefix, before: map<Key, nat>)
      reads this, r
      requires |prefix.buffer| == width && shape.Some? && prefix.buffer in Entries()
    {
      if prefix.buffer in before && before[prefix.buffer] == prefix.netmask
         && prefix.netmask != 255 && !(prefix.netmask == prefix.bitlen && (prefix.bitlen == 32 || prefix.bitlen == 128))
      then r == Covering(shape.value, prefix.buffer, prefix.netmask).at
      else r.prefix == Some(Prefix(prefix.buffer, prefix.bitlen, Entries()[prefix.buffer]))
    }

    method AddElement(ipdata: array<bv8>, ipBitmask: nat, netmask: nat) returns (r: TreeNode?)
      requires Valid() && ipBitmask / 8 <= ipdata.Length
      requires ipBitmask % 8 == 0 ==> ipBitmask == 8 * width
      modifies this, Repr(), ipdata
      ensures Valid() && (forall n :: n in Repr() ==> n in old(Repr()) || fresh(n))
      ensures ipdata[..ipBitmask / 8] == Masked(old(ipdata[..ipBitmask / 8]), netmask)
      ensures ipBitmask % 8 != 0 ==> r == null && head == old(head) && shape == old(shape)
      ensures ipBitmask % 8 == 0 ==> Entries() == Inserted(old(Entries()), old(ipdata[..width]), netmask)
      ensures ipBitmask % 8 == 0 ==>
        var k := Masked(old(ipdata[..width]), netmask);
        && shape.Some? && r != null && r in Repr() && k in Entries()
        && AnswersFor(r, Prefix(k, 8 * width, netmask), old(Entries()))
    {
      hide Realizes, Distinct, WellFormed, Bit, Agree, Masked;
      ConvertIPNetmask(ipdata, netmask, ipBitmask);
      assert Repr() == old(Repr()) && Snapshot(Repr()) == old(Snapshot(Repr()));
      if ipBitmask % 8 != 0 {
        return null;
      }
      r := AddPrefix(Prefix(ipdata[..ipBitmask / 8], ipBitmask, netmask));
    }

    method AddPrefix(prefix: Prefix) returns (r: TreeNode)
      requires Valid() && |prefix.buffer| == width && prefix.bitlen == 8 * width
      modifies this, Repr()
      ensures Valid() && r in Repr() && (forall n :: n in Repr() ==> n in old(Repr()) || fresh(n))
      ensures prefix.buffer in old(Entries()) ==> Entries() == old(Entries())
      ensures prefix.buffer !in old(Entries()) ==> Entries() == old(Entries())[prefix.buffer := prefix.netmask]
      ensures shape.Some? && prefix.buffer in Entries() && AnswersFor(r, prefix, old(Entries()))
    {
      hide Realizes, Distinct, WellFormed, Bit, Agree;
      if head == null {
        r := CreateHead(prefix);
        return;
      }
      ghost var h := Snapshot(Repr());
      var buffer := prefix.buffer;
      var bottom, path := RetrieveNode(buffer, prefix.bitlen);
      ReadOnPath(h, path, buffer, width, |path| - 1);
      assert h[bottom] == Read(bottom);
      LeafKnown(shape.value, buffer, width);
      var testBit := FirstDifference(buffer, bottom.prefix.value.buffer);
      assert Snapshot(Repr()) == h;
      if testBit == prefix.bitlen {
        assert path[0] == shape.value;
        if bottom.prefix.value.netmask != prefix.netmask || CheckBitmask(prefix.netmask, prefix.bitlen) {
          return bottom;
        }
        r := ClimbNetmask(bottom, prefix.netmask, path, buffer);
        return;
      }
      DifferenceDiverges(shape.value, buffer, testBit, width);
      var node, _ := Climb(bottom, testBit, path, buffer);
      r := Attach(node, testBit, prefix);
    }

    /** The lookup in a tree of full-length entries. */
    method FindElement(ipdata: array<bv8>, ipBitmask: nat) returns (r: TreeNode?)
      requires Valid() && ipBitmask == 8 * width && width <= ipdata.Length
      requires forall k :: k in Entries() ==> Entries()[k] == 8 * width
      ensures r != null <==> ipdata[..width] in Entries()
      ensures r != null ==> r in Repr() && r.prefix == Some(Prefix(ipdata[..width], 8 * width, 8 * width))
    {
      hide Realizes, Distinct, WellFormed, Bit, Agree;
      if head == null {
        return null;
      }
      var tempData := ipdata[..ipBitmask / 8];
      var node, path := RetrieveNode(tempData, ipBitmask);
      ReadOnPath(Snapshot(Repr()), path, tempData, width, |path| - 1);
      assert Snapshot(Repr())[node] == Read(node);
      LeafKnown(shape.value, tempData, width);
      if node.prefix.value.buffer == tempData && node.prefix.value.netmask == ipBitmask {
        return node;
      }
      return null;
    }
  }

  // ---------- runs of insertions ----------

  // An address and the netmask it is added with.
  datatype Block = Block(address: Key, netmask: nat)

  function InsertedAll(entries: map<Key, nat>, blocks: seq<Block>): map<Key, nat>
    decreases |blocks|
  {
    if blocks == [] then entries
    else InsertedAll(Inserted(entries, blocks[0].address, blocks[0].netmask), blocks[1..])
  }

  ghost predicate Recorded(entries: map<Key, nat>, blocks: seq<Block>, k: Key) {
    k in entries || exists b :: b in blocks && Masked(b.address, b.netmask) == k
  }

  /** After any run the keys are exactly the masked addresses added. */
  lemma {:induction false} InsertedAllKeys(entries: map<Key, nat>, blocks: seq<Block>, k: Key)
    ensures k in InsertedAll(entries, blocks) <==> Recorded(entries, blocks, k)
    decreases |blocks|
  {
    if blocks != [] {
      var b := blocks[0];
      assert blocks == [b] + blocks[1..];
      InsertedAllKeys(Inserted(entries, b.address, b.netmask), blocks[1..], k);
    }
  }

  /** The first netmask that an address is recorded with is the one that stays. */
  lemma {:induction false} FirstNetmaskStays(entries: map<Key, nat>, blocks: seq<Block>, k: Key)
    requires k in entries
    ensures k in InsertedAll(entries, blocks) && InsertedAll(entries, blocks)[k] == entries[k]
    decreases |blocks|
  {
    if blocks != [] {
      FirstNetmaskStays(Inserted(entries, blocks[0].address, blocks[0].netmask), blocks[1..], k);
    }
  }

  predicate Names(b: Block, k: Key) {
    Masked(b.address, b.netmask) == k
  }

  /** After any run, an address that was not known before has the netmask of the
      first block that names it. Whatever a later block asked for, its netmask is
      the one on record if and only if the first block had the same. */
  lemma {:induction false} FirstBlockDecides(entries: map<Key, nat>, blocks: seq<Block>, k: Key, i: nat)
    requires k !in entries && i < |blocks| && Names(blocks[i], k) && forall j :: 0 <= j < i ==> !Names(blocks[j], k)
    ensures var all := InsertedAll(entries, blocks);
            && k in all && all[k] == blocks[i].netmask
            && forall j :: i <= j < |blocks| && Names(blocks[j], k) ==>
                 (all[k] == blocks[j].netmask <==> blocks[j].netmask == blocks[i].netmask)
    decreases |blocks|
  {
    hide Masked;
    var b := blocks[0];
    var more := Inserted(entries, b.address, b.netmask);
    if i == 0 {
      FirstNetmaskStays(more, blocks[1..], k);
    } else {
      assert !Names(blocks[0], k);
      FirstBlockDecides(more, blocks[1..], k, i - 1);
    }
  }

  /** 10.0.0.0 with 16 bits, and then with 8: the wider block is lost. */
  lemma WiderBlockLost()
    ensures var k: Key := [10, 0, 0, 0];
            InsertedAll(map[], [Block(k, 16), Block(k, 8)]) == map[k := 16]
  {
    var k: Key := [10, 0, 0, 0];
    forall netmask | netmask == 16 || netmask == 8 ensures Masked(k, netmask) == k {
      assert 10 as bv8 & 0xff == 10 && 0 as bv8 & 0xff == 0 && 0 as bv8 & 0x00 == 0;
    }
    assert [Block(k, 16), Block(k, 8)][1..] == [Block(k, 8)];
    assert Inserted(map[], k, 16) == map[k := 16] && Inserted(map[k := 16], k, 8) == map[k := 16];
    assert [Block(k, 8)][1..] == [];
    assert InsertedAll(map[k := 16], [Block(k, 8)]) == map[k := 16];
  }

  /** Full-length netmasks leave addresses as they are. */
  lemma MaskedFully(k: Key, netmask: nat)
    requires netmask >= 8 * |k|
    ensures Masked(k, netmask) == k
  {
    forall m | 0 <= m < |k| ensures Masked(k, netmask)[m] == k[m] {
      assert ByteMask(netmask, m) == 0xff;
    }
  }

  /** A tree of full-length entries records exactly the addresses added, each with its full length. */
  lemma {:induction false} HostEntries(blocks: seq<Block>, w: nat, entries: map<Key, nat>)
    requires forall b :: b in blocks ==> |b.address| == w && b.netmask == 8 * w
    requires forall k :: k in entries ==> entries[k] == 8 * w
    ensures InsertedAll(entries, blocks).Keys == entries.Keys + set b | b in blocks :: b.address
    ensures forall k :: k in InsertedAll(entries, blocks) ==> InsertedAll(entries, blocks)[k] == 8 * w
    decreases |blocks|
  {
    if blocks != [] {
      var b := blocks[0];
      assert blocks == [b] + blocks[1..];
      MaskedFully(b.address, b.netmask);
      HostEntries(blocks[1..], w, Inserted(entries, b.address, b.netmask));
    }
  }

  /** Adds every block of a list to a tree, as the callers of AddElement do for a list of addresses. */
  method AddAll(tree: CPTTree, blocks: seq<Block>)
    requires tree.Valid()
    requires forall b :: b in blocks ==> |b.address| == tree.width
    modifies tree, tree.Repr()
    ensures tree.Valid() && tree.Entries() == InsertedAll(old(tree.Entries()), blocks)
    ensures forall n :: n in tree.Repr() ==> n in old(tree.Repr()) || fresh(n)
  {
    hide Masked, Inserted, CPTTree.Entries, WellFormed, Distinct, Realizes;
    ghost var start := tree.Entries();
    var i := 0;
    while i < |blocks|
      invariant i <= |blocks| && tree.Valid() && (forall n :: n in tree.Repr() ==> n in old(tree.Repr()) || fresh(n))
      invariant InsertedAll(start, blocks) == InsertedAll(tree.Entries(), blocks[i..])
    {
      var address := blocks[i].address;
      var ipdata := new bv8[|address|](m requires 0 <= m < |address| => address[m]);
      assert ipdata[..|address|] == address && tree.Valid();
      assert blocks[i] in blocks;
      assert blocks[i..][1..] == blocks[i + 1..];
      var _ := tree.AddElement(ipdata, 8 * |address|, blocks[i].netmask);
      i := i + 1;
    }
  }
}
