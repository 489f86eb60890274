/** The matcher of apache2/acmp.c: linked trie nodes, built and searched in place. */
module Acmp {
  import opened Bytes
  import opened Wrappers
  import opened Matching
  import opened Sequences
  import SearchTrees

  // ---------- letters ----------

  function ToLower(x: Byte): Byte {
    if 65 <= x <= 90 then x + 32 else x
  }

  /** A byte of a pattern, as the char it is stored in: signed, unless folded. */
  function PatternLetter(x: Byte, caseSensitive: bool): int {
    if caseSensitive then (if x < 128 then x else x - 256) else ToLower(x)
  }

  /** A byte of the scanned data: unsigned, folded unless case matters. */
  function DataLetter(x: Byte, caseSensitive: bool): int {
    if caseSensitive then x else ToLower(x)
  }

  function PatternWord(s: seq<Byte>, caseSensitive: bool): (w: Word)
    ensures |w| == |s|
  {
    seq(|s|, i requires 0 <= i < |s| => PatternLetter(s[i], caseSensitive))
  }

  function DataWord(s: seq<Byte>, caseSensitive: bool): (w: Word)
    ensures |w| == |s|
  {
    seq(|s|, i requires 0 <= i < |s| => DataLetter(s[i], caseSensitive))
  }

  // ---------- nodes ----------

  class TrieNode {
    const letter: int
    const parent: TrieNode?
    ghost const word: Word
    var isLast: bool
    var kids: seq<TrieNode>
    var fail: TrieNode?
    var oMatch: TrieNode?
    var btree: SearchTrees.Btree<TrieNode>

    constructor (letter: int, parent: TrieNode?, ghost word: Word)
      ensures this.letter == letter && this.parent == parent && this.word == word
      ensures !isLast && kids == [] && fail == null && oMatch == null && btree == SearchTrees.Nil
    {
      this.letter, this.parent, this.word := letter, parent, word;
      isLast, kids, fail, oMatch, btree := false, [], null, null, SearchTrees.Nil;
    }
  }

  // The nodes of a trie by the words they spell.
  type Nodes = map<Word, TrieNode>

  // Child i of n, which spells w.
  ghost predicate KidAt(trie: Nodes, w: Word, kid: TrieNode) {
    w + [kid.letter] in trie && trie[w + [kid.letter]] == kid
  }

  ghost predicate KidListed(trie: Nodes, kids: seq<TrieNode>, w: Word, c: int) {
    w + [c] in trie ==> trie[w + [c]] in kids
  }

  // n is the node that spells w, and kids are its children.
  ghost predicate NodeAt(trie: Nodes, w: Word, n: TrieNode, kids: seq<TrieNode>) {
    && n.word == w
    && (w == [] ==> n.parent == null)
    && (w != [] ==> w[..|w| - 1] in trie && n.parent == trie[w[..|w| - 1]] && n.letter == w[|w| - 1])
    && (forall i :: 0 <= i < |kids| ==> KidAt(trie, w, kids[i]))
    && (forall i, j :: 0 <= i < j < |kids| ==> kids[i].letter != kids[j].letter)
    && (forall c :: KidListed(trie, kids, w, c))
  }

  /** A new child changes the list of its parent only. */
  lemma ChildAdded(trie: Nodes, w: Word, n: TrieNode, kids: seq<TrieNode>, parent: TrieNode, child: TrieNode)
    requires NodeAt(trie, w, n, kids) && parent.word in trie && trie[parent.word] == parent
    requires child.word == parent.word + [child.letter] && child.word !in trie
    ensures NodeAt(trie[child.word := child], w, n, if w == parent.word then kids + [child] else kids)
  {
    var after := trie[child.word := child];
    var more := if w == parent.word then kids + [child] else kids;
    forall i | 0 <= i < |more| ensures KidAt(after, w, more[i]) {
      if i < |kids| { assert KidAt(trie, w, kids[i]); }
    }
    forall i, j | 0 <= i < j < |more| ensures more[i].letter != more[j].letter {
      if j == |kids| { assert KidAt(trie, w, kids[i]); }
    }
    forall c ensures KidListed(after, more, w, c) {
      assert KidListed(trie, kids, w, c);
      if w + [c] == child.word {
        SnocInjective(w, c, parent.word, child.letter);
        assert more[|more| - 1] == child;
      }
    }
  }

  lemma SnocInjective(u: Word, c: int, w: Word, d: int)
    requires u + [c] == w + [d]
    ensures u == w && c == d
  {
    assert (u + [c])[..|u|] == u && (w + [d])[..|w|] == w;
    assert (u + [c])[|u|] == c && (w + [d])[|w|] == d;
  }

  lemma NewChild(trie: Nodes, parent: TrieNode, child: TrieNode)
    requires parent.word in trie && trie[parent.word] == parent
    requires child.word == parent.word + [child.letter] && child.word !in trie && child.parent == parent
    requires forall c :: child.word + [c] !in trie
    ensures NodeAt(trie[child.word := child], child.word, child, [])
  {
  }

  ghost predicate Linked(trie: Nodes, nodes: set<TrieNode>)
    reads nodes`kids
  {
    [] in trie && forall w :: w in trie ==> trie[w] in nodes && NodeAt(trie, w, trie[w], trie[w].kids)
  }

  // Every node is the one for its own word.
  ghost predicate Owns(trie: Nodes, n: TrieNode) {
    n.word in trie && trie[n.word] == n
  }

  lemma LinkedNode(trie: Nodes, nodes: set<TrieNode>, w: Word)
    requires Linked(trie, nodes) && w in trie
    ensures Owns(trie, trie[w]) && trie[w].word == w && trie[w] in nodes
    ensures w == [] ==> trie[w].parent == null
    ensures w != [] ==> w[..|w| - 1] in trie && trie[w].parent == trie[w[..|w| - 1]] && trie[w].letter == w[|w| - 1]
  {
    assert NodeAt(trie, w, trie[w], trie[w].kids);
  }

  lemma LinkedKid(trie: Nodes, nodes: set<TrieNode>, n: TrieNode, i: nat)
    requires Linked(trie, nodes) && Owns(trie, n) && i < |n.kids|
    ensures Owns(trie, n.kids[i]) && n.kids[i].word == n.word + [n.kids[i].letter]
  {
    assert NodeAt(trie, n.word, n, n.kids);
    assert KidAt(trie, n.word, n.kids[i]);
    LinkedNode(trie, nodes, n.word + [n.kids[i].letter]);
  }

  // Below a word that is not in the trie there is nothing.
  lemma NothingBelow(trie: Nodes, nodes: set<TrieNode>, w: Word)
    requires Linked(trie, nodes) && w !in trie
    ensures forall c :: w + [c] !in trie
  {
    hide Linked;
    forall c ensures w + [c] !in trie {
      if w + [c] in trie {
        assert (w + [c])[..|w|] == w;
        LinkedNode(trie, nodes, w + [c]);
      }
    }
  }

  /** The child of a node for a letter, among the children in a row. */
  method ChildForCode(ghost trie: Nodes, ghost nodes: set<TrieNode>, parentNode: TrieNode, ucsCode: int) returns (r: TrieNode?)
    requires Linked(trie, nodes) && Owns(trie, parentNode)
    ensures r == if parentNode.word + [ucsCode] in trie then trie[parentNode.word + [ucsCode]] else null
  {
    hide Linked;
    LinkedNode(trie, nodes, parentNode.word);
    var i := 0;
    while i < |parentNode.kids|
      invariant i <= |parentNode.kids|
      invariant forall j :: 0 <= j < i ==> parentNode.kids[j].letter != ucsCode
    {
      var node := parentNode.kids[i];
      if node.letter == ucsCode {
        LinkedKid(trie, nodes, parentNode, i);
        return node;
      }
      i := i + 1;
    }
    if parentNode.word + [ucsCode] in trie {
      KidFor(trie, nodes, parentNode, ucsCode);
    }
    return null;
  }

  // ---------- the links of a prepared matcher ----------

  ghost predicate FailRight(trie: Nodes, n: TrieNode, w: Word)
    requires [] in trie
    reads n`fail
  {
    n.fail == if w == [] then trie[[]] else trie[FailWord(trie.Keys, w)]
  }

  ghost predicate FailsBelow(trie: Nodes, nodes: set<TrieNode>, level: nat)
    requires [] in trie
    reads nodes`fail
  {
    forall w :: w in trie && |w| < level ==> trie[w] in nodes && FailRight(trie, trie[w], w)
  }

  ghost predicate Fails(trie: Nodes, nodes: set<TrieNode>)
    requires [] in trie
    reads nodes`fail
  {
    forall w :: w in trie ==> trie[w] in nodes && FailRight(trie, trie[w], w)
  }

  lemma FailBelow(trie: Nodes, nodes: set<TrieNode>, level: nat, w: Word)
    requires [] in trie && FailsBelow(trie, nodes, level) && w in trie && |w| < level
    ensures trie[w] in nodes && FailRight(trie, trie[w], w)
  {
  }

  // The nodes in a list are of one level of the trie.
  ghost predicate OnLevel(trie: Nodes, arr: seq<TrieNode>, level: nat) {
    forall i :: 0 <= i < |arr| ==> Owns(trie, arr[i]) && |arr[i].word| == level
  }

  // Every node of the level is in the list or has its fail link.
  ghost predicate LevelPending(trie: Nodes, nodes: set<TrieNode>, arr: seq<TrieNode>, level: nat)
    requires [] in trie
    reads nodes`fail
  {
    forall w :: w in trie && |w| == level ==> trie[w] in nodes && (trie[w] in arr || FailRight(trie, trie[w], w))
  }

  // Every node of the next level is in one list or its parent is in the other.
  ghost predicate ChildrenPending(trie: Nodes, arr: seq<TrieNode>, arr2: seq<TrieNode>, level: nat) {
    forall w :: w in trie && |w| == level + 1 ==>
      trie[w] in arr2 || (w[..level] in trie && trie[w[..level]] in arr)
  }

  lemma KidsOnLevel(trie: Nodes, nodes: set<TrieNode>, n: TrieNode, level: nat)
    requires Linked(trie, nodes) && Owns(trie, n) && n in nodes && |n.word| == level
    ensures OnLevel(trie, n.kids, level + 1)
    ensures forall w :: w in trie && |w| == level + 1 && w[..level] == n.word ==> trie[w] in n.kids
  {
    forall i | 0 <= i < |n.kids| ensures Owns(trie, n.kids[i]) && |n.kids[i].word| == level + 1 {
      LinkedKid(trie, nodes, n, i);
    }
    forall w | w in trie && |w| == level + 1 && w[..level] == n.word ensures trie[w] in n.kids {
      assert NodeAt(trie, n.word, n, n.kids);
      assert w == n.word + [w[level]];
      assert KidListed(trie, n.kids, n.word, w[level]);
    }
  }

  lemma PopOnLevel(trie: Nodes, arr: seq<TrieNode>, level: nat)
    requires OnLevel(trie, arr, level) && arr != []
    ensures OnLevel(trie, arr[..|arr| - 1], level) && Owns(trie, arr[|arr| - 1]) && |arr[|arr| - 1].word| == level
  {
  }

  lemma PushOnLevel(trie: Nodes, nodes: set<TrieNode>, n: TrieNode, arr: seq<TrieNode>, level: nat)
    requires Linked(trie, nodes) && Owns(trie, n) && n in nodes && |n.word| == level && OnLevel(trie, arr, level + 1)
    ensures OnLevel(trie, arr + n.kids, level + 1)
  {
    hide Linked;
    KidsOnLevel(trie, nodes, n, level);
  }

  /** Replacing a node by its children keeps track of all children. */
  lemma MoveChildren(trie: Nodes, nodes: set<TrieNode>, arr: seq<TrieNode>, arr2: seq<TrieNode>, level: nat)
    requires Linked(trie, nodes) && arr != [] && OnLevel(trie, arr, level) && arr[|arr| - 1] in nodes
    requires ChildrenPending(trie, arr, arr2, level)
    ensures ChildrenPending(trie, arr[..|arr| - 1], arr2 + arr[|arr| - 1].kids, level)
  {
    hide Linked;
    var n := arr[|arr| - 1];
    KidsOnLevel(trie, nodes, n, level);
    forall w | w in trie && |w| == level + 1
      ensures trie[w] in arr2 + n.kids || (w[..level] in trie && trie[w[..level]] in arr[..|arr| - 1])
    {
      if trie[w] !in arr2 && trie[w[..level]] !in arr[..|arr| - 1] {
        assert trie[w[..level]] == n;
        LinkedNode(trie, nodes, w[..level]);
      }
    }
  }

  lemma RootFails(trie: Nodes, root: TrieNode)
    requires [] in trie && trie[[]] == root && root.fail == root
    ensures FailRight(trie, root, [])
  {
  }

  lemma LevelOne(trie: Nodes, nodes: set<TrieNode>, root: TrieNode)
    requires Linked(trie, nodes) && [] in trie && trie[[]] == root && FailRight(trie, root, [])
    ensures FailsBelow(trie, nodes, 1) && OnLevel(trie, root.kids, 1)
    ensures forall w :: w in trie && |w| == 1 ==> trie[w] in nodes && trie[w] in root.kids
  {
    hide Linked, FailRight;
    LinkedNode(trie, nodes, []);
    KidsOnLevel(trie, nodes, root, 0);
    forall w | w in trie && |w| == 1 ensures trie[w] in nodes && trie[w] in root.kids {
      LinkedNode(trie, nodes, w);
      assert w[..0] == [];
    }
  }

  lemma LevelStarts(trie: Nodes, nodes: set<TrieNode>, arr: seq<TrieNode>, level: nat)
    requires Linked(trie, nodes) && [] in trie
    requires forall w :: w in trie && |w| == level ==> trie[w] in nodes && trie[w] in arr
    ensures LevelPending(trie, nodes, arr, level) && ChildrenPending(trie, arr, [], level)
  {
    hide Linked, FailRight;
    forall w | w in trie && |w| == level + 1 ensures w[..level] in trie && trie[w[..level]] in arr {
      LinkedNode(trie, nodes, w);
    }
  }

  lemma LevelEnds(trie: Nodes, nodes: set<TrieNode>, arr2: seq<TrieNode>, level: nat)
    requires Linked(trie, nodes) && ChildrenPending(trie, [], arr2, level)
    ensures forall w :: w in trie && |w| == level + 1 ==> trie[w] in nodes && trie[w] in arr2
  {
    hide Linked;
    forall w | w in trie && |w| == level + 1 ensures trie[w] in nodes && trie[w] in arr2 {
      LinkedNode(trie, nodes, w);
    }
  }

  lemma {:induction false} NoneBeyond(trie: Nodes, nodes: set<TrieNode>, level: nat, w: Word)
    requires Linked(trie, nodes) && w in trie && forall v :: v in trie ==> |v| != level
    ensures |w| < level
    decreases |w|
  {
    hide Linked;
    LinkedNode(trie, nodes, w);
    if w != [] {
      NoneBeyond(trie, nodes, level, w[..|w| - 1]);
    } else {
      assert |w| != level;
    }
  }

  lemma {:induction false} LinkedPrefix(trie: Nodes, nodes: set<TrieNode>, w: Word, n: nat)
    requires Linked(trie, nodes) && w in trie && n <= |w|
    ensures w[..n] in trie
    decreases |w|
  {
    hide Linked;
    if n < |w| {
      LinkedNode(trie, nodes, w);
      LinkedPrefix(trie, nodes, w[..|w| - 1], n);
      assert w[..|w| - 1][..n] == w[..n];
    } else {
      assert w[..n] == w;
    }
  }

  /** The way from a node to one below it leads through one of its children. */
  lemma ThroughKid(trie: Nodes, nodes: set<TrieNode>, n: TrieNode, w: Word)
    requires Linked(trie, nodes) && Owns(trie, n) && n in nodes && w in trie && n.word < w
    ensures w[..|n.word| + 1] in trie && trie[w[..|n.word| + 1]] in n.kids
    ensures trie[w[..|n.word| + 1]].word == w[..|n.word| + 1] && trie[w] in nodes && trie[w].word == w
  {
    var u := w[..|n.word| + 1];
    LinkedPrefix(trie, nodes, w, |n.word| + 1);
    LinkedNode(trie, nodes, u);
    LinkedNode(trie, nodes, w);
    assert NodeAt(trie, n.word, n, n.kids);
    assert u == n.word + [w[|n.word|]];
    assert KidListed(trie, n.kids, n.word, w[|n.word|]);
  }

  lemma DistinctKids(trie: Nodes, nodes: set<TrieNode>, n: TrieNode, i: nat)
    requires Linked(trie, nodes) && Owns(trie, n) && n in nodes && i < |n.kids|
    ensures n.kids[i] !in n.kids[..i]
    ensures Owns(trie, n.kids[i]) && n.kids[i] in nodes && n.kids[i].word == n.word + [n.kids[i].letter]
  {
    LinkedKid(trie, nodes, n, i);
    LinkedNode(trie, nodes, n.kids[i].word);
    assert NodeAt(trie, n.word, n, n.kids);
  }

  ghost predicate MatchRight(trie: Nodes, dict: set<Word>, n: TrieNode, w: Word)
    requires [] in trie
    reads n`oMatch
  {
    n.oMatch != null <==> HasOtherMatch(trie.Keys, dict, w)
  }

  ghost predicate Lasts(trie: Nodes, nodes: set<TrieNode>, dict: set<Word>)
    reads nodes`isLast
  {
    forall w :: w in trie ==> trie[w] in nodes && (trie[w].isLast <==> w in dict)
  }

  lemma LastAt(trie: Nodes, nodes: set<TrieNode>, dict: set<Word>, w: Word)
    requires Lasts(trie, nodes, dict) && w in trie
    ensures trie[w] in nodes && (trie[w].isLast <==> w in dict)
  {
  }

  /** Fail links lead to shorter words. */
  lemma FailTo(trie: Nodes, nodes: set<TrieNode>, n: TrieNode)
    requires Linked(trie, nodes) && [] in trie && Fails(trie, nodes) && Owns(trie, n) && n.word != []
    ensures n in nodes && n.fail != null && n.fail in nodes && Owns(trie, n.fail)
    ensures n.fail.word == FailWord(trie.Keys, n.word) && |n.fail.word| < |n.word|
  {
    hide Linked;
    assert FailRight(trie, n, n.word);
    LinkedNode(trie, nodes, FailWord(trie.Keys, n.word));
  }

  lemma RootMatch(trie: Nodes, dict: set<Word>, root: TrieNode)
    requires [] in trie && root.oMatch == null
    ensures MatchRight(trie, dict, root, [])
  {
  }

  lemma MatchAt(trie: Nodes, nodes: set<TrieNode>, dict: set<Word>, w: Word)
    requires [] in trie && Matches(trie, nodes, dict) && w in trie
    ensures trie[w] in nodes && (trie[w].oMatch != null <==> HasOtherMatch(trie.Keys, dict, w))
  {
  }

  lemma TreeAt(trie: Nodes, nodes: set<TrieNode>, w: Word)
    requires Trees(trie, nodes) && w in trie
    ensures trie[w] in nodes && TreeRight(trie, trie[w], w)
  {
  }

  lemma RootNoPattern(T: set<Word>, S: set<Word>)
    requires TrieOf(T, S)
    ensures [] !in S && !HasOtherMatch(T, S, [])
  {
  }

  lemma OtherMatchStep(T: set<Word>, S: set<Word>, w: Word)
    requires [] in T && w != []
    ensures var f := FailWord(T, w); HasOtherMatch(T, S, w) <==> f != [] && (f in S || HasOtherMatch(T, S, f))
  {
  }

  // w is at or below one of the nodes.
  ghost predicate Under(kids: seq<TrieNode>, w: Word) {
    exists i :: 0 <= i < |kids| && kids[i].word <= w
  }

  // Below a node is what is under its children.
  ghost predicate UnderKids(trie: Nodes, kids: seq<TrieNode>, u: Word, w: Word) {
    && (u < w <==> Under(kids, w)) && !Under(kids[..0], w)
    && (w in trie && trie[w] in kids ==> u < w)
  }

  lemma UnderSplit(trie: Nodes, nodes: set<TrieNode>, n: TrieNode, w: Word)
    requires Linked(trie, nodes) && Owns(trie, n) && n in nodes && w in trie
    ensures UnderKids(trie, n.kids, n.word, w)
  {
    hide Linked;
    LinkedNode(trie, nodes, w);
    if n.word < w {
      ThroughKid(trie, nodes, n, w);
    }
    forall i | 0 <= i < |n.kids| ensures n.word < n.kids[i].word {
      LinkedKid(trie, nodes, n, i);
    }
  }

  // What a pass over child j adds to what is under the children before it.
  ghost predicate UnderStep(trie: Nodes, kids: seq<TrieNode>, j: nat, leaf: bool, u: Word, w: Word)
    requires j < |kids| && w in trie
  {
    && (Under(kids[..j + 1], w) <==> Under(kids[..j], w) || kids[j].word <= w)
    && (kids[j].word <= w ==> u < w && !Under(kids[..j], w))
    && (kids[j].word < w ==> trie[w] !in kids && !leaf)
    && (kids[j].word == w ==> trie[w] in kids)
  }

  lemma UnderNext(trie: Nodes, nodes: set<TrieNode>, n: TrieNode, j: nat, w: Word)
    requires Linked(trie, nodes) && Owns(trie, n) && n in nodes && w in trie && j < |n.kids|
    ensures UnderStep(trie, n.kids, j, n.kids[j].kids == [], n.word, w)
  {
    hide Linked;
    var kids, kid := n.kids, n.kids[j];
    LinkedNode(trie, nodes, w);
    DistinctKids(trie, nodes, n, j);
    forall i | 0 <= i < |kids| ensures Owns(trie, kids[i]) && |kids[i].word| == |n.word| + 1 && n.word < kids[i].word {
      LinkedKid(trie, nodes, n, i);
    }
    assert forall i :: 0 <= i < j ==> kids[i] != kid by {
      assert forall i :: 0 <= i < j ==> kids[i] == kids[..j][i];
    }
    if kid.word <= w {
      forall i | 0 <= i < j ensures !(kids[i].word <= w) {
        if kids[i].word <= w {
          SamePrefix(kids[i].word, kid.word, w);
        }
      }
      if kid.word < w {
        ThroughKid(trie, nodes, kid, w);
      }
    }
    UnderOneMore(kids, j, w);
  }

  lemma SamePrefix(u: Word, v: Word, w: Word)
    requires u <= w && v <= w && |u| == |v|
    ensures u == v
  {
    assert u == w[..|u|] == v;
  }

  lemma UnderOneMore(kids: seq<TrieNode>, j: nat, w: Word)
    requires j < |kids|
    ensures Under(kids[..j + 1], w) <==> Under(kids[..j], w) || kids[j].word <= w
  {
    if kids[j].word <= w {
      assert kids[..j + 1][j].word <= w;
    }
    if Under(kids[..j], w) {
      var i :| 0 <= i < j && kids[..j][i].word <= w;
      assert kids[..j + 1][i].word <= w;
    }
    if Under(kids[..j + 1], w) {
      var i :| 0 <= i < j + 1 && kids[..j + 1][i].word <= w;
      assert i < j ==> kids[..j][i].word <= w;
    }
  }

  function ChildOf(trie: Nodes, w: Word, c: int): Option<TrieNode> {
    if w + [c] in trie then Some(trie[w + [c]]) else None
  }

  // The search tree of the node n finds its children.
  ghost predicate TreeRight(trie: Nodes, n: TrieNode, w: Word)
    reads n`btree
  {
    forall c :: SearchTrees.Lookup(n.btree, c) == ChildOf(trie, w, c)
  }

  function Entries(kids: seq<TrieNode>): seq<SearchTrees.Entry<TrieNode>> {
    seq(|kids|, i requires 0 <= i < |kids| => SearchTrees.Entry(kids[i].letter, kids[i]))
  }

  /** A linear search of the children finds the child in the trie. */
  lemma KidsLinear(trie: Nodes, nodes: set<TrieNode>, n: TrieNode, c: int)
    requires Linked(trie, nodes) && Owns(trie, n) && n in nodes
    ensures SearchTrees.Distinct(Entries(n.kids))
    ensures SearchTrees.Linear(Entries(n.kids), c) == ChildOf(trie, n.word, c)
  {
    var entries := Entries(n.kids);
    assert NodeAt(trie, n.word, n, n.kids);
    hide Linked, NodeAt;
    if n.word + [c] in trie {
      KidFor(trie, nodes, n, c);
      var i :| 0 <= i < |n.kids| && n.kids[i] == trie[n.word + [c]];
      assert entries[i].letter == c;
      SearchTrees.LinearFinds(entries, i);
    } else {
      forall i | 0 <= i < |entries| ensures entries[i].letter != c {
        LinkedKid(trie, nodes, n, i);
      }
      SearchTrees.LinearFindsOnly(entries, c);
    }
  }

  lemma KidFor(trie: Nodes, nodes: set<TrieNode>, n: TrieNode, c: int)
    requires Linked(trie, nodes) && Owns(trie, n) && n in nodes && n.word + [c] in trie
    ensures trie[n.word + [c]] in n.kids && trie[n.word + [c]].letter == c
  {
    assert NodeAt(trie, n.word, n, n.kids);
    assert KidListed(trie, n.kids, n.word, c);
    LinkedNode(trie, nodes, n.word + [c]);
  }

  lemma LeafTree(trie: Nodes, nodes: set<TrieNode>, n: TrieNode)
    requires Linked(trie, nodes) && Owns(trie, n) && n in nodes && n.kids == [] && n.btree == SearchTrees.Nil
    ensures TreeRight(trie, n, n.word)
  {
    hide Linked;
    forall c ensures SearchTrees.Lookup(n.btree, c) == ChildOf(trie, n.word, c) {
      if n.word + [c] in trie {
        KidFor(trie, nodes, n, c);
      }
    }
  }

  ghost predicate Matches(trie: Nodes, nodes: set<TrieNode>, dict: set<Word>)
    requires [] in trie
    reads nodes`oMatch
  {
    forall w :: w in trie ==> trie[w] in nodes && MatchRight(trie, dict, trie[w], w)
  }

  ghost predicate Trees(trie: Nodes, nodes: set<TrieNode>)
    reads nodes`btree
  {
    forall w :: w in trie ==> trie[w] in nodes && TreeRight(trie, trie[w], w)
  }

  // No search structure has been built yet.
  ghost predicate Blank(trie: Nodes, nodes: set<TrieNode>)
    reads nodes`oMatch, nodes`btree
  {
    NoTrees(trie, nodes) && forall w :: w in trie ==> trie[w] in nodes && trie[w].oMatch == null
  }

  ghost predicate NoTrees(trie: Nodes, nodes: set<TrieNode>)
    reads nodes`btree
  {
    forall w :: w in trie ==> trie[w] in nodes && trie[w].btree == SearchTrees.Nil
  }

  // A word that begins a pattern, or the new pattern p.
  ghost predicate BeginsOr(S: set<Word>, p: Word, w: Word) {
    Begins(S, w) || w <= p
  }

  // The words of a trie while the letters of a new pattern are being added.
  ghost predicate Growing(T: set<Word>, S: set<Word>, p: Word) {
    && [] in T && [] !in S && S <= T
    && (forall w {:trigger ParentIn(T, w)} :: w in T ==> ParentIn(T, w))
    && (forall w {:trigger BeginsOr(S, p, w)} :: w in T && w != [] ==> BeginsOr(S, p, w))
  }

  lemma Grows(T: set<Word>, S: set<Word>, p: Word, i: nat)
    requires Growing(T, S, p) && i < |p| && p[..i] in T
    ensures Growing(T + {p[..i + 1]}, S, p)
  {
    var T' := T + {p[..i + 1]};
    assert p[..i + 1][..i] == p[..i];
    forall w | w in T' ensures ParentIn(T', w) {
      if w in T { assert ParentIn(T, w); }
    }
    forall w | w in T' && w != [] ensures BeginsOr(S, p, w) {
      if w in T { assert BeginsOr(S, p, w); }
    }
  }

  lemma StartsGrowing(T: set<Word>, S: set<Word>, p: Word)
    requires TrieOf(T, S)
    ensures Growing(T, S, p)
  {
    forall w | w in T && w != [] ensures BeginsOr(S, p, w) {
      assert Begins(S, w);
    }
  }

  lemma Grown(T: set<Word>, S: set<Word>, p: Word)
    requires Growing(T, S, p) && p in T
    ensures TrieOf(T, if p == [] then S else S + {p})
  {
    var S' := if p == [] then S else S + {p};
    forall w | w in T && w != [] ensures Begins(S', w) {
      assert BeginsOr(S, p, w);
      if Begins(S, w) {
        var q :| q in S && w <= q;
        assert q in S';
      } else {
        assert p in S' && w <= p;
      }
    }
  }

  class Matcher {
    const caseSensitive: bool
    const root: TrieNode
    var isActive: bool
    var isFailtreeDone: bool
    var dictCount: nat
    var longestEntry: nat
    ghost var trie: Nodes
    ghost var nodes: set<TrieNode>
    ghost var dict: set<Word>

    /** The nodes are a trie of the patterns added. */
    ghost predicate Shape()
      reads this, nodes`kids, nodes`isLast
    {
      && Linked(trie, nodes) && [] in trie && trie[[]] == root && TrieOf(trie.Keys, dict)
      && Lasts(trie, nodes, dict)
      && (forall w :: w in trie ==> |w| <= longestEntry)
    }

    // All links and search trees are in place.
    ghost predicate Ready()
      requires [] in trie
      reads this, nodes
    {
      Fails(trie, nodes) && Matches(trie, nodes, dict) && Trees(trie, nodes)
    }

    ghost predicate Valid()
      reads this, nodes
    {
      && Shape() && (isActive <==> isFailtreeDone)
      && (isActive ==> Ready()) && (!isActive ==> Blank(trie, nodes))
    }

    constructor (caseSensitive: bool)
      ensures Valid() && this.caseSensitive == caseSensitive && dict == {} && trie.Keys == {[]}
      ensures !isActive && !isFailtreeDone && fresh(root) && trie == map[[] := root] && nodes == {root}
      ensures root.oMatch == null && root.btree == SearchTrees.Nil
    {
      this.caseSensitive := caseSensitive;
      root := new TrieNode(0, null, []);
      isActive, isFailtreeDone, dictCount, longestEntry := false, false, 0, 0;
      new;
      dict := {};
      trie, nodes := map[[] := root], {root};
      assert NodeAt(trie, [], root, []);
    }

    // ---------- adding patterns ----------

    /** The child of parent for the letter, new if there was none. */
    method Child(parent: TrieNode, letter: int) returns (child: TrieNode)
      requires Linked(trie, nodes) && Owns(trie, parent)
      modifies this`trie, this`nodes, parent`kids
      ensures Linked(trie, nodes) && child.word == parent.word + [letter] && Owns(trie, child)
      ensures trie == old(trie)[child.word := child]
      ensures child.word in old(trie) ==> trie == old(trie) && nodes == old(nodes)
      ensures nodes == old(nodes) + {child}
      ensures child.word !in old(trie) ==>
        fresh(child) && !child.isLast && child.oMatch == null && child.btree == SearchTrees.Nil
    {
      hide NodeAt;
      var found := ChildForCode(trie, nodes, parent, letter);
      if found != null {
        LinkedNode(trie, nodes, parent.word + [letter]);
        return found;
      }
      NothingBelow(trie, nodes, parent.word + [letter]);
      forall w | w in trie ensures trie[w].word == w {
        LinkedNode(trie, nodes, w);
      }
      child := new TrieNode(letter, parent, parent.word + [letter]);
      parent.kids := parent.kids + [child];
      ghost var before := trie;
      trie, nodes := trie[child.word := child], nodes + {child};
      forall w | w in trie ensures NodeAt(trie, w, trie[w], trie[w].kids) {
        if w == child.word {
          NewChild(before, parent, child);
        } else {
          ChildAdded(before, w, before[w], old(before[w].kids), parent, child);
        }
      }
    }

    // The first i letters of the new pattern p have been added, down to the node n.
    ghost predicate Adding(p: Word, i: nat, n: TrieNode, lasts: set<Word>)
      requires i <= |p|
      reads this, nodes
    {
      && Linked(trie, nodes) && [] in trie && trie[[]] == root && Blank(trie, nodes) && Growing(trie.Keys, dict, p)
      && n.word == p[..i] && Owns(trie, n)
      && (forall w :: w in trie ==> trie[w] in nodes && (trie[w].isLast <==> w in lasts))
      && (forall w :: w in trie ==> |w| <= longestEntry || |w| <= i)
    }

    method AddLetter(parent: TrieNode, letter: int, ghost p: Word, ghost i: nat) returns (child: TrieNode)
      requires i < |p| && letter == p[i] && Adding(p, i, parent, dict)
      modifies this`trie, this`nodes, parent`kids
      ensures Adding(p, i + 1, child, dict)
      ensures forall n :: n in nodes ==> n in old(nodes) || fresh(n)
    {
      hide Linked, FailWord;
      ghost var before := trie;
      assert p[..i] + [letter] == p[..i + 1];
      Grows(trie.Keys, dict, p, i);
      assert dict <= trie.Keys;
      hide Growing;
      child := Child(parent, letter);
      assert trie.Keys == old(trie.Keys) + {p[..i + 1]};
      forall w | w in trie
        ensures trie[w] == child || (w in before && trie[w] == before[w])
        ensures trie[w].oMatch == null && trie[w].btree == SearchTrees.Nil
        ensures trie[w].isLast <==> w in dict
      {
      }
    }

    method MarkLast(child: TrieNode, ghost p: Word)
      requires Adding(p, |p|, child, dict)
      modifies this`dictCount, child`isLast
      ensures Adding(p, |p|, child, dict + {p})
    {
      hide Growing, Linked, TrieOf, Blank;
      assert p[..|p|] == p;
      forall w | w in trie ensures trie[w].word == w && trie[w] in nodes {
        LinkedNode(trie, nodes, w);
      }
      if !child.isLast {
        dictCount := dictCount + 1;
        child.isLast := true;
      }
    }

    method AddLetters(pattern: seq<Byte>, ghost p: Word) returns (parent: TrieNode)
      requires Shape() && Blank(trie, nodes) && p == PatternWord(pattern, caseSensitive)
      modifies this`trie, this`nodes, this`dictCount, nodes
      ensures Adding(p, |p|, parent, if p == [] then dict else dict + {p})
      ensures forall n :: n in nodes ==> n in old(nodes) || fresh(n)
    {
      hide Growing, Linked, TrieOf, NoTrees;
      var length := |pattern|;
      parent := root;
      var i := 0;
      LinkedNode(trie, nodes, []);
      assert p[..0] == [];
      StartsGrowing(trie.Keys, dict, p);
      while i < length
        invariant i <= length && Adding(p, i, parent, if p != [] && i == length then dict + {p} else dict)
        invariant forall n :: n in nodes ==> n in old(nodes) || fresh(n)
      {
        parent := AddLetter(parent, PatternLetter(pattern[i], caseSensitive), p, i);
        if i == length - 1 {
          MarkLast(parent, p);
        }
        i := i + 1;
      }
    }

    method AddPattern(pattern: seq<Byte>, len: nat) returns (ok: bool)
      requires Valid() && len <= |pattern|
      modifies this, nodes
      ensures Valid() && isActive == old(isActive)
      ensures ok == !old(isActive)
      ensures !ok ==> dict == old(dict) && trie == old(trie)
      ensures ok ==> var w := PatternWord(if len == 0 then pattern else pattern[..len], caseSensitive);
                     dict == if w == [] then old(dict) else old(dict) + {w}
      ensures forall n :: n in nodes ==> n in old(nodes) || fresh(n)
    {
      hide Growing, Linked, TrieOf, Blank, PatternWord, Ready;
      if isActive {
        return false;
      }
      var length := if len == 0 then |pattern| else len;
      ghost var p := PatternWord(pattern[..length], caseSensitive);
      assert len == 0 ==> pattern[..length] == pattern;
      var parent := AddLetters(pattern[..length], p);
      if length > longestEntry {
        longestEntry := length;
      }
      isFailtreeDone := false;
      assert p[..length] == p;
      Grown(trie.Keys, dict, p);
      if length > 0 {
        dict := dict + {p};
      }
      assert forall w :: w in trie ==> trie[w] in nodes && (trie[w].isLast <==> w in dict);
      ok := true;
    }

    // ---------- fail links ----------

    method ConnectFail(node: TrieNode)
      requires Linked(trie, nodes) && [] in trie && trie[[]] == root && Owns(trie, node) && node in nodes && node.word != []
      requires FailsBelow(trie, nodes, |node.word|)
      modifies node`fail
      ensures FailRight(trie, node, node.word)
    {
      hide Linked, FailsBelow, FailWord;
      ghost var w := node.word;
      ghost var up := w[..|w| - 1];
      LinkedNode(trie, nodes, []);
      LinkedNode(trie, nodes, w);
      LinkedNode(trie, nodes, up);
      FailBelow(trie, nodes, |w|, up);
      FailStep(trie.Keys, w);
      node.fail := root;
      if node.parent != root {
        LinkedNode(trie, nodes, FailWord(trie.Keys, up));
        var gotoNode := ChildForCode(trie, nodes, node.parent.fail, node.letter);
        node.fail := if gotoNode != null then gotoNode else root;
      }
    }

    /** One level of the trie: each node is popped, connected, and its children put on the other list. */
    method ConnectLevel(arr: seq<TrieNode>, ghost level: nat) returns (arr2: seq<TrieNode>)
      requires Linked(trie, nodes) && [] in trie && trie[[]] == root && level > 0
      requires OnLevel(trie, arr, level) && FailsBelow(trie, nodes, level)
      requires LevelPending(trie, nodes, arr, level) && ChildrenPending(trie, arr, [], level)
      modifies nodes`fail
      ensures FailsBelow(trie, nodes, level + 1)
      ensures OnLevel(trie, arr2, level + 1) && ChildrenPending(trie, [], arr2, level)
    {
      hide Linked, ChildrenPending, FailRight;
      var rest := arr;
      arr2 := [];
      while rest != []
        invariant OnLevel(trie, rest, level) && OnLevel(trie, arr2, level + 1)
        invariant FailsBelow(trie, nodes, level)
        invariant LevelPending(trie, nodes, rest, level) && ChildrenPending(trie, rest, arr2, level)
        decreases |rest|
      {
        var node := rest[|rest| - 1];
        PopOnLevel(trie, rest, level);
        LinkedNode(trie, nodes, node.word);
        ConnectFail(node);
        forall w | w in trie ensures trie[w] in nodes && trie[w].word == w {
          LinkedNode(trie, nodes, w);
        }
        PushOnLevel(trie, nodes, node, arr2, level);
        MoveChildren(trie, nodes, rest, arr2, level);
        assert forall n :: n in rest ==> n == node || n in rest[..|rest| - 1];
        rest := rest[..|rest| - 1];
        arr2 := arr2 + node.kids;
      }
    }

    /** The children of the root fail to the root; then level after level. */
    method ConnectFailBranches()
      requires Linked(trie, nodes) && [] in trie && trie[[]] == root
      requires forall w :: w in trie ==> |w| <= longestEntry
      modifies nodes`fail
      ensures Fails(trie, nodes)
    {
      hide Linked, FailRight, ChildrenPending;
      LinkedNode(trie, nodes, []);
      root.fail := root;
      var arr := [];
      var i := 0;
      while i < |root.kids|
        invariant i <= |root.kids| && arr == root.kids[..i] && root.fail == root
      {
        LinkedKid(trie, nodes, root, i);
        LinkedNode(trie, nodes, root.kids[i].word);
        root.kids[i].fail := root;
        arr := arr + [root.kids[i]];
        i := i + 1;
      }
      assert arr == root.kids;
      ghost var level := 1;
      RootFails(trie, root);
      LevelOne(trie, nodes, root);
      while arr != []
        invariant 1 <= level <= longestEntry + 1
        invariant OnLevel(trie, arr, level) && FailsBelow(trie, nodes, level)
        invariant forall w :: w in trie && |w| == level ==> trie[w] in nodes && trie[w] in arr
        decreases longestEntry + 1 - level
      {
        assert |arr[0].word| == level;
        LevelStarts(trie, nodes, arr, level);
        arr := ConnectLevel(arr, level);
        LevelEnds(trie, nodes, arr, level);
        level := level + 1;
      }
      forall w | w in trie ensures |w| < level {
        NoneBeyond(trie, nodes, level, w);
      }
    }

    // ---------- other matches ----------

    /** The first pattern on the way of fail links from the child. */
    method OtherMatch(child: TrieNode)
      requires Linked(trie, nodes) && [] in trie && trie[[]] == root && Fails(trie, nodes) && Lasts(trie, nodes, dict)
      requires Owns(trie, child) && child in nodes && child.word != [] && child.oMatch == null
      modifies child`oMatch
      ensures MatchRight(trie, dict, child, child.word)
    {
      hide Linked, Fails, FailWord, HasOtherMatch, Lasts;
      LinkedNode(trie, nodes, []);
      FailTo(trie, nodes, child);
      OtherMatchStep(trie.Keys, dict, child.word);
      var om := child.fail;
      while om != root
        invariant om != null && Owns(trie, om) && om in nodes && child.oMatch == null
        invariant HasOtherMatch(trie.Keys, dict, child.word) <==>
                  om.word != [] && (om.word in dict || HasOtherMatch(trie.Keys, dict, om.word))
        decreases |om.word|
      {
        LastAt(trie, nodes, dict, om.word);
        if om.isLast {
          child.oMatch := om;
          return;
        }
        FailTo(trie, nodes, om);
        OtherMatchStep(trie.Keys, dict, om.word);
        om := om.fail;
      }
    }

    // What the two recursive passes need of the trie and its links.
    ghost predicate Connected()
      reads this, nodes`kids, nodes`isLast, nodes`fail
    {
      && Linked(trie, nodes) && [] in trie && trie[[]] == root && Fails(trie, nodes) && Lasts(trie, nodes, dict)
      && forall w :: w in trie ==> |w| <= longestEntry
    }

    method ChildMatches(node: TrieNode)
      requires Connected() && Owns(trie, node) && node in nodes
      requires forall w :: w in trie && node.word < w ==> trie[w] in nodes && trie[w].oMatch == null
      modifies nodes`oMatch
      ensures forall w :: w in trie ==> trie[w] in nodes
      ensures forall w :: w in trie && trie[w] in node.kids ==> MatchRight(trie, dict, trie[w], w)
      ensures forall w :: w in trie && trie[w] !in node.kids ==> trie[w].oMatch == old(trie[w].oMatch)
    {
      hide Linked, Fails, Lasts, MatchRight;
      forall w | w in trie ensures trie[w] in nodes && trie[w].word == w {
        LinkedNode(trie, nodes, w);
      }
      var i := 0;
      while i < |node.kids|
        invariant i <= |node.kids|
        invariant forall w :: w in trie && trie[w] in node.kids[..i] ==> MatchRight(trie, dict, trie[w], w)
        invariant forall w :: w in trie && trie[w] !in node.kids[..i] ==> trie[w].oMatch == old(trie[w].oMatch)
      {
        DistinctKids(trie, nodes, node, i);
        var child := node.kids[i];
        assert node.word < child.word && trie[child.word].oMatch == null;
        OtherMatch(child);
        assert node.kids[..i + 1] == node.kids[..i] + [child];
        i := i + 1;
      }
      assert node.kids[..i] == node.kids;
    }

    /** All nodes below the one given get their other match. */
    method ConnectOtherMatches(node: TrieNode)
      requires Connected() && Owns(trie, node) && node in nodes
      requires forall w :: w in trie && node.word < w ==> trie[w] in nodes && trie[w].oMatch == null
      modifies nodes`oMatch
      ensures forall w :: w in trie ==> trie[w] in nodes
      ensures forall w :: w in trie && node.word < w ==> MatchRight(trie, dict, trie[w], w)
      ensures forall w :: w in trie && !(node.word < w) ==> trie[w].oMatch == old(trie[w].oMatch)
      decreases longestEntry - |node.word|
    {
      hide Linked, Fails, Lasts, MatchRight, Under;
      ghost var kids := node.kids;
      assert |node.word| <= longestEntry;
      ChildMatches(node);
      forall w | w in trie ensures UnderKids(trie, kids, node.word, w) {
        UnderSplit(trie, nodes, node, w);
      }
      var j := 0;
      while j < |node.kids|
        invariant j <= |kids|
        invariant forall w :: w in trie && (trie[w] in kids || Under(kids[..j], w)) ==> MatchRight(trie, dict, trie[w], w)
        invariant forall w :: w in trie && node.word < w && trie[w] !in kids && !Under(kids[..j], w) ==> trie[w].oMatch == null
        invariant forall w :: w in trie && !(node.word < w) ==> trie[w].oMatch == old(trie[w].oMatch)
      {
        var child := node.kids[j];
        DistinctKids(trie, nodes, node, j);
        forall w | w in trie ensures UnderStep(trie, kids, j, child.kids == [], node.word, w) {
          UnderNext(trie, nodes, node, j, w);
        }
        if child.kids != [] {
          ConnectOtherMatches(child);
        }
        j := j + 1;
      }
      assert kids[..j] == kids;
    }

    // ---------- search trees ----------

    method BuildTree(node: TrieNode)
      requires Linked(trie, nodes) && Owns(trie, node) && node in nodes && node.kids != []
      modifies node`btree
      ensures TreeRight(trie, node, node.word)
    {
      hide Linked;
      KidsLinear(trie, nodes, node, 0);
      var btree := SearchTrees.Build(Entries(node.kids));
      node.btree := btree;
      forall c ensures SearchTrees.Lookup(btree, c) == ChildOf(trie, node.word, c) {
        KidsLinear(trie, nodes, node, c);
      }
    }

    /** The node and all nodes below it get their search tree. */
    method BuildBinaryTree(node: TrieNode)
      requires Linked(trie, nodes) && Owns(trie, node) && node in nodes && node.kids != []
      requires forall w :: w in trie ==> |w| <= longestEntry
      requires forall w :: w in trie && node.word <= w ==> trie[w] in nodes && trie[w].btree == SearchTrees.Nil
      modifies nodes`btree
      ensures forall w :: w in trie ==> trie[w] in nodes
      ensures forall w :: w in trie && node.word <= w ==> TreeRight(trie, trie[w], w)
      ensures forall w :: w in trie && !(node.word <= w) ==> trie[w].btree == old(trie[w].btree)
      decreases longestEntry - |node.word|
    {
      hide Linked, TreeRight, Under;
      ghost var kids := node.kids;
      assert |node.word| <= longestEntry;
      forall w | w in trie ensures UnderKids(trie, kids, node.word, w) && trie[w] in nodes && trie[w].word == w {
        UnderSplit(trie, nodes, node, w);
        LinkedNode(trie, nodes, w);
      }
      BuildTree(node);
      var j := 0;
      while j < |node.kids|
        invariant j <= |kids|
        invariant TreeRight(trie, node, node.word)
        invariant forall w :: w in trie && Under(kids[..j], w) ==> TreeRight(trie, trie[w], w)
        invariant forall w :: w in trie && node.word < w && !Under(kids[..j], w) ==> trie[w].btree == SearchTrees.Nil
        invariant forall w :: w in trie && !(node.word <= w) ==> trie[w].btree == old(trie[w].btree)
      {
        var child := node.kids[j];
        DistinctKids(trie, nodes, node, j);
        forall w | w in trie ensures UnderStep(trie, kids, j, child.kids == [], node.word, w) {
          UnderNext(trie, nodes, node, j, w);
        }
        if child.kids != [] {
          BuildBinaryTree(child);
        } else {
          LeafTree(trie, nodes, child);
        }
        j := j + 1;
      }
      assert kids[..j] == kids;
      forall w | w in trie && node.word <= w ensures TreeRight(trie, trie[w], w) {
        if w != node.word {
          assert node.word < w;
        }
      }
    }

    // ---------- preparing and searching ----------

    method ConnectMatches()
      requires Connected() && Blank(trie, nodes)
      modifies nodes`oMatch
      ensures Matches(trie, nodes, dict)
    {
      hide Linked, Fails, Lasts, MatchRight;
      LinkedNode(trie, nodes, []);
      assert root.oMatch == null;
      ConnectOtherMatches(root);
      RootMatch(trie, dict, root);
      forall w | w in trie ensures trie[w] in nodes && MatchRight(trie, dict, trie[w], w) {
        if w != [] {
          assert root.word < w;
        }
      }
    }

    method BuildTrees()
      requires Linked(trie, nodes) && [] in trie && trie[[]] == root && NoTrees(trie, nodes)
      requires forall w :: w in trie ==> |w| <= longestEntry
      modifies nodes`btree
      ensures Trees(trie, nodes)
    {
      hide Linked, TreeRight;
      LinkedNode(trie, nodes, []);
      if root.kids != [] {
        BuildBinaryTree(root);
        forall w | w in trie ensures trie[w] in nodes && TreeRight(trie, trie[w], w) {
          assert root.word <= w;
        }
      } else {
        LeafTree(trie, nodes, root);
        forall w | w in trie ensures trie[w] in nodes && TreeRight(trie, trie[w], w) {
          if w != [] {
            assert root.word < w;
            ThroughKid(trie, nodes, root, w);
          }
        }
      }
    }

    method Prepare()
      requires Valid()
      modifies this`isActive, this`isFailtreeDone, nodes
      ensures Valid() && isActive
    {
      hide Linked, Fails, TrieOf, Lasts, Matches, Trees, FailWord, NoTrees;
      if !isFailtreeDone {
        ConnectFailBranches();
        ConnectMatches();
        BuildTrees();
        isFailtreeDone := true;
      }
      isActive := true;
    }

    /** One letter of a scan: follows fail links until a node has a child for it. */
    method Goto(start: TrieNode, letter: int) returns (node: TrieNode, hit: bool)
      requires Valid() && isActive && Owns(trie, start) && start in nodes
      ensures hit <==> Hits(trie.Keys, dict, start.word, letter)
      ensures Owns(trie, node) && node in nodes && node.word == Next(trie.Keys, start.word, letter)
    {
      hide Linked, Fails, TrieOf, Lasts, Matches, Trees, FailWord, HasOtherMatch, Next;
      LinkedNode(trie, nodes, []);
      RootNoPattern(trie.Keys, dict);
      node := start;
      var goTo: TrieNode? := null;
      while goTo == null
        invariant Owns(trie, node) && node in nodes
        invariant goTo == null ==> Next(trie.Keys, node.word, letter) == Next(trie.Keys, start.word, letter)
        invariant goTo != null ==> Owns(trie, goTo) && goTo in nodes && !goTo.isLast
                                   && goTo.word == Next(trie.Keys, start.word, letter)
        decreases goTo == null, |node.word|
      {
        TreeAt(trie, nodes, node.word);
        NextStep(trie.Keys, node.word, letter);
        var found := SearchTrees.Find(node.btree, letter);
        if found.Some? {
          goTo := found.value;
          LinkedNode(trie, nodes, node.word + [letter]);
          LastAt(trie, nodes, dict, goTo.word);
          if goTo.isLast {
            return goTo, true;
          }
        }
        if node == root {
          break;
        }
        if goTo == null {
          FailTo(trie, nodes, node);
          node := node.fail;
        }
      }
      if goTo != null {
        node := goTo;
      }
      MatchAt(trie, nodes, dict, node.word);
      LastAt(trie, nodes, dict, node.word);
      hit := node.oMatch != null;
    }
  }

  // The state of a scan, apart from the trie it uses.
  class Scanner {
    const parser: Matcher
    var ptr: TrieNode?

    ghost predicate Valid()
      reads this, parser, parser.nodes
    {
      parser.Valid() && (ptr != null ==> parser.isActive && Owns(parser.trie, ptr) && ptr in parser.nodes)
    }

    constructor (parser: Matcher)
      requires parser.Valid()
      ensures Valid() && this.parser == parser && ptr == null
    {
      this.parser := parser;
      ptr := null;
    }

    // The word of the node the scan is at.
    ghost function At(): Word
      reads this
    {
      if ptr == null then [] else ptr.word
    }

    method ProcessQuick(data: seq<Byte>) returns (r: int)
      requires Valid()
      modifies this, parser`isActive, parser`isFailtreeDone, parser.nodes
      ensures Valid() && parser.trie == old(parser.trie) && parser.dict == old(parser.dict)
      ensures var o := Scan(parser.trie.Keys, parser.dict, old(At()), DataWord(data, parser.caseSensitive));
              if o.Match? then r == 1 && At() == old(At()) else r == 0 && At() == o.node
    {
      hide Linked, Lasts, Scan, Hits, Next, TrieOf, Fails, Matches, Trees, Blank;
      ghost var T, S, start := parser.trie.Keys, parser.dict, At();
      ghost var word := DataWord(data, parser.caseSensitive);
      if !parser.isFailtreeDone {
        parser.Prepare();
      }
      LinkedNode(parser.trie, parser.nodes, []);
      if ptr == null {
        ptr := parser.root;
      }
      ScanNone(T, S, start);
      var node: TrieNode := ptr;
      var i := 0;
      assert word[..0] == [];
      while i < |data|
        invariant i <= |data| && Owns(parser.trie, node) && node in parser.nodes
        invariant Scan(T, S, start, word[..i]) == Outcome.At(node.word)
        modifies {}
      {
        var letter := DataLetter(data[i], parser.caseSensitive);
        var hit;
        ScanLetter(T, S, start, word, i);
        node, hit := parser.Goto(node, letter);
        if hit {
          return 1;
        }
        i := i + 1;
      }
      assert word[..i] == word;
      ptr := node;
      r := 0;
    }
  }

  // ---------- patterns in bytes ----------

  // The same byte, or the same ASCII letter as a capital and a small one.
  predicate SameLetter(x: Byte, y: Byte) {
    x == y || (65 <= x <= 90 && y == x + 32) || (65 <= y <= 90 && x == y + 32)
  }

  predicate EndsFolded(p: seq<Byte>, data: seq<Byte>) {
    |p| <= |data| && forall i :: 0 <= i < |p| ==> SameLetter(p[i], data[|data| - |p| + i])
  }

  /** Unless case matters, a pattern ends the data exactly when the bytes agree up to case. */
  lemma FoldedSuffix(p: seq<Byte>, data: seq<Byte>)
    ensures Suffix(PatternWord(p, false), DataWord(data, false)) <==> EndsFolded(p, data)
  {
    var d := |data| - |p|;
    if d < 0 {
    } else if Suffix(PatternWord(p, false), DataWord(data, false)) {
      forall i | 0 <= i < |p| ensures ToLower(p[i]) == ToLower(data[d + i]) {
        assert PatternWord(p, false)[i] == DataWord(data, false)[d..][i];
      }
    } else {
      assert exists i :: 0 <= i < |p| && PatternWord(p, false)[i] != DataWord(data, false)[d..][i];
    }
  }

  /** When case matters, a pattern with a byte from 128 on is never found: its
      letter is negative, those of the data are not. */
  lemma HighByteNeverFound(p: seq<Byte>, data: seq<Byte>, i: nat)
    requires i < |p| && p[i] >= 128
    ensures !Suffix(PatternWord(p, true), DataWord(data, true))
  {
    if |p| <= |data| {
      assert PatternWord(p, true)[i] < 0 <= DataWord(data, true)[|data| - |p|..][i];
    }
  }

  predicate EndsData(p: seq<Byte>, data: seq<Byte>) {
    |p| <= |data| && data[|data| - |p|..] == p
  }

  /** When case matters, a pattern is found exactly where its bytes are if and
      only if all of them are below 128. */
  lemma CaseSensitiveExact(p: seq<Byte>)
    ensures (forall d: seq<Byte> :: Suffix(PatternWord(p, true), DataWord(d, true)) <==> EndsData(p, d))
       <==> forall i :: 0 <= i < |p| ==> p[i] < 128
  {
    if i: nat :| i < |p| && p[i] >= 128 {
      HighByteNeverFound(p, p, i);
      assert EndsData(p, p);
    } else {
      forall d: seq<Byte> ensures Suffix(PatternWord(p, true), DataWord(d, true)) <==> EndsData(p, d) {
        AsciiSuffix(p, d);
      }
    }
  }

  lemma AsciiSuffix(p: seq<Byte>, d: seq<Byte>)
    requires forall i :: 0 <= i < |p| ==> p[i] < 128
    ensures Suffix(PatternWord(p, true), DataWord(d, true)) <==> EndsData(p, d)
  {
    if |p| <= |d| {
      var k := |d| - |p|;
      var w, v := PatternWord(p, true), DataWord(d, true)[k..];
      if w == v {
        forall i | 0 <= i < |p| ensures d[k..][i] == p[i] { assert w[i] == v[i]; }
      } else {
        var i :| 0 <= i < |p| && w[i] != v[i];
        assert d[k..][i] != p[i];
      }
    }
  }

  /** Splitting the data over calls changes nothing, up to the first match. */
  lemma ProcessSplit(T: set<Word>, S: set<Word>, w: Word, a: seq<Byte>, b: seq<Byte>, caseSensitive: bool)
    requires [] in T
    ensures DataWord(a + b, caseSensitive) == DataWord(a, caseSensitive) + DataWord(b, caseSensitive)
    ensures var o := Scan(T, S, w, DataWord(a, caseSensitive));
            Scan(T, S, w, DataWord(a + b, caseSensitive)) ==
            if o.Match? then o else Delayed(Scan(T, S, o.node, DataWord(b, caseSensitive)), |a|)
  {
    assert DataWord(a + b, caseSensitive) == DataWord(a, caseSensitive) + DataWord(b, caseSensitive);
    ScanSplit(T, S, w, DataWord(a, caseSensitive), DataWord(b, caseSensitive));
  }

  // ---------- a dictionary and a stream ----------

  /** The pattern occurs in the data, up to ASCII case. */
  predicate Occurs(p: seq<Byte>, data: seq<Byte>) {
    exists n :: 0 <= n <= |data| && EndsFolded(p, data[..n])
  }

  // The words of the patterns that are not empty.
  ghost predicate Words(S: set<Word>, patterns: seq<seq<Byte>>) {
    forall w :: w in S <==> exists p :: p in patterns && p != [] && w == PatternWord(p, false)
  }

  ghost predicate SomeOccurs(patterns: seq<seq<Byte>>, data: seq<Byte>) {
    exists p :: p in patterns && p != [] && Occurs(p, data)
  }

  lemma WordEndsAt(p: seq<Byte>, data: seq<Byte>, n: nat)
    requires n <= |data|
    ensures Suffix(PatternWord(p, false), DataWord(data, false)[..n]) <==> EndsFolded(p, data[..n])
  {
    assert DataWord(data, false)[..n] == DataWord(data[..n], false);
    FoldedSuffix(p, data[..n]);
  }

  /** The words of the dictionary and the bytes of the patterns occur alike. */
  lemma OccursInWords(S: set<Word>, patterns: seq<seq<Byte>>, data: seq<Byte>)
    requires Words(S, patterns)
    ensures Clean(S, DataWord(data, false)) <==> !SomeOccurs(patterns, data)
  {
    hide PatternWord, DataWord, EndsFolded, Suffix;
    var text := DataWord(data, false);
    if !Clean(S, text) {
      var n :| 0 <= n <= |text| && EndsWithPattern(S, text[..n]);
      var w :| w in S && Suffix(w, text[..n]);
      var p :| p in patterns && p != [] && w == PatternWord(p, false);
      WordEndsAt(p, data, n);
    }
    if SomeOccurs(patterns, data) {
      var p :| p in patterns && p != [] && Occurs(p, data);
      var n :| 0 <= n <= |data| && EndsFolded(p, data[..n]);
      WordEndsAt(p, data, n);
      assert PatternWord(p, false) in S;
      assert EndsWithPattern(S, text[..n]);
    }
  }

  lemma WordsSnoc(S: set<Word>, patterns: seq<seq<Byte>>, p: seq<Byte>)
    requires Words(S, patterns)
    ensures Words(if PatternWord(p, false) == [] then S else S + {PatternWord(p, false)}, patterns + [p])
  {
    hide PatternWord;
    var more := patterns + [p];
    assert forall q :: q in more <==> q in patterns || q == p;
  }

  // A scan from the root of data that has been read without a match.
  ghost predicate Scanned(T: set<Word>, S: set<Word>, data: seq<Byte>, w: Word)
    requires [] in T
  {
    Scan(T, S, [], DataWord(data, false)) == Outcome.At(w)
  }

  /** What the next part of the data adds to a scan. */
  lemma ScannedNext(T: set<Word>, S: set<Word>, a: seq<Byte>, b: seq<Byte>, w: Word)
    requires [] in T && Scanned(T, S, a, w)
    ensures var o := Scan(T, S, w, DataWord(b, false));
            if o.Match? then Scan(T, S, [], DataWord(a + b, false)).Match? else Scanned(T, S, a + b, o.node)
  {
    hide Scan;
    ProcessSplit(T, S, [], a, b, false);
  }

  /** What a finished or interrupted scan says about the patterns in the bytes read. */
  lemma ScanMeans(T: set<Word>, S: set<Word>, patterns: seq<seq<Byte>>, data: seq<Byte>)
    requires TrieOf(T, S) && Words(S, patterns)
    ensures Scan(T, S, [], DataWord(data, false)).Match? ==> SomeOccurs(patterns, data)
    ensures (forall p :: p in patterns ==> |p| <= 3) ==>
              (SomeOccurs(patterns, data) ==> Scan(T, S, [], DataWord(data, false)).Match?)
  {
    hide Scan, Clean, DataWord, SomeOccurs;
    var text := DataWord(data, false);
    ScanFromRoot(T, S, text);
    OccursInWords(S, patterns, data);
    if forall p :: p in patterns ==> |p| <= 3 {
      forall w | w in S ensures |w| <= 3 {
        var p :| p in patterns && p != [] && w == PatternWord(p, false);
      }
      ShortPatternsExact(T, S);
      assert Correct(T, S, text);
    }
  }

  lemma NoWords()
    ensures Words({}, [])
  {
  }

  lemma NothingScanned(T: set<Word>, S: set<Word>)
    requires [] in T
    ensures Scanned(T, S, [], [])
  {
  }

  // The calls of ProcessQuick on one stream, up to the first that finds a match.
  method ReadStream(parser: Matcher, chunks: seq<seq<Byte>>) returns (r: int, calls: nat)
    requires parser.Valid() && !parser.caseSensitive
    modifies parser`isActive, parser`isFailtreeDone, parser.nodes
    ensures parser.Valid() && parser.trie == old(parser.trie) && parser.dict == old(parser.dict)
    ensures calls <= |chunks| && (r == 0 || r == 1) && (r == 0 ==> calls == |chunks|)
    ensures var T, S := parser.trie.Keys, parser.dict;
            && (r == 1 <==> Scan(T, S, [], DataWord(Flatten(chunks[..calls]), false)).Match?)
            && (calls > 0 ==> !Scan(T, S, [], DataWord(Flatten(chunks[..calls - 1]), false)).Match?)
  {
    hide Scan, DataWord, Flatten, Linked, Lasts, TrieOf, Fails, Matches, Trees, Blank;
    ghost var T, S := parser.trie.Keys, parser.dict;
    var scanner := new Scanner(parser);
    r, calls := 0, 0;
    NothingScanned(T, S);
    assert chunks[..0] == [];
    FlattenNone<Byte>();
    while calls < |chunks|
      invariant calls <= |chunks| && r == 0
      invariant scanner.Valid() && fresh(scanner) && scanner.parser == parser && parser.nodes == old(parser.nodes)
      invariant parser.trie == old(parser.trie) && parser.dict == old(parser.dict)
      invariant Scanned(T, S, Flatten(chunks[..calls]), scanner.At())
      invariant calls > 0 ==> !Scan(T, S, [], DataWord(Flatten(chunks[..calls - 1]), false)).Match?
    {
      FlattenNext(chunks, calls);
      ScannedNext(T, S, Flatten(chunks[..calls]), chunks[calls], scanner.At());
      r := scanner.ProcessQuick(chunks[calls]);
      calls := calls + 1;
      if r == 1 {
        return;
      }
    }
  }

  /** A dictionary without case, and a stream that is scanned piece by piece until
      a call finds a match: that call's result is 1 only if a pattern occurs in
      the bytes read, and with patterns of at most three bytes whenever one does. */
  method Search(patterns: seq<seq<Byte>>, chunks: seq<seq<Byte>>) returns (r: int, calls: nat)
    ensures calls <= |chunks| && (r == 0 || r == 1) && (r == 0 ==> calls == |chunks|)
    ensures r == 1 ==> SomeOccurs(patterns, Flatten(chunks[..calls]))
    ensures (forall p :: p in patterns ==> |p| <= 3) ==>
              (r == 1 <==> SomeOccurs(patterns, Flatten(chunks[..calls])))
              && (calls > 0 ==> !SomeOccurs(patterns, Flatten(chunks[..calls - 1])))
  {
    hide Words, SomeOccurs, Scan, DataWord, Flatten, Linked, Lasts, TrieOf, Fails, Matches, Trees, Blank;
    var parser := AddPatterns(patterns);
    r, calls := ReadStream(parser, chunks);
    ScanMeans(parser.trie.Keys, parser.dict, patterns, Flatten(chunks[..calls]));
    if calls > 0 {
      ScanMeans(parser.trie.Keys, parser.dict, patterns, Flatten(chunks[..calls - 1]));
    }
  }

  method AddPatterns(patterns: seq<seq<Byte>>) returns (parser: Matcher)
    ensures fresh(parser) && parser.Valid() && !parser.caseSensitive && Words(parser.dict, patterns)
    ensures forall n :: n in parser.nodes ==> fresh(n)
  {
    hide Words, PatternWord, Linked, Lasts, TrieOf, Fails, Matches, Trees, Blank;
    parser := new Matcher(false);
    NoWords();
    var i := 0;
    assert patterns[..0] == [];
    while i < |patterns|
      invariant i <= |patterns| && parser.Valid() && !parser.isActive && !parser.caseSensitive
      invariant fresh(parser) && forall n :: n in parser.nodes ==> fresh(n)
      invariant Words(parser.dict, patterns[..i])
    {
      WordsSnoc(parser.dict, patterns[..i], patterns[i]);
      assert patterns[..i + 1] == patterns[..i] + [patterns[i]];
      var _ := parser.AddPattern(patterns[i], 0);
      i := i + 1;
    }
    assert patterns[..i] == patterns;
  }
}
