/** Copying rules between configuration contexts and merging contexts, in
    apache2/apache2_config.c. */
module RuleMerge {
  import opened Wrappers
  import opened Sequences

  // The parts of a rule's action set that exceptions look at, and whether the next rule is chained to it.
  datatype ActionSet = ActionSet(id: Option<int>, msg: Option<string>, tags: seq<string>, isChained: bool)

  datatype Rule = Rule(name: string, actionset: Option<ActionSet>)

  // Ranges of rule ids and regular expressions, by what they accept.
  datatype Exception =
    | RemoveId(inRange: int -> bool)
    | RemoveMsg(regex: string -> bool)
    | RemoveTag(regex: string -> bool)

  predicate Chained(r: Rule) {
    r.actionset.Some? && r.actionset.value.isChained
  }

  // How many times the exception counts against the rule.
  function Hits(e: Exception, r: Rule): nat {
    if r.actionset == None then 0
    else
      var a := r.actionset.value;
      match e
      case RemoveId(inRange) => if a.id.Some? && inRange(a.id.value) then 1 else 0
      case RemoveMsg(regex) => if a.msg.Some? && regex(a.msg.value) then 1 else 0
      case RemoveTag(regex) => TagHits(a.tags, regex)
  }

  function TagHits(tags: seq<string>, regex: string -> bool): nat {
    if tags == [] then 0 else TagHits(tags[..|tags| - 1], regex) + if regex(tags[|tags| - 1]) then 1 else 0
  }

  ghost predicate Excluded(r: Rule, exceptions: seq<Exception>) {
    exists i :: 0 <= i < |exceptions| && Hits(exceptions[i], r) > 0
  }

  // ---------- chains ----------

  function ChainLength(rules: seq<Rule>): (n: nat)
    requires rules != []
    ensures 0 < n <= |rules|
  {
    if Chained(rules[0]) && |rules| > 1 then 1 + ChainLength(rules[1..]) else 1
  }

  /** Of the chains in a row, those whose first rule is not excluded. */
  ghost function Kept(rules: seq<Rule>, exceptions: seq<Exception>): seq<Rule>
    decreases |rules|
  {
    if rules == [] then []
    else
      var n := ChainLength(rules);
      (if Excluded(rules[0], exceptions) then [] else rules[..n]) + Kept(rules[n..], exceptions)
  }

  // No chain waits for a rule.
  predicate Complete(rules: seq<Rule>) {
    rules == [] || !Chained(rules[|rules| - 1])
  }

  // The first rules of chains have an action set.
  predicate StartersSet(rules: seq<Rule>)
    decreases |rules|
  {
    rules == [] || (rules[0].actionset.Some? && StartersSet(rules[ChainLength(rules)..]))
  }

  // ---------- the loop ----------

  method IsExcluded(rule: Rule, exceptions: seq<Exception>) returns (copy: int)
    ensures copy > 0 <==> !Excluded(rule, exceptions)
  {
    copy := 1;
    var j := 0;
    while j < |exceptions|
      invariant j <= |exceptions| && copy <= 1
      invariant copy > 0 <==> forall i :: 0 <= i < j ==> Hits(exceptions[i], rule) == 0
      decreases |exceptions| - j
    {
      match exceptions[j] {
      case RemoveId(inRange) =>
        if rule.actionset.Some? && rule.actionset.value.id.Some? && inRange(rule.actionset.value.id.value) {
          copy := copy - 1;
        }
      case RemoveMsg(regex) =>
        if rule.actionset.Some? && rule.actionset.value.msg.Some? && regex(rule.actionset.value.msg.value) {
          copy := copy - 1;
        }
      case RemoveTag(regex) =>
        if rule.actionset.Some? {
          var hits := CountTags(rule.actionset.value.tags, regex);
          copy := copy - hits;
        }
      }
      j := j + 1;
    }
  }

  method CountTags(tags: seq<string>, regex: string -> bool) returns (hits: nat)
    ensures hits == TagHits(tags, regex)
  {
    hits := 0;
    var c := 0;
    while c < |tags|
      invariant c <= |tags| && hits == TagHits(tags[..c], regex)
    {
      assert tags[..c + 1][..c] == tags[..c];
      if regex(tags[c]) {
        hits := hits + 1;
      }
      c := c + 1;
    }
    assert tags[..c] == tags;
  }

  /** What the loop adds for the rules left, inside a chain that is copied (2) or
      skipped (1), or at its start (0). */
  ghost function FromMode(rules: seq<Rule>, exceptions: seq<Exception>, mode: int): seq<Rule>
    decreases |rules|, mode
  {
    if mode == 0 then Kept(rules, exceptions)
    else if rules == [] then []
    else (if mode == 2 then [rules[0]] else []) + FromMode(rules[1..], exceptions, if Chained(rules[0]) then mode else 0)
  }

  /** The rest of a chain and what follows it. */
  lemma {:induction false} FromModeChain(rules: seq<Rule>, exceptions: seq<Exception>, mode: int)
    requires rules != [] && (mode == 1 || mode == 2)
    ensures FromMode(rules, exceptions, mode) ==
            (if mode == 2 then rules[..ChainLength(rules)] else []) + Kept(rules[ChainLength(rules)..], exceptions)
    decreases |rules|
  {
    hide Kept, FromMode;
    var rest := rules[1..];
    FromModeStep(rules, exceptions, mode);
    if !Chained(rules[0]) {
      assert rules[..1] == [rules[0]];
      FromModeStart(rest, exceptions);
    } else if rest == [] {
      assert rules[..1] == [rules[0]];
      FromModeEnd(exceptions, mode);
    } else {
      var n := ChainLength(rest);
      FromModeChain(rest, exceptions, mode);
      assert rules[..n + 1] == [rules[0]] + rest[..n];
      assert rules[n + 1..] == rest[n..];
      Regroup([rules[0]], rest[..n], Kept(rest[n..], exceptions));
    }
  }

  lemma KeptStep(rules: seq<Rule>, exceptions: seq<Exception>)
    requires rules != []
    ensures var copy := !Excluded(rules[0], exceptions);
            Kept(rules, exceptions) == (if copy then [rules[0]] else [])
              + FromMode(rules[1..], exceptions, if Chained(rules[0]) then (if copy then 2 else 1) else 0)
  {
    hide Excluded, Kept, FromMode;
    var copy := !Excluded(rules[0], exceptions);
    var rest := rules[1..];
    KeptUnfold(rules, exceptions);
    if !Chained(rules[0]) {
      assert rules[..1] == [rules[0]];
      FromModeStart(rest, exceptions);
    } else if rest == [] {
      assert rules[..1] == [rules[0]] && rules[1..] == rest;
      FromModeEnd(exceptions, if copy then 2 else 1);
    } else {
      var n := ChainLength(rest);
      FromModeChain(rest, exceptions, if copy then 2 else 1);
      assert rules[n + 1..] == rest[n..];
      assert rules[..n + 1] == [rules[0]] + rest[..n];
      Regroup([rules[0]], rest[..n], Kept(rest[n..], exceptions));
    }
  }

  lemma KeptUnfold(rules: seq<Rule>, exceptions: seq<Exception>)
    requires rules != []
    ensures Kept(rules, exceptions) ==
            (if Excluded(rules[0], exceptions) then [] else rules[..ChainLength(rules)])
            + Kept(rules[ChainLength(rules)..], exceptions)
  {
  }

  lemma FromModeStart(rules: seq<Rule>, exceptions: seq<Exception>)
    ensures FromMode(rules, exceptions, 0) == Kept(rules, exceptions)
  {
  }

  lemma FromModeEnd(exceptions: seq<Exception>, mode: int)
    ensures FromMode([], exceptions, mode) == [] && Kept([], exceptions) == []
  {
  }

  lemma FromModeStep(rules: seq<Rule>, exceptions: seq<Exception>, mode: int)
    requires rules != [] && mode != 0
    ensures FromMode(rules, exceptions, mode) ==
            (if mode == 2 then [rules[0]] else []) + FromMode(rules[1..], exceptions, if Chained(rules[0]) then mode else 0)
  {
  }

  /** One rule: what it adds, and how the loop goes on. */
  lemma FromModeNext(rules: seq<Rule>, exceptions: seq<Exception>, mode: int)
    requires rules != []
    ensures var copied := if mode == 0 then !Excluded(rules[0], exceptions) else mode == 2;
            FromMode(rules, exceptions, mode) == (if copied then [rules[0]] else [])
              + FromMode(rules[1..], exceptions,
                         if !Chained(rules[0]) then 0 else if mode == 0 then (if copied then 2 else 1) else mode)
  {
    hide Excluded, Kept, FromMode;
    if mode == 0 {
      FromModeStart(rules, exceptions);
      KeptStep(rules, exceptions);
    } else {
      FromModeStep(rules, exceptions, mode);
    }
  }

  // The starters that are still to come have an action set.
  predicate StartersFrom(rules: seq<Rule>, mode: int) {
    if mode == 0 then StartersSet(rules) else rules == [] || StartersSet(rules[ChainLength(rules)..])
  }

  lemma StartersStep(rules: seq<Rule>, mode: int)
    requires rules != [] && StartersFrom(rules, mode)
    ensures StartersFrom(rules[1..], if !Chained(rules[0]) then 0 else if mode == 0 then 1 else mode)
  {
    var rest := rules[1..];
    if Chained(rules[0]) && rest != [] {
      assert rules[ChainLength(rules)..] == rest[ChainLength(rest)..];
    }
  }

  method CopyRulesPhase(parent: seq<Rule>, child: seq<Rule>, exceptions: seq<Exception>) returns (r: seq<Rule>)
    requires StartersSet(parent)
    ensures r == child + Kept(parent, exceptions)
  {
    hide Kept, Excluded, FromMode, StartersSet;
    r := child;
    var mode := 0;
    var i := 0;
    assert parent[0..] == parent;
    FromModeStart(parent, exceptions);
    while i < |parent|
      invariant i <= |parent| && 0 <= mode <= 2
      invariant r + FromMode(parent[i..], exceptions, mode) == child + Kept(parent, exceptions)
      invariant StartersFrom(parent[i..], mode)
    {
      var rule := parent[i];
      ghost var rest, before := parent[i..], r;
      assert rest[0] == rule && rest[1..] == parent[i + 1..];
      StarterSet(rest);
      StartersStep(rest, mode);
      FromModeNext(rest, exceptions, mode);
      if mode == 0 {
        var copy := IsExcluded(rule, exceptions);
        if copy > 0 {
          r := r + [rule];
          if rule.actionset.value.isChained {
            mode := 2;
          }
        } else {
          if rule.actionset.value.isChained {
            mode := 1;
          }
        }
      } else {
        if mode == 2 {
          r := r + [rule];
        }
        if rule.actionset == None || !rule.actionset.value.isChained {
          mode := 0;
        }
      }
      Regroup(before, [rule], FromMode(parent[i + 1..], exceptions, mode));
      i := i + 1;
    }
    assert parent[i..] == [];
    FromModeEnd(exceptions, mode);
  }

  lemma StarterSet(rules: seq<Rule>)
    requires rules != []
    ensures StartersFrom(rules, 0) ==> rules[0].actionset.Some?
  {
  }

  // ---------- laws of copying ----------

  // The chains of a + b are those of a and then those of b.
  lemma {:induction false} ChainLengthAppend(a: seq<Rule>, b: seq<Rule>)
    requires a != [] && Complete(a)
    ensures ChainLength(a + b) == ChainLength(a)
    ensures (a + b)[..ChainLength(a)] == a[..ChainLength(a)] && (a + b)[ChainLength(a)..] == a[ChainLength(a)..] + b
  {
    if Chained(a[0]) && |a| > 1 {
      assert (a + b)[1..] == a[1..] + b;
      ChainLengthAppend(a[1..], b);
    }
  }

  lemma ChainComplete(a: seq<Rule>)
    requires a != [] && Complete(a)
    ensures Complete(a[ChainLength(a)..])
  {
  }

  /** Copying is done context by context: it distributes over complete lists. */
  lemma {:induction false} KeptAppend(a: seq<Rule>, b: seq<Rule>, exceptions: seq<Exception>)
    requires Complete(a)
    ensures Kept(a + b, exceptions) == Kept(a, exceptions) + Kept(b, exceptions)
    decreases |a|
  {
    hide Excluded, Kept;
    if a == [] {
      assert a + b == b;
      FromModeEnd(exceptions, 0);
    } else {
      var n := ChainLength(a);
      ChainLengthAppend(a, b);
      ChainComplete(a);
      KeptUnfold(a + b, exceptions);
      KeptUnfold(a, exceptions);
      KeptAppend(a[n..], b, exceptions);
      Regroup(a[..n], Kept(a[n..], exceptions), Kept(b, exceptions));
    }
  }

  lemma ExcludedAppend(r: Rule, e1: seq<Exception>, e2: seq<Exception>)
    ensures Excluded(r, e1 + e2) <==> Excluded(r, e1) || Excluded(r, e2)
  {
    if Excluded(r, e1) {
      var i :| 0 <= i < |e1| && Hits(e1[i], r) > 0;
      assert (e1 + e2)[i] == e1[i];
    }
    if Excluded(r, e2) {
      var i :| 0 <= i < |e2| && Hits(e2[i], r) > 0;
      assert (e1 + e2)[|e1| + i] == e2[i];
    }
  }

  lemma {:induction false} ChainEnds(rules: seq<Rule>)
    requires rules != [] && ChainLength(rules) < |rules|
    ensures !Chained(rules[ChainLength(rules) - 1])
  {
    if Chained(rules[0]) && |rules| > 1 {
      ChainEnds(rules[1..]);
    }
  }

  /** The first chain of a list is still one before other rules. */
  lemma {:induction false} ChainPrefix(rules: seq<Rule>, rest: seq<Rule>)
    requires rules != [] && (ChainLength(rules) < |rules| || rest == [])
    ensures ChainLength(rules[..ChainLength(rules)] + rest) == ChainLength(rules)
  {
    var n := ChainLength(rules);
    if Chained(rules[0]) && |rules| > 1 {
      assert (rules[..n] + rest)[1..] == rules[1..][..n - 1] + rest;
      ChainPrefix(rules[1..], rest);
    } else {
      assert rules[..1] == [rules[0]];
    }
  }

  lemma FirstChainKept(rules: seq<Rule>, rest: seq<Rule>, exceptions: seq<Exception>)
    requires rules != [] && (ChainLength(rules) < |rules| || rest == [])
    ensures Kept(rules[..ChainLength(rules)] + rest, exceptions) ==
            (if Excluded(rules[0], exceptions) then [] else rules[..ChainLength(rules)]) + Kept(rest, exceptions)
  {
    hide Excluded, Kept;
    var n := ChainLength(rules);
    ChainPrefix(rules, rest);
    KeptUnfold(rules[..n] + rest, exceptions);
    assert (rules[..n] + rest)[..n] == rules[..n] && (rules[..n] + rest)[n..] == rest;
  }

  /** Two lists of exceptions in turn do what their concatenation does. */
  lemma {:induction false} KeptTwice(rules: seq<Rule>, e1: seq<Exception>, e2: seq<Exception>)
    ensures Kept(Kept(rules, e1), e2) == Kept(rules, e1 + e2)
    decreases |rules|
  {
    hide Excluded, Kept;
    if rules == [] {
      FromModeEnd(e1, 0);
      FromModeEnd(e2, 0);
      FromModeEnd(e1 + e2, 0);
    } else {
      var n := ChainLength(rules);
      var rest := rules[n..];
      KeptUnfold(rules, e1);
      KeptUnfold(rules, e1 + e2);
      ExcludedAppend(rules[0], e1, e2);
      KeptTwice(rest, e1, e2);
      if Excluded(rules[0], e1) {
        assert [] + Kept(rest, e1) == Kept(rest, e1);
        assert [] + Kept(rest, e1 + e2) == Kept(rest, e1 + e2);
      } else {
        if n == |rules| {
          FromModeEnd(e1, 0);
        }
        FirstChainKept(rules, Kept(rest, e1), e2);
      }
    }
  }

  lemma {:induction false} KeptComplete(rules: seq<Rule>, exceptions: seq<Exception>)
    requires Complete(rules)
    ensures Complete(Kept(rules, exceptions))
    decreases |rules|
  {
    hide Excluded;
    if rules != [] {
      var n := ChainLength(rules);
      ChainComplete(rules);
      KeptComplete(rules[n..], exceptions);
      if n < |rules| {
        ChainEnds(rules);
      }
    }
  }

  lemma {:induction false} KeptAll(rules: seq<Rule>)
    ensures Kept(rules, []) == rules
    decreases |rules|
  {
    if rules != [] {
      KeptAll(rules[ChainLength(rules)..]);
    }
  }

  /** A list that ends inside a chain takes the rules after it into that chain. */
  lemma IncompleteChains()
    ensures exists a: seq<Rule>, b: seq<Rule>, e: seq<Exception> :: Kept(a + b, e) != Kept(a, e) + Kept(b, e)
  {
    var r1 := Rule("a", Some(ActionSet(Some(1), None, [], true)));
    var r2 := Rule("b", Some(ActionSet(Some(2), None, [], false)));
    var e := [RemoveId(id => id == 1)];
    assert Hits(e[0], r1) == 1 && Hits(e[0], r2) == 0;
    assert [r1] + [r2] == [r1, r2];
    assert ChainLength([r1, r2]) == 2 by { assert [r1, r2][1..] == [r2]; }
    assert Kept([r1, r2], e) == [];
    assert Kept([r2], e) == [r2] by { assert [r2][..1] == [r2]; }
    assert Kept([r1] + [r2], e) != Kept([r1], e) + Kept([r2], e);
  }

  // ---------- which rules are copied, rule by rule ----------

  /** What the exceptions are for: a rule is matched by its id, its message, or any of its tags. */
  ghost predicate Matches(e: Exception, r: Rule) {
    r.actionset.Some? &&
      var a := r.actionset.value;
      match e
      case RemoveId(inRange) => a.id.Some? && inRange(a.id.value)
      case RemoveMsg(regex) => a.msg.Some? && regex(a.msg.value)
      case RemoveTag(regex) => exists i :: 0 <= i < |a.tags| && regex(a.tags[i])
  }

  ghost predicate Removed(r: Rule, exceptions: seq<Exception>) {
    exists i :: 0 <= i < |exceptions| && Matches(exceptions[i], r)
  }

  lemma {:induction false} TagHitsExact(tags: seq<string>, regex: string -> bool)
    ensures TagHits(tags, regex) > 0 <==> exists i :: 0 <= i < |tags| && regex(tags[i])
    decreases |tags|
  {
    if tags != [] {
      var n := |tags| - 1;
      TagHitsExact(tags[..n], regex);
      assert forall i :: 0 <= i < n ==> tags[..n][i] == tags[i];
    }
  }

  lemma ExcludedExact(r: Rule, exceptions: seq<Exception>)
    ensures Excluded(r, exceptions) <==> Removed(r, exceptions)
  {
    hide TagHits;
    forall i | 0 <= i < |exceptions| ensures Hits(exceptions[i], r) > 0 <==> Matches(exceptions[i], r) {
      if exceptions[i].RemoveTag? && r.actionset.Some? {
        TagHitsExact(r.actionset.value.tags, exceptions[i].regex);
      }
    }
  }

  /** The number of the first rule of the chain that rule i belongs to. */
  function Starter(rules: seq<Rule>, i: nat): (k: nat)
    requires i < |rules|
    ensures k <= i
  {
    if i == 0 || !Chained(rules[i - 1]) then i else Starter(rules, i - 1)
  }

  /** Of the first n rules, in their order, those whose chain starts with a rule that is not removed. */
  ghost function Survivors(rules: seq<Rule>, exceptions: seq<Exception>, n: nat): seq<Rule>
    requires n <= |rules|
  {
    if n == 0 then []
    else Survivors(rules, exceptions, n - 1)
         + if Removed(rules[Starter(rules, n - 1)], exceptions) then [] else [rules[n - 1]]
  }

  lemma {:induction false} ChainRules(rules: seq<Rule>, k: nat, i: nat)
    requires k < |rules| && k <= i < k + ChainLength(rules[k..])
    requires k == 0 || !Chained(rules[k - 1])
    ensures Starter(rules, i) == k
    decreases i
  {
    if i > k {
      ChainInside(rules[k..], i - 1 - k);
      ChainRules(rules, k, i - 1);
    }
  }

  lemma {:induction false} ChainInside(rules: seq<Rule>, i: nat)
    requires rules != [] && i + 1 < ChainLength(rules)
    ensures Chained(rules[i])
  {
    if i > 0 {
      ChainInside(rules[1..], i - 1);
    }
  }

  lemma {:induction false} ChainSurvives(rules: seq<Rule>, exceptions: seq<Exception>, k: nat, i: nat)
    requires k < |rules| && k <= i <= k + ChainLength(rules[k..]) && (k == 0 || !Chained(rules[k - 1]))
    ensures Survivors(rules, exceptions, i) ==
            Survivors(rules, exceptions, k) + if Removed(rules[k], exceptions) then [] else rules[k..i]
    decreases i
  {
    hide Removed, Starter, Chained, ChainLength;
    if i > k {
      ChainRules(rules, k, i - 1);
      ChainSurvives(rules, exceptions, k, i - 1);
      assert rules[k..i] == rules[k..i - 1] + [rules[i - 1]];
    }
  }

  lemma {:induction false} SurvivorsFrom(rules: seq<Rule>, exceptions: seq<Exception>, k: nat)
    requires k <= |rules| && (k == 0 || k == |rules| || !Chained(rules[k - 1]))
    ensures Survivors(rules, exceptions, |rules|) == Survivors(rules, exceptions, k) + Kept(rules[k..], exceptions)
    decreases |rules| - k
  {
    hide Removed, Excluded, Survivors, Kept;
    if k == |rules| {
      assert rules[k..] == [];
      FromModeEnd(exceptions, 0);
    } else {
      var rest := rules[k..];
      var n := ChainLength(rest);
      if n < |rest| { ChainEnds(rest); }
      SurvivorsFrom(rules, exceptions, k + n);
      ChainSurvives(rules, exceptions, k, k + n);
      KeptUnfold(rest, exceptions);
      ExcludedExact(rules[k], exceptions);
      assert rest[..n] == rules[k..k + n] && rest[n..] == rules[k + n..];
      Regroup(Survivors(rules, exceptions, k), if Removed(rules[k], exceptions) then [] else rest[..n], Kept(rest[n..], exceptions));
    }
  }

  /** Copying keeps, rule by rule and in order, the rules whose chain is not removed. */
  lemma KeptExact(rules: seq<Rule>, exceptions: seq<Exception>)
    ensures Kept(rules, exceptions) == Survivors(rules, exceptions, |rules|)
  {
    hide Kept;
    SurvivorsFrom(rules, exceptions, 0);
    assert rules[0..] == rules;
  }

  // ---------- why chains have to be complete ----------

  /** An id that no rule of the list has. */
  function UnusedId(rules: seq<Rule>): (id: int)
    ensures forall i :: 0 <= i < |rules| ==> !HasId(rules[i], id) && !HasIdFrom(rules[i], id)
  {
    if rules == [] then 0
    else
      var n := |rules| - 1;
      var id := UnusedId(rules[..n]);
      if HasIdFrom(rules[n], id) then rules[n].actionset.value.id.value + 1 else id
  }

  predicate HasId(r: Rule, id: int) {
    r.actionset.Some? && r.actionset.value.id == Some(id)
  }

  predicate HasIdFrom(r: Rule, id: int) {
    r.actionset.Some? && r.actionset.value.id.Some? && r.actionset.value.id.value >= id
  }

  lemma {:induction false} NothingExcluded(rules: seq<Rule>, exceptions: seq<Exception>)
    requires forall i :: 0 <= i < |rules| ==> !Excluded(rules[i], exceptions)
    ensures Kept(rules, exceptions) == rules
    decreases |rules|
  {
    hide Excluded;
    if rules != [] {
      NothingExcluded(rules[ChainLength(rules)..], exceptions);
    }
  }

  /** A rule behind an incomplete list joins its last chain, and is not looked at. */
  lemma {:induction false} JoinsLastChain(a: seq<Rule>, r: Rule, exceptions: seq<Exception>)
    requires !Complete(a) && forall i :: 0 <= i < |a| ==> !Excluded(a[i], exceptions)
    ensures Kept(a + [r], exceptions) == a + [r]
    decreases |a|
  {
    hide Excluded, Kept;
    var n := ChainLength(a);
    KeptUnfold(a + [r], exceptions);
    ChainLengthJoined(a, r);
    assert (a + [r])[0] == a[0];
    if n < |a| {
      JoinsLastChain(a[n..], r, exceptions);
      assert (a + [r])[n..] == a[n..] + [r] && (a + [r])[..n] == a[..n];
    } else {
      assert (a + [r])[n + 1..] == [] && (a + [r])[..n + 1] == a + [r];
      FromModeEnd(exceptions, 0);
    }
  }

  lemma {:induction false} ChainLengthJoined(a: seq<Rule>, r: Rule)
    requires !Complete(a)
    ensures ChainLength(a + [r]) == if ChainLength(a) < |a| then ChainLength(a) else |a| + 1
  {
    if Chained(a[0]) && |a| > 1 {
      assert (a + [r])[1..] == a[1..] + [r];
      ChainLengthJoined(a[1..], r);
    } else if |a| == 1 {
      assert (a + [r])[1..] == [r];
    }
  }

  /** An incomplete list, with a rule and an exception for which copying does not distribute. */
  lemma BreaksApart(a: seq<Rule>) returns (b: seq<Rule>, e: seq<Exception>)
    requires !Complete(a)
    ensures Kept(a + b, e) != Kept(a, e) + Kept(b, e)
  {
    hide Kept;
    var k := UnusedId(a);
    var r := Rule("", Some(ActionSet(Some(k), None, [], false)));
    b, e := [r], [RemoveId(id => id == k)];
    forall i | 0 <= i < |a| ensures !Excluded(a[i], e) {
      assert !HasId(a[i], k);
    }
    NothingExcluded(a, e);
    JoinsLastChain(a, r, e);
    assert Hits(e[0], r) == 1;
    KeptUnfold(b, e);
    FromModeEnd(e, 0);
    assert Excluded(r, e) && b[1..] == [];
  }

  /** Copying distributes over a list and whatever follows it if and only if the list is complete. */
  lemma DistributesExactly(a: seq<Rule>)
    ensures Complete(a) <==> forall b, e :: Kept(a + b, e) == Kept(a, e) + Kept(b, e)
  {
    hide Kept;
    if Complete(a) {
      forall b, e ensures Kept(a + b, e) == Kept(a, e) + Kept(b, e) {
        KeptAppend(a, b, e);
      }
    } else {
      var b, e := BreaksApart(a);
    }
  }

  // ---------- contexts ----------

  datatype Inheritance = NotSet | On | Off

  datatype Ruleset = Ruleset(requestHeaders: seq<Rule>, requestBody: seq<Rule>, responseHeaders: seq<Rule>,
                             responseBody: seq<Rule>, logging: seq<Rule>)

  datatype Context = Context(inheritance: Inheritance, ruleset: Option<Ruleset>, exceptions: seq<Exception>)

  const NO_RULES := Ruleset([], [], [], [], [])

  predicate AllComplete(s: Ruleset) {
    && Complete(s.requestHeaders) && Complete(s.requestBody) && Complete(s.responseHeaders)
    && Complete(s.responseBody) && Complete(s.logging)
  }

  predicate AllStartersSet(s: Ruleset) {
    && StartersSet(s.requestHeaders) && StartersSet(s.requestBody) && StartersSet(s.responseHeaders)
    && StartersSet(s.responseBody) && StartersSet(s.logging)
  }

  ghost function KeptRules(s: Ruleset, exceptions: seq<Exception>): Ruleset {
    Ruleset(Kept(s.requestHeaders, exceptions), Kept(s.requestBody, exceptions), Kept(s.responseHeaders, exceptions),
            Kept(s.responseBody, exceptions), Kept(s.logging, exceptions))
  }

  function Cat(a: Ruleset, b: Ruleset): Ruleset {
    Ruleset(a.requestHeaders + b.requestHeaders, a.requestBody + b.requestBody, a.responseHeaders + b.responseHeaders,
            a.responseBody + b.responseBody, a.logging + b.logging)
  }

  ghost function MergedRules(parent: Option<Ruleset>, child: Option<Ruleset>, exceptions: seq<Exception>): Option<Ruleset> {
    if parent == None then child
    else
      var kept := KeptRules(parent.value, exceptions);
      if child == None then Some(kept) else Some(Cat(kept, child.value))
  }

  ghost function Merged(parent: Context, child: Context): Context {
    Context(
      if child.inheritance == Off then Off else parent.inheritance,
      if child.inheritance == Off then child.ruleset else MergedRules(parent.ruleset, child.ruleset, child.exceptions),
      parent.exceptions + child.exceptions)
  }

  method CopyRules(parent: Ruleset, child: Ruleset, exceptions: seq<Exception>) returns (r: Ruleset)
    requires AllStartersSet(parent)
    ensures r == Cat(child, KeptRules(parent, exceptions))
  {
    var requestHeaders := CopyRulesPhase(parent.requestHeaders, child.requestHeaders, exceptions);
    var requestBody := CopyRulesPhase(parent.requestBody, child.requestBody, exceptions);
    var responseHeaders := CopyRulesPhase(parent.responseHeaders, child.responseHeaders, exceptions);
    var responseBody := CopyRulesPhase(parent.responseBody, child.responseBody, exceptions);
    var logging := CopyRulesPhase(parent.logging, child.logging, exceptions);
    r := Ruleset(requestHeaders, requestBody, responseHeaders, responseBody, logging);
  }

  method MergeContexts(parent: Context, child: Context) returns (merged: Context)
    requires parent.ruleset.Some? ==> AllStartersSet(parent.ruleset.value)
    ensures merged == Merged(parent, child)
  {
    var inheritance, ruleset := NotSet, None;
    if child.inheritance == NotSet || child.inheritance == On {
      inheritance := parent.inheritance;
      if child.ruleset == None && parent.ruleset == None {
      } else if child.ruleset == None {
        var rules := CopyRules(parent.ruleset.value, NO_RULES, child.exceptions);
        ruleset := Some(rules);
      } else if parent.ruleset == None {
        ruleset := child.ruleset;
      } else {
        var rules := CopyRules(parent.ruleset.value, NO_RULES, child.exceptions);
        ruleset := Some(Cat(rules, child.ruleset.value));
      }
    } else {
      inheritance := Off;
      if child.ruleset != None {
        ruleset := child.ruleset;
      }
    }
    merged := Context(inheritance, ruleset, parent.exceptions + child.exceptions);
    if parent.ruleset.Some? {
      NoneBefore(KeptRules(parent.ruleset.value, child.exceptions));
    }
  }

  lemma NoneBefore(s: Ruleset)
    ensures Cat(NO_RULES, s) == s
  {
  }

  lemma KeptRulesTwice(s: Ruleset, e1: seq<Exception>, e2: seq<Exception>)
    ensures KeptRules(KeptRules(s, e1), e2) == KeptRules(s, e1 + e2)
  {
    hide Kept;
    KeptTwice(s.requestHeaders, e1, e2);
    KeptTwice(s.requestBody, e1, e2);
    KeptTwice(s.responseHeaders, e1, e2);
    KeptTwice(s.responseBody, e1, e2);
    KeptTwice(s.logging, e1, e2);
  }

  lemma KeptRulesCat(a: Ruleset, b: Ruleset, exceptions: seq<Exception>)
    requires AllComplete(a)
    ensures KeptRules(Cat(a, b), exceptions) == Cat(KeptRules(a, exceptions), KeptRules(b, exceptions))
  {
    hide Kept, Complete;
    KeptAppend(a.requestHeaders, b.requestHeaders, exceptions);
    KeptAppend(a.requestBody, b.requestBody, exceptions);
    KeptAppend(a.responseHeaders, b.responseHeaders, exceptions);
    KeptAppend(a.responseBody, b.responseBody, exceptions);
    KeptAppend(a.logging, b.logging, exceptions);
  }

  lemma KeptRulesComplete(s: Ruleset, exceptions: seq<Exception>)
    requires AllComplete(s)
    ensures AllComplete(KeptRules(s, exceptions))
  {
    hide Kept, Complete;
    KeptComplete(s.requestHeaders, exceptions);
    KeptComplete(s.requestBody, exceptions);
    KeptComplete(s.responseHeaders, exceptions);
    KeptComplete(s.responseBody, exceptions);
    KeptComplete(s.logging, exceptions);
  }

  lemma CatAssociative(a: Ruleset, b: Ruleset, c: Ruleset)
    ensures Cat(Cat(a, b), c) == Cat(a, Cat(b, c))
  {
    Regroup(a.requestHeaders, b.requestHeaders, c.requestHeaders);
    Regroup(a.requestBody, b.requestBody, c.requestBody);
    Regroup(a.responseHeaders, b.responseHeaders, c.responseHeaders);
    Regroup(a.responseBody, b.responseBody, c.responseBody);
    Regroup(a.logging, b.logging, c.logging);
  }

  lemma MergedRulesAssociative(a: Option<Ruleset>, b: Option<Ruleset>, c: Option<Ruleset>,
                               eb: seq<Exception>, ec: seq<Exception>)
    requires a.Some? ==> AllComplete(a.value)
    ensures MergedRules(MergedRules(a, b, eb), c, ec) == MergedRules(a, MergedRules(b, c, ec), eb + ec)
  {
    hide KeptRules, Cat, AllComplete;
    if a.Some? {
      KeptRulesTwice(a.value, eb, ec);
      KeptRulesComplete(a.value, eb);
      if b.Some? {
        KeptRulesCat(KeptRules(a.value, eb), b.value, ec);
        if c.Some? {
          CatAssociative(KeptRules(a.value, eb + ec), KeptRules(b.value, ec), c.value);
        }
      }
    }
  }

  datatype Phase = RequestHeaders | RequestBody | ResponseHeaders | ResponseBody | Logging

  function RulesIn(c: Context, phase: Phase): seq<Rule> {
    if c.ruleset == None then []
    else
      match phase
      case RequestHeaders => c.ruleset.value.requestHeaders
      case RequestBody => c.ruleset.value.requestBody
      case ResponseHeaders => c.ruleset.value.responseHeaders
      case ResponseBody => c.ruleset.value.responseBody
      case Logging => c.ruleset.value.logging
  }

  /** What a child context gets. One that turns inheritance off starts over with
      its own rules; any other has, in every phase, the parent's rules that its
      exceptions do not remove, and then its own. */
  lemma MergeExact(parent: Context, child: Context, phase: Phase)
    ensures var m := Merged(parent, child);
            && m.exceptions == parent.exceptions + child.exceptions
            && match child.inheritance
               case Off => m.inheritance == Off && m.ruleset == child.ruleset
               case On => Inherits(m, parent, child, phase)
               case NotSet => Inherits(m, parent, child, phase)
  {
    hide Kept;
    if child.inheritance != Off && parent.ruleset.Some? {
      KeptExact(RulesIn(parent, phase), child.exceptions);
    }
  }

  ghost predicate Inherits(m: Context, parent: Context, child: Context, phase: Phase) {
    var rules := RulesIn(parent, phase);
    && m.inheritance == parent.inheritance
    && (m.ruleset == None <==> parent.ruleset == None && child.ruleset == None)
    && RulesIn(m, phase) == Survivors(rules, child.exceptions, |rules|) + RulesIn(child, phase)
  }

  /** Merging contexts is associative: what nested contexts inherit does not
      depend on the order in which they are merged. */
  lemma MergeAssociative(a: Context, b: Context, c: Context)
    requires a.ruleset.Some? ==> AllComplete(a.ruleset.value)
    ensures Merged(Merged(a, b), c) == Merged(a, Merged(b, c))
  {
    Regroup(a.exceptions, b.exceptions, c.exceptions);
    MergedRulesAssociative(a.ruleset, b.ruleset, c.ruleset, b.exceptions, c.exceptions);
  }

  // Each phase takes these rules.
  function InAllPhases(rules: seq<Rule>): Ruleset {
    Ruleset(rules, rules, rules, rules, rules)
  }

  /** A ruleset with an incomplete phase, and two contexts below it for which the order of merging matters. */
  lemma MergesApart(s: Ruleset) returns (b: Context, c: Context)
    requires !AllComplete(s)
    ensures b.inheritance == NotSet && c.inheritance == NotSet
    ensures MergedRules(MergedRules(Some(s), b.ruleset, b.exceptions), c.ruleset, c.exceptions)
         != MergedRules(Some(s), MergedRules(b.ruleset, c.ruleset, c.exceptions), b.exceptions + c.exceptions)
  {
    hide Kept, Complete;
    var phase := if !Complete(s.requestHeaders) then s.requestHeaders else if !Complete(s.requestBody) then s.requestBody
                 else if !Complete(s.responseHeaders) then s.responseHeaders
                 else if !Complete(s.responseBody) then s.responseBody else s.logging;
    var rules, e := BreaksApart(phase);
    b, c := Context(NotSet, Some(InAllPhases(rules)), []), Context(NotSet, None, e);
    assert [] + e == e;
    KeptAll(s.requestHeaders);
    KeptAll(s.requestBody);
    KeptAll(s.responseHeaders);
    KeptAll(s.responseBody);
    KeptAll(s.logging);
    assert KeptRules(s, []) == s;
  }

  /** Merging below a context is associative, for all contexts below it, if and
      only if its rule lists are complete. */
  lemma AssociativeExactly(a: Context)
    ensures (forall b, c :: Merged(Merged(a, b), c) == Merged(a, Merged(b, c)))
       <==> (a.ruleset.Some? ==> AllComplete(a.ruleset.value))
  {
    hide MergedRules, AllComplete;
    if a.ruleset.Some? && !AllComplete(a.ruleset.value) {
      var b, c := MergesApart(a.ruleset.value);
      assert Merged(Merged(a, b), c).ruleset != Merged(a, Merged(b, c)).ruleset;
    } else {
      forall b, c ensures Merged(Merged(a, b), c) == Merged(a, Merged(b, c)) {
        MergeAssociative(a, b, c);
      }
    }
  }

  /** A context without settings of its own inherits everything. */
  lemma MergeInherits(a: Context)
    ensures Merged(a, Context(NotSet, None, [])) == a
  {
    if a.ruleset.Some? {
      var s := a.ruleset.value;
      KeptAll(s.requestHeaders);
      KeptAll(s.requestBody);
      KeptAll(s.responseHeaders);
      KeptAll(s.responseBody);
      KeptAll(s.logging);
    }
  }
}
