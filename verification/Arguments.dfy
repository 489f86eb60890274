/** The parser of URL-encoded arguments in apache2/msc_parsers.c. */
module Arguments {
  import opened Sequences

  // An argument: the decoded name and value, and where they came from in the input.
  datatype Arg = Arg(name: string, nameOffset: nat, nameLen: nat, value: string, valueOffset: nat, valueLen: nat)

  const BLANK := Arg("", 0, 0, "", 0, 0)

  // The byte at i; the input is followed by a NUL.
  function At(s: string, i: nat): char
    requires i <= |s|
  {
    if i < |s| then s[i] else '\0'
  }

  // ---------- specification: split, then split each segment ----------

  /** The first place from i on that holds c, or the end. */
  function Find(s: string, i: nat, c: char): (e: nat)
    requires i <= |s|
    ensures i <= e <= |s| && c !in s[i..e] && (e < |s| ==> s[e] == c)
    decreases |s| - i
  {
    if i == |s| then i
    else if s[i] == c then i
    else
      var e := Find(s, i + 1, c);
      assert s[i..e] == [s[i]] + s[i + 1..e];
      e
  }

  /** The argument in the segment from i to e. */
  function Segment(s: string, i: nat, e: nat, decode: string -> string): Arg
    requires i <= e <= |s|
  {
    var k := Find(s[..e], i, '=');
    if k < e && k + 1 < |s| then
      Arg(decode(s[i..k]), i, k - i, decode(s[k + 1..e]), k + 1, e - k - 1)
    else
      Arg(decode(s[i..k]), i, k - i, "", 0, 0)
  }

  /** The arguments of the segments from i on; an empty segment at the very end is none. */
  function ParseFrom(s: string, separator: char, i: nat, decode: string -> string): seq<Arg>
    decreases |s| - i
  {
    if i >= |s| then []
    else
      var e := Find(s, i, separator);
      [Segment(s, i, e, decode)] + ParseFrom(s, separator, e + 1, decode)
  }

  // ---------- the parser ----------

  /** The name loop stops where the name of the segment ends. */
  lemma NameEnd(s: string, separator: char, i: nat, k: nat)
    requires i <= k <= |s| && '=' !in s[i..k] && separator !in s[i..k]
    requires k < |s| ==> s[k] == '=' || s[k] == separator
    ensures var e := Find(s, i, separator);
            k <= e && Find(s[..e], i, '=') == k && (k < |s| && s[k] == separator ==> e == k)
            && (k < |s| && s[k] != separator ==> k < e && Find(s, k + 1, separator) == e)
    decreases k - i
  {
    var e := Find(s, i, separator);
    if i < k {
      assert s[i] == s[i..k][0];
      assert s[i + 1..k] == s[i..k][1..];
      NameEnd(s, separator, i + 1, k);
    }
  }

  lemma ValueEnd(s: string, separator: char, i: nat, v: nat)
    requires i <= v <= |s| && separator !in s[i..v] && (v < |s| ==> s[v] == separator)
    ensures Find(s, i, separator) == v
    decreases v - i
  {
    if i < v {
      assert s[i] == s[i..v][0];
      assert s[i + 1..v] == s[i..v][1..];
      ValueEnd(s, separator, i + 1, v);
    }
  }

  /** Copies the bytes from i up to the first of two stop characters into the buffer from j on. */
  method CopyUpTo(s: string, i0: nat, stop: char, separator: char, buf: array<char>, j0: nat) returns (i: nat, j: nat)
    requires i0 <= |s| && j0 <= i0 && buf.Length == |s| + 1
    modifies buf
    ensures i0 <= i <= |s| && j == j0 + (i - i0) && buf[..j0] == old(buf[..j0]) && buf[j0..j] == s[i0..i]
    ensures stop !in s[i0..i] && separator !in s[i0..i] && (i < |s| ==> s[i] == stop || s[i] == separator)
  {
    i, j := i0, j0;
    while At(s, i) != stop && At(s, i) != separator && i < |s|
      invariant i0 <= i <= |s| && j == j0 + (i - i0)
      invariant buf[..j0] == old(buf[..j0]) && buf[j0..j] == s[i0..i]
      invariant stop !in s[i0..i] && separator !in s[i0..i]
      decreases |s| - i
    {
      buf[j] := s[i];
      assert buf[j0..j + 1] == buf[j0..j] + [s[i]];
      assert s[i0..i + 1] == s[i0..i] + [s[i]];
      j := j + 1;
      i := i + 1;
    }
  }

  // The name of the segment at start has been read, and i is past what ended it.
  ghost predicate NameRead(s: string, separator: char, start: nat, i: nat, arg: Arg, decode: string -> string) {
    && start < i <= |s| + 1 && start < |s|
    && var e := Find(s, start, separator);
       var k := i - 1;
       && k <= e && Find(s[..e], start, '=') == k
       && arg == Arg(decode(s[start..k]), start, k - start, "", 0, 0)
       && (k < |s| ==> k < e && Find(s, k + 1, separator) == e)
  }

  /** A segment without a value, ended by the separator. */
  lemma OnlyName(s: string, separator: char, start: nat, i: nat, decode: string -> string)
    requires start <= i <= |s| && start < |s| && (i < |s| ==> s[i] == separator)
    requires '=' !in s[start..i] && separator !in s[start..i]
    ensures ParseFrom(s, separator, start, decode) ==
            [Arg(decode(s[start..i]), start, i - start, "", 0, 0)] + ParseFrom(s, separator, i + 1, decode)
  {
    NameEnd(s, separator, start, i);
  }

  /** A name at the end of the input. */
  lemma LastName(s: string, separator: char, start: nat, i: nat, arg: Arg, decode: string -> string)
    requires NameRead(s, separator, start, i, arg, decode) && i >= |s|
    ensures ParseFrom(s, separator, start, decode) == [arg]
  {
  }

  lemma SegmentValue(s: string, separator: char, start: nat, i: nat, v: nat, arg: Arg, decode: string -> string)
    requires NameRead(s, separator, start, i, arg, decode) && i < |s| && v == Find(s, i, separator)
    ensures start < |s| && Find(s, start, separator) == v
    ensures Segment(s, start, v, decode) == arg.(value := decode(s[i..v]), valueOffset := i, valueLen := v - i)
  {
    hide Find;
  }

  lemma NameAndValue(s: string, separator: char, start: nat, i: nat, v: nat, arg: Arg, decode: string -> string)
    requires NameRead(s, separator, start, i, arg, decode) && i < |s|
    requires i <= v <= |s| && separator !in s[i..v] && (v < |s| ==> s[v] == separator)
    ensures ParseFrom(s, separator, start, decode) ==
            [arg.(value := decode(s[i..v]), valueOffset := i, valueLen := v - i)] + ParseFrom(s, separator, v + 1, decode)
  {
    hide Find, Segment, NameRead, ParseFrom;
    ValueEnd(s, separator, i, v);
    SegmentValue(s, separator, start, i, v, arg, decode);
    ParseUnfold(s, separator, start, decode);
  }

  method ReadName(s: string, separator: char, start: nat, buf: array<char>, decode: string -> string)
    returns (i: nat, j: nat, arg: Arg)
    requires start < |s| && buf.Length == |s| + 1
    modifies buf
    ensures start <= i <= |s| && j == i - start + 1
    ensures arg == Arg(decode(s[start..i]), start, i - start, "", 0, 0)
    ensures '=' !in s[start..i] && separator !in s[start..i] && (i < |s| ==> s[i] == '=' || s[i] == separator)
  {
    arg := BLANK.(nameOffset := start);
    i, j := CopyUpTo(s, start, '=', separator, buf, 0);
    buf[j] := '\0';
    arg := arg.(nameLen := i - arg.nameOffset);
    assert buf[..arg.nameLen] == s[start..i];
    arg := arg.(name := decode(buf[..arg.nameLen]));
    j := j + 1;
  }

  method ReadValue(s: string, separator: char, start: nat, buf: array<char>, value: nat, name: Arg, decode: string -> string)
    returns (i: nat, arg: Arg)
    requires value <= start < |s| && buf.Length == |s| + 1
    modifies buf
    ensures start <= i <= |s|
    ensures arg == name.(value := decode(s[start..i]), valueOffset := start, valueLen := i - start)
    ensures separator !in s[start..i] && (i < |s| ==> s[i] == separator)
  {
    arg := name.(valueOffset := start);
    var j;
    i, j := CopyUpTo(s, start, separator, separator, buf, value);
    buf[j] := '\0';
    arg := arg.(valueLen := i - arg.valueOffset);
    assert buf[value..value + arg.valueLen] == s[arg.valueOffset..i];
    arg := arg.(value := decode(buf[value..value + arg.valueLen]));
  }

  method ParseArguments(s: string, separator: char, decode: string -> string) returns (args: seq<Arg>)
    ensures args == ParseFrom(s, separator, 0, decode)
  {
    hide ParseFrom, Find;
    args := [];
    if |s| == 0 {
      EmptyInput(s, separator, 0, decode);
      return;
    }
    ghost var all := ParseFrom(s, separator, 0, decode);
    var buf := new char[|s| + 1];
    var arg := BLANK;
    var i, j, status := 0, 0, 0;
    ghost var start := 0; // of the segment being read
    while i < |s|
      invariant status == 0 || status == 1
      invariant status == 0 ==> args + ParseFrom(s, separator, i, decode) == all
      invariant status == 1 ==> NameRead(s, separator, start, i, arg, decode) && j == i - start
      invariant status == 1 ==> args + ParseFrom(s, separator, start, decode) == all
      decreases |s| + 1 - i
    {
      if status == 0 {
        start := i;
        i, j, arg := ReadName(s, separator, i, buf, decode);
        if At(s, i) == separator {
          OnlyName(s, separator, start, i, decode);
          Regroup(args, [arg], ParseFrom(s, separator, i + 1, decode));
          args := args + [arg];
          j := 0;
        } else {
          NameIsRead(s, separator, start, i, decode);
          status := 1;
        }
      } else {
        ghost var v := i;
        ghost var name := arg;
        i, arg := ReadValue(s, separator, i, buf, j, arg, decode);
        NameAndValue(s, separator, start, v, i, name, decode);
        Regroup(args, [arg], ParseFrom(s, separator, i + 1, decode));
        args := args + [arg];
        status := 0;
        j := 0;
      }
      i := i + 1;
    }
    if status == 1 {
      LastName(s, separator, start, i, arg, decode);
      args := args + [arg];
    } else {
      EmptyInput(s, separator, i, decode);
    }
  }

  lemma EmptyInput(s: string, separator: char, i: nat, decode: string -> string)
    requires i >= |s|
    ensures ParseFrom(s, separator, i, decode) == []
  {
  }

  lemma NameIsRead(s: string, separator: char, start: nat, k: nat, decode: string -> string)
    requires start <= k <= |s| && start < |s| && '=' !in s[start..k] && separator !in s[start..k]
    requires k < |s| ==> s[k] == '=' && s[k] != separator
    ensures NameRead(s, separator, start, k + 1, Arg(decode(s[start..k]), start, k - start, "", 0, 0), decode)
  {
    NameEnd(s, separator, start, k);
  }

  // ---------- where arguments come from ----------

  /** Name and value are the decoded slices of the input they refer to. */
  ghost predicate FromInput(s: string, separator: char, arg: Arg, decode: string -> string) {
    && arg.nameOffset + arg.nameLen <= |s|
    && arg.name == decode(s[arg.nameOffset..arg.nameOffset + arg.nameLen])
    && '=' !in s[arg.nameOffset..arg.nameOffset + arg.nameLen]
    && separator !in s[arg.nameOffset..arg.nameOffset + arg.nameLen]
    && (if arg.valueOffset == 0 then arg.value == "" && arg.valueLen == 0
        else && arg.valueOffset == arg.nameOffset + arg.nameLen + 1 && arg.valueOffset + arg.valueLen <= |s|
             && s[arg.valueOffset - 1] == '='
             && arg.value == decode(s[arg.valueOffset..arg.valueOffset + arg.valueLen])
             && separator !in s[arg.valueOffset..arg.valueOffset + arg.valueLen])
  }

  function EndOf(arg: Arg): nat {
    if arg.valueOffset == 0 then arg.nameOffset + arg.nameLen else arg.valueOffset + arg.valueLen
  }

  lemma NotWithin(s: string, i: nat, e: nat, a: nat, b: nat, c: char)
    requires i <= a <= b <= e <= |s| && c !in s[i..e]
    ensures c !in s[a..b]
  {
    forall x | a <= x < b ensures s[x] != c {
      assert s[x] == s[i..e][x - i];
    }
  }

  lemma NameFromInput(s: string, separator: char, i: nat, k: nat, decode: string -> string)
    requires i <= k <= |s| && '=' !in s[i..k] && separator !in s[i..k]
    ensures FromInput(s, separator, Arg(decode(s[i..k]), i, k - i, "", 0, 0), decode)
  {
    assert i + (k - i) == k;
  }

  lemma PairFromInput(s: string, separator: char, i: nat, k: nat, e: nat, decode: string -> string)
    requires i <= k < e <= |s| && '=' !in s[i..k] && separator !in s[i..k] && separator !in s[k + 1..e] && s[k] == '='
    ensures FromInput(s, separator, Arg(decode(s[i..k]), i, k - i, decode(s[k + 1..e]), k + 1, e - k - 1), decode)
  {
    assert i + (k - i) == k && k + 1 + (e - k - 1) == e;
  }

  /** Up to the first equals sign of a segment there is neither of the special bytes. */
  lemma SegmentSplit(s: string, separator: char, i: nat, e: nat)
    requires i <= e <= |s| && separator !in s[i..e]
    ensures var k := Find(s[..e], i, '=');
            && i <= k <= e && '=' !in s[i..k] && separator !in s[i..k]
            && (k < e ==> s[k] == '=' && separator !in s[k + 1..e])
  {
    var k := Find(s[..e], i, '=');
    hide Find;
    assert s[..e][i..k] == s[i..k];
    NotWithin(s, i, e, i, k, separator);
    if k < e { NotWithin(s, i, e, k + 1, e, separator); }
  }

  lemma SegmentCases(s: string, i: nat, e: nat, decode: string -> string)
    requires i <= e <= |s|
    ensures var k := Find(s[..e], i, '=');
            Segment(s, i, e, decode) ==
              if k < e && k + 1 < |s| then Arg(decode(s[i..k]), i, k - i, decode(s[k + 1..e]), k + 1, e - k - 1)
              else Arg(decode(s[i..k]), i, k - i, "", 0, 0)
  {
    hide Find;
  }

  lemma SegmentFromInput(s: string, separator: char, i: nat, decode: string -> string)
    requires i < |s|
    ensures var e := Find(s, i, separator);
            var arg := Segment(s, i, e, decode);
            FromInput(s, separator, arg, decode) && arg.nameOffset == i && EndOf(arg) <= e && (e < |s| ==> EndOf(arg) == e)
  {
    hide Find, FromInput, Segment;
    var e := Find(s, i, separator);
    SegmentSplit(s, separator, i, e);
    SegmentCases(s, i, e, decode);
    var k := Find(s[..e], i, '=');
    if k < e && k + 1 < |s| {
      PairFromInput(s, separator, i, k, e, decode);
    } else {
      NameFromInput(s, separator, i, k, decode);
    }
  }

  /** The slices of all arguments are in the input, in order and apart from each other. */
  lemma {:induction false} Origins(s: string, separator: char, i: nat, decode: string -> string, n: nat)
    requires n < |ParseFrom(s, separator, i, decode)|
    ensures var args := ParseFrom(s, separator, i, decode);
            && FromInput(s, separator, args[n], decode) && i <= args[n].nameOffset
            && (n + 1 < |args| ==> args[n + 1].nameOffset == EndOf(args[n]) + 1)
    decreases |s| - i
  {
    hide Find, Segment, FromInput, ParseFrom;
    ParseUnfold(s, separator, i, decode);
    var e := Find(s, i, separator);
    SegmentFromInput(s, separator, i, decode);
    var rest := ParseFrom(s, separator, e + 1, decode);
    if n > 0 {
      Origins(s, separator, e + 1, decode, n - 1);
    } else {
      ParseUnfold(s, separator, e + 1, decode);
      if rest != [] {
        SegmentFromInput(s, separator, e + 1, decode);
      }
    }
  }

  lemma ParseUnfold(s: string, separator: char, i: nat, decode: string -> string)
    ensures i >= |s| ==> ParseFrom(s, separator, i, decode) == []
    ensures i < |s| ==> var e := Find(s, i, separator);
      ParseFrom(s, separator, i, decode) == [Segment(s, i, e, decode)] + ParseFrom(s, separator, e + 1, decode)
  {
  }

  // What may stand behind the last argument: nothing, an equals sign without a value, or one separator.
  predicate AtEnd(s: string, separator: char, n: nat) {
    n == |s| || (n + 1 == |s| && (s[n] == '=' || s[n] == separator))
  }

  lemma SegmentEnd(s: string, separator: char, i: nat, decode: string -> string)
    requires i < |s|
    ensures var e := Find(s, i, separator);
            var n := EndOf(Segment(s, i, e, decode));
            if e < |s| then n == e && s[e] == separator else AtEnd(s, separator, n)
  {
    hide FromInput, Segment;
    var e := Find(s, i, separator);
    SegmentFromInput(s, separator, i, decode);
    SegmentSplit(s, separator, i, e);
    SegmentCases(s, i, e, decode);
  }

  /** Nothing of the input is lost: the first argument starts at its beginning, a
      single separator stands between two arguments, and at most one byte, an
      equals sign or a separator, behind the last. */
  lemma {:induction false} ArgumentsTile(s: string, separator: char, i: nat, decode: string -> string)
    requires i < |s|
    ensures var args := ParseFrom(s, separator, i, decode);
            && args != [] && args[0].nameOffset == i && AtEnd(s, separator, EndOf(args[|args| - 1]))
            && forall n :: 0 <= n < |args| - 1 ==> Separates(s, separator, args[n], args[n + 1])
    decreases |s| - i
  {
    hide Find, Segment, FromInput, ParseFrom;
    ParseUnfold(s, separator, i, decode);
    var e := Find(s, i, separator);
    SegmentFromInput(s, separator, i, decode);
    SegmentEnd(s, separator, i, decode);
    if e + 1 < |s| {
      ArgumentsTile(s, separator, e + 1, decode);
      var args, rest := ParseFrom(s, separator, i, decode), ParseFrom(s, separator, e + 1, decode);
      assert args == [args[0]] + rest;
      forall n | 0 <= n < |args| - 1 ensures Separates(s, separator, args[n], args[n + 1]) {
        if n > 0 { assert args[n] == rest[n - 1] && args[n + 1] == rest[n]; }
      }
    } else {
      ParseUnfold(s, separator, e + 1, decode);
    }
  }

  predicate Separates(s: string, separator: char, a: Arg, b: Arg) {
    EndOf(a) < |s| && s[EndOf(a)] == separator && b.nameOffset == EndOf(a) + 1
  }

  // ---------- round trips ----------

  datatype Pair = Pair(name: string, value: string)

  function Pairs(args: seq<Arg>): (ps: seq<Pair>)
    ensures |ps| == |args|
  {
    if args == [] then [] else [Pair(args[0].name, args[0].value)] + Pairs(args[1..])
  }

  function Print(pairs: seq<Pair>, separator: char): string
    decreases |pairs|
  {
    if pairs == [] then ""
    else if |pairs| == 1 then pairs[0].name + ['='] + pairs[0].value
    else pairs[0].name + ['='] + pairs[0].value + [separator] + Print(pairs[1..], separator)
  }

  function Decoded(pairs: seq<Pair>, decode: string -> string): (ps: seq<Pair>)
    ensures |ps| == |pairs|
  {
    if pairs == [] then [] else [Pair(decode(pairs[0].name), decode(pairs[0].value))] + Decoded(pairs[1..], decode)
  }

  predicate CleanPair(p: Pair, separator: char) {
    '=' !in p.name && separator !in p.name && separator !in p.value
  }

  predicate Clean(pairs: seq<Pair>, separator: char) {
    forall i :: 0 <= i < |pairs| ==> CleanPair(pairs[i], separator)
  }

  // From i to e the input is one printed pair.
  ghost predicate PairAt(s: string, separator: char, i: nat, e: nat, p: Pair) {
    && i + |p.name| + 1 + |p.value| == e <= |s|
    && s[i..i + |p.name|] == p.name && s[i + |p.name|] == '=' && s[i + |p.name| + 1..e] == p.value
    && (e < |s| ==> s[e] == separator)
  }

  lemma PrintedPair(pre: string, p: Pair, post: string, separator: char)
    requires post != "" ==> post[0] == separator
    ensures PairAt(pre + (p.name + ['='] + p.value + post), separator, |pre|, |pre| + |p.name| + 1 + |p.value|, p)
  {
    PairSlices(pre, p.name, p.value, post);
  }

  /** The segment of one printed pair is parsed back. */
  lemma PairParses(s: string, separator: char, i: nat, e: nat, p: Pair, decode: string -> string)
    requires PairAt(s, separator, i, e, p) && CleanPair(p, separator) && separator != '=' && decode("") == ""
    ensures Pairs(ParseFrom(s, separator, i, decode)) ==
            [Pair(decode(p.name), decode(p.value))] + Pairs(ParseFrom(s, separator, e + 1, decode))
  {
    PairSegment(s, separator, i, e, p, decode);
    FirstPair(s, separator, i, e, Pair(decode(p.name), decode(p.value)), decode);
  }

  lemma PairSegment(s: string, separator: char, i: nat, e: nat, p: Pair, decode: string -> string)
    requires PairAt(s, separator, i, e, p) && CleanPair(p, separator) && separator != '=' && decode("") == ""
    ensures Find(s, i, separator) == e
    ensures Segment(s, i, e, decode).name == decode(p.name) && Segment(s, i, e, decode).value == decode(p.value)
  {
    NameEnd(s, separator, i, i + |p.name|);
    ValueEnd(s, separator, i + |p.name| + 1, e);
    hide Find;
  }

  lemma PairSlices(pre: string, name: string, value: string, post: string)
    ensures var s := pre + (name + ['='] + value + post);
            var i, k, e := |pre|, |pre| + |name|, |pre| + |name| + 1 + |value|;
            s[i..k] == name && s[k] == '=' && s[k + 1..e] == value && (e < |s| ==> s[e] == post[0])
  {
  }

  lemma FirstPair(s: string, separator: char, i: nat, e: nat, pair: Pair, decode: string -> string)
    requires i < |s| && Find(s, i, separator) == e
    requires Segment(s, i, e, decode).name == pair.name && Segment(s, i, e, decode).value == pair.value
    ensures Pairs(ParseFrom(s, separator, i, decode)) == [pair] + Pairs(ParseFrom(s, separator, e + 1, decode))
  {
    hide Find, Segment;
  }

  lemma RegroupPair(pre: string, pair: string, sep: string, rest: string)
    ensures pre + (pair + (sep + rest)) == pre + (pair + sep) + rest
    ensures pre + (pair + sep + rest) == pre + (pair + sep) + rest
  {
  }

  lemma {:induction false} PrintedParses(pre: string, pairs: seq<Pair>, separator: char, decode: string -> string)
    requires Clean(pairs, separator) && separator != '=' && decode("") == ""
    ensures Pairs(ParseFrom(pre + Print(pairs, separator), separator, |pre|, decode)) == Decoded(pairs, decode)
    decreases |pairs|
  {
    hide *;
    if pairs == [] {
      NothingPrinted(pre, separator, decode);
    } else {
      PrintStep(pairs, separator, decode);
      CleanStep(pairs, separator);
      var p, pair := pairs[0], pairs[0].name + ['='] + pairs[0].value;
      if |pairs| == 1 {
        LastPairParses(pre, p, separator, decode);
      } else {
        var rest := Print(pairs[1..], separator);
        PrintedPair(pre, p, [separator] + rest, separator);
        PairParses(pre + (pair + ([separator] + rest)), separator, |pre|, |pre + pair|, p, decode);
        RegroupPair(pre, pair, [separator], rest);
        PrintedParses(pre + (pair + [separator]), pairs[1..], separator, decode);
      }
    }
  }

  lemma NothingPrinted(pre: string, separator: char, decode: string -> string)
    ensures Pairs(ParseFrom(pre + Print([], separator), separator, |pre|, decode)) == Decoded([], decode)
  {
  }

  lemma LastPairParses(pre: string, p: Pair, separator: char, decode: string -> string)
    requires CleanPair(p, separator) && separator != '=' && decode("") == ""
    ensures Pairs(ParseFrom(pre + (p.name + ['='] + p.value), separator, |pre|, decode)) ==
            [Pair(decode(p.name), decode(p.value))]
  {
    hide *;
    PrintedPair(pre, p, "", separator);
    assert p.name + ['='] + p.value + "" == p.name + ['='] + p.value;
    PairAtEnd(pre + (p.name + ['='] + p.value), separator, |pre|, p, decode);
  }

  lemma PairAtEnd(s: string, separator: char, i: nat, p: Pair, decode: string -> string)
    requires PairAt(s, separator, i, |s|, p) && CleanPair(p, separator) && separator != '=' && decode("") == ""
    ensures Pairs(ParseFrom(s, separator, i, decode)) == [Pair(decode(p.name), decode(p.value))]
  {
    hide Find, Segment, ParseFrom, PairAt, CleanPair;
    PairParses(s, separator, i, |s|, p, decode);
    EmptyInput(s, separator, |s| + 1, decode);
  }

  lemma PrintStep(pairs: seq<Pair>, separator: char, decode: string -> string)
    requires pairs != []
    ensures Print(pairs, separator) == pairs[0].name + ['='] + pairs[0].value
              + (if |pairs| == 1 then "" else [separator] + Print(pairs[1..], separator))
    ensures |pairs| == 1 ==> Print(pairs, separator) == pairs[0].name + ['='] + pairs[0].value
    ensures |pairs| == 1 ==> Decoded(pairs, decode) == [Pair(decode(pairs[0].name), decode(pairs[0].value))]
    ensures Decoded(pairs, decode) == [Pair(decode(pairs[0].name), decode(pairs[0].value))] + Decoded(pairs[1..], decode)
  {
  }

  lemma CleanStep(pairs: seq<Pair>, separator: char)
    requires pairs != [] && Clean(pairs, separator)
    ensures CleanPair(pairs[0], separator) && Clean(pairs[1..], separator)
  {
  }

  lemma {:induction false} ParsedClean(s: string, separator: char, i: nat)
    ensures Clean(Pairs(ParseFrom(s, separator, i, raw => raw)), separator)
    decreases |s| - i
  {
    if i < |s| {
      SegmentFromInput(s, separator, i, raw => raw);
      ParsedClean(s, separator, Find(s, i, separator) + 1);
    }
  }

  lemma {:induction false} DecodedSame(pairs: seq<Pair>)
    ensures Decoded(pairs, raw => raw) == pairs
  {
    if pairs != [] {
      DecodedSame(pairs[1..]);
    }
  }

  /** Printed undecoded pairs come back exactly when no name holds a separator or
      equals sign and no value a separator. */
  lemma RoundTrip(pairs: seq<Pair>, separator: char)
    requires separator != '='
    ensures Pairs(ParseFrom(Print(pairs, separator), separator, 0, raw => raw)) == pairs <==> Clean(pairs, separator)
  {
    ParsedClean(Print(pairs, separator), separator, 0);
    if Clean(pairs, separator) {
      PrintedParses("", pairs, separator, raw => raw);
      DecodedSame(pairs);
      assert "" + Print(pairs, separator) == Print(pairs, separator);
    }
  }

  function Encoded(pairs: seq<Pair>, encode: string -> string): (ps: seq<Pair>)
    ensures |ps| == |pairs|
    ensures forall i :: 0 <= i < |ps| ==> ps[i] == Pair(encode(pairs[i].name), encode(pairs[i].value))
  {
    if pairs == [] then [] else [Pair(encode(pairs[0].name), encode(pairs[0].value))] + Encoded(pairs[1..], encode)
  }

  lemma {:induction false} DecodedEncoded(pairs: seq<Pair>, encode: string -> string, decode: string -> string)
    requires forall x :: decode(encode(x)) == x
    ensures Decoded(Encoded(pairs, encode), decode) == pairs
  {
    if pairs != [] {
      DecodedEncoded(pairs[1..], encode, decode);
      assert Encoded(pairs, encode)[1..] == Encoded(pairs[1..], encode);
    }
  }

  /** With an encoding that the decoder undoes and that hides both special bytes, all pairs come back. */
  lemma EncodedRoundTrip(pairs: seq<Pair>, separator: char, encode: string -> string, decode: string -> string)
    requires separator != '=' && decode("") == ""
    requires forall x :: decode(encode(x)) == x && '=' !in encode(x) && separator !in encode(x)
    ensures Pairs(ParseFrom(Print(Encoded(pairs, encode), separator), separator, 0, decode)) == pairs
  {
    PrintedParses("", Encoded(pairs, encode), separator, decode);
    DecodedEncoded(pairs, encode, decode);
    assert "" + Print(Encoded(pairs, encode), separator) == Print(Encoded(pairs, encode), separator);
  }
}
