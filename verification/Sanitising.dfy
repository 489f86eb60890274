/** The masking of sensitive arguments in a logged request body, in
    apache2/msc_logging.c. */
module Sanitising {
  import opened Wrappers
  import opened Arguments

  // An argument to mask: where it came from and its raw value in the body.
  datatype Marked = Marked(origin: Option<string>, offset: nat, length: nat)

  predicate Selectable(a: Marked) {
    (a.origin == None || a.origin == Some("BODY")) && a.offset > 0
  }

  // ---------- selection ----------

  // a could come after the argument at lastOffset, or first when that is 0.
  predicate Candidate(a: Marked, lastOffset: nat) {
    Selectable(a) && (lastOffset == 0 || a.offset < lastOffset)
  }

  /** The argument with the largest offset below the last one. */
  method NextArg(args: seq<Marked>, lastOffset: nat) returns (next: Option<Marked>)
    ensures next == None ==> forall a :: a in args ==> !Candidate(a, lastOffset)
    ensures next.Some? ==> next.value in args && Candidate(next.value, lastOffset)
                           && forall a :: a in args && Candidate(a, lastOffset) ==> a.offset <= next.value.offset
  {
    next := None;
    var offset := 0;
    var i := 0;
    while i < |args|
      invariant i <= |args|
      invariant next == None ==> offset == 0 && forall a :: a in args[..i] ==> !Candidate(a, lastOffset)
      invariant next.Some? ==> next.value in args && Candidate(next.value, lastOffset) && next.value.offset == offset
      invariant next.Some? ==> forall a :: a in args[..i] && Candidate(a, lastOffset) ==> a.offset <= offset
    {
      var arg := args[i];
      assert args[..i + 1] == args[..i] + [arg];
      if !(arg.origin.Some? && arg.origin.value != "BODY") {
        if lastOffset == 0 {
          if arg.offset > offset {
            offset := arg.offset;
            next := Some(arg);
          }
        } else if arg.offset > offset && arg.offset < lastOffset {
          offset := arg.offset;
          next := Some(arg);
        }
      }
      i := i + 1;
    }
    assert args[..i] == args;
  }

  ghost predicate Descending(sorted: seq<Marked>) {
    forall i, j :: 0 <= i < j < |sorted| ==> sorted[j].offset < sorted[i].offset
  }

  /** The arguments to mask, as a stack with the smallest offset on top. */
  method Select(args: seq<Marked>) returns (sorted: seq<Marked>)
    ensures Descending(sorted)
    ensures forall x :: x in sorted ==> x in args && Selectable(x)
    ensures forall a :: a in args && Selectable(a) ==> exists x :: x in sorted && x.offset == a.offset
  {
    sorted := [];
    var lastOffset := 0;
    while true
      invariant Descending(sorted) && (sorted == [] <==> lastOffset == 0)
      invariant sorted != [] ==> sorted[|sorted| - 1].offset == lastOffset
      invariant forall x :: x in sorted ==> x in args && Selectable(x)
      invariant forall a :: a in args && Selectable(a) && !Candidate(a, lastOffset) ==> Present(sorted, a.offset)
      decreases lastOffset == 0, lastOffset
    {
      var next := NextArg(args, lastOffset);
      if next == None {
        break;
      }
      ghost var before := sorted;
      sorted := sorted + [next.value];
      forall a | a in args && Selectable(a) && !Candidate(a, next.value.offset) ensures Present(sorted, a.offset) {
        if Candidate(a, lastOffset) {
          assert next.value in sorted && next.value.offset == a.offset;
        } else {
          assert Present(before, a.offset);
          var x :| x in before && x.offset == a.offset;
          assert x in sorted;
        }
      }
      lastOffset := next.value.offset;
    }
    forall a | a in args && Selectable(a) ensures exists x :: x in sorted && x.offset == a.offset {
      assert Present(sorted, a.offset);
    }
  }

  ghost predicate Present(sorted: seq<Marked>, offset: nat) {
    exists x :: x in sorted && x.offset == offset
  }

  // ---------- masking ----------

  predicate Covers(a: Marked, i: nat) {
    a.offset <= i < a.offset + a.length
  }

  ghost predicate Covered(args: seq<Marked>, i: nat) {
    exists a :: a in args && Covers(a, i)
  }

  method Memset(chunk: array<char>, soff: nat, len: nat)
    requires soff + len <= chunk.Length
    modifies chunk
    ensures forall i :: 0 <= i < chunk.Length ==> chunk[i] == if soff <= i < soff + len then '*' else old(chunk[i])
  {
    var k := 0;
    while k < len
      invariant k <= len
      invariant forall i :: 0 <= i < chunk.Length ==> chunk[i] == if soff <= i < soff + k then '*' else old(chunk[i])
    {
      chunk[soff + k] := '*';
      k := k + 1;
    }
  }

  /** Masks a body that is a single chunk. */
  method Sanitise(chunk: array<char>, sorted: seq<Marked>)
    requires forall x :: x in sorted ==> x.offset < chunk.Length && x.offset + x.length <= chunk.Length
    modifies chunk
    ensures forall i :: 0 <= i < chunk.Length ==> chunk[i] == if Covered(sorted, i) then '*' else old(chunk[i])
  {
    var stack := sorted;
    var sanitize := if sorted != [] then 2 else 0;
    while sanitize > 1
      invariant sanitize == 2 || (sanitize == 0 && stack == [])
      invariant |stack| <= |sorted| && stack == sorted[..|stack|]
      invariant forall i :: 0 <= i < chunk.Length ==> chunk[i] == if Covered(sorted[|stack|..], i) then '*' else old(chunk[i])
      decreases |stack|, sanitize
    {
      if stack == [] {
        sanitize := 0;
      } else {
        var n := |stack| - 1;
        var arg := stack[n];
        assert arg in sorted;
        Memset(chunk, arg.offset, arg.length);
        assert sorted[n..] == [arg] + sorted[n + 1..];
        forall i: nat ensures Covered(sorted[n..], i) <==> Covers(arg, i) || Covered(sorted[n + 1..], i) {
          CoveredCons(arg, sorted[n + 1..], i);
        }
        stack := stack[..n];
      }
    }
    assert sorted[0..] == sorted;
  }

  lemma CoveredCons(a: Marked, rest: seq<Marked>, i: nat)
    ensures Covered([a] + rest, i) <==> Covers(a, i) || Covered(rest, i)
  {
    if Covers(a, i) {
      assert a in [a] + rest;
    }
    if Covered(rest, i) {
      var x :| x in rest && Covers(x, i);
      assert x in [a] + rest;
    }
  }

  // ---------- the masked body ----------

  // The arguments are slices of one parsed body: an offset belongs to one value.
  ghost predicate Consistent(args: seq<Marked>, length: nat) {
    && (forall a :: a in args && Selectable(a) ==> a.offset < length && a.offset + a.length <= length)
    && (forall a, b :: a in args && b in args && Selectable(a) && Selectable(b) && a.offset == b.offset ==> a.length == b.length)
  }

  ghost predicate Masks(args: seq<Marked>, i: nat) {
    exists a :: a in args && Selectable(a) && Covers(a, i)
  }

  lemma SelectionCovers(args: seq<Marked>, sorted: seq<Marked>, length: nat, i: nat)
    requires Consistent(args, length)
    requires forall x :: x in sorted ==> x in args && Selectable(x)
    requires forall a :: a in args && Selectable(a) ==> Present(sorted, a.offset)
    ensures Covered(sorted, i) <==> Masks(args, i)
  {
    if Masks(args, i) {
      var a :| a in args && Selectable(a) && Covers(a, i);
      assert Present(sorted, a.offset);
      var x :| x in sorted && x.offset == a.offset;
      assert x in args && Selectable(x);
      assert Covers(x, i);
    }
  }

  /** Exactly the raw values of the selected arguments are masked. */
  method SanitiseBody(body: array<char>, args: seq<Marked>)
    requires Consistent(args, body.Length)
    modifies body
    ensures forall i :: 0 <= i < body.Length ==> body[i] == if Masks(args, i) then '*' else old(body[i])
  {
    var sorted := Select(args);
    Sanitise(body, sorted);
    forall i: nat ensures Covered(sorted, i) <==> Masks(args, i) {
      SelectionCovers(args, sorted, body.Length, i);
    }
  }

  // ---------- the body as parsed arguments ----------

  // Byte i belongs to the raw value of one of the arguments.
  ghost predicate InValue(args: seq<Arg>, i: nat) {
    exists n :: 0 <= n < |args| && InValueOf(args[n], i)
  }

  predicate InValueOf(arg: Arg, i: nat) {
    arg.valueOffset > 0 && arg.valueOffset <= i < arg.valueOffset + arg.valueLen
  }

  // An argument of the parsed body that is marked.
  ghost predicate MarkedArg(parsed: seq<Arg>, a: Marked) {
    exists n :: 0 <= n < |parsed| && parsed[n].valueOffset == a.offset && parsed[n].valueLen == a.length
  }

  lemma EndsLater(s: string, separator: char, arg: Arg, decode: string -> string)
    requires FromInput(s, separator, arg, decode)
    ensures EndOf(arg) >= arg.nameOffset
  {
  }

  lemma {:induction false} OffsetsIncrease(s: string, separator: char, decode: string -> string, m: nat, n: nat)
    requires m < n < |ParseFrom(s, separator, 0, decode)|
    ensures var args := ParseFrom(s, separator, 0, decode); EndOf(args[m]) < args[n].nameOffset
    decreases n - m
  {
    hide ParseFrom, FromInput;
    Origins(s, separator, 0, decode, m);
    Origins(s, separator, 0, decode, n - 1);
    EndsLater(s, separator, ParseFrom(s, separator, 0, decode)[n - 1], decode);
    if m < n - 1 {
      OffsetsIncrease(s, separator, decode, m, n - 1);
    }
  }

  lemma MarkedFits(s: string, separator: char, decode: string -> string, a: Marked)
    requires MarkedArg(ParseFrom(s, separator, 0, decode), a) && a.offset > 0
    ensures a.offset < |s| && a.offset + a.length <= |s|
  {
    var args := ParseFrom(s, separator, 0, decode);
    var n :| 0 <= n < |args| && args[n].valueOffset == a.offset && args[n].valueLen == a.length;
    ValueInside(s, separator, 0, decode, n);
  }

  lemma {:induction false} ValueInside(s: string, separator: char, i: nat, decode: string -> string, n: nat)
    requires n < |ParseFrom(s, separator, i, decode)|
    ensures var arg := ParseFrom(s, separator, i, decode)[n];
            arg.valueOffset > 0 ==> arg.valueOffset < |s| && arg.valueOffset + arg.valueLen <= |s|
    decreases |s| - i
  {
    if n > 0 {
      ValueInside(s, separator, Find(s, i, separator) + 1, decode, n - 1);
    }
  }

  lemma SameOffsetSameArg(s: string, separator: char, decode: string -> string, m: nat, n: nat)
    requires var args := ParseFrom(s, separator, 0, decode);
             m < |args| && n < |args| && args[m].valueOffset == args[n].valueOffset > 0
    ensures m == n
  {
    Origins(s, separator, 0, decode, m);
    Origins(s, separator, 0, decode, n);
    if m < n {
      OffsetsIncrease(s, separator, decode, m, n);
    } else if n < m {
      OffsetsIncrease(s, separator, decode, n, m);
    }
  }

  /** Marked arguments of one parsed body are consistent. */
  lemma ParsedConsistent(s: string, separator: char, decode: string -> string, marked: seq<Marked>)
    requires forall a :: a in marked && Selectable(a) ==> MarkedArg(ParseFrom(s, separator, 0, decode), a)
    ensures Consistent(marked, |s|)
  {
    var args := ParseFrom(s, separator, 0, decode);
    forall a | a in marked && Selectable(a) ensures a.offset < |s| && a.offset + a.length <= |s| {
      MarkedFits(s, separator, decode, a);
    }
    forall a, b | a in marked && b in marked && Selectable(a) && Selectable(b) && a.offset == b.offset
      ensures a.length == b.length
    {
      var m :| 0 <= m < |args| && args[m].valueOffset == a.offset && args[m].valueLen == a.length;
      var n :| 0 <= n < |args| && args[n].valueOffset == b.offset && args[n].valueLen == b.length;
      SameOffsetSameArg(s, separator, decode, m, n);
    }
  }

  // t is s with some bytes of values replaced by stars.
  ghost predicate Starred(s: string, t: string, args: seq<Arg>, i: nat) {
    |t| == |s| && forall p :: i <= p < |s| ==> t[p] == s[p] || (t[p] == '*' && InValue(args, p))
  }

  /** A masked body still has the same arguments, with the same names, in the same
      places: only values changed. */
  lemma {:induction false} MaskingKeepsArguments(s: string, t: string, separator: char, i: nat, decode: string -> string)
    requires separator != '*' && Starred(s, t, ParseFrom(s, separator, i, decode), i)
    ensures var args, masked := ParseFrom(s, separator, i, decode), ParseFrom(t, separator, i, decode);
            |masked| == |args| && forall n :: 0 <= n < |args| ==> masked[n].(value := "") == args[n].(value := "")
    decreases |s| - i
  {
    hide Find, Segment, FromInput, InValue, Starred, ParseFrom;
    ParseUnfold(s, separator, i, decode);
    SameLength(s, t, ParseFrom(s, separator, i, decode), i);
    ParseUnfold(t, separator, i, decode);
    if i < |s| {
      var e := Find(s, i, separator);
      var rest := ParseFrom(s, separator, e + 1, decode);
      RestAfter(s, separator, e, rest, decode);
      MaskedSegment(s, t, separator, i, rest, decode);
      MaskingKeepsArguments(s, t, separator, e + 1, decode);
    }
  }

  lemma SameLength(s: string, t: string, args: seq<Arg>, i: nat)
    requires Starred(s, t, args, i)
    ensures |t| == |s|
  {
  }

  lemma RestAfter(s: string, separator: char, e: nat, rest: seq<Arg>, decode: string -> string)
    requires rest == ParseFrom(s, separator, e + 1, decode)
    ensures forall n :: 0 <= n < |rest| && rest[n].valueOffset > 0 ==> e < rest[n].valueOffset
  {
    hide ParseFrom;
    forall n | 0 <= n < |rest| && rest[n].valueOffset > 0 ensures e < rest[n].valueOffset {
      Origins(s, separator, e + 1, decode, n);
    }
  }

  // Where values are in a list of arguments whose first one lies before e.
  lemma ValueWhere(arg: Arg, rest: seq<Arg>, e: nat, p: nat)
    requires InValue([arg] + rest, p) && EndOf(arg) <= e
    requires forall n :: 0 <= n < |rest| && rest[n].valueOffset > 0 ==> e < rest[n].valueOffset
    ensures p < e ==> arg.valueOffset > 0 && arg.valueOffset <= p
    ensures p != e && (e < p ==> InValue(rest, p))
  {
    var n :| 0 <= n < |rest| + 1 && InValueOf(([arg] + rest)[n], p);
    if n > 0 {
      assert InValueOf(rest[n - 1], p);
    }
  }

  lemma MaskedSegment(s: string, t: string, separator: char, i: nat, rest: seq<Arg>, decode: string -> string)
    requires i < |s| && separator != '*'
    requires Starred(s, t, [Segment(s, i, Find(s, i, separator), decode)] + rest, i)
    requires forall n :: 0 <= n < |rest| && rest[n].valueOffset > 0 ==> Find(s, i, separator) < rest[n].valueOffset
    ensures var e := Find(s, i, separator);
            |t| == |s| && Find(t, i, separator) == e && Starred(s, t, rest, e + 1)
            && Segment(t, i, e, decode).(value := "") == Segment(s, i, e, decode).(value := "")
  {
    var e := Find(s, i, separator);
    var k := Find(s[..e], i, '=');
    var arg := Segment(s, i, e, decode);
    SegmentFromInput(s, separator, i, decode);
    assert arg.valueOffset > 0 ==> arg.valueOffset == k + 1 && k < e;
    forall p | i <= p < |s|
      ensures t[p] == s[p] || (t[p] == '*' && p != e && (p < e ==> k < p) && (e < p ==> InValue(rest, p)))
    {
      if t[p] != s[p] {
        ValueWhere(arg, rest, e, p);
      }
    }
    SameSegment(s, t, separator, i, e, k, decode);
  }

  lemma SameSegment(s: string, t: string, separator: char, i: nat, e: nat, k: nat, decode: string -> string)
    requires i < |s| == |t| && separator != '*' && e == Find(s, i, separator) && k == Find(s[..e], i, '=')
    requires forall p :: i <= p <= e && p < |s| ==> t[p] == s[p] || (t[p] == '*' && p != e && k < p)
    ensures Find(t, i, separator) == e
    ensures Segment(t, i, e, decode).(value := "") == Segment(s, i, e, decode).(value := "")
  {
    forall p | i <= p < e ensures t[p] != separator {
      assert s[p] == s[i..e][p - i];
    }
    ValueEnd(t, separator, i, e);
    assert s[..e][i..k] == s[i..k] == t[i..k];
    NameStop(t, i, e, k);
  }

  lemma NameStop(t: string, i: nat, e: nat, k: nat)
    requires i <= k <= e <= |t| && '=' !in t[i..k] && (k < e ==> t[k] == '=')
    ensures Find(t[..e], i, '=') == k
  {
    assert t[..e][i..k] == t[i..k];
    ValueEnd(t[..e], '=', i, k);
  }

  // A parsed argument of the body (or without an origin), or an argument of the query string, which has nothing to do with the body.
  ghost predicate BodyOrQuery(parsed: seq<Arg>, a: Marked) {
    ((a.origin == None || a.origin == Some("BODY")) && MarkedArg(parsed, a)) || a.origin == Some("QUERY_STRING")
  }

  // Byte i lies in the raw value of a marked argument of the body.
  ghost predicate InMarkedValue(parsed: seq<Arg>, marked: seq<Marked>, i: nat) {
    exists n :: 0 <= n < |parsed| && IsMarked(parsed[n], marked) && InValueOf(parsed[n], i)
  }

  ghost predicate IsMarked(arg: Arg, marked: seq<Marked>) {
    exists a :: a in marked && (a.origin == None || a.origin == Some("BODY"))
                && a.offset == arg.valueOffset && a.length == arg.valueLen
  }

  lemma MarkedValues(parsed: seq<Arg>, marked: seq<Marked>, i: nat)
    requires forall a :: a in marked ==> BodyOrQuery(parsed, a)
    ensures Masks(marked, i) <==> InMarkedValue(parsed, marked, i)
  {
    if Masks(marked, i) {
      var a :| a in marked && Selectable(a) && Covers(a, i);
      assert (a.origin == None || a.origin == Some("BODY")) && MarkedArg(parsed, a) by {
        assert BodyOrQuery(parsed, a) && "BODY" != "QUERY_STRING";
      }
      var n :| 0 <= n < |parsed| && parsed[n].valueOffset == a.offset && parsed[n].valueLen == a.length;
      assert IsMarked(parsed[n], marked) && InValueOf(parsed[n], i);
    }
    if InMarkedValue(parsed, marked, i) {
      var n :| 0 <= n < |parsed| && IsMarked(parsed[n], marked) && InValueOf(parsed[n], i);
      var a :| a in marked && (a.origin == None || a.origin == Some("BODY"))
               && a.offset == parsed[n].valueOffset && a.length == parsed[n].valueLen;
      assert Selectable(a) && Covers(a, i);
    }
  }

  /** A body and the arguments parsed from it, some of them marked, together with
      marked arguments of the query string: exactly the bytes in raw values of
      marked body arguments become stars. */
  method SanitiseParsed(body: array<char>, separator: char, decode: string -> string, marked: seq<Marked>)
    requires forall a :: a in marked ==> BodyOrQuery(ParseFrom(body[..], separator, 0, decode), a)
    modifies body
    ensures var parsed := ParseFrom(old(body[..]), separator, 0, decode);
            forall i :: 0 <= i < body.Length ==>
              body[i] == if InMarkedValue(parsed, marked, i) then '*' else old(body[i])
  {
    hide ParseFrom, BodyOrQuery, InMarkedValue, Masks;
    ghost var s := body[..];
    ghost var parsed := ParseFrom(s, separator, 0, decode);
    forall a | a in marked && Selectable(a) ensures MarkedArg(parsed, a) {
      BodyMarked(parsed, a);
    }
    ParsedConsistent(s, separator, decode, marked);
    SanitiseBody(body, marked);
    forall i: nat ensures Masks(marked, i) <==> InMarkedValue(parsed, marked, i) {
      MarkedValues(parsed, marked, i);
    }
  }

  lemma BodyMarked(parsed: seq<Arg>, a: Marked)
    requires BodyOrQuery(parsed, a) && Selectable(a)
    ensures MarkedArg(parsed, a)
  {
    assert "BODY" != "QUERY_STRING";
  }

  /** The log shows the same arguments as the body: masking marked arguments of the
      parsed body changes none of the names and places that parsing finds. */
  lemma LoggedArguments(s: string, t: string, separator: char, marked: seq<Marked>, decode: string -> string)
    requires separator != '*' && |t| == |s|
    requires forall a :: a in marked && Selectable(a) ==> MarkedArg(ParseFrom(s, separator, 0, decode), a)
    requires forall p :: 0 <= p < |s| ==> t[p] == if Masks(marked, p) then '*' else s[p]
    ensures var args, masked := ParseFrom(s, separator, 0, decode), ParseFrom(t, separator, 0, decode);
            |masked| == |args| && forall n :: 0 <= n < |args| ==> masked[n].(value := "") == args[n].(value := "")
  {
    var args := ParseFrom(s, separator, 0, decode);
    forall p | 0 <= p < |s| && Masks(marked, p) ensures InValue(args, p) {
      var a :| a in marked && Selectable(a) && Covers(a, p);
      var n :| 0 <= n < |args| && args[n].valueOffset == a.offset && args[n].valueLen == a.length;
      assert InValueOf(args[n], p);
    }
    assert Starred(s, t, args, 0);
    MaskingKeepsArguments(s, t, separator, 0, decode);
  }
}
