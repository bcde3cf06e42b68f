/** Strings of src/datastruct/str.c: leftmost search, lexicographic comparison, and splitting on a
    delimiter. A str is invalid, or denotes a (possibly empty) sequence of character values. */
module Strings {
  type Text = seq<int>

  datatype Str = Invalid | Valid(text: Text)

  // ---------------------------------------------------------------- search

  predicate OccursAt(s: Text, d: Text, i: int) {
    0 <= i && i + |d| <= |s| && s[i..i + |d|] == d
  }

  /** The leftmost occurrence of `d` in `s`, or -1. */
  ghost predicate IsLeftmost(s: Text, d: Text, pos: int) {
    if pos == -1 then forall i :: !OccursAt(s, d, i)
    else OccursAt(s, d, pos) && forall i :: OccursAt(s, d, i) ==> pos <= i
  }

  function FindFrom(s: Text, d: Text, i: nat): (pos: int)
    requires i <= |s| + 1 && forall k :: OccursAt(s, d, k) ==> i <= k
    ensures IsLeftmost(s, d, pos)
    decreases |s| + 1 - i
  {
    if i + |d| > |s| then -1
    else if s[i..i + |d|] == d then i
    else FindFrom(s, d, i + 1)
  }

  function Find(s: Text, d: Text): (pos: int)
    ensures IsLeftmost(s, d, pos)
  {
    FindFrom(s, d, 0)
  }

  /** Spelled out: the text at `pos` is the other one, and no text of that length before it is. */
  lemma LeftmostMeans(s: Text, d: Text, pos: int)
    requires IsLeftmost(s, d, pos)
    ensures pos == -1 || (0 <= pos <= |s| - |d| && s[pos..pos + |d|] == d)
    ensures forall i, j :: 0 <= i && j == i + |d| <= |s| && (pos == -1 || i < pos) ==> s[i..j] != d
  {
    assert forall i, j :: 0 <= i && j == i + |d| <= |s| && s[i..j] == d ==> OccursAt(s, d, i);
  }

  method StrFind(strval: Str, substring: Str) returns (pos: int)
    ensures strval.Invalid? || substring.Invalid? ==> pos == -1
    ensures strval.Valid? && substring.Valid? ==> IsLeftmost(strval.text, substring.text, pos)
    ensures strval.Valid? && substring.Valid? ==>
              var s, d := strval.text, substring.text;
              && (pos == -1 || (0 <= pos <= |s| - |d| && s[pos..pos + |d|] == d))
              && forall i, j :: 0 <= i && j == i + |d| <= |s| && (pos == -1 || i < pos) ==> s[i..j] != d
  {
    if strval.Invalid? || substring.Invalid? {
      return -1;
    }
    var s, d := strval.text, substring.text;
    if |s| < |d| {
      LeftmostMeans(s, d, -1);
      return -1;
    }
    var start := 0;
    while start < |s| - |d| + 1
      invariant 0 <= start <= |s| - |d| + 1
      invariant forall i :: OccursAt(s, d, i) ==> start <= i
    {
      var offset := 0;
      while offset < |d| && s[start + offset] == d[offset]
        invariant 0 <= offset <= |d|
        invariant s[start..start + offset] == d[..offset]
      {
        assert s[start..start + offset + 1] == s[start..start + offset] + [s[start + offset]];
        assert d[..offset + 1] == d[..offset] + [d[offset]];
        offset := offset + 1;
      }
      if offset == |d| {
        assert d[..offset] == d;
        LeftmostMeans(s, d, start);
        return start;
      }
      assert s[start..start + |d|][offset] != d[offset];
      start := start + 1;
    }
    LeftmostMeans(s, d, -1);
    return -1;
  }

  // ---------------------------------------------------------------- comparison

  /** Lexicographic order of character sequences, a proper prefix first: -1, 0 or 1. */
  function CompareText(a: Text, b: Text): int {
    if |a| == 0 then (if |b| == 0 then 0 else -1)
    else if |b| == 0 then 1
    else if a[0] < b[0] then -1
    else if a[0] > b[0] then 1
    else CompareText(a[1..], b[1..])
  }

  function Compare(first: Str, second: Str): int {
    match (first, second)
    case (Invalid, Invalid) => 0
    case (Invalid, Valid(_)) => -1
    case (Valid(_), Invalid) => 1
    case (Valid(a), Valid(b)) => CompareText(a, b)
  }

  lemma {:induction false} ComparePrefix(a: Text, b: Text, i: nat)
    requires i <= |a| && i <= |b| && a[..i] == b[..i]
    ensures CompareText(a, b) == CompareText(a[i..], b[i..])
  {
    if i == 0 {
      assert a[0..] == a && b[0..] == b;
    } else {
      assert a[0] == a[..i][0] && b[0] == b[..i][0];
      assert a[1..][..i - 1] == a[..i][1..] && b[1..][..i - 1] == b[..i][1..];
      ComparePrefix(a[1..], b[1..], i - 1);
      assert a[1..][i - 1..] == a[i..] && b[1..][i - 1..] == b[i..];
    }
  }

  /** The first different character decides; when there is none, the shorter text comes first. */
  lemma FirstDifferenceDecides(a: Text, b: Text, i: nat)
    requires i <= |a| && i <= |b| && a[..i] == b[..i]
    ensures i < |a| && i < |b| && a[i] < b[i] ==> CompareText(a, b) == -1
    ensures i < |a| && i < |b| && a[i] > b[i] ==> CompareText(a, b) == 1
    ensures i == |a| < |b| ==> CompareText(a, b) == -1
    ensures i == |b| < |a| ==> CompareText(a, b) == 1
    ensures i == |a| == |b| ==> CompareText(a, b) == 0
  {
    ComparePrefix(a, b, i);
  }

  method StrCompare(first: Str, second: Str) returns (order: int)
    ensures order == Compare(first, second)
    ensures first.Invalid? || second.Invalid? ==>
              order == if first.Valid? then 1 else if second.Valid? then -1 else 0
    ensures first.Valid? && second.Valid? ==>
              var a, b := first.text, second.text;
              && (order == 0 <==> a == b)
              && (forall i :: 0 <= i < |a| && i < |b| && a[..i] == b[..i] && a[i] < b[i] ==> order == -1)
              && (forall i :: 0 <= i < |a| && i < |b| && a[..i] == b[..i] && a[i] > b[i] ==> order == 1)
              && (|a| < |b| && a == b[..|a|] ==> order == -1)
              && (|b| < |a| && b == a[..|b|] ==> order == 1)
  {
    if first.Invalid? && second.Invalid? {
      return 0;
    }
    if first.Invalid? {
      return -1;
    }
    if second.Invalid? {
      return 1;
    }
    var a, b := first.text, second.text;
    var minLength := if |a| < |b| then |a| else |b|;
    var i := 0;
    while i < minLength && a[i] == b[i]
      invariant 0 <= i <= minLength
      invariant a[..i] == b[..i]
    {
      i := i + 1;
    }
    FirstDifferenceDecides(a, b, i);
    OneFirstDifference(a, b, i);
    if i == |a| {
      if |a| == |b| {
        return 0;
      }
      return -1;
    } else if i == |b| {
      return 1;
    } else if a[i] < b[i] {
      return -1;
    }
    return 1;
  }

  lemma PrefixesAgree(a: Text, b: Text, i: nat)
    requires i <= |a| && i <= |b| && a[..i] == b[..i]
    ensures forall j :: 0 <= j < i ==> a[j] == b[j]
  {
    assert forall j :: 0 <= j < i ==> a[j] == a[..i][j] && b[j] == b[..i][j];
  }

  /** Texts that agree up to `i` and not there have no other such place. */
  lemma OneFirstDifference(a: Text, b: Text, i: nat)
    requires i <= |a| && i <= |b| && a[..i] == b[..i] && (i < |a| && i < |b| ==> a[i] != b[i])
    ensures forall j :: 0 <= j < |a| && j < |b| && a[..j] == b[..j] && a[j] != b[j] ==> j == i
  {
    PrefixesAgree(a, b, i);
    forall j | 0 <= j < |a| && j < |b| && a[..j] == b[..j] && a[j] != b[j]
      ensures j == i
    {
      PrefixesAgree(a, b, j);
    }
  }

  lemma {:induction false} CompareTextOrder(a: Text, b: Text)
    ensures CompareText(a, b) == 0 <==> a == b
    ensures CompareText(a, b) == -CompareText(b, a)
  {
    if |a| > 0 && |b| > 0 && a[0] == b[0] {
      CompareTextOrder(a[1..], b[1..]);
      assert a == [a[0]] + a[1..] && b == [b[0]] + b[1..];
    }
  }

  lemma {:induction false} CompareTextTransitive(a: Text, b: Text, c: Text)
    requires CompareText(a, b) <= 0 && CompareText(b, c) <= 0
    ensures CompareText(a, c) <= 0
    ensures CompareText(a, c) == 0 ==> CompareText(a, b) == 0
  {
    if |a| > 0 && |b| > 0 && |c| > 0 && a[0] == b[0] == c[0] {
      CompareTextTransitive(a[1..], b[1..], c[1..]);
    }
  }

  /** Comparison is a total order on strs in which an invalid str comes first, and equal means equal. */
  lemma CompareIsTotalOrder(a: Str, b: Str, c: Str)
    ensures Compare(a, b) in {-1, 0, 1}
    ensures Compare(a, b) == 0 <==> a == b
    ensures Compare(a, b) == -Compare(b, a)
    ensures Compare(a, b) <= 0 && Compare(b, c) <= 0 ==> Compare(a, c) <= 0
    ensures b.Valid? ==> Compare(Invalid, b) == -1
  {
    if a.Valid? && b.Valid? {
      CompareTextOrder(a.text, b.text);
      CompareTextRange(a.text, b.text);
      if c.Valid? && Compare(a, b) <= 0 && Compare(b, c) <= 0 {
        CompareTextTransitive(a.text, b.text, c.text);
      }
    }
  }

  lemma {:induction false} CompareTextRange(a: Text, b: Text)
    ensures CompareText(a, b) in {-1, 0, 1}
  {
    if |a| > 0 && |b| > 0 {
      CompareTextRange(a[1..], b[1..]);
    }
  }

  /** A proper prefix compares less. */
  lemma PrefixIsLess(a: Text, b: Text)
    requires |a| < |b| && b[..|a|] == a
    ensures CompareText(a, b) == -1
  {
    assert a[..|a|] == a;
    ComparePrefix(a, b, |a|);
  }

  // ---------------------------------------------------------------- splitting on a delimiter

  /** What one call of `str_split_pop` returns and writes to `part`, for valid arguments. */
  function SplitPop(s: Text, d: Text): (r: (Str, Text))
  {
    var pos := Find(s, d);
    if pos == -1 then (Invalid, s) else (Valid(s[pos + |d|..]), s[..pos])
  }

  method StrSplitPop(strval: Str, delim: Str, before: Str) returns (rest: Str, part: Str)
    ensures strval.Invalid? || delim.Invalid? ==> rest == Invalid && part == before
    ensures strval.Valid? && delim.Valid? ==>
              (rest, part) == (SplitPop(strval.text, delim.text).0, Valid(SplitPop(strval.text, delim.text).1))
    ensures strval.Valid? && delim.Valid? ==>
              var s, d := strval.text, delim.text;
              && part.Valid? && (if rest.Valid? then s == part.text + d + rest.text else s == part.text)
              && forall i, j :: 0 <= i && j == i + |d| <= |s| && (rest.Invalid? || i < |part.text|) ==> s[i..j] != d
  {
    if strval.Invalid? || delim.Invalid? {
      return Invalid, before;
    }
    var pos := StrFind(strval, delim);
    LeftmostUnique(strval.text, delim.text, pos, Find(strval.text, delim.text));
    PopSplits(strval.text, delim.text);
    if pos == -1 {
      return Invalid, Valid(strval.text);
    } else {
      return Valid(strval.text[pos + |delim.text|..]), Valid(strval.text[..pos]);
    }
  }

  lemma LeftmostUnique(s: Text, d: Text, p: int, q: int)
    requires IsLeftmost(s, d, p) && IsLeftmost(s, d, q)
    ensures p == q
  {
  }

  /** The parts of `s`, popped until the remainder is invalid. */
  function Split(s: Text, d: Text): (parts: seq<Text>)
    requires |d| > 0
    ensures |parts| > 0
    decreases |s|
  {
    var (rest, part) := SplitPop(s, d);
    if rest.Invalid? then [part] else [part] + Split(rest.text, d)
  }

  function Join(parts: seq<Text>, d: Text): Text {
    if |parts| == 0 then []
    else if |parts| == 1 then parts[0]
    else parts[0] + d + Join(parts[1..], d)
  }

  /** The loop the header recommends: with a nonempty delimiter it terminates. */
  method SplitAll(strval: Str, delim: Str) returns (parts: seq<Text>)
    requires strval.Valid? && delim.Valid? && |delim.text| > 0
    ensures parts == Split(strval.text, delim.text)
  {
    parts := [];
    var s := strval;
    ghost var all := Split(strval.text, delim.text);
    while s.Valid?
      invariant if s.Valid? then all == parts + Split(s.text, delim.text) else all == parts
      decreases if s.Valid? then |s.text| + 1 else 0
    {
      var part := Invalid;
      ghost var t := s.text;
      s, part := StrSplitPop(s, delim, part);
      assert s.Valid? ==> Split(t, delim.text) == [part.text] + Split(s.text, delim.text);
      parts := parts + [part.text];
    }
  }

  /** With an empty delimiter every pop returns the whole string again: it makes progress if and only if
      the delimiter is nonempty or the loop ends. */
  lemma PopMakesProgress(s: Text, d: Text)
    ensures var (rest, part) := SplitPop(s, d);
            |d| == 0 <==> rest == Valid(s)
  {
    if |d| == 0 {
      assert OccursAt(s, d, 0);
      assert s[0..] == s;
    }
  }

  /** Joining the parts with the delimiter gives back the string. */
  lemma {:induction false} JoinSplit(s: Text, d: Text)
    requires |d| > 0
    ensures Join(Split(s, d), d) == s
    decreases |s|
  {
    var (rest, part) := SplitPop(s, d);
    PopSplits(s, d);
    if rest.Valid? {
      hide SplitPop;
      JoinSplit(rest.text, d);
      assert ([part] + Split(rest.text, d))[1..] == Split(rest.text, d);
    }
  }

  /** A pop divides the string at a delimiter, or takes all of it. */
  lemma PopSplits(s: Text, d: Text)
    ensures var (rest, part) := SplitPop(s, d);
            if rest.Valid? then s == part + d + rest.text && (|d| > 0 ==> |rest.text| < |s|) else part == s
  {
    var pos := Find(s, d);
    if pos != -1 {
      assert s == s[..pos] + s[pos..pos + |d|] + s[pos + |d|..];
    }
  }

  /** In `part` followed by the delimiter, the delimiter first occurs at the end of `part`. */
  predicate EndsCleanly(part: Text, d: Text) {
    Find(part + d, d) == |part|
  }

  /** Every non-last part ends cleanly and the last does not contain the delimiter. */
  predicate Splittable(parts: seq<Text>, d: Text)
    requires |parts| > 0
  {
    && (forall i :: 0 <= i < |parts| - 1 ==> EndsCleanly(parts[i], d))
    && Find(parts[|parts| - 1], d) == -1
  }

  /** Whether the first delimiter of `part + d + tail` is the one after `part` does not depend on the
      tail. */
  lemma FindAfterPart(part: Text, d: Text, tail: Text)
    requires |d| > 0
    ensures Find(part + d + tail, d) == |part| <==> EndsCleanly(part, d)
  {
    var s, t := part + d + tail, part + d;
    assert OccursAt(t, d, |part|) && OccursAt(s, d, |part|);
    forall i | 0 <= i <= |part|
      ensures OccursAt(s, d, i) <==> OccursAt(t, d, i)
    {
      assert s[i..i + |d|] == t[i..i + |d|];
    }
  }

  lemma SplitCons(part: Text, tail: Text, d: Text, rest: seq<Text>)
    requires |d| > 0
    ensures Split(part + d + tail, d) == [part] + rest <==> EndsCleanly(part, d) && Split(tail, d) == rest
  {
    var s := part + d + tail;
    var pos := Find(s, d);
    FindAfterPart(part, d, tail);
    assert OccursAt(s, d, |part|);
    SplitAtFound(s, d);
    hide Split, EndsCleanly, IsLeftmost, OccursAt;
    var after := Split(s[pos + |d|..], d);
    assert ([s[..pos]] + after)[1..] == after && ([part] + rest)[1..] == rest;
    if pos == |part| {
      assert s[pos + |d|..] == tail && s[..pos] == part;
    } else {
      assert |s[..pos]| != |part|;
    }
  }

  lemma SplitAtFound(s: Text, d: Text)
    requires |d| > 0 && Find(s, d) != -1
    ensures var pos := Find(s, d);
            pos >= 0 && pos + |d| <= |s| && Split(s, d) == [s[..pos]] + Split(s[pos + |d|..], d)
  {
  }

  /** Splitting a joined list gives back the list if and only if it is splittable. */
  lemma {:induction false} SplitJoin(parts: seq<Text>, d: Text)
    requires |parts| > 0 && |d| > 0
    ensures Split(Join(parts, d), d) == parts <==> Splittable(parts, d)
  {
    if |parts| == 1 {
      SplitOne(parts[0], d);
      assert parts == [parts[0]];
    } else {
      hide Split, EndsCleanly, Find;
      SplitJoin(parts[1..], d);
      SplitCons(parts[0], Join(parts[1..], d), d, parts[1..]);
      assert parts == [parts[0]] + parts[1..];
      SplittableCons(parts, d);
    }
  }

  lemma SplittableCons(parts: seq<Text>, d: Text)
    requires |parts| > 1
    ensures Splittable(parts, d) <==> EndsCleanly(parts[0], d) && Splittable(parts[1..], d)
  {
    hide EndsCleanly, Find;
    var rest := parts[1..];
    assert forall i :: 0 <= i < |rest| ==> rest[i] == parts[i + 1];
    assert forall i :: 0 < i < |parts| ==> parts[i] == rest[i - 1];
  }

  lemma SplitOne(part: Text, d: Text)
    requires |d| > 0
    ensures Split(part, d) == [part] <==> Find(part, d) == -1
  {
    if Find(part, d) != -1 {
      assert |Split(part, d)| >= 2;
    }
  }
}
