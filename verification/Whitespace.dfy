/** Splitting on whitespace (src/datastruct/str.c): `str_split_whitespace_pop` and the words of a text. */
module Whitespace {
  import opened Strings

  const NEWLINE := 10

  /** `isspace` in the "C" locale: space, and tab to carriage return. */
  predicate IsSpace(c: int) {
    c == 32 || 9 <= c <= 13
  }

  predicate AllSpace(s: Text) {
    forall i :: 0 <= i < |s| ==> IsSpace(s[i])
  }

  predicate NoSpace(s: Text) {
    forall i :: 0 <= i < |s| ==> !IsSpace(s[i])
  }

  // ---------------------------------------------------------------- words, character by character

  function Flush(current: Text): seq<Text> {
    if |current| == 0 then [] else [current]
  }

  function WordsFrom(current: Text, s: Text): seq<Text>
    decreases |s|
  {
    if |s| == 0 then Flush(current)
    else if IsSpace(s[0]) then Flush(current) + WordsFrom([], s[1..])
    else WordsFrom(current + [s[0]], s[1..])
  }

  /** The words of a text: its maximal runs of non-space characters, in order. */
  function Words(s: Text): seq<Text> {
    WordsFrom([], s)
  }

  lemma {:induction false} SpaceSeparates(current: Text, a: Text, c: int, b: Text)
    requires IsSpace(c)
    ensures WordsFrom(current, a + [c] + b) == WordsFrom(current, a) + Words(b)
    decreases |a|
  {
    var s := a + [c] + b;
    if |a| == 0 {
      assert s[1..] == b;
    } else {
      assert s[1..] == a[1..] + [c] + b;
      SpaceSeparates(if IsSpace(a[0]) then [] else current + [a[0]], a[1..], c, b);
    }
  }

  lemma {:induction false} WordExtends(current: Text, w: Text, s: Text)
    requires NoSpace(w)
    ensures WordsFrom(current, w + s) == WordsFrom(current + w, s)
    decreases |w|
  {
    if |w| == 0 {
      assert w + s == s && current + w == current;
    } else {
      assert (w + s)[1..] == w[1..] + s;
      WordExtends(current + [w[0]], w[1..], s);
      assert current + [w[0]] + w[1..] == current + w;
    }
  }

  lemma {:induction false} LeadingSpaceIgnored(lead: Text, s: Text)
    requires AllSpace(lead)
    ensures Words(lead + s) == Words(s)
    decreases |lead|
  {
    if |lead| == 0 {
      assert lead + s == s;
    } else {
      assert (lead + s)[1..] == lead[1..] + s;
      LeadingSpaceIgnored(lead[1..], s);
    }
  }

  /** A word, then whitespace or nothing, then the rest. */
  lemma WordThenRest(w: Text, gap: Text, s: Text)
    requires |w| > 0 && NoSpace(w) && AllSpace(gap) && (|gap| > 0 || |s| == 0)
    ensures Words(w + gap + s) == [w] + Words(s)
  {
    WordExtends([], w, gap + s);
    assert w + gap + s == w + (gap + s) && [] + w == w;
    if |gap| > 0 {
      assert (gap + s)[1..] == gap[1..] + s;
      LeadingSpaceIgnored(gap[1..], s);
    }
  }

  lemma NoWords()
    ensures Words([]) == []
  {
  }

  // ---------------------------------------------------------------- the maximal runs

  datatype Span = Span(from: nat, to: nat)

  predicate MaximalRun(s: Text, r: Span) {
    && r.from < r.to <= |s|
    && (forall i :: r.from <= i < r.to ==> !IsSpace(s[i]))
    && (r.from == 0 || IsSpace(s[r.from - 1]))
    && (r.to == |s| || IsSpace(s[r.to]))
  }

  /** The runs found when scanning from `i` with a run pending since `start`. */
  function RunsFrom(s: Text, start: nat, i: nat): seq<Span>
    requires start <= i <= |s|
    decreases |s| - i
  {
    if i == |s| then (if start < i then [Span(start, i)] else [])
    else if IsSpace(s[i]) then (if start < i then [Span(start, i)] else []) + RunsFrom(s, i + 1, i + 1)
    else RunsFrom(s, start, i + 1)
  }

  predicate InBounds(s: Text, runs: seq<Span>, start: nat) {
    forall k :: 0 <= k < |runs| ==> start <= runs[k].from <= runs[k].to <= |s|
  }

  /** The texts of the runs. */
  function TextsOf(s: Text, runs: seq<Span>): (words: seq<Text>)
    requires InBounds(s, runs, 0)
    ensures |words| == |runs| && forall k :: 0 <= k < |runs| ==> words[k] == s[runs[k].from..runs[k].to]
  {
    seq(|runs|, k requires 0 <= k < |runs| => s[runs[k].from..runs[k].to])
  }

  lemma TextsOfCons(s: Text, r: Span, rest: seq<Span>, start: nat, later: nat)
    requires start <= r.from <= r.to <= |s| && start <= later && InBounds(s, rest, later)
    ensures InBounds(s, rest, 0) && InBounds(s, [r] + rest, 0) && InBounds(s, [r] + rest, start)
    ensures TextsOf(s, [r] + rest) == [s[r.from..r.to]] + TextsOf(s, rest)
  {
  }

  lemma {:induction false} RunsAreWords(s: Text, start: nat, i: nat)
    requires start <= i <= |s|
    ensures InBounds(s, RunsFrom(s, start, i), start) && InBounds(s, RunsFrom(s, start, i), 0)
    ensures TextsOf(s, RunsFrom(s, start, i)) == WordsFrom(s[start..i], s[i..])
    decreases |s| - i
  {
    WordsStep(s, start, i);
    if i < |s| {
      RunsStep(s, start, i);
      hide WordsFrom, RunsFrom, TextsOf, InBounds;
      if IsSpace(s[i]) {
        RunsAreWords(s, i + 1, i + 1);
        var rest := RunsFrom(s, i + 1, i + 1);
        if start < i {
          TextsOfCons(s, Span(start, i), rest, start, i + 1);
        } else {
          InBoundsEarlier(s, rest, start, i + 1);
        }
      } else {
        RunsAreWords(s, start, i + 1);
      }
    }
  }

  lemma RunsStep(s: Text, start: nat, i: nat)
    requires start <= i < |s|
    ensures RunsFrom(s, start, i) ==
            if !IsSpace(s[i]) then RunsFrom(s, start, i + 1)
            else if start < i then [Span(start, i)] + RunsFrom(s, i + 1, i + 1)
            else RunsFrom(s, i + 1, i + 1)
  {
    assert [] + RunsFrom(s, i + 1, i + 1) == RunsFrom(s, i + 1, i + 1);
  }

  lemma InBoundsEarlier(s: Text, runs: seq<Span>, start: nat, later: nat)
    requires InBounds(s, runs, later) && start <= later
    ensures InBounds(s, runs, start)
  {
  }

  lemma WordsStep(s: Text, start: nat, i: nat)
    requires start <= i <= |s|
    ensures WordsFrom(s[start..i], s[i..]) ==
            if i == |s| then (if start < i then [s[start..i]] else [])
            else if !IsSpace(s[i]) then WordsFrom(s[start..i + 1], s[i + 1..])
            else if start < i then [s[start..i]] + WordsFrom(s[i + 1..i + 1], s[i + 1..])
            else WordsFrom(s[i + 1..i + 1], s[i + 1..])
  {
    if i < |s| {
      assert s[i..][0] == s[i] && s[i..][1..] == s[i + 1..] && s[i + 1..i + 1] == [];
      assert s[start..i + 1] == s[start..i] + [s[i]];
    }
  }

  /** A run is pending since `start`, which is the beginning of the text or follows whitespace. */
  predicate Pending(s: Text, start: nat, i: nat) {
    start <= i <= |s| && (start == 0 || IsSpace(s[start - 1])) && forall k :: start <= k < i ==> !IsSpace(s[k])
  }

  predicate RunsInOrder(s: Text, runs: seq<Span>, start: nat) {
    && (forall k :: 0 <= k < |runs| ==> MaximalRun(s, runs[k]) && start <= runs[k].from)
    && (forall k, l :: 0 <= k < l < |runs| ==> runs[k].to < runs[l].from)
  }

  lemma RunThenRuns(s: Text, r: Span, rest: seq<Span>)
    requires MaximalRun(s, r) && RunsInOrder(s, rest, r.to + 1)
    ensures RunsInOrder(s, [r] + rest, r.from)
  {
    var runs := [r] + rest;
    forall k | 0 <= k < |runs|
      ensures MaximalRun(s, runs[k]) && r.from <= runs[k].from && (k > 0 ==> r.to < runs[k].from)
    {
      assert k > 0 ==> runs[k] == rest[k - 1];
    }
    forall k, l | 0 <= k < l < |runs|
      ensures runs[k].to < runs[l].from
    {
      assert runs[l] == rest[l - 1] && (k > 0 ==> runs[k] == rest[k - 1]);
    }
  }

  lemma RunsFromEarlier(s: Text, runs: seq<Span>, start: nat, later: nat)
    requires RunsInOrder(s, runs, later) && start <= later
    ensures RunsInOrder(s, runs, start)
  {
  }

  lemma PendingRun(s: Text, start: nat, i: nat)
    requires Pending(s, start, i) && (i == |s| || IsSpace(s[i]))
    ensures RunsInOrder(s, if start < i then [Span(start, i)] else [], start)
    ensures start < i ==> MaximalRun(s, Span(start, i))
  {
  }

  lemma {:induction false} RunsAreMaximal(s: Text, start: nat, i: nat)
    requires Pending(s, start, i)
    ensures RunsInOrder(s, RunsFrom(s, start, i), start)
    decreases |s| - i
  {
    hide RunsInOrder, MaximalRun;
    if i == |s| {
      PendingRun(s, start, i);
    } else if IsSpace(s[i]) {
      RunsAreMaximal(s, i + 1, i + 1);
      PendingRun(s, start, i);
      var rest := RunsFrom(s, i + 1, i + 1);
      if start < i {
        RunThenRuns(s, Span(start, i), rest);
      } else {
        assert [] + rest == rest;
        RunsFromEarlier(s, rest, start, i + 1);
      }
    } else {
      RunsAreMaximal(s, start, i + 1);
    }
  }

  lemma {:induction false} MaximalRunIsFound(s: Text, start: nat, i: nat, r: Span)
    requires Pending(s, start, i) && MaximalRun(s, r) && start <= r.from
    ensures r in RunsFrom(s, start, i)
    decreases |s| - i
  {
    if i == |s| {
      assert r == Span(start, i);
    } else if IsSpace(s[i]) {
      if r.from <= i {
        assert r == Span(start, i);
      } else {
        MaximalRunIsFound(s, i + 1, i + 1, r);
      }
    } else {
      MaximalRunIsFound(s, start, i + 1, r);
    }
  }

  /** The words of a text are exactly its maximal non-space runs, in order. */
  lemma WordsAreMaximalRuns(s: Text) returns (runs: seq<Span>)
    ensures |runs| == |Words(s)|
    ensures forall k :: 0 <= k < |runs| ==> MaximalRun(s, runs[k]) && Words(s)[k] == s[runs[k].from..runs[k].to]
    ensures forall k, l :: 0 <= k < l < |runs| ==> runs[k].to < runs[l].from
    ensures forall r :: MaximalRun(s, r) ==> r in runs
  {
    runs := RunsFrom(s, 0, 0);
    RunsAreWords(s, 0, 0);
    RunsAreMaximal(s, 0, 0);
    forall r | MaximalRun(s, r)
      ensures r in runs
    {
      MaximalRunIsFound(s, 0, 0, r);
    }
    assert s[0..0] == [] && s[0..] == s;
  }

  // ---------------------------------------------------------------- popping

  /** The end of the whitespace that starts at `i`. */
  function SpaceEnd(s: Text, i: nat): (j: nat)
    requires i <= |s|
    ensures i <= j <= |s| && (forall k :: i <= k < j ==> IsSpace(s[k])) && (j < |s| ==> !IsSpace(s[j]))
    decreases |s| - i
  {
    if i < |s| && IsSpace(s[i]) then SpaceEnd(s, i + 1) else i
  }

  /** The end of the word that starts at `i`. */
  function WordEnd(s: Text, i: nat): (j: nat)
    requires i <= |s|
    ensures i <= j <= |s| && (forall k :: i <= k < j ==> !IsSpace(s[k])) && (j < |s| ==> IsSpace(s[j]))
    decreases |s| - i
  {
    if i < |s| && !IsSpace(s[i]) then WordEnd(s, i + 1) else i
  }

  /** What one call of `str_split_whitespace_pop` returns and writes to `part`, for a valid str. */
  function WhitespacePop(s: Text): (r: (Str, Text)) {
    var start := SpaceEnd(s, 0);
    var end := WordEnd(s, start);
    var next := SpaceEnd(s, end);
    (if next == |s| then Invalid else Valid(s[next..]), s[start..end])
  }

  /** The part holds no whitespace character, and the rest does not start with one. */
  lemma PopSeparates(s: Text)
    ensures var (rest, part) := WhitespacePop(s);
            && (forall c :: c in part ==> c !in {9, 10, 11, 12, 13, 32})
            && (rest.Valid? ==> |rest.text| > 0 && rest.text[0] !in {9, 10, 11, 12, 13, 32})
  {
    hide SpaceEnd, WordEnd;
    var (rest, part) := WhitespacePop(s);
    var start := SpaceEnd(s, 0);
    assert forall i :: 0 <= i < |part| ==> part[i] == s[start + i];
  }

  /** `str_split_whitespace_pop`; the first test is guarded here for an empty string, which the source
      reads past. */
  method SplitWhitespacePop(strval: Str, before: Str) returns (rest: Str, part: Str)
    ensures strval.Invalid? ==> rest == Invalid && part == before
    ensures strval.Valid? ==> (rest, part) == (WhitespacePop(strval.text).0, Valid(WhitespacePop(strval.text).1))
    ensures strval.Valid? ==>
              && part.Valid? && (forall c :: c in part.text ==> c !in {9, 10, 11, 12, 13, 32})
              && (rest.Valid? ==> |rest.text| > 0 && rest.text[0] !in {9, 10, 11, 12, 13, 32})
  {
    if strval.Invalid? {
      return Invalid, before;
    }
    hide IsSpace;
    var s := strval.text;
    var start, pos := 0, 0;
    if |s| > 0 && IsSpace(s[0]) {
      while start < |s| && IsSpace(s[start])
        invariant 0 <= start <= |s| && SpaceEnd(s, start) == SpaceEnd(s, 0)
      {
        start := start + 1;
      }
    }
    pos := start;
    while pos < |s| && !IsSpace(s[pos])
      invariant start <= pos <= |s| && WordEnd(s, pos) == WordEnd(s, start)
    {
      pos := pos + 1;
    }
    part := Valid(s[start..pos]);
    ghost var end := pos;
    while pos < |s| && IsSpace(s[pos])
      invariant end <= pos <= |s| && SpaceEnd(s, pos) == SpaceEnd(s, end)
    {
      pos := pos + 1;
    }
    PopSeparates(s);
    if pos == |s| {
      return Invalid, part;
    }
    return Valid(s[pos..]), part;
  }

  /** What popping means for the words of a text: `part` is the first word and the rest, which is
      shorter and starts with a word, holds the others; without a word, `part` is empty. */
  lemma PopWords(s: Text)
    ensures var (rest, part) := WhitespacePop(s);
            && (rest.Valid? ==> |part| > 0 && 0 < |rest.text| < |s| && !IsSpace(rest.text[0]))
            && (|part| == 0 ==> Words(s) == [])
            && (|part| > 0 ==> Words(s) == [part] + if rest.Valid? then Words(rest.text) else [])
  {
    var start := SpaceEnd(s, 0);
    var end := WordEnd(s, start);
    var next := SpaceEnd(s, end);
    SectionsMakeWords(s, start, end, next);
  }

  lemma WordEndIs(s: Text, i: nat, j: nat)
    requires i <= j <= |s| && NoSpace(s[i..j]) && (j < |s| ==> IsSpace(s[j]))
    ensures WordEnd(s, i) == j
  {
    hide WordEnd, IsSpace;
    assert forall k :: i <= k < j ==> s[k] == s[i..j][k - i];
  }

  lemma SpaceEndIs(s: Text, i: nat, j: nat)
    requires i <= j <= |s| && AllSpace(s[i..j]) && (j < |s| ==> !IsSpace(s[j]))
    ensures SpaceEnd(s, i) == j
  {
    hide SpaceEnd, IsSpace;
    assert forall k :: i <= k < j ==> s[k] == s[i..j][k - i];
  }

  /** Exactly tab, newline, vertical tab, form feed, carriage return and space separate words: between two
      words, such a character ends the first, and any other makes one word of the two. */
  lemma SeparatorIff(a: Text, c: int, b: Text)
    requires |a| > 0 && |b| > 0 && forall x :: x in a || x in b ==> x !in {9, 10, 11, 12, 13, 32}
    ensures var s := a + [c] + b;
            if c in {9, 10, 11, 12, 13, 32} then WhitespacePop(s) == (Valid(b), a) && Words(s) == [a, b]
            else WhitespacePop(s) == (Invalid, s) && Words(s) == [s]
  {
    assert NoSpace(a) && NoSpace(b) by {
      assert forall i :: 0 <= i < |a| ==> a[i] in a;
      assert forall i :: 0 <= i < |b| ==> b[i] in b;
    }
    if IsSpace(c) {
      SpaceDivides(a, c, b);
    } else {
      assert NoSpace(a + [c] + b);
      hide NoSpace;
      WordPops(a + [c] + b);
    }
  }

  lemma SpaceDivides(a: Text, c: int, b: Text)
    requires |a| > 0 && |b| > 0 && NoSpace(a) && NoSpace(b) && IsSpace(c)
    ensures WhitespacePop(a + [c] + b) == (Valid(b), a) && Words(a + [c] + b) == [a, b]
  {
    var s := a + [c] + b;
    assert s[0] == a[0] && s[|a|] == c && s[|a| + 1] == b[0];
    assert s[0..|a|] == a && s[|a|..|a| + 1] == [c] && s[|a| + 1..] == b;
    hide IsSpace, Words, SpaceEnd, WordEnd;
    SpaceEndIs(s, 0, 0);
    WordEndIs(s, 0, |a|);
    SpaceEndIs(s, |a|, |a| + 1);
    WordIsItsWords(b);
    hide AllSpace, NoSpace;
    PopWords(s);
  }

  lemma WordPops(w: Text)
    requires |w| > 0 && NoSpace(w)
    ensures WhitespacePop(w) == (Invalid, w) && Words(w) == [w]
  {
    assert w[0..|w|] == w;
    hide IsSpace, Words, SpaceEnd, WordEnd;
    SpaceEndIs(w, 0, 0);
    WordEndIs(w, 0, |w|);
    SpaceEndIs(w, |w|, |w|);
    WordIsItsWords(w);
  }

  lemma WordIsItsWords(w: Text)
    requires |w| > 0 && NoSpace(w)
    ensures Words(w) == [w]
  {
    WordThenRest(w, [], []);
    NoWords();
    assert w + [] + [] == w;
  }

  /** Whitespace up to `start`, a word up to `end`, whitespace up to `next`. */
  lemma SectionsMakeWords(s: Text, start: nat, end: nat, next: nat)
    requires start <= end <= next <= |s| && AllSpace(s[..start]) && NoSpace(s[start..end]) && AllSpace(s[end..next])
    requires (start == end ==> end == |s|) && (end < |s| ==> end < next)
    ensures Words(s) == if start == end then [] else [s[start..end]] + Words(s[next..])
    ensures Words([]) == []
  {
    hide AllSpace, NoSpace, WordsFrom;
    NoWords();
    LeadingSpaceIgnored(s[..start], s[start..]);
    assert s == s[..start] + s[start..];
    if start == end {
      assert s[start..] == [];
    } else {
      WordThenRest(s[start..end], s[end..next], s[next..]);
      assert s[start..] == s[start..end] + s[end..next] + s[next..];
    }
  }

  /** The loop over `str_split_whitespace_pop` terminates and yields the words of the text, or a single
      empty part when there are none. */
  method SplitAllWhitespace(s: Text) returns (parts: seq<Text>)
    ensures parts == if Words(s) == [] then [[]] else Words(s)
  {
    parts := [];
    var line := Valid(s);
    while line.Valid?
      invariant if line.Valid? then parts + PartsOf(line.text) == PartsOf(s) else parts == PartsOf(s)
      decreases if line.Valid? then |line.text| + 1 else 0
    {
      var word := Invalid;
      ghost var t := line.text;
      line, word := SplitWhitespacePop(line, word);
      PopParts(t);
      ghost var was := parts;
      parts := parts + [word.text];
      assert line.Valid? ==> was + ([word.text] + PartsOf(line.text)) == parts + PartsOf(line.text);
    }
  }

  function PartsOf(s: Text): seq<Text> {
    if Words(s) == [] then [[]] else Words(s)
  }

  lemma PopParts(s: Text)
    ensures var (rest, part) := WhitespacePop(s);
            && (rest.Valid? ==> |rest.text| < |s|)
            && PartsOf(s) == [part] + if rest.Valid? then PartsOf(rest.text) else []
  {
    var (rest, part) := WhitespacePop(s);
    PopWords(s);
    if rest.Valid? {
      FirstIsWord(rest.text);
    }
  }

  lemma FirstIsWord(s: Text)
    requires |s| > 0 && !IsSpace(s[0])
    ensures Words(s) != []
  {
    NonemptyCurrent([s[0]], s[1..]);
    assert [] + [s[0]] == [s[0]];
  }

  lemma {:induction false} NonemptyCurrent(current: Text, s: Text)
    requires |current| > 0
    ensures WordsFrom(current, s) != []
    decreases |s|
  {
    if |s| > 0 && !IsSpace(s[0]) {
      NonemptyCurrent(current + [s[0]], s[1..]);
    }
  }

  // ---------------------------------------------------------------- joining words

  /** Words with a gap after each but the last, and trailing whitespace. */
  function JoinWords(words: seq<Text>, gaps: seq<Text>, trail: Text): Text
    requires |gaps| == |words|
    decreases |words|
  {
    if |words| == 0 then trail
    else if |words| == 1 then words[0] + trail
    else words[0] + gaps[0] + JoinWords(words[1..], gaps[1..], trail)
  }

  /** Joining words with any nonempty whitespace, plus leading and trailing whitespace, gives a text
      with the same words. */
  lemma {:induction false} JoinedWords(words: seq<Text>, gaps: seq<Text>, lead: Text, trail: Text)
    requires |gaps| == |words| && AllSpace(lead) && AllSpace(trail)
    requires forall i :: 0 <= i < |words| ==> |words[i]| > 0 && NoSpace(words[i]) && |gaps[i]| > 0 && AllSpace(gaps[i])
    ensures Words(lead + JoinWords(words, gaps, trail)) == words
    decreases |words|
  {
    LeadingSpaceIgnored(lead, JoinWords(words, gaps, trail));
    if |words| == 0 {
      LeadingSpaceIgnored(trail, []);
      assert trail + [] == trail;
    } else if |words| == 1 {
      WordThenRest(words[0], trail, []);
      assert words[0] + trail + [] == words[0] + trail;
      assert words == [words[0]] + [];
    } else {
      var tail := JoinWords(words[1..], gaps[1..], trail);
      JoinedWords(words[1..], gaps[1..], [], trail);
      assert [] + tail == tail;
      WordThenRest(words[0], gaps[0], tail);
      assert words == [words[0]] + words[1..];
    }
  }

  // ---------------------------------------------------------------- lines

  /** The words of each line in turn. */
  function LineWords(lines: seq<Text>): seq<Text> {
    if |lines| == 0 then [] else Words(lines[0]) + LineWords(lines[1..])
  }

  /** Splitting a stream at newlines and each line on whitespace gives the words of the whole stream,
      because a newline is itself whitespace. */
  lemma {:induction false} LinesHaveTheSameWords(stream: Text)
    ensures LineWords(Split(stream, [NEWLINE])) == Words(stream)
    decreases |stream|
  {
    var d := [NEWLINE];
    var (rest, part) := SplitPop(stream, d);
    if rest.Invalid? {
      assert LineWords([stream]) == Words(stream) + [];
    } else {
      var pos := Find(stream, d);
      assert stream == part + d + rest.text;
      SpaceSeparates([], part, NEWLINE, rest.text);
      LinesHaveTheSameWords(rest.text);
      var lines := Split(rest.text, d);
      assert ([part] + lines)[1..] == lines;
    }
  }
}
