/** The empty-directory computation of scripts/superclean.py, below a root directory. A path is the list
    of names from the root down; texts are what the script builds from them. */
module SuperClean {
  import opened Sequences
  import opened Strings

  type Name = Text
  type Path = seq<Name>

  const SLASH: Text := [47]
  /** ".git" and "/.git/" */
  const GIT: Text := [46, 103, 105, 116]
  const GIT_INSIDE: Text := [47, 46, 103, 105, 116, 47]

  predicate IsName(n: Name) {
    |n| > 0 && 47 !in n
  }

  predicate IsPath(p: Path) {
    forall i :: 0 <= i < |p| ==> IsName(p[i])
  }

  // ---------------------------------------------------------------- paths and their texts

  /** The key of a directory in the script's counter: its names joined by slashes; "" for the root. */
  function Key(p: Path): Text {
    Join(p, SLASH)
  }

  predicate SlashEnded(root: Text) {
    |root| > 0 && root[|root| - 1] == 47
  }

  /** The name `os.walk` reports. */
  function FullName(root: Text, p: Path): Text {
    if |p| == 0 then root
    else if SlashEnded(root) then root + Key(p)
    else root + SLASH + Key(p)
  }

  /** `os.path.join`, one part at a time. */
  function JoinPath(parts: seq<Text>): Text
    requires |parts| > 0
  {
    if |parts| == 1 then parts[0]
    else
      var path, b := JoinPath(parts[..|parts| - 1]), parts[|parts| - 1];
      if |b| > 0 && b[0] == 47 then b
      else if |path| == 0 || path[|path| - 1] == 47 then path + b
      else path + SLASH + b
  }

  lemma NameHasNoSlash(n: Name)
    requires IsName(n)
    ensures Find(n, SLASH) == -1 && EndsCleanly(n, SLASH)
  {
    assert forall i :: OccursAt(n, SLASH, i) ==> n[i..i + 1][0] == 47 && n[i] in n;
    var t := n + SLASH;
    assert OccursAt(t, SLASH, |n|);
    assert forall i :: OccursAt(t, SLASH, i) && i < |n| ==> t[i..i + 1][0] == 47 && n[i] in n;
  }

  lemma {:induction false} KeySnoc(p: Path, n: Name)
    ensures Key(p + [n]) == if |p| == 0 then n else Key(p) + SLASH + n
    decreases |p|
  {
    if |p| > 0 {
      assert (p + [n])[1..] == p[1..] + [n];
      KeySnoc(p[1..], n);
      if |p| > 1 {
        assert Key(p + [n]) == p[0] + SLASH + (Key(p[1..]) + SLASH + n);
        assert Key(p) == p[0] + SLASH + Key(p[1..]);
      }
    }
  }

  /** The text after the root splits into an empty part and the names of the path. */
  lemma SplitsIntoNames(p: Path)
    requires IsPath(p)
    ensures Split(if |p| == 0 then [] else SLASH + Key(p), SLASH) == [[]] + p
  {
    var parts := [[]] + p;
    if |p| == 0 {
      assert forall i :: !OccursAt([], SLASH, i);
      assert parts == [[]];
    } else {
      assert parts[1..] == p;
      assert Join(parts, SLASH) == SLASH + Key(p);
      forall i | 0 <= i < |parts|
        ensures EndsCleanly(parts[i], SLASH) && Find(parts[i], SLASH) == -1
      {
        if i == 0 {
          EmptyEndsCleanly();
        } else {
          NameHasNoSlash(parts[i]);
        }
      }
      SplitJoin(parts, SLASH);
    }
  }

  lemma EmptyEndsCleanly()
    ensures EndsCleanly([], SLASH) && Find([], SLASH) == -1
  {
    assert [] + SLASH == SLASH;
    assert OccursAt(SLASH, SLASH, 0);
  }

  /** Joining the empty part and the first names gives the key of the directory they name. */
  lemma {:induction false} JoinPathIsKey(p: Path)
    requires IsPath(p)
    ensures JoinPath([[]] + p) == Key(p)
    ensures |p| > 0 ==> |Key(p)| > 0 && Key(p)[|Key(p)| - 1] != 47
    decreases |p|
  {
    if |p| > 0 {
      var front, n := p[..|p| - 1], p[|p| - 1];
      assert p == front + [n];
      JoinPathIsKey(front);
      KeySnoc(front, n);
      JoinPathStep(front, n);
      hide JoinPath, Key;
      assert n[|n| - 1] in n;
    }
  }

  lemma JoinPathStep(front: Path, n: Name)
    requires IsName(n) && JoinPath([[]] + front) == Key(front)
    requires |front| > 0 ==> |Key(front)| > 0 && Key(front)[|Key(front)| - 1] != 47
    ensures JoinPath([[]] + (front + [n])) == if |front| == 0 then n else Key(front) + SLASH + n
  {
    var parts := [[]] + (front + [n]);
    assert parts[..|parts| - 1] == [[]] + front && n[0] in n;
  }

  /** Different paths have different keys. */
  lemma KeyInjective(p: Path, q: Path)
    requires IsPath(p) && IsPath(q) && Key(p) == Key(q)
    ensures p == q
  {
    JoinPathIsKey(p);
    JoinPathIsKey(q);
    SplitsIntoNames(p);
    SplitsIntoNames(q);
    assert p == ([[]] + p)[1..] && q == ([[]] + q)[1..];
  }

  /** The directory a key names. */
  function PathOf(k: Text): Path {
    if |k| == 0 then [] else Split(k, SLASH)
  }

  lemma PathOfKey(p: Path)
    requires IsPath(p)
    ensures PathOf(Key(p)) == p
  {
    JoinPathIsKey(p);
    if |p| > 0 {
      forall i | 0 <= i < |p|
        ensures EndsCleanly(p[i], SLASH) && Find(p[i], SLASH) == -1
      {
        NameHasNoSlash(p[i]);
      }
      SplitJoin(p, SLASH);
    }
  }

  /** A directory strictly below another has a longer key that starts with the other's, so it sorts after
      it. */
  lemma BelowSortsAfter(d: Path, e: Path)
    requires IsPath(d) && IsPath(e) && d < e
    ensures CompareText(Key(d), Key(e)) == -1
    decreases |e|
  {
    var front, n := e[..|e| - 1], e[|e| - 1];
    assert e == front + [n];
    KeySnoc(front, n);
    JoinPathIsKey(e);
    if |d| < |front| {
      BelowSortsAfter(d, front);
      PrefixIsLess(Key(front), Key(e));
      CompareTextTransitive(Key(d), Key(front), Key(e));
      CompareTextRange(Key(d), Key(e));
    } else {
      assert d == front;
      PrefixIsLess(Key(d), Key(e));
    }
  }

  // ---------------------------------------------------------------- the walked tree

  /** A directory as `os.walk` reports it: its path below the root and the names of its files. */
  datatype Dir = Dir(path: Path, files: set<Name>)

  type File = (Path, Name)

  /** Directories inside a ".git" directory are passed over. */
  predicate Skips(root: Text, p: Path) {
    FullName(root, p) == GIT || Find(FullName(root, p), GIT_INSIDE) != -1
  }

  predicate Kept(root: Text, d: Dir) {
    !Skips(root, d.path)
  }

  // ---------------------------------------------------------------- what is passed over

  /** The text of an absolute path, with a slash at its end or not. */
  function AbsoluteText(names: Path, slash: bool): Text {
    if |names| == 0 then SLASH else SLASH + Key(names) + if slash then SLASH else []
  }

  lemma {:induction false} KeyConcat(a: Path, b: Path)
    requires |a| > 0 && |b| > 0
    ensures Key(a + b) == Key(a) + SLASH + Key(b)
    decreases |a|
  {
    assert (a + b)[1..] == a[1..] + b;
    if |a| > 1 {
      KeyConcat(a[1..], b);
      assert Key(a + b) == a[0] + SLASH + (Key(a[1..]) + SLASH + Key(b));
      assert Key(a) == a[0] + SLASH + Key(a[1..]);
    } else {
      assert a[1..] + b == b;
    }
  }

  /** In a slash, a name and the rest, "/.git/" occurs at the start if that is the name, and otherwise only in
      the rest. */
  lemma GitStartsName(n: Name, tail: Text, pos: nat)
    requires IsName(n) && (|tail| > 0 ==> tail[0] == 47)
    requires pos <= |n| && OccursAt(SLASH + n + tail, GIT_INSIDE, pos)
    ensures pos == 0 && n == GIT && |tail| > 0
  {
    var t := SLASH + n + tail;
    var piece := t[pos..pos + 6];
    assert forall i :: 0 <= i < 6 ==> piece[i] == t[pos + i];
    assert piece == GIT_INSIDE;
    hide OccursAt;
    assert t[pos] == 47 && t[pos + 1] == 46 && t[pos + 2] == 103 && t[pos + 3] == 105 && t[pos + 4] == 116;
    assert t[pos + 5] == 47;
    assert forall i :: 1 <= i <= |n| ==> t[i] in n;
    assert pos == 0;
    assert |n| == 4;
    assert n[0] == t[1] && n[1] == t[2] && n[2] == t[3] && n[3] == t[4];
  }

  lemma GitNameOccurs(tail: Text)
    requires |tail| > 0 && tail[0] == 47
    ensures OccursAt(SLASH + GIT + tail, GIT_INSIDE, 0)
  {
    var t := SLASH + GIT + tail;
    assert t[0..6] == GIT_INSIDE;
  }

  lemma OccursInTail(head: Text, tail: Text, pos: nat)
    requires pos >= |head|
    ensures OccursAt(head + tail, GIT_INSIDE, pos) <==> OccursAt(tail, GIT_INSIDE, pos - |head|)
  {
    var t, at := head + tail, pos - |head|;
    if pos + 6 <= |t| {
      assert t[pos..pos + 6] == tail[at..at + 6];
    }
  }

  lemma {:induction false} GitInside(names: Path)
    requires IsPath(names) && |names| > 0
    ensures (exists pos :: OccursAt(SLASH + Key(names), GIT_INSIDE, pos)) <==>
            exists i :: 0 <= i < |names| - 1 && names[i] == GIT
    decreases |names|
  {
    var n, rest := names[0], names[1..];
    var tail := if |rest| == 0 then [] else SLASH + Key(rest);
    var text := SLASH + n + tail;
    assert SLASH + Key(names) == text && (SLASH + n) + tail == text;
    if |rest| > 0 {
      GitInside(rest);
    } else {
      NothingInside();
    }
    hide Key, OccursAt;
    if pos :| OccursAt(text, GIT_INSIDE, pos) {
      OccursSomewhere(text, pos);
      if pos <= |n| {
        GitStartsName(n, tail, pos);
      } else {
        OccursInTail(SLASH + n, tail, pos);
        var i :| 0 <= i < |rest| - 1 && rest[i] == GIT;
        assert names[i + 1] == GIT;
      }
    }
    if i :| 0 <= i < |names| - 1 && names[i] == GIT {
      if i == 0 {
        GitNameOccurs(tail);
      } else {
        assert rest[i - 1] == GIT;
        var pos :| OccursAt(tail, GIT_INSIDE, pos);
        OccursSomewhere(tail, pos);
        OccursInTail(SLASH + n, tail, pos + |SLASH + n|);
      }
    }
  }

  lemma OccursSomewhere(t: Text, pos: int)
    requires OccursAt(t, GIT_INSIDE, pos)
    ensures 0 <= pos <= |t|
  {
  }

  lemma NothingInside()
    ensures forall pos :: !OccursAt([], GIT_INSIDE, pos)
  {
  }

  /** A directory is passed over if and only if some name on its absolute path, other than the last, is ".git".
      So a ".git" directory is not passed over, but whatever is in it is. */
  lemma SkipsIff(root: Path, slash: bool, p: Path)
    requires IsPath(root) && IsPath(p) && (|p| > 0 || (|root| > 0 && !slash))
    ensures Skips(AbsoluteText(root, slash), p) <==>
            exists i :: 0 <= i < |root + p| - 1 && (root + p)[i] == [46, 103, 105, 116]
  {
    var text := AbsoluteText(root, slash);
    JoinPathIsKey(root);
    FullNameIs(root, slash, p);
    GitInside(root + p);
    assert FullName(text, p)[0] == 47;
  }

  lemma FullNameIs(root: Path, slash: bool, p: Path)
    requires IsPath(root) && IsPath(p) && (|p| > 0 || (|root| > 0 && !slash))
    ensures FullName(AbsoluteText(root, slash), p) == SLASH + Key(root + p)
  {
    JoinPathIsKey(root);
    hide Key, IsPath, JoinPath;
    if |p| == 0 {
      assert root + p == root;
      assert AbsoluteText(root, slash) == SLASH + Key(root);
    } else if |root| == 0 {
      assert root + p == p;
    } else {
      KeyConcat(root, p);
      NameAfterText(Key(root), slash, p);
    }
  }

  lemma NameAfterText(k: Text, slash: bool, p: Path)
    requires |k| > 0 && k[|k| - 1] != 47 && |p| > 0
    ensures FullName(SLASH + k + if slash then SLASH else [], p) == SLASH + (k + SLASH + Key(p))
  {
    hide Key;
    var text := SLASH + k + if slash then SLASH else [];
    if slash {
      assert text[|text| - 1] == 47;
      assert text + Key(p) == SLASH + (k + SLASH + Key(p));
    } else {
      assert text == SLASH + k;
      assert text[|text| - 1] == k[|k| - 1];
      assert text + SLASH + Key(p) == SLASH + (k + SLASH + Key(p));
    }
  }

  /** The names in a root that ends in a slash. */
  function RootNames(root: Text): Path
    requires SlashEnded(root)
  {
    if |root| == 1 then [] else Split(root[1..|root| - 1], SLASH)
  }

  /** An absolute path, with or without a slash at its end. */
  predicate IsRoot(root: Text) {
    |root| > 0 && root[0] == 47 && (SlashEnded(root) ==> IsPath(RootNames(root)))
  }

  /** A walk reports each directory once, and every directory's parent. */
  predicate IsWalk(root: Text, walk: seq<Dir>) {
    && IsRoot(root)
    && (forall i :: 0 <= i < |walk| ==> IsPath(walk[i].path))
    && (forall i, j :: 0 <= i < j < |walk| ==> walk[i].path != walk[j].path)
    && (forall i :: 0 <= i < |walk| && |walk[i].path| > 0 ==> Walked(walk, walk[i].path[..|walk[i].path| - 1]))
  }

  predicate Walked(walk: seq<Dir>, p: Path) {
    exists i :: 0 <= i < |walk| && walk[i].path == p
  }

  /** A directory that is not passed over, with that path. */
  predicate WalkedAndKept(root: Text, walk: seq<Dir>, p: Path) {
    Walked(walk, p) && !Skips(root, p)
  }

  lemma NameGrows(root: Text, p: Path, n: Name)
    ensures FullName(root, p) <= FullName(root, p + [n])
  {
    KeySnoc(p, n);
    hide Key;
    var t, u := FullName(root, p), FullName(root, p + [n]);
    if |p| == 0 {
      assert u == t + (if SlashEnded(root) then [] else SLASH) + n;
    } else {
      assert Key(p + [n]) == Key(p) + SLASH + n;
      assert u == t + SLASH + n;
    }
  }

  lemma SkipsBelow(root: Text, p: Path, n: Name)
    requires |root| > 0 && root[0] == 47 && Skips(root, p)
    ensures Skips(root, p + [n])
  {
    var t, u := FullName(root, p), FullName(root, p + [n]);
    NameGrows(root, p, n);
    assert t[0] == root[0] && GIT[0] == 46;
    var pos := Find(t, GIT_INSIDE);
    assert OccursAt(t, GIT_INSIDE, pos);
    assert u[pos..pos + 6] == t[pos..pos + 6];
    assert OccursAt(u, GIT_INSIDE, pos);
  }

  lemma ParentWalked(root: Text, walk: seq<Dir>, e: Path)
    requires IsWalk(root, walk) && Walked(walk, e)
    ensures IsPath(e) && (|e| > 0 ==> IsPath(e[..|e| - 1]) && Walked(walk, e[..|e| - 1]))
  {
  }

  lemma ParentKept(root: Text, walk: seq<Dir>, p: Path)
    requires IsWalk(root, walk) && |p| > 0 && !Skips(root, p)
    ensures !Skips(root, p[..|p| - 1])
  {
    var parent := p[..|p| - 1];
    assert p == parent + [p[|p| - 1]];
    if Skips(root, parent) {
      SkipsBelow(root, parent, p[|p| - 1]);
    }
  }

  /** The ancestors of a kept directory are walked and kept. */
  lemma {:induction false} AncestorsKept(root: Text, walk: seq<Dir>, p: Path, d: Path)
    requires IsWalk(root, walk) && WalkedAndKept(root, walk, p) && d <= p
    ensures WalkedAndKept(root, walk, d)
    decreases |p|
  {
    if d != p {
      ParentWalked(root, walk, p);
      ParentKept(root, walk, p);
      hide IsWalk, Walked, Skips, IsPath;
      AncestorsKept(root, walk, p[..|p| - 1], d);
    }
  }

  // ---------------------------------------------------------------- counting along the prefixes

  function At(m: map<Text, int>, k: Text): int {
    if k in m then m[k] else 0
  }

  /** The keys of a directory and its ancestors, root first. */
  function KeysUpTo(p: Path): (keys: seq<Text>)
    ensures |keys| == |p| + 1 && forall i :: 0 <= i <= |p| ==> keys[i] == Key(p[..i])
  {
    seq(|p| + 1, i requires 0 <= i <= |p| => Key(p[..i]))
  }

  /** The counter after adding `n` at each key in turn. */
  function Bumped(m: map<Text, int>, keys: seq<Text>, n: int): map<Text, int> {
    if |keys| == 0 then m
    else
      var m' := Bumped(m, keys[..|keys| - 1], n);
      var k := keys[|keys| - 1];
      m'[k := At(m', k) + n]
  }

  lemma {:induction false} BumpedAt(m: map<Text, int>, keys: seq<Text>, n: int, k: Text)
    requires forall i, j :: 0 <= i < j < |keys| ==> keys[i] != keys[j]
    ensures At(Bumped(m, keys, n), k) == At(m, k) + if k in keys then n else 0
    ensures k in Bumped(m, keys, n) <==> k in m || k in keys
  {
    if |keys| > 0 {
      var front, last := keys[..|keys| - 1], keys[|keys| - 1];
      BumpedAt(m, front, n, k);
      BumpedAt(m, front, n, last);
      assert keys == front + [last] && last !in front;
    }
  }

  lemma KeyUpToIff(p: Path, d: Path)
    requires IsPath(p) && IsPath(d)
    ensures Key(d) in KeysUpTo(p) <==> d <= p
    ensures forall i, j :: 0 <= i < j < |KeysUpTo(p)| ==> KeysUpTo(p)[i] != KeysUpTo(p)[j]
  {
    var keys := KeysUpTo(p);
    if d <= p {
      assert p[..|d|] == d && keys[|d|] == Key(d);
    } else {
      forall i | 0 <= i <= |p|
        ensures keys[i] != Key(d)
      {
        if keys[i] == Key(d) {
          KeyInjective(p[..i], d);
        }
      }
    }
    forall i, j | 0 <= i < j <= |p|
      ensures keys[i] != keys[j]
    {
      if keys[i] == keys[j] {
        KeyInjective(p[..i], p[..j]);
      }
    }
  }

  lemma BumpedByNothing(m: map<Text, int>, keys: seq<Text>, n: int)
    requires |keys| == 0
    ensures Bumped(m, keys, n) == m
  {
  }

  lemma BumpedSnoc(m: map<Text, int>, keys: seq<Text>, i: nat, n: int)
    requires i < |keys|
    ensures var m' := Bumped(m, keys[..i], n);
            Bumped(m, keys[..i + 1], n) == m'[keys[i] := At(m', keys[i]) + n]
  {
    assert keys[..i + 1][..i] == keys[..i];
  }

  /** `partial` in the loop over `dparts`. */
  function Partial(dparts: seq<Text>, i: nat): Text
    requires 1 <= i <= |dparts|
  {
    if i > 1 then JoinPath(dparts[..i]) else dparts[0]
  }

  /** The partials of `dparts` are these keys. */
  predicate IsParts(dparts: seq<Text>, keys: seq<Text>) {
    |dparts| == |keys| && forall i :: 0 <= i < |keys| ==> Partial(dparts, i + 1) == keys[i]
  }

  /** The counter after `k` rounds of that loop. */
  function CountedAlong(m: map<Text, int>, keys: seq<Text>, k: nat, n: int): map<Text, int>
    requires k <= |keys|
  {
    Bumped(m, keys[..k], n)
  }

  lemma CountAlongEnds(m: map<Text, int>, keys: seq<Text>, n: int)
    ensures CountedAlong(m, keys, 0, n) == m
    ensures CountedAlong(m, keys, |keys|, n) == Bumped(m, keys, n)
  {
    BumpedByNothing(m, keys[..0], n);
    assert keys[..|keys|] == keys;
  }

  lemma CountAlongStep(m: map<Text, int>, dparts: seq<Text>, keys: seq<Text>, k: nat, n: int)
    requires IsParts(dparts, keys) && k < |dparts| == |keys|
    ensures var was, partial := CountedAlong(m, keys, k, n), Partial(dparts, k + 1);
            CountedAlong(m, keys, k + 1, n) == was[partial := At(was, partial) + n]
  {
    hide Bumped, Partial;
    BumpedSnoc(m, keys, k, n);
  }

  /** The loop over `dparts`, which both counting loops contain: add `n` at every partial. */
  method CountParts(m: map<Text, int>, dparts: seq<Text>, ghost keys: seq<Text>, n: int)
    returns (fcounts: map<Text, int>)
    requires IsParts(dparts, keys) && |dparts| == |keys|
    ensures fcounts == Bumped(m, keys, n)
  {
    CountAlongEnds(m, keys, n);
    hide *;
    fcounts := m;
    for i := 1 to |dparts| + 1
      invariant fcounts == CountedAlong(m, keys, i - 1, n)
    {
      CountAlongStep(m, dparts, keys, i - 1, n);
      var partial := Partial(dparts, i);
      fcounts := fcounts[partial := At(fcounts, partial) + n];
    }
  }

  method CountAlong(m: map<Text, int>, dname: Text, ghost keys: seq<Text>, n: int) returns (fcounts: map<Text, int>)
    requires IsParts(Split(dname, SLASH), keys)
    ensures fcounts == Bumped(m, keys, n)
  {
    fcounts := CountParts(m, Split(dname, SLASH), keys, n);
  }

  // ---------------------------------------------------------------- the keys counted at

  /** The keys at which the first loop counts the files of a directory. Taking off a root that ends in a
      slash leaves no empty part in front, so then the key of the root counts the root's own files only. */
  function WalkKeys(root: Text, p: Path): seq<Text> {
    if SlashEnded(root) && |p| > 0 then KeysUpTo(p)[1..] else KeysUpTo(p)
  }

  /** `os.path.dirname` of a file in the directory. */
  function DirName(root: Text, p: Path): Text {
    if |p| == 0 && SlashEnded(root) && |root| > 1 then root[..|root| - 1] else FullName(root, p)
  }

  /** The directory name with the root taken off, if it starts with the root. */
  function Stripped(root: Text, dname: Text): Text {
    if root <= dname then dname[|root|..] else dname
  }

  /** The keys at which the second loop counts a file of a directory. The directory name of a file in a root
      that ends in a slash does not, so nothing is taken off, and its own names are counted at. */
  function ListedKeys(root: Text, p: Path): seq<Text> {
    if SlashEnded(root) && |p| == 0 then KeysUpTo(RootNames(root)) else WalkKeys(root, p)
  }

  lemma PartsUpTo(p: Path)
    requires IsPath(p)
    ensures IsParts([[]] + p, KeysUpTo(p))
  {
    forall i | 0 <= i <= |p|
      ensures Partial([[]] + p, i + 1) == KeysUpTo(p)[i]
    {
      assert ([[]] + p)[..i + 1] == [[]] + p[..i];
      JoinPathIsKey(p[..i]);
    }
  }

  lemma {:induction false} JoinNames(p: Path)
    requires IsPath(p) && |p| > 0
    ensures JoinPath(p) == Key(p)
    decreases |p|
  {
    if |p| > 1 {
      var front, n := p[..|p| - 1], p[|p| - 1];
      assert p == front + [n] && n[0] in n;
      JoinNames(front);
      JoinPathIsKey(front);
      KeySnoc(front, n);
    }
  }

  lemma PartsOfNames(p: Path)
    requires IsPath(p) && |p| > 0
    ensures IsParts(p, KeysUpTo(p)[1..])
  {
    forall i | 0 <= i < |p|
      ensures Partial(p, i + 1) == KeysUpTo(p)[1..][i]
    {
      JoinNames(p[..i + 1]);
      assert i == 0 ==> p[..1] == [p[0]];
    }
  }

  /** The first loop: the text after the root splits into the parts of these keys. */
  lemma TailParts(root: Text, p: Path)
    requires IsPath(p)
    ensures root <= FullName(root, p)
    ensures IsParts(Split(FullName(root, p)[|root|..], SLASH), WalkKeys(root, p))
  {
    var tail := FullName(root, p)[|root|..];
    if SlashEnded(root) && |p| > 0 {
      assert tail == Key(p);
      PathOfKey(p);
      JoinPathIsKey(p);
      PartsOfNames(p);
    } else {
      assert tail == if |p| == 0 then [] else SLASH + Key(p);
      SplitsIntoNames(p);
      PartsUpTo(p);
    }
  }

  /** The second loop likewise. */
  lemma ListedParts(root: Text, p: Path)
    requires IsRoot(root) && IsPath(p)
    ensures IsParts(Split(Stripped(root, DirName(root, p)), SLASH), ListedKeys(root, p))
  {
    if |p| == 0 && SlashEnded(root) && |root| > 1 {
      var inner, names := root[1..|root| - 1], RootNames(root);
      JoinSplit(inner, SLASH);
      assert root[..|root| - 1] == SLASH + inner && inner == Key(names);
      SplitsIntoNames(names);
      PartsUpTo(names);
    } else {
      TailParts(root, p);
      assert Stripped(root, DirName(root, p)) == FullName(root, p)[|root|..];
    }
  }

  /** The files of directory `d` are counted at the key of `p` by the first loop. */
  predicate Covers(root: Text, p: Path, d: Path) {
    p <= d && (SlashEnded(root) && |p| == 0 ==> |d| == 0)
  }

  /** And by the second loop. */
  predicate ListedCovers(root: Text, p: Path, d: Path) {
    if SlashEnded(root) && |d| == 0 then p <= RootNames(root) else Covers(root, p, d)
  }

  lemma WalkKeyIff(root: Text, d: Path, p: Path)
    requires IsPath(d) && IsPath(p)
    ensures Key(p) in WalkKeys(root, d) <==> Covers(root, p, d)
    ensures NoDuplicates(WalkKeys(root, d))
  {
    KeyUpToIff(d, p);
    var keys := KeysUpTo(d);
    hide Key;
    assert forall i :: 0 <= i < |keys| - 1 ==> keys[1..][i] == keys[i + 1];
    if SlashEnded(root) && |d| > 0 {
      if Covers(root, p, d) {
        assert p == d[..|p|] && keys[1..][|p| - 1] == keys[|p|] == Key(p);
      } else if p <= d {
        assert p == d[..0] && keys[0] == Key(p);
      }
    }
  }

  lemma ListedKeyIff(root: Text, d: Path, p: Path)
    requires IsRoot(root) && IsPath(d) && IsPath(p)
    ensures Key(p) in ListedKeys(root, d) <==> ListedCovers(root, p, d)
    ensures NoDuplicates(ListedKeys(root, d))
  {
    WalkKeyIff(root, d, p);
    if SlashEnded(root) {
      KeyUpToIff(RootNames(root), p);
    }
  }

  /** Every key counted at is the key of a path. */
  lemma CountedKeyIsKey(root: Text, d: Path, k: Text) returns (p: Path)
    requires IsRoot(root) && IsPath(d) && (k in WalkKeys(root, d) || k in ListedKeys(root, d))
    ensures IsPath(p) && Key(p) == k
  {
    hide Key;
    if k in KeysUpTo(d) {
      p := PrefixOfKey(d, k);
    } else {
      p := PrefixOfKey(RootNames(root), k);
    }
  }

  // ---------------------------------------------------------------- what the counters hold

  /** What the first loop adds at key `k`: the number of files of each kept directory counted there. */
  function Added(root: Text, walk: seq<Dir>, k: Text): nat {
    if |walk| == 0 then 0
    else
      var d := walk[|walk| - 1];
      Added(root, walk[..|walk| - 1], k) + if Kept(root, d) && k in WalkKeys(root, d.path) then |d.files| else 0
  }

  /** The second loop counts the file down at this key, if its directory exists. */
  predicate TakenAt(root: Text, walk: seq<Dir>, f: File, k: Text) {
    Walked(walk, f.0) && k in ListedKeys(root, f.0)
  }

  /** What the second loop takes away: one for each listed file counted there. */
  function Taken(root: Text, walk: seq<Dir>, listed: seq<File>, k: Text): nat {
    if |listed| == 0 then 0
    else Taken(root, walk, listed[..|listed| - 1], k) + if TakenAt(root, walk, listed[|listed| - 1], k) then 1 else 0
  }

  function FilesIn(d: Dir): set<File> {
    set n | n in d.files :: (d.path, n)
  }

  /** The files in kept directories at or below `p`. */
  function FilesBelow(root: Text, walk: seq<Dir>, p: Path): set<File> {
    if |walk| == 0 then {}
    else
      var d := walk[|walk| - 1];
      FilesBelow(root, walk[..|walk| - 1], p) + if Kept(root, d) && p <= d.path then FilesIn(d) else {}
  }

  lemma {:induction false} FilesInSize(path: Path, files: set<Name>)
    ensures |FilesIn(Dir(path, files))| == |files|
    decreases |files|
  {
    if files == {} {
      assert FilesIn(Dir(path, files)) == {};
    } else {
      var n :| n in files;
      FilesInSize(path, files - {n});
      assert FilesIn(Dir(path, files)) == FilesIn(Dir(path, files - {n})) + {(path, n)};
    }
  }

  /** `f` is a file of the kept directory `d`, which is at or below `p`. */
  predicate FileOf(root: Text, d: Dir, p: Path, f: File) {
    Kept(root, d) && p <= d.path && f.0 == d.path && f.1 in d.files
  }

  predicate SomeFileOf(root: Text, walk: seq<Dir>, p: Path, f: File) {
    exists i :: 0 <= i < |walk| && FileOf(root, walk[i], p, f)
  }

  lemma SomeFileOfSnoc(root: Text, walk: seq<Dir>, p: Path, f: File)
    requires |walk| > 0
    ensures SomeFileOf(root, walk, p, f) <==>
            SomeFileOf(root, walk[..|walk| - 1], p, f) || FileOf(root, walk[|walk| - 1], p, f)
  {
    hide FileOf;
    var front := walk[..|walk| - 1];
    if SomeFileOf(root, front, p, f) {
      var i :| 0 <= i < |front| && FileOf(root, front[i], p, f);
      assert FileOf(root, walk[i], p, f);
    }
    if i :| 0 <= i < |front| && FileOf(root, walk[i], p, f) {
      assert FileOf(root, front[i], p, f);
    }
  }

  lemma {:induction false} FilesBelowMember(root: Text, walk: seq<Dir>, p: Path, f: File)
    ensures f in FilesBelow(root, walk, p) <==> exists i :: 0 <= i < |walk| && FileOf(root, walk[i], p, f)
  {
    assert SomeFileOf(root, walk, p, f) <==> exists i :: 0 <= i < |walk| && FileOf(root, walk[i], p, f);
    if |walk| > 0 {
      var front, d := walk[..|walk| - 1], walk[|walk| - 1];
      FilesBelowMember(root, front, p, f);
      SomeFileOfSnoc(root, walk, p, f);
      hide Kept, SomeFileOf;
      assert f in FilesIn(d) <==> f.0 == d.path && f.1 in d.files;
    }
  }

  /** The files that the first loop counts at the key of `p`. */
  function FilesAt(root: Text, walk: seq<Dir>, p: Path): set<File> {
    set f | f in FilesBelow(root, walk, p) && Covers(root, p, f.0)
  }

  lemma FilesAtSnoc(root: Text, walk: seq<Dir>, p: Path)
    requires |walk| > 0 && forall i, j :: 0 <= i < j < |walk| ==> walk[i].path != walk[j].path
    ensures var front, d := walk[..|walk| - 1], walk[|walk| - 1];
            |FilesAt(root, walk, p)| ==
            |FilesAt(root, front, p)| + if Kept(root, d) && Covers(root, p, d.path) then |d.files| else 0
  {
    var front, d := walk[..|walk| - 1], walk[|walk| - 1];
    var a, b := FilesAt(root, front, p), if Kept(root, d) && Covers(root, p, d.path) then FilesIn(d) else {};
    FilesInSize(d.path, d.files);
    assert FilesAt(root, walk, p) == a + b by {
      hide Kept, SlashEnded;
    }
    assert a !! b by {
      hide Kept, Covers;
      forall f | f in FilesIn(d)
        ensures f !in FilesAt(root, front, p)
      {
        FilesBelowMember(root, front, p, f);
      }
    }
  }

  /** The first loop's sum is their number. */
  lemma {:induction false} AddedCountsFiles(root: Text, walk: seq<Dir>, p: Path)
    requires IsPath(p) && forall i :: 0 <= i < |walk| ==> IsPath(walk[i].path)
    requires forall i, j :: 0 <= i < j < |walk| ==> walk[i].path != walk[j].path
    ensures Added(root, walk, Key(p)) == |FilesAt(root, walk, p)|
  {
    if |walk| > 0 {
      var front, d := walk[..|walk| - 1], walk[|walk| - 1];
      AddedCountsFiles(root, front, p);
      WalkKeyIff(root, d.path, p);
      FilesAtSnoc(root, walk, p);
      hide Kept, Key, FilesAt, Covers, WalkKeys;
    }
  }

  /** The listed files that the second loop counts at the key of `p`. */
  function ListedAt(root: Text, listed: seq<File>, p: Path): set<File> {
    set f | f in listed && ListedCovers(root, p, f.0)
  }

  lemma {:induction false} TakenCountsListed(root: Text, walk: seq<Dir>, listed: seq<File>, p: Path)
    requires IsRoot(root) && IsPath(p) && NoDuplicates(listed)
    requires forall i :: 0 <= i < |listed| ==> IsPath(listed[i].0) && Walked(walk, listed[i].0)
    ensures Taken(root, walk, listed, Key(p)) == |ListedAt(root, listed, p)|
  {
    if |listed| > 0 {
      var front, f := listed[..|listed| - 1], listed[|listed| - 1];
      TakenCountsListed(root, walk, front, p);
      ListedKeyIff(root, f.0, p);
      ListedAtSnoc(root, listed, p);
      hide Key, IsPath, Walked, ListedAt, ListedCovers, ListedKeys;
    }
  }

  lemma ListedAtSnoc(root: Text, listed: seq<File>, p: Path)
    requires |listed| > 0 && NoDuplicates(listed)
    ensures var front, f := listed[..|listed| - 1], listed[|listed| - 1];
            |ListedAt(root, listed, p)| == |ListedAt(root, front, p)| + if ListedCovers(root, p, f.0) then 1 else 0
  {
    hide ListedCovers;
    var front, f := listed[..|listed| - 1], listed[|listed| - 1];
    assert listed == front + [f] && f !in front;
    assert ListedAt(root, listed, p) ==
           ListedAt(root, front, p) + if ListedCovers(root, p, f.0) then {f} else {};
  }

  /** Every listed file is a file of a kept directory. */
  predicate ListedExist(root: Text, walk: seq<Dir>, listed: seq<File>) {
    forall f :: f in listed ==> f in FilesBelow(root, walk, [])
  }

  /** Every file at or below the directory is listed. */
  predicate Emptied(root: Text, walk: seq<Dir>, listed: seq<File>, p: Path) {
    forall f :: f in FilesBelow(root, walk, p) ==> f in listed
  }

  /** The files counted at the key of `p` that are not listed. */
  function UnlistedAt(root: Text, walk: seq<Dir>, listed: seq<File>, p: Path): set<File> {
    set f | f in FilesAt(root, walk, p) && f !in listed
  }

  function ListedInRoot(listed: seq<File>): set<File> {
    set f | f in listed && |f.0| == 0
  }

  /** The listed files that are counted at the key of `p` although they are not at or below it: those in a
      root that ends in a slash, at the keys of the root's own names. */
  function StrayListed(root: Text, listed: seq<File>, p: Path): set<File> {
    if SlashEnded(root) && 0 < |p| && p <= RootNames(root) then ListedInRoot(listed) else {}
  }

  lemma ListedAtParts(root: Text, walk: seq<Dir>, listed: seq<File>, p: Path)
    requires ListedExist(root, walk, listed)
    ensures ListedAt(root, listed, p) == (FilesAt(root, walk, p) - UnlistedAt(root, walk, listed, p))
                                         + StrayListed(root, listed, p)
    ensures FilesAt(root, walk, p) !! StrayListed(root, listed, p)
  {
    forall f | f in listed
      ensures f in FilesBelow(root, walk, p) <==> p <= f.0
    {
      FilesBelowMember(root, walk, [], f);
      FilesBelowMember(root, walk, p, f);
    }
    assert SlashEnded(root) ==> [] <= RootNames(root);
    hide FilesBelow, RootNames;
  }

  /** The count at the key of `p` is zero if and only if the files counted there that are not listed are as
      many as the listed files that should not be counted there. */
  lemma CountIsZero(root: Text, walk: seq<Dir>, listed: seq<File>, p: Path)
    requires IsPath(p) && IsWalk(root, walk) && NoDuplicates(listed) && ListedExist(root, walk, listed)
    ensures Added(root, walk, Key(p)) == Taken(root, walk, listed, Key(p)) <==>
            |UnlistedAt(root, walk, listed, p)| == |StrayListed(root, listed, p)|
  {
    ListedArePaths(root, walk, listed);
    AddedCountsFiles(root, walk, p);
    TakenCountsListed(root, walk, listed, p);
    ListedAtParts(root, walk, listed, p);
    var files, unlisted := FilesAt(root, walk, p), UnlistedAt(root, walk, listed, p);
    assert unlisted <= files;
    hide *;
    assert files == (files - unlisted) + unlisted;
  }

  /** Below the root, without a listed file in a root that ends in a slash, and for any other root, a
      directory's final count is zero if and only if every file at or below it is listed. */
  lemma CountIsZeroIff(root: Text, walk: seq<Dir>, listed: seq<File>, p: Path)
    requires IsPath(p) && IsWalk(root, walk) && NoDuplicates(listed) && ListedExist(root, walk, listed)
    requires SlashEnded(root) ==> |p| > 0 && ListedInRoot(listed) == {}
    ensures Added(root, walk, Key(p)) == Taken(root, walk, listed, Key(p)) <==> Emptied(root, walk, listed, p)
  {
    CountIsZero(root, walk, listed, p);
    EmptiedIff(root, walk, listed, p);
    assert StrayListed(root, listed, p) == {};
  }

  lemma EmptiedIff(root: Text, walk: seq<Dir>, listed: seq<File>, p: Path)
    requires SlashEnded(root) ==> |p| > 0
    ensures Emptied(root, walk, listed, p) <==> UnlistedAt(root, walk, listed, p) == {}
  {
    forall f | f in FilesBelow(root, walk, p)
      ensures f in FilesAt(root, walk, p)
    {
      FilesBelowMember(root, walk, p, f);
    }
    if f :| f in FilesBelow(root, walk, p) && f !in listed {
      assert f in UnlistedAt(root, walk, listed, p);
    }
  }

  lemma ListedArePaths(root: Text, walk: seq<Dir>, listed: seq<File>)
    requires IsWalk(root, walk) && ListedExist(root, walk, listed)
    ensures forall f :: f in listed ==> IsPath(f.0) && WalkedAndKept(root, walk, f.0)
  {
    forall f | f in listed
      ensures IsPath(f.0) && WalkedAndKept(root, walk, f.0)
    {
      FilesBelowMember(root, walk, [], f);
    }
  }

  // ---------------------------------------------------------------- the list of empty directories

  /** Reverse sorted order, without repetition. */
  ghost predicate Descending(keys: seq<Text>) {
    forall i, j :: 0 <= i < j < |keys| ==> CompareText(keys[i], keys[j]) > 0
  }

  function InsertDescending(keys: seq<Text>, k: Text): seq<Text> {
    if |keys| == 0 then [k]
    else if CompareText(k, keys[0]) > 0 then [k] + keys
    else [keys[0]] + InsertDescending(keys[1..], k)
  }

  lemma GreaterTransitive(a: Text, b: Text, c: Text)
    requires CompareText(a, b) > 0 && CompareText(b, c) > 0
    ensures CompareText(a, c) > 0
  {
    CompareTextOrder(a, b);
    CompareTextOrder(b, c);
    CompareTextOrder(a, c);
    CompareTextTransitive(c, b, a);
  }

  lemma DescendingCons(first: Text, rest: seq<Text>)
    requires Descending(rest) && forall x :: x in rest ==> CompareText(first, x) > 0
    ensures Descending([first] + rest)
  {
    var keys := [first] + rest;
    forall i, j | 0 <= i < j < |keys|
      ensures CompareText(keys[i], keys[j]) > 0
    {
      assert keys[j] == rest[j - 1] && rest[j - 1] in rest;
      assert i > 0 ==> keys[i] == rest[i - 1];
    }
  }

  lemma DescendingRest(keys: seq<Text>)
    requires Descending(keys) && |keys| > 0
    ensures Descending(keys[1..]) && forall x :: x in keys <==> x == keys[0] || x in keys[1..]
    ensures forall x :: x in keys[1..] ==> CompareText(keys[0], x) > 0
  {
  }

  lemma {:induction false} InsertKeepsDescending(keys: seq<Text>, k: Text)
    requires Descending(keys) && k !in keys
    ensures Descending(InsertDescending(keys, k))
    ensures forall x :: x in InsertDescending(keys, k) <==> x in keys || x == k
  {
    if |keys| > 0 {
      var first, rest := keys[0], keys[1..];
      DescendingRest(keys);
      CompareTextOrder(k, first);
      hide Descending, CompareText;
      if CompareText(k, first) > 0 {
        forall x | x in keys
          ensures CompareText(k, x) > 0
        {
          if x != first {
            GreaterTransitive(k, first, x);
          }
        }
        DescendingCons(k, keys);
      } else {
        InsertKeepsDescending(rest, k);
        CompareTextOrder(first, k);
        DescendingCons(first, InsertDescending(rest, k));
      }
    }
  }

  /** A key the first loop has counted at. */
  predicate KeySeen(root: Text, walk: seq<Dir>, k: Text) {
    exists i :: 0 <= i < |walk| && Kept(root, walk[i]) && k in WalkKeys(root, walk[i].path)
  }

  lemma KeySeenSnoc(root: Text, walk: seq<Dir>, i: nat, k: Text)
    requires i < |walk|
    ensures KeySeen(root, walk[..i + 1], k) <==>
            KeySeen(root, walk[..i], k) || (Kept(root, walk[i]) && k in WalkKeys(root, walk[i].path))
    ensures Added(root, walk[..i + 1], k) ==
            Added(root, walk[..i], k)
            + if Kept(root, walk[i]) && k in WalkKeys(root, walk[i].path) then |walk[i].files| else 0
  {
    hide Kept, WalkKeys;
    var a, b := walk[..i + 1], walk[..i];
    assert a[..i] == b && a[i] == walk[i];
    assert forall j :: 0 <= j < i ==> a[j] == b[j] == walk[j];
    if KeySeen(root, b, k) {
      var j :| 0 <= j < |b| && Kept(root, b[j]) && k in WalkKeys(root, b[j].path);
      assert Kept(root, a[j]) && k in WalkKeys(root, a[j].path);
    }
    if Kept(root, walk[i]) && k in WalkKeys(root, walk[i].path) {
      assert Kept(root, a[i]) && k in WalkKeys(root, a[i].path);
    }
  }

  /** The keys counted at are those of the kept directories. */
  lemma KeySeenIff(root: Text, walk: seq<Dir>, p: Path)
    requires IsWalk(root, walk) && IsPath(p)
    ensures KeySeen(root, walk, Key(p)) <==> WalkedAndKept(root, walk, p)
  {
    if KeySeen(root, walk, Key(p)) {
      var i :| 0 <= i < |walk| && Kept(root, walk[i]) && Key(p) in WalkKeys(root, walk[i].path);
      WalkKeyIff(root, walk[i].path, p);
      AncestorsKept(root, walk, walk[i].path, p);
    }
    if WalkedAndKept(root, walk, p) {
      var i :| 0 <= i < |walk| && walk[i].path == p;
      WalkKeyIff(root, p, p);
      assert Kept(root, walk[i]);
    }
  }

  lemma PrefixOfKey(d: Path, k: Text) returns (p: Path)
    requires IsPath(d) && k in KeysUpTo(d)
    ensures IsPath(p) && Key(p) == k
  {
    hide Key;
    var j :| 0 <= j <= |d| && KeysUpTo(d)[j] == k;
    p := d[..j];
  }

  /** A key the second loop has counted at. */
  predicate KeyTaken(root: Text, walk: seq<Dir>, listed: seq<File>, k: Text) {
    exists i :: 0 <= i < |listed| && TakenAt(root, walk, listed[i], k)
  }

  /** The directory has been walked, is not passed over, and all files at or below it are listed. */
  predicate Removable(root: Text, walk: seq<Dir>, listed: seq<File>, p: Path) {
    IsPath(p) && WalkedAndKept(root, walk, p) && Emptied(root, walk, listed, p)
  }

  /** The counter the two loops compute. */
  ghost predicate CountsUpTo(root: Text, walk: seq<Dir>, listed: seq<File>, fcounts: map<Text, int>) {
    forall k: Text :: CountIs(root, walk, listed, fcounts, k)
  }

  predicate CountIs(root: Text, walk: seq<Dir>, listed: seq<File>, fcounts: map<Text, int>, k: Text) {
    && (k in fcounts <==> KeySeen(root, walk, k) || KeyTaken(root, walk, listed, k))
    && At(fcounts, k) == Added(root, walk, k) - Taken(root, walk, listed, k)
  }

  lemma CountsNothing(root: Text)
    ensures CountsUpTo(root, [], [], map[])
  {
  }

  lemma CountsDirectory(root: Text, walk: seq<Dir>, i: nat, was: map<Text, int>)
    requires IsWalk(root, walk) && i < |walk| && CountsUpTo(root, walk[..i], [], was)
    ensures IsPath(walk[i].path)
    ensures CountsUpTo(root, walk[..i + 1], [],
                       if Kept(root, walk[i]) then Bumped(was, WalkKeys(root, walk[i].path), |walk[i].files|) else was)
  {
    var d := walk[i];
    var now := if Kept(root, d) then Bumped(was, WalkKeys(root, d.path), |d.files|) else was;
    var next := walk[..i + 1];
    forall k: Text
      ensures CountIs(root, next, [], now, k)
    {
      CountsDirectoryAt(root, walk, i, was, k);
    }
  }

  lemma CountsDirectoryAt(root: Text, walk: seq<Dir>, i: nat, was: map<Text, int>, k: Text)
    requires i < |walk| && IsPath(walk[i].path) && CountIs(root, walk[..i], [], was, k)
    ensures CountIs(root, walk[..i + 1], [],
                    if Kept(root, walk[i]) then Bumped(was, WalkKeys(root, walk[i].path), |walk[i].files|) else was, k)
  {
    var d := walk[i];
    WalkKeyIff(root, d.path, d.path);
    hide Kept, Key, Added, KeySeen, WalkKeys;
    KeySeenSnoc(root, walk, i, k);
    BumpedAt(was, WalkKeys(root, d.path), |d.files|, k);
  }

  method CountFiles(root: Text, walk: seq<Dir>) returns (fcounts: map<Text, int>)
    requires IsWalk(root, walk)
    ensures CountsUpTo(root, walk, [], fcounts)
  {
    hide CountsUpTo, IsWalk, Bumped, Find, Key, FullName, IsParts, WalkKeys, Split;
    fcounts := map[];
    CountsNothing(root);
    var i := 0;
    assert walk[..0] == [];
    while i < |walk|
      invariant 0 <= i <= |walk| && CountsUpTo(root, walk[..i], [], fcounts)
    {
      var d := walk[i];
      CountsDirectory(root, walk, i, fcounts);
      TailParts(root, d.path);
      var dname := FullName(root, d.path);
      if !(dname == GIT || Find(dname, GIT_INSIDE) != -1) {
        fcounts := CountAlong(fcounts, dname[|root|..], WalkKeys(root, d.path), |d.files|);
      }
      i := i + 1;
    }
    assert walk[..i] == walk;
  }

  lemma DiscountsFile(root: Text, walk: seq<Dir>, listed: seq<File>, i: nat, was: map<Text, int>)
    requires IsRoot(root) && i < |listed| && IsPath(listed[i].0) && CountsUpTo(root, walk, listed[..i], was)
    ensures CountsUpTo(root, walk, listed[..i + 1],
                       if Walked(walk, listed[i].0) then Bumped(was, ListedKeys(root, listed[i].0), -1) else was)
  {
    var now := if Walked(walk, listed[i].0) then Bumped(was, ListedKeys(root, listed[i].0), -1) else was;
    var next := listed[..i + 1];
    forall k: Text
      ensures CountIs(root, walk, next, now, k)
    {
      DiscountsFileAt(root, walk, listed, i, was, k);
    }
  }

  lemma DiscountsFileAt(root: Text, walk: seq<Dir>, listed: seq<File>, i: nat, was: map<Text, int>, k: Text)
    requires IsRoot(root) && i < |listed| && IsPath(listed[i].0) && CountIs(root, walk, listed[..i], was, k)
    ensures CountIs(root, walk, listed[..i + 1],
                    if Walked(walk, listed[i].0) then Bumped(was, ListedKeys(root, listed[i].0), -1) else was, k)
  {
    var p := listed[i].0;
    ListedKeyIff(root, p, p);
    hide Walked, Key, Added, KeySeen, Bumped, KeyTaken, Taken, ListedKeys;
    TakenSnoc(root, walk, listed, i, k);
    BumpedAt(was, ListedKeys(root, p), -1, k);
  }

  lemma TakenSnoc(root: Text, walk: seq<Dir>, listed: seq<File>, i: nat, k: Text)
    requires i < |listed|
    ensures Taken(root, walk, listed[..i + 1], k) ==
            Taken(root, walk, listed[..i], k) + if TakenAt(root, walk, listed[i], k) then 1 else 0
    ensures KeyTaken(root, walk, listed[..i + 1], k) <==>
            KeyTaken(root, walk, listed[..i], k) || TakenAt(root, walk, listed[i], k)
  {
    hide TakenAt;
    var next, front := listed[..i + 1], listed[..i];
    assert next[..i] == front && next[i] == listed[i];
    assert forall j :: 0 <= j < i ==> next[j] == front[j];
    if j :| 0 <= j < i && TakenAt(root, walk, front[j], k) {
      assert TakenAt(root, walk, next[j], k);
    }
    if TakenAt(root, walk, listed[i], k) {
      assert TakenAt(root, walk, next[i], k);
    }
  }

  /** The second loop counts down for every listed file whose directory exists, wherever it is. */
  method DiscountListed(root: Text, walk: seq<Dir>, listed: seq<File>, counted: map<Text, int>)
    returns (fcounts: map<Text, int>)
    requires IsRoot(root) && (forall f :: f in listed ==> IsPath(f.0)) && CountsUpTo(root, walk, [], counted)
    ensures CountsUpTo(root, walk, listed, fcounts)
  {
    hide CountsUpTo, Bumped, Find, Key, IsPath, IsRoot, DirName, Stripped, IsParts, ListedKeys, Split;
    fcounts := counted;
    var i := 0;
    assert listed[..0] == [];
    while i < |listed|
      invariant 0 <= i <= |listed| && CountsUpTo(root, walk, listed[..i], fcounts)
    {
      var p := listed[i].0;
      assert listed[i] in listed;
      DiscountsFile(root, walk, listed, i, fcounts);
      if Walked(walk, p) {
        ListedParts(root, p);
        var dname := DirName(root, p);
        fcounts := CountAlong(fcounts, Stripped(root, dname), ListedKeys(root, p), -1);
      }
      i := i + 1;
    }
    assert listed[..i] == listed;
  }

  /** The keys of exactly the removable directories, in reverse sorted order. */
  ghost predicate DeletionOrder(root: Text, walk: seq<Dir>, listed: seq<File>, keys: seq<Text>) {
    && Descending(keys) && AreKeys(keys)
    && forall p :: IsPath(p) ==> (Key(p) in keys <==> Removable(root, walk, listed, p))
  }

  ghost predicate AreKeys(keys: seq<Text>) {
    forall k :: k in keys ==> exists p :: IsPath(p) && Key(p) == k
  }

  /** What the two loops leave at zero. */
  predicate Returned(root: Text, walk: seq<Dir>, listed: seq<File>, p: Path) {
    && WalkedAndKept(root, walk, p)
    && |UnlistedAt(root, walk, listed, p)| == |StrayListed(root, listed, p)|
  }

  /** Told before the call, when the list is right. A root without a slash at its end is always fine. One
      with a slash must have an unlisted file of its own, or no unlisted file at all; and when a file in it is
      listed, then below every directory named like a prefix of the root there must be unlisted files, but not
      just as many as files listed in the root. */
  predicate RootIsFine(root: Text, walk: seq<Dir>, listed: seq<File>) {
    SlashEnded(root) ==>
      && (WalkedAndKept(root, walk, []) && UnlistedAt(root, walk, listed, []) == {} ==>
            Emptied(root, walk, listed, []))
      && (ListedInRoot(listed) != {} ==>
            forall i :: 0 < i <= |RootNames(root)| ==> NamedLikeRootIsFine(root, walk, listed, RootNames(root)[..i]))
  }

  predicate NamedLikeRootIsFine(root: Text, walk: seq<Dir>, listed: seq<File>, p: Path) {
    WalkedAndKept(root, walk, p) ==>
      var unlisted := |UnlistedAt(root, walk, listed, p)|;
      unlisted != 0 && unlisted != |ListedInRoot(listed)|
  }

  lemma ReturnedIsRemovable(root: Text, walk: seq<Dir>, listed: seq<File>, p: Path)
    requires IsPath(p) && RootIsFine(root, walk, listed)
    ensures Returned(root, walk, listed, p) <==> Removable(root, walk, listed, p)
  {
    hide IsPath, WalkedAndKept;
    if SlashEnded(root) && |p| == 0 {
      assert p == [];
      if Emptied(root, walk, listed, []) {
        assert UnlistedAt(root, walk, listed, []) == {};
      }
    } else {
      EmptiedIff(root, walk, listed, p);
      if SlashEnded(root) && p <= RootNames(root) {
        assert RootNames(root)[..|p|] == p;
      }
    }
  }

  /** Where the condition fails, some directory is returned that should not be, or the reverse. */
  lemma SomeReturnIsWrong(root: Text, walk: seq<Dir>, listed: seq<File>) returns (p: Path)
    requires IsRoot(root) && !RootIsFine(root, walk, listed)
    ensures IsPath(p) && !(Returned(root, walk, listed, p) <==> Removable(root, walk, listed, p))
    ensures ListedInRoot(listed) == {} ==> Returned(root, walk, listed, p)
  {
    hide WalkedAndKept;
    if WalkedAndKept(root, walk, []) && UnlistedAt(root, walk, listed, []) == {} && !Emptied(root, walk, listed, []) {
      p := [];
    } else {
      var i :| 0 < i <= |RootNames(root)| && !NamedLikeRootIsFine(root, walk, listed, RootNames(root)[..i]);
      p := RootNames(root)[..i];
      EmptiedIff(root, walk, listed, p);
    }
  }

  /** `get_empty_directories`: the keys with count zero, in reverse sorted order, and the names they stand
      for. They are the keys of the removable directories if and only if the root is fine. */
  method GetEmptyDirectories(root: Text, walk: seq<Dir>, listed: seq<File>) returns (keys: seq<Text>, dirs: seq<Text>)
    requires IsWalk(root, walk) && NoDuplicates(listed) && ListedExist(root, walk, listed)
    ensures Descending(keys) && AreKeys(keys)
    ensures forall p :: IsPath(p) ==> (Key(p) in keys <==> Returned(root, walk, listed, p))
    ensures DeletionOrder(root, walk, listed, keys) <==> RootIsFine(root, walk, listed)
    ensures |dirs| == |keys|
    ensures forall i :: 0 <= i < |dirs| ==> dirs[i] == root + (if SlashEnded(root) then [] else SLASH) + keys[i]
  {
    var fcounts := CountFiles(root, walk);
    ListedArePaths(root, walk, listed);
    fcounts := DiscountListed(root, walk, listed, fcounts);
    keys := ZeroKeys(fcounts);
    ZeroKeysAreReturned(root, walk, listed, fcounts, keys);
    ListIsRightIff(root, walk, listed, keys);
    dirs := seq(|keys|, i requires 0 <= i < |keys| => JoinPath([root, keys[i]]));
    forall i | 0 <= i < |keys|
      ensures dirs[i] == root + (if SlashEnded(root) then [] else SLASH) + keys[i]
    {
      assert keys[i] in keys;
      var p :| IsPath(p) && Key(p) == keys[i];
      FullNameOfKey(root, p);
    }
  }

  lemma ListIsRightIff(root: Text, walk: seq<Dir>, listed: seq<File>, keys: seq<Text>)
    requires IsRoot(root) && Descending(keys) && AreKeys(keys)
    requires forall p :: IsPath(p) ==> (Key(p) in keys <==> Returned(root, walk, listed, p))
    ensures DeletionOrder(root, walk, listed, keys) <==> RootIsFine(root, walk, listed)
  {
    hide Key, IsPath, Returned, Removable, RootIsFine, AreKeys, Descending;
    if RootIsFine(root, walk, listed) {
      forall p | IsPath(p)
        ensures Key(p) in keys <==> Removable(root, walk, listed, p)
      {
        ReturnedIsRemovable(root, walk, listed, p);
      }
    } else {
      var p := SomeReturnIsWrong(root, walk, listed);
      assert IsPath(p) && !(Key(p) in keys <==> Removable(root, walk, listed, p));
    }
  }

  /** Joining the root and a key puts one slash between them, because no key starts with one. */
  lemma FullNameOfKey(root: Text, p: Path)
    requires IsPath(p) && |root| > 0
    ensures JoinPath([root, Key(p)]) == root + (if SlashEnded(root) then [] else SLASH) + Key(p)
  {
    if |p| > 0 {
      assert p[0][0] in p[0];
    }
    assert [root, Key(p)][..1] == [root];
  }

  /** `[p for p in fcounts if fcounts[p] == 0]`, sorted in reverse. */
  method ZeroKeys(fcounts: map<Text, int>) returns (keys: seq<Text>)
    ensures Descending(keys) && forall k :: k in keys <==> k in fcounts && fcounts[k] == 0
  {
    keys := [];
    var rest := fcounts.Keys;
    while rest != {}
      invariant rest <= fcounts.Keys && Descending(keys)
      invariant forall k :: k in keys <==> k in fcounts && k !in rest && fcounts[k] == 0
      decreases |rest|
    {
      var k :| k in rest;
      rest := rest - {k};
      if fcounts[k] == 0 {
        InsertKeepsDescending(keys, k);
        keys := InsertDescending(keys, k);
      }
    }
  }

  lemma ZeroKeysAreReturned(root: Text, walk: seq<Dir>, listed: seq<File>, fcounts: map<Text, int>, keys: seq<Text>)
    requires IsWalk(root, walk) && NoDuplicates(listed) && ListedExist(root, walk, listed)
    requires CountsUpTo(root, walk, listed, fcounts)
    requires forall k :: k in keys <==> k in fcounts && fcounts[k] == 0
    ensures forall p :: IsPath(p) ==> (Key(p) in keys <==> Returned(root, walk, listed, p))
    ensures AreKeys(keys)
  {
    ListedArePaths(root, walk, listed);
    forall p | IsPath(p)
      ensures Key(p) in keys <==> Returned(root, walk, listed, p)
    {
      hide IsWalk, NoDuplicates, ListedExist, KeySeen, KeyTaken, Key, WalkedAndKept, UnlistedAt, StrayListed;
      assert CountIs(root, walk, listed, fcounts, Key(p));
      KeySeenIff(root, walk, p);
      CountIsZero(root, walk, listed, p);
      if KeyTaken(root, walk, listed, Key(p)) && !WalkedAndKept(root, walk, p) {
        StrayIsNotReturned(root, walk, listed, p);
      }
    }
    forall k | k in keys
      ensures exists p :: IsPath(p) && Key(p) == k
    {
      assert CountIs(root, walk, listed, fcounts, k);
      var p := CountedIsKey(root, walk, listed, k);
    }
  }

  lemma CountedIsKey(root: Text, walk: seq<Dir>, listed: seq<File>, k: Text) returns (p: Path)
    requires IsWalk(root, walk) && forall f :: f in listed ==> IsPath(f.0)
    requires KeySeen(root, walk, k) || KeyTaken(root, walk, listed, k)
    ensures IsPath(p) && Key(p) == k
  {
    hide IsPath, Key, WalkKeys, ListedKeys, Kept, IsRoot;
    if KeySeen(root, walk, k) {
      var i :| 0 <= i < |walk| && Kept(root, walk[i]) && k in WalkKeys(root, walk[i].path);
      p := CountedKeyIsKey(root, walk[i].path, k);
    } else {
      var i :| 0 <= i < |listed| && TakenAt(root, walk, listed[i], k);
      assert listed[i] in listed;
      p := CountedKeyIsKey(root, listed[i].0, k);
    }
  }

  /** A key that only the second loop has counted at is not zero: it counts the stray files only. */
  lemma StrayIsNotReturned(root: Text, walk: seq<Dir>, listed: seq<File>, p: Path)
    requires IsWalk(root, walk) && IsPath(p) && ListedExist(root, walk, listed)
    requires KeyTaken(root, walk, listed, Key(p)) && !WalkedAndKept(root, walk, p)
    ensures |UnlistedAt(root, walk, listed, p)| != |StrayListed(root, listed, p)|
  {
    ListedArePaths(root, walk, listed);
    var i :| 0 <= i < |listed| && TakenAt(root, walk, listed[i], Key(p));
    var f := listed[i];
    assert f in listed;
    ListedKeyIff(root, f.0, p);
    if p <= f.0 {
      AncestorsKept(root, walk, f.0, p);
      assert false;
    }
    assert f in StrayListed(root, listed, p);
    NothingBelow(root, walk, p);
    assert UnlistedAt(root, walk, listed, p) == {};
  }

  lemma NothingBelow(root: Text, walk: seq<Dir>, p: Path)
    requires IsWalk(root, walk) && !WalkedAndKept(root, walk, p)
    ensures FilesBelow(root, walk, p) == {}
  {
    forall f | f in FilesBelow(root, walk, p)
      ensures false
    {
      FilesBelowMember(root, walk, p, f);
      var i :| 0 <= i < |walk| && FileOf(root, walk[i], p, f);
      assert Walked(walk, walk[i].path);
      AncestorsKept(root, walk, walk[i].path, p);
    }
  }
}
