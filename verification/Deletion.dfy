/** Deleting the listed files and then the returned directories, as the end of scripts/superclean.py does. */
module Deletion {
  import opened Sequences
  import opened Strings
  import opened SuperClean

  predicate IsChild(p: Path, e: Path) {
    p < e && |e| == |p| + 1
  }

  /** The tree on disk below the root. */
  class FileSystem {
    var dirs: set<Path>
    var files: set<File>

    constructor (dirs: set<Path>, files: set<File>)
      ensures this.dirs == dirs && this.files == files
    {
      this.dirs, this.files := dirs, files;
    }

    /** `os.rmdir` would succeed: the directory exists and holds no file and no directory. */
    predicate IsEmptyDirectory(p: Path)
      reads this
    {
      p in dirs && (forall f :: f in files ==> f.0 != p) && forall e :: e in dirs ==> !IsChild(p, e)
    }

    method Remove(f: File)
      requires f in files
      modifies this`files
      ensures files == old(files) - {f}
    {
      files := files - {f};
    }

    method Rmdir(p: Path) returns (ok: bool)
      modifies this`dirs
      ensures ok <==> old(IsEmptyDirectory(p))
      ensures ok <==>
              && p in old(dirs) && (forall f :: f in files ==> f.0 != p)
              && forall e :: e in old(dirs) ==> !(p < e && |e| == |p| + 1)
      ensures dirs == if ok then old(dirs) - {p} else old(dirs)
    {
      ok := IsEmptyDirectory(p);
      if ok {
        dirs := dirs - {p};
      }
    }
  }

  function AllDirs(walk: seq<Dir>): set<Path> {
    set d | d in walk :: d.path
  }

  /** Every file on disk, in kept and in passed-over directories alike. */
  ghost predicate FilesOnDisk(walk: seq<Dir>, files: set<File>) {
    forall f :: f in files <==> exists i :: 0 <= i < |walk| && walk[i].path == f.0 && f.1 in walk[i].files
  }

  /** No directory that was passed over lies below a removable one. */
  predicate NothingHidden(root: Text, walk: seq<Dir>, listed: seq<File>) {
    forall i, j | 0 <= i < |walk| && 0 <= j < |walk| && walk[i].path < walk[j].path ::
      !(Removable(root, walk, listed, walk[i].path) && Skips(root, walk[j].path))
  }

  /** "/r" with a directory ".git" in it, which has a directory "x" in it, and no files. */
  function GitTree(): seq<Dir> {
    [Dir([], {}), Dir([GIT], {}), Dir([GIT, [120]], {})]
  }

  lemma GitTreeIsWalk()
    ensures IsWalk([47, 114], GitTree()) && Walked(GitTree(), [GIT]) && Walked(GitTree(), [GIT, [120]])
  {
    var walk := GitTree();
    assert walk[0].path == [] && walk[1].path == [GIT] && walk[2].path == [GIT, [120]];
    assert [GIT][..0] == [] && [GIT, [120]][..1] == [GIT];
  }

  /** In that tree deleting fails: the root and ".git" are returned, because ".git" itself is not passed
      over, but "x" inside it is. */
  lemma SomethingHidden()
    ensures IsWalk([47, 114], GitTree()) && ListedExist([47, 114], GitTree(), [])
    ensures Removable([47, 114], GitTree(), [], [GIT]) && !NothingHidden([47, 114], GitTree(), [])
  {
    var root: Text, walk := [47, 114], GitTree();
    GitTreeIsWalk();
    GitIsKept(root);
    InsideGitIsSkipped(root, [120]);
    assert walk[1].path == [GIT] < [GIT, [120]] == walk[2].path;
    hide IsWalk, Skips, Walked, Kept;
    forall f
      ensures f !in FilesBelow(root, walk, [GIT])
    {
      FilesBelowMember(root, walk, [GIT], f);
    }
  }

  lemma GitIsKept(root: Text)
    requires root == [47, 114]
    ensures !Skips(root, [GIT])
  {
    var t := FullName(root, [GIT]);
    assert t == [47, 114, 47, 46, 103, 105, 116];
    assert forall i :: OccursAt(t, GIT_INSIDE, i) ==> t[i..i + 6][0] == 47 && t[i..i + 6][1] == 46;
  }

  lemma InsideGitIsSkipped(root: Text, x: Name)
    requires !SlashEnded(root)
    ensures Skips(root, [GIT, x])
  {
    var t := FullName(root, [GIT, x]);
    KeySnoc([GIT], x);
    assert [GIT] + [x] == [GIT, x] && SLASH + GIT + SLASH == GIT_INSIDE;
    assert t == root + GIT_INSIDE + x;
    assert t[|root|..|root| + 6] == GIT_INSIDE;
    assert OccursAt(t, GIT_INSIDE, |root|);
  }

  /** A kept directory below a removable one is removable too. */
  lemma RemovableBelow(root: Text, walk: seq<Dir>, listed: seq<File>, p: Path, e: Path)
    requires IsPath(e) && Removable(root, walk, listed, p) && WalkedAndKept(root, walk, e) && p <= e
    ensures Removable(root, walk, listed, e)
  {
    forall f | f in FilesBelow(root, walk, e)
      ensures f in listed
    {
      FilesBelowMember(root, walk, e, f);
      FilesBelowMember(root, walk, p, f);
    }
  }

  // ---------------------------------------------------------------- any list of keys

  /** At its turn this directory is empty: all its own files are listed, and all its child directories, passed
      over or not, are to be deleted too. */
  predicate CanGo(walk: seq<Dir>, listed: seq<File>, keys: seq<Text>, p: Path) {
    && Walked(walk, p)
    && (forall i :: 0 <= i < |walk| && walk[i].path == p ==> forall n :: n in walk[i].files ==> (p, n) in listed)
    && (forall i :: 0 <= i < |walk| && IsChild(p, walk[i].path) ==> Key(walk[i].path) in keys)
  }

  ghost predicate Deletable(walk: seq<Dir>, listed: seq<File>, keys: seq<Text>) {
    forall p :: IsPath(p) && Key(p) in keys ==> CanGo(walk, listed, keys, p)
  }

  /** The keys still to delete, and the directories left, while deleting in order. */
  ghost predicate Deleting(walk: seq<Dir>, keys: seq<Text>, i: nat, dirs: set<Path>) {
    i <= |keys| && forall p :: IsPath(p) ==> (p in dirs <==> Walked(walk, p) && Key(p) !in keys[..i])
  }

  /** Exactly the files of walked directories that are not listed. */
  ghost predicate Unlisted(walk: seq<Dir>, listed: seq<File>, files: set<File>) {
    forall f :: f in files <==>
                  f !in listed && exists j :: 0 <= j < |walk| && walk[j].path == f.0 && f.1 in walk[j].files
  }

  predicate AllPaths(dirs: set<Path>) {
    forall e :: e in dirs ==> IsPath(e)
  }

  /** In descending order, with the listed files gone, the next directory is empty if and only if it can go:
      child directories come earlier in the order. */
  lemma NextIsEmptyIff(walk: seq<Dir>, listed: seq<File>, keys: seq<Text>, i: nat, p: Path, fs: FileSystem)
    requires Descending(keys) && i < |keys| && IsPath(p) && Key(p) == keys[i]
    requires forall j :: 0 <= j < |walk| ==> IsPath(walk[j].path)
    requires Deleting(walk, keys, i, fs.dirs) && AllPaths(fs.dirs) && Unlisted(walk, listed, fs.files)
    ensures fs.IsEmptyDirectory(p) <==> CanGo(walk, listed, keys, p)
  {
    NextIsThere(walk, keys, i, p);
    ChildGoneIff(walk, keys, i, p, fs.dirs);
    FilesGoneIff(walk, listed, p, fs.files);
  }

  lemma FilesGoneIff(walk: seq<Dir>, listed: seq<File>, p: Path, files: set<File>)
    requires Unlisted(walk, listed, files)
    ensures (forall f :: f in files ==> f.0 != p) <==>
            forall i :: 0 <= i < |walk| && walk[i].path == p ==> forall n :: n in walk[i].files ==> (p, n) in listed
  {
    if i, n :| 0 <= i < |walk| && walk[i].path == p && n in walk[i].files && (p, n) !in listed {
      assert (p, n) in files;
    }
  }

  lemma ChildGoneIff(walk: seq<Dir>, keys: seq<Text>, i: nat, p: Path, dirs: set<Path>)
    requires Descending(keys) && i < |keys| && IsPath(p) && Key(p) == keys[i]
    requires forall j :: 0 <= j < |walk| ==> IsPath(walk[j].path)
    requires Deleting(walk, keys, i, dirs) && AllPaths(dirs)
    ensures (forall e :: e in dirs ==> !IsChild(p, e)) <==>
            forall j :: 0 <= j < |walk| && IsChild(p, walk[j].path) ==> Key(walk[j].path) in keys
  {
    forall j | 0 <= j < |walk| && IsChild(p, walk[j].path)
      ensures walk[j].path in dirs <==> Key(walk[j].path) !in keys
    {
      assert Walked(walk, walk[j].path);
      if Key(walk[j].path) in keys {
        ChildIsEarlier(keys, i, p, walk[j].path);
      }
    }
  }

  lemma ChildIsEarlier(keys: seq<Text>, i: nat, p: Path, e: Path)
    requires Descending(keys) && i < |keys| && IsPath(p) && Key(p) == keys[i]
    requires IsPath(e) && IsChild(p, e) && Key(e) in keys
    ensures Key(e) in keys[..i]
  {
    BelowSortsAfter(p, e);
    CompareTextOrder(Key(p), Key(e));
    var j :| 0 <= j < |keys| && keys[j] == Key(e);
    assert j < i;
    assert keys[..i][j] == Key(e);
  }

  lemma NextIsThere(walk: seq<Dir>, keys: seq<Text>, i: nat, p: Path)
    requires Descending(keys) && i < |keys| && Key(p) == keys[i]
    ensures Key(p) !in keys[..i]
  {
    forall j | 0 <= j < i
      ensures keys[j] != keys[i]
    {
      CompareTextOrder(keys[j], keys[i]);
    }
  }

  lemma ListedOnDisk(root: Text, walk: seq<Dir>, listed: seq<File>, files: set<File>)
    requires ListedExist(root, walk, listed) && FilesOnDisk(walk, files)
    ensures forall f :: f in listed ==> f in files
  {
    forall f | f in listed
      ensures f in files
    {
      FilesBelowMember(root, walk, [], f);
    }
  }

  lemma DeletionStarts(walk: seq<Dir>, keys: seq<Text>)
    ensures Deleting(walk, keys, 0, AllDirs(walk))
  {
  }

  lemma DeletionGoesOn(walk: seq<Dir>, keys: seq<Text>, i: nat, p: Path, dirs: set<Path>)
    requires i < |keys| && IsPath(p) && Key(p) == keys[i] && Deleting(walk, keys, i, dirs)
    ensures Deleting(walk, keys, i + 1, dirs - {p})
  {
    assert keys[..i + 1] == keys[..i] + [keys[i]];
    forall q | IsPath(q)
      ensures q in dirs - {p} <==> Walked(walk, q) && Key(q) !in keys[..i + 1]
    {
      if Key(q) == Key(p) {
        KeyInjective(q, p);
      }
    }
  }

  lemma KeyHasPath(keys: seq<Text>, i: nat) returns (p: Path)
    requires AreKeys(keys) && i < |keys|
    ensures IsPath(p) && Key(p) == keys[i]
  {
    assert keys[i] in keys;
    p :| IsPath(p) && Key(p) == keys[i];
  }

  lemma OnlyPathOfKey(p: Path, k: Text)
    requires IsPath(p) && Key(p) == k
    ensures forall q :: IsPath(q) && Key(q) == k ==> q == p
  {
    forall q | IsPath(q) && Key(q) == k
      ensures q == p
    {
      KeyInjective(q, p);
    }
  }

  /** `os.remove` for every listed file. */
  method RemoveFiles(fs: FileSystem, listed: seq<File>)
    requires NoDuplicates(listed) && forall f :: f in listed ==> f in fs.files
    modifies fs`files
    ensures fs.files == old(fs.files) - set f | f in listed
  {
    var i := 0;
    while i < |listed|
      invariant 0 <= i <= |listed| && fs.files == old(fs.files) - set f | f in listed[..i]
    {
      assert listed[i] in listed && listed[..i + 1] == listed[..i] + [listed[i]];
      assert listed[i] !in listed[..i];
      fs.Remove(listed[i]);
      i := i + 1;
    }
    assert listed[..i] == listed;
  }

  /** The directories deleted so far could go. */
  ghost predicate GoneSoFar(walk: seq<Dir>, listed: seq<File>, keys: seq<Text>, i: nat)
    requires i <= |keys|
  {
    forall p :: IsPath(p) && Key(p) in keys[..i] ==> CanGo(walk, listed, keys, p)
  }

  lemma GoneSoFarGoesOn(walk: seq<Dir>, listed: seq<File>, keys: seq<Text>, i: nat, p: Path)
    requires i < |keys| && GoneSoFar(walk, listed, keys, i)
    requires IsPath(p) && Key(p) == keys[i] && CanGo(walk, listed, keys, p)
    ensures GoneSoFar(walk, listed, keys, i + 1)
  {
    OnlyPathOfKey(p, keys[i]);
    assert keys[..i + 1] == keys[..i] + [keys[i]];
  }

  lemma GoneEnds(walk: seq<Dir>, listed: seq<File>, keys: seq<Text>)
    ensures GoneSoFar(walk, listed, keys, 0)
    ensures GoneSoFar(walk, listed, keys, |keys|) <==> Deletable(walk, listed, keys)
  {
    assert keys[..|keys|] == keys;
  }

  lemma CannotGo(walk: seq<Dir>, listed: seq<File>, keys: seq<Text>, i: nat, p: Path)
    requires i < |keys| && IsPath(p) && Key(p) == keys[i] && !CanGo(walk, listed, keys, p)
    ensures !Deletable(walk, listed, keys)
  {
    assert Key(p) in keys;
  }

  /** The directories of the first `gone` keys could go and are gone, all others are there; and unless that is all
      of them, the next one cannot go. */
  ghost predicate StoppedAt(walk: seq<Dir>, listed: seq<File>, keys: seq<Text>, gone: nat, dirs: set<Path>) {
    && gone <= |keys|
    && (forall p :: IsPath(p) ==> (p in dirs <==> Walked(walk, p) && Key(p) !in keys[..gone]))
    && (forall p :: IsPath(p) && Key(p) in keys[..gone] ==> CanGo(walk, listed, keys, p))
    && (gone < |keys| ==> forall p :: IsPath(p) && Key(p) == keys[gone] ==> !CanGo(walk, listed, keys, p))
  }

  lemma StopsAt(walk: seq<Dir>, listed: seq<File>, keys: seq<Text>, i: nat, dirs: set<Path>)
    requires Deleting(walk, keys, i, dirs) && GoneSoFar(walk, listed, keys, i)
    requires i < |keys| ==> exists p :: IsPath(p) && Key(p) == keys[i] && !CanGo(walk, listed, keys, p)
    ensures StoppedAt(walk, listed, keys, i, dirs)
    ensures forall p :: IsPath(p) ==> (p in dirs <==> Walked(walk, p) && Key(p) !in keys[..i])
  {
    hide IsPath, Key, CanGo, Walked;
    if i < |keys| {
      var p :| IsPath(p) && Key(p) == keys[i] && !CanGo(walk, listed, keys, p);
      OnlyPathOfKey(p, keys[i]);
    }
  }

  /** `os.rmdir` for every directory of a list in reverse sorted order, stopping at the first failure. */
  method RemoveDirectories(walk: seq<Dir>, listed: seq<File>, keys: seq<Text>, fs: FileSystem)
    returns (ok: bool, ghost gone: nat)
    requires Descending(keys) && AreKeys(keys) && forall j :: 0 <= j < |walk| ==> IsPath(walk[j].path)
    requires fs.dirs == AllDirs(walk) && AllPaths(fs.dirs) && Unlisted(walk, listed, fs.files)
    modifies fs`dirs
    ensures ok <==> Deletable(walk, listed, keys)
    ensures StoppedAt(walk, listed, keys, gone, fs.dirs) && gone <= |keys| && (ok <==> gone == |keys|)
    ensures forall p :: IsPath(p) ==> (p in fs.dirs <==> Walked(walk, p) && Key(p) !in keys[..gone])
  {
    DeletionStarts(walk, keys);
    GoneEnds(walk, listed, keys);
    hide IsPath, CanGo, Key, Deletable, Descending, AreKeys, Deleting, Unlisted, GoneSoFar, StoppedAt;
    var i := 0;
    while i < |keys|
      invariant 0 <= i <= |keys| && Deleting(walk, keys, i, fs.dirs) && AllPaths(fs.dirs)
      invariant GoneSoFar(walk, listed, keys, i)
    {
      ghost var p := KeyHasPath(keys, i);
      ghost var dirs := fs.dirs;
      PathOfKey(p);
      NextIsEmptyIff(walk, listed, keys, i, p, fs);
      var removed := fs.Rmdir(PathOf(keys[i]));
      if !removed {
        CannotGo(walk, listed, keys, i, p);
        StopsAt(walk, listed, keys, i, dirs);
        return false, i;
      }
      DeletionGoesOn(walk, keys, i, p, dirs);
      GoneSoFarGoesOn(walk, listed, keys, i, p);
      i := i + 1;
    }
    StopsAt(walk, listed, keys, i, fs.dirs);
    return true, i;
  }

  // ---------------------------------------------------------------- the returned list

  /** When the directories in a list can all go, everything below them is in the list. */
  lemma {:induction false} BelowIsListed(root: Text, walk: seq<Dir>, listed: seq<File>, keys: seq<Text>,
                                         p: Path, e: Path)
    requires IsWalk(root, walk) && Deletable(walk, listed, keys) && IsPath(p) && Key(p) in keys
    requires Walked(walk, e) && p <= e
    ensures IsPath(e) && Key(e) in keys
    decreases |e|
  {
    ParentWalked(root, walk, e);
    if p != e {
      var parent := e[..|e| - 1];
      BelowIsListed(root, walk, listed, keys, p, parent);
      assert CanGo(walk, listed, keys, parent);
      var i :| 0 <= i < |walk| && walk[i].path == e;
      assert IsChild(parent, walk[i].path);
    }
  }

  lemma RemovableHasNoOtherFile(root: Text, walk: seq<Dir>, listed: seq<File>, p: Path, f: File)
    requires Removable(root, walk, listed, p) && f.0 == p
    requires exists j :: 0 <= j < |walk| && walk[j].path == f.0 && f.1 in walk[j].files
    ensures f in listed
  {
    var j :| 0 <= j < |walk| && walk[j].path == f.0 && f.1 in walk[j].files;
    assert FileOf(root, walk[j], p, f);
    FilesBelowMember(root, walk, p, f);
  }

  /** The removable directories can be deleted if and only if nothing is hidden. */
  lemma DeletableIff(root: Text, walk: seq<Dir>, listed: seq<File>, keys: seq<Text>)
    requires IsWalk(root, walk) && DeletionOrder(root, walk, listed, keys)
    ensures Deletable(walk, listed, keys) <==> NothingHidden(root, walk, listed)
  {
    if NothingHidden(root, walk, listed) {
      forall p | IsPath(p) && Key(p) in keys
        ensures CanGo(walk, listed, keys, p)
      {
        RemovableCanGo(root, walk, listed, keys, p);
      }
    } else {
      var i, j :| 0 <= i < |walk| && 0 <= j < |walk| && walk[i].path < walk[j].path
                  && Removable(root, walk, listed, walk[i].path) && Skips(root, walk[j].path);
      if Deletable(walk, listed, keys) {
        assert Walked(walk, walk[j].path);
        BelowIsListed(root, walk, listed, keys, walk[i].path, walk[j].path);
        assert false;
      }
    }
  }

  lemma RemovableCanGo(root: Text, walk: seq<Dir>, listed: seq<File>, keys: seq<Text>, p: Path)
    requires IsWalk(root, walk) && DeletionOrder(root, walk, listed, keys) && NothingHidden(root, walk, listed)
    requires IsPath(p) && Key(p) in keys
    ensures CanGo(walk, listed, keys, p)
  {
    hide Key, Emptied;
    assert Removable(root, walk, listed, p);
    var at :| 0 <= at < |walk| && walk[at].path == p;
    forall i, n | 0 <= i < |walk| && walk[i].path == p && n in walk[i].files
      ensures (p, n) in listed
    {
      RemovableHasNoOtherFile(root, walk, listed, p, (p, n));
    }
    forall i | 0 <= i < |walk| && IsChild(p, walk[i].path)
      ensures Key(walk[i].path) in keys
    {
      assert walk[at].path < walk[i].path && !Skips(root, walk[i].path);
      assert Walked(walk, walk[i].path) && IsPath(walk[i].path);
      RemovableBelow(root, walk, listed, p, walk[i].path);
    }
  }

  /** A returned directory with an unlisted file at or below it cannot be deleted. */
  lemma WrongKeyFails(root: Text, walk: seq<Dir>, listed: seq<File>, keys: seq<Text>, p: Path)
    requires IsWalk(root, walk) && IsPath(p) && Key(p) in keys && !Emptied(root, walk, listed, p)
    ensures !Deletable(walk, listed, keys)
  {
    var f :| f in FilesBelow(root, walk, p) && f !in listed;
    FilesBelowMember(root, walk, p, f);
    var i :| 0 <= i < |walk| && FileOf(root, walk[i], p, f);
    assert Walked(walk, walk[i].path);
    assert !CanGo(walk, listed, keys, f.0);
    hide Kept, Key, IsPath, FilesBelow, CanGo;
    if Deletable(walk, listed, keys) {
      BelowIsListed(root, walk, listed, keys, p, f.0);
    }
  }

  /** The loops of `main`: the files first, then the directories of a list. Every `rmdir` finds an empty
      directory if and only if the list can be deleted; for the removable directories, if and only if nothing
      is hidden: no directory that was passed over lies below one of them. */
  method DeleteAll(root: Text, walk: seq<Dir>, listed: seq<File>, keys: seq<Text>, fs: FileSystem)
    returns (ok: bool, ghost gone: nat)
    requires IsWalk(root, walk) && NoDuplicates(listed) && ListedExist(root, walk, listed)
    requires Descending(keys) && AreKeys(keys)
    requires fs.dirs == AllDirs(walk) && FilesOnDisk(walk, fs.files)
    modifies fs
    ensures ok <==> Deletable(walk, listed, keys)
    ensures DeletionOrder(root, walk, listed, keys) ==> (ok <==> NothingHidden(root, walk, listed))
    ensures StoppedAt(walk, listed, keys, gone, fs.dirs) && gone <= |keys| && (ok <==> gone == |keys|)
    ensures forall p :: IsPath(p) ==> (p in fs.dirs <==> Walked(walk, p) && Key(p) !in keys[..gone])
    ensures ok ==> forall p :: IsPath(p) ==> (p in fs.dirs <==> Walked(walk, p) && Key(p) !in keys)
    ensures fs.files == old(fs.files) - set f | f in listed
  {
    ListedOnDisk(root, walk, listed, fs.files);
    RemoveFiles(fs, listed);
    LeftUnlisted(walk, listed, old(fs.files), fs.files);
    assert AllPaths(fs.dirs);
    if DeletionOrder(root, walk, listed, keys) {
      DeletableIff(root, walk, listed, keys);
    }
    hide *;
    ok, gone := RemoveDirectories(walk, listed, keys, fs);
    if ok {
      EndOfDeleting(walk, listed, keys, fs.dirs);
    }
  }

  lemma LeftUnlisted(walk: seq<Dir>, listed: seq<File>, before: set<File>, files: set<File>)
    requires FilesOnDisk(walk, before) && files == before - set f | f in listed
    ensures Unlisted(walk, listed, files)
  {
  }

  lemma EndOfDeleting(walk: seq<Dir>, listed: seq<File>, keys: seq<Text>, dirs: set<Path>)
    requires StoppedAt(walk, listed, keys, |keys|, dirs)
    ensures forall p :: IsPath(p) ==> (p in dirs <==> Walked(walk, p) && Key(p) !in keys)
  {
    hide IsPath, Key, CanGo, Walked;
    assert keys[..|keys|] == keys;
  }

  /** The script after it has the list of files: compute the directories, then delete. It succeeds if and only
      if the returned directories can be deleted. When the root is fine, that is if and only if nothing is
      hidden; and when no listed file is in a root that ends in a slash, a root that is not fine makes it fail. */
  method CleanUp(root: Text, walk: seq<Dir>, listed: seq<File>, fs: FileSystem)
    returns (ok: bool, keys: seq<Text>, ghost gone: nat)
    requires IsWalk(root, walk) && NoDuplicates(listed) && ListedExist(root, walk, listed)
    requires fs.dirs == AllDirs(walk) && FilesOnDisk(walk, fs.files)
    modifies fs
    ensures forall p :: IsPath(p) ==> (Key(p) in keys <==> Returned(root, walk, listed, p))
    ensures ok <==> Deletable(walk, listed, keys)
    ensures RootIsFine(root, walk, listed) ==> (ok <==> NothingHidden(root, walk, listed))
    ensures !SlashEnded(root) || ListedInRoot(listed) == {} ==>
              (ok <==> RootIsFine(root, walk, listed) && NothingHidden(root, walk, listed))
    ensures StoppedAt(walk, listed, keys, gone, fs.dirs) && gone <= |keys| && (ok <==> gone == |keys|)
    ensures forall p :: IsPath(p) ==> (p in fs.dirs <==> Walked(walk, p) && Key(p) !in keys[..gone])
    ensures ok ==> forall p :: IsPath(p) ==> (p in fs.dirs <==> Walked(walk, p) && !Returned(root, walk, listed, p))
    ensures fs.files == old(fs.files) - set f | f in listed
  {
    var dirs;
    keys, dirs := GetEmptyDirectories(root, walk, listed);
    WrongRootFails(root, walk, listed, keys);
    hide RootIsFine, NothingHidden, Returned, Deletable, DeletionOrder, IsWalk, StoppedAt;
    ok, gone := DeleteAll(root, walk, listed, keys, fs);
  }

  lemma WrongRootFails(root: Text, walk: seq<Dir>, listed: seq<File>, keys: seq<Text>)
    requires IsWalk(root, walk) && forall p :: IsPath(p) ==> (Key(p) in keys <==> Returned(root, walk, listed, p))
    ensures !RootIsFine(root, walk, listed) && ListedInRoot(listed) == {} ==> !Deletable(walk, listed, keys)
    ensures !SlashEnded(root) ==> RootIsFine(root, walk, listed)
  {
    if !RootIsFine(root, walk, listed) && ListedInRoot(listed) == {} {
      var p := SomeReturnIsWrong(root, walk, listed);
      hide IsWalk, RootIsFine, UnlistedAt, StrayListed, Emptied;
      WrongKeyFails(root, walk, listed, keys, p);
    }
  }

  // ---------------------------------------------------------------- roots that end in a slash

  /** "/r/" */
  const SLASH_ROOT: Text := [47, 114, 47]

  /** A root "/r/" with these files of its own and one directory, with those files in it. */
  function SmallWalk(own: set<Name>, name: Name, files: set<Name>): seq<Dir> {
    [Dir([], own), Dir([name], files)]
  }

  lemma SmallWalkIsWalk(own: set<Name>, name: Name, files: set<Name>)
    requires IsName(name) && |name| == 1
    ensures IsWalk(SLASH_ROOT, SmallWalk(own, name, files)) && RootNames(SLASH_ROOT) == [[114]]
    ensures WalkedAndKept(SLASH_ROOT, SmallWalk(own, name, files), [])
    ensures WalkedAndKept(SLASH_ROOT, SmallWalk(own, name, files), [name])
    ensures NothingHidden(SLASH_ROOT, SmallWalk(own, name, files), [])
  {
    var walk := SmallWalk(own, name, files);
    NameHasNoSlash([114]);
    assert SLASH_ROOT[1..2] == [114];
    assert walk[0].path == [] && walk[1].path == [name] && [name][..0] == [];
    assert Walked(walk, []) && Walked(walk, [name]);
    assert FullName(SLASH_ROOT, [name]) == SLASH_ROOT + name;
    ShortIsKept(SLASH_ROOT, []);
    ShortIsKept(SLASH_ROOT, [name]);
    assert !Skips(SLASH_ROOT, walk[0].path) && !Skips(SLASH_ROOT, walk[1].path);
    hide Skips;
  }

  lemma ShortIsKept(root: Text, p: Path)
    requires 1 <= |FullName(root, p)| < 6 && FullName(root, p)[0] == 47
    ensures !Skips(root, p)
  {
    var t := FullName(root, p);
    assert |GIT_INSIDE| == 6 && GIT[0] == 46;
    assert forall i :: OccursAt(t, GIT_INSIDE, i) ==> i + 6 <= |t|;
  }

  /** The files of that walk. */
  lemma SmallWalkFiles(own: set<Name>, name: Name, files: set<Name>, p: Path, f: File)
    requires IsName(name) && |name| == 1
    ensures f in FilesBelow(SLASH_ROOT, SmallWalk(own, name, files), p) <==>
            (p == [] && f.0 == [] && f.1 in own) || (p <= [name] == f.0 && f.1 in files)
  {
    var walk := SmallWalk(own, name, files);
    SmallWalkIsWalk(own, name, files);
    FilesBelowMember(SLASH_ROOT, walk, p, f);
    assert Kept(SLASH_ROOT, walk[0]) && Kept(SLASH_ROOT, walk[1]);
    hide Kept, FilesBelow;
    assert FileOf(SLASH_ROOT, walk[0], p, f) <==> p == [] && f.0 == [] && f.1 in own;
    assert FileOf(SLASH_ROOT, walk[1], p, f) <==> p <= [name] == f.0 && f.1 in files;
  }

  /** "/r/" with an unlisted file in its directory "a" and none of its own: the root is returned, although
      nothing is hidden, and cannot be deleted. */
  lemma SlashRootIsReturned()
    ensures var walk := SmallWalk({}, [97], {[102]});
            && IsWalk(SLASH_ROOT, walk) && ListedExist(SLASH_ROOT, walk, []) && NothingHidden(SLASH_ROOT, walk, [])
            && Returned(SLASH_ROOT, walk, [], []) && !Emptied(SLASH_ROOT, walk, [], [])
            && !RootIsFine(SLASH_ROOT, walk, [])
  {
    var walk := SmallWalk({}, [97], {[102]});
    SmallWalkIsWalk({}, [97], {[102]});
    hide IsWalk, WalkedAndKept, FilesBelow, NothingHidden, RootNames;
    forall f
      ensures f !in FilesAt(SLASH_ROOT, walk, [])
    {
      SmallWalkFiles({}, [97], {[102]}, [], f);
    }
    assert UnlistedAt(SLASH_ROOT, walk, [], []) == {};
    SmallWalkFiles({}, [97], {[102]}, [], ([[97]], [102]));
  }

  /** "/r/" with a listed file of its own and an empty directory "r": the count of "r" is one too low, so it is
      not returned, although the root above it is. */
  lemma SlashRootMissesADirectory()
    ensures var walk, listed := SmallWalk({[102]}, [114], {}), [([], [102])];
            && IsWalk(SLASH_ROOT, walk) && ListedExist(SLASH_ROOT, walk, listed)
            && Removable(SLASH_ROOT, walk, listed, [[114]]) && !Returned(SLASH_ROOT, walk, listed, [[114]])
            && Returned(SLASH_ROOT, walk, listed, []) && !RootIsFine(SLASH_ROOT, walk, listed)
  {
    var walk: seq<Dir>, listed: seq<File> := SmallWalk({[102]}, [114], {}), [([], [102])];
    SmallWalkIsWalk({[102]}, [114], {});
    hide IsWalk, WalkedAndKept, FilesBelow, RootNames;
    SmallWalkFiles({[102]}, [114], {}, [], ([], [102]));
    forall f
      ensures f !in FilesBelow(SLASH_ROOT, walk, [[114]])
    {
      SmallWalkFiles({[102]}, [114], {}, [[114]], f);
    }
    forall f
      ensures f in FilesBelow(SLASH_ROOT, walk, []) <==> f == ([], [102])
    {
      SmallWalkFiles({[102]}, [114], {}, [], f);
    }
    assert UnlistedAt(SLASH_ROOT, walk, listed, [[114]]) == {} && UnlistedAt(SLASH_ROOT, walk, listed, []) == {};
    assert ([], [102]) in StrayListed(SLASH_ROOT, listed, [[114]]);
    if RootIsFine(SLASH_ROOT, walk, listed) {
      ReturnedIsRemovable(SLASH_ROOT, walk, listed, [[114]]);
      assert false;
    }
  }
}
