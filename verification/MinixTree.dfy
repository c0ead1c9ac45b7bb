/** Paths through a new directory. */
module MinixTree {
  import opened Directory
  import opened Inodes
  import opened Machine
  import opened MinixInvariant
  import opened MinixKeeps
  import opened MinixModel
  import opened MinixNames
  import opened MinixPaths
  import opened Sectors
  import opened Strings

  /** A byte put before pieces, joining the first one or not. */
  function Prepend(x: byte, joins: bool, pieces: seq<Bytes>): seq<Bytes> {
    if joins && pieces != [] then [[x] + pieces[0]] + pieces[1..] else [[x]] + pieces
  }

  lemma SplitStep(s: Bytes, delims: Bytes)
    requires s != []
    ensures Split(s, delims)
            == if s[0] in delims then Split(s[1..], delims)
               else Prepend(s[0], |s| > 1 && s[1] !in delims, Split(s[1..], delims))
  {
  }

  lemma PrependMore(x: byte, joins: bool, a: seq<Bytes>, b: seq<Bytes>)
    requires joins ==> a != []
    ensures Prepend(x, joins, a + b) == Prepend(x, joins, a) + b
  {
    if joins {
      assert (a + b)[1..] == a[1..] + b;
    }
  }

  /** A delimiter splits. */
  lemma {:induction false} SplitAt(a: Bytes, c: byte, b: Bytes, delims: Bytes)
    requires c in delims
    ensures Split(a + [c] + b, delims) == Split(a, delims) + Split(b, delims)
  {
    hide Split, Prepend;
    var s := a + [c] + b;
    SplitStep(s, delims);
    if a == [] {
      assert s[1..] == b;
      SplitNothing(delims);
    } else {
      SplitAt(a[1..], c, b, delims);
      SplitStep(a, delims);
      assert s[0] == a[0] && s[1..] == a[1..] + [c] + b;
      assert s[1] == if |a| > 1 then a[1] else c;
      if |a| > 1 && a[1] !in delims {
        SplitNonEmpty(a[1..], delims);
      }
      PrependMore(a[0], |a| > 1 && a[1] !in delims, Split(a[1..], delims), Split(b, delims));
    }
  }

  lemma SplitOne(name: Bytes)
    requires name != [] && SLASH !in name
    ensures Split(name, [SLASH]) == [name]
  {
    hide Split;
    SplitRun(name, [], [SLASH]);
    SplitNothing([SLASH]);
    assert name + [] == name;
  }

  lemma CutAt(s: Bytes, i: nat)
    requires i < |s|
    ensures s == s[..i] + [s[i]] + s[i + 1..]
  {
  }

  /** The last component has no slash; a slash comes before it, if anything does. */
  lemma LastCut(path: Bytes)
    ensures var i, name := LastIndex(path, SLASH), PathName(path);
      SLASH !in name && path == if i == -1 then name else path[..i] + [SLASH] + name
  {
    hide LastIndex;
    LastIndexMeans(path, SLASH);
    if LastIndex(path, SLASH) != -1 {
      CutAt(path, LastIndex(path, SLASH));
    }
  }

  /** The components of a path are those of its directory part and the last one. */
  lemma PathSplits(path: Bytes)
    requires PathName(path) != []
    ensures Split(path, [SLASH]) == PathParts(path) + [PathName(path)]
  {
    hide Split, LastIndex, PathName;
    var i, name := LastIndex(path, SLASH), PathName(path);
    LastCut(path);
    SplitOne(name);
    SplitNothing([SLASH]);
    if i >= 0 {
      SplitAt(path[..i], SLASH, name, [SLASH]);
      NothingBefore(path);
    }
  }

  lemma NothingBefore(s: Bytes)
    ensures s[..0] == []
  {
  }

  function Below(path: Bytes, name: Bytes): Bytes {
    path + [SLASH] + name
  }

  lemma {:induction false} LastSlash(path: Bytes, name: Bytes)
    requires SLASH !in name
    ensures LastIndex(Below(path, name), SLASH) == |path|
  {
    var s := Below(path, name);
    if name != [] {
      var t := name[..|name| - 1];
      LastSlash(path, t);
      assert s[..|s| - 1] == Below(path, t);
    }
  }

  lemma {:induction false} WalkOneMore(d: Disk, parts: seq<Bytes>, s: nat, x: Bytes)
    requires Inv(d) && DirAt(d, s) && s < SECTORS
    ensures var t := Walk(d, parts, s);
      Walk(d, parts + [x], s)
      == if t == 0 then 0
         else var n := Lookup(DirOf(d[t]), x); if n == 0 || !IsDir(d, n) then 0 else 2 * Zone(d, n, 0)
    decreases |parts|
  {
    hide Zone, IsDir, Lookup, GoodDir, ZoneBit;
    DirAtMeans(d, s);
    if parts == [] {
      var n := Lookup(DirOf(d[s]), x);
      assert [x][1..] == [] && parts + [x] == [x];
      if n != 0 && IsDir(d, n) {
        WalkDone(d, 2 * Zone(d, n, 0));
      }
    } else {
      var n := Lookup(DirOf(d[s]), parts[0]);
      LookupGood(DirOf(d[s]), parts[0]);
      assert (parts + [x])[1..] == parts[1..] + [x];
      if n != 0 && IsDir(d, n) {
        assert IsNode(n);
        WalkOneMore(d, parts[1..], 2 * Zone(d, n, 0), x);
      }
    }
  }

  lemma WalkDone(d: Disk, s: nat)
    requires Formed(d) && s < SECTORS
    ensures Walk(d, [], s) == s
  {
  }

  /** A name below a path is looked up in the directory that the path leads to. */
  lemma FindBelow(d: Disk, path: Bytes, name: Bytes)
    requires Inv(d) && PathName(path) != [] && SLASH !in name
    ensures var n := Find(d, path);
      && PathDir(d, Below(path, name)) == (if n == 0 || !IsDir(d, n) then 0 else 2 * Zone(d, n, 0))
      && Find(d, Below(path, name))
         == if n == 0 || !IsDir(d, n) then 0 else Lookup(DirOf(d[2 * Zone(d, n, 0)]), name)
  {
    hide Zone, IsDir, Lookup, GoodDir, Inv, DirAt, Walk, Split, LastIndex;
    InvParts(d);
    PathSplits(path);
    LastSlash(path, name);
    var whole := Below(path, name);
    assert whole[..|path|] == path && whole[|path| + 1..] == name;
    assert |path| > 0;
    RootAt(d);
    WalkOneMore(d, PathParts(path), ROOT_SECTOR, PathName(path));
    PathGood(d, path);
    if Find(d, path) != 0 && IsDir(d, Find(d, path)) {
      DirHasZone(d, Find(d, path));
    }
  }

  /** A new directory can be entered: its "." leads to itself, and its ".." to
      what the first entry of the parent names. */
  lemma NewDirEntered(d: Disk, path: Bytes)
    requires Inv(d) && PathOk(path) && PathName(path) != []
    requires CreateDir(d, path).1 == ESUCCESS && PathVisits(d, path) !! Lost(FreeInode(d))
    ensures var after, n := CreateDir(d, path).0, FreeInode(d);
      && Find(after, path) == n
      && Find(after, Below(path, DOT)) == n
      && Find(after, Below(path, DOT_DOT)) == U16(d[PathDir(d, path)], 0)
  {
    hide Inv, CreateDir, Find, PathDir, PathVisits, FreeInode, Zone, IsDir, Lookup, PathName, Below, U16, Changed,
      Renewed,
      DataKept, ZoneBit;
    InvParts(d);
    CreateDirFinds(d, path, path);
    CreateDirMakes(d, path);
    CreateDirKeeps(d, path);
    FindBelow(CreateDir(d, path).0, path, DOT);
    FindBelow(CreateDir(d, path).0, path, DOT_DOT);
  }
}
