/** Which directory entries and inodes a path depends on, and that a change of
    the disk elsewhere leaves the path alone. */
module MinixPaths {
  import opened Directory
  import opened Inodes
  import opened MinixInvariant
  import opened MinixKeeps
  import opened MinixModel
  import opened Sectors
  import opened Strings

  /** The names looked up by a walk, each with the directory sector. */
  ghost function Asked(d: Disk, parts: seq<Bytes>, s: nat): set<(nat, Bytes)>
    requires Formed(d) && s < SECTORS
    decreases |parts|
  {
    if parts == [] then {}
    else
      var n := Lookup(DirOf(d[s]), parts[0]);
      {(s, parts[0])} + if n == 0 || !IsDir(d, n) then {} else Asked(d, parts[1..], 2 * Zone(d, n, 0))
  }

  /** The inodes that a walk passes. */
  ghost function Visited(d: Disk, parts: seq<Bytes>, s: nat): set<nat>
    requires Formed(d) && s < SECTORS
    decreases |parts|
  {
    if parts == [] then {}
    else
      var n := Lookup(DirOf(d[s]), parts[0]);
      {n} + if n == 0 || !IsDir(d, n) then {} else Visited(d, parts[1..], 2 * Zone(d, n, 0))
  }

  /** All that a path asks for, the last component included. */
  ghost function PathAsks(d: Disk, path: Bytes): set<(nat, Bytes)>
    requires Formed(d)
  {
    Asked(d, PathParts(path), ROOT_SECTOR)
    + if PathDir(d, path) == 0 then {} else {(PathDir(d, path), PathName(path))}
  }

  ghost function PathVisits(d: Disk, path: Bytes): set<nat>
    requires Formed(d)
  {
    Visited(d, PathParts(path), ROOT_SECTOR)
  }

  /** From `d` to `after`, lookups of the names in `touched` may change, and the
      inodes in `lost` may stop being the directories they were. */
  ghost predicate Changed(d: Disk, after: Disk, touched: set<(nat, Bytes)>, lost: set<nat>)
    requires Formed(d) && Formed(after)
  {
    && (forall t: nat, x: Bytes | t < SECTORS && DirAt(d, t) && (t, x) !in touched ::
          Lookup(DirOf(after[t]), x) == Lookup(DirOf(d[t]), x))
    && (forall m: InodeNo | IsNode(m) && m !in lost ::
          IsDir(after, m) == IsDir(d, m) && (IsDir(d, m) ==> Zone(after, m, 0) == Zone(d, m, 0)))
  }

  lemma {:induction false} WalkKept(d: Disk, after: Disk, touched: set<(nat, Bytes)>, lost: set<nat>,
                                    parts: seq<Bytes>, s: nat)
    requires Inv(d) && Formed(after) && Changed(d, after, touched, lost) && DirAt(d, s) && s < SECTORS
    requires Asked(d, parts, s) !! touched && Visited(d, parts, s) !! lost
    ensures Walk(after, parts, s) == Walk(d, parts, s)
    decreases |parts|
  {
    hide Zone, IsDir, Lookup, GoodDir, ZoneBit;
    if parts != [] {
      DirAtMeans(d, s);
      var n := Lookup(DirOf(d[s]), parts[0]);
      LookupGood(DirOf(d[s]), parts[0]);
      assert (s, parts[0]) in Asked(d, parts, s) && n in Visited(d, parts, s);
      if n != 0 && IsDir(d, n) {
        assert IsNode(n);
        WalkKept(d, after, touched, lost, parts[1..], 2 * Zone(d, n, 0));
      }
    }
  }

  /** A walk past a directory that is none any more leads nowhere. */
  lemma {:induction false} WalkLost(d: Disk, after: Disk, touched: set<(nat, Bytes)>, lost: set<nat>,
                                    parts: seq<Bytes>, s: nat)
    requires Inv(d) && Formed(after) && Changed(d, after, touched, lost) && DirAt(d, s) && s < SECTORS
    requires forall m: InodeNo | m in lost :: !IsDir(after, m)
    requires Asked(d, parts, s) !! touched && !(Visited(d, parts, s) !! lost)
    ensures Walk(after, parts, s) == 0
    decreases |parts|
  {
    hide Zone, IsDir, Lookup, GoodDir, ZoneBit;
    DirAtMeans(d, s);
    var n := Lookup(DirOf(d[s]), parts[0]);
    LookupGood(DirOf(d[s]), parts[0]);
    assert (s, parts[0]) in Asked(d, parts, s);
    if n != 0 && n !in lost && IsDir(d, n) {
      assert IsNode(n);
      WalkLost(d, after, touched, lost, parts[1..], 2 * Zone(d, n, 0));
    }
  }

  lemma LookupKept(d: Disk, after: Disk, touched: set<(nat, Bytes)>, lost: set<nat>, t: nat, x: Bytes)
    requires Formed(d) && Formed(after) && Changed(d, after, touched, lost)
    requires t < SECTORS && DirAt(d, t) && (t, x) !in touched
    ensures Lookup(DirOf(after[t]), x) == Lookup(DirOf(d[t]), x)
  {
    hide IsDir, Zone, Lookup;
  }

  /** A walk that meets changed directories only where they are gone leads
      nowhere, if it meets one. */
  lemma {:induction false} WalkPast(d: Disk, after: Disk, touched: set<(nat, Bytes)>, lost: set<nat>, gone: set<nat>,
                                    parts: seq<Bytes>, s: nat)
    requires Inv(d) && Formed(after) && Changed(d, after, touched, lost) && DirAt(d, s) && s < SECTORS
    requires Visited(d, parts, s) * lost <= gone && !(Visited(d, parts, s) !! lost)
    requires forall m: InodeNo | m in gone && m in lost :: !IsDir(after, m)
    requires Asked(d, parts, s) !! touched
    ensures Walk(after, parts, s) == 0
    decreases |parts|
  {
    hide Zone, IsDir, Lookup, GoodDir, ZoneBit;
    DirAtMeans(d, s);
    var n := Lookup(DirOf(d[s]), parts[0]);
    LookupGood(DirOf(d[s]), parts[0]);
    assert (s, parts[0]) in Asked(d, parts, s) && n in Visited(d, parts, s);
    if n != 0 && n !in lost && IsDir(d, n) {
      assert IsNode(n);
      WalkPast(d, after, touched, lost, gone, parts[1..], 2 * Zone(d, n, 0));
    }
  }

  /** Paths that ask for nothing touched and pass nothing lost lead where they
      did. */
  lemma FindKept(d: Disk, after: Disk, touched: set<(nat, Bytes)>, lost: set<nat>, path: Bytes)
    requires Inv(d) && Formed(after) && Changed(d, after, touched, lost)
    requires PathAsks(d, path) !! touched && PathVisits(d, path) !! lost
    ensures PathDir(after, path) == PathDir(d, path) && Find(after, path) == Find(d, path)
  {
    hide Zone, IsDir, Lookup, GoodDir, ZoneBit, Inv, DirAt, Walk, Asked, Visited;
    InvParts(d);
    RootAt(d);
    WalkKept(d, after, touched, lost, PathParts(path), ROOT_SECTOR);
    PathGood(d, path);
    if PathDir(d, path) != 0 {
      assert (PathDir(d, path), PathName(path)) in PathAsks(d, path);
    }
  }

  /** The directory part alone. */
  lemma PathDirAfter(d: Disk, after: Disk, touched: set<(nat, Bytes)>, lost: set<nat>, path: Bytes)
    requires Inv(d) && Formed(after) && Changed(d, after, touched, lost)
    requires forall m: InodeNo | m in lost :: !IsDir(after, m)
    requires Asked(d, PathParts(path), ROOT_SECTOR) !! touched
    ensures PathDir(after, path) == if PathVisits(d, path) !! lost then PathDir(d, path) else 0
  {
    hide Zone, IsDir, Lookup, GoodDir, ZoneBit, Inv, DirAt, Walk, Asked, Visited;
    InvParts(d);
    RootAt(d);
    if PathVisits(d, path) !! lost {
      WalkKept(d, after, touched, lost, PathParts(path), ROOT_SECTOR);
    } else {
      WalkLost(d, after, touched, lost, PathParts(path), ROOT_SECTOR);
    }
  }

  /** A walk that finds its way never asks in vain. */
  lemma {:induction false} WalkFinds(d: Disk, parts: seq<Bytes>, s: nat, t: nat, x: Bytes)
    requires Inv(d) && DirAt(d, s) && s < SECTORS && Walk(d, parts, s) != 0
    requires (t, x) in Asked(d, parts, s)
    ensures t < SECTORS && Lookup(DirOf(d[t]), x) != 0
    decreases |parts|
  {
    hide Zone, IsDir, Lookup, GoodDir, ZoneBit;
    DirAtMeans(d, s);
    var n := Lookup(DirOf(d[s]), parts[0]);
    LookupGood(DirOf(d[s]), parts[0]);
    if (t, x) != (s, parts[0]) {
      assert IsNode(n);
      WalkFinds(d, parts[1..], 2 * Zone(d, n, 0), t, x);
    }
  }

  /** The directory part of a path does not ask for a name that its directory
      lacks. */
  lemma PathDirAsks(d: Disk, path: Bytes, t: nat, x: Bytes)
    requires Inv(d) && PathDir(d, path) != 0 && t < SECTORS && Lookup(DirOf(d[t]), x) == 0
    ensures Asked(d, PathParts(path), ROOT_SECTOR) !! {(t, x)}
  {
    hide Zone, IsDir, Lookup, GoodDir, ZoneBit, Inv, DirAt, Walk, Asked;
    InvParts(d);
    RootAt(d);
    if (t, x) in Asked(d, PathParts(path), ROOT_SECTOR) {
      WalkFinds(d, PathParts(path), ROOT_SECTOR, t, x);
      assert false;
    }
  }

  /** Names directly in the root directory depend on no inode. */
  lemma RootLevel(d: Disk, path: Bytes)
    requires Formed(d) && PathParts(path) == []
    ensures PathDir(d, path) == ROOT_SECTOR && PathVisits(d, path) == {}
    ensures PathAsks(d, path) == {(ROOT_SECTOR, PathName(path))}
  {
  }

  /** No directory is found under the name. */
  predicate DeadEnd(d: Disk, t: nat, x: Bytes)
    requires Formed(d) && t < SECTORS
  {
    var n := Lookup(DirOf(d[t]), x);
    n == 0 || !IsDir(d, n)
  }

  /** A walk that asks for a name under which there is no directory any more, or
      still none, leads nowhere. */
  lemma {:induction false} WalkBlocked(d: Disk, after: Disk, touched: set<(nat, Bytes)>, lost: set<nat>,
                                       parts: seq<Bytes>, s: nat)
    requires Inv(d) && Formed(after) && Changed(d, after, touched, lost) && DirAt(d, s) && s < SECTORS
    requires forall m: InodeNo | m in lost :: !IsDir(after, m)
    requires forall t: nat, x: Bytes | (t, x) in touched && (t, x) in Asked(d, parts, s) ::
      t < SECTORS && DeadEnd(after, t, x)
    requires !(Asked(d, parts, s) !! touched)
    ensures Walk(after, parts, s) == 0
    decreases |parts|
  {
    hide Zone, IsDir, Lookup, GoodDir, ZoneBit;
    DirAtMeans(d, s);
    var n := Lookup(DirOf(d[s]), parts[0]);
    LookupGood(DirOf(d[s]), parts[0]);
    if (s, parts[0]) in touched {
      assert (s, parts[0]) in Asked(d, parts, s);
    } else if n != 0 && n !in lost && IsDir(d, n) {
      assert IsNode(n);
      WalkBlocked(d, after, touched, lost, parts[1..], 2 * Zone(d, n, 0));
    }
  }

  /** What a walk finds under a name is visited. */
  lemma {:induction false} AskedVisited(d: Disk, parts: seq<Bytes>, s: nat, t: nat, x: Bytes)
    requires Formed(d) && s < SECTORS && t < SECTORS && (t, x) in Asked(d, parts, s)
    ensures Lookup(DirOf(d[t]), x) in Visited(d, parts, s)
    decreases |parts|
  {
    hide Zone, IsDir, Lookup;
    var n := Lookup(DirOf(d[s]), parts[0]);
    if (t, x) != (s, parts[0]) {
      AskedVisited(d, parts[1..], 2 * Zone(d, n, 0), t, x);
    }
  }

  /** Whether a path still leads to its directory when the touched names are dead
      ends and the lost inodes are directories no more. */
  lemma PathDirWhenGone(d: Disk, after: Disk, touched: set<(nat, Bytes)>, lost: set<nat>, path: Bytes)
    requires Inv(d) && Formed(after) && Changed(d, after, touched, lost)
    requires forall m: InodeNo | m in lost :: !IsDir(after, m)
    requires forall t: nat, x: Bytes | (t, x) in touched && (t, x) in Asked(d, PathParts(path), ROOT_SECTOR) ::
      t < SECTORS && DeadEnd(after, t, x)
    ensures PathDir(after, path)
            == if PathVisits(d, path) !! lost && Asked(d, PathParts(path), ROOT_SECTOR) !! touched
               then PathDir(d, path) else 0
  {
    hide Zone, IsDir, Lookup, GoodDir, ZoneBit, Inv, DirAt, Walk, Asked, Visited;
    InvParts(d);
    RootAt(d);
    if Asked(d, PathParts(path), ROOT_SECTOR) !! touched {
      PathDirAfter(d, after, touched, lost, path);
    } else {
      WalkBlocked(d, after, touched, lost, PathParts(path), ROOT_SECTOR);
    }
  }
}
