/** What the file operations of kernel/fs/minix/file.c do to the disk, as
    functions from the disk before to the disk after and the returned code. */
module MinixModel {
  import opened Bits
  import opened Directory
  import opened Inodes
  import opened Machine
  import opened Sectors
  import opened Strings

  const SLASH: byte := 47

  const ESUCCESS: int := 0
  const EPERM: int := 1
  const ENOENT: int := 2
  const EACCES: int := 13
  const EEXIST: int := 17
  const ENOTDIR: int := 20
  const ENOSPC: int := 28

  // Paths.

  /** Paths that fit the 256-byte buffer and whose last component fits a name
      field with its terminator. */
  predicate PathOk(path: Bytes) {
    |path| < 256 && 0 !in path && |PathName(path)| < NAME_FIELD
  }

  /** What follows the last slash. */
  function PathName(path: Bytes): Bytes {
    path[LastIndex(path, SLASH) + 1..]
  }

  /** From a directory sector through the named directories; 0 when a name is
      missing or is not a directory. */
  function Walk(d: Disk, parts: seq<Bytes>, s: nat): (r: nat)
    requires Formed(d) && s < SECTORS
    ensures r < SECTORS
    decreases |parts|
  {
    if parts == [] then s
    else
      var n := Lookup(DirOf(d[s]), parts[0]);
      if n == 0 || !IsDir(d, n) then 0 else Walk(d, parts[1..], 2 * Zone(d, n, 0))
  }

  /** The directories to walk through. */
  function PathParts(path: Bytes): seq<Bytes> {
    if LastIndex(path, SLASH) <= 0 then [] else Split(path[..LastIndex(path, SLASH)], [SLASH])
  }

  /** The sector of the directory that the last component is looked up in. */
  function PathDir(d: Disk, path: Bytes): (s: nat)
    requires Formed(d)
    ensures s < SECTORS
  {
    Walk(d, PathParts(path), ROOT_SECTOR)
  }

  /** The inode that a path leads to; 0 when there is none. */
  function Find(d: Disk, path: Bytes): (n: nat)
    requires Formed(d)
    ensures n < 0x10000
  {
    if PathDir(d, path) == 0 then 0 else Lookup(DirOf(d[PathDir(d, path)]), PathName(path))
  }

  // Bitmaps.

  /** The first clear bit at or after `from`; ZONE_LIMIT when all are set. */
  function FirstClear(m: Bytes, from: nat): (r: nat)
    requires |m| == SECTOR_SIZE && from <= ZONE_LIMIT
    ensures from <= r <= ZONE_LIMIT && (forall i | from <= i < r :: Bit(m, i))
    ensures r < ZONE_LIMIT ==> !Bit(m, r)
    decreases ZONE_LIMIT - from
  {
    if from == ZONE_LIMIT || !Bit(m, from) then from else FirstClear(m, from + 1)
  }

  /** The number of a free inode: one more than its bit, and above 2. 0 when there
      is none. */
  function FreeInode(d: Disk): (n: nat)
    requires Formed(d)
    ensures n == 0 || 2 < n <= ZONE_LIMIT
  {
    var bit := FirstClear(d[INODE_BITMAP], 2);
    if bit == ZONE_LIMIT then 0 else bit + 1
  }

  function TakeInode(d: Disk, n: InodeNo): (after: Disk)
    requires Formed(d) && n <= ZONE_LIMIT
    ensures Formed(after)
  {
    d[INODE_BITMAP := SetBit(d[INODE_BITMAP], n - 1)]
  }

  /** The bit that the delete paths clear: number `n`, not n - 1. */
  function ClearInodeBit(d: Disk, n: InodeNo): (after: Disk)
    requires Formed(d)
    ensures Formed(after)
  {
    if n < ZONE_LIMIT then d[INODE_BITMAP := ClearBit(d[INODE_BITMAP], n)] else d
  }

  function TakeZone(d: Disk, z: nat): (after: Disk)
    requires Formed(d) && z < ZONE_LIMIT
    ensures Formed(after)
  {
    d[ZONE_BITMAP := SetBit(d[ZONE_BITMAP], z)]
  }

  function FreeZone(d: Disk, z: nat): (after: Disk)
    requires Formed(d)
    ensures Formed(after)
  {
    if 0 < z < ZONE_LIMIT then d[ZONE_BITMAP := ClearBit(d[ZONE_BITMAP], z)] else d
  }

  /** The first `k` zones of the record at `o` in `b` freed. */
  function FreeZones(d: Disk, b: Bytes, o: nat, k: nat): (after: Disk)
    requires Formed(d) && |b| == SECTOR_SIZE && o + 32 <= SECTOR_SIZE && k <= ZONES
    ensures Formed(after)
  {
    if k == 0 then d else FreeZone(FreeZones(d, b, o, k - 1), ZoneAt(b, o, k - 1))
  }

  // Steps shared by the operations.

  function PutSector(d: Disk, s: nat, b: Bytes): (after: Disk)
    requires Formed(d) && s < SECTORS && |b| == SECTOR_SIZE
    ensures Formed(after)
  {
    d[s := b]
  }

  function WipeInode(d: Disk, n: InodeNo): (after: Disk)
    requires Formed(d)
    ensures Formed(after)
  {
    PutSector(d, SectorOf(n), Wiped(d[SectorOf(n)], OffsetOf(n)))
  }

  function NewFileInode(d: Disk, n: InodeNo): (after: Disk)
    requires Formed(d)
    ensures Formed(after)
  {
    PutSector(d, SectorOf(n), FreshRecord(d[SectorOf(n)], OffsetOf(n), FILE_MODE, 0, 1))
  }

  function NewDirInode(d: Disk, n: InodeNo, z: nat): (after: Disk)
    requires Formed(d) && z < ZONE_LIMIT
    ensures Formed(after)
  {
    var b := FreshRecord(d[SectorOf(n)], OffsetOf(n), DIR_MODE, 64, 2);
    PutSector(d, SectorOf(n), Put16(b, OffsetOf(n) + 14, z))
  }

  /** An entry in the first free slot of a directory sector. */
  function AddEntry(d: Disk, s: nat, n: InodeNo, name: Bytes): (r: (Disk, int))
    requires Formed(d) && s < SECTORS
    ensures Formed(r.0)
  {
    var i := FindFree(DirOf(d[s]));
    if i < ENTRIES then (PutSector(d, s, PutEntry(d[s], i, n, name)), ESUCCESS) else (d, -ENOSPC)
  }

  function FreeEntry(d: Disk, s: nat, i: nat): (after: Disk)
    requires Formed(d) && s < SECTORS && i < ENTRIES
    ensures Formed(after)
  {
    PutSector(d, s, PutEntry(d[s], i, 0, []))
  }

  // The operations.

  function CreateFile(d: Disk, path: Bytes): (r: (Disk, int))
    requires Formed(d)
    ensures Formed(r.0)
  {
    var s, n := PathDir(d, path), FreeInode(d);
    if Find(d, path) != 0 then (d, -EEXIST)
    else if s == 0 then (d, -ENOENT)
    else if n == 0 then (d, -ENOSPC)
    else AddEntry(NewFileInode(TakeInode(d, n), n), s, n, PathName(path))
  }

  /** An inode for a directory with zone `z`, the two entries of that directory,
      and an entry in the directory at sector `s`. */
  function MakeDir(d: Disk, s: nat, n: InodeNo, z: nat, name: Bytes): (r: (Disk, int))
    requires Formed(d) && s < SECTORS && z < ZONE_LIMIT
    ensures Formed(r.0)
  {
    var d1 := NewDirInode(d, n, z);
    var d2 := PutSector(d1, 2 * z, NewDir(n, U16(d1[s], 0)));
    AddEntry(d2, s, n, name)
  }

  function CreateDir(d: Disk, path: Bytes): (r: (Disk, int))
    requires Formed(d)
    ensures Formed(r.0)
  {
    var s, n := PathDir(d, path), FreeInode(d);
    if Find(d, path) != 0 then (d, -EEXIST)
    else if s == 0 then (d, -ENOENT)
    else if n == 0 then (d, -ENOSPC)
    else
      var d1 := TakeInode(d, n);
      var z := FirstClear(d1[ZONE_BITMAP], 0);
      if z == ZONE_LIMIT then (d1, -ENOSPC) else MakeDir(TakeZone(d1, z), s, n, z, PathName(path))
  }

  /** Everything that goes with inode `n` under entry `i` of sector `s`. */
  function DropFile(d: Disk, s: nat, i: nat, n: InodeNo): (after: Disk)
    requires Formed(d) && s < SECTORS && i < ENTRIES
    ensures Formed(after)
  {
    var d1 := FreeZones(d, d[SectorOf(n)], OffsetOf(n), ZONES);
    FreeEntry(ClearInodeBit(WipeInode(d1, n), n), s, i)
  }

  function DeleteFile(d: Disk, path: Bytes): (r: (Disk, int))
    requires Formed(d)
    ensures Formed(r.0)
  {
    var s, name := PathDir(d, path), PathName(path);
    if s == 0 then (d, -ENOENT)
    else if name == DOT || name == DOT_DOT then (d, -EACCES)
    else
      var i := FindName(DirOf(d[s]), name);
      if i == ENTRIES then (d, -ENOENT)
      else (DropFile(d, s, i, DirOf(d[s])[i].inode), ESUCCESS)
  }

  /** As DropFile, but only the first zone is freed and the entry is found again
      by its inode number. */
  function DropDir(d: Disk, s: nat, n: InodeNo): (after: Disk)
    requires Formed(d) && s < SECTORS
    ensures Formed(after)
  {
    var d1 := ClearInodeBit(WipeInode(FreeZone(d, Zone(d, n, 0)), n), n);
    var i := FindInode(DirOf(d1[s]), n);
    if i < ENTRIES then FreeEntry(d1, s, i) else d1
  }

  function DeleteDir(d: Disk, path: Bytes): (r: (Disk, int))
    requires Formed(d)
    ensures Formed(r.0)
  {
    var s, name, n := PathDir(d, path), PathName(path), Find(d, path);
    if s == 0 then (d, -ENOENT)
    else if name == DOT || name == DOT_DOT then (d, -EPERM)
    else if n == 0 then (d, -ENOENT)
    else if !IsDir(d, n) then (d, -ENOTDIR)
    else if Size(d, n) > 64 then (d, -EPERM)
    else (DropDir(d, s, n), ESUCCESS)
  }

  function Min(a: nat, b: nat): nat {
    if a < b then a else b
  }

  /** What ReadFile leaves in `output` and returns. */
  function ReadInode(d: Disk, n: InodeNo, count: nat, output: Bytes): (r: (Bytes, int))
    requires Formed(d) && count <= |output| && Min(count, Size(d, n)) <= SECTOR_SIZE
    ensures |r.0| == |output|
  {
    var actual := Min(count, Size(d, n));
    var copied :=
      if actual > 0 && Zone(d, n, 0) != 0 then Overwrite(output, 0, d[2 * Zone(d, n, 0)][..actual]) else output;
    (Overwrite(copied, actual, Zeros(count - actual)), actual)
  }

  /** Reading stays inside the sector buffer. */
  predicate CanRead(d: Disk, path: Bytes, count: nat)
    requires Formed(d)
  {
    Find(d, path) != 0 ==> Min(count, Size(d, Find(d, path))) <= SECTOR_SIZE
  }

  function ReadFile(d: Disk, path: Bytes, count: nat, output: Bytes): (r: (Bytes, int))
    requires Formed(d) && count <= |output| && CanRead(d, path, count)
    ensures |r.0| == |output|
  {
    var n := Find(d, path);
    if n == 0 then (output, -ENOENT) else ReadInode(d, n, count, output)
  }

  /** The sector that `count` bytes of `input` are written as. */
  function Block(input: Bytes, count: nat): (b: Bytes)
    requires Min(count, SECTOR_SIZE) <= |input|
    ensures |b| == SECTOR_SIZE
  {
    input[..Min(count, SECTOR_SIZE)] + Zeros(SECTOR_SIZE - Min(count, SECTOR_SIZE))
  }

  /** The record with its size raised to `count`. */
  function Grown(b: Bytes, o: nat, count: nat): (r: Bytes)
    requires |b| == SECTOR_SIZE && o + 32 <= SECTOR_SIZE && count < TWO32
    ensures |r| == SECTOR_SIZE
  {
    if U32(b, o + 4) < count then Put32(b, o + 4, count) else b
  }

  /** The data sector and then the record `b` of inode `n` written. */
  function Store(d: Disk, n: InodeNo, b: Bytes, input: Bytes, count: nat): (after: Disk)
    requires Formed(d) && |b| == SECTOR_SIZE && Min(count, SECTOR_SIZE) <= |input|
    ensures Formed(after)
  {
    var d1 := PutSector(d, 2 * ZoneAt(b, OffsetOf(n), 0), Block(input, count));
    PutSector(d1, SectorOf(n), Grown(b, OffsetOf(n), Min(count, SECTOR_SIZE)))
  }

  function WriteInode(d: Disk, n: InodeNo, input: Bytes, count: nat): (r: (Disk, int))
    requires Formed(d) && Min(count, SECTOR_SIZE) <= |input|
    ensures Formed(r.0)
  {
    var b := d[SectorOf(n)];
    if Zone(d, n, 0) != 0 then (Store(d, n, b, input, count), Min(count, SECTOR_SIZE))
    else
      var z := FirstClear(d[ZONE_BITMAP], 0);
      if z == ZONE_LIMIT then (d, -ENOSPC)
      else (Store(TakeZone(d, z), n, Put16(b, OffsetOf(n) + 14, z), input, count), Min(count, SECTOR_SIZE))
  }

  function WriteFile(d: Disk, path: Bytes, input: Bytes, count: nat): (r: (Disk, int))
    requires Formed(d) && Min(count, SECTOR_SIZE) <= |input|
    ensures Formed(r.0)
  {
    var n := Find(d, path);
    if n == 0 then (d, -ENOENT) else WriteInode(d, n, input, count)
  }

  /** The entry freed in one directory and made in another. */
  function Move(d: Disk, from: nat, i: nat, to: nat, name: Bytes): (r: (Disk, int))
    requires Formed(d) && from < SECTORS && to < SECTORS && i < ENTRIES && DirOf(d[from])[i].Used?
    ensures Formed(r.0)
  {
    AddEntry(FreeEntry(d, from, i), to, DirOf(d[from])[i].inode, name)
  }

  function RenameFile(d: Disk, oldPath: Bytes, newPath: Bytes): (r: (Disk, int))
    requires Formed(d)
    ensures Formed(r.0)
  {
    var from, to := PathDir(d, oldPath), PathDir(d, newPath);
    if from == 0 || to == 0 then (d, -ENOENT)
    else if Find(d, newPath) != 0 then (d, -EEXIST)
    else
      var i := FindName(DirOf(d[from]), PathName(oldPath));
      if i == ENTRIES then (d, -ENOENT) else Move(d, from, i, to, PathName(newPath))
  }

  /** `buffer` is the copy buffer as it is before the call: the code does not
      initialize it. */
  function CopyFile(d: Disk, source: Bytes, dest: Bytes, buffer: Bytes): (r: (Disk, int))
    requires Formed(d) && |buffer| == SECTOR_SIZE
    ensures Formed(r.0)
  {
    var read := ReadFile(d, source, SECTOR_SIZE, buffer);
    if read.1 < 0 then (d, read.1)
    else
      var made := CreateFile(d, dest);
      if made.1 != ESUCCESS then made
      else
        var written := WriteFile(made.0, dest, read.0, read.1);
        (written.0, if written.1 != read.1 then -1 else ESUCCESS)
  }
}
