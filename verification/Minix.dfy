/** The file operations as the code runs them: sectors read into buffers, changed
    in loops and written back (kernel/fs/minix/file.c and inode.c). */
module Minix {
  import opened Bits
  import opened Directory
  import opened Inodes
  import opened Machine
  import opened MinixMoves
  import opened MinixModel
  import opened Sectors
  import opened Strings

  class FileSystem {
    var disk: Disk

    constructor (image: Disk)
      requires Formed(image)
      ensures disk == image
    {
      disk := image;
    }

    // Directory sectors.

    /** The first entry whose name equals the string at `off` of `text`. */
    method FindNamed(buf: Bytes, text: Bytes, off: nat) returns (i: nat)
      requires |buf| == SECTOR_SIZE && off <= |text|
      ensures i == FindName(DirOf(buf), CStr(text, off))
    {
      hide U16, CStr;
      ghost var es, name := DirOf(buf), CStr(text, off);
      i := 0;
      while i < ENTRIES
        invariant i <= ENTRIES
        invariant forall j | 0 <= j < i :: !Matches(es[j], name)
      {
        assert es[i] == EntryAt(buf, i);
        if U16(buf, 32 * i) != 0 {
          var d := Strcmp(buf, 32 * i + 2, text, off);
          if d == 0 {
            return;
          }
        }
        i := i + 1;
      }
    }

    /** The first entry for an inode. */
    method FindNumbered(buf: Bytes, n: InodeNo) returns (i: nat)
      requires |buf| == SECTOR_SIZE
      ensures i == FindInode(DirOf(buf), n)
    {
      hide U16, CStr;
      ghost var es := DirOf(buf);
      i := 0;
      while i < ENTRIES
        invariant i <= ENTRIES
        invariant forall j | 0 <= j < i :: !(es[j].Used? && es[j].inode == n)
      {
        assert es[i] == EntryAt(buf, i);
        if U16(buf, 32 * i) == n {
          return;
        }
        i := i + 1;
      }
    }

    method SetEntry(buf: Bytes, i: nat, n: nat, text: Bytes) returns (r: Bytes)
      requires |buf| == SECTOR_SIZE && i < ENTRIES && n < 0x10000
      ensures r == PutEntry(buf, i, n, CStr(text, 0))
    {
      r := Put16(buf, 32 * i, n);
      var field := Strncpy(text, 0, NAME_FIELD);
      r := Copy(r, 32 * i + 2, field);
    }

    /** An entry in the first free slot of a directory sector. */
    method AddEntry(s: nat, n: InodeNo, text: Bytes) returns (code: int)
      requires Formed(disk) && s < SECTORS
      modifies this
      ensures (disk, code) == MinixModel.AddEntry(old(disk), s, n, CStr(text, 0))
    {
      hide U16, CStr, PutEntry;
      var buf := disk[s];
      ghost var es := DirOf(buf);
      var i := 0;
      while i < ENTRIES
        invariant i <= ENTRIES && disk == old(disk)
        invariant forall j | 0 <= j < i :: es[j].Used?
      {
        assert es[i] == EntryAt(buf, i);
        if U16(buf, 32 * i) == 0 {
          buf := SetEntry(buf, i, n, text);
          disk := disk[s := buf];
          return ESUCCESS;
        }
        i := i + 1;
      }
      return -ENOSPC;
    }

    /** Entry `i` of a directory sector cleared. */
    method DropEntry(s: nat, i: nat)
      requires Formed(disk) && s < SECTORS && i < ENTRIES
      modifies this
      ensures disk == FreeEntry(old(disk), s, i)
    {
      var buf := Put16(disk[s], 32 * i, 0);
      buf := Clear(buf, 32 * i + 2, 32 * i + 2 + NAME_FIELD);
      assert Padded([], NAME_FIELD) == Zeros(NAME_FIELD);
      disk := disk[s := buf];
    }

    // Paths.

    /** The last component in a name buffer, and the directories before it in a
        copy of the path that is cut at the last slash; no copy when there are
        none. */
    method SplitPath(path: Bytes) returns (filename: Bytes, temp: array?<byte>)
      requires PathOk(path)
      ensures CStr(filename, 0) == PathName(path)
      ensures temp == null ==> PathParts(path) == []
      ensures temp != null ==>
        && fresh(temp) && Terminated(temp[..], 0)
        && Split(CStr(temp[..], 0), [SLASH]) == PathParts(path)
    {
      hide Split, CStr, Terminated, PathName;
      var buf := new byte[256];
      var copied := Strncpy(path, 0, 255);
      forall i | 0 <= i < 256 {
        buf[i] := if i < 255 then copied[i] else 0;
      }
      TempHolds(path, copied, buf[..]);
      var lastSlash := Strrchr(buf[..], SLASH);
      if lastSlash == -1 {
        filename := Strncpy(path, 0, NAME_FIELD);
        NameCopied(path, 0, filename);
        return filename, null;
      }
      if lastSlash == 0 {
        filename := Strncpy(path, 1, NAME_FIELD);
        NameCopied(path, 1, filename);
        return filename, null;
      }
      buf[lastSlash] := 0;
      filename := Strncpy(buf[..], lastSlash + 1, NAME_FIELD);
      TempCut(path, lastSlash, buf[..], filename);
      temp := buf;
    }

    /** The directory under a component, as the next sector; 0 when the component
        is missing or is no directory. */
    method StepInto(s: nat, text: Bytes, off: nat) returns (next: nat, found: bool)
      requires Formed(disk) && s < SECTORS && off <= |text|
      ensures var n := Lookup(DirOf(disk[s]), CStr(text, off));
        && (found <==> n != 0 && IsDir(disk, n))
        && next == if found then 2 * Zone(disk, n, 0) else 0
    {
      hide CStr, IsDir, Zone, ZoneAt, U16;
      var buf := disk[s];
      var i := FindNamed(buf, text, off);
      if i == ENTRIES {
        return 0, false;
      }
      EntryIs(buf, i);
      var n: InodeNo := U16(buf, 32 * i);
      RecordFields(disk, n);
      if !DirMode(U16(disk[SectorOf(n)], OffsetOf(n))) {
        return 0, false;
      }
      return 2 * ZoneAt(disk[SectorOf(n)], OffsetOf(n), 0), true;
    }

    /** The tokens of the cut path, one directory after the other. */
    method WalkTokens(temp: array<byte>) returns (s: nat)
      requires Formed(disk) && Terminated(temp[..], 0)
      modifies temp
      ensures s == Walk(disk, Split(CStr(old(temp[..]), 0), [SLASH]), ROOT_SECTOR)
    {
      hide Split, CStr, Walk, DirOf, Lookup, IsDir, Zone, Terminated, OnlyDelimiters;
      var tokenizer := new Tokenizer();
      ghost var left := Split(CStr(temp[..], 0), [SLASH]);
      ghost var target := Walk(disk, left, ROOT_SECTOR);
      var token := tokenizer.Start(temp, [SLASH]);
      s := ROOT_SECTOR;
      while token != -1
        invariant fresh(tokenizer) && tokenizer.At(temp, [SLASH], token, left)
        invariant s < SECTORS && Walk(disk, left, s) == target
        decreases |left|
      {
        WalkStep(disk, left, s);
        var next, found := StepInto(s, temp[..], token);
        if !found {
          return 0;
        }
        token := tokenizer.Next(temp, [SLASH], token, left);
        left := left[1..];
        s := next;
      }
      WalkEnd(disk, s);
    }

    /** The directory sector that a path leads to, and the last component in a
        name buffer. */
    method FindSectorOfPathDir(path: Bytes) returns (s: nat, filename: Bytes)
      requires Formed(disk) && PathOk(path)
      ensures s == PathDir(disk, path) && CStr(filename, 0) == PathName(path)
    {
      hide Split, Walk, CStr, PathName, PathParts, Terminated;
      var temp: array?<byte>;
      filename, temp := SplitPath(path);
      if temp == null {
        WalkEnd(disk, ROOT_SECTOR);
        return ROOT_SECTOR, filename;
      }
      s := WalkTokens(temp);
    }

    method FindEntry(path: Bytes) returns (n: nat)
      requires Formed(disk) && PathOk(path)
      ensures n == Find(disk, path)
    {
      hide CStr, PathDir, PathName;
      var s, filename := FindSectorOfPathDir(path);
      if s == 0 {
        return 0;
      }
      var buf := disk[s];
      var i := FindNamed(buf, filename, 0);
      if i == ENTRIES {
        return 0;
      }
      assert DirOf(buf)[i] == EntryAt(buf, i);
      return U16(buf, 32 * i);
    }

    // Bitmaps.

    /** The first clear bit not below `from`, skipping bytes equal to 0xFF. */
    method FindClear(m: Bytes, from: nat) returns (r: nat)
      requires |m| == SECTOR_SIZE && from <= ZONE_LIMIT
      ensures r == FirstClear(m, from)
    {
      hide FirstClear, Test;
      var i := 0;
      while i < SECTOR_SIZE
        invariant i <= SECTOR_SIZE
        invariant forall z | from <= z < 8 * i :: Bit(m, z)
      {
        if m[i] != 0xFF {
          var bit := 0;
          while bit < 8
            invariant bit <= 8
            invariant forall z | from <= z < 8 * i + bit :: Bit(m, z)
          {
            assert Bit(m, 8 * i + bit) == Test(m[i], bit);
            if !Test(m[i], bit) && 8 * i + bit >= from {
              return 8 * i + bit;
            }
            bit := bit + 1;
          }
        } else {
          FullByteBits(m, i);
        }
        i := i + 1;
      }
      return ZONE_LIMIT;
    }

    method AllocateInode() returns (n: nat)
      requires Formed(disk)
      modifies this
      ensures n == FreeInode(old(disk)) && disk == if n == 0 then old(disk) else TakeInode(old(disk), n)
    {
      hide FirstClear, Bit;
      var bitmap := disk[INODE_BITMAP];
      var bit := FindClear(bitmap, 2);
      if bit == ZONE_LIMIT {
        return 0;
      }
      bitmap := bitmap[bit / 8 := WithBit(bitmap[bit / 8], bit % 8)];
      disk := disk[INODE_BITMAP := bitmap];
      return bit + 1;
    }

    /** Clears the bit that allocation set: n - 1. The delete paths do not call it. */
    method FreeInodeNumber(n: nat)
      requires Formed(disk) && n <= ZONE_LIMIT
      modifies this
      ensures n == 0 ==> disk == old(disk)
      ensures n != 0 ==> disk == PutSector(old(disk), INODE_BITMAP, ClearBit(old(disk)[INODE_BITMAP], n - 1))
    {
      if n == 0 {
        return;
      }
      var buf := disk[INODE_BITMAP];
      buf := buf[(n - 1) / 8 := WithoutBit(buf[(n - 1) / 8], (n - 1) % 8)];
      disk := disk[INODE_BITMAP := buf];
    }

    /** The bit with the inode's own number, as the delete paths clear it. */
    method ClearInodeNumber(n: InodeNo)
      requires Formed(disk)
      modifies this
      ensures disk == ClearInodeBit(old(disk), n)
    {
      if n < ZONE_LIMIT {
        var buf := disk[INODE_BITMAP];
        buf := buf[n / 8 := WithoutBit(buf[n / 8], n % 8)];
        disk := disk[INODE_BITMAP := buf];
      }
    }

    method FreeZone(z: nat)
      requires Formed(disk) && z < 0x10000
      modifies this
      ensures disk == MinixModel.FreeZone(old(disk), z)
    {
      if z == 0 {
        return;
      }
      if z < ZONE_LIMIT {
        var buf := disk[ZONE_BITMAP];
        buf := buf[z / 8 := WithoutBit(buf[z / 8], z % 8)];
        disk := disk[ZONE_BITMAP := buf];
      }
    }

    method MarkZone(z: nat)
      requires Formed(disk) && z < ZONE_LIMIT
      modifies this
      ensures disk == TakeZone(old(disk), z)
    {
      var bitmap := disk[ZONE_BITMAP];
      bitmap := bitmap[z / 8 := WithBit(bitmap[z / 8], z % 8)];
      disk := disk[ZONE_BITMAP := bitmap];
    }

    // Operations.

    method CreateFile(path: Bytes) returns (code: int)
      requires Formed(disk) && PathOk(path)
      modifies this
      ensures (disk, code) == MinixModel.CreateFile(old(disk), path)
    {
      hide CStr, PathDir, PathName, FirstClear, MinixModel.AddEntry, Find, FreeInode, TakeInode, FreshRecord;
      var n := FindEntry(path);
      if n != 0 {
        return -EEXIST;
      }
      var s, filename := FindSectorOfPathDir(path);
      if s == 0 {
        return -ENOENT;
      }
      var inode := AllocateInode();
      if inode == 0 {
        return -ENOSPC;
      }
      ghost var taken := disk;
      var sector, offset := SectorOf(inode), OffsetOf(inode);
      var buf := NewRecord(disk[sector], offset, FILE_MODE, 0, 1);
      disk := disk[sector := buf];
      assert disk == NewFileInode(taken, inode);
      code := this.AddEntry(s, inode, filename);
    }

    method NewRecord(b: Bytes, o: nat, mode: nat, size: nat, links: byte) returns (r: Bytes)
      requires |b| == SECTOR_SIZE && o + 32 <= SECTOR_SIZE && mode < 0x10000 && size < TWO32
      ensures r == FreshRecord(b, o, mode, size, links)
    {
      r := Clear(b, o, WipeEnd(o));
      r := Put16(r, o, mode);
      r := Put32(r, o + 4, size);
      r := r[o + 13 := links];
    }

    method CreateDir(path: Bytes) returns (code: int)
      requires Formed(disk) && PathOk(path)
      modifies this
      ensures (disk, code) == MinixModel.CreateDir(old(disk), path)
    {
      hide CStr, PathDir, PathName, FirstClear, MinixModel.AddEntry, Find, FreeInode, TakeInode, FreshRecord, TakeZone,
        NewDir, U16, Put16;
      var n := FindEntry(path);
      if n != 0 {
        return -EEXIST;
      }
      var s, filename := FindSectorOfPathDir(path);
      if s == 0 {
        return -ENOENT;
      }
      var inode := AllocateInode();
      if inode <= 2 {
        return -ENOSPC;
      }
      var zone := FindClear(disk[ZONE_BITMAP], 0);
      if zone == ZONE_LIMIT {
        return -ENOSPC;
      }
      MarkZone(zone);
      ghost var taken := disk;
      var sector, offset := SectorOf(inode), OffsetOf(inode);
      var buf := NewRecord(disk[sector], offset, DIR_MODE, 64, 2);
      buf := Put16(buf, offset + 14, zone);
      disk := disk[sector := buf];
      assert disk == NewDirInode(taken, inode, zone);
      var data := DirData(inode, U16(disk[s], 0));
      disk := disk[2 * zone := data];
      code := this.AddEntry(s, inode, filename);
    }

    method DirData(n: InodeNo, parent: nat) returns (data: Bytes)
      requires parent < 0x10000
      ensures data == NewDir(n, parent)
    {
      data := Zeros(SECTOR_SIZE);
      NameReadsBack(DOT);
      NameReadsBack(DOT_DOT);
      data := SetEntry(data, 0, n, DOT);
      data := SetEntry(data, 1, parent, DOT_DOT);
    }

    method DeleteFile(path: Bytes) returns (code: int)
      requires Formed(disk) && PathOk(path)
      modifies this
      ensures (disk, code) == MinixModel.DeleteFile(old(disk), path)
    {
      hide CStr, PathDir, PathName, U16, FreeZones, Wiped, DropFile;
      var s, filename := FindSectorOfPathDir(path);
      if s == 0 {
        return -ENOENT;
      }
      var special := IsSpecial(filename);
      if special {
        return -EACCES;
      }
      var buf := disk[s];
      var i := FindNamed(buf, filename, 0);
      if i == ENTRIES {
        return -ENOENT;
      }
      assert DirOf(buf)[i] == EntryAt(buf, i);
      RemoveInode(s, i, U16(buf, 32 * i));
      return ESUCCESS;
    }

    /** The zones, the record, the bitmap bit and the entry of an inode. */
    method RemoveInode(s: nat, i: nat, n: InodeNo)
      requires Formed(disk) && s < SECTORS && i < ENTRIES
      modifies this
      ensures disk == DropFile(old(disk), s, i, n)
    {
      hide U16, Put16, FreeZones, Wiped, ClearInodeBit, FreeEntry, MinixModel.FreeZone, ZoneAt, Zeros, WipeEnd;
      var sector, offset := SectorOf(n), OffsetOf(n);
      var inodeBuf := disk[sector];
      ghost var record := inodeBuf;
      var z := 0;
      FreeZonesNone(disk, record, offset);
      while z < ZONES
        invariant z <= ZONES && Formed(disk) && disk == FreeZones(old(disk), record, offset, z)
        invariant SameOutside(record, inodeBuf, offset, offset + 14 + 2 * z)
      {
        ZoneFrame(record, inodeBuf, offset, offset + 14 + 2 * z, offset, z);
        FreeZonesMore(old(disk), record, offset, z);
        var zone := ZoneAt(inodeBuf, offset, z);
        if zone != 0 {
          FreeZone(zone);
          Put16Effect(inodeBuf, offset + 14 + 2 * z, 0);
          inodeBuf := Put16(inodeBuf, offset + 14 + 2 * z, 0);
        } else {
          FreeNoZone(disk);
        }
        z := z + 1;
      }
      var wiped := Clear(inodeBuf, offset, WipeEnd(offset));
      WipedAlike(record, inodeBuf, offset);
      FreeZonesKeep(old(disk), record, offset, ZONES, sector);
      disk := disk[sector := wiped];
      ClearInodeNumber(n);
      DropEntry(s, i);
    }

    method IsSpecial(filename: Bytes) returns (r: bool)
      ensures r <==> CStr(filename, 0) == DOT || CStr(filename, 0) == DOT_DOT
    {
      hide CStr;
      NameReadsBack(DOT);
      NameReadsBack(DOT_DOT);
      var d1 := Strcmp(filename, 0, DOT, 0);
      var d2 := Strcmp(filename, 0, DOT_DOT, 0);
      r := d1 == 0 || d2 == 0;
    }

    method DeleteDir(path: Bytes) returns (code: int)
      requires Formed(disk) && PathOk(path)
      modifies this
      ensures (disk, code) == MinixModel.DeleteDir(old(disk), path)
    {
      hide CStr, PathDir, PathName, Find, Wiped, ClearInodeBit, FreeEntry, MinixModel.FreeZone, WipeEnd, DirOf, U16,
        U32,
        Zeros;
      var s, filename := FindSectorOfPathDir(path);
      if s == 0 {
        return -ENOENT;
      }
      var special := IsSpecial(filename);
      if special {
        return -EPERM;
      }
      var n := FindEntry(path);
      if n == 0 {
        return -ENOENT;
      }
      var sector, offset := SectorOf(n), OffsetOf(n);
      var inode := disk[sector];
      if !DirMode(U16(inode, offset)) {
        return -ENOTDIR;
      }
      if U32(inode, offset + 4) > 64 {
        return -EPERM;
      }
      var zone := ZoneAt(inode, offset, 0);
      if zone != 0 {
        FreeZone(zone);
      } else {
        FreeNoZone(disk);
      }
      ghost var freed := disk;
      var buf := Clear(disk[sector], offset, WipeEnd(offset));
      disk := disk[sector := buf];
      WipeInodeIs(freed, n);
      ClearInodeNumber(n);
      var i := FindNumbered(disk[s], n);
      if i < ENTRIES {
        DropEntry(s, i);
      }
      return ESUCCESS;
    }

    /** Copies into `output`; returns the number of bytes taken from the file. */
    method ReadFile(path: Bytes, output: array<byte>, count: nat) returns (code: int)
      requires Formed(disk) && PathOk(path) && count <= output.Length && CanRead(disk, path, count)
      modifies output
      ensures (output[..], code) == MinixModel.ReadFile(disk, path, count, old(output[..]))
    {
      hide Find, U32, U16, Zeros;
      var n := FindEntry(path);
      if n == 0 {
        return -ENOENT;
      }
      ghost var before := output[..];
      var size := U32(disk[SectorOf(n)], OffsetOf(n) + 4);
      var zone := ZoneAt(disk[SectorOf(n)], OffsetOf(n), 0);
      var actual, padding := count, 0;
      if count > size {
        actual, padding := size, count - size;
      }
      if actual > 0 && zone != 0 {
        CopyInto(output, 0, disk[2 * zone][..actual]);
      }
      if padding > 0 {
        CopyInto(output, actual, Zeros(padding));
      }
      assert padding == 0 ==> forall b: Bytes | |b| == output.Length :: Overwrite(b, actual, Zeros(0)) == b;
      code := actual;
    }

    method CopyInto(dest: array<byte>, o: nat, s: Bytes)
      requires o + |s| <= dest.Length
      modifies dest
      ensures dest[..] == Overwrite(old(dest[..]), o, s)
    {
      var i := 0;
      while i < |s|
        invariant i <= |s|
        invariant forall k | 0 <= k < dest.Length :: dest[k] == if o <= k < o + i then s[k - o] else old(dest[k])
      {
        dest[o + i] := s[i];
        i := i + 1;
      }
    }

    method WriteFile(path: Bytes, input: Bytes, count: nat) returns (code: int)
      requires Formed(disk) && PathOk(path) && Min(count, SECTOR_SIZE) <= |input|
      modifies this
      ensures (disk, code) == MinixModel.WriteFile(old(disk), path, input, count)
    {
      hide Find, U32, U16, Put16, Put32, FirstClear, TakeZone, Grown, Block;
      var n := FindEntry(path);
      if n == 0 {
        return -ENOENT;
      }
      var sector, offset := SectorOf(n), OffsetOf(n);
      var inodeBuf := disk[sector];
      if ZoneAt(inodeBuf, offset, 0) == 0 {
        var zone := FindClear(disk[ZONE_BITMAP], 0);
        if zone == ZONE_LIMIT {
          return -ENOSPC;
        }
        MarkZone(zone);
        inodeBuf := Put16(inodeBuf, offset + 14, zone);
      }
      ghost var taken, prepared := disk, inodeBuf;
      var toWrite := if count > SECTOR_SIZE then SECTOR_SIZE else count;
      var data := Copy(Zeros(SECTOR_SIZE), 0, input[..toWrite]);
      BlockIs(input, count);
      disk := disk[2 * ZoneAt(inodeBuf, offset, 0) := data];
      if U32(inodeBuf, offset + 4) < toWrite {
        inodeBuf := Put32(inodeBuf, offset + 4, toWrite);
      }
      GrownIs(prepared, offset, toWrite);
      disk := disk[sector := inodeBuf];
      assert disk == Store(taken, n, prepared, input, count);
      code := toWrite;
    }

    method RenameFile(oldPath: Bytes, newPath: Bytes) returns (code: int)
      requires Formed(disk) && PathOk(oldPath) && PathOk(newPath)
      modifies this
      ensures (disk, code) == MinixModel.RenameFile(old(disk), oldPath, newPath)
    {
      hide CStr, PathDir, PathName, MinixModel.AddEntry, Find, FreeEntry, U16;
      var from, oldName := FindSectorOfPathDir(oldPath);
      if from == 0 {
        return -ENOENT;
      }
      var to, newName := FindSectorOfPathDir(newPath);
      if to == 0 {
        return -ENOENT;
      }
      var n := FindEntry(newPath);
      if n != 0 {
        return -EEXIST;
      }
      var buf := disk[from];
      var i := FindNamed(buf, oldName, 0);
      if i == ENTRIES {
        return -ENOENT;
      }
      assert DirOf(buf)[i] == EntryAt(buf, i);
      var target: InodeNo := U16(buf, 32 * i);
      DropEntry(from, i);
      code := this.AddEntry(to, target, newName);
    }

    /** `buffer` is the uninitialized local buffer of the code. */
    method CopyFile(source: Bytes, dest: Bytes, buffer: array<byte>) returns (code: int)
      requires Formed(disk) && PathOk(source) && PathOk(dest) && buffer.Length == SECTOR_SIZE
      modifies this, buffer
      ensures (disk, code) == MinixModel.CopyFile(old(disk), source, dest, old(buffer[..]))
    {
      hide MinixModel.CreateFile, MinixModel.WriteFile, MinixModel.ReadFile;
      ReadReturns(disk, source, SECTOR_SIZE, buffer[..]);
      var bytesRead := this.ReadFile(source, buffer, SECTOR_SIZE);
      if bytesRead < 0 {
        return bytesRead;
      }
      var res := this.CreateFile(dest);
      if res != ESUCCESS {
        return res;
      }
      var bytesWritten := this.WriteFile(dest, buffer[..], bytesRead);
      if bytesWritten != bytesRead {
        return -1;
      }
      return ESUCCESS;
    }
  }

  // Buffers that hold paths and names.

  /** A string without 0 bytes reads back from a buffer that is exactly it. */
  lemma NameReadsBack(name: Bytes)
    requires 0 !in name
    ensures CStr(name, 0) == name
  {
    CStrRun(name, 0, |name|);
    assert name[0..|name|] == name;
  }

  lemma PaddedReadsBack(name: Bytes, n: nat)
    requires |name| < n && 0 !in name
    ensures CStr(Padded(name, n), 0) == name
  {
    CStrReadsBack(name, Zeros(n - |name|));
  }

  /** A path padded to 255 bytes and terminated is a path padded to 256. */
  lemma PaddedMore(path: Bytes)
    requires |path| < 256
    ensures Padded(path, 255) + [0] == path + Zeros(256 - |path|)
  {
    if |path| == 255 {
      assert Padded(path, 255) == path;
      assert Zeros(1) == [0];
    } else {
      assert Zeros(256 - |path|) == Zeros(255 - |path|) + [0];
    }
  }

  lemma TempHolds(path: Bytes, copied: Bytes, temp: Bytes)
    requires PathOk(path) && copied == Padded(CStr(path, 0), 255) && temp == copied + [0]
    ensures CStr(temp, 0) == path && temp == path + Zeros(256 - |path|)
  {
    hide Padded, CStr, PathName;
    NameReadsBack(path);
    PaddedMore(path);
    CStrReadsBack(path, Zeros(256 - |path|));
  }

  /** The last component copied straight from the path. */
  lemma NameCopied(path: Bytes, o: nat, filename: Bytes)
    requires PathOk(path) && o <= |path| && o == LastIndex(path, SLASH) + 1
    requires filename == Padded(CStr(path, o), NAME_FIELD)
    ensures CStr(filename, 0) == PathName(path)
  {
    CStrRun(path, o, |path|);
    assert CStr(path, o) == path[o..];
    PaddedReadsBack(path[o..], NAME_FIELD);
  }

  /** A stretch without 0 bytes that a 0 follows reads as a string. */
  lemma CStrIs(b: Bytes, off: nat, s: Bytes)
    requires off + |s| < |b| && b[off..off + |s|] == s && b[off + |s|] == 0 && 0 !in s
    ensures CStr(b, off) == s
  {
    assert forall k | off <= k < off + |s| :: b[k] == s[k - off];
    CStrRun(b, off, off + |s|);
  }

  /** The buffer cut at the last slash: the directories before it, the last
      component after it. */
  lemma TempCut(path: Bytes, last: nat, temp: Bytes, filename: Bytes)
    requires PathOk(path) && 0 < last < |path| && last == LastIndex(path, SLASH)
    requires temp == (path + Zeros(256 - |path|))[last := 0]
    requires filename == Padded(CStr(temp, last + 1), NAME_FIELD)
    ensures CStr(filename, 0) == PathName(path)
    ensures Terminated(temp, 0) && Split(CStr(temp, 0), [SLASH]) == PathParts(path)
  {
    hide Split, CStr, Padded, LastIndex;
    assert temp[0..last] == path[..last];
    CStrIs(temp, 0, path[..last]);
    TerminatedAt(temp, 0, last);
    assert temp[last + 1..|path|] == path[last + 1..];
    CStrIs(temp, last + 1, path[last + 1..]);
    PaddedReadsBack(path[last + 1..], NAME_FIELD);
  }

  lemma {:induction false} TerminatedAt(b: Bytes, off: nat, end: nat)
    requires off <= end < |b| && b[end] == 0
    ensures Terminated(b, off)
    decreases end - off
  {
    if off < end {
      TerminatedAt(b, off + 1, end);
    }
  }

  lemma WalkStep(d: Disk, parts: seq<Bytes>, s: nat)
    requires Formed(d) && s < SECTORS && parts != []
    ensures var n := Lookup(DirOf(d[s]), parts[0]);
      Walk(d, parts, s) == if n == 0 || !IsDir(d, n) then 0 else Walk(d, parts[1..], 2 * Zone(d, n, 0))
  {
  }

  lemma WalkEnd(d: Disk, s: nat)
    requires Formed(d) && s < SECTORS
    ensures Walk(d, [], s) == s
  {
  }

  // What the buffers hold.

  lemma EntryIs(b: Bytes, i: nat)
    requires |b| == SECTOR_SIZE && i < ENTRIES && DirOf(b)[i].Used?
    ensures U16(b, 32 * i) == DirOf(b)[i].inode
  {
    hide U16, CStr;
    assert DirOf(b)[i] == EntryAt(b, i);
  }

  lemma RecordFields(d: Disk, n: InodeNo)
    requires Formed(d)
    ensures IsDir(d, n) == DirMode(U16(d[SectorOf(n)], OffsetOf(n)))
    ensures Zone(d, n, 0) == ZoneAt(d[SectorOf(n)], OffsetOf(n), 0)
  {
  }

  lemma WipeInodeIs(d: Disk, n: InodeNo)
    requires Formed(d)
    ensures var b, o := d[SectorOf(n)], OffsetOf(n);
      WipeInode(d, n) == PutSector(d, SectorOf(n), Overwrite(b, o, Zeros(WipeEnd(o) - o)))
  {
  }

  lemma BlockIs(input: Bytes, count: nat)
    requires Min(count, SECTOR_SIZE) <= |input|
    ensures Overwrite(Zeros(SECTOR_SIZE), 0, input[..Min(count, SECTOR_SIZE)]) == Block(input, count)
  {
  }

  lemma GrownIs(b: Bytes, o: nat, count: nat)
    requires |b| == SECTOR_SIZE && o + 32 <= SECTOR_SIZE && count < TWO32
    ensures Grown(b, o, count) == if U32(b, o + 4) < count then Put32(b, o + 4, count) else b
  {
  }

  lemma FreeNoZone(d: Disk)
    requires Formed(d)
    ensures MinixModel.FreeZone(d, 0) == d
  {
  }

  // Freeing the zones of a record one at a time.

  lemma FreeZonesNone(d: Disk, b: Bytes, o: nat)
    requires Formed(d) && |b| == SECTOR_SIZE && o + 32 <= SECTOR_SIZE
    ensures FreeZones(d, b, o, 0) == d
  {
  }

  lemma FreeZonesMore(d: Disk, b: Bytes, o: nat, k: nat)
    requires Formed(d) && |b| == SECTOR_SIZE && o + 32 <= SECTOR_SIZE && k < ZONES
    ensures FreeZones(d, b, o, k + 1) == MinixModel.FreeZone(FreeZones(d, b, o, k), ZoneAt(b, o, k))
  {
  }

  lemma {:induction false} FreeZonesKeep(d: Disk, b: Bytes, o: nat, k: nat, s: nat)
    requires Formed(d) && |b| == SECTOR_SIZE && o + 32 <= SECTOR_SIZE && k <= ZONES && s < SECTORS && s != ZONE_BITMAP
    ensures FreeZones(d, b, o, k)[s] == d[s]
  {
    if k > 0 {
      FreeZonesKeep(d, b, o, k - 1, s);
    }
  }

  /** Clearing hides earlier changes inside the cleared stretch. */
  lemma WipedAlike(a: Bytes, b: Bytes, o: nat)
    requires |a| == |b| == SECTOR_SIZE && o + 32 <= SECTOR_SIZE && SameOutside(a, b, o, o + 28)
    ensures Overwrite(b, o, Zeros(WipeEnd(o) - o)) == Wiped(a, o)
  {
  }
}
