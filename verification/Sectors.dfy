/** Buffers of 512 bytes and the disk they come from. The disk answers every
    sector number that a 16-bit zone or inode number can lead to. */
module Sectors {
  import opened Machine
  import opened Strings

  const SECTOR_SIZE: nat := 512
  const SECTORS: nat := 0x20000

  type Disk = seq<Bytes>

  predicate Formed(d: Disk) {
    |d| == SECTORS && forall s | 0 <= s < |d| :: |d[s]| == SECTOR_SIZE
  }

  /** The 16-bit number stored at `o`, low byte first. */
  function U16(b: Bytes, o: nat): (v: nat)
    requires o + 2 <= |b|
    ensures v < 0x10000
  {
    var low: nat, high: nat := b[o], b[o + 1];
    low + 0x100 * high
  }

  function Put16(b: Bytes, o: nat, v: nat): (r: Bytes)
    requires o + 2 <= |b| && v < 0x10000
    ensures |r| == |b|
  {
    b[o := v % 0x100][o + 1 := v / 0x100]
  }

  /** The 32-bit number stored at `o`. */
  function U32(b: Bytes, o: nat): (v: nat)
    requires o + 4 <= |b|
    ensures v < TWO32
  {
    U16(b, o) + 0x10000 * U16(b, o + 2)
  }

  function Put32(b: Bytes, o: nat, v: nat): (r: Bytes)
    requires o + 4 <= |b| && v < TWO32
    ensures |r| == |b|
  {
    Put16(Put16(b, o, v % 0x10000), o + 2, v / 0x10000)
  }

  /** `s` copied over the bytes at `o`. */
  function Overwrite(b: Bytes, o: nat, s: Bytes): (r: Bytes)
    requires o + |s| <= |b|
    ensures |r| == |b|
  {
    b[..o] + s + b[o + |s|..]
  }

  /** The two buffers agree outside [lo, hi). */
  predicate SameOutside(a: Bytes, b: Bytes, lo: nat, hi: nat) {
    |a| == |b| && forall k | 0 <= k < |a| && !(lo <= k < hi) :: a[k] == b[k]
  }

  lemma Put16Effect(b: Bytes, o: nat, v: nat)
    requires o + 2 <= |b| && v < 0x10000
    ensures U16(Put16(b, o, v), o) == v && SameOutside(b, Put16(b, o, v), o, o + 2)
  {
  }

  lemma Put32Effect(b: Bytes, o: nat, v: nat)
    requires o + 4 <= |b| && v < TWO32
    ensures U32(Put32(b, o, v), o) == v && SameOutside(b, Put32(b, o, v), o, o + 4)
  {
    hide U16, Put16;
    var a := Put16(b, o, v % 0x10000);
    Put16Effect(b, o, v % 0x10000);
    Put16Effect(a, o + 2, v / 0x10000);
    U16Frame(a, Put32(b, o, v), o + 2, o + 4, o);
  }

  lemma OverwriteEffect(b: Bytes, o: nat, s: Bytes)
    requires o + |s| <= |b|
    ensures Overwrite(b, o, s)[o..o + |s|] == s && SameOutside(b, Overwrite(b, o, s), o, o + |s|)
  {
  }

  lemma U16Frame(a: Bytes, b: Bytes, lo: nat, hi: nat, o: nat)
    requires SameOutside(a, b, lo, hi) && o + 2 <= |a| && (o + 2 <= lo || hi <= o)
    ensures U16(a, o) == U16(b, o)
  {
  }

  lemma U32Frame(a: Bytes, b: Bytes, lo: nat, hi: nat, o: nat)
    requires SameOutside(a, b, lo, hi) && o + 4 <= |a| && (o + 4 <= lo || hi <= o)
    ensures U32(a, o) == U32(b, o)
  {
    hide U16;
    U16Frame(a, b, lo, hi, o);
    U16Frame(a, b, lo, hi, o + 2);
  }

  /** A stretch of zeros holds zero numbers. */
  lemma ZeroNumbers(b: Bytes, lo: nat, hi: nat)
    requires hi <= |b| && forall k | lo <= k < hi :: b[k] == 0
    ensures forall o: nat {:trigger U16(b, o)} | lo <= o && o + 2 <= hi :: U16(b, o) == 0
  {
  }

  /** memset(buf + from, 0, to - from). */
  method Clear(b: Bytes, from: nat, to: nat) returns (r: Bytes)
    requires from <= to <= |b|
    ensures r == Overwrite(b, from, Zeros(to - from))
  {
    r := b;
    var i := from;
    while i < to
      invariant from <= i <= to && |r| == |b|
      invariant r == b[..from] + Zeros(i - from) + b[i..]
    {
      r := r[i := 0];
      i := i + 1;
    }
  }

  /** memcpy(buf + o, s, |s|). */
  method Copy(b: Bytes, o: nat, s: Bytes) returns (r: Bytes)
    requires o + |s| <= |b|
    ensures r == Overwrite(b, o, s)
  {
    r := b;
    var i := 0;
    while i < |s|
      invariant i <= |s| && |r| == |b|
      invariant r == b[..o] + s[..i] + b[o + i..]
    {
      r := r[o + i := s[i]];
      i := i + 1;
    }
    assert s[..i] == s;
  }
}
