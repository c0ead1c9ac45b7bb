/** Directory sectors: sixteen entries of a 16-bit inode number and a name field
    of thirty bytes (include/LySys/fs/minix.h:34-37). An entry with inode number
    0 is free. */
module Directory {
  import opened Sectors
  import opened Strings

  const ENTRIES: nat := 16
  const NAME_FIELD: nat := 30

  /** The inode records before the root directory's sector: sectors 10 to 437. */
  const LAST_INODE: nat := 6848

  type InodeNo = n: nat | 0 < n < 0x10000 witness 1

  datatype Entry = Free | Used(inode: InodeNo, name: Bytes)

  function EntryAt(b: Bytes, i: nat): Entry
    requires |b| == SECTOR_SIZE && i < ENTRIES
  {
    if U16(b, 32 * i) == 0 then Free else Used(U16(b, 32 * i), CStr(b, 32 * i + 2))
  }

  /** The entries of a sector. */
  function DirOf(b: Bytes): (es: seq<Entry>)
    requires |b| == SECTOR_SIZE
    ensures |es| == ENTRIES && forall i | 0 <= i < ENTRIES :: es[i] == EntryAt(b, i)
  {
    seq(ENTRIES, i requires 0 <= i < ENTRIES => EntryAt(b, i))
  }

  predicate Matches(e: Entry, name: Bytes) {
    e.Used? && e.name == name
  }

  /** The first entry with the name; |es| when there is none. */
  function FindName(es: seq<Entry>, name: Bytes): (r: nat)
    ensures r <= |es| && (forall j | 0 <= j < r :: !Matches(es[j], name))
    ensures r < |es| ==> Matches(es[r], name)
  {
    if es == [] || Matches(es[0], name) then 0
    else
      assert forall j | 0 < j < |es| :: es[j] == es[1..][j - 1];
      1 + FindName(es[1..], name)
  }

  /** The first entry for the inode. */
  function FindInode(es: seq<Entry>, inode: nat): (r: nat)
    ensures r <= |es| && (forall j | 0 <= j < r :: !(es[j].Used? && es[j].inode == inode))
    ensures r < |es| ==> es[r].Used? && es[r].inode == inode
  {
    if es == [] || (es[0].Used? && es[0].inode == inode) then 0
    else
      assert forall j | 0 < j < |es| :: es[j] == es[1..][j - 1];
      1 + FindInode(es[1..], inode)
  }

  /** The first free entry. */
  function FindFree(es: seq<Entry>): (r: nat)
    ensures r <= |es| && (forall j | 0 <= j < r :: es[j].Used?)
    ensures r < |es| ==> es[r].Free?
  {
    if es == [] || es[0].Free? then 0
    else
      assert forall j | 0 < j < |es| :: es[j] == es[1..][j - 1];
      1 + FindFree(es[1..])
  }

  /** No entry is free. */
  predicate Full(es: seq<Entry>) {
    FindFree(es) == |es|
  }

  /** The inode number under a name; 0 when there is none. */
  function Lookup(es: seq<Entry>, name: Bytes): (n: nat)
    ensures n < 0x10000 && (n == 0 <==> FindName(es, name) == |es|)
  {
    if FindName(es, name) < |es| then es[FindName(es, name)].inode else 0
  }

  predicate GoodEntry(e: Entry) {
    e.Used? ==> e.inode <= LAST_INODE && |e.name| < NAME_FIELD
  }

  /** Names of used entries are pairwise different. */
  predicate Distinct(es: seq<Entry>) {
    forall i, j | 0 <= i < j < |es| :: es[i].Used? && es[j].Used? ==> es[i].name != es[j].name
  }

  predicate GoodDir(es: seq<Entry>) {
    Distinct(es) && forall i | 0 <= i < |es| :: GoodEntry(es[i])
  }

  // Laws of lookup.

  /** At most one entry has a name. */
  lemma LookupIs(es: seq<Entry>, i: nat)
    requires Distinct(es) && i < |es| && es[i].Used?
    ensures FindName(es, es[i].name) == i && Lookup(es, es[i].name) == es[i].inode
  {
  }

  /** Two directories that agree on which entry matches agree on the lookup. */
  lemma LookupFrom(es: seq<Entry>, name: Bytes, i: nat)
    requires i < |es| && Matches(es[i], name)
    requires forall j | 0 <= j < |es| && j != i :: !Matches(es[j], name)
    ensures FindName(es, name) == i && Lookup(es, name) == es[i].inode
  {
  }

  lemma LookupNone(es: seq<Entry>, name: Bytes)
    requires forall j | 0 <= j < |es| :: !Matches(es[j], name)
    ensures Lookup(es, name) == 0
  {
  }

  /** What is looked up is an entry of the directory. */
  lemma LookupGood(es: seq<Entry>, name: Bytes)
    requires GoodDir(es)
    ensures Lookup(es, name) <= LAST_INODE
  {
    var i := FindName(es, name);
    assert i < |es| ==> GoodEntry(es[i]);
  }

  lemma EntryGood(e: Entry)
    requires e.Used? ==> e.inode <= LAST_INODE && |e.name| < NAME_FIELD
    ensures GoodEntry(e)
  {
  }

  lemma GoodInode(es: seq<Entry>, i: nat)
    requires GoodDir(es) && i < |es| && es[i].Used?
    ensures es[i].inode <= LAST_INODE && Lookup(es, es[i].name) == es[i].inode
  {
    assert GoodEntry(es[i]);
    LookupIs(es, i);
  }

  /** A new name in a free entry: it is found there, other lookups stay. */
  lemma InsertEntry(es: seq<Entry>, i: nat, inode: nat, name: Bytes)
    requires GoodDir(es) && i < |es| && es[i].Free?
    requires 0 < inode <= LAST_INODE && |name| < NAME_FIELD && Lookup(es, name) == 0
    ensures GoodDir(es[i := Used(inode, name)])
    ensures Lookup(es[i := Used(inode, name)], name) == inode
    ensures forall other: Bytes | other != name :: Lookup(es[i := Used(inode, name)], other) == Lookup(es, other)
  {
    hide GoodEntry;
    var after := es[i := Used(inode, name)];
    LookupGood(es, name);
    EntryGood(after[i]);
    LookupFrom(after, name, i);
    forall other: Bytes | other != name
      ensures Lookup(after, other) == Lookup(es, other)
    {
      SameMatches(es, after, other);
    }
  }

  lemma SameMatches(a: seq<Entry>, b: seq<Entry>, name: Bytes)
    requires |a| == |b| && forall j | 0 <= j < |a| :: a[j] == b[j] || (!Matches(a[j], name) && !Matches(b[j], name))
    ensures Lookup(a, name) == Lookup(b, name)
  {
    var i, j := FindName(a, name), FindName(b, name);
    assert i < |a| ==> a[i] == b[i];
    assert j < |b| ==> a[j] == b[j];
  }

  /** Freeing an entry: its name is gone, other lookups stay. */
  lemma RemoveEntry(es: seq<Entry>, i: nat)
    requires GoodDir(es) && i < |es| && es[i].Used?
    ensures GoodDir(es[i := Free])
    ensures Lookup(es[i := Free], es[i].name) == 0
    ensures forall other: Bytes | other != es[i].name :: Lookup(es[i := Free], other) == Lookup(es, other)
  {
    hide GoodEntry;
    var after := es[i := Free];
    EntryGood(Free);
    LookupNone(after, es[i].name);
    forall other: Bytes | other != es[i].name
      ensures Lookup(after, other) == Lookup(es, other)
    {
      SameMatches(es, after, other);
    }
  }

  /** The inode numbers that the entries name, with multiplicity. */
  function InodesIn(es: seq<Entry>): multiset<nat> {
    if es == [] then multiset{} else Weight(es[0]) + InodesIn(es[1..])
  }

  function Weight(e: Entry): multiset<nat> {
    if e.Used? then multiset{e.inode} else multiset{}
  }

  lemma {:induction false} InodesUpdate(es: seq<Entry>, i: nat, e: Entry)
    requires i < |es|
    ensures InodesIn(es[i := e]) + Weight(es[i]) == InodesIn(es) + Weight(e)
  {
    hide Weight;
    var after := es[i := e];
    assert InodesIn(after) == Weight(after[0]) + InodesIn(after[1..]);
    assert InodesIn(es) == Weight(es[0]) + InodesIn(es[1..]);
    if i == 0 {
      assert after[1..] == es[1..];
    } else {
      InodesUpdate(es[1..], i - 1, e);
      assert after[1..] == es[1..][i - 1 := e];
      var w, m, n := Weight(es[0]), InodesIn(after[1..]), InodesIn(es[1..]);
      assert (w + m) + Weight(es[i]) == w + (m + Weight(es[1..][i - 1]));
      assert (w + n) + Weight(e) == w + (n + Weight(e));
    }
  }

  // Writing entries.

  /** Entry `i` set to an inode number and a name. */
  function PutEntry(b: Bytes, i: nat, inode: nat, name: Bytes): (r: Bytes)
    requires |b| == SECTOR_SIZE && i < ENTRIES && inode < 0x10000
    ensures |r| == SECTOR_SIZE
  {
    Overwrite(Put16(b, 32 * i, inode), 32 * i + 2, Padded(name, NAME_FIELD))
  }

  function MakeEntry(inode: nat, name: Bytes): Entry
    requires inode < 0x10000
  {
    if inode == 0 then Free else Used(inode, name)
  }

  /** A string that ends within `n` bytes depends on those bytes alone. */
  lemma {:induction false} CStrWithin(a: Bytes, b: Bytes, off: nat, n: nat)
    requires off + n <= |a| == |b| && forall k | off <= k < off + n :: a[k] == b[k]
    requires |CStr(a, off)| < n
    ensures CStr(a, off) == CStr(b, off)
    decreases n
  {
    if a[off] != 0 {
      CStrWithin(a, b, off + 1, n - 1);
    }
  }

  /** A short name padded into its field reads back. */
  lemma FieldReadsBack(b: Bytes, off: nat, name: Bytes)
    requires off + NAME_FIELD <= |b| && |name| < NAME_FIELD && 0 !in name
    requires b[off..off + NAME_FIELD] == Padded(name, NAME_FIELD)
    ensures CStr(b, off) == name
  {
    var p := b[off..off + NAME_FIELD];
    assert forall k | 0 <= k < NAME_FIELD :: b[off + k] == p[k];
    assert p == name + Zeros(NAME_FIELD - |name|);
    assert b[off..off + |name|] == p[..|name|] == name;
    assert b[off + |name|] == p[|name|];
    CStrRun(b, off, off + |name|);
  }

  lemma PutEntryBytes(b: Bytes, i: nat, inode: nat, name: Bytes)
    requires |b| == SECTOR_SIZE && i < ENTRIES && inode < 0x10000
    ensures var r := PutEntry(b, i, inode, name);
      && SameOutside(b, r, 32 * i, 32 * i + 32) && U16(r, 32 * i) == inode
      && r[32 * i + 2..32 * i + 2 + NAME_FIELD] == Padded(name, NAME_FIELD)
  {
    hide U16, Put16, Overwrite;
    var a := Put16(b, 32 * i, inode);
    Put16Effect(b, 32 * i, inode);
    OverwriteEffect(a, 32 * i + 2, Padded(name, NAME_FIELD));
    var r := PutEntry(b, i, inode, name);
    U16Frame(a, r, 32 * i + 2, 32 * i + 32, 32 * i);
  }

  lemma EntryFrame(a: Bytes, b: Bytes, i: nat, j: nat)
    requires |a| == SECTOR_SIZE && i < ENTRIES && j < ENTRIES && i != j
    requires SameOutside(a, b, 32 * i, 32 * i + 32) && GoodEntry(EntryAt(a, j))
    ensures EntryAt(a, j) == EntryAt(b, j)
  {
    hide U16, CStr;
    U16Frame(a, b, 32 * i, 32 * i + 32, 32 * j);
    if U16(a, 32 * j) != 0 {
      CStrWithin(a, b, 32 * j + 2, NAME_FIELD);
    }
  }

  /** Writing an entry changes that entry of the directory alone. */
  lemma PutEntryEffect(b: Bytes, i: nat, inode: nat, name: Bytes)
    requires |b| == SECTOR_SIZE && i < ENTRIES && inode < 0x10000
    requires |name| < NAME_FIELD && 0 !in name && GoodDir(DirOf(b))
    ensures DirOf(PutEntry(b, i, inode, name)) == DirOf(b)[i := MakeEntry(inode, name)]
  {
    hide PutEntry, GoodEntry, U16, CStr, Padded, Distinct, SameOutside, DirOf;
    var r := PutEntry(b, i, inode, name);
    PutEntryBytes(b, i, inode, name);
    FieldReadsBack(r, 32 * i + 2, name);
    forall j | 0 <= j < ENTRIES && j != i
      ensures EntryAt(r, j) == EntryAt(b, j)
    {
      assert DirOf(b)[j] == EntryAt(b, j);
      EntryFrame(b, r, i, j);
    }
    var es, after := DirOf(b), DirOf(r);
    assert forall j | 0 <= j < ENTRIES :: es[j] == EntryAt(b, j);
    assert forall j | 0 <= j < ENTRIES :: after[j] == EntryAt(r, j);
  }

  /** A fresh directory holds "." and ".." and nothing else. */
  function NewDir(inode: nat, parent: nat): (b: Bytes)
    requires inode < 0x10000 && parent < 0x10000
    ensures |b| == SECTOR_SIZE
  {
    PutEntry(PutEntry(Zeros(SECTOR_SIZE), 0, inode, DOT), 1, parent, DOT_DOT)
  }

  const DOT: Bytes := [46]
  const DOT_DOT: Bytes := [46, 46]

  lemma EmptyDir(b: Bytes)
    requires |b| == SECTOR_SIZE && forall k | 0 <= k < |b| :: b[k] == 0
    ensures GoodDir(DirOf(b)) && forall i | 0 <= i < ENTRIES :: DirOf(b)[i] == Free
  {
    forall i | 0 <= i < ENTRIES
      ensures EntryAt(b, i) == Free
    {
      ZeroNumbers(b, 0, SECTOR_SIZE);
    }
  }

  /** The entries of a fresh directory. */
  lemma NewDirEntries(inode: nat, parent: nat)
    requires 0 < inode <= LAST_INODE && parent <= LAST_INODE
    ensures DirOf(NewDir(inode, parent))
            == DirOf(Zeros(SECTOR_SIZE))[0 := Used(inode, DOT)][1 := MakeEntry(parent, DOT_DOT)]
  {
    hide PutEntry, DirOf, U16, Padded, Distinct, EntryAt;
    var z := Zeros(SECTOR_SIZE);
    EmptyDir(z);
    PutEntryEffect(z, 0, inode, DOT);
    LookupNone(DirOf(z), DOT);
    InsertEntry(DirOf(z), 0, inode, DOT);
    PutEntryEffect(PutEntry(z, 0, inode, DOT), 1, parent, DOT_DOT);
  }

  lemma NewDirGood(inode: nat, parent: nat)
    requires 0 < inode <= LAST_INODE && parent <= LAST_INODE
    ensures GoodDir(DirOf(NewDir(inode, parent)))
    ensures Lookup(DirOf(NewDir(inode, parent)), DOT) == inode
    ensures Lookup(DirOf(NewDir(inode, parent)), DOT_DOT) == parent
  {
    hide PutEntry, DirOf, U16, Padded, Distinct, EntryAt;
    var z := Zeros(SECTOR_SIZE);
    var es := DirOf(z);
    EmptyDir(z);
    PutEntryEffect(z, 0, inode, DOT);
    LookupNone(es, DOT);
    LookupNone(es, DOT_DOT);
    InsertEntry(es, 0, inode, DOT);
    var one := PutEntry(z, 0, inode, DOT);
    PutEntryEffect(one, 1, parent, DOT_DOT);
    if parent == 0 {
      assert DirOf(one)[1 := Free] == DirOf(one);
    } else {
      InsertEntry(DirOf(one), 1, parent, DOT_DOT);
    }
  }
}
