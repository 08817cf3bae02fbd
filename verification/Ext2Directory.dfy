/** The two walks over a directory block: `finddir_initrd` and `ext2_get_direntry` of ext2_initrd.cpp. */
module Ext2Directories {
  import opened BitStreams
  import opened CStrings
  import opened Ext2Blocks

  /** The fields of the directory record at an address. */
  function InodeAt(m: Memory, a: nat): nat {
    U32(m, a)
  }

  function RecLen(m: Memory, a: nat): nat {
    m(a + 4) + 0x100 * m(a + 5)
  }

  function NameLen(m: Memory, a: nat): nat {
    m(a + 6)
  }

  /** The bytes of the name field, as characters. */
  function NameBytes(m: Memory, a: nat): (s: string)
    ensures |s| == NameLen(m, a)
  {
    seq(NameLen(m, a), i requires 0 <= i => m(a + 8 + i) as char)
  }

  /** The name as `strcmp` sees it: it ends at a NUL if it has one. */
  function NameAt(m: Memory, a: nat): string {
    Str(NameBytes(m, a) + [NUL], 0)
  }

  /** A name without NULs is the whole field. */
  lemma WholeName(m: Memory, a: nat)
    requires NUL !in NameBytes(m, a)
    ensures NameAt(m, a) == NameBytes(m, a)
  {
    var s := NameBytes(m, a) + [NUL];
    assert s[0..0 + |NameBytes(m, a)|] == NameBytes(m, a);
    StrEnds(s, 0, |NameBytes(m, a)|);
  }

  /** Every record below `size` that the walk meets has a length, and the walk's offset does not wrap around. */
  ghost predicate Chain(m: Memory, block: nat, off: nat, size: nat)
    decreases size - off
  {
    off >= size
    || (0 < RecLen(m, block + off) && off + RecLen(m, block + off) < WORD32
        && Chain(m, block, off + RecLen(m, block + off), size))
  }

  /** The offsets of the records, in order. */
  ghost function Records(m: Memory, block: nat, off: nat, size: nat): (r: seq<nat>)
    requires Chain(m, block, off, size)
    decreases size - off
  {
    if off >= size then [] else [off] + Records(m, block, off + RecLen(m, block + off), size)
  }

  /** One turn of either walk. */
  function NextOffset(m: Memory, block: nat, off: nat): nat {
    (off + RecLen(m, block + off)) % WORD32
  }

  function Steps(m: Memory, block: nat, off: nat, n: nat): nat
    decreases n
  {
    if n == 0 then off else Steps(m, block, NextOffset(m, block, off), n - 1)
  }

  /** Within a chain the walk gets past the end after as many turns as there are records, and not before. */
  lemma {:induction false} ChainEnds(m: Memory, block: nat, off: nat, size: nat, n: nat)
    requires Chain(m, block, off, size)
    ensures Steps(m, block, off, n) >= size ==> n >= |Records(m, block, off, size)|
    ensures n == |Records(m, block, off, size)| ==> Steps(m, block, off, n) >= size
    ensures n < |Records(m, block, off, size)| ==> Steps(m, block, off, n) == Records(m, block, off, size)[n] < size
    decreases size - off
  {
    hide RecLen;
    if off < size && n > 0 {
      ChainEnds(m, block, off + RecLen(m, block + off), size, n - 1);
    }
  }

  /** A record of length zero is never left. */
  lemma {:induction false} StuckAtZero(m: Memory, block: nat, off: nat, n: nat)
    requires off < WORD32 && RecLen(m, block + off) == 0
    ensures Steps(m, block, off, n) == off
    decreases n
  {
    if n > 0 {
      StuckAtZero(m, block, off, n - 1);
    }
  }

  /** So a walk that ends, in a directory too small for its offset to wrap around, is the walk of a chain. */
  lemma {:induction false} EndsOnlyInChains(m: Memory, block: nat, off: nat, size: nat, n: nat)
    requires size + 0x1_0000 <= WORD32 && Steps(m, block, off, n) >= size
    ensures Chain(m, block, off, size)
    decreases n
  {
    hide RecLen;
    if off < size {
      RecLenIs16Bits(m, block + off);
      if RecLen(m, block + off) == 0 {
        StuckAtZero(m, block, off, n);
      } else {
        EndsOnlyInChains(m, block, NextOffset(m, block, off), size, n - 1);
      }
    }
  }

  lemma RecLenIs16Bits(m: Memory, a: nat)
    ensures RecLen(m, a) < 0x1_0000
  {
  }

  /** The address of the record with an index: what `ext2_get_direntry` returns. */
  ghost function Entry(m: Memory, block: nat, size: nat, index: nat): Option<nat>
    requires Chain(m, block, 0, size)
  {
    if index < |Records(m, block, 0, size)| then Some(block + Records(m, block, 0, size)[index]) else None
  }

  ghost predicate EntryNamed(m: Memory, block: nat, size: nat, index: nat, name: string)
    requires Chain(m, block, 0, size)
  {
    Entry(m, block, size, index).Some? && NameAt(m, Entry(m, block, size, index).value) == name
  }

  /** The copy of a name that `finddir_initrd` compares. */
  method CopyName(m: Memory, a: nat) returns (dname: array<char>)
    ensures fresh(dname) && dname[..] == NameBytes(m, a) + [NUL]
  {
    var len := NameLen(m, a);
    dname := new char[len + 1];
    for i := 0 to len
      invariant dname[..i] == NameBytes(m, a)[..i]
    {
      dname[i] := m(a + 8 + i) as char;
    }
    dname[len] := NUL;
    assert dname[..len] == NameBytes(m, a);
  }

  method HasName(m: Memory, a: nat, name: string) returns (r: bool)
    requires NUL !in name
    ensures r <==> NameAt(m, a) == name
  {
    var dname := CopyName(m, a);
    assert dname[..][NameLen(m, a)] == NUL;
    var c := StrCmp(dname, 0, name);
    r := c == 0;
  }

  /**
   * The walk of `finddir_initrd`, down to the record found: it is the one that `ext2_get_direntry` returns at the least
   * index with that name, and there is none exactly when no index has the name.
   */
  method FindRecord(m: Memory, block: nat, size: nat, name: string) returns (r: Option<nat>, ghost k: nat)
    requires Chain(m, block, 0, size) && NUL !in name
    ensures r.Some? ==> EntryNamed(m, block, size, k, name) && r == Entry(m, block, size, k)
    ensures r.Some? ==> forall i | 0 <= i < k :: !EntryNamed(m, block, size, i, name)
    ensures r.None? <==> forall i: nat :: !EntryNamed(m, block, size, i, name)
  {
    hide *;
    ghost var records := Records(m, block, 0, size);
    var dir_offset := 0;
    k := 0;
    while dir_offset < size
      invariant 0 <= dir_offset && Chain(m, block, dir_offset, size) && k <= |records|
      invariant records[k..] == Records(m, block, dir_offset, size)
      invariant forall i | 0 <= i < k :: !EntryNamed(m, block, size, i, name)
      decreases size - dir_offset
    {
      RecordsStep(m, block, dir_offset, size, records, k);
      EntryIs(m, block, size, k, name);
      var found := HasName(m, block + dir_offset, name);
      if found {
        return Some(block + dir_offset), k;
      }
      dir_offset := NextOffset(m, block, dir_offset);
      k := k + 1;
    }
    RecordsEnd(m, block, dir_offset, size, records, k);
    forall i: nat
      ensures !EntryNamed(m, block, size, i, name)
    {
      EntryIs(m, block, size, i, name);
    }
    return None, k;
  }

  lemma EntryIs(m: Memory, block: nat, size: nat, index: nat, name: string)
    requires Chain(m, block, 0, size)
    ensures index < |Records(m, block, 0, size)| ==>
      Entry(m, block, size, index) == Some(block + Records(m, block, 0, size)[index])
    ensures index >= |Records(m, block, 0, size)| ==> Entry(m, block, size, index) == None
    ensures EntryNamed(m, block, size, index, name)
       <==> index < |Records(m, block, 0, size)| && NameAt(m, block + Records(m, block, 0, size)[index]) == name
  {
    hide Records, NameAt, Chain;
  }

  lemma RecordsStep(m: Memory, block: nat, off: nat, size: nat, records: seq<nat>, k: nat)
    requires Chain(m, block, off, size) && off < size && k <= |records| && records[k..] == Records(m, block, off, size)
    ensures k < |records| && records[k] == off < NextOffset(m, block, off)
    ensures Chain(m, block, NextOffset(m, block, off), size)
    ensures records[k + 1..] == Records(m, block, NextOffset(m, block, off), size)
  {
    hide RecLen;
    assert records[k..][0] == records[k] && records[k..][1..] == records[k + 1..];
  }

  lemma RecordsEnd(m: Memory, block: nat, off: nat, size: nat, records: seq<nat>, k: nat)
    requires Chain(m, block, off, size) && off >= size && k <= |records| && records[k..] == Records(m, block, off, size)
    ensures k == |records|
  {
  }

  // ---- What a directory holds

  /** A file that a directory lists: its inode number, its name and the space that its record takes. */
  datatype Listed = Listed(inode: nat, name: string, space: nat)

  predicate ValidListed(r: Listed) {
    && r.inode < WORD32 && 8 + |r.name| <= r.space < 0x1_0000 && |r.name| < 0x100
    && forall i | 0 <= i < |r.name| :: NUL < r.name[i] && r.name[i] as int < 0x100
  }

  /** A number in n bytes, the least significant one first. */
  function LittleEndian(x: nat, n: nat): (s: seq<Byte>)
    ensures |s| == n
  {
    if n == 0 then [] else [x % 0x100] + LittleEndian(x / 0x100, n - 1)
  }

  function NameAsBytes(name: string): (s: seq<nat>)
    ensures |s| == |name|
  {
    seq(|name|, i requires 0 <= i < |name| => name[i] as nat)
  }

  /** `ext2_dir`: the fields of a record in the order of ext2.h, without what is left of its space. */
  function RecordBytes(r: Listed, fileType: Byte): seq<nat> {
    LittleEndian(r.inode, 4) + LittleEndian(r.space, 2) + [|r.name|, fileType] + NameAsBytes(r.name)
  }

  ghost predicate HoldsAt(m: Memory, a: nat, bytes: seq<nat>) {
    forall i | 0 <= i < |bytes| :: m(a + i) == bytes[i]
  }

  ghost predicate HoldsListed(m: Memory, a: nat, r: Listed) {
    ValidListed(r) && exists fileType: Byte :: HoldsAt(m, a, RecordBytes(r, fileType))
  }

  /** Memory holds the records, one behind the other, in exactly the bytes from `off` to `size`. */
  ghost predicate HoldsDirectory(m: Memory, block: nat, off: nat, size: nat, records: seq<Listed>)
    decreases |records|
  {
    if records == [] then off == size
    else HoldsListed(m, block + off, records[0])
         && HoldsDirectory(m, block, off + records[0].space, size, records[1..])
  }

  /** The inode number of the first file with a name. */
  function LookUp(records: seq<Listed>, name: string): Option<nat> {
    if records == [] then None
    else if records[0].name == name then Some(records[0].inode) else LookUp(records[1..], name)
  }

  /** The fields of a record are read back. */
  lemma FieldsReadBack(m: Memory, a: nat, r: Listed)
    requires HoldsListed(m, a, r)
    ensures InodeAt(m, a) == r.inode && RecLen(m, a) == r.space >= 8 && NameLen(m, a) == |r.name|
    ensures NameBytes(m, a) == r.name && NameAt(m, a) == r.name
  {
    var fileType: Byte :| HoldsAt(m, a, RecordBytes(r, fileType));
    var bytes := RecordBytes(r, fileType);
    FourBytes(r.inode);
    TwoBytes(r.space);
    assert forall i | 0 <= i < 4 :: bytes[i] == LittleEndian(r.inode, 4)[i];
    assert forall i | 0 <= i < 2 :: bytes[4 + i] == LittleEndian(r.space, 2)[i];
    assert bytes[6] == |r.name|;
    assert m(a + 0) == bytes[0] && m(a + 1) == bytes[1] && m(a + 2) == bytes[2] && m(a + 3) == bytes[3];
    assert m(a + 4) == bytes[4] && m(a + 5) == bytes[5] && m(a + 6) == bytes[6];
    U32IsLittleEndian(m, a, r.inode);
    forall i | 0 <= i < |r.name|
      ensures m(a + 8 + i) as char == r.name[i]
    {
      assert bytes[8 + i] == NameAsBytes(r.name)[i] == r.name[i] as nat;
      assert m(a + (8 + i)) == bytes[8 + i];
    }
    assert NameBytes(m, a) == r.name;
    WholeName(m, a);
  }

  lemma FourBytes(x: nat)
    ensures var s := LittleEndian(x, 4);
      && s[0] == x % 0x100 && s[1] == x / 0x100 % 0x100
      && s[2] == x / 0x1_0000 % 0x100 && s[3] == x / 0x100_0000 % 0x100
  {
    assert LittleEndian(x, 4) == [x % 0x100] + LittleEndian(x / 0x100, 3);
    assert LittleEndian(x / 0x100, 3) == [x / 0x100 % 0x100] + LittleEndian(x / 0x100 / 0x100, 2);
    TwoBytes(x / 0x100 / 0x100);
  }

  lemma TwoBytes(x: nat)
    ensures LittleEndian(x, 2) == [x % 0x100, x / 0x100 % 0x100]
  {
    assert LittleEndian(x / 0x100, 1) == [x / 0x100 % 0x100];
  }

  /** Then the walk meets exactly these records. */
  lemma {:induction false} DirectoryIsChain(m: Memory, block: nat, off: nat, size: nat, records: seq<Listed>)
    requires HoldsDirectory(m, block, off, size, records) && size < WORD32
    ensures off <= size && Chain(m, block, off, size) && |Records(m, block, off, size)| == |records|
    ensures forall i | 0 <= i < |records| :: HoldsListed(m, block + Records(m, block, off, size)[i], records[i])
    decreases |records|
  {
    hide HoldsListed, RecLen;
    if records != [] {
      FieldsReadBack(m, block + off, records[0]);
      DirectoryIsChain(m, block, off + records[0].space, size, records[1..]);
      var rest := Records(m, block, off + records[0].space, size);
      assert Records(m, block, off, size) == [off] + rest;
      forall i | 0 <= i < |records|
        ensures HoldsListed(m, block + Records(m, block, off, size)[i], records[i])
      {
        if i > 0 {
          assert HoldsListed(m, block + rest[i - 1], records[1..][i - 1]);
        }
      }
    }
  }

  lemma {:induction false} LookUpIsFirst(records: seq<Listed>, name: string, k: nat)
    requires forall i | 0 <= i < k && i < |records| :: records[i].name != name
    ensures k >= |records| ==> LookUp(records, name) == None
    ensures k < |records| && records[k].name == name ==> LookUp(records, name) == Some(records[k].inode)
    decreases |records|
  {
    if records != [] && k > 0 {
      LookUpIsFirst(records[1..], name, k - 1);
    }
  }

  lemma EntryIsListed(m: Memory, block: nat, size: nat, records: seq<Listed>, index: nat)
    requires HoldsDirectory(m, block, 0, size, records) && size < WORD32 && Chain(m, block, 0, size)
    ensures Entry(m, block, size, index).Some? <==> index < |records|
    ensures index < |records| ==> HoldsListed(m, Entry(m, block, size, index).value, records[index])
  {
    hide *;
    DirectoryIsChain(m, block, 0, size, records);
    EntryIs(m, block, size, index, "");
  }

  /** `ext2_get_direntry`: in a block that holds a list of files, the record of the one with the index. */
  method GetDirEntry(m: Memory, block: nat, size: nat, index: nat) returns (r: Option<nat>)
    requires Chain(m, block, 0, size)
    ensures r == Entry(m, block, size, index)
    ensures forall records :: HoldsDirectory(m, block, 0, size, records) && size < WORD32 ==>
      && (r.Some? <==> index < |records|)
      && (index < |records| ==> HoldsListed(m, r.value, records[index]))
  {
    hide *;
    forall records | HoldsDirectory(m, block, 0, size, records) && size < WORD32
      ensures Entry(m, block, size, index).Some? <==> index < |records|
      ensures index < |records| ==> HoldsListed(m, Entry(m, block, size, index).value, records[index])
    {
      EntryIsListed(m, block, size, records, index);
    }
    EntryIs(m, block, size, index, "");
    ghost var records := Records(m, block, 0, size);
    var dir_offset := 0;
    var dir_index := 0;
    while dir_offset < size
      invariant 0 <= dir_offset && Chain(m, block, dir_offset, size) && 0 <= dir_index <= |records|
      invariant records[dir_index..] == Records(m, block, dir_offset, size) && dir_index <= index
      decreases size - dir_offset
    {
      RecordsStep(m, block, dir_offset, size, records, dir_index);
      if dir_index == index {
        return Some(block + dir_offset);
      }
      dir_offset := NextOffset(m, block, dir_offset);
      dir_index := dir_index + 1;
    }
    RecordsEnd(m, block, dir_offset, size, records, dir_index);
    return None;
  }

  /** What a walk finds under a name in a directory that memory holds. */
  lemma FoundIsLookUp(m: Memory, block: nat, size: nat, records: seq<Listed>, name: string, r: Option<nat>, k: nat)
    requires HoldsDirectory(m, block, 0, size, records) && size < WORD32 && Chain(m, block, 0, size)
    requires r.Some? ==> EntryNamed(m, block, size, k, name) && r.value == InodeAt(m, Entry(m, block, size, k).value)
    requires r.Some? ==> forall i | 0 <= i < k :: !EntryNamed(m, block, size, i, name)
    requires r.None? ==> forall i: nat :: !EntryNamed(m, block, size, i, name)
    ensures r == LookUp(records, name)
  {
    hide *;
    DirectoryIsChain(m, block, 0, size, records);
    var n := if r.Some? then k else |records|;
    EntryIs(m, block, size, n, name);
    if r.Some? {
      FieldsReadBack(m, block + Records(m, block, 0, size)[k], records[k]);
    }
    forall i | 0 <= i < n && i < |records|
      ensures records[i].name != name
    {
      EntryIs(m, block, size, i, name);
      FieldsReadBack(m, block + Records(m, block, 0, size)[i], records[i]);
    }
    LookUpIsFirst(records, name, n);
  }

  /**
   * `finddir_initrd` down to the inode number of the entry; the directory is its first block. In a block that holds the
   * records of a list of files it is the number of the first file with that name.
   */
  method FindDirInitrd(im: Image, inode: Inode, name: string) returns (r: Option<nat>, ghost k: nat)
    requires ValidInode(inode) && Chain(im.memory, InodeBlock(im, inode, 0), 0, inode.size) && NUL !in name
    ensures r.Some? ==>
      && EntryNamed(im.memory, InodeBlock(im, inode, 0), inode.size, k, name)
      && r.value == InodeAt(im.memory, Entry(im.memory, InodeBlock(im, inode, 0), inode.size, k).value)
      && forall i | 0 <= i < k :: !EntryNamed(im.memory, InodeBlock(im, inode, 0), inode.size, i, name)
    ensures r.None? <==> forall i: nat :: !EntryNamed(im.memory, InodeBlock(im, inode, 0), inode.size, i, name)
    ensures forall records ::
      HoldsDirectory(im.memory, InodeBlock(im, inode, 0), 0, inode.size, records) ==> r == LookUp(records, name)
  {
    var block := InodeBlock(im, inode, 0);
    assert inode.size < WORD32;
    hide *;
    var direntry;
    direntry, k := FindRecord(im.memory, block, inode.size, name);
    if direntry.Some? {
      r := Some(InodeAt(im.memory, direntry.value));
    } else {
      r := None;
    }
    forall records | HoldsDirectory(im.memory, block, 0, inode.size, records)
      ensures r == LookUp(records, name)
    {
      FoundIsLookUp(im.memory, block, inode.size, records, name, r, k);
    }
  }
}
