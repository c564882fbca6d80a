// io/initrd.h: mounting a ramdisk image that lies in memory, finding files and reading them.
module Initrd {
  import opened Machine
  import opened RamdiskFormat

  /** A file node: what initrd_init keeps of a header. */
  datatype Node = Node(name: seq<byte>, length: nat, inode: nat)

  const MTP: seq<byte> := [109, 116, 112]

  /** What initrd_finddir returns: the "mtp" directory, file node i, or a null pointer. */
  datatype Found = Mtp | FileNode(i: nat) | NotFound

  // ---------------------------------------------------------------- reads

  /** Lines 30-35: how many bytes initrd_read copies, with the 32-bit wrap of `offset+size`. */
  function ReadCount(length: word, offset: word, size: word): word {
    if offset > length then 0
    else
      var n := if (offset as int + size as int) % TWO32 > length as int
        then length as int - offset as int else size as int;
      if n > BUFFER_SIZE then 0 else n
  }

  /** The slice a caller means, cut off at the end of the file. */
  function Clip(content: seq<byte>, offset: nat, size: nat): seq<byte> {
    if offset > |content| then [] else content[offset..if offset + size > |content| then |content| else offset + size]
  }

  function ClipCount(length: word, offset: word, size: word): nat {
    if offset > length then 0
    else if offset as int + size as int > length as int then length as int - offset as int else size as int
  }

  /** No more than the read buffer is ever copied; a longer slice yields nothing. */
  function MeantCount(length: word, offset: word, size: word): nat {
    if ClipCount(length, offset, size) > BUFFER_SIZE then 0 else ClipCount(length, offset, size)
  }

  /** The wrap matters only for slices that reach past 4 GiB from inside a file. */
  lemma ReadCountIff(length: word, offset: word, size: word)
    ensures ReadCount(length, offset, size) as int == MeantCount(length, offset, size)
      <==> || offset > length
           || offset as int + size as int < TWO32
           || (size as int > BUFFER_SIZE && (length as int - offset as int > BUFFER_SIZE || offset == length))
  {
    var sum := offset as int + size as int;
    if sum >= TWO32 { assert sum % TWO32 == sum - TWO32; }
  }

  /** Without the wrap: nothing past the end or above 1 MiB, else what was asked for and is there. */
  lemma ReadCountPlain(length: word, offset: word, size: word)
    requires offset > length || offset as int + size as int < TWO32
    ensures ReadCount(length, offset, size) as int ==
      if offset > length then 0
      else if offset as int + size as int > length as int then
        if length as int - offset as int > 1048576 then 0 else length as int - offset as int
      else if size as int > 1048576 then 0 else size as int
  {
  }

  /** The rest of a 100-byte file from byte 1 on, asked for with the largest size: nothing is copied. */
  lemma ReadCountFails()
    ensures ReadCount(100, 1, 0xFFFF_FFFF) == 0 && MeantCount(100, 1, 0xFFFF_FFFF) == 99
  {
  }

  /** ClipCount counts the slice, and asking for that many bytes gives the same slice. */
  lemma ClipLength(content: seq<byte>, offset: word, size: word)
    requires |content| < TWO32
    ensures var n := ClipCount(|content|, offset, size);
      |Clip(content, offset, size)| == n && Clip(content, offset, n) == Clip(content, offset, size)
  {
  }

  /** Successive reads of k bytes from `offset` on, until one comes back empty. */
  function Chunks(content: seq<byte>, offset: nat, k: nat): seq<byte>
    requires k > 0
    decreases |content| - offset
  {
    if offset >= |content| then [] else Clip(content, offset, k) + Chunks(content, offset + k, k)
  }

  /** Reading a file chunk by chunk reassembles it. */
  lemma {:induction false} ChunksReassemble(content: seq<byte>, offset: nat, k: nat)
    requires k > 0 && offset <= |content|
    ensures Chunks(content, offset, k) == content[offset..]
    decreases |content| - offset
  {
    if offset + k <= |content| {
      if offset < |content| {
        ChunksReassemble(content, offset + k, k);
        assert content[offset..] == content[offset..offset + k] + content[offset + k..];
      }
    } else if offset < |content| {
      assert Chunks(content, offset + k, k) == [];
    }
  }

  // ---------------------------------------------------------------- patching offsets

  /** Only the offset fields of headers from..to may differ. */
  ghost predicate Patched(m: seq<byte>, n: seq<byte>, base: nat, i: nat) {
    SameOutside(m, n, HeaderAddr(base, i) + 68, HeaderAddr(base, i) + 72)
  }

  /** A store to the offset field of header i moves that entry's origin. */
  lemma EntryPatched(m: seq<byte>, n: seq<byte>, base: nat, files: seq<File>, i: nat, origin: nat)
    requires |files| < SLOTS && i < |files| && EntryAt(m, base, files, 0, i) && Patched(m, n, base, i)
    requires HeaderAddr(base, i) + 72 <= |n| && Peek(n, HeaderAddr(base, i) + 68) == origin + OffsetOf(files, i)
    ensures EntryAt(n, base, files, origin, i)
  {
    hide Peek, OffsetOf;
    var a, name := HeaderAddr(base, i), files[i].name;
    OffsetBounds(files, i);
    SameSlice(m, n, a + 1, a + 1 + |name|);
    PeekSame(m, n, a + 72);
    var o := base + OffsetOf(files, i);
    SameSlice(m, n, o, o + |files[i].content|);
  }

  /** The other entries, and the count, do not notice. */
  lemma EntryKept(m: seq<byte>, n: seq<byte>, base: nat, files: seq<File>, i: nat, j: nat, origin: nat)
    requires |files| < SLOTS && i < |files| && j < |files| && i != j
    requires EntryAt(m, base, files, origin, j) && Patched(m, n, base, i)
    ensures EntryAt(n, base, files, origin, j)
  {
    hide Peek, OffsetOf, HeaderAt;
    var a := HeaderAddr(base, j);
    HeaderFits(m, a, files[j].name, origin + OffsetOf(files, j), |files[j].content|);
    OffsetBounds(files, j);
    SameSlice(m, n, a, a + HEADER_SIZE);
    HeaderMoved(m, n, a, a, files[j].name, origin + OffsetOf(files, j), |files[j].content|);
    var o := base + OffsetOf(files, j);
    SameSlice(m, n, o, o + |files[j].content|);
  }

  lemma HeaderFits(m: seq<byte>, a: nat, name: seq<byte>, offset: nat, length: nat)
    requires HeaderAt(m, a, name, offset, length)
    ensures a + HEADER_SIZE <= |m| && Peek(m, a + 68) == offset && Peek(m, a + 72) == length
    ensures m[a + 1..a + 1 + |name|] == name && m[a + 1 + |name|] == 0
  {
  }

  /** strcpy from a header's name field. */
  method ReadName(ram: array<byte>, a: nat, ghost name: seq<byte>) returns (s: seq<byte>)
    requires NameOk(name) && a + 64 <= ram.Length && ram[a..a + |name|] == name && ram[a + |name|] == 0
    ensures s == name
  {
    forall k | 0 <= k < |name| ensures ram[a + k] == name[k] { assert ram[a..a + |name|][k] == ram[a + k]; }
    s := [];
    while ram[a + |s|] != 0
      invariant |s| <= |name| && s == name[..|s|]
      decreases |name| - |s|
    {
      s := s + [ram[a + |s|]];
    }
  }

  class Ramdisk {
    const ram: array<byte>
    const base: nat         // where the image was loaded
    var nodes: seq<Node>    // root_nodes
    ghost var files: seq<File>

    ghost predicate Valid()
      reads this, ram
    {
      && ram.Length < TWO32 && Packable(files)
      && ImageAt(ram[..], base, files, base)
      && |nodes| == |files|
      && (forall i :: 0 <= i < |files| ==> |files[i].content| < TWO32)
      && forall i :: 0 <= i < |files| ==> nodes[i] == Node(files[i].name, |files[i].content|, i)
    }

    /** initrd_init: mount the image of `packed` at `location`. */
    constructor (memory: array<byte>, location: nat, ghost packed: seq<File>)
      requires memory.Length < TWO32 && Packable(packed) && ImageAt(memory[..], location, packed, 0)
      modifies memory
      ensures ram == memory && base == location && files == packed && Valid()
      ensures SameOutside(old(memory[..]), memory[..], location + 4, location + DATA)
    {
      ram, base := memory, location;
      nodes := [];
      files := packed;
      new;
      hide Peek, HeaderAt, OffsetOf, EntryAt;
      ghost var m := memory[..];
      var nfiles := Peek(memory[..], location) as int;
      forall i | 0 <= i < |packed| ensures |packed[i].content| < TWO32 { OffsetBounds(packed, i); }
      for i := 0 to nfiles
        invariant ram == memory && base == location && files == packed
        invariant |nodes| == i && forall j :: 0 <= j < i ==> nodes[j] == Node(packed[j].name, |packed[j].content|, j)
        invariant Peek(memory[..], location) == |packed|
        invariant SameOutside(m, memory[..], location + 4, location + DATA)
        invariant forall j {:trigger EntryAt(memory[..], location, packed, location, j)} :: 0 <= j < i ==>
          EntryAt(memory[..], location, packed, location, j)
        invariant forall j {:trigger EntryAt(memory[..], location, packed, 0, j)} :: i <= j < |packed| ==>
          EntryAt(memory[..], location, packed, 0, j)
      {
        ghost var was := memory[..];
        Mount(i);
        PeekSame(was, memory[..], location);
        forall j | 0 <= j < i ensures EntryAt(memory[..], location, packed, location, j) {
          assert EntryAt(was, location, packed, location, j);
          EntryKept(was, memory[..], location, packed, i, j, location);
        }
        forall j | i < j < |packed| ensures EntryAt(memory[..], location, packed, 0, j) {
          assert EntryAt(was, location, packed, 0, j);
          EntryKept(was, memory[..], location, packed, i, j, 0);
        }
      }
    }

    /** One round of the loop of lines 98-112. */
    method Mount(i: nat)
      requires ram.Length < TWO32 && Packable(files) && i < |files| && base + DATA + Total(files) <= ram.Length
      requires EntryAt(ram[..], base, files, 0, i) && |nodes| == i
      modifies ram, `nodes
      ensures EntryAt(ram[..], base, files, base, i) && Patched(old(ram[..]), ram[..], base, i)
      ensures nodes == old(nodes) + [Node(files[i].name, |files[i].content|, i)]
    {
      hide Peek, OffsetOf, HeaderAt;
      ghost var m := ram[..];
      var a := HeaderAddr(base, i);
      HeaderFits(m, a, files[i].name, OffsetOf(files, i), |files[i].content|);
      OffsetBounds(files, i);
      Poke(ram, a + 68, (Peek(ram[..], a + 68) as int + base) % TWO32);
      EntryPatched(m, ram[..], base, files, i, base);
      HeaderFits(ram[..], a, files[i].name, base + OffsetOf(files, i), |files[i].content|);
      var name := ReadName(ram, a + 1, files[i].name);
      nodes := nodes + [Node(name, Peek(ram[..], a + 72) as int, i)];
    }

    /** initrd_finddir, from the root directory or from "mtp". */
    method FindDir(isRoot: bool, name: seq<byte>) returns (r: Found)
      requires Valid()
      ensures r == Mtp <==> isRoot && name == [109, 116, 112]
      ensures r == NotFound <==>
        !(isRoot && name == [109, 116, 112]) && forall j :: 0 <= j < |files| ==> files[j].name != name
      ensures r.FileNode? ==>
        r.i < |files| && files[r.i].name == name && forall j :: 0 <= j < r.i ==> files[j].name != name
    {
      hide ImageAt, Packable;
      if isRoot && name == MTP {
        return Mtp;
      }
      for i := 0 to |nodes|
        invariant forall j :: 0 <= j < i ==> files[j].name != name
      {
        if name == nodes[i].name {
          return FileNode(i);
        }
      }
      return NotFound;
    }

    /** initrd_readdir: entry 0 of the root is "mtp", the files follow; null past the end. */
    method ReadDir(isRoot: bool, index: word) returns (name: seq<byte>, ino: nat, end: bool)
      requires Valid()
      ensures isRoot && index == 0 ==> !end && name == [109, 116, 112] && ino == 0
      ensures !(isRoot && index == 0) ==> (end <==> index == 0 || index as int > |files|)
      ensures !end && index > 0 ==> name == files[index - 1].name && ino == index as int - 1
    {
      hide ImageAt;
      if isRoot && index == 0 {
        return MTP, 0, false;
      }
      if (index as int - 1) % TWO32 >= |nodes| {
        return [], 0, true;
      }
      return nodes[index - 1].name, nodes[index - 1].inode, false;
    }

    /** What a valid ramdisk holds for node `inode`. */
    lemma NodeFacts(inode: nat)
      requires Valid() && inode < |nodes|
      ensures |nodes| == |files| && |files[inode].content| < TWO32
      ensures var a, o, c := HeaderAddr(base, inode), base + OffsetOf(files, inode), files[inode].content;
        && a + HEADER_SIZE <= ram.Length && o + |c| <= ram.Length
        && Peek(ram[..], a + 68) == o && Peek(ram[..], a + 72) == |c| && ram[..][o..o + |c|] == c
    {
      hide Peek, OffsetOf, HeaderAt;
      assert EntryAt(ram[..], base, files, base, inode);
      HeaderFits(ram[..], HeaderAddr(base, inode), files[inode].name,
        base + OffsetOf(files, inode), |files[inode].content|);
    }

    /**
      initrd_read into `buffer`: it copies ReadCount bytes of memory from the file's start plus
      `offset`, which must exist; where the count does not wrap they are the file's own bytes.
     */
    method Read(inode: nat, offset: word, size: word, buffer: array<byte>) returns (count: word)
      requires Valid() && inode < |nodes| && buffer != ram
      requires ReadCount(|files[inode].content|, offset, size) as int <= buffer.Length
      requires var n := ReadCount(|files[inode].content|, offset, size) as int;
        n == 0 || base + OffsetOf(files, inode) + offset as int + n <= ram.Length
      modifies buffer
      ensures Valid() && count == ReadCount(|files[inode].content|, offset, size)
      ensures buffer[count..] == old(buffer[count..])
      ensures count as int == MeantCount(|files[inode].content|, offset, size)
        ==> buffer[..count] == Clip(files[inode].content, offset, count as int)
    {
      hide Peek, OffsetOf, HeaderAt, Valid, ReadCount, MeantCount, ImageAt, Packable;
      NodeFacts(inode);
      ghost var c := files[inode].content;
      ReadCountBound(|c|, offset, size);
      var a := HeaderAddr(base, inode);
      var length, start := Peek(ram[..], a + 72), Peek(ram[..], a + 68) as int;
      count := ReadCount(length, offset, size);
      if count > 0 {
        Copy(ram, start + offset as int, buffer, count as int);
      }
      if count as int == MeantCount(length, offset, size) && offset <= length {
        var o := base + OffsetOf(files, inode);
        SliceOfSlice(ram[..], o, |c|, offset as int, count as int);
      }
    }

    /** Calling initrd_read for k bytes at a time, until a call returns 0, reassembles the file. */
    method ReadAll(inode: nat, k: word, buffer: array<byte>) returns (content: seq<byte>)
      requires Valid() && inode < |nodes| && buffer != ram
      requires 0 < k as int <= BUFFER_SIZE && k as int <= buffer.Length && |files[inode].content| + k as int < TWO32
      modifies buffer
      ensures Valid() && content == files[inode].content
    {
      hide Peek, OffsetOf, HeaderAt, Valid, ImageAt, Packable, Chunks, Clip, ReadCount, MeantCount;
      NodeFacts(inode);
      ghost var c := files[inode].content;
      ChunksReassemble(c, 0, k as int);
      assert c[0..] == c && [] + c == c;
      content := [];
      var offset: word, count: word := 0, k;
      while count > 0
        invariant Valid() && inode < |nodes| && files[inode].content == c && offset as int <= |c|
        invariant content + Chunks(c, offset as int, k as int) == c
        invariant count == 0 ==> offset as int == |c|
        decreases |c| - offset as int + if count > 0 then 1 else 0
      {
        ChunkRead(c, offset, k);
        NextChunk(c, offset as int, k as int);
        count := Read(inode, offset, k, buffer);
        ghost var piece, rest := Clip(c, offset as int, k as int), Chunks(c, offset as int + count as int, k as int);
        assert buffer[..count] == piece;
        assert content + (piece + rest) == content + piece + rest;
        content := content + buffer[..count];
        offset := offset as int + count as int;
      }
      ChunksReassemble(c, |c|, k as int);
    }
  }

  /** A read of k bytes inside a file, k at most the read buffer's size. */
  lemma ChunkRead(content: seq<byte>, offset: word, k: word)
    requires 0 < k as int <= BUFFER_SIZE && |content| + k as int < TWO32 && offset as int <= |content|
    ensures var n := ReadCount(|content|, offset, k) as int;
      && n == MeantCount(|content|, offset, k) == |Clip(content, offset, k)| <= k as int
        && offset as int + n <= |content|
      && Clip(content, offset, n) == Clip(content, offset, k)
  {
    ReadCountIff(|content|, offset, k);
    ReadCountBound(|content|, offset, k);
    ClipLength(content, offset, k);
  }

  lemma NextChunk(content: seq<byte>, offset: nat, k: nat)
    requires k > 0 && offset <= |content|
    ensures Clip(content, offset, k) == [] <==> offset == |content|
    ensures offset + |Clip(content, offset, k)| <= |content|
    ensures Chunks(content, offset, k)
      == Clip(content, offset, k) + Chunks(content, offset + |Clip(content, offset, k)|, k)
  {
  }

  lemma ReadCountBound(length: word, offset: word, size: word)
    ensures offset > length ==> ReadCount(length, offset, size) == 0 && MeantCount(length, offset, size) == 0
    ensures offset <= length ==> offset as int + MeantCount(length, offset, size) <= length as int
  {
  }

  lemma SliceOfSlice(m: seq<byte>, a: nat, n: nat, i: nat, k: nat)
    requires a + n <= |m| && i + k <= n
    ensures m[a + i..a + i + k] == m[a..a + n][i..i + k]
  {
    var x, y := m[a + i..a + i + k], m[a..a + n][i..i + k];
    forall j | 0 <= j < k ensures x[j] == y[j] {
      assert x[j] == m[a + i + j] && y[j] == m[a..a + n][i + j] && m[a..a + n][i + j] == m[a + (i + j)];
    }
  }

  /** memcpy between separate buffers. */
  method Copy(src: array<byte>, a: nat, dst: array<byte>, n: nat)
    requires src != dst && a + n <= src.Length && n <= dst.Length
    modifies dst
    ensures dst[..n] == src[a..a + n] && dst[n..] == old(dst[n..])
  {
    for i := 0 to n
      invariant forall j :: 0 <= j < i ==> dst[j] == src[a + j]
      invariant forall j :: i <= j < dst.Length ==> dst[j] == old(dst[j])
    {
      dst[i] := src[a + i];
    }
  }
}
