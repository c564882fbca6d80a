// The printer and the reader of the ramdisk format together: what was packed is what is read.
module RamdiskRoundTrip {
  import opened Machine
  import opened RamdiskFormat
  import opened Packer
  import opened Initrd

  ghost predicate LoadedAt(image: seq<byte>, m: seq<byte>, base: nat) {
    base + |image| <= |m| && m[base..base + |image|] == image
  }

  /** An image is an image wherever it is loaded. */
  lemma {:induction false} ImageMoved(image: seq<byte>, m: seq<byte>, base: nat, files: seq<File>)
    requires |image| == DATA + Total(files) && |files| < SLOTS && ImageAt(image, 0, files, 0)
    requires LoadedAt(image, m, base)
    ensures ImageAt(m, base, files, 0)
  {
    hide Peek, OffsetOf, HeaderAt;
    PeekMoved(image, m, 0, base, |image|, 0);
    forall i | 0 <= i < |files| ensures EntryAt(m, base, files, 0, i) {
      EntryMoved(image, m, base, files, i);
    }
  }

  lemma {:induction false} EntryMoved(image: seq<byte>, m: seq<byte>, base: nat, files: seq<File>, i: nat)
    requires |image| == DATA + Total(files) && i < |files| && EntryAt(image, 0, files, 0, i)
    requires LoadedAt(image, m, base)
    ensures EntryAt(m, base, files, 0, i)
  {
    hide Peek, OffsetOf, HeaderAt, LoadedAt, HoldsAt, Total;
    var a, o, c := HeaderAddr(0, i), OffsetOf(files, i), files[i].content;
    HeaderFits(image, a, files[i].name, o, |c|);
    Loaded(image, m, base, a, HEADER_SIZE);
    HeaderMoved(image, m, a, base + a, files[i].name, o, |c|);
    HoldsMoved(image, m, base, o, c);
    IsEntry(m, base, files, i, base + a, o);
  }

  lemma IsEntry(m: seq<byte>, base: nat, files: seq<File>, i: nat, a: nat, o: nat)
    requires i < |files| && a == HeaderAddr(base, i) && o == OffsetOf(files, i)
    requires HeaderAt(m, a, files[i].name, o, |files[i].content|) && HoldsAt(m, base + o, files[i].content)
    ensures EntryAt(m, base, files, 0, i)
  {
    hide Peek, OffsetOf, HeaderAt, HoldsAt;
  }

  lemma HoldsMoved(image: seq<byte>, m: seq<byte>, base: nat, a: nat, c: seq<byte>)
    requires LoadedAt(image, m, base) && HoldsAt(image, a, c)
    ensures HoldsAt(m, base + a, c)
  {
    hide LoadedAt;
    Loaded(image, m, base, a, |c|);
  }

  lemma Loaded(image: seq<byte>, m: seq<byte>, base: nat, a: nat, k: nat)
    requires LoadedAt(image, m, base) && a + k <= |image|
    ensures base + |image| <= |m| && image[a..a + k] == m[base + a..base + a + k]
  {
    SliceOfSlice(m, base, |image|, a, k);
  }

  ghost predicate DistinctNames(files: seq<File>) {
    && (forall i, j :: 0 <= i < j < |files| ==> files[i].name != files[j].name)
    && forall i :: 0 <= i < |files| ==> files[i].name != MTP
  }

  /** Loading the image into memory, as the boot loader does. */
  method Load(ram: array<byte>, location: nat, image: seq<byte>)
    requires location + |image| <= ram.Length
    modifies ram
    ensures ram[location..location + |image|] == image
  {
    for i := 0 to |image|
      invariant forall j :: 0 <= j < i ==> ram[location + j] == image[j]
    {
      ram[location + i] := image[i];
    }
  }

  /**
    Pack, load anywhere, mount, look a file up by name and read [offset, offset+n) of it: the
    caller gets exactly that slice, cut off at the end of the file.
   */
  method PackMountRead(files: seq<File>, stack: seq<byte>, ram: array<byte>, location: nat,
                       i: nat, offset: word, n: word, buffer: array<byte>)
    returns (count: word)
    requires Packable(files) && DistinctNames(files) && |stack| == SLOTS * HEADER_SIZE
    requires location + DATA + Total(files) <= ram.Length < TWO32 && buffer != ram
    requires i < |files| && n as int <= BUFFER_SIZE && n as int <= buffer.Length
    requires offset as int > |files[i].content| || offset as int + n as int < TWO32
    modifies ram, buffer
    ensures count <= n && buffer[..count] == Clip(files[i].content, offset, n)
    ensures buffer[count..] == old(buffer[count..])
  {
    hide Peek, OffsetOf, HeaderAt, ImageAt;
    var image := Pack(files, stack);
    Load(ram, location, image);
    ImageMoved(image, ram[..], location, files);
    var disk := new Ramdisk(ram, location, files);
    var found := disk.FindDir(true, files[i].name);
    assert found == FileNode(i);
    OffsetBounds(files, i);
    ReadCountIff(|files[i].content|, offset, n);
    count := disk.Read(found.i, offset, n, buffer);
    assert Clip(files[i].content, offset, count as int) == Clip(files[i].content, offset, n);
  }
}
