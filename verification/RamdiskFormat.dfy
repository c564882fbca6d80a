// The ramdisk image shared by utils/put_to_ramdisk.c and io/initrd.h: a 4-byte file count,
// 64 headers of 76 bytes, then the files' bytes back to back.
module RamdiskFormat {
  import opened Machine

  const SLOTS: nat := 64
  const HEADER_SIZE: nat := 76
  const DATA: nat := 4868      // sizeof(int) + 64 * sizeof(struct initrd_header)
  const BUFFER_SIZE: nat := 1048576
  const MAGIC: byte := 0xBF

  datatype File = File(name: seq<byte>, content: seq<byte>)

  /** C strings that fit the name field. */
  ghost predicate NameOk(name: seq<byte>) {
    |name| < 64 && forall i :: 0 <= i < |name| ==> name[i] != 0
  }

  function Total(files: seq<File>): nat {
    if files == [] then 0 else Total(files[..|files| - 1]) + |files[|files| - 1].content|
  }

  /** Where the bytes of file i start in the image. */
  function OffsetOf(files: seq<File>, i: nat): nat
    requires i <= |files|
  {
    DATA + Total(files[..i])
  }

  ghost predicate Packable(files: seq<File>) {
    && |files| < SLOTS
    && (forall i :: 0 <= i < |files| ==> NameOk(files[i].name))
    && DATA + Total(files) < TWO32
  }

  /** A header at address `a`: magic at 0, name at 1, offset at 68, length at 72. */
  ghost predicate HeaderAt(m: seq<byte>, a: nat, name: seq<byte>, offset: nat, length: nat) {
    && a + HEADER_SIZE <= |m| && |name| < 64
    && m[a] == MAGIC
    && m[a + 1..a + 1 + |name|] == name && m[a + 1 + |name|] == 0
    && Peek(m, a + 68) == offset && Peek(m, a + 72) == length
  }

  /** `m` holds the image of `files` at `base`, with file offsets counted from `origin`. */
  ghost predicate ImageAt(m: seq<byte>, base: nat, files: seq<File>, origin: nat) {
    && base + DATA + Total(files) <= |m|
    && Peek(m, base) == |files|
    && forall i {:trigger EntryAt(m, base, files, origin, i)} :: 0 <= i < |files| ==> EntryAt(m, base, files, origin, i)
  }

  function HeaderAddr(base: nat, i: nat): nat { base + 4 + HEADER_SIZE * i }

  ghost predicate EntryAt(m: seq<byte>, base: nat, files: seq<File>, origin: nat, i: nat)
    requires i < |files|
  {
    var o, c := OffsetOf(files, i), files[i].content;
    && HeaderAt(m, HeaderAddr(base, i), files[i].name, origin + o, |c|)
    && HoldsAt(m, base + o, c)
  }

  ghost predicate HoldsAt(m: seq<byte>, a: nat, c: seq<byte>) {
    a + |c| <= |m| && m[a..a + |c|] == c
  }

  // ---------------------------------------------------------------- offsets

  lemma OffsetStep(files: seq<File>, i: nat)
    requires i < |files|
    ensures OffsetOf(files, i + 1) == OffsetOf(files, i) + |files[i].content|
  {
    assert files[..i + 1][..i] == files[..i];
  }

  lemma {:induction false} OffsetOrder(files: seq<File>, i: nat, j: nat)
    requires i <= j <= |files|
    ensures OffsetOf(files, i) <= OffsetOf(files, j)
    decreases j
  {
    if i < j {
      OffsetOrder(files, i, j - 1);
      OffsetStep(files, j - 1);
    }
  }

  /** Every file's bytes lie between the headers and the end of the image. */
  lemma OffsetBounds(files: seq<File>, i: nat)
    requires i < |files|
    ensures DATA <= OffsetOf(files, i) && OffsetOf(files, i) + |files[i].content| <= DATA + Total(files)
  {
    OffsetOrder(files, 0, i);
    OffsetStep(files, i);
    OffsetOrder(files, i + 1, |files|);
    assert files[..|files|] == files;
  }

  // ---------------------------------------------------------------- the layout, byte by byte

  /** The bytes of the files before file i. */
  function SizesBefore(files: seq<File>, i: nat): nat
    requires i <= |files|
  {
    if i == 0 then 0 else SizesBefore(files, i - 1) + |files[i - 1].content|
  }

  lemma {:induction false} OffsetSum(files: seq<File>, i: nat)
    requires i <= |files|
    ensures OffsetOf(files, i) == 4868 + SizesBefore(files, i)
  {
    if i > 0 {
      OffsetSum(files, i - 1);
      OffsetStep(files, i - 1);
    } else {
      assert files[..0] == [];
    }
  }

  /** The little-endian word at address `a` is v. */
  predicate WordAt(m: seq<byte>, a: nat, v: int) {
    && a + 4 <= |m|
    && m[a] as int + 0x100 * m[a + 1] as int + 0x1_0000 * m[a + 2] as int + 0x100_0000 * m[a + 3] as int == v
  }

  /**
    An image, byte by byte: a word with the number of files; for file i a header at 4 + 76 * i, with the
    magic byte 0xBF, the zero-terminated name from byte 1, the offset in a word at 68 and the length in a
    word at 72; and the file's bytes at 4868 plus the sizes of the files before it.
   */
  lemma {:induction false} ImageBytes(m: seq<byte>, base: nat, files: seq<File>, origin: nat, i: nat)
    requires ImageAt(m, base, files, origin) && i < |files|
    ensures WordAt(m, base, |files|)
    ensures var h, f, o := base + 4 + 76 * i, files[i], 4868 + SizesBefore(files, i);
      && h + 76 <= |m| && |f.name| < 64
      && m[h] == 0xBF && (forall j :: 0 <= j < |f.name| ==> m[h + 1 + j] == f.name[j]) && m[h + 1 + |f.name|] == 0
      && WordAt(m, h + 68, origin + o) && WordAt(m, h + 72, |f.content|)
      && base + o + |f.content| <= |m| && m[base + o..base + o + |f.content|] == f.content
  {
    hide OffsetOf;
    OffsetSum(files, i);
    assert EntryAt(m, base, files, origin, i);
    var h, name := base + 4 + 76 * i, files[i].name;
    forall j | 0 <= j < |name| ensures m[h + 1 + j] == name[j] { assert m[h + 1..h + 1 + |name|][j] == m[h + 1 + j]; }
  }

  // ---------------------------------------------------------------- moving headers about

  lemma ByteMoved(m: seq<byte>, n: seq<byte>, a: nat, b: nat, len: nat, k: nat)
    requires a + len <= |m| && b + len <= |n| && m[a..a + len] == n[b..b + len] && k < len
    ensures m[a + k] == n[b + k]
  {
    assert m[a..a + len][k] == m[a + k] && n[b..b + len][k] == n[b + k];
  }

  lemma PeekMoved(m: seq<byte>, n: seq<byte>, a: nat, b: nat, len: nat, k: nat)
    requires a + len <= |m| && b + len <= |n| && m[a..a + len] == n[b..b + len] && k + 4 <= len
    ensures Peek(m, a + k) == Peek(n, b + k)
  {
    ByteMoved(m, n, a, b, len, k);
    ByteMoved(m, n, a, b, len, k + 1);
    ByteMoved(m, n, a, b, len, k + 2);
    ByteMoved(m, n, a, b, len, k + 3);
  }

  /** A header is a header wherever its 76 bytes are copied. */
  lemma HeaderMoved(m: seq<byte>, n: seq<byte>, a: nat, b: nat, name: seq<byte>, offset: nat, length: nat)
    requires HeaderAt(m, a, name, offset, length)
    requires b + HEADER_SIZE <= |n| && m[a..a + HEADER_SIZE] == n[b..b + HEADER_SIZE]
    ensures HeaderAt(n, b, name, offset, length)
  {
    hide Peek;
    PeekMoved(m, n, a, b, HEADER_SIZE, 68);
    PeekMoved(m, n, a, b, HEADER_SIZE, 72);
    ByteMoved(m, n, a, b, HEADER_SIZE, 0);
    ByteMoved(m, n, a, b, HEADER_SIZE, 1 + |name|);
    forall j | 0 <= j < |name| ensures n[b + 1..b + 1 + |name|][j] == name[j] {
      ByteMoved(m, n, a, b, HEADER_SIZE, 1 + j);
      assert m[a + 1..a + 1 + |name|][j] == m[a + 1 + j];
    }
  }

  lemma SameSlice(m: seq<byte>, n: seq<byte>, lo: nat, hi: nat)
    requires lo <= hi <= |m| && SameOn(m, n, lo, hi)
    ensures m[lo..hi] == n[lo..hi]
  {
  }
}
