// utils/put_to_ramdisk.c: builds a ramdisk image. The files to pack are a parameter, and so is
// what the stack held where the 64 headers are allocated: the source does not clear it.
module Packer {
  import opened Machine
  import opened RamdiskFormat

  /** `argc` is declared char: the number of files seen for `args` command-line words (lines 12-13). */
  function HeaderCount(args: nat): int {
    var argc := (args + 128) % 256 - 128;
    if argc >= 1 then (argc - 1) / 2 else -((1 - argc) / 2)
  }

  /**
    Two words per file are counted right exactly up to 63 files; beyond, and with a word left over,
    the count wraps as `char` does, and the division truncates toward zero.
   */
  lemma HeaderCountIff(n: nat)
    ensures HeaderCount(1 + 2 * n) == n <==> n < SLOTS
    ensures HeaderCount(1 + 2 * n) == if n % 128 < 64 then n % 128 else n % 128 - 128
    ensures HeaderCount(2 + 2 * n) == if n % 128 < 63 then n % 128 else n % 128 - 127
    ensures HeaderCount(0) == 0
  {
    var q, k := n / 128, n % 128;
    assert 1 + 2 * n + 128 == 256 * q + (129 + 2 * k) && 2 + 2 * n + 128 == 256 * q + (130 + 2 * k);
    Bytes(q, 129 + 2 * k);
    Bytes(q, 130 + 2 * k);
  }

  lemma Bytes(q: nat, r: nat)
    requires r < 512
    ensures (256 * q + r) % 256 == if r < 256 then r else r - 256
  {
  }

  /** Lines 20-31 for one header. */
  method WriteHeader(h: array<byte>, a: nat, name: seq<byte>, offset: word, length: word)
    requires a + HEADER_SIZE <= h.Length && NameOk(name)
    modifies h
    ensures HeaderAt(h[..], a, name, offset, length)
    ensures SameOutside(old(h[..]), h[..], a, a + HEADER_SIZE)
  {
    hide Peek;
    ghost var m := h[..];
    for i := 0 to |name|
      invariant forall j :: 0 <= j < i ==> h[a + 1 + j] == name[j]
      invariant SameOutside(m, h[..], a, a + HEADER_SIZE)
    {
      h[a + 1 + i] := name[i];
    }
    h[a + 1 + |name|] := 0;
    ghost var m1 := h[..];
    assert m1[a + 1..a + 1 + |name|] == name;
    Poke(h, a + 68, offset);
    Poke(h, a + 72, length);
    ghost var m2 := h[..];
    h[a] := MAGIC;
    assert SameOn(m1, h[..], a + 1, a + 68);
    SameSlice(m1, h[..], a + 1, a + 1 + |name|);
    PeekSame(m2, h[..], a + 68);
    PeekSame(m2, h[..], a + 72);
  }

  /** Writing one header leaves the others. */
  lemma HeaderKept(m: seq<byte>, n: seq<byte>, a: nat, b: nat, name: seq<byte>, offset: nat, length: nat)
    requires HeaderAt(m, b, name, offset, length) && SameOutside(m, n, a, a + HEADER_SIZE)
    requires b + HEADER_SIZE <= a || a + HEADER_SIZE <= b
    ensures HeaderAt(n, b, name, offset, length)
  {
    hide Peek, HeaderAt;
    HeaderInside(m, b, name, offset, length);
    SameSlice(m, n, b, b + HEADER_SIZE);
    HeaderMoved(m, n, b, b, name, offset, length);
  }

  lemma HeaderInside(m: seq<byte>, a: nat, name: seq<byte>, offset: nat, length: nat)
    requires HeaderAt(m, a, name, offset, length)
    ensures a + HEADER_SIZE <= |m|
  {
  }

  /** The header table once the first i files are entered. */
  ghost predicate HeadersDone(h: seq<byte>, files: seq<File>, i: nat) {
    i <= |files| && forall j {:trigger OffsetOf(files, j)} :: 0 <= j < i ==>
      HeaderAt(h, HEADER_SIZE * j, files[j].name, OffsetOf(files, j), |files[j].content|)
  }

  lemma HeadersStep(m: seq<byte>, n: seq<byte>, files: seq<File>, i: nat)
    requires i < |files| && HeadersDone(m, files, i)
      && SameOutside(m, n, HEADER_SIZE * i, HEADER_SIZE * i + HEADER_SIZE)
    requires HeaderAt(n, HEADER_SIZE * i, files[i].name, OffsetOf(files, i), |files[i].content|)
    ensures HeadersDone(n, files, i + 1)
  {
    hide HeaderAt, OffsetOf;
    forall j | 0 <= j < i + 1
      ensures HeaderAt(n, HEADER_SIZE * j, files[j].name, OffsetOf(files, j), |files[j].content|) {
      if j < i {
        HeaderKept(m, n, HEADER_SIZE * i, HEADER_SIZE * j, files[j].name, OffsetOf(files, j), |files[j].content|);
      }
    }
  }

  /** The contents of the first i files, back to back. */
  ghost predicate DataDone(data: seq<byte>, files: seq<File>, i: nat) {
    && i <= |files| && DATA + |data| == OffsetOf(files, i)
    && forall j {:trigger OffsetOf(files, j)} :: 0 <= j < i ==> FileIn(data, files, j)
  }

  ghost predicate FileIn(data: seq<byte>, files: seq<File>, j: nat)
    requires j < |files|
  {
    var o := OffsetOf(files, j) - DATA;
    0 <= o && o + |files[j].content| <= |data| && data[o..o + |files[j].content|] == files[j].content
  }

  lemma DataStep(data: seq<byte>, files: seq<File>, i: nat)
    requires DataDone(data, files, i) && i < |files|
    ensures DataDone(data + files[i].content, files, i + 1)
  {
    hide OffsetOf;
    var more := data + files[i].content;
    OffsetStep(files, i);
    forall j | 0 <= j < i + 1 ensures FileIn(more, files, j) {
      OffsetBounds(files, j);
      if j < i {
        assert FileIn(data, files, j);
        var o := OffsetOf(files, j) - DATA;
        assert more[o..o + |files[j].content|] == data[o..o + |files[j].content|];
      }
    }
  }

  /** Count, headers and data in sequence are an image. */
  lemma Assembled(count: seq<byte>, h: seq<byte>, data: seq<byte>, files: seq<File>)
    requires |count| == 4 && |h| == SLOTS * HEADER_SIZE && |files| < SLOTS
    requires Peek(count, 0) == |files|
    requires HeadersDone(h, files, |files|) && DataDone(data, files, |files|)
    ensures ImageAt(count + h + data, 0, files, 0) && |count + h + data| == DATA + Total(files)
  {
    hide Peek, OffsetOf, HeaderAt;
    var m := count + h + data;
    LastOffset(files);
    SliceFirst(count, h, data);
    PeekMoved(count, m, 0, 0, 4, 0);
    forall i | 0 <= i < |files| ensures EntryAt(m, 0, files, 0, i) {
      var b, a, o, n := HeaderAddr(0, i), HEADER_SIZE * i, OffsetOf(files, i), |files[i].content|;
      assert HeaderAt(h, a, files[i].name, o, n);
      SliceSecond(count, h, data, a, HEADER_SIZE);
      HeaderMoved(h, m, a, b, files[i].name, o, n);
      assert FileIn(data, files, i);
      OffsetBounds(files, i);
      SliceThird(count, h, data, o - DATA, n);
    }
  }

  lemma SliceFirst(x: seq<byte>, y: seq<byte>, z: seq<byte>)
    ensures (x + y + z)[0..|x|] == x[0..|x|]
  {
  }

  lemma SliceSecond(x: seq<byte>, y: seq<byte>, z: seq<byte>, a: nat, n: nat)
    requires a + n <= |y|
    ensures (x + y + z)[|x| + a..|x| + a + n] == y[a..a + n]
  {
  }

  lemma SliceThird(x: seq<byte>, y: seq<byte>, z: seq<byte>, a: nat, n: nat)
    requires a + n <= |z|
    ensures (x + y + z)[|x| + |y| + a..|x| + |y| + a + n] == z[a..a + n]
  {
  }

  lemma LastOffset(files: seq<File>)
    ensures OffsetOf(files, |files|) == DATA + Total(files) && OffsetOf(files, 0) == DATA
  {
    assert files[..|files|] == files;
  }

  /** main. */
  method Pack(files: seq<File>, stack: seq<byte>) returns (image: seq<byte>)
    requires Packable(files) && |stack| == SLOTS * HEADER_SIZE
    ensures |image| == DATA + Total(files) && ImageAt(image, 0, files, 0)
  {
    hide Peek, HeaderAt, OffsetOf, ImageAt, DataDone, HeadersDone;
    HeaderCountIff(|files|);
    var nheaders := HeaderCount(1 + 2 * |files|);
    var headers := new byte[SLOTS * HEADER_SIZE](i requires 0 <= i < |stack| => stack[i]);
    var off: word := DATA;
    LastOffset(files);
    NoHeaders(headers[..], files);
    for i := 0 to nheaders
      invariant off as int == OffsetOf(files, i) && HeadersDone(headers[..], files, i)
    {
      OffsetBounds(files, i);
      OffsetStep(files, i);
      ghost var m := headers[..];
      assert NameOk(files[i].name);
      WriteHeader(headers, HEADER_SIZE * i, files[i].name, off, |files[i].content|);
      HeadersStep(m, headers[..], files, i);
      off := (off as int + |files[i].content|) % TWO32;
    }
    var count := [Byte0(nheaders), Byte1(nheaders), Byte2(nheaders), Byte3(nheaders)];
    CountBytes(nheaders);
    var data: seq<byte> := [];
    ghost var table := headers[..];
    NoData(files);
    for i := 0 to nheaders
      invariant DataDone(data, files, i) && headers[..] == table
    {
      DataStep(data, files, i);
      data := data + files[i].content;
    }
    image := count + headers[..] + data;
    Assembled(count, headers[..], data, files);
  }

  lemma NoHeaders(h: seq<byte>, files: seq<File>)
    ensures HeadersDone(h, files, 0)
  {
  }

  lemma NoData(files: seq<File>)
    ensures DataDone([], files, 0)
  {
  }

  lemma CountBytes(n: word)
    ensures Peek([Byte0(n), Byte1(n), Byte2(n), Byte3(n)], 0) == n
  {
    CombineBytes(n);
  }
}
