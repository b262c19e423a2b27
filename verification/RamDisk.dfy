/**
  The ram disk image: written by `Image` (bootimage/src/main.rs), read by the
  kernel (kernel/src/ram_disk.rs).  Layout, in little-endian 64-bit words:
  total length, checksum, number of files, end offset of each file; then the
  files' bytes.  The checksum covers everything after itself.
 */
module RamDisk {
  import opened Words

  // ---------------------------------------------------------------------- checksum

  /** One bit of the CRC of section 8 of RFC 1952. */
  function CrcBit(c: bv32): (r: bv32) { if c & 1 == 1 then 0xEDB8_8320 ^ (c >> 1) else c >> 1 }

  function CrcByte(c: bv32, b: Byte): (r: bv32)
  {
    var x := c ^ (b as bv32);
    CrcBit(CrcBit(CrcBit(CrcBit(CrcBit(CrcBit(CrcBit(CrcBit(x))))))))
  }

  const ONE: bv40 := 1

  /**
    The polynomial x^32 + x^26 + x^23 + x^22 + x^16 + x^12 + x^11 + x^10 + x^8
    + x^7 + x^5 + x^4 + x^2 + x + 1, the coefficient of x^e at bit 32 - e.
   */
  const POLYNOMIAL: bv40 :=
    (ONE << 0) | (ONE << 6) | (ONE << 9) | (ONE << 10) | (ONE << 16) | (ONE << 20) | (ONE << 21) | (ONE << 22)
    | (ONE << 24) | (ONE << 25) | (ONE << 27) | (ONE << 28) | (ONE << 30) | (ONE << 31) | (ONE << 32)

  /**
    One bit is one step of division by the polynomial.  The register times x is
    the new register, which again has a degree below 32, or differs from it by
    the polynomial if its degree was 32.
   */
  lemma CrcBitDivides(c: bv32)
    ensures c as bv40 == (if c & 1 != 0 then POLYNOMIAL else 0) ^ ((CrcBit(c) as bv40) << 1)
  {
  }

  function CrcFold(c: bv32, s: seq<Byte>): (r: bv32)
    decreases |s|
  {
    if s == [] then c else CrcFold(CrcByte(c, s[0]), s[1..])
  }

  lemma {:induction false} FoldConcat(c: bv32, s: seq<Byte>, t: seq<Byte>)
    ensures CrcFold(c, s + t) == CrcFold(CrcFold(c, s), t)
    decreases |s|
  {
    hide CrcByte;
    if s == [] {
      assert s + t == t;
    } else {
      assert (s + t)[1..] == s[1..] + t;
      FoldConcat(CrcByte(c, s[0]), s[1..], t);
    }
  }

  const CRC_INIT: bv32 := 0xFFFF_FFFF

  /** The CRC of a byte string: fold from all ones, then complement. */
  function Checksum(s: seq<Byte>): (w: nat)
    ensures w < 0x1_0000_0000
  {
    (!CrcFold(CRC_INIT, s)) as nat
  }

  /** A value to compare with: the checksum of the letter a. */
  lemma ChecksumOfA()
    ensures Checksum([0x61]) == 0xE8B7_BE43
  {
    var x: bv32 := 0xFFFF_FF9E;
    assert CRC_INIT ^ (0x61 as bv32) == x;
    var x4 := CrcBit(CrcBit(CrcBit(CrcBit(x))));
    assert CrcByte(CRC_INIT, 0x61) == CrcBit(CrcBit(CrcBit(CrcBit(x4))));
    assert [0x61 as Byte][1..] == [];
    assert CrcFold(CRC_INIT, [0x61]) == CrcByte(CRC_INIT, 0x61);
  }

  /** Feeding the bytes in two parts gives the checksum of the whole. */
  lemma StreamedChecksum(s: seq<Byte>, t: seq<Byte>)
    ensures (!CrcFold(CrcFold(CRC_INIT, s), t)) as nat == Checksum(s + t)
  {
    hide CrcFold;
    FoldConcat(CRC_INIT, s, t);
  }

  /** The hasher object: `write` in a loop over the bytes, `finish`. */
  class Crc32 {
    var state: bv32

    constructor ()
      ensures state == CRC_INIT
    {
      state := CRC_INIT;
    }

    method Write(bytes: seq<Byte>)
      modifies this
      ensures state == CrcFold(old(state), bytes)
    {
      hide CrcByte;
      for k := 0 to |bytes|
        invariant CrcFold(state, bytes[k..]) == CrcFold(old(state), bytes)
      {
        assert bytes[k..][1..] == bytes[k + 1..];
        state := CrcByte(state, bytes[k]);
      }
      assert bytes[|bytes|..] == [];
    }

    method Finish() returns (w: nat)
      ensures w == (!state) as nat
    {
      w := (!state) as nat;
    }
  }

  // ------------------------------------------------------------------------- words

  function WordBytes(ws: seq<nat>): (s: seq<Byte>)
    ensures |s| == 8 * |ws|
  {
    if ws == [] then [] else ToLe(ws[0], 8) + WordBytes(ws[1..])
  }

  /** Word `k` of a byte slice, if the slice is long enough. */
  function WordAt(s: seq<Byte>, k: nat): (w: Option<nat>)
  {
    if k < |s| / 8 then Some(FromLe(s[8 * k..8 * k + 8])) else None
  }

  lemma {:induction false} WordBytesAt(ws: seq<nat>, rest: seq<Byte>, k: nat)
    requires k < |ws| && ws[k] < TWO64
    ensures WordAt(WordBytes(ws) + rest, k) == Some(ws[k])
    decreases k
  {
    var s := WordBytes(ws) + rest;
    if k == 0 {
      assert s[0..8] == ToLe(ws[0], 8);
      WordRoundTrip(ws[0]);
    } else {
      WordBytesAt(ws[1..], rest, k - 1);
      var t := WordBytes(ws[1..]) + rest;
      assert s == ToLe(ws[0], 8) + t;
      assert s[8 * k..8 * k + 8] == t[8 * (k - 1)..8 * (k - 1) + 8];
    }
  }

  lemma {:induction false} WordBytesConcat(v: seq<nat>, w: seq<nat>)
    ensures WordBytes(v + w) == WordBytes(v) + WordBytes(w)
    decreases |v|
  {
    if v == [] {
      assert v + w == w;
    } else {
      assert (v + w)[1..] == v[1..] + w;
      WordBytesConcat(v[1..], w);
    }
  }

  // ------------------------------------------------------------------- the image

  type File = seq<Byte>

  function Flatten(files: seq<File>): (s: seq<Byte>)
  {
    if files == [] then [] else Flatten(files[..|files| - 1]) + files[|files| - 1]
  }

  /** End offsets: the length of everything up to and including each file. */
  function Ends(files: seq<File>): (s: seq<nat>)
    ensures |s| == |files|
  {
    if files == [] then [] else Ends(files[..|files| - 1]) + [|Flatten(files)|]
  }

  function Header(files: seq<File>): (ws: seq<nat>) { [|files|] + Ends(files) }

  function Body(files: seq<File>): (s: seq<Byte>) { WordBytes(Header(files)) + Flatten(files) }

  /** The file that the boot loader hands to the kernel. */
  function ImageBytes(files: seq<File>): (s: seq<Byte>)
  {
    ToLe(16 + |Body(files)|, 8) + ToLe(Checksum(Body(files)), 8) + Body(files)
  }

  /** Lengths are 64-bit. */
  predicate Fits(files: seq<File>) { |ImageBytes(files)| < TWO64 }

  class Image {
    var regionEnds: seq<nat>
    var buffer: seq<Byte>
    ghost var files: seq<File>

    ghost predicate Valid()
      reads this
    {
      regionEnds == Ends(files) && buffer == Flatten(files)
    }

    constructor ()
      ensures Valid() && files == []
    {
      regionEnds, buffer, files := [], [], [];
    }

    /** `add_file` and `add_string`. */
    method AddFile(contents: File)
      requires Valid()
      modifies this
      ensures Valid() && files == old(files) + [contents]
    {
      assert (files + [contents])[..|files|] == files;
      files := files + [contents];
      buffer := buffer + contents;
      regionEnds := regionEnds + [|buffer|];
    }

    /** `build`. */
    method Build() returns (out: seq<Byte>)
      requires Valid() && Fits(files)
      modifies this
      ensures out == ImageBytes(files) && files == old(files)
    {
      hide Checksum, ToLe, Ends, Flatten;
      regionEnds := [|regionEnds|] + regionEnds;
      var lengths := FlatMapLe(regionEnds);
      var checksum := ChecksumOfTwo(lengths, buffer);
      out := ToLe(|lengths| + |buffer| + 8 + 8, 8);
      out := out + ToLe(checksum, 8);
      out := out + lengths;
      out := out + buffer;
      assert lengths + buffer == Body(files);
      assert out == ToLe(16 + |Body(files)|, 8) + ToLe(checksum, 8) + (lengths + buffer);
    }
  }

  /** The hasher fed with two slices. */
  method ChecksumOfTwo(s: seq<Byte>, t: seq<Byte>) returns (w: nat)
    ensures w == Checksum(s + t)
  {
    hide CrcFold;
    var hasher := new Crc32();
    hasher.Write(s);
    hasher.Write(t);
    StreamedChecksum(s, t);
    w := hasher.Finish();
  }

  method FlatMapLe(words: seq<nat>) returns (out: seq<Byte>)
    ensures out == WordBytes(words)
  {
    hide ToLe;
    out := [];
    for k := 0 to |words|
      invariant out == WordBytes(words[..k])
    {
      assert words[..k + 1] == words[..k] + [words[k]];
      WordBytesConcat(words[..k], [words[k]]);
      assert WordBytes([words[k]]) == ToLe(words[k], 8);
      out := out + ToLe(words[k], 8);
    }
    assert words[..|words|] == words;
  }

  // ------------------------------------------------------------------------ reading

  /** `get_file_count`; None is a panic. */
  function FileCount(img: seq<Byte>): (n: Option<nat>) { WordAt(img, 2) }

  /** `get_file_slice`; None is a panic (assertion, index, subtraction or slice out of range). */
  function FileSlice(img: seq<Byte>, index: nat): (f: Option<seq<Byte>>)
  {
    var count := WordAt(img, 2);
    var end := WordAt(img, 3 + index);
    var start := if index == 0 then Some(0) else WordAt(img, 3 + index - 1);
    if count.None? || index >= count.value || end.None? || start.None? || end.value < start.value then None
    else
      var first := start.value + (count.value + 3) * 8;
      var last := end.value + (count.value + 3) * 8;
      if last <= |img| then Some(img[first..last]) else None
  }

  /** `assert_soundness` passes. */
  predicate Sound(img: seq<Byte>)
  {
    && |img| >= 8 + 8 + 8 + 8 + 1
    && WordAt(img, 0) == Some(|img|)
    && WordAt(img, 1) == Some(Checksum(img[16..]))
    && WordAt(img, 2).Some? && WordAt(img, 2).value <= (|img| - 8 - 8 - 8) / 9
  }

  /** `assert_soundness` as it runs: length, then checksum in one pass, then the count. */
  method AssertSoundness(img: seq<Byte>) returns (ok: bool)
    ensures ok == Sound(img)
  {
    hide CrcFold, FromLe;
    if |img| < 8 + 8 + 8 + 8 + 1 {
      return false;
    }
    if WordAt(img, 0) != Some(|img|) {
      return false;
    }
    var hasher := new Crc32();
    hasher.Write(img[16..]);
    var checksum := hasher.Finish();
    if WordAt(img, 1) != Some(checksum) {
      return false;
    }
    ok := WordAt(img, 2).value <= (|img| - 8 - 8 - 8) / 9;
  }

  // ---------------------------------------------------------------------- round trip

  lemma {:induction false} FlattenPrefix(files: seq<File>, i: nat)
    requires i <= |files|
    ensures |Flatten(files[..i])| <= |Flatten(files)| && Flatten(files)[..|Flatten(files[..i])|] == Flatten(files[..i])
    decreases |files| - i
  {
    if i == |files| {
      assert files[..i] == files;
    } else {
      FlattenPrefixInit(files, i);
    }
  }

  lemma {:induction false} FlattenPrefixInit(files: seq<File>, i: nat)
    requires i < |files|
    ensures |Flatten(files[..i])| <= |Flatten(files)| && Flatten(files)[..|Flatten(files[..i])|] == Flatten(files[..i])
    decreases |files|
  {
    var rest := files[..|files| - 1];
    assert files[..i] == rest[..i];
    if i == |rest| {
      assert rest[..i] == rest;
    } else {
      FlattenPrefixInit(rest, i);
    }
  }

  lemma {:induction false} EndsAt(files: seq<File>, i: nat)
    requires i < |files|
    ensures Ends(files)[i] == |Flatten(files[..i + 1])|
  {
    var n := |files| - 1;
    if i == n {
      assert files[..i + 1] == files;
    } else {
      EndsAt(files[..n], i);
      assert files[..n][..i + 1] == files[..i + 1];
    }
  }

  /** File `i` is the piece of the data between its neighbours' ends. */
  lemma FileIsPiece(files: seq<File>, i: nat)
    requires i < |files|
    ensures var a, b := |Flatten(files[..i])|, |Flatten(files[..i + 1])|;
      a <= b <= |Flatten(files)| && Flatten(files)[a..b] == files[i]
  {
    FlattenPrefix(files, i + 1);
    var part := files[..i + 1];
    assert part[..i] == files[..i] && part[i] == files[i];
    var a, b := |Flatten(files[..i])|, |Flatten(part)|;
    assert Flatten(files)[a..b] == Flatten(files)[..b][a..];
  }

  lemma ImageShape(files: seq<File>)
    requires Fits(files)
    ensures var ws := [16 + |Body(files)|, Checksum(Body(files))] + Header(files);
      ImageBytes(files) == WordBytes(ws) + Flatten(files) && |ws| == |files| + 3 &&
        |ImageBytes(files)| == 16 + |Body(files)|
    ensures ImageBytes(files)[16..] == Body(files)
  {
    hide CrcFold, ToLe;
    var len, sum := 16 + |Body(files)|, Checksum(Body(files));
    WordBytesConcat([len, sum], Header(files));
    assert [len, sum][1..] == [sum];
    assert WordBytes([len, sum]) == ToLe(len, 8) + WordBytes([sum]);
    assert WordBytes([sum]) == ToLe(sum, 8) + WordBytes([]);
  }

  lemma ImageWords(files: seq<File>, k: nat)
    requires Fits(files) && k < |files| + 3
    ensures WordAt(ImageBytes(files), k) ==
      Some(if k == 0 then |ImageBytes(files)| else if k == 1 then Checksum(Body(files)) else if k == 2 then |files|
           else |Flatten(files[..k - 2])|)
  {
    hide CrcFold, ToLe;
    ImageShape(files);
    var ws := [16 + |Body(files)|, Checksum(Body(files))] + Header(files);
    if k >= 3 {
      EndsAt(files, k - 3);
      FlattenPrefix(files, k - 2);
    }
    WordBytesAt(ws, Flatten(files), k);
  }

  lemma FlattenNothing()
    ensures Flatten([]) == []
  {
  }

  lemma PieceOf(header: seq<Byte>, data: seq<Byte>, img: seq<Byte>, a: nat, b: nat)
    requires img == header + data && a <= b <= |data|
    ensures img[a + |header|..b + |header|] == data[a..b]
  {
  }

  /**
    The round trip.  For every list of files, reading file `i` of the built
    image gives back file `i`, and reading past the last panics.
   */
  lemma FileRoundTrip(files: seq<File>, i: nat)
    requires Fits(files)
    ensures FileCount(ImageBytes(files)) == Some(|files|)
    ensures FileSlice(ImageBytes(files), i) == if i < |files| then Some(files[i]) else None
  {
    hide WordAt, ImageBytes, CrcFold, Flatten, Checksum, Body, Fits;
    var img := ImageBytes(files);
    ImageWords(files, 2);
    if i < |files| {
      ImageWords(files, 3 + i);
      if i > 0 {
        ImageWords(files, 2 + i);
      }
      ImageShape(files);
      FileIsPiece(files, i);
      var a, b, h := |Flatten(files[..i])|, |Flatten(files[..i + 1])|, (|files| + 3) * 8;
      assert i == 0 ==> a == 0 by { FlattenNothing(); assert files[..0] == []; }
      assert img[a + h..b + h] == Flatten(files)[a..b] by { PieceOf(img[..h], Flatten(files), img, a, b); }
    }
  }

  /** The kernel accepts a built image exactly if it holds a file and at least as many data bytes as files. */
  lemma SoundExactly(files: seq<File>)
    requires Fits(files)
    ensures Sound(ImageBytes(files)) <==> |files| >= 1 && |Flatten(files)| >= |files|
  {
    hide WordAt, ImageBytes, CrcFold;
    ImageWords(files, 0);
    ImageWords(files, 1);
    ImageWords(files, 2);
    ImageShape(files);
    var n, d := |files|, |Flatten(files)|;
    assert |ImageBytes(files)| == 24 + 8 * n + d;
    if n == 0 {
      assert d == 0;
    }
  }
}
