/** Bytes, little-endian numbers, C strings, and reads and writes at an offset of a file. */
module Bytes {
  datatype Option<+T> = None | Some(value: T)

  /** The source's `char`, `unsigned char` and `uint8_t`: an unsigned byte. */
  type byte = x: int | 0 <= x < 0x100

  type bytes = seq<byte>

  /** An unsigned 32-bit number. */
  type word = x: int | 0 <= x < 0x1_0000_0000

  function Min(a: int, b: int): int { if a <= b then a else b }

  function Zeros(n: nat): (z: bytes)
    ensures |z| == n
  {
    seq(n, i => 0)
  }

  // ----- little-endian numbers -----

  /** The unsigned int stored in four bytes. */
  function Word(s: bytes): (w: word)
    requires |s| == 4
  {
    var a: int, b: int, c: int, d: int := s[0], s[1], s[2], s[3];
    a + 0x100 * (b + 0x100 * (c + 0x100 * d))
  }

  function WordBytes(w: word): (s: bytes)
    ensures |s| == 4
  {
    var w1 := w / 0x100;
    var w2 := w1 / 0x100;
    [w % 0x100, w1 % 0x100, w2 % 0x100, w2 / 0x100]
  }

  lemma WordRoundTrip(w: word)
    ensures Word(WordBytes(w)) == w
  {
    var w1 := w / 0x100;
    var w2 := w1 / 0x100;
    assert w == w % 0x100 + 0x100 * w1;
    assert w1 == w1 % 0x100 + 0x100 * w2;
    assert w2 == w2 % 0x100 + 0x100 * (w2 / 0x100);
  }

  lemma WordBytesRoundTrip(s: bytes)
    requires |s| == 4
    ensures WordBytes(Word(s)) == s
  {
    var b: int, c: int, d: int := s[1], s[2], s[3];
    var w2 := c + 0x100 * d;
    var w1 := b + 0x100 * w2;
    assert Word(s) / 0x100 == w1 && Word(s) % 0x100 == s[0];
    assert w1 / 0x100 == w2 && w1 % 0x100 == s[1];
  }

  /** A number by its bytes, the low one first. */
  function LittleEndian(s: bytes): nat { if s == [] then 0 else s[0] + 0x100 * LittleEndian(s[1..]) }

  lemma WordIsLittleEndian(s: bytes)
    requires |s| == 4
    ensures Word(s) == LittleEndian(s)
  {
    var b, c, d := s[1..], s[2..], s[3..];
    assert b[1..] == c && c[1..] == d && d[1..] == [];
    assert LittleEndian(d) == d[0] + 0x100 * LittleEndian([]);
    assert LittleEndian(c) == c[0] + 0x100 * LittleEndian(d);
    assert LittleEndian(b) == b[0] + 0x100 * LittleEndian(c);
  }

  // ----- C strings -----

  /** The bytes of `s` before its first zero byte. */
  function CString(s: bytes): (c: bytes)
    ensures |c| <= |s| && 0 !in c && c == s[..|c|]
    ensures |c| < |s| ==> s[|c|] == 0
  {
    if s == [] || s[0] == 0 then [] else [s[0]] + CString(s[1..])
  }

  /** A string of exactly this content in a zero-filled buffer reads back as itself. */
  lemma {:induction false} CStringOfPadded(c: bytes, n: nat)
    requires 0 !in c
    ensures CString(c + Zeros(n)) == c
  {
    if c == [] {
      assert c + Zeros(n) == Zeros(n);
    } else {
      assert (c + Zeros(n))[1..] == c[1..] + Zeros(n);
      CStringOfPadded(c[1..], n);
    }
  }

  // ----- parts of parts -----

  /** A part of a part is a part of the whole. */
  lemma PartOfPart(s: bytes, lo: nat, hi: nat, a: nat, b: nat)
    requires lo <= hi <= |s| && a <= b <= hi - lo
    ensures s[lo..hi][a..b] == s[lo + a..lo + b]
  {
    var x, y := s[lo..hi][a..b], s[lo + a..lo + b];
    assert |x| == |y|;
    forall i | 0 <= i < |x|
      ensures x[i] == y[i]
    {
      assert x[i] == s[lo..hi][a + i];
    }
  }

  // ----- files -----

  /** The file with one byte replaced. */
  function WithByte(file: bytes, k: nat, v: byte): bytes
    requires k < |file|
  {
    file[k := v]
  }

  /** What `pread(fd, buf, n, offset)` puts in `buf`: fewer than `n` bytes at the end of the file. */
  function PRead(file: bytes, offset: nat, n: nat): (s: bytes)
    ensures |s| == if offset >= |file| then 0 else Min(n, |file| - offset)
  {
    if offset >= |file| then [] else file[offset..Min(offset + n, |file|)]
  }

  /** The file after `pwrite(fd, data, |data|, offset)`: a gap past the end is filled with zeros. */
  function PWrite(file: bytes, offset: nat, data: bytes): (s: bytes)
    ensures |s| == if |data| == 0 || offset + |data| <= |file| then |file| else offset + |data|
  {
    if data == [] then file
    else if offset > |file| then file + Zeros(offset - |file|) + data
    else if offset + |data| >= |file| then file[..offset] + data
    else file[..offset] + data + file[offset + |data|..]
  }

  /** A write inside a file, piece by piece. */
  lemma WriteInside(file: bytes, offset: nat, data: bytes)
    requires offset + |data| <= |file|
    ensures var after, end := PWrite(file, offset, data), offset + |data|;
            && after == file[..offset] + data + file[end..] && |after| == |file|
            && after[..offset] == file[..offset] && after[offset..end] == data && after[end..] == file[end..]
  {
    var after, end := PWrite(file, offset, data), offset + |data|;
    if data != [] {
      assert after == file[..offset] + data + file[end..];
    }
  }

  /** A read inside a file. */
  lemma ReadInside(file: bytes, offset: nat, n: nat)
    requires offset + n <= |file|
    ensures PRead(file, offset, n) == file[offset..offset + n]
  {
  }
}
