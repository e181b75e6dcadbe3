/** Pages of a device: reads and writes of equally sized pages behind a base address, and the journal
    structure in a page. */
module Pages {
  import opened Bytes

  // ----- nvram_journal_handle_t -----

  /** sizeof(nvram_journal_handle_t), and what follows its magic, type and sequence number. */
  const HANDLE_SIZE := 512
  const BODY_SIZE := 500

  const SUPER_PAGE: word := 0
  const LOG_PAGE: word := 1

  /** A journal structure in a zero-filled page. */
  function JournalPage(size: nat, magic: word, kind: word, q: word, body: bytes): (page: bytes)
    requires size >= HANDLE_SIZE && |body| == BODY_SIZE
    ensures |page| == size
  {
    WordBytes(magic) + WordBytes(kind) + WordBytes(q) + body + Zeros(size - HANDLE_SIZE)
  }

  /** The sequence number in a page; without the magic it counts as zero. */
  function SequenceIn(magic: word, page: bytes): word
    requires |page| >= HANDLE_SIZE
  {
    if Word(page[..4]) == magic then Word(page[8..12]) else 0
  }

  /** The fields of a written page read back. */
  lemma JournalPageFields(size: nat, magic: word, kind: word, q: word, body: bytes)
    requires size >= HANDLE_SIZE && |body| == BODY_SIZE
    ensures var page := JournalPage(size, magic, kind, q, body);
            && Word(page[..4]) == magic && Word(page[4..8]) == kind && Word(page[8..12]) == q
            && page[12..HANDLE_SIZE] == body
  {
    WordRoundTrip(magic);
    WordRoundTrip(kind);
    WordRoundTrip(q);
    var page := JournalPage(size, magic, kind, q, body);
    assert page[..4] == WordBytes(magic);
    assert page[4..8] == WordBytes(kind);
    assert page[8..12] == WordBytes(q);
  }

  lemma StartOfRead(dev: bytes, offset: nat, n: nat)
    requires offset + n <= |dev| && n >= 4
    ensures PRead(dev, offset, n)[..4] == PRead(dev, offset, 4)
  {
  }

  /** A page without the magic counts as number zero. */
  lemma NoMagicIsZero(magic: word, page: bytes)
    requires |page| >= HANDLE_SIZE && page[..4] != WordBytes(magic)
    ensures SequenceIn(magic, page) == 0
  {
    WordBytesRoundTrip(page[..4]);
  }

  /** What one log call writes behind the fixed part of each of the two pages: time, function, line and
      text in the record, the time alone in the super page. */
  datatype Entry = Entry(body: bytes, superBody: bytes) {
    predicate Valid() { |body| == BODY_SIZE && |superBody| == BODY_SIZE }
  }

  predicate AllValid(es: seq<Entry>) { forall i | 0 <= i < |es| :: es[i].Valid() }

  // ----- pages -----

  /** How many pages of `writeSize` tile a block of `eraseSize`. */
  function PagesIn(eraseSize: nat, writeSize: nat): (w: nat)
    requires 0 < writeSize && 0 < eraseSize && eraseSize % writeSize == 0
    ensures w > 0 && writeSize * w == eraseSize
  {
    eraseSize / writeSize
  }

  function Filled(n: nat): (s: bytes)
    ensures |s| == n
  {
    seq(n, i => 0xFF)
  }

  /** Page `k` behind `base`. */
  function PageAt(dev: bytes, base: nat, size: nat, k: nat): bytes { PRead(dev, base + size * k, size) }

  /** What was written is read back. */
  lemma ReadBack(dev: bytes, offset: nat, data: bytes)
    requires offset + |data| <= |dev|
    ensures PRead(PWrite(dev, offset, data), offset, |data|) == data
  {
    hide PRead, PWrite;
    WriteInside(dev, offset, data);
    ReadInside(PWrite(dev, offset, data), offset, |data|);
  }

  /** Reads of devices that agree up to `end`. */
  lemma ReadBefore(a: bytes, b: bytes, end: nat, from: nat, n: nat)
    requires |a| == |b| && end <= |a| && a[..end] == b[..end] && from + n <= end
    ensures PRead(a, from, n) == PRead(b, from, n)
  {
    hide PRead;
    ReadInside(a, from, n);
    ReadInside(b, from, n);
    PartOfPart(a, 0, end, from, from + n);
    PartOfPart(b, 0, end, from, from + n);
    assert a[0..end] == a[..end] && b[0..end] == b[..end];
  }

  /** Reads of devices that agree from `start` on. */
  lemma ReadBehind(a: bytes, b: bytes, start: nat, from: nat, n: nat)
    requires |a| == |b| && start <= |a| && a[start..] == b[start..] && start <= from
    ensures PRead(a, from, n) == PRead(b, from, n)
  {
    if from < |a| {
      var end := Min(from + n, |a|);
      PartOfPart(a, start, |a|, from - start, end - start);
      PartOfPart(b, start, |b|, from - start, end - start);
      assert a[start..|a|] == a[start..] && b[start..|b|] == b[start..];
    }
  }

  /** A read beside a write. */
  lemma ReadApart(dev: bytes, offset: nat, data: bytes, from: nat, n: nat)
    requires offset + |data| <= |dev|
    requires from + n <= offset || offset + |data| <= from
    ensures PRead(PWrite(dev, offset, data), from, n) == PRead(dev, from, n)
  {
    hide PRead, PWrite;
    WriteInside(dev, offset, data);
    if from + n <= offset {
      ReadBefore(PWrite(dev, offset, data), dev, offset, from, n);
    } else {
      ReadBehind(PWrite(dev, offset, data), dev, offset + |data|, from, n);
    }
  }

  /** A read of part of what was written. */
  lemma ReadWithin(dev: bytes, offset: nat, data: bytes, from: nat, n: nat)
    requires offset + |data| <= |dev|
    requires offset <= from && from + n <= offset + |data|
    ensures PRead(PWrite(dev, offset, data), from, n) == data[from - offset..from - offset + n]
  {
    hide PRead, PWrite;
    var after, end := PWrite(dev, offset, data), offset + |data|;
    WriteInside(dev, offset, data);
    ReadInside(after, from, n);
    PartOfPart(after, offset, end, from - offset, from - offset + n);
  }

  /** Page `j` ends where or before page `k` begins. */
  lemma {:induction false} PagesApart(size: nat, j: nat, k: nat)
    requires j < k
    ensures size * j + size <= size * k
    decreases k
  {
    assert size * k == size * (k - 1) + size;
    if j < k - 1 {
      PagesApart(size, j, k - 1);
    }
  }

  /** Writing one page leaves every other page as it was. */
  lemma WriteOnePage(dev: bytes, base: nat, k: nat, page: bytes, j: nat)
    requires base + |page| * k + |page| <= |dev|
    ensures PageAt(PWrite(dev, base + |page| * k, page), base, |page|, j)
         == if j == k then page else PageAt(dev, base, |page|, j)
  {
    hide PRead, PWrite;
    var size := |page|;
    if j == k {
      ReadBack(dev, base + size * k, page);
    } else {
      if j < k { PagesApart(size, j, k); } else { PagesApart(size, k, j); }
      ReadApart(dev, base + size * k, page, base + size * j, size);
    }
  }

  lemma Distribute(a: nat, b: nat, c: nat)
    ensures a * (b + c) == a * b + a * c
  {
  }

  lemma FilledPart(n: nat, a: nat, size: nat)
    requires a + size <= n
    ensures Filled(n)[a..a + size] == Filled(size)
  {
  }

  /** Filling a run of `n` whole pages from page `k` on fills each of them. */
  lemma FillsPages(dev: bytes, base: nat, size: nat, k: nat, n: nat, length: nat, j: nat)
    requires length == size * n && base + size * k + length <= |dev|
    requires k <= j < k + n
    ensures PageAt(PWrite(dev, base + size * k, Filled(length)), base, size, j) == Filled(size)
  {
    Distribute(size, k, n);
    PagesApart(size, j, k + n);
    Distribute(size, k, j - k);
    var start, from := base + size * k, base + size * j;
    ReadWithin(dev, start, Filled(length), from, size);
    FilledPart(length, from - start, size);
  }

  lemma RunApart(size: nat, k: nat, n: nat, j: nat)
    requires j < k || k + n <= j
    ensures size * j + size <= size * k || size * k + size * n <= size * j
  {
    if j < k {
      PagesApart(size, j, k);
    } else {
      Distribute(size, k, n);
      Distribute(size, k + n, j - (k + n));
    }
  }

  /** ... and leaves every other page as it was. */
  lemma FillSparesPages(dev: bytes, base: nat, size: nat, k: nat, n: nat, length: nat, j: nat)
    requires length == size * n && base + size * k + length <= |dev|
    requires j < k || k + n <= j
    ensures PageAt(PWrite(dev, base + size * k, Filled(length)), base, size, j) == PageAt(dev, base, size, j)
  {
    hide PRead, PWrite, Filled;
    RunApart(size, k, n, j);
    var start, from := base + size * k, base + size * j;
    assert from + size <= start || start + length <= from;
    ReadApart(dev, start, Filled(length), from, size);
  }

  /** Filling the last block, from page `k` to the end, and writing its first page changes no page before. */
  lemma RewriteLastBlock(dev: bytes, base: nat, size: nat, k: nat, n: nat, length: nat, page: bytes, fill: bool, j: nat)
    requires length == size * n && base + size * k + length == |dev| && |page| == size && n > 0 && j < k
    ensures var erased := if fill then PWrite(dev, base + size * k, Filled(length)) else dev;
            PageAt(PWrite(erased, base + size * k, page), base, size, j) == PageAt(dev, base, size, j)
  {
    hide PRead, PWrite, Filled, PageAt;
    var start := base + size * k;
    if fill {
      FillSparesPages(dev, base, size, k, n, length, j);
      WriteInside(dev, start, Filled(length));
    }
    PagesApart(size, 0, n);
    WriteOnePage(if fill then PWrite(dev, start, Filled(length)) else dev, base, k, page, j);
  }

  /** A page number counted through a ring of `n` blocks of `w` pages. */
  lemma RingIndex(w: nat, n: nat, q: nat)
    requires w > 0 && n > 0
    ensures w * n > 0 && q % (w * n) == w * (q / w % n) + q % w < w * n
  {
    var a, b, c := q / w, q / w % n, q / w / n;
    assert a == n * c + b;
    assert q == w * a + q % w;
    assert w * a == w * (n * c) + w * b;
    assert w * (n * c) == (w * n) * c;
    PagesApart(w, b, n);
    var rest := w * b + q % w;
    assert q == (w * n) * c + rest;
    ModUnique(w * n, c, rest);
  }

  lemma ModUnique(m: nat, c: nat, rest: nat)
    requires rest < m
    ensures (m * c + rest) % m == rest && (m * c + rest) / m == c
  {
    var q, r := (m * c + rest) / m, (m * c + rest) % m;
    assert m * c + rest == m * q + r;
    if q < c {
      PagesApart(m, q, c);
    } else if q > c {
      PagesApart(m, c, q);
    }
  }

  /** Two numbers less than a ring apart sit at different places of it. */
  lemma RingDistinct(n: nat, a: nat, b: nat)
    requires a < b < a + n
    ensures a % n != b % n
  {
    var qa, qb := a / n, b / n;
    assert a == n * qa + a % n && b == n * qb + b % n;
    if a % n == b % n {
      assert b - a == n * qb - n * qa == n * (qb - qa);
      if qb > qa { PagesApart(n, qa, qb); } else if qb < qa { PagesApart(n, qb, qa); }
    }
  }

  /** A number and the one a whole ring later sit at the same place. */
  lemma RingRepeats(n: nat, a: nat)
    requires n > 0
    ensures (a + n) % n == a % n
  {
    assert a + n == n * (a / n + 1) + a % n by {
      assert n * (a / n + 1) == n * (a / n) + n;
    }
    ModUnique(n, a / n + 1, a % n);
  }
}
