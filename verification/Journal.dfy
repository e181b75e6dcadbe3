/** The history log: a ring of pages over several erase blocks at the device's end, the sequence number
    in a super page in the last block. */
module Journal {
  import opened Bytes
  import opened Pages

  const JOURNAL_MAGIC: word := 0x5a5a7b7b

  /** What the device reports, nvram_platform_log_block, and whether blocks must be erased. */
  datatype Ring = Ring(size: nat, eraseSize: nat, writeSize: nat, logBlocks: nat, nand: bool) {
    /** The check the functions make before they touch the device. */
    predicate Usable() { writeSize >= HANDLE_SIZE && size > 0 }

    /** Pages tile an erase block; the log blocks are on the device, one of them for the super page. */
    predicate Valid() {
      && Usable() && eraseSize > 0 && eraseSize % writeSize == 0
      && logBlocks >= 2 && eraseSize * logBlocks <= size
    }

    function PagesPerBlock(): (w: nat)
      requires Valid()
      ensures w > 0 && writeSize * w == eraseSize
    {
      PagesIn(eraseSize, writeSize)
    }

    function Start(): nat
      requires Valid()
    {
      size - eraseSize * logBlocks
    }

    /** The last block, whose first page is the super page. */
    function LastBlock(): (offset: nat)
      requires Valid()
      ensures offset + eraseSize == size && Start() <= offset
    {
      PagesApart(eraseSize, 0, logBlocks);
      size - eraseSize
    }

    /** How many log pages there are before the ring starts over. */
    function LogPages(): nat
      requires Valid()
    {
      PagesPerBlock() * (logBlocks - 1)
    }

    /** The page of the ring that the record numbered `q` is written to. */
    function Slot(q: nat): (k: nat)
      requires Valid()
      ensures k < LogPages()
    {
      RingIndex(PagesPerBlock(), logBlocks - 1, q);
      q % LogPages()
    }
  }

  /** A journal structure in a zero-filled page. */
  function Page(r: Ring, kind: word, q: word, body: bytes): (page: bytes)
    requires r.Usable() && |body| == BODY_SIZE
    ensures |page| == r.writeSize
  {
    JournalPage(r.writeSize, JOURNAL_MAGIC, kind, q, body)
  }

  /** NVM_GetSequenceNum: a super page without the magic counts as zero. */
  function Sequence(r: Ring, dev: bytes): word
    requires r.Valid() && |dev| == r.size
  {
    var page := PRead(dev, r.LastBlock(), r.writeSize);
    SequenceIn(JOURNAL_MAGIC, page)
  }

  // ----- the device as pages behind the start of the log -----

  /** Page `k` of the log blocks; the super page is page `LogPages()`. */
  function LogPage(r: Ring, dev: bytes, k: nat): bytes
    requires r.Valid()
  {
    PageAt(dev, r.Start(), r.writeSize, k)
  }

  /** The record numbered `q` is at its slot. */
  predicate Holds(r: Ring, dev: bytes, q: word, body: bytes)
    requires r.Valid() && |body| == BODY_SIZE
  {
    LogPage(r, dev, r.Slot(q)) == Page(r, LOG_PAGE, q, body)
  }

  /** The device after the block starting at log page `k` is erased. */
  function EraseFrom(r: Ring, dev: bytes, k: nat): bytes
    requires r.Valid()
  {
    PWrite(dev, r.Start() + r.writeSize * k, Filled(r.eraseSize))
  }

  /** The device after log page `k` is written. */
  function WritePage(r: Ring, dev: bytes, k: nat, page: bytes): bytes
    requires r.Valid()
  {
    PWrite(dev, r.Start() + r.writeSize * k, page)
  }

  /** On NAND the block is erased before its first page is written. */
  function Prepared(r: Ring, dev: bytes, q: nat): bytes
    requires r.Valid()
  {
    if r.nand && q % r.PagesPerBlock() == 0 then EraseFrom(r, dev, r.Slot(q)) else dev
  }

  /** NVM_IncSequenceNum: the super page rewritten with the next number. */
  function Advanced(r: Ring, dev: bytes, q: word, body: bytes): (after: bytes)
    requires r.Valid() && |dev| == r.size && |body| == BODY_SIZE
    ensures |after| == r.size
  {
    var erased := if r.nand then PWrite(dev, r.LastBlock(), Filled(r.eraseSize)) else dev;
    PagesApart(r.writeSize, 0, r.PagesPerBlock());
    PWrite(erased, r.LastBlock(), Page(r, SUPER_PAGE, (q + 1) % 0x1_0000_0000, body))
  }

  /** The device after a log call that writes. */
  function Logged(r: Ring, dev: bytes, e: Entry): (after: bytes)
    requires r.Valid() && |dev| == r.size && e.Valid()
    ensures |after| == r.size
  {
    var q := Sequence(r, dev);
    Advanced(r, Recorded(r, dev, q, e.body), q, e.superBody)
  }

  /** The device after the record itself is written. */
  function Recorded(r: Ring, dev: bytes, q: word, body: bytes): (after: bytes)
    requires r.Valid() && |dev| == r.size && |body| == BODY_SIZE
    ensures |after| == r.size
  {
    PreparedSize(r, dev, q);
    PagesOnDevice(r, r.Slot(q));
    WritePage(r, Prepared(r, dev, q), r.Slot(q), Page(r, LOG_PAGE, q, body))
  }

  /** The journal device, written in place. */
  class Device {
    const ring: Ring
    var content: bytes

    constructor (ring: Ring, content: bytes)
      requires |content| == ring.size
      ensures this.ring == ring && this.content == content
    {
      this.ring, this.content := ring, content;
    }

    /** NVM_GetSequenceNum on a device that reads without error. */
    method GetSequenceNum() returns (sequence: word)
      requires ring.Valid() && |content| == ring.size
      ensures sequence == Sequence(ring, content)
    {
      hide Word;
      var offset := ring.LastBlock();
      var buffer := PRead(content, offset, ring.writeSize);
      var magic := Word(buffer[..4]);
      sequence := if magic == JOURNAL_MAGIC then Word(buffer[8..12]) else 0;
    }

    /** NVM_EraseDeviceBlock. */
    method EraseDeviceBlock(start: nat, length: nat)
      requires start + length <= |content|
      modifies this
      ensures content == PWrite(old(content), start, Filled(length))
    {
      content := PWrite(content, start, Filled(length));
    }

    /** NVM_IncSequenceNum. */
    method IncSequenceNum(sequence: word, body: bytes)
      requires ring.Valid() && |content| == ring.size && |body| == BODY_SIZE
      modifies this
      ensures content == Advanced(ring, old(content), sequence, body)
    {
      var next := (sequence + 1) % 0x1_0000_0000;
      var offset := ring.size - ring.eraseSize;
      if ring.nand {
        EraseDeviceBlock(offset, ring.eraseSize);
      }
      content := PWrite(content, offset, Page(ring, SUPER_PAGE, next, body));
    }

    /** The record's page, on NAND after its block is erased when the record starts one. */
    method WriteRecord(sequence: word, body: bytes)
      requires ring.Valid() && |content| == ring.size && |body| == BODY_SIZE
      modifies this
      ensures content == Recorded(ring, old(content), sequence, body)
    {
      hide PWrite, JournalPage, Filled;
      RecordAddress(ring, sequence);
      var writePagesPerBlock := ring.eraseSize / ring.writeSize;
      var startAddress := ring.size - ring.logBlocks * ring.eraseSize;
      var offset := ring.writeSize * (sequence % (writePagesPerBlock * (ring.logBlocks - 1)));
      if ring.nand {
        if sequence % writePagesPerBlock == 0 {
          BlockOnDevice(ring, sequence);
          EraseDeviceBlock(startAddress + offset, ring.eraseSize);
        }
      }
      content := PWrite(content, startAddress + offset, Page(ring, LOG_PAGE, sequence, body));
    }

    /** NVM_HistoryLog: entries below the default level are dropped, and a device whose pages cannot
        take a journal structure is refused. */
    method HistoryLog(level: nat, e: Entry) returns (ok: bool)
      requires |content| == ring.size && e.Valid()
      requires ring.writeSize >= 512 && ring.size > 0 ==> ring.Valid()
      modifies this
      ensures ok == (level < 1 || (ring.writeSize >= 512 && ring.size > 0))
      ensures content == if level >= 1 && ring.writeSize >= 512 && ring.size > 0 then Logged(ring, old(content), e) else old(content)
    {
      hide Recorded, Advanced, Sequence;
      if level < 1 {
        return true;
      }
      if ring.writeSize < HANDLE_SIZE || ring.size == 0 {
        return false;
      }
      var sequence := GetSequenceNum();
      WriteRecord(sequence, e.body);
      IncSequenceNum(sequence, e.superBody);
      ok := true;
    }
  }

  // ----- where the pages are -----

  /** The numbers the code computes for a record's place. */
  lemma RecordAddress(r: Ring, q: nat)
    requires r.Valid()
    ensures r.eraseSize / r.writeSize == r.PagesPerBlock() && r.PagesPerBlock() * (r.logBlocks - 1) > 0
    ensures r.size - r.logBlocks * r.eraseSize == r.Start()
    ensures q % (r.PagesPerBlock() * (r.logBlocks - 1)) == r.Slot(q)
  {
    RingIndex(r.PagesPerBlock(), r.logBlocks - 1, q);
  }

  /** The last block of the device follows the last log page. */
  lemma SuperPageIsLastBlock(r: Ring)
    requires r.Valid()
    ensures r.Start() + r.writeSize * r.LogPages() == r.LastBlock()
  {
    var w := r.PagesPerBlock();
    assert r.writeSize * (w * (r.logBlocks - 1)) == (r.writeSize * w) * (r.logBlocks - 1);
    assert r.eraseSize * (r.logBlocks - 1) == r.eraseSize * r.logBlocks - r.eraseSize;
  }

  /** Each log page lies between the start of the log and the super page's block. */
  lemma PagesOnDevice(r: Ring, k: nat)
    requires r.Valid() && k < r.LogPages()
    ensures r.Start() + r.writeSize * k + r.writeSize <= r.LastBlock()
  {
    SuperPageIsLastBlock(r);
    PagesApart(r.writeSize, k, r.LogPages());
  }

  /** Where a record goes: block by block around the ring, page by page within a block. */
  lemma SlotParts(r: Ring, q: nat)
    requires r.Valid()
    ensures var w := r.PagesPerBlock();
            r.Slot(q) == w * (q / w % (r.logBlocks - 1)) + q % w
  {
    RingIndex(r.PagesPerBlock(), r.logBlocks - 1, q);
  }

  /** An erased block is one of the log's own blocks, all of it before the super page's block, and the
      erase starts at a block boundary. */
  lemma BlockOnDevice(r: Ring, q: nat)
    requires r.Valid() && q % r.PagesPerBlock() == 0
    ensures r.Start() + r.writeSize * r.Slot(q) + r.eraseSize <= r.LastBlock()
    ensures r.writeSize * r.Slot(q) == r.eraseSize * (q / r.PagesPerBlock() % (r.logBlocks - 1))
  {
    var w, n := r.PagesPerBlock(), r.logBlocks - 1;
    var b := q / w % n;
    SlotParts(r, q);
    assert r.writeSize * (w * b) == (r.writeSize * w) * b;
    PagesApart(r.eraseSize, b, n);
    assert r.eraseSize * n == r.eraseSize * r.logBlocks - r.eraseSize;
  }

  lemma PreparedSize(r: Ring, dev: bytes, q: nat)
    requires r.Valid() && |dev| == r.size
    ensures |Prepared(r, dev, q)| == r.size
  {
    if r.nand && q % r.PagesPerBlock() == 0 {
      BlockOnDevice(r, q);
    }
  }

  // ----- one log call -----

  /** Erasing before a write leaves the pages of other blocks alone and fills those of this one. */
  lemma PreparedPages(r: Ring, dev: bytes, q: nat, j: nat)
    requires r.Valid() && |dev| == r.size
    ensures var w := r.PagesPerBlock();
            LogPage(r, Prepared(r, dev, q), j)
            == if r.nand && q % w == 0 && r.Slot(q) <= j < r.Slot(q) + w then Filled(r.writeSize)
               else LogPage(r, dev, j)
  {
    var w := r.PagesPerBlock();
    if r.nand && q % w == 0 {
      BlockOnDevice(r, q);
      if r.Slot(q) <= j < r.Slot(q) + w {
        FillsPages(dev, r.Start(), r.writeSize, r.Slot(q), w, r.eraseSize, j);
      } else {
        FillSparesPages(dev, r.Start(), r.writeSize, r.Slot(q), w, r.eraseSize, j);
      }
    }
  }

  /** Counting up touches no log page. */
  lemma AdvancedPages(r: Ring, dev: bytes, q: word, body: bytes, j: nat)
    requires r.Valid() && |dev| == r.size && |body| == BODY_SIZE && j < r.LogPages()
    ensures LogPage(r, Advanced(r, dev, q, body), j) == LogPage(r, dev, j)
  {
    hide PRead, PWrite, JournalPage, Filled, PageAt;
    SuperPageIsLastBlock(r);
    RewriteLastBlock(dev, r.Start(), r.writeSize, r.LogPages(), r.PagesPerBlock(), r.eraseSize,
                     Page(r, SUPER_PAGE, (q + 1) % 0x1_0000_0000, body), r.nand, j);
  }

  /** The page written holds the record, the rest of an erased block is blank, every other page is kept. */
  lemma LoggedPages(r: Ring, dev: bytes, e: Entry, j: nat)
    requires r.Valid() && |dev| == r.size && e.Valid() && j < r.LogPages()
    ensures var q, w := Sequence(r, dev), r.PagesPerBlock();
            LogPage(r, Logged(r, dev, e), j)
            == if j == r.Slot(q) then Page(r, LOG_PAGE, q, e.body)
               else if r.nand && q % w == 0 && r.Slot(q) <= j < r.Slot(q) + w then seq(r.writeSize, i => 0xFF)
               else LogPage(r, dev, j)
  {
    hide PWrite, PRead, JournalPage;
    var q := Sequence(r, dev);
    PreparedSize(r, dev, q);
    PreparedPages(r, dev, q, j);
    PagesOnDevice(r, r.Slot(q));
    WriteOnePage(Prepared(r, dev, q), r.Start(), r.Slot(q), Page(r, LOG_PAGE, q, e.body), j);
    AdvancedPages(r, Recorded(r, dev, q, e.body), q, e.superBody, j);
  }

  /** The super page written is read back. */
  lemma AdvancedSequence(r: Ring, dev: bytes, q: word, body: bytes)
    requires r.Valid() && |dev| == r.size && |body| == BODY_SIZE
    ensures |Advanced(r, dev, q, body)| == r.size
    ensures Sequence(r, Advanced(r, dev, q, body)) == (q + 1) % 0x1_0000_0000
  {
    hide PWrite, PRead, JournalPage;
    var next: word := (q + 1) % 0x1_0000_0000;
    var erased := if r.nand then PWrite(dev, r.LastBlock(), Filled(r.eraseSize)) else dev;
    ReadBack(erased, r.LastBlock(), Page(r, SUPER_PAGE, next, body));
    JournalPageFields(r.writeSize, JOURNAL_MAGIC, SUPER_PAGE, next, body);
  }

  /** Each log call that writes counts up by one. */
  lemma LoggedSequence(r: Ring, dev: bytes, e: Entry)
    requires r.Valid() && |dev| == r.size && e.Valid()
    ensures Sequence(r, Logged(r, dev, e)) == (Sequence(r, dev) + 1) % 0x1_0000_0000
  {
    var q := Sequence(r, dev);
    PreparedSize(r, dev, q);
    PagesOnDevice(r, r.Slot(q));
    AdvancedSequence(r, Recorded(r, dev, q, e.body), q, e.superBody);
  }

  // ----- whole runs -----

  /** The device after these log calls, oldest first. */
  function Run(r: Ring, dev: bytes, es: seq<Entry>): (after: bytes)
    requires r.Valid() && |dev| == r.size && AllValid(es)
    ensures |after| == r.size
  {
    if es == [] then dev else Logged(r, Run(r, dev, es[..|es| - 1]), es[|es| - 1])
  }

  /** Below the wrap, the sequence number counts the log calls. */
  lemma {:induction false} SequenceCounts(r: Ring, dev: bytes, es: seq<Entry>)
    requires r.Valid() && |dev| == r.size && AllValid(es)
    requires Sequence(r, dev) + |es| < 0x1_0000_0000
    ensures Sequence(r, Run(r, dev, es)) == Sequence(r, dev) + |es|
  {
    hide Logged;
    if es != [] {
      var before, e := Run(r, dev, es[..|es| - 1]), es[|es| - 1];
      SequenceCounts(r, dev, es[..|es| - 1]);
      LoggedSequence(r, before, e);
      assert Run(r, dev, es) == Logged(r, before, e);
    }
  }

  /** On a device whose super page does not start with the magic, counting starts at zero: after a run the number is
      that of the calls, and the `i`-th record is at its slot, from the first page on, for as long as it survives. */
  lemma FreshDevice(r: Ring, dev: bytes, es: seq<Entry>, i: nat)
    requires r.Valid() && |dev| == r.size && AllValid(es) && i < |es| < 0x1_0000_0000
    requires PRead(dev, r.LastBlock(), 4) != [0x7b, 0x7b, 0x5a, 0x5a]
    ensures Sequence(r, Run(r, dev, es)) == |es|
    ensures Holds(r, Run(r, dev, es), i, es[i].body) <==> Survives(r, i, |es|)
  {
    hide Run, Holds, Survives, Sequence, PRead, SequenceIn, Word;
    FreshIsZero(r, dev);
    SequenceCounts(r, dev, es);
    Retention(r, dev, es, i);
  }

  lemma FreshIsZero(r: Ring, dev: bytes)
    requires r.Valid() && |dev| == r.size && PRead(dev, r.LastBlock(), 4) != [0x7b, 0x7b, 0x5a, 0x5a]
    ensures Sequence(r, dev) == 0
  {
    hide SequenceIn, Word;
    PagesApart(r.writeSize, 0, r.PagesPerBlock());
    var page := PRead(dev, r.LastBlock(), r.writeSize);
    StartOfRead(dev, r.LastBlock(), r.writeSize);
    NoMagicIsZero(JOURNAL_MAGIC, page);
  }

  /** Whether the record numbered `q` is still there when `next` is the next number: without erasing,
      the whole ring holds; with erasing, a block lasts until the ring comes back to it. */
  predicate Survives(r: Ring, q: nat, next: nat)
    requires r.Valid() && q < next
  {
    var w := r.PagesPerBlock();
    if r.nand then (next - 1) / w - q / w <= r.logBlocks - 2 else next - q <= r.LogPages()
  }

  /** Whether the call that writes the record numbered `next` erases or writes over the slot of `q`. */
  predicate Hits(r: Ring, q: nat, next: nat)
    requires r.Valid()
  {
    var w := r.PagesPerBlock();
    || r.Slot(q) == r.Slot(next)
    || (r.nand && next % w == 0 && r.Slot(next) <= r.Slot(q) < r.Slot(next) + w)
  }

  /** What is hit is lost, what is not hit is kept. */
  lemma HitIsLost(r: Ring, dev: bytes, e: Entry, q: word, body: bytes)
    requires r.Valid() && |dev| == r.size && e.Valid() && |body| == BODY_SIZE
    requires q != Sequence(r, dev)
    ensures Holds(r, Logged(r, dev, e), q, body)
            <==> Holds(r, dev, q, body) && !Hits(r, q, Sequence(r, dev))
  {
    LoggedPages(r, dev, e, r.Slot(q));
    JournalPageFields(r.writeSize, JOURNAL_MAGIC, LOG_PAGE, q, body);
    JournalPageFields(r.writeSize, JOURNAL_MAGIC, LOG_PAGE, Sequence(r, dev), e.body);
  }

  /** A surviving record is hit by the call that ends its life, and by no other. */
  lemma HitEndsLife(r: Ring, q: nat, next: nat)
    requires r.Valid() && q < next
    ensures Survives(r, q, next + 1) <==> Survives(r, q, next) && !Hits(r, q, next)
  {
    if r.nand {
      var w := r.PagesPerBlock();
      NextBlock(w, next);
      if Survives(r, q, next) {
        NandStep(r, q, next);
      }
    } else if next - q < r.LogPages() {
      RingDistinct(r.LogPages(), q, next);
    } else if next - q == r.LogPages() {
      RingRepeats(r.LogPages(), q);
    }
  }

  /** With erasing: a surviving record's block is neither erased nor written over; the call that ends
      its life erases its block. */
  lemma NandStep(r: Ring, q: nat, next: nat)
    requires r.Valid() && q < next && Survives(r, q, next) && r.nand
    ensures Hits(r, q, next) <==> !Survives(r, q, next + 1)
  {
    SlotParts(r, q);
    SlotParts(r, next);
    RingHits(r.PagesPerBlock(), r.logBlocks - 1, q, next, r.Slot(q), r.Slot(next));
  }

  lemma RingHits(w: nat, n: nat, q: nat, next: nat, sq: nat, sn: nat)
    requires w > 0 && n > 0 && q < next && (next - 1) / w - q / w < n
    requires sq == w * (q / w % n) + q % w && sn == w * (next / w % n) + next % w
    ensures sq == sn || (next % w == 0 && sn <= sq < sn + w) <==> next / w - q / w >= n
  {
    OnceAround(w, n, q, next);
    BlockHits(w, n, q / w, next / w, q % w, next % w, sq, sn);
  }

  lemma OnceAround(w: nat, n: nat, q: nat, next: nat)
    requires w > 0 && q < next && (next - 1) / w - q / w < n
    ensures q / w <= next / w <= q / w + n
    ensures q / w == next / w ==> q % w < next % w
    ensures next / w == q / w + n ==> next % w == 0
  {
    NextBlock(w, next);
    DivMono(q, next, w);
  }

  /** Pages `i` of block `a` and `j` of block `b`, at most once around a ring of `n` apart. */
  lemma BlockHits(w: nat, n: nat, a: nat, b: nat, i: nat, j: nat, sq: nat, sn: nat)
    requires n > 0 && i < w && j < w && a <= b <= a + n
    requires a == b ==> i < j
    requires b == a + n ==> j == 0
    requires sq == w * (a % n) + i && sn == w * (b % n) + j
    ensures sq == sn || (j == 0 && sn <= sq < sn + w) <==> b == a + n
  {
    if b == a + n {
      RingRepeats(n, a);
    } else if a < b {
      RingDistinct(n, a, b);
      if a % n < b % n { PagesApart(w, a % n, b % n); } else { PagesApart(w, b % n, a % n); }
    }
  }

  /** The block of the next number is the block of the last one, or starts with the next number. */
  lemma NextBlock(w: nat, next: nat)
    requires w > 0 && next > 0
    ensures next / w == (next - 1) / w + (if next % w == 0 then 1 else 0)
  {
    var a := (next - 1) / w;
    var m := (next - 1) % w;
    assert next == w * a + m + 1;
    if m + 1 == w {
      assert next == w * (a + 1);
      ModUnique(w, a + 1, 0);
    } else {
      ModUnique(w, a, m + 1);
    }
  }

  lemma DivMono(a: nat, b: nat, w: nat)
    requires w > 0 && a <= b
    ensures a / w <= b / w
    ensures a / w == b / w ==> b % w - a % w == b - a
  {
    assert a == w * (a / w) + a % w && b == w * (b / w) + b % w;
    if a / w > b / w {
      PagesApart(w, b / w, a / w);
    }
  }

  /** Retention, for every run below the wrap: the record of the `i`-th call is at its slot afterwards if
      and only if it survives. */
  lemma {:induction false} Retention(r: Ring, dev: bytes, es: seq<Entry>, i: nat)
    requires r.Valid() && |dev| == r.size && AllValid(es) && i < |es|
    requires Sequence(r, dev) + |es| < 0x1_0000_0000
    ensures var first := Sequence(r, dev);
            Holds(r, Run(r, dev, es), first + i, es[i].body) <==> Survives(r, first + i, first + |es|)
  {
    hide Logged, Holds, Survives, Hits, Sequence;
    var first, n := Sequence(r, dev), |es| - 1;
    var before := Run(r, dev, es[..n]);
    SequenceCounts(r, dev, es[..n]);
    assert Run(r, dev, es) == Logged(r, before, es[n]);
    if i == n {
      NewestIsHeld(r, before, es[n]);
    } else {
      Retention(r, dev, es[..n], i);
      HitIsLost(r, before, es[n], first + i, es[i].body);
      HitEndsLife(r, first + i, first + n);
    }
  }

  /** The newest record is always there. */
  lemma NewestIsHeld(r: Ring, dev: bytes, e: Entry)
    requires r.Valid() && |dev| == r.size && e.Valid()
    ensures Holds(r, Logged(r, dev, e), Sequence(r, dev), e.body)
    ensures Survives(r, Sequence(r, dev), Sequence(r, dev) + 1)
  {
    LoggedPages(r, dev, e, r.Slot(Sequence(r, dev)));
  }

  /** How many of the newest records are sure to be there. */
  function Kept(r: Ring): nat
    requires r.Valid()
  {
    if r.nand then (r.logBlocks - 2) * r.PagesPerBlock() + 1 else r.LogPages()
  }

  /** A record among the newest `Kept` survives. */
  lemma KeptSurvives(r: Ring, q: nat, next: nat)
    requires r.Valid() && q < next <= q + Kept(r)
    ensures Survives(r, q, next)
  {
    var w, n := r.PagesPerBlock(), r.logBlocks - 2;
    if r.nand {
      assert next - 1 - q <= n * w;
      FewBlocksApart(w, q, next - 1, n);
    }
  }

  /** The newest `Kept` records, or all if fewer were written, are at their slots after every run. */
  lemma NewestAreKept(r: Ring, dev: bytes, es: seq<Entry>, i: nat)
    requires r.Valid() && |dev| == r.size && AllValid(es) && i < |es|
    requires Sequence(r, dev) + |es| < 0x1_0000_0000
    requires |es| - i <= Kept(r)
    ensures Holds(r, Run(r, dev, es), Sequence(r, dev) + i, es[i].body)
  {
    hide Run, Holds, Survives, Kept, Sequence;
    var first := Sequence(r, dev);
    Retention(r, dev, es, i);
    KeptSurvives(r, first + i, first + |es|);
  }

  lemma FewBlocksApart(w: nat, a: nat, b: nat, n: nat)
    requires w > 0 && a <= b && b - a <= n * w
    ensures b / w - a / w <= n
  {
    var x, y := a / w, b / w;
    assert a == w * x + a % w && b == w * y + b % w;
    Distribute(w, x, n);
    if y > x + n {
      PagesApart(w, x + n, y);
    }
  }

  /** The bound is met: after every run, without erasing always, on NAND whenever a block has just been
      started, the records at their slots are the newest `Kept` and no other. */
  lemma KeptIsExact(r: Ring, dev: bytes, es: seq<Entry>, i: nat)
    requires r.Valid() && |dev| == r.size && AllValid(es) && i < |es|
    requires Sequence(r, dev) + |es| < 0x1_0000_0000
    requires r.nand ==> (Sequence(r, dev) + |es| - 1) % r.PagesPerBlock() == 0
    ensures Holds(r, Run(r, dev, es), Sequence(r, dev) + i, es[i].body) <==> |es| - i <= Kept(r)
  {
    hide Run, Holds, Survives, Kept, Sequence;
    Retention(r, dev, es, i);
    KeptIsSurviving(r, Sequence(r, dev) + i, Sequence(r, dev) + |es|);
  }

  lemma KeptIsSurviving(r: Ring, q: nat, next: nat)
    requires r.Valid() && q < next && (r.nand ==> (next - 1) % r.PagesPerBlock() == 0)
    ensures Survives(r, q, next) <==> next - q <= Kept(r)
  {
    hide Survives, Kept;
    if next - q <= Kept(r) {
      KeptSurvives(r, q, next);
    } else {
      OlderIsLost(r, q, next);
    }
  }

  lemma OlderIsLost(r: Ring, q: nat, next: nat)
    requires r.Valid() && q + Kept(r) < next
    requires r.nand ==> (next - 1) % r.PagesPerBlock() == 0
    ensures !Survives(r, q, next)
  {
    if r.nand {
      var w, oldest := r.PagesPerBlock(), next - 1 - Kept(r);
      OneTooMany(w, r.logBlocks - 2, next - 1, oldest);
      DivMono(q, oldest, w);
    }
  }

  /** The page just before the last `n` blocks lies one block further back. */
  lemma OneTooMany(w: nat, n: nat, p: nat, q: nat)
    requires w > 0 && p % w == 0 && q + n * w + 1 == p
    ensures p / w - q / w > n
  {
    var b, c := p / w, q / w;
    assert p == w * b && q == w * c + q % w;
    Distribute(w, c, n);
    assert w * (c + n) < w * b;
    Cancel(w, c + n, b);
  }

  lemma Cancel(w: nat, x: nat, y: nat)
    requires w * x < w * y
    ensures x < y
  {
    if y < x {
      PagesApart(w, y, x);
    }
  }

  // ----- NAND: no page is programmed twice between erases -----

  /** The pages of the current block that are still to be written are blank. */
  predicate TailBlank(r: Ring, dev: bytes, q: nat)
    requires r.Valid()
  {
    var w := r.PagesPerBlock();
    q % w != 0 ==>
      forall k: nat :: r.Slot(q) <= k < r.Slot(q) - q % w + w ==> LogPage(r, dev, k) == Filled(r.writeSize)
  }

  /** Within a block the slots follow one another. */
  lemma NextSlot(r: Ring, q: nat)
    requires r.Valid() && (q + 1) % r.PagesPerBlock() != 0
    ensures r.Slot(q + 1) == r.Slot(q) + 1 && (q + 1) % r.PagesPerBlock() == q % r.PagesPerBlock() + 1
  {
    var w := r.PagesPerBlock();
    NextBlock(w, q + 1);
    SlotParts(r, q);
    SlotParts(r, q + 1);
    DivMono(q, q + 1, w);
  }

  /** Every page of the current block is a log page. */
  lemma BlockOfSlot(r: Ring, q: nat)
    requires r.Valid()
    ensures r.Slot(q) - q % r.PagesPerBlock() + r.PagesPerBlock() <= r.LogPages()
  {
    var w, n := r.PagesPerBlock(), r.logBlocks - 1;
    SlotParts(r, q);
    PagesApart(w, q / w % n, n);
  }

  /** The record is written to a blank page. */
  lemma WritesBlankPage(r: Ring, dev: bytes, q: nat)
    requires r.Valid() && |dev| == r.size && r.nand && TailBlank(r, dev, q)
    ensures LogPage(r, Prepared(r, dev, q), r.Slot(q)) == Filled(r.writeSize)
  {
    PreparedPages(r, dev, q, r.Slot(q));
  }

  /** A later page of the block is blank after the record is written. */
  lemma BlankBehind(r: Ring, dev: bytes, e: Entry, k: nat)
    requires r.Valid() && |dev| == r.size && e.Valid() && r.nand
    requires TailBlank(r, dev, Sequence(r, dev))
    requires var q := Sequence(r, dev);
             r.Slot(q) < k < r.Slot(q) - q % r.PagesPerBlock() + r.PagesPerBlock()
    ensures LogPage(r, Logged(r, dev, e), k) == Filled(r.writeSize)
  {
    hide Logged, Sequence, LogPage;
    BlockOfSlot(r, Sequence(r, dev));
    LoggedPages(r, dev, e, k);
  }

  /** What is left of the block stays blank. */
  lemma TailStaysBlank(r: Ring, dev: bytes, e: Entry)
    requires r.Valid() && |dev| == r.size && e.Valid() && r.nand
    requires TailBlank(r, dev, Sequence(r, dev))
    ensures TailBlank(r, Logged(r, dev, e), Sequence(r, dev) + 1)
  {
    hide Logged, Sequence, LogPage;
    var q: nat, w := Sequence(r, dev), r.PagesPerBlock();
    if (q + 1) % w != 0 {
      NextSlot(r, q);
      forall k: nat | r.Slot(q + 1) <= k < r.Slot(q + 1) - (q + 1) % w + w
        ensures LogPage(r, Logged(r, dev, e), k) == Filled(r.writeSize)
      {
        BlankBehind(r, dev, e, k);
      }
    }
  }

  /** In every run on NAND, started where the rest of the block is blank, each record goes to a page that
      has been erased since it was last written. */
  lemma {:induction false} RunWritesBlankPages(r: Ring, dev: bytes, es: seq<Entry>)
    requires r.Valid() && |dev| == r.size && AllValid(es) && r.nand
    requires Sequence(r, dev) + |es| < 0x1_0000_0000 && TailBlank(r, dev, Sequence(r, dev))
    ensures TailBlank(r, Run(r, dev, es), Sequence(r, dev) + |es|)
    ensures forall i | 0 <= i < |es| ::
              var q := Sequence(r, dev) + i;
              LogPage(r, Prepared(r, Run(r, dev, es[..i]), q), r.Slot(q)) == Filled(r.writeSize)
  {
    hide Logged, TailBlank, LogPage, Prepared, Sequence;
    if es != [] {
      var n := |es| - 1;
      RunWritesBlankPages(r, dev, es[..n]);
      SequenceCounts(r, dev, es[..n]);
      TailStaysBlank(r, Run(r, dev, es[..n]), es[n]);
      WritesBlankPage(r, Run(r, dev, es[..n]), Sequence(r, dev) + n);
      forall i | 0 <= i < |es|
        ensures LogPage(r, Prepared(r, Run(r, dev, es[..i]), Sequence(r, dev) + i), r.Slot(Sequence(r, dev) + i))
             == Filled(r.writeSize)
      {
        if i < n {
          assert es[..n][..i] == es[..i];
        }
      }
    }
  }
}
