/** The misc log: one page for the sequence number and a ring of pages behind it, never erased. */
module MiscLog {
  import opened Bytes
  import opened Pages

  const MISC_MAGIC: word := 0x4D52564E

  /** What the device reports, nvram_misc_log_block_offset, and what kind of platform it is. */
  datatype Misc = Misc(size: nat, eraseSize: nat, writeSize: nat, blockOffset: nat, nand: bool, layout: nat) {
    predicate Usable() { layout != 1 && !nand && writeSize >= HANDLE_SIZE && size > 0 }

    /** Pages tile a block, and the block of the log and the one behind it are on the device. */
    predicate Valid() {
      && Usable() && eraseSize > 0 && eraseSize % writeSize == 0
      && blockOffset >= 2 && eraseSize * blockOffset <= size
    }

    function PagesPerBlock(): (w: nat)
      requires Valid()
      ensures w > 0 && writeSize * w == eraseSize
    {
      PagesIn(eraseSize, writeSize)
    }

    function Start(): (start: nat)
      requires Valid()
      ensures start + eraseSize + eraseSize <= size
    {
      PagesApart(eraseSize, 1, blockOffset);
      size - eraseSize * blockOffset
    }

    /** The page of the record numbered `q`; page 0 holds the sequence number. */
    function Slot(q: nat): nat
      requires Valid()
    {
      q % PagesPerBlock() + 1
    }
  }

  function MiscPage(m: Misc, dev: bytes, k: nat): bytes
    requires m.Valid()
  {
    PageAt(dev, m.Start(), m.writeSize, k)
  }

  function WritePage(m: Misc, dev: bytes, k: nat, page: bytes): bytes
    requires m.Valid()
  {
    PWrite(dev, m.Start() + m.writeSize * k, page)
  }

  /** NVM_MiscGetSeqNum. */
  function Sequence(m: Misc, dev: bytes): word
    requires m.Valid() && |dev| == m.size
  {
    SequenceIn(MISC_MAGIC, PRead(dev, m.Start(), m.writeSize))
  }

  function Recorded(m: Misc, dev: bytes, q: word, body: bytes): bytes
    requires m.Valid() && |body| == BODY_SIZE
  {
    WritePage(m, dev, m.Slot(q), JournalPage(m.writeSize, MISC_MAGIC, LOG_PAGE, q, body))
  }

  /** NVM_MiscIncSeqNum. */
  function Advanced(m: Misc, dev: bytes, q: word, body: bytes): bytes
    requires m.Valid() && |body| == BODY_SIZE
  {
    WritePage(m, dev, 0, JournalPage(m.writeSize, MISC_MAGIC, SUPER_PAGE, (q + 1) % 0x1_0000_0000, body))
  }

  function Logged(m: Misc, dev: bytes, e: Entry): (after: bytes)
    requires m.Valid() && |dev| == m.size && e.Valid()
    ensures |after| == m.size
  {
    var q := Sequence(m, dev);
    PagesOnDevice(m, m.Slot(q));
    PagesOnDevice(m, 0);
    Advanced(m, Recorded(m, dev, q, e.body), q, e.superBody)
  }

  /** The misc device, written in place. */
  class Device {
    const misc: Misc
    var content: bytes

    constructor (misc: Misc, content: bytes)
      requires |content| == misc.size
      ensures this.misc == misc && this.content == content
    {
      this.misc, this.content := misc, content;
    }

    /** Neither NAND nor layout 1, and pages that can take a journal structure. */
    predicate Taken() { !misc.nand && misc.layout != 1 && misc.writeSize >= 512 && misc.size > 0 }

    method MiscGetSeqNum() returns (sequence: word)
      requires misc.Valid() && |content| == misc.size
      ensures sequence == Sequence(misc, content)
    {
      var offset := misc.size - misc.eraseSize * misc.blockOffset;
      var buffer := PRead(content, offset, misc.writeSize);
      PagesOnDevice(misc, 0);
      var magic := Word(buffer[..4]);
      sequence := if magic == MISC_MAGIC then Word(buffer[8..12]) else 0;
    }

    method MiscIncSeqNum(sequence: word, body: bytes)
      requires misc.Valid() && |content| == misc.size && |body| == BODY_SIZE
      modifies this
      ensures content == Advanced(misc, old(content), sequence, body)
    {
      var next := (sequence + 1) % 0x1_0000_0000;
      var offset := misc.size - misc.eraseSize * misc.blockOffset;
      content := PWrite(content, offset, JournalPage(misc.writeSize, MISC_MAGIC, SUPER_PAGE, next, body));
    }

    /** NVM_MiscLog: refused on NAND, in layout 1, and where a page cannot take a journal structure. */
    method MiscLog(e: Entry) returns (ok: bool)
      requires |content| == misc.size && e.Valid()
      requires Taken() ==> misc.Valid()
      modifies this
      ensures ok == Taken()
      ensures content == if Taken() then Logged(misc, old(content), e) else old(content)
    {
      hide PWrite, PRead, JournalPage, Sequence, Advanced;
      if misc.layout == 1 {
        return false;
      }
      if misc.nand {
        return false;
      }
      if misc.writeSize < HANDLE_SIZE || misc.size == 0 {
        return false;
      }
      var writePagesPerBlock := misc.eraseSize / misc.writeSize;
      var sequence := MiscGetSeqNum();
      var startAddress := misc.size - misc.eraseSize * misc.blockOffset;
      var offset := misc.writeSize * (sequence % writePagesPerBlock + 1);
      PagesOnDevice(misc, misc.Slot(sequence));
      content := PWrite(content, startAddress + offset,
                        JournalPage(misc.writeSize, MISC_MAGIC, LOG_PAGE, sequence, e.body));
      MiscIncSeqNum(sequence, e.superBody);
      ok := true;
    }
  }

  /** The sequence page and the record pages, the last of them in the next block, are on the device. */
  lemma PagesOnDevice(m: Misc, k: nat)
    requires m.Valid() && k <= m.PagesPerBlock()
    ensures m.Start() + m.writeSize * k + m.writeSize <= m.size
  {
    PagesApart(m.writeSize, k, m.PagesPerBlock() + 1);
    PagesApart(m.writeSize, 0, m.PagesPerBlock());
    Distribute(m.writeSize, m.PagesPerBlock(), 1);
  }

  /** A record is never written over the page of the sequence number. */
  lemma RecordSparesSequencePage(m: Misc, dev: bytes, q: word, body: bytes)
    requires m.Valid() && |dev| == m.size && |body| == BODY_SIZE
    ensures MiscPage(m, Recorded(m, dev, q, body), 0) == MiscPage(m, dev, 0)
  {
    PagesOnDevice(m, m.Slot(q));
    WriteOnePage(dev, m.Start(), m.Slot(q), JournalPage(m.writeSize, MISC_MAGIC, LOG_PAGE, q, body), 0);
  }

  /** The page written holds the record; apart from it only the sequence page changes. */
  lemma LoggedPages(m: Misc, dev: bytes, e: Entry, j: nat)
    requires m.Valid() && |dev| == m.size && e.Valid() && j != 0
    ensures var q := Sequence(m, dev);
            MiscPage(m, Logged(m, dev, e), j)
            == if j == m.Slot(q) then JournalPage(m.writeSize, MISC_MAGIC, LOG_PAGE, q, e.body)
               else MiscPage(m, dev, j)
  {
    hide PWrite, PRead, JournalPage, Sequence;
    var q: word := Sequence(m, dev);
    var next: word := (q + 1) % 0x1_0000_0000;
    PagesOnDevice(m, m.Slot(q));
    PagesOnDevice(m, 0);
    WriteOnePage(dev, m.Start(), m.Slot(q), JournalPage(m.writeSize, MISC_MAGIC, LOG_PAGE, q, e.body), j);
    WriteOnePage(Recorded(m, dev, q, e.body), m.Start(), 0,
                 JournalPage(m.writeSize, MISC_MAGIC, SUPER_PAGE, next, e.superBody), j);
  }

  lemma LoggedSequence(m: Misc, dev: bytes, e: Entry)
    requires m.Valid() && |dev| == m.size && e.Valid()
    ensures Sequence(m, Logged(m, dev, e)) == (Sequence(m, dev) + 1) % 0x1_0000_0000
  {
    hide PWrite, PRead, JournalPage;
    var q: word := Sequence(m, dev);
    var next: word := (q + 1) % 0x1_0000_0000;
    PagesOnDevice(m, m.Slot(q));
    PagesOnDevice(m, 0);
    ReadBack(Recorded(m, dev, q, e.body), m.Start(),
             JournalPage(m.writeSize, MISC_MAGIC, SUPER_PAGE, next, e.superBody));
    JournalPageFields(m.writeSize, MISC_MAGIC, SUPER_PAGE, next, e.superBody);
  }

  /** The device after these log calls, oldest first. */
  function Run(m: Misc, dev: bytes, es: seq<Entry>): (after: bytes)
    requires m.Valid() && |dev| == m.size && AllValid(es)
    ensures |after| == m.size
  {
    if es == [] then dev else Logged(m, Run(m, dev, es[..|es| - 1]), es[|es| - 1])
  }

  predicate Holds(m: Misc, dev: bytes, q: word, body: bytes)
    requires m.Valid() && |body| == BODY_SIZE
  {
    MiscPage(m, dev, m.Slot(q)) == JournalPage(m.writeSize, MISC_MAGIC, LOG_PAGE, q, body)
  }

  lemma {:induction false} SequenceCounts(m: Misc, dev: bytes, es: seq<Entry>)
    requires m.Valid() && |dev| == m.size && AllValid(es)
    requires Sequence(m, dev) + |es| < 0x1_0000_0000
    ensures Sequence(m, Run(m, dev, es)) == Sequence(m, dev) + |es|
  {
    hide Logged;
    if es != [] {
      var n := |es| - 1;
      SequenceCounts(m, dev, es[..n]);
      LoggedSequence(m, Run(m, dev, es[..n]), es[n]);
    }
  }

  /** One more call loses the record whose slot it takes, and no other. */
  lemma OneCallKeeps(m: Misc, dev: bytes, e: Entry, q: word, body: bytes)
    requires m.Valid() && |dev| == m.size && e.Valid() && |body| == BODY_SIZE
    requires q != Sequence(m, dev)
    ensures Holds(m, Logged(m, dev, e), q, body)
            <==> Holds(m, dev, q, body) && m.Slot(q) != m.Slot(Sequence(m, dev))
  {
    hide Logged, Sequence, MiscPage, JournalPage;
    LoggedPages(m, dev, e, m.Slot(q));
    JournalPageFields(m.writeSize, MISC_MAGIC, LOG_PAGE, q, body);
    JournalPageFields(m.writeSize, MISC_MAGIC, LOG_PAGE, Sequence(m, dev), e.body);
  }

  /** After every run below the wrap, the record of the `i`-th call is at its slot if and only if it is
      among the newest block-full. */
  lemma {:induction false} Retention(m: Misc, dev: bytes, es: seq<Entry>, i: nat)
    requires m.Valid() && |dev| == m.size && AllValid(es) && i < |es|
    requires Sequence(m, dev) + |es| < 0x1_0000_0000
    ensures Holds(m, Run(m, dev, es), Sequence(m, dev) + i, es[i].body)
            <==> |es| - i <= m.PagesPerBlock()
  {
    hide Logged, Holds, Sequence;
    var first, n := Sequence(m, dev), |es| - 1;
    var before := Run(m, dev, es[..n]);
    SequenceCounts(m, dev, es[..n]);
    if i == n {
      NewestIsHeld(m, before, es[n]);
    } else {
      Retention(m, dev, es[..n], i);
      OneCallKeeps(m, before, es[n], first + i, es[i].body);
      if n - i < m.PagesPerBlock() {
        RingDistinct(m.PagesPerBlock(), first + i, first + n);
      } else if n - i == m.PagesPerBlock() {
        RingRepeats(m.PagesPerBlock(), first + i);
      }
    }
  }

  lemma NewestIsHeld(m: Misc, dev: bytes, e: Entry)
    requires m.Valid() && |dev| == m.size && e.Valid()
    ensures Holds(m, Logged(m, dev, e), Sequence(m, dev), e.body)
  {
    hide Logged, Sequence, MiscPage, JournalPage;
    LoggedPages(m, dev, e, m.Slot(Sequence(m, dev)));
  }

  /** On a device without the magic the misc log starts at number zero, behind the page of the number. */
  lemma FreshDevice(m: Misc, dev: bytes, es: seq<Entry>, i: nat)
    requires m.Valid() && |dev| == m.size && AllValid(es) && i < |es| < 0x1_0000_0000
    requires PRead(dev, m.Start(), 4) != [0x4E, 0x56, 0x52, 0x4D]
    ensures Sequence(m, Run(m, dev, es)) == |es|
    ensures Holds(m, Run(m, dev, es), i, es[i].body) <==> |es| - i <= m.PagesPerBlock()
  {
    hide Run, Holds, Sequence, PRead, SequenceIn, Word;
    FreshIsZero(m, dev);
    SequenceCounts(m, dev, es);
    Retention(m, dev, es, i);
  }

  lemma FreshIsZero(m: Misc, dev: bytes)
    requires m.Valid() && |dev| == m.size && PRead(dev, m.Start(), 4) != [0x4E, 0x56, 0x52, 0x4D]
    ensures Sequence(m, dev) == 0
  {
    hide SequenceIn, Word;
    PagesOnDevice(m, 0);
    var page := PRead(dev, m.Start(), m.writeSize);
    StartOfRead(dev, m.Start(), m.writeSize);
    NoMagicIsZero(MISC_MAGIC, page);
  }

  /** The log stays within its block except for one number in every block-full, whose page is the first
      of the next block. */
  lemma LeavesItsBlock(m: Misc, q: nat)
    requires m.Valid()
    ensures m.writeSize * m.Slot(q) + m.writeSize <= m.eraseSize <==> q % m.PagesPerBlock() != m.PagesPerBlock() - 1
    ensures q % m.PagesPerBlock() == m.PagesPerBlock() - 1 ==> m.writeSize * m.Slot(q) == m.eraseSize
  {
    if m.Slot(q) < m.PagesPerBlock() {
      PagesApart(m.writeSize, m.Slot(q), m.PagesPerBlock());
    }
  }
}
