/** The history log and the bin region share a device: logging stays in the log's blocks, so it cannot
    change what a restore from the bin region yields. */
module Regions {
  import opened Bytes
  import opened Pages
  import opened Journal
  import Bin = BinRegion

  /** The two devices are of one size and agree on the bytes from `lo` up to `hi`. */
  ghost predicate Agree(dev: bytes, dev': bytes, lo: nat, hi: nat) {
    |dev'| == |dev| && lo <= hi <= |dev| && dev'[lo..hi] == dev[lo..hi]
  }

  lemma AgreeOn(a: bytes, b: bytes, c: bytes, lo: nat, hi: nat)
    requires Agree(a, b, lo, hi) && Agree(b, c, lo, hi)
    ensures Agree(a, c, lo, hi)
  {
  }

  /** A write or erase leaves what lies on either side of it as it was. */
  lemma WriteBeside(dev: bytes, offset: nat, data: bytes, lo: nat, hi: nat)
    requires offset + |data| <= |dev| && lo <= hi <= |dev|
    requires hi <= offset || offset + |data| <= lo
    ensures Agree(dev, PWrite(dev, offset, data), lo, hi)
  {
  }

  /** Neither the erase before a record nor the record itself touches the super page's block, or
      anything before the log's blocks. */
  lemma RecordStaysInLog(r: Ring, dev: bytes, q: word, body: bytes)
    requires r.Valid() && |dev| == r.size && |body| == BODY_SIZE
    ensures Agree(dev, Recorded(r, dev, q, body), 0, r.Start())
    ensures Agree(dev, Recorded(r, dev, q, body), r.LastBlock(), r.size)
  {
    hide PWrite, JournalPage, Agree;
    var end, offset := r.LastBlock(), r.Start() + r.writeSize * r.Slot(q);
    var prepared, page := Prepared(r, dev, q), Page(r, LOG_PAGE, q, body);
    EraseStaysInLog(r, dev, q);
    PreparedSize(r, dev, q);
    PagesOnDevice(r, r.Slot(q));
    WriteBeside(prepared, offset, page, 0, r.Start());
    WriteBeside(prepared, offset, page, end, r.size);
    AgreeOn(dev, prepared, Recorded(r, dev, q, body), 0, r.Start());
    AgreeOn(dev, prepared, Recorded(r, dev, q, body), end, r.size);
  }

  lemma EraseStaysInLog(r: Ring, dev: bytes, q: nat)
    requires r.Valid() && |dev| == r.size
    ensures Agree(dev, Prepared(r, dev, q), 0, r.Start())
    ensures Agree(dev, Prepared(r, dev, q), r.LastBlock(), r.size)
  {
    hide PWrite;
    if r.nand && q % r.PagesPerBlock() == 0 {
      var offset := r.Start() + r.writeSize * r.Slot(q);
      BlockOnDevice(r, q);
      WriteBeside(dev, offset, Filled(r.eraseSize), 0, r.Start());
      WriteBeside(dev, offset, Filled(r.eraseSize), r.LastBlock(), r.size);
    }
  }

  /** Counting up, with its erase on NAND, touches the last block only. */
  lemma CountingStaysInLastBlock(r: Ring, dev: bytes, q: word, body: bytes)
    requires r.Valid() && |dev| == r.size && |body| == BODY_SIZE
    ensures Agree(dev, Advanced(r, dev, q, body), 0, r.LastBlock())
  {
    hide PWrite, JournalPage, Agree;
    var offset, next: word := r.LastBlock(), (q + 1) % 0x1_0000_0000;
    var erased := if r.nand then PWrite(dev, offset, Filled(r.eraseSize)) else dev;
    EraseLastBlock(r, dev);
    WriteBeside(erased, offset, Page(r, SUPER_PAGE, next, body), 0, offset);
    AgreeOn(dev, erased, Advanced(r, dev, q, body), 0, offset);
  }

  lemma EraseLastBlock(r: Ring, dev: bytes)
    requires r.Valid() && |dev| == r.size
    ensures Agree(dev, if r.nand then PWrite(dev, r.LastBlock(), Filled(r.eraseSize)) else dev, 0, r.LastBlock())
  {
    if r.nand {
      WriteBeside(dev, r.LastBlock(), Filled(r.eraseSize), 0, r.LastBlock());
    }
  }

  lemma LoggedStaysInLog(r: Ring, dev: bytes, e: Entry)
    requires r.Valid() && |dev| == r.size && e.Valid()
    ensures Agree(dev, Logged(r, dev, e), 0, r.Start())
  {
    hide Recorded, Advanced;
    var q := Sequence(r, dev);
    RecordStaysInLog(r, dev, q, e.body);
    CountingStaysInLastBlock(r, Recorded(r, dev, q, e.body), q, e.superBody);
    AgreeBelow(Recorded(r, dev, q, e.body), Logged(r, dev, e), r.LastBlock(), r.Start());
  }

  lemma AgreeBelow(a: bytes, b: bytes, hi: nat, lower: nat)
    requires Agree(a, b, 0, hi) && lower <= hi
    ensures Agree(a, b, 0, lower)
  {
    assert a[0..lower] == a[0..hi][..lower];
    assert b[0..lower] == b[0..hi][..lower];
  }

  /** No run of log calls changes anything before the log's blocks. */
  lemma {:induction false} RunStaysInLog(r: Ring, dev: bytes, es: seq<Entry>)
    requires r.Valid() && |dev| == r.size && AllValid(es)
    ensures Agree(dev, Run(r, dev, es), 0, r.Start())
  {
    hide Logged;
    if es != [] {
      var n := |es| - 1;
      RunStaysInLog(r, dev, es[..n]);
      LoggedStaysInLog(r, Run(r, dev, es[..n]), es[n]);
    }
  }

  /** In layout 0 the reader's blocks end before the log's blocks. */
  lemma ReaderEndsBeforeLog(g: Bin.Geometry, region: Bin.Region, r: Ring)
    requires r.Valid() && SameDevice(g, region, r)
    ensures region.blocks * region.blockSize <= r.Start()
  {
    var k := g.size / g.blockSize;
    assert k * g.blockSize <= g.size;
    Bin.MulMono(region.blocks + r.logBlocks, k, g.blockSize);
    assert (region.blocks + r.logBlocks) * g.blockSize == region.blocks * g.blockSize + r.logBlocks * g.blockSize;
  }

  /** The reader's geometry and the log's ring describe one device in layout 0. */
  ghost predicate SameDevice(g: Bin.Geometry, region: Bin.Region, r: Ring) {
    && g.layout == 0 && g.blockSize > 0
    && g.size == r.size && g.blockSize == r.eraseSize && g.logBlocks == r.logBlocks
    && region.blockSize == g.blockSize && region.blocks <= g.Blocks()
  }

  /** Devices that agree before the log agree on the reader's blocks. */
  lemma SameBlocks(dev: bytes, dev': bytes, region: Bin.Region, end: nat)
    requires Agree(dev, dev', 0, end)
    requires region.blocks * region.blockSize <= end
    ensures Bin.SameRegion(dev, dev', region)
  {
    forall k: nat | k < region.blocks
      ensures Bin.Block(dev', region, k) == Bin.Block(dev, region, k)
    {
      Bin.MulMono(k + 1, region.blocks, region.blockSize);
      assert (k + 1) * region.blockSize == k * region.blockSize + region.blockSize;
      SameReads(dev, dev', end, k * region.blockSize, region.blockSize);
    }
  }

  lemma SameReads(dev: bytes, dev': bytes, end: nat, offset: nat, n: nat)
    requires Agree(dev, dev', 0, end)
    requires offset + n <= end
    ensures PRead(dev', offset, n) == PRead(dev, offset, n)
  {
    assert dev[0..end] == dev[..end] && dev'[0..end] == dev'[..end];
    ReadBefore(dev', dev, end, offset, n);
  }

  /** A restore from the bin region yields the same files, or the same failure, after any run of log
      calls. */
  lemma LoggingKeepsRestore(g: Bin.Geometry, region: Bin.Region, r: Ring, dev: bytes, es: seq<Entry>)
    requires r.Valid() && SameDevice(g, region, r) && |dev| == r.size && AllValid(es)
    requires region.Valid() && Bin.Fits(dev, region) && Bin.MapFits(dev, region)
    ensures var after := Run(r, dev, es);
            && Bin.Fits(after, region) && Bin.MapFits(after, region)
            && Bin.Restored(after, region) == Bin.Restored(dev, region)
  {
    hide Run;
    ReaderEndsBeforeLog(g, region, r);
    RunStaysInLog(r, dev, es);
    SameBlocks(dev, Run(r, dev, es), region, r.Start());
    Bin.RestoredDependsOnRegion(dev, Run(r, dev, es), region);
  }
}
