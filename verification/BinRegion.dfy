/** The bin-region reader: it finds the triplicated bad-block bitmap by scanning blocks downward, then
    the map in the first good block, then gathers the data file from the good blocks behind it. */
module BinRegion {
  import opened Bytes

  /** Device and platform numbers. Layout 0 reserves log and reserved blocks at the device's end. */
  datatype Geometry = Geometry(size: nat, blockSize: nat, writeSize: nat, logBlocks: nat, resvBlocks: nat,
                               dmBlocks: nat, layout: nat)
  {
    /** NvRamBlockNum: the number of blocks the reader may use. */
    function Blocks(): int
      requires blockSize > 0
    {
      (if layout == 0 then size / blockSize - logBlocks - resvBlocks else size / blockSize) - dmBlocks
    }
  }

  /** What the reader uses of a device: its first `blocks` blocks. A block holds three bitmaps and the
      flag behind them. */
  datatype Region = Region(blocks: nat, blockSize: nat, writeSize: nat) {
    predicate Valid() { blockSize >= 12 && writeSize > 0 && 3 * blocks + 4 <= blockSize }
  }

  /** 0xAABBCCDD as it lies in memory. */
  const BITMAP_FLAG: bytes := [0xDD, 0xCC, 0xBB, 0xAA]

  /** What a seek to block `k` and a read of one block yield. */
  function Block(dev: bytes, r: Region, k: nat): bytes { PRead(dev, k * r.blockSize, r.blockSize) }

  /** The device has all the blocks of the region. */
  ghost predicate Fits(dev: bytes, r: Region) {
    forall k: nat | k < r.blocks :: |Block(dev, r, k)| == r.blockSize
  }

  /** A block that carries the bitmap three times and the flag. */
  predicate CarriesBitmap(block: bytes, n: nat) {
    && 3 * n + 4 <= |block|
    && block[..n] == block[n..2 * n]
    && block[..n] == block[2 * n..3 * n]
    && block[3 * n..3 * n + 4] == BITMAP_FLAG
  }

  /** Whether the map with its header, rounded up to write units, takes more than one block: then two
      blocks are kept for it and the bitmap is looked for one block further down. */
  function Reserve(block0: bytes, r: Region): nat
    requires r.Valid() && |block0| >= 4
  {
    ReserveFor(Word(block0[..4]), r)
  }

  function ReserveFor(mapSize: nat, r: Region): (reserve: nat)
    requires r.Valid()
    ensures reserve <= 1
  {
    var need := mapSize + 12;
    var memSize := if need % r.writeSize != 0 then (need / r.writeSize + 1) * r.writeSize else need;
    if memSize % 0x1_0000_0000 > r.blockSize then 1 else 0
  }

  /** Below the 32-bit wrap, the guess is whether the map and its header are too long for the whole write units of
      one block. */
  lemma ReserveIsBySize(mapSize: nat, r: Region)
    requires r.Valid() && mapSize + 12 + r.writeSize <= 0x1_0000_0000
    ensures ReserveFor(mapSize, r) == if mapSize + 12 <= r.blockSize - r.blockSize % r.writeSize then 0 else 1
  {
    WholeUnits(mapSize + 12, r.writeSize, r.blockSize);
  }

  /** The rounded size is cut to 32 bits: a map size within twelve bytes of 2^32 is taken for one that fits a block. */
  lemma ReserveWraps(mapSize: word, r: Region)
    requires r.Valid() && mapSize + 12 >= 0x1_0000_0000 && r.writeSize + 12 <= r.blockSize < 0x8000_0000
    ensures ReserveFor(mapSize, r) == 0
  {
    WholeUnits(mapSize + 12, r.writeSize, r.blockSize);
  }

  /** `need` rounded up to whole units fits where `need` fits into the whole units. */
  lemma WholeUnits(need: nat, w: nat, size: nat)
    requires w > 0
    ensures var rounded := if need % w != 0 then (need / w + 1) * w else need;
            need <= rounded < need + w && (rounded <= size <==> need <= size - size % w)
  {
    InUnits(need, w);
    InUnits(size, w);
    UnitsCompared(need / w, size / w, w);
    RoundedFits(need / w * w, size / w * w, need % w, size % w, w);
  }

  lemma InUnits(n: nat, w: nat)
    requires w > 0
    ensures 0 <= n / w * w && n == n / w * w + n % w && n % w < w && (n / w + 1) * w == n / w * w + w
  {
  }

  lemma RoundedFits(qw: nat, uw: nat, a: nat, b: nat, w: nat)
    requires a < w && b < w && (qw + w <= uw || qw == uw || uw + w <= qw)
    ensures (if a != 0 then qw + w else qw) <= uw + b <==> qw + a <= uw
  {
  }

  lemma UnitsCompared(q: nat, u: nat, w: nat)
    ensures if q < u then q * w + w <= u * w else if q == u then q * w == u * w else u * w + w <= q * w
  {
    if q < u {
      MulMono(q + 1, u, w);
    } else if u < q {
      MulMono(u + 1, q, w);
    }
  }

  /** The blocks that carry a bitmap: three copies of it, the flag 0xAABBCCDD low byte first, anything behind. */
  lemma CarriesExactly(block: bytes, n: nat)
    ensures CarriesBitmap(block, n) <==>
            exists b: bytes, rest: bytes :: |b| == n && block == ThreeCopies(b) + rest
  {
    if CarriesBitmap(block, n) {
      InFiveParts(block, n);
      assert block == ThreeCopies(block[..n]) + block[3 * n + 4..];
    }
    if b: bytes, rest: bytes :| |b| == n && block == ThreeCopies(b) + rest {
      CopiesAreCarried(b, rest);
    }
  }

  function ThreeCopies(b: bytes): bytes { b + b + b + [0xDD, 0xCC, 0xBB, 0xAA] }

  lemma InFiveParts(block: bytes, n: nat)
    requires 3 * n + 4 <= |block|
    ensures block == block[..n] + block[n..2 * n] + block[2 * n..3 * n] + block[3 * n..3 * n + 4] + block[3 * n + 4..]
  {
  }

  lemma CopiesAreCarried(b: bytes, rest: bytes)
    ensures CarriesBitmap(ThreeCopies(b) + rest, |b|)
  {
    var block, n := ThreeCopies(b) + rest, |b|;
    assert block[..n] == b;
    assert block[n..2 * n] == b;
    assert block[2 * n..3 * n] == b;
    assert block[3 * n..3 * n + 4] == [0xDD, 0xCC, 0xBB, 0xAA];
  }

  /** One damaged byte, in any of the copies or in the flag, and the block is refused. */
  lemma DamagedBitmapIsRefused(block: bytes, n: nat, k: nat, v: byte)
    requires CarriesBitmap(block, n) && k < 3 * n + 4 && v != block[k]
    ensures !CarriesBitmap(block[k := v], n)
  {
    var after := block[k := v];
    DamagedPart(block, k, v, 0, n);
    DamagedPart(block, k, v, n, 2 * n);
    DamagedPart(block, k, v, 2 * n, 3 * n);
    DamagedPart(block, k, v, 3 * n, 3 * n + 4);
    assert block[0..n] == block[..n] && after[0..n] == after[..n];
  }

  lemma DamagedPart(block: bytes, k: nat, v: byte, lo: nat, hi: nat)
    requires k < |block| && v != block[k] && lo <= hi <= |block|
    ensures block[k := v][lo..hi] == block[lo..hi] <==> !(lo <= k < hi)
  {
    var x, y := block[k := v][lo..hi], block[lo..hi];
    if lo <= k < hi {
      assert x[k - lo] == v && y[k - lo] == block[k];
    }
  }

  /** The highest candidate below `b` whose block carries a bitmap. A seek before the device's start
      reads nothing, which ends the search. */
  function FindBitmap(dev: bytes, r: Region, reserve: nat, b: nat): (k: Option<nat>)
    ensures k.Some? ==> reserve <= k.value < b
  {
    if b == 0 || b - 1 < reserve then None
    else if CarriesBitmap(Block(dev, r, b - 1 - reserve), r.blocks) then Some(b - 1)
    else FindBitmap(dev, r, reserve, b - 1)
  }

  /** The bitmap found is the topmost one. */
  lemma {:induction false} FindBitmapIsTopmost(dev: bytes, r: Region, reserve: nat, b: nat, k: nat)
    requires reserve <= k < b
    ensures FindBitmap(dev, r, reserve, b) == Some(k) <==>
            && CarriesBitmap(Block(dev, r, k - reserve), r.blocks)
            && (forall c: nat | k - reserve < c < b - reserve :: !CarriesBitmap(Block(dev, r, c), r.blocks))
  {
    if !CarriesBitmap(Block(dev, r, b - 1 - reserve), r.blocks) && k < b - 1 {
      FindBitmapIsTopmost(dev, r, reserve, b - 1, k);
    }
  }

  /** The good blocks from `i` up to `k`, in order: those the bitmap marks with zero. */
  function GoodBlocks(bitmap: bytes, i: nat, k: nat): (gs: seq<nat>)
    requires k <= |bitmap|
    decreases k - i
  {
    if i >= k then [] else (if bitmap[i] == 0 then [i] else []) + GoodBlocks(bitmap, i + 1, k)
  }

  predicate AllBelow(gs: seq<nat>, n: nat) { forall i | 0 <= i < |gs| :: gs[i] < n }

  lemma {:induction false} GoodBlocksAreGood(bitmap: bytes, i: nat, k: nat)
    requires k <= |bitmap|
    ensures AllBelow(GoodBlocks(bitmap, i, k), k)
    ensures forall b: nat :: b in GoodBlocks(bitmap, i, k) <==> i <= b < k && bitmap[b] == 0
    decreases k - i
  {
    if i < k {
      GoodBlocksAreGood(bitmap, i + 1, k);
    }
  }

  /** The contents of these blocks, one after the other. */
  function Gather(dev: bytes, r: Region, gs: seq<nat>): bytes {
    if gs == [] then [] else Block(dev, r, gs[0]) + Gather(dev, r, gs[1..])
  }

  /** The two files the reader writes. */
  datatype Files = Files(map': bytes, dat: bytes)

  /** Where the search got: the bitmap, its index, and the block of the map. */
  datatype Plan = Plan(reserve: nat, bitmap: bytes, limit: nat, mapBlock: nat) {
    predicate Valid(r: Region) {
      reserve <= 1 && r.blocks == |bitmap| && mapBlock < limit < r.blocks && reserve <= limit
    }

    /** The good blocks behind the map. */
    function DataBlocks(): seq<nat>
      requires limit <= |bitmap|
    {
      GoodBlocks(bitmap, mapBlock + 1 + reserve, limit)
    }

    /** The search behind the map has come to the limit without a good block. */
    predicate NoneLeft()
      requires limit <= |bitmap|
    {
      mapBlock + 1 + reserve <= limit && DataBlocks() == []
    }
  }

  ghost function MakePlan(dev: bytes, r: Region): (plan: Option<Plan>)
    requires r.Valid() && Fits(dev, r)
    ensures plan.Some? ==> plan.value.Valid(r)
  {
    if r.blocks == 0 then None
    else
      var reserve := Reserve(Block(dev, r, 0), r);
      match FindBitmap(dev, r, reserve, r.blocks)
      case None => None
      case Some(k) =>
        var bitmap := Block(dev, r, k - reserve)[..r.blocks];
        var good := GoodBlocks(bitmap, 0, k);
        GoodBlocksAreGood(bitmap, 0, k);
        if good == [] then None else Some(Plan(reserve, bitmap, k, good[0]))
  }

  /** The one or two blocks of the map: header, map, and what follows. */
  function MapBuffer(dev: bytes, r: Region, plan: Plan): bytes {
    Block(dev, r, plan.mapBlock) + if plan.reserve == 0 then [] else Block(dev, r, plan.mapBlock + 1)
  }

  function MapSize(buf: bytes): nat requires |buf| >= 12 { Word(buf[..4]) }

  function DatSize(buf: bytes): nat requires |buf| >= 12 { Word(buf[4..8]) }

  /** What the writer of the region guarantees the reader: the map it announces fits the buffer the
      reader takes it from, with the two backup counts behind it. */
  ghost predicate MapFits(dev: bytes, r: Region)
    requires r.Valid() && Fits(dev, r)
  {
    var plan := MakePlan(dev, r);
    plan.Some? ==>
      var buf := MapBuffer(dev, r, plan.value); 12 <= |buf| && 12 + MapSize(buf) + 6 <= |buf|
  }

  /** The data file: the first `datSize` bytes of the good blocks behind the map, taken in order; none
      when these blocks are fewer than it needs. Without a good block there is none either, even for an
      empty file, unless a map of two blocks ends past the limit: then the test for that is skipped. */
  function DataFile(dev: bytes, r: Region, plan: Plan, datSize: nat): Option<bytes>
    requires plan.limit <= |plan.bitmap|
  {
    var all := Gather(dev, r, plan.DataBlocks());
    if plan.NoneLeft() || |plan.DataBlocks()| * r.blockSize < datSize || |all| < datSize then None
    else Some(all[..datSize])
  }

  /** Behind a map with no good block left, nothing is read; but a map of two blocks that ends past the limit does
      not keep an empty data file from being read. */
  lemma WithoutDataBlocks(dev: bytes, r: Region, plan: Plan, datSize: nat)
    requires plan.Valid(r) && plan.DataBlocks() == []
    ensures DataFile(dev, r, plan, datSize)
         == if plan.reserve == 1 && plan.mapBlock + 1 == plan.limit && datSize == 0 then Some([]) else None
  {
  }

  /** The reader's result in one piece. */
  ghost function Restored(dev: bytes, r: Region): Option<Files>
    requires r.Valid() && Fits(dev, r) && MapFits(dev, r)
  {
    match MakePlan(dev, r)
    case None => None
    case Some(plan) =>
      var buf := MapBuffer(dev, r, plan);
      match DataFile(dev, r, plan, DatSize(buf))
      case None => None
      case Some(dat) => Some(Files(buf[12..12 + MapSize(buf)], dat))
  }

  // ----- block arithmetic -----

  lemma MulMono(a: nat, b: nat, c: nat)
    requires a <= b
    ensures a * c <= b * c
  {
  }

  /** The region of a device, as the platform's numbers give it, lies within the device. */
  lemma RegionFits(dev: bytes, g: Geometry, r: Region)
    requires g.blockSize > 0 && |dev| == g.size && r.blockSize == g.blockSize
    requires r.blocks <= g.Blocks()
    ensures Fits(dev, r)
    ensures r.blocks * r.blockSize <= |dev|
    ensures var taken := if g.layout == 0 then g.logBlocks + g.resvBlocks + g.dmBlocks else g.dmBlocks;
            r.blocks + taken <= g.size / g.blockSize && (r.blocks == g.Blocks() ==> r.blocks + taken == g.size / g.blockSize)
  {
    var q := g.size / g.blockSize;
    assert q * g.blockSize <= g.size;
    MulMono(r.blocks, q, g.blockSize);
    forall k: nat | k < r.blocks
      ensures |Block(dev, r, k)| == r.blockSize
    {
      MulMono(k + 1, q, g.blockSize);
      assert (k + 1) * g.blockSize == k * g.blockSize + g.blockSize;
    }
  }

  /** Two blocks read by one call are the two blocks. */
  lemma TwoBlocksInOneRead(dev: bytes, r: Region, k: nat)
    requires Fits(dev, r) && k + 1 < r.blocks
    ensures PRead(dev, k * r.blockSize, 2 * r.blockSize) == Block(dev, r, k) + Block(dev, r, k + 1)
  {
    assert |Block(dev, r, k + 1)| == r.blockSize;
    var a, n := k * r.blockSize, r.blockSize;
    assert (k + 1) * r.blockSize == a + n;
    if n > 0 {
      assert dev[a..a + 2 * n] == dev[a..a + n] + dev[a + n..a + 2 * n];
    }
  }

  lemma {:induction false} GatherLength(dev: bytes, r: Region, gs: seq<nat>)
    requires Fits(dev, r) && AllBelow(gs, r.blocks)
    ensures |Gather(dev, r, gs)| == |gs| * r.blockSize
  {
    if gs != [] {
      assert |Block(dev, r, gs[0])| == r.blockSize;
      GatherLength(dev, r, gs[1..]);
      assert |gs| * r.blockSize == r.blockSize + (|gs| - 1) * r.blockSize;
    }
  }

  lemma {:induction false} GatherAppend(dev: bytes, r: Region, a: seq<nat>, b: seq<nat>)
    ensures Gather(dev, r, a + b) == Gather(dev, r, a) + Gather(dev, r, b)
  {
    if a == [] {
      assert a + b == b;
    } else {
      assert (a + b)[1..] == a[1..] + b;
      GatherAppend(dev, r, a[1..], b);
    }
  }

  // ----- the reader -----

  /** A byte-by-byte comparison of two buffers. */
  method SameBytes(a: bytes, b: bytes) returns (same: bool)
    requires |a| == |b|
    ensures same == (a == b)
  {
    var i := 0;
    while i < |a|
      invariant 0 <= i <= |a| && a[..i] == b[..i]
    {
      if a[i] != b[i] {
        return false;
      }
      i := i + 1;
    }
    assert a[..i] == a && b[..i] == b;
    same := true;
  }

  /** The checks on one candidate block. */
  method CheckBitmapBlock(block: bytes, n: nat) returns (found: bool)
    requires 3 * n + 4 <= |block|
    ensures found == CarriesBitmap(block, n)
  {
    var same := SameBytes(block[..n], block[n..2 * n]);
    if !same {
      return false;
    }
    same := SameBytes(block[..n], block[2 * n..3 * n]);
    if !same {
      return false;
    }
    found := block[3 * n..3 * n + 4] == BITMAP_FLAG;
  }

  /** The downward scan for the bitmap. */
  method ScanForBitmap(dev: bytes, r: Region, reserve: nat) returns (k: Option<nat>)
    requires r.Valid() && Fits(dev, r)
    ensures k == FindBitmap(dev, r, reserve, r.blocks)
  {
    hide Block, CarriesBitmap;
    var blockNum := r.blocks;
    while blockNum > 0
      invariant 0 <= blockNum <= r.blocks
      invariant FindBitmap(dev, r, reserve, blockNum) == FindBitmap(dev, r, reserve, r.blocks)
    {
      blockNum := blockNum - 1;
      if blockNum - reserve < 0 {
        return None;
      }
      assert |Block(dev, r, blockNum - reserve)| == r.blockSize;
      var found := CheckBitmapBlock(Block(dev, r, blockNum - reserve), r.blocks);
      if found {
        return Some(blockNum);
      }
    }
    k := None;
  }

  /** The first good block from `i` up to `limit`; `limit` when there is none. */
  method NextGood(bitmap: bytes, i: nat, limit: nat) returns (b: nat)
    requires i <= limit <= |bitmap|
    ensures i <= b <= limit
    ensures b == limit ==> GoodBlocks(bitmap, i, limit) == []
    ensures b < limit ==> bitmap[b] == 0 && GoodBlocks(bitmap, i, limit) == [b] + GoodBlocks(bitmap, b + 1, limit)
  {
    b := i;
    while b < limit
      invariant i <= b <= limit
      invariant GoodBlocks(bitmap, b, limit) == GoodBlocks(bitmap, i, limit)
    {
      if bitmap[b] == 0 {
        return;
      }
      b := b + 1;
    }
  }

  method CountGood(bitmap: bytes, i: nat, limit: nat) returns (n: nat)
    requires i <= limit <= |bitmap|
    ensures n == |GoodBlocks(bitmap, i, limit)|
  {
    n := 0;
    var b := i;
    while b < limit
      invariant i <= b <= limit
      invariant n + |GoodBlocks(bitmap, b, limit)| == |GoodBlocks(bitmap, i, limit)|
    {
      if bitmap[b] == 0 {
        n := n + 1;
      }
      b := b + 1;
    }
  }

  /** How many blocks hold `size` bytes. */
  function BlocksFor(size: nat, blockSize: nat): nat
    requires blockSize > 0
  {
    if size % blockSize != 0 then size / blockSize + 1 else size / blockSize
  }

  /** `n` blocks hold `size` bytes exactly when they are as many as that takes. */
  lemma BlocksForFits(size: nat, blockSize: nat, n: nat)
    requires blockSize > 0
    ensures size <= n * blockSize <==> BlocksFor(size, blockSize) <= n
    ensures size <= BlocksFor(size, blockSize) * blockSize
  {
    var k, q := BlocksFor(size, blockSize), size / blockSize;
    assert size == q * blockSize + size % blockSize;
    assert (q + 1) * blockSize == q * blockSize + blockSize;
    assert k > 0 ==> (k - 1) * blockSize < size;
    if k > n {
      MulMono(n, k - 1, blockSize);
    } else {
      MulMono(k, n, blockSize);
    }
  }

  /** The data-file loop. Once the capacity check has passed, the branch for running out of good blocks
      cannot be taken. */
  method ReadBlocks(dev: bytes, r: Region, bitmap: bytes, limit: nat, first: nat, readTime: nat) returns (buffer: bytes)
    requires first < limit <= |bitmap| && bitmap[first] == 0
    requires readTime <= |GoodBlocks(bitmap, first, limit)|
    ensures buffer == Gather(dev, r, GoodBlocks(bitmap, first, limit)[..readTime])
  {
    ghost var gs := GoodBlocks(bitmap, first, limit);
    buffer := [];
    var pos := first;
    var i := 0;
    while i < readTime
      invariant 0 <= i <= readTime
      invariant buffer == Gather(dev, r, gs[..i])
      invariant i < readTime ==> first <= pos < limit && gs[i..] == [pos] + GoodBlocks(bitmap, pos + 1, limit)
    {
      GatherNext(dev, r, gs, i, pos, GoodBlocks(bitmap, pos + 1, limit));
      buffer := buffer + Block(dev, r, pos);
      i := i + 1;
      if i == readTime {
        break;
      }
      var j := NextGood(bitmap, pos + 1, limit);
      if j >= limit {
        assert false;
      }
      pos := j;
    }
  }

  lemma GatherNext(dev: bytes, r: Region, gs: seq<nat>, i: nat, pos: nat, rest: seq<nat>)
    requires i < |gs| && gs[i..] == [pos] + rest
    ensures gs[i + 1..] == rest
    ensures Gather(dev, r, gs[..i + 1]) == Gather(dev, r, gs[..i]) + Block(dev, r, pos)
  {
    assert gs[i] == gs[i..][0] == pos;
    assert gs[i + 1..] == gs[i..][1..];
    assert gs[..i + 1] == gs[..i] + [pos];
    GatherAppend(dev, r, gs[..i], [pos]);
    assert Gather(dev, r, [pos]) == Block(dev, r, pos) + Gather(dev, r, []);
  }

  /** The capacity check and the data file. */
  method ReadDataFile(dev: bytes, r: Region, plan: Plan, datSize: nat) returns (dat: Option<bytes>)
    requires r.Valid() && Fits(dev, r) && plan.Valid(r)
    ensures dat == DataFile(dev, r, plan, datSize)
  {
    var start := plan.mapBlock + 1 + plan.reserve;
    ghost var gs := plan.DataBlocks();
    EnoughBlocks(dev, r, plan, datSize);
    if start > plan.limit {
      return if datSize > 0 then None else Some([]);
    }
    var first := NextGood(plan.bitmap, start, plan.limit);
    if first == plan.limit {
      return None;
    }
    var free := CountGood(plan.bitmap, first, plan.limit);
    if free * r.blockSize < datSize {
      return None;
    }
    assert gs == GoodBlocks(plan.bitmap, first, plan.limit);
    var buffer := ReadBlocks(dev, r, plan.bitmap, plan.limit, first, BlocksFor(datSize, r.blockSize));
    dat := Some(buffer[..datSize]);
  }

  /** The capacity check passes exactly when the good blocks are as many as the file takes, so that the
      loop does not run out of them; and that many hold the same first bytes as all of them. */
  lemma EnoughBlocks(dev: bytes, r: Region, plan: Plan, datSize: nat)
    requires r.Valid() && Fits(dev, r) && plan.Valid(r)
    ensures var gs, n := plan.DataBlocks(), BlocksFor(datSize, r.blockSize);
            && (datSize <= |gs| * r.blockSize <==> n <= |gs|)
            && (n <= |gs| ==>
                  var some, all := Gather(dev, r, gs[..n]), Gather(dev, r, gs);
                  datSize <= |some| && datSize <= |all| && some[..datSize] == all[..datSize])
  {
    var gs, n := plan.DataBlocks(), BlocksFor(datSize, r.blockSize);
    BlocksForFits(datSize, r.blockSize, |gs|);
    if n <= |gs| {
      GoodBlocksAreGood(plan.bitmap, plan.mapBlock + 1 + plan.reserve, plan.limit);
      assert gs == gs[..n] + gs[n..];
      GatherLength(dev, r, gs[..n]);
      GatherAppend(dev, r, gs[..n], gs[n..]);
    }
  }

  /** The search for the bitmap and for the map's block. */
  method SearchPlan(dev: bytes, r: Region) returns (plan: Option<Plan>)
    requires r.Valid() && Fits(dev, r)
    ensures plan == MakePlan(dev, r)
  {
    if r.blocks == 0 {
      return None;
    }
    assert |Block(dev, r, 0)| == r.blockSize;
    var reserve := Reserve(Block(dev, r, 0), r);
    var k := ScanForBitmap(dev, r, reserve);
    if k.None? {
      return None;
    }
    assert |Block(dev, r, k.value - reserve)| == r.blockSize;
    var bitmap := Block(dev, r, k.value - reserve)[..r.blocks];
    var mapBlock := NextGood(bitmap, 0, k.value);
    if mapBlock == k.value {
      return None;
    }
    plan := Some(Plan(reserve, bitmap, k.value, mapBlock));
  }

  /** The block-level part of NVM_RestoreFromBinRegion_OneFile. */
  method RestoreFiles(dev: bytes, r: Region) returns (files: Option<Files>)
    requires r.Valid() && Fits(dev, r) && MapFits(dev, r)
    ensures files == Restored(dev, r)
  {
    var plan := SearchPlan(dev, r);
    if plan.None? {
      return None;
    }
    var buf := ReadMapBuffer(dev, r, plan.value);
    var dat := ReadDataFile(dev, r, plan.value, DatSize(buf));
    if dat.None? {
      return None;
    }
    files := Some(Files(buf[12..12 + MapSize(buf)], dat.value));
  }

  /** One read of one or two blocks. */
  method ReadMapBuffer(dev: bytes, r: Region, plan: Plan) returns (buf: bytes)
    requires r.Valid() && Fits(dev, r) && plan.Valid(r)
    ensures buf == MapBuffer(dev, r, plan)
  {
    hide PRead;
    buf := PRead(dev, plan.mapBlock * r.blockSize, r.blockSize * (plan.reserve + 1));
    if plan.reserve == 1 {
      TwoBlocksInOneRead(dev, r, plan.mapBlock);
    }
  }

  // ----- what the result depends on -----

  /** Two devices whose reader blocks are the same. */
  ghost predicate SameRegion(dev: bytes, dev': bytes, r: Region) {
    forall k: nat | k < r.blocks :: Block(dev', r, k) == Block(dev, r, k)
  }

  lemma {:induction false} SameBitmap(dev: bytes, dev': bytes, r: Region, reserve: nat, b: nat)
    requires SameRegion(dev, dev', r) && b <= r.blocks
    ensures FindBitmap(dev', r, reserve, b) == FindBitmap(dev, r, reserve, b)
  {
    if b != 0 && b - 1 >= reserve {
      assert Block(dev', r, b - 1 - reserve) == Block(dev, r, b - 1 - reserve);
      SameBitmap(dev, dev', r, reserve, b - 1);
    }
  }

  lemma SameFits(dev: bytes, dev': bytes, r: Region)
    requires Fits(dev, r) && SameRegion(dev, dev', r)
    ensures Fits(dev', r)
  {
    forall k: nat | k < r.blocks
      ensures |Block(dev', r, k)| == r.blockSize
    {
      assert |Block(dev, r, k)| == r.blockSize;
    }
  }

  lemma SamePlan(dev: bytes, dev': bytes, r: Region)
    requires r.Valid() && Fits(dev, r) && Fits(dev', r) && SameRegion(dev, dev', r)
    ensures MakePlan(dev', r) == MakePlan(dev, r)
  {
    hide Block, FindBitmap, Reserve;
    if r.blocks > 0 {
      assert Block(dev', r, 0) == Block(dev, r, 0);
      SameBitmap(dev, dev', r, Reserve(Block(dev, r, 0), r), r.blocks);
    }
  }

  lemma {:induction false} SameGather(dev: bytes, dev': bytes, r: Region, gs: seq<nat>)
    requires SameRegion(dev, dev', r) && AllBelow(gs, r.blocks)
    ensures Gather(dev', r, gs) == Gather(dev, r, gs)
  {
    if gs != [] {
      assert Block(dev', r, gs[0]) == Block(dev, r, gs[0]);
      SameGather(dev, dev', r, gs[1..]);
    }
  }

  /** The restore result depends on nothing outside the reader's blocks. */
  lemma RestoredDependsOnRegion(dev: bytes, dev': bytes, r: Region)
    requires r.Valid() && Fits(dev, r) && MapFits(dev, r) && SameRegion(dev, dev', r)
    ensures Fits(dev', r) && MapFits(dev', r) && Restored(dev', r) == Restored(dev, r)
  {
    hide Fits, SameRegion, MakePlan, MapBuffer, DataFile;
    SameFits(dev, dev', r);
    SamePlan(dev, dev', r);
    match MakePlan(dev, r)
    case None =>
    case Some(plan) =>
      SameFiles(dev, dev', r, plan, DatSize(MapBuffer(dev, r, plan)));
  }

  lemma SameFiles(dev: bytes, dev': bytes, r: Region, plan: Plan, datSize: nat)
    requires SameRegion(dev, dev', r) && plan.Valid(r)
    ensures MapBuffer(dev', r, plan) == MapBuffer(dev, r, plan)
    ensures DataFile(dev', r, plan, datSize) == DataFile(dev, r, plan, datSize)
  {
    assert plan.mapBlock + 1 < r.blocks;
    GoodBlocksAreGood(plan.bitmap, plan.mapBlock + 1 + plan.reserve, plan.limit);
    SameGather(dev, dev', r, plan.DataBlocks());
  }

  // ----- the layout the writer leaves -----

  /** `dat` lies block by block in the blocks `gs`, the last one filled up with anything. */
  ghost predicate Placed(dev: bytes, r: Region, gs: seq<nat>, dat: bytes)
    decreases |gs|
  {
    if |dat| <= r.blockSize then dat == [] || (gs != [] && dat <= Block(dev, r, gs[0]))
    else gs != [] && Block(dev, r, gs[0]) == dat[..r.blockSize] && Placed(dev, r, gs[1..], dat[r.blockSize..])
  }

  lemma {:induction false} PlacedIsPrefix(dev: bytes, r: Region, gs: seq<nat>, dat: bytes)
    requires Placed(dev, r, gs, dat)
    ensures dat <= Gather(dev, r, gs)
    decreases |gs|
  {
    if |dat| > r.blockSize {
      PlacedIsPrefix(dev, r, gs[1..], dat[r.blockSize..]);
      assert dat == dat[..r.blockSize] + dat[r.blockSize..];
    } else if dat != [] {
      assert Gather(dev, r, gs) == Block(dev, r, gs[0]) + Gather(dev, r, gs[1..]);
    }
  }

  /** The header in front of the map: its size and that of the data file. */
  predicate Header(buf: bytes, files: Files) {
    && 12 + |files.map'| + 6 <= |buf|
    && |files.map'| < 0x1_0000_0000 && |files.dat| < 0x1_0000_0000
    && buf[..4] == WordBytes(|files.map'|) && buf[4..8] == WordBytes(|files.dat|)
    && buf[12..12 + |files.map'|] == files.map'
  }

  /** How many blocks beyond the first a map of this size takes with its header, in whole write units. */
  function Extra(mapSize: nat, r: Region): nat
    requires r.writeSize > 0
  {
    if mapSize + 12 <= r.blockSize - r.blockSize % r.writeSize then 0 else 1
  }

  /** The first word of a block is a size that takes as many blocks. */
  predicate SameLength(block0: bytes, r: Region, reserve: nat)
    requires r.writeSize > 0
  {
    && |block0| >= 4 && Word(block0[..4]) + 12 + r.writeSize <= 0x1_0000_0000
    && Extra(Word(block0[..4]), r) == reserve
  }

  /** The layout of a region, block by block: the bitmap, three times and with its flag, is in block
      `k` less the blocks kept for a long map, with nothing like it above; the map is in the first good
      block `m` and, when it is long, the one behind; the data file fills good blocks behind that. Block
      0, from which the length of the map is guessed, is the map's block, or its first word is a size that
      takes as many blocks. */
  ghost predicate LaidOut(dev: bytes, r: Region, k: nat, m: nat, files: Files)
    requires r.Valid() && Fits(dev, r)
  {
    var reserve := Extra(|files.map'|, r);
    && |files.map'| + 12 + r.writeSize <= 0x1_0000_0000
    && reserve <= k < r.blocks
    && CarriesBitmap(Block(dev, r, k - reserve), r.blocks)
    && (forall c: nat | k - reserve < c < r.blocks - reserve :: !CarriesBitmap(Block(dev, r, c), r.blocks))
    && (var bitmap := Block(dev, r, k - reserve)[..r.blocks];
        && m < k && bitmap[m] == 0 && (forall b: nat | b < m :: bitmap[b] != 0)
        && (m != 0 ==> SameLength(Block(dev, r, 0), r, reserve))
        && Header(Block(dev, r, m) + if reserve == 0 then [] else Block(dev, r, m + 1), files)
        && (var gs := GoodBlocks(bitmap, m + 1 + reserve, k); gs != [] && Placed(dev, r, gs, files.dat)))
  }

  /** The good blocks start with the first one marked good. */
  lemma {:induction false} FirstGood(bitmap: bytes, i: nat, k: nat, m: nat)
    requires k <= |bitmap| && i <= m < k && bitmap[m] == 0
    requires forall b: nat | i <= b < m :: bitmap[b] != 0
    ensures GoodBlocks(bitmap, i, k) != [] && GoodBlocks(bitmap, i, k)[0] == m
    decreases m - i
  {
    if i < m {
      assert bitmap[i] != 0;
      FirstGood(bitmap, i + 1, k, m);
    }
  }

  /** The reader finds the bitmap and the map where the layout has them. */
  lemma FindsTheLayout(dev: bytes, r: Region, k: nat, m: nat, files: Files)
    requires r.Valid() && Fits(dev, r) && LaidOut(dev, r, k, m, files)
    ensures var reserve := Extra(|files.map'|, r);
            && |Block(dev, r, k - reserve)| == r.blockSize
            && MakePlan(dev, r) == Some(Plan(reserve, Block(dev, r, k - reserve)[..r.blocks], k, m))
  {
    hide LaidOut, CarriesBitmap, Reserve, Extra, Block, FindBitmap, GoodBlocks, Fits;
    GuessesTheReserve(dev, r, k, m, files);
    FindsBitmap(dev, r, k, m, files);
    FindsMap(dev, r, k, m, files);
  }

  lemma FindsBitmap(dev: bytes, r: Region, k: nat, m: nat, files: Files)
    requires r.Valid() && Fits(dev, r) && LaidOut(dev, r, k, m, files)
    ensures k < r.blocks && FindBitmap(dev, r, Extra(|files.map'|, r), r.blocks) == Some(k)
  {
    hide CarriesBitmap, Placed, Header, Reserve, Extra, Block, FindBitmap;
    FindBitmapIsTopmost(dev, r, Extra(|files.map'|, r), r.blocks, k);
  }

  lemma FindsMap(dev: bytes, r: Region, k: nat, m: nat, files: Files)
    requires r.Valid() && Fits(dev, r) && LaidOut(dev, r, k, m, files)
    ensures var reserve := Extra(|files.map'|, r);
            && reserve <= k < r.blocks && |Block(dev, r, k - reserve)| == r.blockSize
            && GoodBlocks(Block(dev, r, k - reserve)[..r.blocks], 0, k) != []
            && GoodBlocks(Block(dev, r, k - reserve)[..r.blocks], 0, k)[0] == m
  {
    hide CarriesBitmap, Placed, Header, Reserve, Extra, Block, GoodBlocks;
    var reserve := Extra(|files.map'|, r);
    assert |Block(dev, r, k - reserve)| == r.blockSize;
    FirstGood(Block(dev, r, k - reserve)[..r.blocks], 0, k, m);
  }

  lemma GuessesTheReserve(dev: bytes, r: Region, k: nat, m: nat, files: Files)
    requires r.Valid() && Fits(dev, r) && LaidOut(dev, r, k, m, files)
    ensures |Block(dev, r, 0)| == r.blockSize && Reserve(Block(dev, r, 0), r) == Extra(|files.map'|, r)
  {
    hide CarriesBitmap, Placed;
    assert |Block(dev, r, 0)| == r.blockSize;
    if m == 0 {
      var buf := Block(dev, r, m) + if Extra(|files.map'|, r) == 0 then [] else Block(dev, r, m + 1);
      assert Block(dev, r, 0)[..4] == buf[..4];
      WordRoundTrip(|files.map'|);
    }
    ReserveIsBySize(Word(Block(dev, r, 0)[..4]), r);
  }

  /** The reader returns exactly the two files laid out in the region. */
  lemma ReadsWhatWasLaidOut(dev: bytes, r: Region, k: nat, m: nat, files: Files)
    requires r.Valid() && Fits(dev, r) && LaidOut(dev, r, k, m, files)
    ensures MapFits(dev, r) && Restored(dev, r) == Some(files)
  {
    hide Fits, MakePlan, LaidOut, DataFile, MapBuffer;
    FindsTheLayout(dev, r, k, m, files);
    MapIsRead(dev, r, k, m, files);
    DataIsRead(dev, r, k, m, files);
  }

  lemma MapIsRead(dev: bytes, r: Region, k: nat, m: nat, files: Files)
    requires r.Valid() && Fits(dev, r) && LaidOut(dev, r, k, m, files)
    requires MakePlan(dev, r).Some? && MakePlan(dev, r).value.mapBlock == m
    requires MakePlan(dev, r).value.reserve == Extra(|files.map'|, r)
    ensures var buf := MapBuffer(dev, r, MakePlan(dev, r).value);
            && 12 <= |buf| && 12 + MapSize(buf) + 6 <= |buf|
            && buf[12..12 + MapSize(buf)] == files.map' && DatSize(buf) == |files.dat|
  {
    hide MakePlan, CarriesBitmap, Placed, Block, Fits, Extra, Word;
    WordRoundTrip(|files.map'|);
    WordRoundTrip(|files.dat|);
  }

  lemma DataIsRead(dev: bytes, r: Region, k: nat, m: nat, files: Files)
    requires r.Valid() && Fits(dev, r) && LaidOut(dev, r, k, m, files)
    requires var reserve := Extra(|files.map'|, r);
             |Block(dev, r, k - reserve)| == r.blockSize
             && MakePlan(dev, r) == Some(Plan(reserve, Block(dev, r, k - reserve)[..r.blocks], k, m))
    ensures DataFile(dev, r, MakePlan(dev, r).value, |files.dat|) == Some(files.dat)
  {
    hide MakePlan, CarriesBitmap, Block, Header, Extra, Placed, DataFile;
    PlacedIsTheDataFile(dev, r, MakePlan(dev, r).value, files.dat);
  }

  lemma PlacedIsTheDataFile(dev: bytes, r: Region, plan: Plan, dat: bytes)
    requires r.Valid() && Fits(dev, r) && plan.Valid(r)
    requires plan.DataBlocks() != [] && Placed(dev, r, plan.DataBlocks(), dat)
    ensures DataFile(dev, r, plan, |dat|) == Some(dat)
  {
    hide Block, Fits, Placed, Gather;
    var gs := plan.DataBlocks();
    var all := Gather(dev, r, gs);
    GoodBlocksAreGood(plan.bitmap, plan.mapBlock + 1 + plan.reserve, plan.limit);
    GatherLength(dev, r, gs);
    PlacedIsPrefix(dev, r, gs, dat);
    assert all[..|dat|] == dat;
  }
}
