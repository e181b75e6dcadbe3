/** From flash to file: a corrupt record file is replaced by exactly the bytes the region's writer stored
    for it, also after any amount of logging to the same device. */
module Recovery {
  import opened Bytes
  import opened Config
  import opened CheckTrailer
  import opened NvramStore
  import opened BinRegion
  import opened TitleTable
  import opened BackupFile
  import Log = Journal
  import Pages
  import Regions

  /** The region's files are such that the reader stays within its buffers. */
  ghost predicate Readable(dev: bytes, r: Region, f: Features)
    requires r.Valid() && Fits(dev, r)
  {
    MapFits(dev, r) && (Restored(dev, r).Some? && Accepted(Restored(dev, r).value) ==> TitlesFit(Restored(dev, r).value.map', f))
  }

  /** What the bin region holds for a path: read the region, check the data, search the titles, cut. */
  ghost function RegionImage(dev: bytes, r: Region, f: Features, path: bytes): Option<bytes>
    requires r.Valid() && Fits(dev, r) && Readable(dev, r, f)
  {
    match Restored(dev, r)
    case None => None
    case Some(files) => ImageOf(files, f, path)
  }

  /** What the writer of a region leaves: the layout of its blocks, a map with the data's checksum, and a table of
      the files stored, section by section. */
  ghost predicate Backup(dev: bytes, r: Region, k: nat, m: nat, files: Files, f: Features, ss: seq<seq<Stored>>)
    requires r.Valid() && Fits(dev, r)
  {
    LaidOut(dev, r, k, m, files) && Accepted(files) && Written(files.map', f, ss) && |ss| == Sections(f)
  }

  /** The file that a search for `path` comes upon is this one, and its bytes are in the data file. */
  ghost predicate StoredAs(files: Files, f: Features, ss: seq<seq<Stored>>, c: Category, j: nat, path: bytes, x: Stored)
    requires |ss| == Sections(f)
  {
    && FirstStored(f, ss, c, j, path) && x == SectionOf(f, ss, c)[j]
    && 0 < x.size < 0x7FFF_FFFF && x.start < 0x8000_0000 && x.start + x.size <= |files.dat|
  }

  /** A region so written yields, for each path, the bytes of the data file from the start to the end that were
      written down for the first file stored under that path. */
  lemma StoredFileIsFound(dev: bytes, r: Region, k: nat, m: nat, files: Files, f: Features, ss: seq<seq<Stored>>,
                          c: Category, j: nat, path: bytes, x: Stored)
    requires r.Valid() && Fits(dev, r) && Backup(dev, r, k, m, files, f, ss) && StoredAs(files, f, ss, c, j, path, x)
    ensures Readable(dev, r, f)
    ensures RegionImage(dev, r, f, path) == Some(files.dat[x.start..x.start + x.size])
  {
    hide LaidOut, Restored, Accepted, Written, FirstStored, MapFits, ImageOf, TitlesFit;
    ReadsWhatWasLaidOut(dev, r, k, m, files);
    StoredIsRestored(files, f, ss, c, j, path);
  }

  /** A file that protection would not accept: of no right size, or checked and found invalid. */
  ghost predicate Corrupt(s: Store, path: bytes, flag: int, set': bool) {
    flag == -1 || (flag == 1 && !set' && path in s.files && !CheckFile(s.files[path]))
  }

  /** End to end: protection of a corrupt file that is listed for backup leaves exactly the bytes that were stored
      for its path, if they are a valid file of the table's size; nothing else of the store changes. */
  lemma CorruptFileComesBack(dev: bytes, r: Region, k: nat, m: nat, files: Files, f: Features, ss: seq<seq<Stored>>,
                             c: Category, j: nat, x: Stored, p: Policy, s: Store, lid: nat, set': bool)
    requires r.Valid() && Fits(dev, r) && Backup(dev, r, k, m, files, f, ss)
    requires p.Valid() && 0 < lid < p.t.Count() && p.ListedAs(lid, RecordName(p.t.Entry(lid)))
    requires StoredAs(files, f, ss, c, j, p.t.Entry(lid).path, x)
    requires var e := p.t.Entry(lid);
             x.size == e.recNum * e.recSize + 2 == TableSize(e) + 2 && CheckFile(files.dat[x.start..x.start + x.size])
    requires Corrupt(s, p.t.Entry(lid).path, SizeFlag(s, p.t.Entry(lid)), set')
    ensures Readable(dev, r, f)
    ensures Protect(p, s, lid, set', RegionImage(dev, r, f, p.t.Entry(lid).path))
         == (1, WithFile(WithVersionFile(p, s), p.t.Entry(lid).path, files.dat[x.start..x.start + x.size]))
  {
    StoredFileIsFound(dev, r, k, m, files, f, ss, c, j, p.t.Entry(lid).path, x);
    hide Backup, FirstStored, CheckFile, RegionImage, Readable, Protect;
    GoodImageIsRestored(p, s, lid, set', files.dat[x.start..x.start + x.size]);
  }

  lemma GoodImageIsRestored(p: Policy, s: Store, lid: nat, set': bool, image: bytes)
    requires p.Valid() && 0 < lid < p.t.Count() && p.ListedAs(lid, RecordName(p.t.Entry(lid)))
    requires var e := p.t.Entry(lid);
             |image| == e.recNum * e.recSize + 2 == TableSize(e) + 2 && CheckFile(image)
    requires Corrupt(s, p.t.Entry(lid).path, SizeFlag(s, p.t.Entry(lid)), set')
    ensures Protect(p, s, lid, set', Some(image)) == (1, WithFile(WithVersionFile(p, s), p.t.Entry(lid).path, image))
  {
    hide CheckFile, Reset, SetCheckNo, TableSize;
    var e, s1 := p.t.Entry(lid), WithVersionFile(p, s);
    assert SizeFlag(s1, e) == SizeFlag(s, e);
    assert Restore(p, s1, lid, Some(image)) == (true, WithFile(s1, e.path, image));
  }

  /** Logging to the device changes no image. */
  lemma LoggingKeepsImage(g: Geometry, r: Region, ring: Log.Ring, dev: bytes, es: seq<Pages.Entry>, f: Features, path: bytes)
    requires ring.Valid() && Regions.SameDevice(g, r, ring) && |dev| == ring.size && Pages.AllValid(es)
    requires r.Valid() && Fits(dev, r) && Readable(dev, r, f)
    ensures var after := Log.Run(ring, dev, es);
            Fits(after, r) && Readable(after, r, f) && RegionImage(after, r, f, path) == RegionImage(dev, r, f, path)
  {
    hide Restored, MapFits, Log.Run;
    Regions.LoggingKeepsRestore(g, r, ring, dev, es);
  }
}
