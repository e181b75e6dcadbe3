/** One file out of the backup: the data file is checked as a whole, then the file is found through the
    title table and cut out. */
module BackupFile {
  import opened Bytes
  import opened Alternating
  import opened WordCheckSum
  import opened BinRegion
  import opened TitleTable

  /** The checksum the map file must start with: of the data file, mixed with its size. */
  ghost function ExpectedSum(dat: bytes): nat { Xor(CheckSum(dat), |dat| % 0x1_0000_0000) }

  /** The map file starts with three words, the first of them the checksum. */
  ghost predicate Accepted(files: Files) {
    |files.map'| >= 12 && Word(files.map'[..4]) == ExpectedSum(files.dat)
  }

  /** The bytes a title points at. */
  function Cut(dat: bytes, title: Title): Option<bytes>
    requires |title.startField| == 4 && |title.sizeField| == 4
  {
    var start, size := Int(Word(title.startField)), Int(Word(title.sizeField));
    if size <= 0 || size >= 0x7FFF_FFFF || start < 0 || start + size > |dat| then None
    else Some(dat[start..start + size])
  }

  /** A file's title points at exactly its bytes, from its start on, as many as its size; and at nothing when they
      are not all in the data file, its start is no int, or its size no positive int or the largest one. */
  lemma StoredIsCut(dat: bytes, x: Stored)
    ensures Cut(dat, x.AsTitle())
         == if 0 < x.size < 0x7FFF_FFFF && x.start < 0x8000_0000 && x.start + x.size <= |dat|
            then Some(dat[x.start..x.start + x.size]) else None
  {
    WordRoundTrip(x.start);
    WordRoundTrip(x.size);
  }

  lemma {:induction false} TitleFieldsAreInts(map': bytes, offset: nat, n: nat, name: bytes)
    requires offset + 140 * n <= |map'|
    ensures var t := FirstNamed(Titles(map', offset, n), name);
            t.Some? ==> |t.value.startField| == 4 && |t.value.sizeField| == 4
    decreases n
  {
    if n != 0 {
      FirstOfTitles(map', offset, n, name);
      TitleFieldsAreInts(map', offset + 140, n - 1, name);
    }
  }

  lemma {:induction false} UnmaskedFieldsAreInts(map': bytes, f: Features, cs: seq<Category>, name: bytes)
    requires TitlesFit(map', f)
    ensures var t := FirstNamed(Unmasked(map', f, cs), name);
            t.Some? ==> |t.value.startField| == 4 && |t.value.sizeField| == 4
  {
    if cs != [] {
      UnmaskedNext(map', f, cs, name);
      UnmaskedFieldsAreInts(map', f, cs[1..], name);
      if Readable(FileNum(map', f, cs[0])) {
        TitleFieldsAreInts(map', TitleOffset(map', f, cs[0]), FileNum(map', f, cs[0]), name);
      }
    }
  }

  /** What a restore of the file named `path` gets to write. */
  ghost function ImageOf(files: Files, f: Features, path: bytes): Option<bytes>
    requires Accepted(files) ==> TitlesFit(files.map', f)
  {
    if !Accepted(files) then None
    else
      UnmaskedFieldsAreInts(files.map', f, ALL, path);
      match FirstNamed(Unmasked(files.map', f, ALL), path)
      case None => None
      case Some(title) => Cut(files.dat, title)
  }

  /** NVM_CheckData_OneFile up to the write of the restored file, for a lid. */
  method CheckDataOneFile(files: Files, f: Features, path: bytes) returns (image: Option<bytes>)
    requires Accepted(files) ==> TitlesFit(files.map', f)
    ensures image == ImageOf(files, f, path)
  {
    if |files.map'| < 12 {
      return None;
    }
    var saved := Word(files.map'[..4]);
    var sum := ComputeCheckSum(files.dat);
    if saved != Xor(sum, |files.dat| % 0x1_0000_0000) {
      return None;
    }
    var title := SearchCategories(files.map', f, path);
    UnmaskedFieldsAreInts(files.map', f, ALL, path);
    if title.None? {
      return None;
    }
    image := Cut(files.dat, title.value);
  }

  /** From a written table the restore gets, for a path, the bytes of the first file stored under it. */
  lemma StoredIsRestored(files: Files, f: Features, ss: seq<seq<Stored>>, c: Category, j: nat, path: bytes)
    requires Accepted(files) && Written(files.map', f, ss) && |ss| == Sections(f) && FirstStored(f, ss, c, j, path)
    requires var x := SectionOf(f, ss, c)[j];
             0 < x.size < 0x7FFF_FFFF && x.start + x.size <= |files.dat| && x.start < 0x8000_0000
    ensures TitlesFit(files.map', f)
    ensures var x := SectionOf(f, ss, c)[j];
            ImageOf(files, f, path) == Some(files.dat[x.start..x.start + x.size])
  {
    hide Written, FirstStored, Unmasked, Accepted, TitlesFit, Cut;
    var x := SectionAt(f, ss, c, j, path);
    SearchFindsStored(files.map', f, ss, c, j, path);
    UnmaskedFieldsAreInts(files.map', f, ALL, path);
    StoredIsCut(files.dat, x);
  }

  lemma SectionAt(f: Features, ss: seq<seq<Stored>>, c: Category, j: nat, path: bytes) returns (x: Stored)
    requires |ss| == Sections(f) && FirstStored(f, ss, c, j, path)
    ensures Active(f, c) && j < |SectionOf(f, ss, c)| && x == SectionOf(f, ss, c)[j]
  {
    x := SectionOf(f, ss, c)[j];
  }

  /** Size and sum are both cut to 32 bits: data of 2^32 bytes or more is checked like what is over alone. */
  lemma LongDataIsCheckedAsShort(dat: bytes)
    requires 0x1_0000_0000 <= |dat| < 0x2_0000_0000
    ensures ExpectedSum(dat) == ExpectedSum(dat[..|dat| - 0x1_0000_0000])
  {
    hide CheckSum, Xor;
    SumWraps(dat);
  }

  lemma XorKeepsDifference(a: nat, b: nat, n: nat)
    requires a != b
    ensures Xor(a, n) != Xor(b, n)
  {
    XorUndoesItself(a, n);
    XorUndoesItself(b, n);
  }

  /** A data file with one byte changed is never restored from. */
  lemma CorruptDataIsRefused(files: Files, k: nat, v: byte)
    requires Accepted(files) && |files.dat| < 0x1_0000_0000
    requires k < |files.dat| && v != files.dat[k]
    ensures !Accepted(files.(dat := WithByte(files.dat, k, v)))
  {
    var changed := WithByte(files.dat, k, v);
    CheckSumDetectsOneByteChange(files.dat, k, v);
    assert |changed| == |files.dat|;
    XorKeepsDifference(CheckSum(changed), CheckSum(files.dat), |files.dat| % 0x1_0000_0000);
    assert ExpectedSum(changed) != ExpectedSum(files.dat);
  }

  /** An image is what the first title of that path points at, in one linear search of the unmasked
      sections in table order. */
  lemma ImageIsFirstUnmasked(files: Files, f: Features, path: bytes)
    requires Accepted(files) && TitlesFit(files.map', f)
    ensures ImageOf(files, f, path).Some? ==>
              exists i: nat :: IsFirst(Unmasked(files.map', f, ALL), path, i)
                && ImageOf(files, f, path) == Cut(files.dat, Unmasked(files.map', f, ALL)[i])
    ensures ImageOf(files, f, path).Some? ==>
              exists c: Category, k: nat ::
                && !Masked(f, c) && SectionFits(files.map', f, c) && k < |Section(files.map', f, c)|
                && Section(files.map', f, c)[k].name == path
                && |Section(files.map', f, c)[k].startField| == 4 && |Section(files.map', f, c)[k].sizeField| == 4
                && ImageOf(files, f, path) == Cut(files.dat, Section(files.map', f, c)[k])
  {
    UnmaskedFieldsAreInts(files.map', f, ALL, path);
    if ImageOf(files, f, path).Some? {
      var i := FoundAt(Unmasked(files.map', f, ALL), path);
      assert IsFirst(Unmasked(files.map', f, ALL), path, i);
      var c, k := FromUnmaskedSection(files.map', f, ALL, i);
    }
  }

  /** Title `i` has that name, and none before it; its two fields are there. */
  predicate IsFirst(ts: seq<Title>, name: bytes, i: nat) {
    && i < |ts| && ts[i].name == name && |ts[i].startField| == 4 && |ts[i].sizeField| == 4
    && forall j | 0 <= j < i :: ts[j].name != name
  }

  lemma {:induction false} FoundAt(ts: seq<Title>, name: bytes) returns (i: nat)
    requires FirstNamed(ts, name).Some?
    ensures i < |ts| && ts[i].name == name && FirstNamed(ts, name) == Some(ts[i])
    ensures forall j | 0 <= j < i :: ts[j].name != name
  {
    if ts[0].name == name {
      i := 0;
    } else {
      i := FoundAt(ts[1..], name);
      assert forall j | 0 < j <= i :: ts[j] == ts[1..][j - 1];
      i := i + 1;
    }
  }

  /** Every title of the unmasked sections is one of some section whose category is not masked. */
  lemma {:induction false} FromUnmaskedSection(map': bytes, f: Features, cs: seq<Category>, i: nat)
      returns (c: Category, k: nat)
    requires TitlesFit(map', f) && i < |Unmasked(map', f, cs)|
    ensures c in cs && !Masked(f, c) && SectionFits(map', f, c) && k < |Section(map', f, c)|
    ensures Unmasked(map', f, cs)[i] == Section(map', f, c)[k]
  {
    hide Section, SectionFits, Masked, Unmasked;
    UnmaskedParts(map', f, cs);
    var first := if Masked(f, cs[0]) then [] else Section(map', f, cs[0]);
    if i < |first| {
      c, k := cs[0], i;
    } else {
      c, k := FromUnmaskedSection(map', f, cs[1..], i - |first|);
    }
  }

  lemma UnmaskedParts(map': bytes, f: Features, cs: seq<Category>)
    requires TitlesFit(map', f)
    ensures cs == [] ==> Unmasked(map', f, cs) == []
    ensures cs != [] ==>
              && SectionFits(map', f, cs[0])
              && Unmasked(map', f, cs)
                 == (if Masked(f, cs[0]) then [] else Section(map', f, cs[0])) + Unmasked(map', f, cs[1..])
  {
    if cs != [] {
      assert SectionFits(map', f, cs[0]);
    }
  }
}
