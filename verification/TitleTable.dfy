/** The title table of the backup map: a header with the number of files of each category, then one
    title per file, category after category. */
module TitleTable {
  import opened Bytes

  datatype Category =
    | APBOOT | APCLN | MDBOOT | MDCLN | MDIMP | MDCOR | MDDATA | MD2BOOT | MD2CLN | MD2IMP
    | MD5BOOT | MD5CLN | MD5IMP | VIA | MD3BOOT | MD3CLN | MD3IMP

  /** The build's features, which select one of five header layouts. */
  datatype Features = Features(md5: bool, evdo: bool, c2k: bool)

  /** The order of the loop over categories, which is that of the enumeration. */
  const ALL: seq<Category> :=
    [APBOOT, APCLN, MDBOOT, MDCLN, MDIMP, MDCOR, MDDATA, MD2BOOT, MD2CLN, MD2IMP,
     MD5BOOT, MD5CLN, MD5IMP, VIA, MD3BOOT, MD3CLN, MD3IMP]

  /** `fhs`: where the titles start, behind twelve bytes and the part of the header that is read. */
  function TitlesStart(f: Features): nat {
    if f.c2k then 12 + 40
    else if f.md5 && f.evdo then 12 + 36
    else if f.md5 then 12 + 40 - 2 * 2
    else if f.evdo then 12 + 40 - 4 * 2
    else 12 + 36 - 4 * 2
  }

  /** A count is a short int. */
  function Short(lo: byte, hi: byte): int {
    var v: int := lo + 0x100 * hi;
    if v < 0x8000 then v else v - 0x1_0000
  }

  function Int(w: word): int { if w < 0x8000_0000 then w else w - 0x1_0000_0000 }

  /** Field number `k` of the header. */
  function Field(map': bytes, k: nat): int
    requires 14 + 2 * k <= |map'|
  {
    Short(map'[12 + 2 * k], map'[13 + 2 * k])
  }

  /** The counts of the header struct in use; a field that struct lacks, or that is not read, counts 0. */
  datatype Header = Header(
    apBoot: int, apClean: int, mdBoot: int, mdClean: int, mdImpnt: int, mdCore: int, mdData: int,
    md2Boot: int, md2Clean: int, md2Impnt: int, md5Boot: int, md5Clean: int, md5Impnt: int,
    via: int, md3Boot: int, md3Clean: int, md3Impnt: int)

  function ReadHeader(map': bytes, f: Features): Header
    requires TitlesStart(f) <= |map'|
  {
    var md5 := f.c2k || f.md5;
    Header(Field(map', 0), Field(map', 1), Field(map', 2), Field(map', 3), Field(map', 4), Field(map', 5),
           Field(map', 6), Field(map', 7), Field(map', 8), Field(map', 9),
           if md5 then Field(map', 10) else 0, if md5 then Field(map', 11) else 0, if md5 then Field(map', 12) else 0,
           if f.c2k || !f.evdo then 0 else if f.md5 then Field(map', 13) else Field(map', 10),
           if f.c2k then Field(map', 13) else 0, if f.c2k then Field(map', 14) else 0, if f.c2k then Field(map', 15) else 0)
  }

  function Count(h: Header, c: Category): int {
    match c
    case APBOOT => h.apBoot
    case APCLN => h.apClean
    case MDBOOT => h.mdBoot
    case MDCLN => h.mdClean
    case MDIMP => h.mdImpnt
    case MDCOR => h.mdCore
    case MDDATA => h.mdData
    case MD2BOOT => h.md2Boot
    case MD2CLN => h.md2Clean
    case MD2IMP => h.md2Impnt
    case MD5BOOT => h.md5Boot
    case MD5CLN => h.md5Clean
    case MD5IMP => h.md5Impnt
    case VIA => h.via
    case MD3BOOT => h.md3Boot
    case MD3CLN => h.md3Clean
    case MD3IMP => h.md3Impnt
  }

  /** Whether the search of a category looks at anything, for header offset 0. */
  predicate Active(f: Features, c: Category) {
    match c
    case MD5BOOT => f.md5
    case MD5CLN => f.md5
    case MD5IMP => f.md5
    case VIA => f.evdo && !f.c2k
    case MD3BOOT => f.c2k
    case MD3CLN => f.c2k
    case MD3IMP => f.c2k
    case _ => true
  }

  /** The categories that NVM_CheckData_OneFile leaves out. */
  predicate Masked(f: Features, c: Category) {
    match c
    case MDCOR => true
    case MDDATA => true
    case MD5BOOT => !f.md5
    case MD5CLN => !f.md5
    case MD5IMP => !f.md5
    case VIA => !f.evdo
    case MD3BOOT => !f.c2k
    case MD3CLN => !f.c2k
    case MD3IMP => !f.c2k
    case _ => false
  }

  /** How many titles precede a category: the sums written out in the source. */
  function Preceding(f: Features, h: Header, c: Category): int {
    match c
    case APBOOT => 0
    case APCLN => h.apBoot
    case MDBOOT => h.apBoot + h.apClean
    case MDCLN => h.apBoot + h.apClean + h.mdBoot
    case MDIMP => h.apBoot + h.apClean + h.mdBoot + h.mdClean
    case MDCOR => h.apBoot + h.apClean + h.mdBoot + h.mdClean + h.mdImpnt
    case MDDATA => h.apBoot + h.apClean + h.mdBoot + h.mdClean + h.mdImpnt + h.mdCore
    case MD2BOOT => h.apBoot + h.apClean + h.mdBoot + h.mdClean + h.mdImpnt + h.mdCore + h.mdData
    case MD2CLN => h.apBoot + h.apClean + h.mdBoot + h.mdClean + h.mdImpnt + h.mdCore + h.mdData + h.md2Boot
    case MD2IMP => h.apBoot + h.apClean + h.mdBoot + h.mdClean + h.mdImpnt + h.mdCore + h.mdData + h.md2Boot + h.md2Clean
    case MD5BOOT => h.apBoot + h.apClean + h.mdBoot + h.mdClean + h.mdImpnt + h.mdCore + h.mdData + h.md2Boot + h.md2Clean
                    + h.md2Impnt
    case MD5CLN => h.apBoot + h.apClean + h.mdBoot + h.mdClean + h.mdImpnt + h.mdCore + h.mdData + h.md2Boot + h.md2Clean
                   + h.md2Impnt + h.md5Boot
    case MD5IMP => h.apBoot + h.apClean + h.mdBoot + h.mdClean + h.mdImpnt + h.mdCore + h.mdData + h.md2Boot + h.md2Clean
                   + h.md2Impnt + h.md5Boot + h.md5Clean
    case VIA =>
      if f.md5
      then h.apBoot + h.apClean + h.mdBoot + h.mdClean + h.mdImpnt + h.mdCore + h.mdData + h.md2Boot + h.md2Clean
           + h.md2Impnt + h.md5Boot + h.md5Clean + h.md5Impnt
      else h.apBoot + h.apClean + h.mdBoot + h.mdClean + h.mdImpnt + h.mdCore + h.mdData + h.md2Boot + h.md2Clean
           + h.md2Impnt
    case MD3BOOT => h.apBoot + h.apClean + h.mdBoot + h.mdClean + h.mdImpnt + h.mdCore + h.mdData + h.md2Boot + h.md2Clean
                    + h.md2Impnt + h.md5Boot + h.md5Clean + h.md5Impnt
    case MD3CLN => h.apBoot + h.apClean + h.mdBoot + h.mdClean + h.mdImpnt + h.mdCore + h.mdData + h.md2Boot + h.md2Clean
                   + h.md2Impnt + h.md5Boot + h.md5Clean + h.md5Impnt + h.md3Boot
    case MD3IMP => h.apBoot + h.apClean + h.mdBoot + h.mdClean + h.mdImpnt + h.mdCore + h.mdData + h.md2Boot + h.md2Clean
                   + h.md2Impnt + h.md5Boot + h.md5Clean + h.md5Impnt + h.md3Boot + h.md3Clean
  }

  // ----- titles -----

  /** A File_Title: where in the data file the file's bytes start, how many, and its path. */
  datatype Title = Title(startField: bytes, sizeField: bytes, name: bytes)

  function TitleAt(map': bytes, offset: nat): Title
    requires offset + 140 <= |map'|
  {
    Title(map'[offset + 4..offset + 8], map'[offset + 8..offset + 12], CString(map'[offset + 12..offset + 140]))
  }

  function Titles(map': bytes, offset: nat, n: nat): seq<Title>
    requires offset + 140 * n <= |map'|
    decreases n
  {
    if n == 0 then [] else [TitleAt(map', offset)] + Titles(map', offset + 140, n - 1)
  }

  /** The first title of that name. */
  function FirstNamed(ts: seq<Title>, name: bytes): Option<Title> {
    if ts == [] then None else if ts[0].name == name then Some(ts[0]) else FirstNamed(ts[1..], name)
  }

  /** `iFileNum` of a category: zero unless the search looks at the category at all. */
  function FileNum(map': bytes, f: Features, c: Category): int
    requires TitlesStart(f) <= |map'|
  {
    if Active(f, c) then Count(ReadHeader(map', f), c) else 0
  }

  /** `iFileTitleOffset` of a category. */
  function TitleOffset(map': bytes, f: Features, c: Category): int
    requires TitlesStart(f) <= |map'|
  {
    TitlesStart(f) + 140 * Preceding(f, ReadHeader(map', f), c)
  }

  /** A count below one or equal to the largest short reads nothing. */
  predicate Readable(n: int) { 0 < n < 32767 }

  /** Every title that may be read is in the map. */
  predicate TitlesFit(map': bytes, f: Features) {
    && TitlesStart(f) <= |map'|
    && forall c: Category :: SectionFits(map', f, c)
  }

  predicate SectionFits(map': bytes, f: Features, c: Category)
    requires TitlesStart(f) <= |map'|
  {
    Readable(FileNum(map', f, c)) ==>
      0 <= TitleOffset(map', f, c) && TitleOffset(map', f, c) + 140 * FileNum(map', f, c) <= |map'|
  }

  /** The titles a category's search reads. */
  function Section(map': bytes, f: Features, c: Category): seq<Title>
    requires TitlesStart(f) <= |map'| && SectionFits(map', f, c)
  {
    if Readable(FileNum(map', f, c)) then Titles(map', TitleOffset(map', f, c), FileNum(map', f, c)) else []
  }

  /** The sections of these categories that are not masked, one after the other. */
  function Unmasked(map': bytes, f: Features, cs: seq<Category>): seq<Title>
    requires TitlesFit(map', f)
  {
    if cs == [] then []
    else (if Masked(f, cs[0]) then [] else Section(map', f, cs[0])) + Unmasked(map', f, cs[1..])
  }

  lemma {:induction false} FirstNamedAppend(a: seq<Title>, b: seq<Title>, name: bytes)
    ensures FirstNamed(a + b, name) == if FirstNamed(a, name).Some? then FirstNamed(a, name) else FirstNamed(b, name)
  {
    if a == [] {
      assert a + b == b;
    } else {
      assert (a + b)[1..] == a[1..] + b;
      FirstNamedAppend(a[1..], b, name);
    }
  }

  lemma {:induction false} TitlesAppend(map': bytes, offset: nat, n: nat, m: nat)
    requires offset + 140 * (n + m) <= |map'|
    ensures Titles(map', offset, n + m) == Titles(map', offset, n) + Titles(map', offset + 140 * n, m)
    decreases n
  {
    hide TitleAt;
    if n != 0 {
      TitlesAppend(map', offset + 140, n - 1, m);
    }
  }

  lemma FirstOfTitles(map': bytes, offset: nat, n: nat, name: bytes)
    requires n > 0 && offset + 140 * n <= |map'|
    ensures FirstNamed(Titles(map', offset, n), name)
         == if TitleAt(map', offset).name == name then Some(TitleAt(map', offset))
            else FirstNamed(Titles(map', offset + 140, n - 1), name)
  {
    var rest := Titles(map', offset + 140, n - 1);
    var all := [TitleAt(map', offset)] + rest;
    assert Titles(map', offset, n) == all;
    assert all[0] == TitleAt(map', offset) && all[1..] == rest;
  }

  // ----- the search -----

  /** The title loop of NVM_RestoreFromFiles_OneFile: titles are read one after the other until one
      matches or the count, a short int, runs out. */
  method SearchTitles(map': bytes, start: int, count: int, name: bytes) returns (found: Option<Title>)
    requires 0 < count < 32767 ==> 0 <= start && start + 140 * count <= |map'|
    ensures found == if 0 < count < 32767 then FirstNamed(Titles(map', start, count), name) else None
  {
    hide TitleAt;
    var offset := start;
    var fileNum := count;
    while fileNum > 0 && fileNum < 32767
      invariant Readable(count) ==> 0 <= fileNum <= count && 0 <= start <= offset && offset + 140 * fileNum <= |map'|
      invariant Readable(count) ==>
                  FirstNamed(Titles(map', offset, fileNum), name) == FirstNamed(Titles(map', start, count), name)
      invariant !Readable(count) ==> fileNum == count
    {
      FirstOfTitles(map', offset, fileNum, name);
      var title := TitleAt(map', offset);
      offset := offset + 140;
      if title.name == name {
        return Some(title);
      }
      fileNum := fileNum - 1;
    }
    found := None;
  }

  /** The search of one category. */
  method SearchSection(map': bytes, f: Features, c: Category, name: bytes) returns (found: Option<Title>)
    requires TitlesStart(f) <= |map'| && SectionFits(map', f, c)
    ensures found == FirstNamed(Section(map', f, c), name)
  {
    found := SearchTitles(map', TitleOffset(map', f, c), FileNum(map', f, c), name);
  }

  /** The enumeration's values. */
  function Number(c: Category): (n: nat)
    ensures n < |ALL| && ALL[n] == c
  {
    match c
    case APBOOT => 0
    case APCLN => 1
    case MDBOOT => 2
    case MDCLN => 3
    case MDIMP => 4
    case MDCOR => 5
    case MDDATA => 6
    case MD2BOOT => 7
    case MD2CLN => 8
    case MD2IMP => 9
    case MD5BOOT => 10
    case MD5CLN => 11
    case MD5IMP => 12
    case VIA => 13
    case MD3BOOT => 14
    case MD3CLN => 15
    case MD3IMP => 16
  }

  /** iFileMask, built by the features. */
  method FileMask(f: Features) returns (mask: array<bool>)
    ensures fresh(mask) && mask.Length == |ALL|
    ensures forall i | 0 <= i < |ALL| :: mask[i] == Masked(f, ALL[i])
  {
    mask := new bool[17](i => false);
    mask[5], mask[6] := true, true;
    if !f.md5 && !f.evdo {
      mask[10], mask[11], mask[12], mask[13] := true, true, true, true;
    } else if !f.md5 && f.evdo {
      mask[10], mask[11], mask[12] := true, true, true;
    } else if f.md5 && !f.evdo {
      mask[13] := true;
    }
    if !f.c2k {
      mask[14], mask[15], mask[16] := true, true, true;
    }
    hide Masked;
    forall i | 0 <= i < |ALL|
      ensures mask[i] == Masked(f, ALL[i])
    {
      MaskedByNumber(f, i);
    }
  }

  /** The categories left out, by number: core and data files always, the others without their feature. */
  lemma MaskedByNumber(f: Features, i: nat)
    requires i < |ALL|
    ensures Masked(f, ALL[i])
            <==> i == 5 || i == 6 || (10 <= i <= 12 && !f.md5) || (i == 13 && !f.evdo) || (14 <= i && !f.c2k)
  {
  }

  /** The categories whose search looks at titles, by number: the first ten always, the others with their feature. */
  lemma ActiveByNumber(f: Features, i: nat)
    requires i < |ALL|
    ensures Active(f, ALL[i])
            <==> i < 10 || (10 <= i <= 12 && f.md5) || (i == 13 && f.evdo && !f.c2k) || (14 <= i && f.c2k)
  {
  }

  /** The loop of NVM_CheckData_OneFile over the categories, which stops at the first find. */
  method SearchCategories(map': bytes, f: Features, name: bytes) returns (found: Option<Title>)
    requires TitlesFit(map', f)
    ensures found == FirstNamed(Unmasked(map', f, ALL), name)
  {
    hide Section, SectionFits, Unmasked, Masked, FirstNamed, TitlesFit;
    var mask := FileMask(f);
    assert TitlesStart(f) <= |map'| by { HeaderFits(map', f); }
    found := None;
    assert ALL[0..] == ALL;
    var i := 0;
    while i < |ALL|
      invariant 0 <= i <= |ALL|
      invariant forall k | 0 <= k < |ALL| :: mask[k] == Masked(f, ALL[k])
      invariant FirstNamed(Unmasked(map', f, ALL), name)
             == if found.Some? then found else FirstNamed(Unmasked(map', f, ALL[i..]), name)
    {
      var c := ALL[i];
      UnmaskedNext(map', f, ALL[i..], name);
      assert ALL[i..][1..] == ALL[i + 1..];
      if !mask[i] {
        if found.None? {
          found := SearchSection(map', f, c, name);
        } else {
          break;
        }
      }
      i := i + 1;
    }
    if found.None? {
      NothingLeft(map', f, name);
      assert ALL[i..] == [];
    }
  }

  lemma NothingLeft(map': bytes, f: Features, name: bytes)
    requires TitlesFit(map', f)
    ensures FirstNamed(Unmasked(map', f, []), name) == None
  {
  }

  lemma HeaderFits(map': bytes, f: Features)
    requires TitlesFit(map', f)
    ensures TitlesStart(f) <= |map'|
  {
  }

  lemma UnmaskedNext(map': bytes, f: Features, cs: seq<Category>, name: bytes)
    requires TitlesFit(map', f) && cs != []
    ensures SectionFits(map', f, cs[0])
    ensures FirstNamed(Unmasked(map', f, cs), name)
         == if !Masked(f, cs[0]) && FirstNamed(Section(map', f, cs[0]), name).Some?
            then FirstNamed(Section(map', f, cs[0]), name)
            else FirstNamed(Unmasked(map', f, cs[1..]), name)
  {
    assert SectionFits(map', f, cs[0]);
    var first := if Masked(f, cs[0]) then [] else Section(map', f, cs[0]);
    assert Unmasked(map', f, cs) == first + Unmasked(map', f, cs[1..]);
    FirstNamedAppend(first, Unmasked(map', f, cs[1..]), name);
  }

  // ----- the layout behind the sums -----

  /** The order of the count fields in the header struct in use. */
  function FieldIndex(f: Features, c: Category): Option<nat> {
    match c
    case APBOOT => Some(0)
    case APCLN => Some(1)
    case MDBOOT => Some(2)
    case MDCLN => Some(3)
    case MDIMP => Some(4)
    case MDCOR => Some(5)
    case MDDATA => Some(6)
    case MD2BOOT => Some(7)
    case MD2CLN => Some(8)
    case MD2IMP => Some(9)
    case MD5BOOT => if f.c2k || f.md5 then Some(10) else None
    case MD5CLN => if f.c2k || f.md5 then Some(11) else None
    case MD5IMP => if f.c2k || f.md5 then Some(12) else None
    case VIA => if f.c2k || !f.evdo then None else if f.md5 then Some(13) else Some(10)
    case MD3BOOT => if f.c2k then Some(13) else None
    case MD3CLN => if f.c2k then Some(14) else None
    case MD3IMP => if f.c2k then Some(15) else None
  }

  /** The number of sections of a layout. */
  function Sections(f: Features): nat {
    if f.c2k then 16 else if f.md5 && f.evdo then 14 else if f.md5 then 13 else if f.evdo then 11 else 10
  }

  /** The number of titles in the first `k` sections, counted from the header bytes alone. */
  function TitlesBefore(map': bytes, k: nat): int
    requires 12 + 2 * k <= |map'|
  {
    if k == 0 then 0 else TitlesBefore(map', k - 1) + Field(map', k - 1)
  }

  /** Each section's count is the header field of its position, and the sum the source writes out for it
      is the number of titles in the sections before it: for all five layouts the sections lie behind
      one another in field order, without gap or overlap. */
  lemma SectionsAreContiguous(map': bytes, f: Features, c: Category)
    requires TitlesStart(f) <= |map'| && FieldIndex(f, c).Some?
    ensures 14 + 2 * FieldIndex(f, c).value <= TitlesStart(f)
    ensures var i := FieldIndex(f, c).value;
            && i < Sections(f)
            && Count(ReadHeader(map', f), c) == Field(map', i)
            && Preceding(f, ReadHeader(map', f), c) == TitlesBefore(map', i)
  {
    TitlesBeforeStep(map', f, c);
  }

  /** The category whose field precedes. */
  function Previous(f: Features, c: Category): Category
    requires FieldIndex(f, c).Some? && c != APBOOT
  {
    match c
    case APCLN => APBOOT
    case MDBOOT => APCLN
    case MDCLN => MDBOOT
    case MDIMP => MDCLN
    case MDCOR => MDIMP
    case MDDATA => MDCOR
    case MD2BOOT => MDDATA
    case MD2CLN => MD2BOOT
    case MD2IMP => MD2CLN
    case MD5BOOT => MD2IMP
    case MD5CLN => MD5BOOT
    case MD5IMP => MD5CLN
    case VIA => if f.md5 then MD5IMP else MD2IMP
    case MD3BOOT => MD5IMP
    case MD3CLN => MD3BOOT
    case MD3IMP => MD3CLN
  }

  lemma {:induction false} TitlesBeforeStep(map': bytes, f: Features, c: Category)
    requires TitlesStart(f) <= |map'| && FieldIndex(f, c).Some?
    ensures 14 + 2 * FieldIndex(f, c).value <= TitlesStart(f)
    ensures Preceding(f, ReadHeader(map', f), c) == TitlesBefore(map', FieldIndex(f, c).value)
    decreases FieldIndex(f, c).value
  {
    hide Field;
    if c != APBOOT {
      var h, p := ReadHeader(map', f), Previous(f, c);
      assert FieldIndex(f, p) == Some(FieldIndex(f, c).value - 1);
      TitlesBeforeStep(map', f, p);
      assert Preceding(f, h, c) == Preceding(f, h, p) + Count(h, p);
      assert Count(h, p) == Field(map', FieldIndex(f, p).value);
    }
  }

  /** A header field by its bytes: low byte first, negative when the high byte's top bit is set. */
  lemma FieldByItsBytes(map': bytes, k: nat)
    requires 14 + 2 * k <= |map'|
    ensures Field(map', k) == LittleEndian(map'[12 + 2 * k..14 + 2 * k]) - if map'[13 + 2 * k] < 0x80 then 0 else 0x1_0000
  {
    var s := map'[12 + 2 * k..14 + 2 * k];
    assert LittleEndian(s[1..]) == s[1] + 0x100 * LittleEndian(s[1..][1..]);
    assert s[1..][1..] == [];
  }

  /** The titles follow the header: twelve bytes, the counts filled up to a whole number of ints, two ints. */
  lemma TitlesFollowHeader(f: Features)
    ensures TitlesStart(f) == 12 + (2 * Sections(f) + 3) / 4 * 4 + 8
  {
  }

  /** Every count of the header in use is one that the search reads, or zero. */
  predicate CountsInRange(map': bytes, f: Features)
    requires TitlesStart(f) <= |map'|
  {
    forall k: nat | k < Sections(f) :: 0 <= Field(map', k) < 32767
  }

  lemma {:induction false} TitlesBeforeIsNat(map': bytes, f: Features, k: nat)
    requires TitlesStart(f) <= |map'| && CountsInRange(map', f) && k <= Sections(f)
    ensures 0 <= TitlesBefore(map', k)
    decreases k
  {
    if k != 0 {
      TitlesBeforeIsNat(map', f, k - 1);
    }
  }

  /** The first `k` sections, one after the other. */
  function FirstSections(map': bytes, f: Features, k: nat): seq<Title>
    requires TitlesStart(f) <= |map'| && CountsInRange(map', f) && k <= Sections(f)
    requires TitlesStart(f) + 140 * TitlesBefore(map', k) <= |map'|
    decreases k
  {
    if k == 0 then []
    else
      TitlesBeforeIsNat(map', f, k - 1);
      FirstSections(map', f, k - 1)
      + Titles(map', TitlesStart(f) + 140 * TitlesBefore(map', k - 1), Field(map', k - 1))
  }

  /** The sections cover the table: put one after the other they are one list of titles, read from the
      start of the table without gap or overlap. */
  lemma {:induction false} SectionsCover(map': bytes, f: Features, k: nat)
    requires TitlesStart(f) <= |map'| && CountsInRange(map', f) && k <= Sections(f)
    requires TitlesStart(f) + 140 * TitlesBefore(map', k) <= |map'|
    ensures 0 <= TitlesBefore(map', k)
    ensures FirstSections(map', f, k) == Titles(map', TitlesStart(f), TitlesBefore(map', k))
    decreases k
  {
    hide Titles, Field;
    if k == 0 {
      NoTitles(map', TitlesStart(f));
    } else {
      TitlesBeforeIsNat(map', f, k - 1);
      SectionsCover(map', f, k - 1);
      TitlesAppend(map', TitlesStart(f), TitlesBefore(map', k - 1), Field(map', k - 1));
    }
  }

  /** What the search of an active category reads is the section at its position. */
  lemma SectionIsAtItsPosition(map': bytes, f: Features, c: Category)
    requires TitlesStart(f) <= |map'| && CountsInRange(map', f) && FieldIndex(f, c).Some? && Active(f, c)
    requires TitlesStart(f) + 140 * TitlesBefore(map', FieldIndex(f, c).value + 1) <= |map'|
    ensures SectionFits(map', f, c)
    ensures FirstSections(map', f, FieldIndex(f, c).value + 1)
         == FirstSections(map', f, FieldIndex(f, c).value) + Section(map', f, c)
  {
    hide Titles, Field, FileNum, TitleOffset, FieldIndex, Active, Sections, TitlesStart;
    var k := FieldIndex(f, c).value;
    Located(map', f, c);
    TitlesBeforeIsNat(map', f, k);
    NoTitles(map', TitlesStart(f) + 140 * TitlesBefore(map', k));
  }

  /** Where a category's section is, and how long. */
  lemma Located(map': bytes, f: Features, c: Category)
    requires TitlesStart(f) <= |map'| && CountsInRange(map', f) && FieldIndex(f, c).Some? && Active(f, c)
    ensures var k := FieldIndex(f, c).value;
            && k < Sections(f) && 14 + 2 * k <= TitlesStart(f) && 0 <= Field(map', k) < 32767
            && FileNum(map', f, c) == Field(map', k)
            && TitleOffset(map', f, c) == TitlesStart(f) + 140 * TitlesBefore(map', k)
  {
    hide ReadHeader, Preceding, Count, Field;
    SectionsAreContiguous(map', f, c);
  }

  lemma NoTitles(map': bytes, offset: nat)
    requires offset <= |map'|
    ensures Titles(map', offset, 0) == []
  {
  }

  // ----- the table as it is written -----

  /** A file in the backup: the size of its name, where its bytes are in the data file, and its path. */
  datatype Stored = Stored(nameSize: word, start: word, size: word, path: bytes) {
    predicate Valid() { |path| < 128 && 0 !in path }

    /** Its File_Title: three ints and a zero-filled name. */
    function Bytes(): (s: bytes)
      requires Valid()
      ensures |s| == 140
    {
      WordBytes(nameSize) + WordBytes(start) + WordBytes(size) + path + Zeros(128 - |path|)
    }

    function AsTitle(): Title { Title(WordBytes(start), WordBytes(size), path) }
  }

  /** A title is read back from its bytes. */
  lemma TitleReadsBack(map': bytes, offset: nat, x: Stored)
    requires x.Valid() && offset + 140 <= |map'| && map'[offset..offset + 140] == x.Bytes()
    ensures TitleAt(map', offset) == x.AsTitle()
  {
    var b := x.Bytes();
    PartOfPart(map', offset, offset + 140, 4, 8);
    PartOfPart(map', offset, offset + 140, 8, 12);
    PartOfPart(map', offset, offset + 140, 12, 140);
    assert b[4..8] == WordBytes(x.start) && b[8..12] == WordBytes(x.size);
    assert b[12..140] == x.path + Zeros(128 - |x.path|);
    CStringOfPadded(x.path, 128 - |x.path|);
  }

  /** The number of files in the first `k` sections. */
  function Total(ss: seq<seq<Stored>>, k: nat): nat
    requires k <= |ss|
  {
    if k == 0 then 0 else Total(ss, k - 1) + |ss[k - 1]|
  }

  /** The table of these sections: the counts in the header, low byte first, and behind it the titles of all
      sections one after the other. */
  ghost predicate Written(map': bytes, f: Features, ss: seq<seq<Stored>>) {
    && |ss| == Sections(f) && TitlesStart(f) + 140 * Total(ss, |ss|) <= |map'|
    && (forall i | 0 <= i < |ss| ::
          |ss[i]| < 32767 && map'[12 + 2 * i] == |ss[i]| % 0x100 && map'[13 + 2 * i] == |ss[i]| / 0x100)
    && (forall i, j | 0 <= i < |ss| && 0 <= j < |ss[i]| ::
          TitleLies(map', TitlesStart(f) + 140 * (Total(ss, i) + j), ss[i][j]))
  }

  predicate TitleLies(map': bytes, offset: nat, x: Stored) {
    x.Valid() && offset + 140 <= |map'| && map'[offset..offset + 140] == x.Bytes()
  }

  lemma {:induction false} TotalGrows(ss: seq<seq<Stored>>, i: nat, k: nat)
    requires i <= k <= |ss|
    ensures Total(ss, i) <= Total(ss, k)
    decreases k
  {
    if i < k {
      TotalGrows(ss, i, k - 1);
    }
  }

  lemma WrittenField(map': bytes, f: Features, ss: seq<seq<Stored>>, i: nat)
    requires Written(map', f, ss) && i < Sections(f)
    ensures TitlesStart(f) <= |map'| && Field(map', i) == |ss[i]| < 32767
  {
    assert |ss[i]| == |ss[i]| % 0x100 + |ss[i]| / 0x100 * 0x100;
  }

  lemma {:induction false} WrittenBefore(map': bytes, f: Features, ss: seq<seq<Stored>>, k: nat)
    requires Written(map', f, ss) && k <= Sections(f)
    ensures TitlesStart(f) <= |map'| && TitlesBefore(map', k) == Total(ss, k)
    decreases k
  {
    hide Written, Field;
    if k > 0 {
      WrittenField(map', f, ss, k - 1);
      WrittenBefore(map', f, ss, k - 1);
    } else {
      assert TitlesStart(f) <= |map'| by { WrittenRoom(map', f, ss); }
    }
  }

  lemma WrittenRoom(map': bytes, f: Features, ss: seq<seq<Stored>>)
    requires Written(map', f, ss)
    ensures |ss| == Sections(f) && TitlesStart(f) + 140 * Total(ss, |ss|) <= |map'|
  {
  }

  lemma {:induction false} TitlesOneByOne(map': bytes, offset: nat, n: nat, j: nat)
    requires offset + 140 * n <= |map'| && j < n
    ensures |Titles(map', offset, n)| == n && Titles(map', offset, n)[j] == TitleAt(map', offset + 140 * j)
    decreases n
  {
    hide TitleAt;
    if j > 0 {
      TitlesOneByOne(map', offset + 140, n - 1, j - 1);
    } else if n > 1 {
      TitlesOneByOne(map', offset + 140, n - 1, 0);
    }
  }

  /** What the search reads of an active category is the section that was written at its field, title by title. */
  lemma SectionIsAsWritten(map': bytes, f: Features, ss: seq<seq<Stored>>, c: Category)
    requires Written(map', f, ss) && Active(f, c)
    ensures FieldIndex(f, c).Some? && FieldIndex(f, c).value < |ss| && TitlesStart(f) <= |map'| && SectionFits(map', f, c)
    ensures var section := ss[FieldIndex(f, c).value];
            && |Section(map', f, c)| == |section|
            && forall j | 0 <= j < |section| :: Section(map', f, c)[j] == section[j].AsTitle()
  {
    hide Written, Titles, Field, TitleAt;
    WrittenRoom(map', f, ss);
    var k := FieldIndex(f, c).value;
    WrittenAt(map', f, ss, c);
    var start := TitlesStart(f) + 140 * Total(ss, k);
    NoTitles(map', start);
    if |ss[k]| > 0 {
      TitlesOneByOne(map', start, |ss[k]|, 0);
    }
    forall j | 0 <= j < |ss[k]|
      ensures Section(map', f, c)[j] == ss[k][j].AsTitle()
    {
      TitlesOneByOne(map', start, |ss[k]|, j);
      WrittenTitle(map', f, ss, k, j);
    }
  }

  /** Where the search looks for a category, and for how many titles. */
  lemma WrittenAt(map': bytes, f: Features, ss: seq<seq<Stored>>, c: Category)
    requires Written(map', f, ss) && Active(f, c)
    ensures TitlesStart(f) <= |map'| && FieldIndex(f, c).Some? && FieldIndex(f, c).value < |ss|
    ensures var k := FieldIndex(f, c).value;
            && FileNum(map', f, c) == |ss[k]| < 32767
            && TitleOffset(map', f, c) == TitlesStart(f) + 140 * Total(ss, k)
            && TitlesStart(f) + 140 * (Total(ss, k) + |ss[k]|) <= |map'|
  {
    hide Written, Field, ReadHeader, Count, Preceding;
    WrittenRoom(map', f, ss);
    var k := FieldIndex(f, c).value;
    SectionsAreContiguous(map', f, c);
    WrittenField(map', f, ss, k);
    WrittenBefore(map', f, ss, k);
    TotalGrows(ss, k + 1, |ss|);
  }

  lemma WrittenTitle(map': bytes, f: Features, ss: seq<seq<Stored>>, k: nat, j: nat)
    requires Written(map', f, ss) && k < |ss| && j < |ss[k]|
    ensures var offset := TitlesStart(f) + 140 * (Total(ss, k) + j);
            offset + 140 <= |map'| && TitleAt(map', offset) == ss[k][j].AsTitle()
  {
    hide TitleAt;
    var offset := TitlesStart(f) + 140 * (Total(ss, k) + j);
    assert TitleLies(map', offset, ss[k][j]);
    TitleReadsBack(map', offset, ss[k][j]);
  }

  /** Every category of a written table is one that can be read. */
  lemma WrittenFits(map': bytes, f: Features, ss: seq<seq<Stored>>)
    requires Written(map', f, ss)
    ensures TitlesFit(map', f)
  {
    hide Written, Section;
    WrittenRoom(map', f, ss);
    forall c: Category
      ensures SectionFits(map', f, c)
    {
      if Active(f, c) {
        SectionIsAsWritten(map', f, ss, c);
      }
    }
  }

  /** The file is in a section that the search reaches, and no file of its path comes before it. */
  ghost predicate FirstStored(f: Features, ss: seq<seq<Stored>>, c: Category, j: nat, path: bytes)
    requires |ss| == Sections(f)
  {
    && Active(f, c) && !Masked(f, c)
    && j < |SectionOf(f, ss, c)| && SectionOf(f, ss, c)[j].path == path
    && (forall i | 0 <= i < j :: SectionOf(f, ss, c)[i].path != path)
    && (forall c' | Number(c') < Number(c) && Active(f, c') && !Masked(f, c') :: NoneStored(SectionOf(f, ss, c'), path))
  }

  function SectionOf(f: Features, ss: seq<seq<Stored>>, c: Category): seq<Stored>
    requires |ss| == Sections(f) && Active(f, c)
  {
    ss[FieldIndex(f, c).value]
  }

  predicate NoneStored(section: seq<Stored>, path: bytes) { forall i | 0 <= i < |section| :: section[i].path != path }

  lemma {:induction false} FirstIsFound(ts: seq<Title>, name: bytes, i: nat)
    requires i < |ts| && ts[i].name == name && forall j | 0 <= j < i :: ts[j].name != name
    ensures FirstNamed(ts, name) == Some(ts[i])
  {
    if i > 0 {
      assert ts[0].name != name;
      assert forall j | 0 < j <= i :: ts[j] == ts[1..][j - 1];
      FirstIsFound(ts[1..], name, i - 1);
    }
  }

  lemma {:induction false} NoneIsFound(ts: seq<Title>, name: bytes)
    requires forall j | 0 <= j < |ts| :: ts[j].name != name
    ensures FirstNamed(ts, name) == None
  {
    if ts != [] {
      NoneIsFound(ts[1..], name);
    }
  }

  /** The search over all categories finds the first file stored under a path. */
  lemma SearchFindsStored(map': bytes, f: Features, ss: seq<seq<Stored>>, c: Category, j: nat, path: bytes)
    requires Written(map', f, ss) && |ss| == Sections(f) && FirstStored(f, ss, c, j, path)
    ensures TitlesFit(map', f)
    ensures FirstNamed(Unmasked(map', f, ALL), path) == Some(SectionOf(f, ss, c)[j].AsTitle())
  {
    hide Written, Section;
    WrittenFits(map', f, ss);
    SectionIsAsWritten(map', f, ss, c);
    FirstIsFound(Section(map', f, c), path, j);
    assert ALL[0..] == ALL;
    SearchFrom(map', f, ss, c, j, path, 0);
  }

  /** The same for the search from category number `n` on. */
  lemma {:induction false} SearchFrom(map': bytes, f: Features, ss: seq<seq<Stored>>, c: Category, j: nat, path: bytes, n: nat)
    requires Written(map', f, ss) && |ss| == Sections(f) && FirstStored(f, ss, c, j, path) && n <= Number(c)
    requires TitlesFit(map', f) && SectionFits(map', f, c) && FirstNamed(Section(map', f, c), path).Some?
    ensures FirstNamed(Unmasked(map', f, ALL[n..]), path) == FirstNamed(Section(map', f, c), path)
    decreases Number(c) - n
  {
    hide Written, Section, Unmasked, TitlesFit, SectionFits;
    UnmaskedNext(map', f, ALL[n..], path);
    assert ALL[n..][1..] == ALL[n + 1..];
    if n < Number(c) {
      var c' := ALL[n];
      NumberOf(n);
      NothingFound(map', f, ss, c', path);
      SearchFrom(map', f, ss, c, j, path, n + 1);
    }
  }

  lemma NumberOf(n: nat)
    requires n < |ALL|
    ensures Number(ALL[n]) == n
  {
  }

  lemma NothingFound(map': bytes, f: Features, ss: seq<seq<Stored>>, c: Category, path: bytes)
    requires Written(map', f, ss) && |ss| == Sections(f)
    requires Active(f, c) && !Masked(f, c) ==> NoneStored(SectionOf(f, ss, c), path)
    ensures TitlesStart(f) <= |map'| && SectionFits(map', f, c)
    ensures !Masked(f, c) ==> FirstNamed(Section(map', f, c), path) == None
  {
    hide Written;
    WrittenFits(map', f, ss);
    assert SectionFits(map', f, c);
    if Active(f, c) && !Masked(f, c) {
      SectionIsAsWritten(map', f, ss, c);
      hide Section;
      NoneIsFound(Section(map', f, c), path);
    }
  }
}
