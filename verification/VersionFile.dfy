/** The version file as the library updates it in place, and what runs of updates achieve. */
module VersionFile {
  import opened Bytes
  import opened Config
  import opened VersionTable

  // ----- what NVM_GenerateFileVer writes -----

  function GeneratedFrom(t: Tables, lid: nat): bytes
    requires t.Valid() && lid <= t.Count()
    decreases t.Count() - lid
  {
    if lid == t.Count() then [] else RecordOf(t.Entry(lid)) + GeneratedFrom(t, lid + 1)
  }

  /** The header record, then a record for every lid in order. */
  function Generated(t: Tables): bytes
    requires t.Valid()
  {
    HeaderRecord(t) + GeneratedFrom(t, 0)
  }

  /** The file is opened without truncation, so an older, longer file keeps its end. */
  function Regenerated(t: Tables, file: Option<bytes>): bytes
    requires t.Valid()
  {
    PWrite(if file.Some? then file.value else [], 0, Generated(t))
  }

  /** The new format, recognised by the name of the first record. */
  predicate NewFormat(file: bytes) { CString(PRead(file, 0, 69)) == VER_INFO }

  /** The record loop of NVM_CheckFileNum that deletes at rising positions. */
  function DeletedRising(rs: seq<Record>, k: nat, n: nat): seq<Record>
    requires n > 0 ==> k + 2 * n - 2 < |rs|
    decreases n
  {
    if n == 0 then rs else DeletedRising(rs[..k] + rs[k + 1..], k + 1, n - 1)
  }

  /** Records of consecutive lids. */
  function RecordsFor(t: Tables, first: nat, last: nat): (rs: seq<Record>)
    requires t.Valid() && first <= last <= t.Count()
    ensures |rs| == last - first
    decreases last - first
  {
    if first == last then [] else RecordsFor(t, first, last - 1) + [RecordOf(t.Entry(last - 1))]
  }

  /** The table with records for the lids from `first` on put behind the record of the lid before. */
  function Inserted(t: Tables, rs: seq<Record>, first: nat, last: nat): (rs': seq<Record>)
    requires t.Valid() && first <= last <= t.Count() && first + 1 <= |rs|
    ensures |rs'| == |rs| + last - first
  {
    rs[..first + 1] + RecordsFor(t, first, last) + rs[first + 1..]
  }

  /** A table for `common` and `custom` lids after both have grown to the configured numbers. */
  function Grown(t: Tables, rs: seq<Record>, common: nat, custom: nat): seq<Record>
    requires t.Valid() && common <= |t.common| && custom <= |t.custom| && |rs| == 1 + common + custom
  {
    Inserted(t, rs, common, |t.common|) + RecordsFor(t, |t.common| + custom, t.Count())
  }

  class File {
    const t: Tables
    /** The content of FILE_VER, or None when it does not exist. */
    var file: Option<bytes>

    constructor (t: Tables, file: Option<bytes>)
      ensures this.t == t && this.file == file
    {
      this.t := t;
      this.file := file;
    }

    ghost predicate Usable()
      reads this
    {
      t.Valid() && (file.Some? ==> NewFormat(file.value))
    }

    /** NVM_GenerateFileVer: the header, the common lids, then the custom ones. */
    method GenerateFileVer()
      requires t.Valid()
      modifies this
      ensures file == Some(Regenerated(t, old(file)))
    {
      if file.None? {
        file := Some([]);
      }
      ghost var start := file.value;
      file := Some(PWrite(file.value, 0, HeaderRecord(t)));
      ghost var written := WriteLids(start, HeaderRecord(t), 0, |t.common|);
      written := WriteLids(start, written, |t.common|, |t.common| + |t.custom|);
      assert written + [] == written;
    }

    /** One of its loops: each lid's record is written where the previous one ended. */
    method WriteLids(ghost start: bytes, ghost soFar: bytes, first: nat, last: nat) returns (ghost written: bytes)
      requires t.Valid() && first <= last <= t.Count()
      requires |soFar| == 74 * (first + 1) && file == Some(PWrite(start, 0, soFar))
      modifies this
      ensures |written| == 74 * (last + 1) && file == Some(PWrite(start, 0, written))
      ensures soFar + GeneratedFrom(t, first) == written + GeneratedFrom(t, last)
    {
      hide PWrite, RecordOf;
      written := soFar;
      var lid := first;
      while lid < last
        invariant first <= lid <= last
        invariant |written| == 74 * (lid + 1) && file == Some(PWrite(start, 0, written))
        invariant soFar + GeneratedFrom(t, first) == written + GeneratedFrom(t, lid)
      {
        ghost var r := RecordOf(t.Entry(lid));
        WriteOn(start, written, r);
        AppendRest(written, r, GeneratedFrom(t, lid + 1));
        WriteEntry(74 * (lid + 1), t.Entry(lid));
        written := written + r;
        lid := lid + 1;
      }
    }

    /** The scan for a record of a name; the number of records when there is none. */
    method FindName(name: bytes) returns (i: nat)
      requires file.Some?
      ensures i == IndexOf(Records(file.value), name)
    {
      var f := file.value;
      ghost var rs := Records(f);
      var loopTime := |f| / 74;
      i := 0;
      while i < loopTime
        invariant 0 <= i <= loopTime
        invariant IndexOf(rs, name) == i + IndexOf(rs[i..], name)
      {
        ReadsOfSlot(f, i);
        if CString(PRead(f, i * 74, 69)) == name {
          return;
        }
        assert rs[i..][1..] == rs[i + 1..];
        i := i + 1;
      }
    }

    /** NVM_UpdateFileVerNo on a new-format file. */
    method UpdateFileVerNo(lid: nat, updateFlag: UpdateFlag) returns (ok: bool)
      requires Usable()
      requires updateFlag.VerAdd? ==> lid < t.Count()
      requires updateFlag.VerDel? && file.Some? ==> (lid + 2) * 74 <= |file.value|
      modifies this
      ensures ok == (old(file).Some? && (updateFlag.VerUpdate? ==> lid < t.Count()))
      ensures !ok ==> file == old(file)
      ensures ok ==> file == Some(match updateFlag
                                  case VerUpdate => Updated(t, old(file).value, lid)
                                  case VerAdd => Added(t, old(file).value, lid)
                                  case VerDel => Deleted(old(file).value, lid))
    {
      var flag := updateFlag;
      var index := 0;
      if flag == VerUpdate {
        if lid >= |t.common| + |t.custom| {
          return false;
        }
        if file.None? {
          return false;
        }
        index := FindName(RecordName(t.Entry(lid)));
        if index == |file.value| / 74 {
          flag := VerAdd;
        }
      }
      if file.None? {
        return false;
      }
      var f := file.value;
      match flag {
      case VerUpdate =>
        WriteEntry(index * 74, t.Entry(lid));
      case VerDel =>
        file := Some(f[..(lid + 1) * 74] + f[(lid + 2) * 74..]);
      case VerAdd =>
        if (lid + 1) * 74 >= |f| {
          WriteEntry((lid + 1) * 74, t.Entry(lid));
        } else {
          file := Some(f[..(lid + 1) * 74] + RecordOf(t.Entry(lid)) + f[(lid + 1) * 74..]);
        }
      }
      ok := true;
    }

    /** The pair of `pwrite` calls for a name and a version. */
    method WriteEntry(offset: nat, e: CfgEntry)
      requires file.Some? && e.Valid()
      modifies this
      ensures file == Some(PWrite(old(file).value, offset, RecordOf(e)))
    {
      TwoWrites(file.value, offset, NameField(RecordName(e)), e.ver);
      var f := PWrite(file.value, offset, NameField(RecordName(e)));
      f := PWrite(f, offset + 70, e.ver);
      file := Some(f);
    }

    /** NVM_CmpFileVerNo on a new-format file, which it generates when it is missing. */
    method CmpFileVerNo(lid: nat) returns (same: bool)
      requires Usable()
      modifies this
      ensures var parsed := lid < t.Count() && BaseName(t.Entry(lid).path).Some?;
              && file == (if parsed && old(file).None? then Some(Regenerated(t, None)) else old(file))
              && same == (parsed && VersionMatches(t, file.value, lid))
    {
      if lid >= |t.common| + |t.custom| {
        return false;
      }
      var name := BaseName(t.Entry(lid).path);
      if name.None? {
        return false;
      }
      if file.None? {
        GenerateFileVer();
      }
      var version := ReadVersion(lid + 1, name.value);
      same := version == Some(t.Entry(lid).ver);
    }

    /** The reads of NVM_CmpFileVerNo: first at the lid's own slot, then a search by name. */
    method ReadVersion(k: nat, name: bytes) returns (version: Option<bytes>)
      requires file.Some?
      ensures version == VersionFrom(file.value, k, name)
    {
      var f := file.value;
      var i := k;
      if CString(PRead(f, k * 74, 69)) != name {
        i := FindName(name);
        LookupIsAtIndex(Records(f), name);
        if i == |f| / 74 {
          return None;
        }
        ReadsOfSlot(f, i);
      }
      var v := PRead(f, i * 74 + 70, 4);
      version := Some(v + Zeros(4)[|v|..]);
      assert v + Zeros(4)[|v|..] == v + Zeros(4 - |v|);
      assert |v| == 4 ==> v + Zeros(0) == v;
    }

    /** VerAdd for a range of lids, in rising order. */
    method AddLids(first: nat, last: nat)
      requires Usable() && first <= last <= t.Count() && file.Some?
      modifies this
      ensures Usable() && file == Some(AddedLids(t, old(file).value, first, last))
    {
      hide Added, NewFormat;
      var lid := first;
      while lid < last
        invariant first <= lid <= last && Usable()
        invariant file == Some(AddedLids(t, old(file).value, first, lid))
      {
        AddKeepsFormat(t, file.value, lid);
        var ok := UpdateFileVerNo(lid, VerAdd);
        lid := lid + 1;
      }
    }

    /** VerDel for a range of lids, in rising order. */
    method DeleteLids(first: nat, last: nat)
      requires Usable() && file.Some? && first <= last && SlotsInside(|file.value| / 74, first, last)
      modifies this
      ensures Usable() && file == Some(DeletedLids(old(file).value, first, last))
    {
      hide NewFormat;
      var lid := first;
      while lid < last
        invariant first <= lid <= last && Usable() && file.Some? && SlotsInside(|file.value| / 74, lid, last)
        invariant DeletedLids(old(file).value, first, last) == DeletedLids(file.value, lid, last)
      {
        DeleteKeepsFormat(file.value, lid);
        var ok := UpdateFileVerNo(lid, VerDel);
        lid := lid + 1;
      }
    }

    /** NVM_CheckFileNum: a table of `common` and `custom` old lids is brought to the configured numbers,
        growing first and shrinking afterwards. */
    method CheckFileNum(common: nat, custom: nat) returns (ok: bool)
      requires Usable()
      requires common > 0 && custom > 0 && file.Some? ==> DeletesInside(t, file.value, common, custom)
      modifies this
      ensures Usable()
      ensures var matches := common == 0 || custom == 0 || (common == |t.common| && custom == |t.custom|);
              && ok == (matches || old(file).Some?)
              && file == if matches || !ok then old(file) else Some(AfterFileNum(t, old(file).value, common, custom))
      ensures ok && common > 0 && custom > 0 && old(file).Some? && InOldShape(old(file).value, common, custom) ==>
                var rs := Records(old(file).value);
                && file.Some? && Aligned(file.value) && SlotsOfCounts(t, common, custom)
                && Records(file.value) == AfterShrinking(t, AfterGrowth(t, rs, common, custom), common, custom)
                && (common <= |t.common| && custom <= |t.custom| ==> Records(file.value) == Grown(t, rs, common, custom))
    {
      hide AfterShrinking, AfterGrowth, Grown, Records, NewFormat, AfterFileNum, DeletesInside;
      if common == 0 || custom == 0 {
        return true;
      }
      if file.Some? && InOldShape(file.value, common, custom) {
        FileNumRecords(t, file.value, common, custom);
        SameFileNum(t, file.value);
      }
      if common == |t.common| && custom == |t.custom| {
        return true;
      }
      if file.None? {
        return false;
      }
      ChangeFileNum(common, custom);
      ok := true;
    }

    /** The four loops. */
    method ChangeFileNum(common: nat, custom: nat)
      requires Usable() && file.Some? && DeletesInside(t, file.value, common, custom)
      modifies this
      ensures Usable() && file == Some(AfterFileNum(t, old(file).value, common, custom))
    {
      hide NewFormat, AddedLids, DeletedLids;
      var newCommon, newCustom := |t.common|, |t.custom|;
      if common < newCommon {
        AddLids(common, newCommon);
      }
      if custom < newCustom {
        AddLids(newCommon + custom, newCommon + newCustom);
      }
      if common > newCommon {
        DeletedSize(file.value, newCommon, common);
        DeleteLids(newCommon, common);
      }
      if custom > newCustom {
        DeleteLids(common + newCustom, common + custom);
      }
    }
  }

  // ----- the file after the four loops -----

  function AddedLids(t: Tables, file: bytes, first: nat, last: nat): bytes
    requires t.Valid() && first <= last <= t.Count()
    decreases last - first
  {
    if first == last then file else Added(t, AddedLids(t, file, first, last - 1), last - 1)
  }

  /** Deleting at rising slots finds every slot in a table of so many records. */
  predicate SlotsInside(records: nat, first: nat, last: nat) {
    first < last ==> first + 2 * (last - first) <= records
  }

  function DeletedLids(file: bytes, first: nat, last: nat): bytes
    requires first <= last && SlotsInside(|file| / 74, first, last)
    decreases last - first
  {
    if first == last then file else DeletedLids(Deleted(file, first), first + 1, last)
  }

  lemma {:induction false} DeletedSize(file: bytes, first: nat, last: nat)
    requires first <= last && SlotsInside(|file| / 74, first, last)
    ensures |DeletedLids(file, first, last)| == |file| - 74 * (last - first)
    decreases last - first
  {
    if first < last {
      DeletedSize(Deleted(file, first), first + 1, last);
    }
  }

  function GrownFile(t: Tables, file: bytes, common: nat, custom: nat): bytes
    requires t.Valid()
  {
    var f := if common < |t.common| then AddedLids(t, file, common, |t.common|) else file;
    if custom < |t.custom| then AddedLids(t, f, |t.common| + custom, t.Count()) else f
  }

  /** Every deletion of NVM_CheckFileNum finds its slot in the file (otherwise the number of bytes to
      copy would be negative). */
  predicate DeletesInside(t: Tables, file: bytes, common: nat, custom: nat)
    requires t.Valid()
  {
    SlotsFor(t, |GrownFile(t, file, common, custom)| / 74, common, custom)
  }

  /** The same, in a table that has grown to so many records. */
  predicate SlotsFor(t: Tables, grown: nat, common: nat, custom: nat) {
    var gone := if common > |t.common| then common - |t.common| else 0;
    && (common > |t.common| ==> SlotsInside(grown, |t.common|, common))
    && (custom > |t.custom| ==> gone <= grown && SlotsInside(grown - gone, common + |t.custom|, common + custom))
  }

  /** The file after NVM_CheckFileNum. */
  function AfterFileNum(t: Tables, file: bytes, common: nat, custom: nat): bytes
    requires t.Valid() && DeletesInside(t, file, common, custom)
  {
    var grown := GrownFile(t, file, common, custom);
    var f :=
      if common > |t.common| then
        DeletedSize(grown, |t.common|, common);
        DeletedLids(grown, |t.common|, common)
      else grown;
    if custom > |t.custom| then DeletedLids(f, common + |t.custom|, common + custom) else f
  }

  lemma SameFileNum(t: Tables, file: bytes)
    requires t.Valid()
    ensures DeletesInside(t, file, |t.common|, |t.custom|) && AfterFileNum(t, file, |t.common|, |t.custom|) == file
  {
  }

  /** A version file with a record for each of the old lids. */
  predicate InOldShape(file: bytes, common: nat, custom: nat) {
    Aligned(file) && |Records(file)| == 1 + common + custom
  }

  // ----- what that means for the records -----

  /** The records after the two growing loops. */
  function AfterGrowth(t: Tables, rs: seq<Record>, common: nat, custom: nat): (rs': seq<Record>)
    requires t.Valid() && |rs| == 1 + common + custom
    ensures |rs'| == GrownCount(t, common, custom)
  {
    var rs1 := if common < |t.common| then Inserted(t, rs, common, |t.common|) else rs;
    if custom < |t.custom| then Inserted(t, rs1, |t.common| + custom, t.Count()) else rs1
  }

  /** The number of records after the growing loops. */
  function GrownCount(t: Tables, common: nat, custom: nat): nat {
    1 + (if common < |t.common| then |t.common| else common) + (if custom < |t.custom| then |t.custom| else custom)
  }

  /** The records after the two shrinking loops. */
  function AfterShrinking(t: Tables, rs: seq<Record>, common: nat, custom: nat): seq<Record>
    requires SlotsOfCounts(t, common, custom) && |rs| == GrownCount(t, common, custom)
  {
    var newCommon, newCustom := |t.common|, |t.custom|;
    var rs1 :=
      if common > newCommon then
        DeletedRisingPrefix(rs, newCommon + 1, common - newCommon);
        DeletedRising(rs, newCommon + 1, common - newCommon)
      else rs;
    if custom > newCustom then DeletedRising(rs1, common + newCustom + 1, custom - newCustom) else rs1
  }

  predicate SlotsOfCounts(t: Tables, common: nat, custom: nat) {
    SlotsFor(t, GrownCount(t, common, custom), common, custom)
  }

  lemma {:induction false} AddedRecords(t: Tables, file: bytes, first: nat, last: nat)
    requires t.Valid() && first <= last <= t.Count() && Aligned(file) && first + 1 <= |Records(file)|
    ensures Aligned(AddedLids(t, file, first, last))
    ensures Records(AddedLids(t, file, first, last)) == Inserted(t, Records(file), first, last)
    decreases last - first
  {
    hide Inserted, Records, Added, Aligned;
    if first == last {
      InsertedNothing(t, Records(file), first);
    } else {
      AddedRecords(t, file, first, last - 1);
      AddStep(t, AddedLids(t, file, first, last - 1), Records(file), first, last - 1);
    }
  }

  lemma {:induction false} DeletedRecords(file: bytes, first: nat, last: nat)
    requires first <= last && SlotsInside(|Records(file)|, first, last) && Aligned(file)
    ensures Aligned(DeletedLids(file, first, last))
    ensures Records(DeletedLids(file, first, last)) == DeletedRising(Records(file), first + 1, last - first)
    decreases last - first
  {
    hide Records, Deleted, Aligned;
    if first < last {
      RecordsOfDeleted(file, first);
      DeletedRecords(Deleted(file, first), first + 1, last);
    }
  }

  lemma GrownRecords(t: Tables, file: bytes, common: nat, custom: nat)
    requires t.Valid() && InOldShape(file, common, custom)
    ensures Aligned(GrownFile(t, file, common, custom))
    ensures Records(GrownFile(t, file, common, custom)) == AfterGrowth(t, Records(file), common, custom)
  {
    hide Inserted, Records, Aligned, AddedLids;
    if common < |t.common| {
      AddedRecords(t, file, common, |t.common|);
    }
    if custom < |t.custom| {
      AddedRecords(t, if common < |t.common| then AddedLids(t, file, common, |t.common|) else file,
                   |t.common| + custom, t.Count());
    }
  }

  /** On a table of the old lids the four loops insert records and then delete at rising positions. */
  lemma FileNumRecords(t: Tables, file: bytes, common: nat, custom: nat)
    requires t.Valid() && InOldShape(file, common, custom) && DeletesInside(t, file, common, custom)
    ensures var rs, after := Records(file), AfterFileNum(t, file, common, custom);
            && Aligned(after) && SlotsOfCounts(t, common, custom)
            && Records(after) == AfterShrinking(t, AfterGrowth(t, rs, common, custom), common, custom)
            && (common <= |t.common| && custom <= |t.custom| ==> Records(after) == Grown(t, rs, common, custom))
  {
    hide Inserted, Records, Aligned, GrownFile, AfterGrowth, DeletedRising, DeletedLids, Grown;
    GrownRecords(t, file, common, custom);
    var grown := GrownFile(t, file, common, custom);
    if common > |t.common| {
      DeletedRecords(grown, |t.common|, common);
      DeletedRisingPrefix(Records(grown), |t.common| + 1, common - |t.common|);
    }
    if common <= |t.common| && custom > |t.custom| {
      DeletedRecords(grown, common + |t.custom|, common + custom);
    }
    if common <= |t.common| && custom <= |t.custom| {
      GrownInTwoLoops(t, Records(file), common, custom);
    }
  }

  /** When the loops stay inside a table of the old lids: when nothing shrinks; when one count alone shrinks, by
      no more than this; never when both shrink. */
  lemma ShrinkStaysInsideExactly(t: Tables, file: bytes, common: nat, custom: nat)
    requires t.Valid() && InOldShape(file, common, custom)
    ensures DeletesInside(t, file, common, custom)
            <==> && (common > |t.common| ==> custom <= |t.custom| && common - |t.common| <= |t.custom| + 1)
                 && (custom > |t.custom| ==> common <= |t.common| && custom - |t.custom| <= |t.common| - common + 1)
  {
    hide Records, AfterGrowth, GrownFile;
    GrownRecords(t, file, common, custom);
  }

  // ----- steps of the loops -----

  /** A write from the start of a file replaces that much of it. */
  lemma WriteAtStart(start: bytes, a: bytes)
    requires a != []
    ensures PWrite(start, 0, a) == a + if |a| <= |start| then start[|a|..] else []
  {
  }

  /** A write behind a prefix replaces that much of the rest. */
  lemma WriteBehindPrefix(a: bytes, rest: bytes, b: bytes)
    requires b != []
    ensures PWrite(a + rest, |a|, b) == a + b + if |b| <= |rest| then rest[|b|..] else []
  {
    assert (a + rest)[..|a|] == a;
    if |b| < |rest| {
      assert (a + rest)[|a| + |b|..] == rest[|b|..];
    }
  }

  /** Two consecutive writes from the start of a file. */
  lemma WriteOn(start: bytes, a: bytes, b: bytes)
    requires a != [] && b != []
    ensures PWrite(PWrite(start, 0, a), |a|, b) == PWrite(start, 0, a + b)
  {
    hide PWrite;
    var rest := if |a| <= |start| then start[|a|..] else [];
    WriteAtStart(start, a);
    WriteAtStart(start, a + b);
    WriteBehindPrefix(a, rest, b);
    if |a + b| <= |start| {
      assert rest[|b|..] == start[|a + b|..];
    }
  }

  lemma AppendRest(a: bytes, b: bytes, c: bytes)
    ensures a + (b + c) == (a + b) + c
  {
  }

  lemma InsertAfter(a: seq<Record>, mid: seq<Record>, b: seq<Record>, r: Record)
    ensures var rs := a + mid + b; var k := |a| + |mid|;
            rs[..k] + [r] + rs[k..] == a + (mid + [r]) + b
  {
    var rs := a + mid + b;
    assert rs[..|a| + |mid|] == a + mid && rs[|a| + |mid|..] == b;
  }

  lemma AddStep(t: Tables, file: bytes, rs: seq<Record>, first: nat, lid: nat)
    requires t.Valid() && first <= lid < t.Count() && first + 1 <= |rs|
    requires Aligned(file) && Records(file) == Inserted(t, rs, first, lid)
    ensures Aligned(Added(t, file, lid))
    ensures Records(Added(t, file, lid)) == Inserted(t, rs, first, lid + 1)
  {
    var r := RecordOf(t.Entry(lid));
    RecordsOfPut(file, lid + 1, r);
    InsertAfter(rs[..first + 1], RecordsFor(t, first, lid), rs[first + 1..], r);
  }

  lemma AddKeepsFormat(t: Tables, file: bytes, lid: nat)
    requires t.Valid() && lid < t.Count() && NewFormat(file)
    ensures NewFormat(Added(t, file, lid))
  {
    var r := RecordOf(t.Entry(lid));
    if |file| < 74 {
      ShortFileKeepsFormat(file, lid + 1, r);
    } else {
      KeepsFormat(file, PutRecord(file, lid + 1, r));
    }
  }

  lemma DeleteKeepsFormat(file: bytes, lid: nat)
    requires (lid + 2) * 74 <= |file| && NewFormat(file)
    ensures NewFormat(Deleted(file, lid))
  {
    KeepsFormat(file, Deleted(file, lid));
  }

  /** An update behind the first record keeps the format. */
  lemma KeepsFormat(before: bytes, after: bytes)
    requires NewFormat(before) && |before| >= 74 && |after| >= 74 && after[..74] == before[..74]
    ensures NewFormat(after)
  {
    assert PRead(after, 0, 69) == after[..74][..69];
    assert PRead(before, 0, 69) == before[..74][..69];
  }

  /** A record put past a file shorter than the header's name leaves the name's bytes, zero-filled. */
  lemma ShortFileKeepsFormat(file: bytes, k: nat, r: Record)
    requires |file| < 74 && k >= 1 && NewFormat(file)
    ensures NewFormat(PutRecord(file, k, r))
  {
    var after, s := PutRecord(file, k, r), PRead(file, 0, 69);
    assert PRead(after, 0, 69) == s + Zeros(69 - |s|);
    CStringThenZeros(s, 69 - |s|);
  }

  lemma {:induction false} CStringThenZeros(s: bytes, n: nat)
    ensures CString(s + Zeros(n)) == CString(s)
  {
    if s == [] {
      assert s + Zeros(n) == Zeros(n);
    } else {
      assert (s + Zeros(n))[1..] == s[1..] + Zeros(n);
      CStringThenZeros(s[1..], n);
    }
  }

  lemma GrownInTwoLoops(t: Tables, rs: seq<Record>, common: nat, custom: nat)
    requires t.Valid() && common <= |t.common| && custom <= |t.custom| && |rs| == 1 + common + custom
    ensures AfterGrowth(t, rs, common, custom) == Grown(t, rs, common, custom)
  {
    InsertedNothing(t, rs, common);
    var rs1 := Inserted(t, rs, common, |t.common|);
    InsertedNothing(t, rs1, |t.common| + custom);
    InsertedAtEnd(t, rs1, |t.common| + custom, t.Count());
  }

  lemma InsertedNothing(t: Tables, rs: seq<Record>, first: nat)
    requires t.Valid() && first <= t.Count() && first + 1 <= |rs|
    ensures Inserted(t, rs, first, first) == rs
  {
  }

  lemma InsertedAtEnd(t: Tables, rs: seq<Record>, first: nat, last: nat)
    requires t.Valid() && first <= last <= t.Count() && first + 1 == |rs|
    ensures Inserted(t, rs, first, last) == rs + RecordsFor(t, first, last)
  {
  }

  // ----- main results -----

  /** A table whose record k + 1 is named for lid k, for every lid of an older configuration. */
  ghost predicate NamedInOrder(t: Tables, rs: seq<Record>, common: nat, custom: nat)
    requires t.Valid() && common <= |t.common| && custom <= |t.custom|
  {
    && |rs| == 1 + common + custom
    && (forall k: nat | k < common :: NameOf(rs[k + 1]) == RecordName(t.Entry(k)))
    && (forall k: nat | |t.common| <= k < |t.common| + custom ::
          NameOf(rs[common + (k - |t.common|) + 1]) == RecordName(t.Entry(k)))
  }

  lemma {:induction false} RecordsForAt(t: Tables, first: nat, last: nat, k: nat)
    requires t.Valid() && first <= k < last <= t.Count()
    ensures RecordsFor(t, first, last)[k - first] == RecordOf(t.Entry(k))
    decreases last - first
  {
    hide RecordOf;
    assert RecordsFor(t, first, last) == RecordsFor(t, first, last - 1) + [RecordOf(t.Entry(last - 1))];
    if k < last - 1 {
      RecordsForAt(t, first, last - 1, k);
    }
  }

  /** When both file counts only grow, record k + 1 is named for lid k for every lid, the records of
      the old lids are the old ones, and those of the new lids carry the configured versions. */
  lemma GrownTableIsInOrder(t: Tables, rs: seq<Record>, common: nat, custom: nat, lid: nat)
    requires t.Valid() && common <= |t.common| && custom <= |t.custom|
    requires NamedInOrder(t, rs, common, custom) && lid < t.Count()
    ensures var rs' := Grown(t, rs, common, custom);
            && |rs'| == 1 + t.Count() && rs'[0] == rs[0]
            && NameOf(rs'[lid + 1]) == RecordName(t.Entry(lid))
            && (lid < common ==> rs'[lid + 1] == rs[lid + 1])
            && (common <= lid < |t.common| ==> rs'[lid + 1] == RecordOf(t.Entry(lid)))
            && (|t.common| <= lid < |t.common| + custom ==> rs'[lid + 1] == rs[common + (lid - |t.common|) + 1])
            && (|t.common| + custom <= lid ==> rs'[lid + 1] == RecordOf(t.Entry(lid)))
  {
    hide NameOf, RecordsFor, RecordName;
    var newCommon := |t.common|;
    NameOfRecordOf(t.Entry(lid));
    var a, b := rs[..common + 1], RecordsFor(t, common, newCommon);
    var c, d := rs[common + 1..], RecordsFor(t, newCommon + custom, t.Count());
    assert Grown(t, rs, common, custom) == a + b + c + d;
    FourParts(a, b, c, d, 0);
    FourParts(a, b, c, d, lid + 1);
    if lid < common {
    } else if lid < newCommon {
      RecordsForAt(t, common, newCommon, lid);
    } else if lid < newCommon + custom {
      assert c[lid - newCommon] == rs[common + (lid - newCommon) + 1];
    } else {
      RecordsForAt(t, newCommon + custom, t.Count(), lid);
    }
  }

  /** Which of four parts an element comes from. */
  lemma FourParts(a: seq<Record>, b: seq<Record>, c: seq<Record>, d: seq<Record>, i: nat)
    requires i < |a| + |b| + |c| + |d|
    ensures (a + b + c + d)[i]
         == if i < |a| then a[i] else if i < |a| + |b| then b[i - |a|]
            else if i < |a| + |b| + |c| then c[i - |a| - |b|] else d[i - |a| - |b| - |c|]
  {
  }

  /** Deleting at rising positions removes a run of n records exactly when n is at most one: from the
      second deletion on, the table has already contracted under the next position. */
  lemma ShrinkIsCleanOnlyForOne(rs: seq<Record>, k: nat, n: nat)
    requires n > 0 ==> k + 2 * n - 2 < |rs|
    requires k + n <= |rs|
    requires forall i, j | 0 <= i < j < |rs| :: rs[i] != rs[j]
    ensures DeletedRising(rs, k, n) == rs[..k] + rs[k + n..] <==> n <= 1
  {
    if n == 0 {
      assert rs == rs[..k] + rs[k..];
    } else if n == 1 {
      assert DeletedRising(rs[..k] + rs[k + 1..], k + 1, 0) == rs[..k] + rs[k + 1..];
    } else {
      FirstStaysBehind(rs, k, n);
      assert (rs[..k] + rs[k + n..])[k] == rs[k + n];
    }
  }

  /** After two or more deletions the record behind the first deleted one is still there. */
  lemma FirstStaysBehind(rs: seq<Record>, k: nat, n: nat)
    requires n > 1 && k + 2 * n - 2 < |rs|
    ensures |DeletedRising(rs, k, n)| > k && DeletedRising(rs, k, n)[k] == rs[k + 1]
  {
    var once := rs[..k] + rs[k + 1..];
    DeletedRisingPrefix(once, k + 1, n - 1);
    var rest := DeletedRising(once, k + 1, n - 1);
    assert rest[..k + 1][k] == once[k] == rs[k + 1];
  }

  lemma {:induction false} DeletedRisingPrefix(rs: seq<Record>, k: nat, n: nat)
    requires n > 0 && k + 2 * n - 2 < |rs|
    ensures |DeletedRising(rs, k, n)| == |rs| - n && k <= |rs| - n
    ensures DeletedRising(rs, k, n)[..k] == rs[..k]
    decreases n
  {
    var once := rs[..k] + rs[k + 1..];
    if n > 1 {
      DeletedRisingPrefix(once, k + 1, n - 1);
      assert DeletedRising(rs, k, n)[..k] == DeletedRising(rs, k, n)[..k + 1][..k];
      assert once[..k + 1][..k] == rs[..k];
    } else {
      assert DeletedRising(rs, k, n) == once;
    }
  }

  /** Lids whose paths have distinct, non-empty base names, none of them the header's. */
  ghost predicate DistinctNames(t: Tables)
    requires t.Valid()
  {
    && (forall i: nat, j: nat | i < j && Named(t, i) && Named(t, j) :: RecordName(t.Entry(i)) != RecordName(t.Entry(j)))
    && (forall i: nat | Named(t, i) :: RecordName(t.Entry(i)) != VER_INFO)
  }

  lemma {:induction false} GeneratedRecords(t: Tables, lid: nat, k: nat)
    requires t.Valid() && lid <= k < t.Count()
    ensures Aligned(GeneratedFrom(t, lid))
    ensures |Records(GeneratedFrom(t, lid))| == t.Count() - lid
    ensures Records(GeneratedFrom(t, lid))[k - lid] == RecordOf(t.Entry(k))
    decreases t.Count() - lid
  {
    hide Records, RecordOf, GeneratedFrom, Aligned;
    GeneratedShape(t, lid);
    GeneratedShape(t, lid + 1);
    GeneratedNext(t, lid);
    if k > lid {
      GeneratedRecords(t, lid + 1, k);
      SecondPart(RecordOf(t.Entry(lid)), Records(GeneratedFrom(t, lid + 1)), k - lid);
    }
  }

  lemma GeneratedNext(t: Tables, lid: nat)
    requires t.Valid() && lid < t.Count()
    ensures Records(GeneratedFrom(t, lid)) == [RecordOf(t.Entry(lid))] + Records(GeneratedFrom(t, lid + 1))
  {
    hide Records, RecordOf;
    RecordThenRest(RecordOf(t.Entry(lid)), GeneratedFrom(t, lid + 1));
  }

  lemma GeneratedShape(t: Tables, lid: nat)
    requires t.Valid() && lid <= t.Count()
    ensures Aligned(GeneratedFrom(t, lid)) && |Records(GeneratedFrom(t, lid))| == t.Count() - lid
  {
    GeneratedLength(t, lid);
    hide Records, GeneratedFrom;
  }

  lemma {:induction false} GeneratedLength(t: Tables, lid: nat)
    requires t.Valid() && lid <= t.Count()
    ensures |GeneratedFrom(t, lid)| == 74 * (t.Count() - lid)
    decreases t.Count() - lid
  {
    hide RecordOf;
    if lid < t.Count() {
      GeneratedLength(t, lid + 1);
    }
  }

  lemma RecordThenRest(r: Record, rest: bytes)
    ensures Records(r + rest) == [r] + Records(rest)
  {
    hide Records;
    RecordsAppend(r, rest);
    RecordsOfOne(r);
  }

  lemma SecondPart(r: Record, rest: seq<Record>, i: nat)
    requires 0 < i <= |rest|
    ensures ([r] + rest)[i] == rest[i - 1]
  {
  }

  lemma {:induction false} GeneratedNames(t: Tables, lid: nat)
    requires t.Valid() && DistinctNames(t) && lid <= t.Count()
    ensures UniqueNames(Records(GeneratedFrom(t, lid)))
    ensures forall name | name in Names(Records(GeneratedFrom(t, lid))) ::
              exists k: nat :: lid <= k && Named(t, k) && name == RecordName(t.Entry(k))
    decreases t.Count() - lid
  {
    hide NameOf, VerOf, Lookup, Records;
    if lid < t.Count() {
      GeneratedNames(t, lid + 1);
      var r, rest := RecordOf(t.Entry(lid)), Records(GeneratedFrom(t, lid + 1));
      RecordsAppend(r, GeneratedFrom(t, lid + 1));
      RecordsOfOne(r);
      NameOfRecordOf(t.Entry(lid));
      OneRecord(r);
      NamesAppend([r], rest);
      UniqueAppend([r], rest);
    }
  }

  /** A freshly generated version file is well formed and current for every named lid. */
  lemma GeneratedIsCurrent(t: Tables)
    requires t.Valid() && DistinctNames(t)
    ensures Regenerated(t, None) == Generated(t)
    ensures WellFormed(Generated(t)) && NewFormat(Generated(t))
    ensures forall lid: nat | Named(t, lid) :: VersionMatches(t, Generated(t), lid)
  {
    var h, rest := HeaderRecord(t), GeneratedFrom(t, 0);
    GeneratedRecords(t, 0, 0);
    GeneratedNames(t, 0);
    RecordsAppend(h, rest);
    RecordsOfOne(h);
    NameOfNamed(VER_INFO, t.Entry(0).ver);
    OneRecord(h);
    UniqueAppend([h], Records(rest));
    assert PRead(Generated(t), 0, 69) == h[..69];
    forall lid: nat | Named(t, lid)
      ensures VersionMatches(t, Generated(t), lid)
    {
      NameOfRecordOf(t.Entry(lid));
      GeneratedRecords(t, 0, lid);
      assert Records(Generated(t))[lid + 1] == RecordOf(t.Entry(lid));
      VersionFromIsLookup(Generated(t), lid + 1, RecordName(t.Entry(lid)));
      LookupFindsUnique(Records(Generated(t)), lid + 1);
    }
  }
}
