/** The version file in its new format: 74-byte records, a header record first, then one record per
    lid. This module says what each update does to the bytes and what that means for the records. */
module VersionTable {
  import opened Bytes
  import opened Config

  /** "NVRAM_VER_INFO", the name of the header record. */
  const VER_INFO: bytes := [78, 86, 82, 65, 77, 95, 86, 69, 82, 95, 73, 78, 70, 79]

  datatype UpdateFlag = VerUpdate | VerDel | VerAdd

  // ----- records -----

  type Record = r: bytes | |r| == 74 witness Zeros(74)

  /** The whole records of a file, in order. */
  function Records(file: bytes): (rs: seq<Record>)
    ensures |rs| == |file| / 74
  {
    if |file| < 74 then [] else [file[..74]] + Records(file[74..])
  }

  /** A record's name as `pread` of 69 bytes and a terminating zero reads it. */
  function NameOf(r: Record): bytes { CString(r[..69]) }

  function VerOf(r: Record): bytes { r[70..] }

  function NameField(name: bytes): (f: bytes)
    requires |name| < 70
    ensures |f| == 70
  {
    name + Zeros(70 - |name|)
  }

  /** The record written for a configuration entry. */
  function RecordOf(e: CfgEntry): (r: Record)
    requires e.Valid()
  {
    NameField(RecordName(e)) + e.ver
  }

  function HeaderRecord(t: Tables): (r: Record)
    requires t.Valid()
  {
    NameField(VER_INFO) + t.Entry(0).ver
  }

  lemma NameOfNamed(name: bytes, ver: bytes)
    requires |name| < 70 && 0 !in name && |ver| == 4
    ensures NameOf(NameField(name) + ver) == name && VerOf(NameField(name) + ver) == ver
  {
    var r := NameField(name) + ver;
    assert r[..69] == name + Zeros(69 - |name|);
    CStringOfPadded(name, 69 - |name|);
  }

  lemma NameOfRecordOf(e: CfgEntry)
    requires e.Valid()
    ensures NameOf(RecordOf(e)) == RecordName(e) && VerOf(RecordOf(e)) == e.ver
  {
    NameOfNamed(RecordName(e), e.ver);
  }

  predicate Aligned(file: bytes) { |file| % 74 == 0 }

  lemma FirstRecord(file: bytes)
    ensures Records([]) == []
    ensures |file| >= 74 ==> Records(file) == [file[..74]] + Records(file[74..])
  {
  }

  lemma {:induction false} RecordsAppend(a: bytes, b: bytes)
    requires Aligned(a)
    ensures Records(a + b) == Records(a) + Records(b)
  {
    hide Records;
    FirstRecord(a);
    if a == [] {
      assert a + b == b;
    } else {
      FirstRecord(a + b);
      assert (a + b)[..74] == a[..74];
      assert (a + b)[74..] == a[74..] + b;
      RecordsAppend(a[74..], b);
    }
  }

  lemma RecordsOfOne(r: Record)
    ensures Records(r) == [r]
  {
    assert r[..74] == r && r[74..] == [];
  }

  /** A file cut at a record boundary. */
  lemma RecordsSplit(file: bytes, k: nat)
    requires k * 74 <= |file|
    ensures Records(file[..k * 74]) == Records(file)[..k]
    ensures Records(file[k * 74..]) == Records(file)[k..]
  {
    WholeRecords(k);
    RecordsSplitAt(file, k * 74);
  }

  lemma WholeRecords(k: nat)
    ensures k * 74 / 74 == k && k * 74 % 74 == 0
  {
  }

  lemma RecordsSplitAt(file: bytes, cut: nat)
    requires cut <= |file| && cut % 74 == 0
    ensures Records(file[..cut]) == Records(file)[..cut / 74]
    ensures Records(file[cut..]) == Records(file)[cut / 74..]
  {
    hide Records;
    var a, b := file[..cut], file[cut..];
    assert file == a + b;
    RecordsAppend(a, b);
    TakeAndDrop(Records(a), Records(b));
  }

  lemma TakeAndDrop(x: seq<Record>, y: seq<Record>)
    ensures (x + y)[..|x|] == x && (x + y)[|x|..] == y
  {
  }

  lemma RecordAt(file: bytes, k: nat)
    requires (k + 1) * 74 <= |file|
    ensures Records(file)[k] == file[k * 74..(k + 1) * 74]
  {
    RecordsSplit(file, k);
    var rest := file[k * 74..];
    assert Records(rest)[0] == rest[..74];
    assert rest[..74] == file[k * 74..(k + 1) * 74];
  }

  // ----- names and versions -----

  /** The first record of that name. */
  function IndexOf(rs: seq<Record>, name: bytes): (i: nat)
    ensures i <= |rs|
    ensures i < |rs| ==> NameOf(rs[i]) == name
  {
    if rs == [] || NameOf(rs[0]) == name then 0 else 1 + IndexOf(rs[1..], name)
  }

  /** The name-to-version map that the table stands for: the first record of a name counts. */
  function Lookup(rs: seq<Record>, name: bytes): Option<bytes> {
    if rs == [] then None
    else if NameOf(rs[0]) == name then Some(VerOf(rs[0]))
    else Lookup(rs[1..], name)
  }

  /** The names in use; a record of a lid whose path has no slash bears none. */
  function Names(rs: seq<Record>): set<bytes> {
    if rs == [] then {}
    else (if NameOf(rs[0]) == [] then {} else {NameOf(rs[0])}) + Names(rs[1..])
  }

  /** No two records share a name. */
  predicate UniqueNames(rs: seq<Record>) {
    rs == [] || (NameOf(rs[0]) !in Names(rs[1..]) && UniqueNames(rs[1..]))
  }

  predicate WellFormed(file: bytes) {
    && Aligned(file) && |file| >= 74
    && NameOf(Records(file)[0]) == VER_INFO
    && UniqueNames(Records(file))
  }

  lemma {:induction false} LookupAppend(a: seq<Record>, b: seq<Record>, name: bytes)
    ensures Lookup(a + b, name) == if Lookup(a, name).Some? then Lookup(a, name) else Lookup(b, name)
  {
    if a == [] {
      assert a + b == b;
    } else {
      assert (a + b)[1..] == a[1..] + b;
      LookupAppend(a[1..], b, name);
    }
  }

  lemma {:induction false} NamesAppend(a: seq<Record>, b: seq<Record>)
    ensures Names(a + b) == Names(a) + Names(b)
    ensures [] !in Names(a)
  {
    if a == [] {
      assert a + b == b;
    } else {
      assert (a + b)[1..] == a[1..] + b;
      NamesAppend(a[1..], b);
    }
  }

  lemma {:induction false} UniqueAppend(a: seq<Record>, b: seq<Record>)
    ensures UniqueNames(a + b) <==> UniqueNames(a) && UniqueNames(b) && Names(a) !! Names(b)
  {
    if a == [] {
      assert a + b == b;
    } else {
      assert (a + b)[1..] == a[1..] + b;
      NamesAppend(a[1..], b);
      NamesAppend(b, []);
      UniqueAppend(a[1..], b);
    }
  }

  lemma {:induction false} LookupSucceeds(rs: seq<Record>, name: bytes)
    requires name != []
    ensures Lookup(rs, name).Some? <==> name in Names(rs)
  {
    if rs != [] {
      LookupSucceeds(rs[1..], name);
    }
  }

  lemma {:induction false} LookupIsAtIndex(rs: seq<Record>, name: bytes)
    ensures var i := IndexOf(rs, name); Lookup(rs, name) == if i < |rs| then Some(VerOf(rs[i])) else None
  {
    if rs != [] {
      LookupIsAtIndex(rs[1..], name);
    }
  }

  lemma {:induction false} NothingOfThatName(rs: seq<Record>, name: bytes)
    requires name != [] && name !in Names(rs)
    ensures Lookup(rs, name) == None
  {
    LookupSucceeds(rs, name);
  }

  /** Uniqueness of a table in three parts. */
  lemma UniqueParts(a: seq<Record>, mid: seq<Record>, b: seq<Record>)
    ensures Names(a + mid + b) == Names(a) + Names(mid) + Names(b)
    ensures UniqueNames(a + mid + b) <==>
            && UniqueNames(a) && UniqueNames(mid) && UniqueNames(b)
            && Names(a) !! Names(mid) && Names(a) !! Names(b) && Names(mid) !! Names(b)
  {
    NamesAppend(a, mid);
    NamesAppend(a + mid, b);
    UniqueAppend(a, mid);
    UniqueAppend(a + mid, b);
  }

  lemma OneRecord(r: Record)
    ensures Names([r]) == if NameOf(r) == [] then {} else {NameOf(r)}
    ensures UniqueNames([r]) && Lookup([r], NameOf(r)) == Some(VerOf(r))
  {
  }

  /** With unique names a record anywhere is the one its name stands for. */
  lemma LookupFindsUnique(rs: seq<Record>, k: nat)
    requires UniqueNames(rs) && k < |rs| && NameOf(rs[k]) != []
    ensures NameOf(rs[k]) !in Names(rs[..k]) && NameOf(rs[k]) !in Names(rs[k + 1..])
    ensures Lookup(rs, NameOf(rs[k])) == Some(VerOf(rs[k]))
  {
    hide Lookup, Names, UniqueNames, NameOf, VerOf;
    var a, r, b := rs[..k], rs[k], rs[k + 1..];
    assert rs == a + [r] + b;
    UniqueParts(a, [r], b);
    OneRecord(r);
    LookupMiddle(a, [r], b, NameOf(r));
  }

  /** A name that is only in the middle part is looked up there. */
  lemma LookupMiddle(a: seq<Record>, mid: seq<Record>, b: seq<Record>, name: bytes)
    requires name != [] && name !in Names(a) && name in Names(mid)
    ensures Lookup(a + mid + b, name) == Lookup(mid, name)
  {
    NothingOfThatName(a, name);
    LookupSucceeds(mid, name);
    LookupAppend(a, mid, name);
    LookupAppend(a + mid, b, name);
  }

  /** Swapping a middle part for another changes no version of a name in neither part. */
  lemma LookupAround(a: seq<Record>, mid: seq<Record>, mid': seq<Record>, b: seq<Record>, name: bytes)
    requires name != [] && name !in Names(mid) && name !in Names(mid')
    ensures Lookup(a + mid' + b, name) == Lookup(a + mid + b, name)
  {
    NothingOfThatName(mid, name);
    NothingOfThatName(mid', name);
    LookupAppend(a + mid', b, name);
    LookupAppend(a, mid', name);
    LookupAppend(a + mid, b, name);
    LookupAppend(a, mid, name);
  }

  // ----- what NVM_UpdateFileVerNo does to the bytes -----

  /** Record `k` of the file overwritten; a gap past the end is filled with zeros. */
  function WriteRecord(file: bytes, k: nat, r: Record): bytes { PWrite(file, k * 74, r) }

  /** A record put at position `k`: written there if the file ends before it, otherwise inserted. */
  function PutRecord(file: bytes, k: nat, r: Record): bytes {
    if k * 74 >= |file| then WriteRecord(file, k, r) else file[..k * 74] + r + file[k * 74..]
  }

  /** VerAdd. */
  function Added(t: Tables, file: bytes, lid: nat): bytes
    requires t.Valid() && lid < t.Count()
  {
    PutRecord(file, lid + 1, RecordOf(t.Entry(lid)))
  }

  /** VerDel: the record of the lid's own slot is cut out. */
  function Deleted(file: bytes, lid: nat): bytes
    requires (lid + 2) * 74 <= |file|
  {
    file[..(lid + 1) * 74] + file[(lid + 2) * 74..]
  }

  /** VerUpdate: the first record of the lid's name is rewritten; without one the lid is added. */
  function Updated(t: Tables, file: bytes, lid: nat): bytes
    requires t.Valid() && lid < t.Count()
  {
    var i := IndexOf(Records(file), RecordName(t.Entry(lid)));
    if i < |Records(file)| then WriteRecord(file, i, RecordOf(t.Entry(lid))) else Added(t, file, lid)
  }

  /** A record's name and version are written by two calls; together they write the record. */
  lemma TwoWrites(file: bytes, offset: nat, name: bytes, ver: bytes)
    requires |name| == 70 && |ver| == 4
    ensures PWrite(PWrite(file, offset, name), offset + 70, ver) == PWrite(file, offset, name + ver)
  {
    var once := PWrite(file, offset, name);
    if offset > |file| {
      assert PWrite(once, offset + 70, ver) == once + ver;
    } else {
      assert once[..offset + 70] == file[..offset] + name;
      if offset + 74 < |file| {
        assert once[offset + 74..] == file[offset + 74..];
      }
    }
  }

  /** Records of a file into which a record was put between two aligned parts. */
  lemma RecordsAround(a: bytes, r: Record, b: bytes)
    requires Aligned(a)
    ensures Records(a + r + b) == Records(a) + [r] + Records(b)
  {
    RecordsAppend(a + r, b);
    RecordsAppend(a, r);
    RecordsOfOne(r);
  }

  /** A gap filled with zeros reads as nameless records. */
  lemma {:induction false} RecordsOfZeros(n: nat)
    ensures Names(Records(Zeros(n * 74))) == {}
    ensures UniqueNames(Records(Zeros(n * 74)))
  {
    if n != 0 {
      var z := Zeros(n * 74);
      assert z[74..] == Zeros((n - 1) * 74);
      RecordsOfZeros(n - 1);
    }
  }

  /** A record put at a position of the table is inserted there. */
  lemma RecordsOfPut(file: bytes, k: nat, r: Record)
    requires Aligned(file) && k <= |Records(file)|
    ensures Aligned(PutRecord(file, k, r))
    ensures Records(PutRecord(file, k, r)) == Records(file)[..k] + [r] + Records(file)[k..]
  {
    var cut := k * 74;
    var a, b := file[..cut], file[cut..];
    assert PutRecord(file, k, r) == a + r + b;
    RecordsSplit(file, k);
    RecordsAround(a, r, b);
  }

  /** A record put past the end of the table follows a gap of nameless records. */
  lemma RecordsOfPutPast(file: bytes, k: nat, r: Record)
    requires Aligned(file) && k > |Records(file)|
    ensures Aligned(PutRecord(file, k, r))
    ensures var gap := Records(Zeros((k - |Records(file)|) * 74));
            && Records(PutRecord(file, k, r)) == Records(file) + gap + [r]
            && Names(gap) == {}
  {
    hide Records, PutRecord, Names;
    var n := k - |file| / 74;
    PlaceOf(|file|, k);
    PutBehindGap(file, k, n, r);
    RecordsOfZeros(n);
  }

  lemma PutBehindGap(file: bytes, k: nat, n: nat, r: Record)
    requires Aligned(file) && k * 74 == |file| + n * 74
    ensures Aligned(PutRecord(file, k, r))
    ensures Records(PutRecord(file, k, r)) == Records(file) + Records(Zeros(n * 74)) + [r]
  {
    hide Records, PWrite;
    RecordsWithGap(file, n, r);
  }

  lemma PlaceOf(size: nat, k: nat)
    requires size % 74 == 0 && k > size / 74
    ensures size + (k - size / 74) * 74 == k * 74 > size
  {
  }

  lemma RecordsWithGap(file: bytes, n: nat, r: Record)
    requires Aligned(file)
    ensures var after := PWrite(file, |file| + n * 74, r);
            Aligned(after) && Records(after) == Records(file) + Records(Zeros(n * 74)) + [r]
  {
    hide Records;
    var gap := Zeros(n * 74);
    assert PWrite(file, |file| + n * 74, r) == file + gap + r;
    RecordsAppend(file + gap, r);
    RecordsAppend(file, gap);
    RecordsOfOne(r);
  }

  lemma RecordsOfDeleted(file: bytes, lid: nat)
    requires (lid + 2) * 74 <= |file| && Aligned(file)
    ensures Aligned(Deleted(file, lid))
    ensures Records(Deleted(file, lid)) == Records(file)[..lid + 1] + Records(file)[lid + 2..]
  {
    hide Records;
    var a, b := file[..(lid + 1) * 74], file[(lid + 2) * 74..];
    RecordsSplit(file, lid + 1);
    RecordsSplit(file, lid + 2);
    assert Deleted(file, lid) == a + b;
    RecordsAppend(a, b);
  }

  /** Rewriting record `k` of a file replaces exactly that record. */
  lemma RecordsOfRewritten(file: bytes, k: nat, r: Record)
    requires k < |Records(file)| && Aligned(file)
    ensures Aligned(WriteRecord(file, k, r))
    ensures Records(WriteRecord(file, k, r)) == Records(file)[..k] + [r] + Records(file)[k + 1..]
  {
    hide Records, PWrite;
    var cut, next := k * 74, (k + 1) * 74;
    WriteInside(file, cut, r);
    RecordsSplit(file, k);
    RecordsSplit(file, k + 1);
    WholeRecords(k);
    RecordsAround(file[..cut], r, file[next..]);
  }

  // ----- main results -----

  /** VerDel straight after VerAdd of the same lid restores the file byte for byte, exactly when the
      addition was an insertion or an append at the very end. */
  lemma DeleteUndoesAdd(t: Tables, file: bytes, lid: nat)
    requires t.Valid() && lid < t.Count()
    ensures (lid + 2) * 74 <= |Added(t, file, lid)|
    ensures Deleted(Added(t, file, lid), lid) == file <==> (lid + 1) * 74 <= |file|
  {
    DeleteUndoesPut(file, lid, RecordOf(t.Entry(lid)));
  }

  lemma DeleteUndoesPut(file: bytes, lid: nat, r: Record)
    ensures (lid + 2) * 74 <= |PutRecord(file, lid + 1, r)|
    ensures Deleted(PutRecord(file, lid + 1, r), lid) == file <==> (lid + 1) * 74 <= |file|
  {
    var offset := (lid + 1) * 74;
    var after := PutRecord(file, lid + 1, r);
    if offset >= |file| {
      assert after == file + Zeros(offset - |file|) + r;
      assert after[..offset] == file + Zeros(offset - |file|);
      assert after[offset + 74..] == [];
    } else {
      assert after[..offset] == file[..offset];
      assert after[offset + 74..] == file[offset..];
    }
  }

  /** A lid the table knows by name. */
  predicate Named(t: Tables, lid: nat)
    requires t.Valid()
  {
    lid < t.Count() && RecordName(t.Entry(lid)) != []
  }

  /** What NVM_CmpFileVerNo reads for a name from a new-format file: the record at slot `k` if it
      bears the name, otherwise the first record of that name. A short read leaves the zeroed buffer. */
  function VersionFrom(file: bytes, k: nat, name: bytes): Option<bytes> {
    if CString(PRead(file, k * 74, 69)) == name then
      var v := PRead(file, k * 74 + 70, 4);
      Some(v + Zeros(4 - |v|))
    else Lookup(Records(file), name)
  }

  predicate VersionMatches(t: Tables, file: bytes, lid: nat)
    requires t.Valid() && lid < t.Count()
  {
    VersionFrom(file, lid + 1, RecordName(t.Entry(lid))) == Some(t.Entry(lid).ver)
  }

  /** With unique names the slot does not matter: what is read is what the name stands for, wherever
      insertions have moved its record. */
  lemma VersionFromIsLookup(file: bytes, k: nat, name: bytes)
    requires Aligned(file) && UniqueNames(Records(file)) && name != []
    ensures VersionFrom(file, k, name) == Lookup(Records(file), name)
  {
    if CString(PRead(file, k * 74, 69)) == name {
      assert k * 74 < |file|;
      ReadsOfSlot(file, k);
      LookupFindsUnique(Records(file), k);
      var v := PRead(file, k * 74 + 70, 4);
      assert v + Zeros(0) == v;
    }
  }

  /** What the two reads of a slot see of its record. */
  lemma ReadsOfSlot(file: bytes, k: nat)
    requires k < |Records(file)|
    ensures PRead(file, k * 74, 69) == Records(file)[k][..69]
    ensures PRead(file, k * 74 + 70, 4) == VerOf(Records(file)[k])
  {
    RecordAt(file, k);
  }

  /** A record in the lid's own slot decides its version check, whatever else the table holds. */
  lemma OwnSlotDecides(t: Tables, file: bytes, lid: nat)
    requires t.Valid() && Named(t, lid) && lid + 1 < |Records(file)|
    requires NameOf(Records(file)[lid + 1]) == RecordName(t.Entry(lid))
    ensures VersionMatches(t, file, lid) <==> VerOf(Records(file)[lid + 1]) == t.Entry(lid).ver
  {
    ReadsOfSlot(file, lid + 1);
    var v := PRead(file, (lid + 1) * 74 + 70, 4);
    assert v + Zeros(0) == v;
  }

  /** What both ways of updating come to: other names keep their versions, the lid's name gets its
      configured version, and the table stays well formed. */
  ghost predicate SetsOnly(t: Tables, before: bytes, after: bytes, lid: nat)
    requires t.Valid() && lid < t.Count()
  {
    var e := t.Entry(lid);
    && WellFormed(after)
    && Lookup(Records(after), RecordName(e)) == Some(e.ver)
    && forall name | name != RecordName(e) && name != [] :: Lookup(Records(after), name) == Lookup(Records(before), name)
  }

  /** Records of one name take the place of `mid`, which held no other name. */
  lemma PutRecords(a: seq<Record>, mid: seq<Record>, put: seq<Record>, b: seq<Record>, name: bytes)
    requires name != [] && Names(mid) <= {name} && Names(put) == {name} && UniqueNames(put)
    requires UniqueNames(a + mid + b) && name !in Names(a) && name !in Names(b)
    ensures UniqueNames(a + put + b)
    ensures Lookup(a + put + b, name) == Lookup(put, name)
    ensures forall other | other != name && other != [] :: Lookup(a + put + b, other) == Lookup(a + mid + b, other)
  {
    UniqueParts(a, mid, b);
    UniqueParts(a, put, b);
    LookupMiddle(a, put, b, name);
    forall other | other != name && other != []
      ensures Lookup(a + put + b, other) == Lookup(a + mid + b, other)
    {
      LookupAround(a, mid, put, b, other);
    }
  }

  lemma RewriteSetsOnly(t: Tables, file: bytes, lid: nat, k: nat)
    requires t.Valid() && Named(t, lid) && WellFormed(file)
    requires k < |Records(file)| && NameOf(Records(file)[k]) == RecordName(t.Entry(lid))
    ensures SetsOnly(t, file, WriteRecord(file, k, RecordOf(t.Entry(lid))), lid)
  {
    var r := RecordOf(t.Entry(lid));
    var rs := Records(file);
    RecordsOfRewritten(file, k, r);
    NameOfRecordOf(t.Entry(lid));
    LookupFindsUnique(rs, k);
    OneRecord(rs[k]);
    OneRecord(r);
    assert rs == rs[..k] + [rs[k]] + rs[k + 1..];
    PutRecords(rs[..k], [rs[k]], [r], rs[k + 1..], NameOf(r));
  }

  /** A record put behind nameless ones. */
  lemma GapThenRecord(gap: seq<Record>, r: Record)
    requires NameOf(r) != [] && Names(gap) == {} && UniqueNames(gap)
    ensures Names(gap + [r]) == {NameOf(r)} && UniqueNames(gap + [r])
    ensures Lookup(gap + [r], NameOf(r)) == Some(VerOf(r))
  {
    OneRecord(r);
    NamesAppend(gap, [r]);
    UniqueAppend(gap, [r]);
    NothingOfThatName(gap, NameOf(r));
    LookupAppend(gap, [r], NameOf(r));
  }

  /** Records after an addition: the table in two parts, and what was put between them. */
  lemma PutParts(file: bytes, k: nat, r: Record) returns (a: seq<Record>, gap: seq<Record>, b: seq<Record>)
    requires Aligned(file) && k > 0
    ensures Aligned(PutRecord(file, k, r))
    ensures Records(file) == a + [] + b
    ensures Records(PutRecord(file, k, r)) == a + (gap + [r]) + b
    ensures |Records(file)| > 0 ==> |a| > 0
    ensures Names(gap) == {} && UniqueNames(gap)
  {
    hide Records, PutRecord;
    var rs := Records(file);
    if k <= |rs| {
      RecordsOfPut(file, k, r);
      a, gap, b := rs[..k], [], rs[k..];
    } else {
      RecordsOfPutPast(file, k, r);
      RecordsOfZeros(k - |rs|);
      a, gap, b := rs, Records(Zeros((k - |rs|) * 74)), [];
    }
  }

  lemma AddSetsOnly(t: Tables, file: bytes, lid: nat)
    requires t.Valid() && Named(t, lid) && WellFormed(file)
    requires RecordName(t.Entry(lid)) !in Names(Records(file))
    ensures SetsOnly(t, file, Added(t, file, lid), lid)
  {
    var r := RecordOf(t.Entry(lid));
    NameOfRecordOf(t.Entry(lid));
    var a, gap, b := PutParts(file, lid + 1, r);
    GapThenRecord(gap, r);
    UniqueParts(a, [], b);
    PutRecords(a, [], gap + [r], b, NameOf(r));
  }

  /** VerUpdate, including its switch to VerAdd when the name is missing, makes the lid's version
      match and preserves the version of every other name. */
  lemma UpdateMakesCurrent(t: Tables, file: bytes, lid: nat)
    requires t.Valid() && Named(t, lid) && WellFormed(file)
    ensures SetsOnly(t, file, Updated(t, file, lid), lid)
    ensures VersionMatches(t, Updated(t, file, lid), lid)
  {
    var rs := Records(file);
    var name := RecordName(t.Entry(lid));
    var k := IndexOf(rs, name);
    if k < |rs| {
      RewriteSetsOnly(t, file, lid, k);
    } else {
      LookupIsAtIndex(rs, name);
      LookupSucceeds(rs, name);
      AddSetsOnly(t, file, lid);
    }
    VersionFromIsLookup(Updated(t, file, lid), lid + 1, name);
  }

  /** An update of one lid never changes the outcome of the version check of a lid of another name. */
  lemma UpdateKeepsOthers(t: Tables, file: bytes, lid: nat, other: nat)
    requires t.Valid() && Named(t, lid) && Named(t, other) && WellFormed(file)
    requires RecordName(t.Entry(other)) != RecordName(t.Entry(lid))
    ensures VersionMatches(t, Updated(t, file, lid), other) <==> VersionMatches(t, file, other)
  {
    UpdateMakesCurrent(t, file, lid);
    VersionFromIsLookup(file, other + 1, RecordName(t.Entry(other)));
    VersionFromIsLookup(Updated(t, file, lid), other + 1, RecordName(t.Entry(other)));
  }
}
