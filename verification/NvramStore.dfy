/** The protected record files: what opening, checking, restoring, resetting and closing a file do to
    the store, as functions of the store. */
module NvramStore {
  import opened Bytes
  import opened Config
  import opened CheckTrailer
  import opened VersionTable
  import opened VersionFile

  /** The version file and the record files by path. */
  datatype Store = Store(ver: Option<bytes>, files: map<bytes, bytes>)

  /** An element of the list of files kept in the bin region. */
  datatype BackupEntry = BackupEntry(name: bytes, lid: nat)

  /** The tables the library is built with. */
  datatype Policy = Policy(t: Tables, performance: set<nat>, backup: seq<BackupEntry>) {
    predicate Valid() {
      t.Valid() && forall lid: nat | lid < t.Count() :: DefaultsFit(t.Entry(lid))
    }

    predicate Listed(lid: nat) { exists i | 0 <= i < |backup| :: backup[i].lid == lid }

    predicate ListedAs(lid: nat, name: bytes) {
      exists i | 0 <= i < |backup| :: backup[i].lid == lid && backup[i].name == name
    }
  }

  /** What the outside contributes to one call: the bytes the bin region holds for the file, whether
      the restore flag exists, and what the file's convert function makes of the old content. */
  datatype Env = Env(image: Option<bytes>, restoreFlag: bool, converted: Option<bytes>)

  /** The table's default value is as long as what is written from it. */
  predicate DefaultsFit(e: CfgEntry) {
    match e.defaultType
    case SIGNLE_DEFUALT_REC => e.defaultValue.Some? && |e.defaultValue.value| == e.recNum * e.recSize
    case MULTIPLE_DEFUALT_REC => e.defaultValue.Some? ==> |e.defaultValue.value| == e.recNum * e.recSize
    case _ => true
  }

  /** The size without trailer that NVM_CheckFileSize expects. */
  function TableSize(e: CfgEntry): nat {
    if e.defaultType.MULTIPLE_DEFUALT_REC? then e.recNum * (e.recNum * e.recSize) else e.recNum * e.recSize
  }

  /** NVM_CheckFileSize: 0 without trailer, 1 with trailer, -1 for anything else. */
  function SizeFlag(s: Store, e: CfgEntry): int {
    if e.path !in s.files then -1
    else
      var size := |s.files[e.path]|;
      if size == TableSize(e) then 0 else if size - 2 == TableSize(e) then 1 else -1
  }

  function Repeat(s: bytes, n: nat): bytes { if n == 0 then [] else s + Repeat(s, n - 1) }

  /** The content a reset writes; none when the multiple-record parameters are wrong. */
  function DefaultContent(e: CfgEntry): Option<bytes>
    requires DefaultsFit(e)
  {
    match e.defaultType
    case DEFAULT_ZERO => Some(Zeros(e.recNum * e.recSize))
    case DEFAULT_FF => Some(seq(e.recNum * e.recSize, i => 0xFF))
    case SIGNLE_DEFUALT_REC => e.defaultValue
    case MULTIPLE_DEFUALT_REC =>
      if e.defaultValue.None? || e.recNum < 2 then None else Some(Repeat(e.defaultValue.value, e.recNum))
  }

  function WithFile(s: Store, path: bytes, content: bytes): Store { s.(files := s.files[path := content]) }

  /** The version file is generated when it does not exist. */
  function WithVersionFile(p: Policy, s: Store): Store
    requires p.Valid()
  {
    if s.ver.Some? then s else s.(ver := Some(Regenerated(p.t, None)))
  }

  /** NVM_ResetFileToDefault. */
  ghost function Reset(p: Policy, store: Store, lid: nat): (bool, Store)
    requires p.Valid()
  {
    var s := WithVersionFile(p, store);
    if lid >= p.t.Count() then (false, s)
    else if lid == 0 then (true, s.(ver := Some(Regenerated(p.t, s.ver))))
    else
      var e := p.t.Entry(lid);
      match DefaultContent(e)
      case None => (false, WithFile(s, e.path, []))
      case Some(content) =>
        var s' := WithFile(s, e.path, content).(ver := Some(Updated(p.t, s.ver.value, lid)));
        if lid in p.performance then (true, s')
        else
          match SetCheckNo(content, false)
          case None => (false, s')
          case Some(file) => (true, WithFile(s', e.path, file))
  }

  /** The images that a restore accepts: of the record size with a trailer that matches, and of a size the
      size check knows. */
  ghost predicate Acceptable(e: CfgEntry, image: Option<bytes>) {
    var n := e.recNum * e.recSize;
    && image.Some? && |image.value| == n + 2 && CheckFile(image.value)
    && (TableSize(e) == n || TableSize(e) == n + 2)
  }

  /** NVM_RestoreFromBinRegion_OneFile, once the bin region has produced the file's bytes. A file of
      the wrong size is refused before anything is written; a file failing its check stays written. */
  ghost function Restore(p: Policy, store: Store, lid: nat, image: Option<bytes>): (bool, Store)
    requires p.Valid() && 0 < lid < p.t.Count()
  {
    var e := p.t.Entry(lid);
    match image
    case None => (false, store)
    case Some(b) =>
      var s := WithVersionFile(p, store);
      if |b| != e.recNum * e.recSize + 2 then (false, s)
      else
        var s' := WithFile(s, e.path, b);
        (CheckFile(b) && SizeFlag(s', e) != -1, s')
  }

  /** The branch of NVM_ProtectDataFile that restores, or else resets. */
  ghost function RestoreOrReset(p: Policy, s: Store, lid: nat, image: Option<bytes>): (int, Store)
    requires p.Valid() && 0 < lid < p.t.Count()
  {
    var (restored, s') := if p.ListedAs(lid, RecordName(p.t.Entry(lid))) then Restore(p, s, lid, image) else (false, s);
    if restored then (1, s')
    else
      var (ok, s'') := Reset(p, s', lid);
      (if ok then 1 else 0, s'')
  }

  /** NVM_ProtectDataFile. */
  ghost function Protect(p: Policy, store: Store, lid: nat, set': bool, image: Option<bytes>): (int, Store)
    requires p.Valid()
  {
    var s := WithVersionFile(p, store);
    if lid >= p.t.Count() then (-1, s)
    else if lid == 0 then (-1, s.(ver := Some(Regenerated(p.t, s.ver))))
    else
      var e := p.t.Entry(lid);
      var flag := SizeFlag(s, e);
      if flag == -1 then RestoreOrReset(p, s, lid, image)
      else if set' || flag == 0 then
        match SetCheckNo(s.files[e.path], flag == 1)
        case None => (0, s)
        case Some(file) => (1, WithFile(s, e.path, file))
      else if CheckFile(s.files[e.path]) then (1, s)
      else RestoreOrReset(p, s, lid, image)
  }

  /** NVM_DataVerConvert, for a file that exists. */
  ghost function Convert(p: Policy, s: Store, lid: nat, env: Env): (bool, Store)
    requires p.Valid() && 0 < lid < p.t.Count() && s.ver.Some?
  {
    var e := p.t.Entry(lid);
    if (lid + 2) * 74 > |s.ver.value| then Reset(p, s, lid)
    else if e.path !in s.files then (false, s)
    else
      match env.converted
      case None => (false, s)
      case Some(content) =>
        var s' := WithFile(s, e.path, content).(ver := Some(Updated(p.t, s.ver.value, lid)));
        if lid in p.performance then (true, s')
        else
          var (r, s'') := Protect(p, s', lid, true, env.image);
          (r == 1, s'')
  }

  const RESERVED: bytes := [82, 101, 115, 101, 114, 118, 101, 100]

  /** The part of NVM_GetFileDesc before the final check: the file is made to exist in its current
      version. False when the call ends there without a descriptor. */
  ghost function Prepare(p: Policy, s: Store, lid: nat, env: Env): (bool, Store)
    requires p.Valid() && 0 < lid < p.t.Count()
  {
    var e := p.t.Entry(lid);
    if e.path !in s.files then
      var (restored, s') := if env.restoreFlag && p.Listed(lid) then Restore(p, s, lid, env.image) else (false, s);
      if restored then (true, s')
      else Reset(p, if e.path in s'.files then s' else WithFile(s', e.path, []), lid)
    else
      var parsed := BaseName(e.path).Some?;
      var s' := if parsed then WithVersionFile(p, s) else s;
      if parsed && VersionMatches(p.t, s'.ver.value, lid) then (true, s')
      else if e.dataReset then Reset(p, WithFile(s', e.path, []), lid)
      else
        var (ok, s'') := if s'.ver.Some? then Convert(p, s', lid, env) else (false, s');
        if ok then (true, s'') else Reset(p, WithFile(s'', e.path, []), lid)
  }

  /** NVM_GetFileDesc: whether a descriptor is returned. */
  ghost function Open(p: Policy, s: Store, lid: nat, env: Env): (bool, Store)
    requires p.Valid() && 0 < lid
  {
    if lid >= p.t.Count() || p.t.Entry(lid).path == RESERVED then (false, s)
    else
      var (ready, s') := Prepare(p, s, lid, env);
      if !ready || lid in p.performance then (ready, s')
      else
        var (r, s'') := Protect(p, s', lid, false, env.image);
        (r == 1, s'')
  }

  /** NVM_CloseFileDesc on a descriptor that is open. */
  ghost function Close(p: Policy, s: Store, lid: nat, isRead: bool, env: Env): (bool, Store)
    requires p.Valid() && 0 < lid
  {
    if lid in p.performance || isRead then (true, s)
    else
      var (r, s') := Protect(p, s, lid, true, env.image);
      (r == 1, s')
  }

  // ----- properties of single calls -----

  /** What the library promises of a protected file: the right size with a trailer, and the trailer
      matching the content. */
  ghost predicate Protected(s: Store, e: CfgEntry) {
    e.path in s.files && SizeFlag(s, e) == 1 && CheckFile(s.files[e.path])
  }

  /** What the users of a file see of it: all but its trailer, if it has one. */
  function Seen(s: Store, e: CfgEntry): bytes {
    if e.path !in s.files then []
    else if SizeFlag(s, e) == 1 && |s.files[e.path]| >= 2 then Content(s.files[e.path])
    else s.files[e.path]
  }

  /** The file is protected and has this content. */
  ghost predicate Exposes(s: Store, e: CfgEntry, content: bytes) {
    Protected(s, e) && Content(s.files[e.path]) == content
  }

  /** The one shape of table entry whose backup image has the size of a file without trailer. */
  predicate Ambiguous(e: CfgEntry) {
    e.defaultType.MULTIPLE_DEFUALT_REC? && TableSize(e) == e.recNum * e.recSize + 2
  }

  lemma {:induction false} RepeatLength(s: bytes, n: nat)
    ensures |Repeat(s, n)| == n * |s|
  {
    if n != 0 {
      RepeatLength(s, n - 1);
    }
  }

  /** A reset writes exactly the size that the size check expects. */
  lemma DefaultContentFits(e: CfgEntry)
    requires DefaultsFit(e)
    ensures DefaultContent(e).Some? ==> |DefaultContent(e).value| == TableSize(e)
  {
    if e.defaultType.MULTIPLE_DEFUALT_REC? && DefaultContent(e).Some? {
      RepeatLength(e.defaultValue.value, e.recNum);
    }
  }

  lemma {:induction false} RepeatPart(s: bytes, n: nat, i: nat)
    requires i < n
    ensures |Repeat(s, n)| == n * |s| && 0 <= i * |s| <= i * |s| + |s| <= n * |s|
    ensures Repeat(s, n)[i * |s|..i * |s| + |s|] == s
  {
    RepeatLength(s, n);
    RepeatLength(s, n - 1);
    var size := |s|;
    assert n * size == size + (n - 1) * size;
    if i > 0 {
      RepeatPart(s, n - 1, i - 1);
      assert i * size == size + (i - 1) * size;
      PartBehind(s, Repeat(s, n - 1), (i - 1) * size, size);
    }
  }

  lemma PartBehind(a: bytes, b: bytes, offset: nat, n: nat)
    requires offset + n <= |b|
    ensures (a + b)[|a| + offset..|a| + offset + n] == b[offset..offset + n]
  {
  }

  /** The default by its bytes: all 0, all 0xFF, or the value given. */
  lemma DefaultByItsBytes(e: CfgEntry, k: nat)
    requires DefaultsFit(e) && !e.defaultType.MULTIPLE_DEFUALT_REC?
    ensures DefaultContent(e).Some? && |DefaultContent(e).value| == e.recNum * e.recSize
    ensures k < e.recNum * e.recSize ==>
              var b := DefaultContent(e).value[k];
              match e.defaultType
              case DEFAULT_ZERO => b == 0x00
              case DEFAULT_FF => b == 0xFF
              case SIGNLE_DEFUALT_REC => b == e.defaultValue.value[k]
              case MULTIPLE_DEFUALT_REC => true
  {
  }

  /** The default of multiple records: the value given, once for each record; none without a value or for fewer than
      two records. */
  lemma DefaultOfMultiple(e: CfgEntry, i: nat)
    requires DefaultsFit(e) && e.defaultType.MULTIPLE_DEFUALT_REC?
    ensures DefaultContent(e).None? <==> e.defaultValue.None? || e.recNum < 2
    ensures DefaultContent(e).Some? && i < e.recNum ==>
              var content, v := DefaultContent(e).value, e.defaultValue.value;
              && |content| == e.recNum * |v| && 0 <= i * |v| <= i * |v| + |v| <= |content|
              && content[i * |v|..i * |v| + |v|] == v
  {
    if DefaultContent(e).Some? && i < e.recNum {
      RepeatPart(e.defaultValue.value, e.recNum, i);
    }
  }

  /** After a successful reset the file is the protected default. */
  lemma ResetProtects(p: Policy, s: Store, lid: nat)
    requires p.Valid() && 0 < lid < p.t.Count() && lid !in p.performance
    ensures Reset(p, s, lid).0 <==> DefaultContent(p.t.Entry(lid)).Some?
    ensures Reset(p, s, lid).0 ==>
              var s', e := Reset(p, s, lid).1, p.t.Entry(lid);
              Protected(s', e) && Content(s'.files[e.path]) == DefaultContent(e).value
  {
    var e := p.t.Entry(lid);
    DefaultContentFits(e);
    if DefaultContent(e).Some? {
      SetCheckNoMakesValid(DefaultContent(e).value, false);
    }
  }

  /** A restore succeeds exactly on the acceptable images, and writes the image. */
  lemma RestoreYields(p: Policy, s: Store, lid: nat, image: Option<bytes>)
    requires p.Valid() && 0 < lid < p.t.Count() && s.ver.Some?
    ensures var (restored, s'), e := Restore(p, s, lid, image), p.t.Entry(lid);
            && s'.ver == s.ver
            && (restored <==> Acceptable(e, image))
            && (restored ==> s' == WithFile(s, e.path, image.value))
  {
    hide CheckFile, TableSize;
  }

  lemma RestoreProtects(p: Policy, s: Store, lid: nat, image: Option<bytes>)
    requires p.Valid() && 0 < lid < p.t.Count() && !Ambiguous(p.t.Entry(lid))
    requires Restore(p, s, lid, image).0
    ensures Protected(Restore(p, s, lid, image).1, p.t.Entry(lid))
  {
  }

  /** Whenever NVM_ProtectDataFile returns 1, by whatever path, the file has the size of a file with
      trailer and NVM_CheckFile holds. */
  lemma ProtectProtects(p: Policy, s: Store, lid: nat, set': bool, image: Option<bytes>)
    requires p.Valid() && 0 < lid < p.t.Count() && lid !in p.performance && !Ambiguous(p.t.Entry(lid))
    requires Protect(p, s, lid, set', image).0 == 1
    ensures Protected(Protect(p, s, lid, set', image).1, p.t.Entry(lid))
  {
    var s1 := WithVersionFile(p, s);
    var e := p.t.Entry(lid);
    var flag := SizeFlag(s1, e);
    if flag != -1 {
      SetCheckNoSucceeds(s1.files[e.path], flag == 1);
      SetCheckNoMakesValid(s1.files[e.path], flag == 1);
    }
    var (restored, s2) := if p.ListedAs(lid, RecordName(e)) then Restore(p, s1, lid, image) else (false, s1);
    if restored {
      RestoreProtects(p, s1, lid, image);
    } else {
      ResetProtects(p, s2, lid);
    }
  }

  /** The content bytes of a file that already has the right size are kept: by setting, whatever its
      trailer; by checking, when it is valid or has no trailer yet. */
  lemma ProtectKeepsContent(p: Policy, s: Store, lid: nat, set': bool, image: Option<bytes>)
    requires p.Valid() && 0 < lid < p.t.Count()
    requires var e := p.t.Entry(lid);
             SizeFlag(s, e) == 0 || (SizeFlag(s, e) == 1 && (set' || CheckFile(s.files[e.path])))
    ensures var e, (r, s') := p.t.Entry(lid), Protect(p, s, lid, set', image);
            && r == 1
            && s' == WithVersionFile(p, WithFile(s, e.path, s'.files[e.path]))
            && |s'.files[e.path]| >= 2
            && Content(s'.files[e.path]) == if SizeFlag(s, e) == 1 then Content(s.files[e.path]) else s.files[e.path]
  {
    var e := p.t.Entry(lid);
    var file := s.files[e.path];
    assert s.files[e.path := file] == s.files;
    SetCheckNoMakesValid(file, SizeFlag(s, e) == 1);
  }

  /** A file of a right size that is set, or valid, or without trailer, is protected with what its users see. */
  lemma RightSizeIsProtected(p: Policy, s: Store, lid: nat, set': bool, image: Option<bytes>)
    requires p.Valid() && 0 < lid < p.t.Count()
    requires var e := p.t.Entry(lid);
             SizeFlag(s, e) == 0 || (SizeFlag(s, e) == 1 && (set' || CheckFile(s.files[e.path])))
    ensures var (r, s'), e := Protect(p, s, lid, set', image), p.t.Entry(lid);
            r == 1 && Exposes(s', e, Seen(s, e))
  {
    var e := p.t.Entry(lid);
    ProtectKeepsContent(p, s, lid, set', image);
    SetCheckNoMakesValid(s.files[e.path], SizeFlag(s, e) == 1);
  }

  /** A protected file is left as it is by the check. */
  lemma CheckKeepsProtected(p: Policy, s: Store, lid: nat, image: Option<bytes>)
    requires p.Valid() && 0 < lid < p.t.Count() && s.ver.Some? && Protected(s, p.t.Entry(lid))
    ensures Protect(p, s, lid, false, image) == (1, s)
  {
  }

  /** The promise fails for exactly the ambiguous entries: a backup image accepted for one of them
      passes the check but has the size of a file without trailer. */
  lemma ProtectionIsExact(p: Policy, lid: nat)
    requires p.Valid() && 0 < lid < p.t.Count() && lid !in p.performance
    ensures (forall s, set', image | Protect(p, s, lid, set', image).0 == 1 ::
                Protected(Protect(p, s, lid, set', image).1, p.t.Entry(lid)))
            <==> !(Ambiguous(p.t.Entry(lid)) && p.ListedAs(lid, RecordName(p.t.Entry(lid))))
  {
    var e := p.t.Entry(lid);
    if Ambiguous(e) && p.ListedAs(lid, RecordName(e)) {
      var content := Zeros(e.recNum * e.recSize);
      SetCheckNoMakesValid(content, false);
      var image := SetCheckNo(content, false);
      var s := Store(Some([]), map[]);
      assert Restore(p, s, lid, image).0;
      assert Protect(p, s, lid, false, image) == (1, WithFile(s, e.path, image.value));
      assert SizeFlag(WithFile(s, e.path, image.value), e) == 0;
    } else {
      forall s, set', image | Protect(p, s, lid, set', image).0 == 1
        ensures Protected(Protect(p, s, lid, set', image).1, e)
      {
        if Ambiguous(e) {
          UnlistedProtects(p, s, lid, set', image);
        } else {
          ProtectProtects(p, s, lid, set', image);
        }
      }
    }
  }

  /** A file that is not in the backup list is never restored, so it is always protected. */
  lemma UnlistedProtects(p: Policy, s: Store, lid: nat, set': bool, image: Option<bytes>)
    requires p.Valid() && 0 < lid < p.t.Count() && lid !in p.performance
    requires !p.ListedAs(lid, RecordName(p.t.Entry(lid)))
    requires Protect(p, s, lid, set', image).0 == 1
    ensures Protected(Protect(p, s, lid, set', image).1, p.t.Entry(lid))
  {
    var s1 := WithVersionFile(p, s);
    var e := p.t.Entry(lid);
    var flag := SizeFlag(s1, e);
    if flag != -1 {
      SetCheckNoSucceeds(s1.files[e.path], flag == 1);
      SetCheckNoMakesValid(s1.files[e.path], flag == 1);
    }
    ResetProtects(p, s1, lid);
  }

  /** Which entries are ambiguous: two records of one byte. */
  lemma AmbiguousEntries(e: CfgEntry)
    ensures Ambiguous(e) <==> e.defaultType.MULTIPLE_DEFUALT_REC? && e.recNum == 2 && e.recSize == 1
  {
    if e.defaultType.MULTIPLE_DEFUALT_REC? {
      TimesMinusOneIsTwo(e.recNum, e.recNum * e.recSize);
    }
  }

  lemma TimesMinusOneIsTwo(n: nat, m: nat)
    ensures n * m == m + 2 <==> (n == 2 && m == 2) || (n == 3 && m == 1)
  {
    if n >= 4 && m >= 1 {
      assert n * m >= 4 * m;
    }
  }

  /** The lids that have no record file: a lid past the tables is refused, and the version file's own lid regenerates
      that file, which a reset reports as a success and protection does not. No record file changes. */
  lemma LidsWithoutFile(p: Policy, s: Store, lid: nat, set': bool, image: Option<bytes>)
    requires p.Valid() && (lid == 0 || lid >= p.t.Count())
    ensures var (ok, s') := Reset(p, s, lid); (ok <==> lid == 0) && s'.files == s.files
    ensures var (r, s') := Protect(p, s, lid, set', image); r == -1 && s'.files == s.files
    ensures lid == 0 ==>
              var ver := Regenerated(p.t, WithVersionFile(p, s).ver);
              Reset(p, s, lid).1.ver == Some(ver) && Protect(p, s, lid, set', image).1.ver == Some(ver)
  {
    assert 0 < p.t.Count();
  }

  /** The list of files kept in the bin region, by its elements. */
  lemma ListedByElements(p: Policy, lid: nat, name: bytes)
    ensures p.ListedAs(lid, name) <==> BackupEntry(name, lid) in p.backup
    ensures p.Listed(lid) <==> exists n: bytes :: BackupEntry(n, lid) in p.backup
  {
    if i: nat :| i < |p.backup| && p.backup[i].lid == lid {
      assert BackupEntry(p.backup[i].name, lid) in p.backup;
    }
  }

  /** A lid past the tables, or one whose path says that it is reserved, is not opened and changes nothing. */
  lemma OpenRefuses(p: Policy, s: Store, lid: nat, env: Env)
    requires p.Valid() && 0 < lid
    requires lid >= p.t.Count() || p.t.Entry(lid).path == [0x52, 0x65, 0x73, 0x65, 0x72, 0x76, 0x65, 0x64]
    ensures Open(p, s, lid, env) == (false, s)
  {
  }

  /** A file whose path has no base name, without a version file, is emptied and reset. */
  lemma NamelessIsReset(p: Policy, s: Store, lid: nat, env: Env)
    requires p.Valid() && 0 < lid < p.t.Count() && BaseName(p.t.Entry(lid).path).None?
    requires p.t.Entry(lid).path in s.files && s.ver.None?
    ensures Prepare(p, s, lid, env) == Reset(p, WithFile(s, p.t.Entry(lid).path, []), lid)
  {
    hide Reset, Convert;
  }
}
