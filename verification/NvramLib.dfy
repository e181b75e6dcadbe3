/** The library's calls on protected files, updating the store in place. */
module NvramLib {
  import opened Bytes
  import opened Config
  import opened CheckTrailer
  import opened VersionTable
  import opened VersionFile
  import opened NvramStore
  import opened Durability
  import opened Opening

  class Nvram {
    const p: Policy
    /** The version file. */
    const ver: VersionFile.File
    /** The record files by path. */
    var files: map<bytes, bytes>

    constructor (p: Policy, ver: VersionFile.File, files: map<bytes, bytes>)
      ensures this.p == p && this.ver == ver && this.files == files
    {
      this.p := p;
      this.ver := ver;
      this.files := files;
    }

    /** The store as a value. */
    function Snapshot(): Store
      reads this, ver
    {
      Store(ver.file, files)
    }

    /** The new format is the one in use. */
    ghost predicate Valid()
      reads this, ver
    {
      p.Valid() && ver.t == p.t && ver.Usable()
    }

    method EnsureVersionFile()
      requires Valid()
      modifies ver
      ensures Snapshot() == WithVersionFile(p, old(Snapshot()))
      ensures Valid()
    {
      if ver.file.None? {
        ver.GenerateFileVer();
        RegeneratedIsNewFormat(p.t, None);
      }
    }

    method RegenerateVersionFile()
      requires Valid()
      modifies ver
      ensures Snapshot() == old(Snapshot()).(ver := Some(Regenerated(p.t, old(ver.file))))
      ensures Valid()
    {
      ver.GenerateFileVer();
      RegeneratedIsNewFormat(p.t, old(ver.file));
    }

    /** NVM_UpdateFileVerNo for a version update of a lid, on an existing version file. */
    method UpdateVersion(lid: nat)
      requires Valid() && ver.file.Some? && lid < p.t.Count()
      modifies ver
      ensures Snapshot() == old(Snapshot()).(ver := Some(Updated(p.t, old(ver.file.value), lid)))
      ensures Valid()
    {
      UpdateKeepsFormat(p.t, ver.file.value, lid);
      var ok := ver.UpdateFileVerNo(lid, VerUpdate);
    }

    /** NVM_CheckFileSize. */
    method CheckFileSize(e: CfgEntry) returns (flag: int)
      ensures flag == SizeFlag(Snapshot(), e)
    {
      if e.path !in files {
        return -1;
      }
      var size := |files[e.path]|;
      var expected := match e.defaultType
        case MULTIPLE_DEFUALT_REC => e.recNum * (e.recNum * e.recSize)
        case _ => e.recNum * e.recSize;
      if expected == size {
        flag := 0;
      } else if expected == size - 2 {
        flag := 1;
      } else {
        flag := -1;
      }
    }

    /** NVM_SetCheckNo: the trailer is written at the end, or over the old one. */
    method SetCheck(path: bytes, isOldFile: bool) returns (ok: bool)
      requires path in files
      modifies this
      ensures ok == SetCheckNo(old(files)[path], isOldFile).Some?
      ensures files == if ok then old(files)[path := SetCheckNo(old(files)[path], isOldFile).value] else old(files)
    {
      var file := files[path];
      var c := ComputeCheckNo(file, isOldFile);
      SetCheckNoSucceeds(file, isOldFile);
      if c.None? {
        return false;
      }
      var offset := if isOldFile then |file| - 2 else |file|;
      var flagged := PWrite(file, offset, [FLAG_VALUE]);
      files := files[path := PWrite(flagged, offset + 1, [c.value])];
      assert PWrite(flagged, offset + 1, [c.value]) == PWrite(file, offset, [FLAG_VALUE, c.value]);
      ok := true;
    }

    /** The writes of a reset: one buffer, or the record default as often as there are records. */
    method WriteDefault(e: CfgEntry) returns (ok: bool)
      requires DefaultsFit(e)
      modifies this
      ensures ok == DefaultContent(e).Some?
      ensures files == old(files)[e.path := if ok then DefaultContent(e).value else []]
    {
      files := files[e.path := []];
      match e.defaultType {
        case DEFAULT_ZERO =>
          files := files[e.path := Zeros(e.recSize * e.recNum)];
        case DEFAULT_FF =>
          files := files[e.path := seq(e.recSize * e.recNum, i => 0xFF)];
        case SIGNLE_DEFUALT_REC =>
          files := files[e.path := e.defaultValue.value];
        case MULTIPLE_DEFUALT_REC =>
          if e.defaultValue.None? || e.recNum < 2 {
            return false;
          }
          var i := 0;
          while i < e.recNum
            invariant 0 <= i <= e.recNum
            invariant files == old(files)[e.path := Repeat(e.defaultValue.value, i)]
          {
            RepeatGrows(e.defaultValue.value, i);
            files := files[e.path := files[e.path] + e.defaultValue.value];
            i := i + 1;
          }
      }
      ok := true;
    }

    /** NVM_ResetFileToDefault. */
    method ResetFileToDefault(lid: nat) returns (ok: bool)
      requires Valid()
      modifies this, ver
      ensures (ok, Snapshot()) == Reset(p, old(Snapshot()), lid)
      ensures Valid()
    {
      EnsureVersionFile();
      if lid >= p.t.Count() {
        return false;
      }
      if lid == 0 {
        RegenerateVersionFile();
        return true;
      }
      var e := p.t.Entry(lid);
      var written := WriteDefault(e);
      if !written {
        return false;
      }
      UpdateVersion(lid);
      if lid !in p.performance {
        ok := SetCheck(e.path, false);
        SetCheckNoSucceeds(DefaultContent(e).value, false);
      } else {
        ok := true;
      }
    }

    /** NVM_RestoreFromFiles_OneFile once the file's bytes have been read from the backup data. */
    method RestoreOneFile(lid: nat, image: Option<bytes>) returns (ok: bool)
      requires Valid() && 0 < lid < p.t.Count()
      modifies this, ver
      ensures (ok, Snapshot()) == Restore(p, old(Snapshot()), lid, image)
      ensures Valid()
    {
      if image.None? {
        return false;
      }
      EnsureVersionFile();
      var e := p.t.Entry(lid);
      if |image.value| != e.recNum * e.recSize + 2 {
        return false;
      }
      files := files[e.path := image.value];
      ok := CheckFileContent(files[e.path]);
      if ok {
        var flag := CheckFileSize(e);
        ok := flag != -1;
      }
    }

    /** The end of NVM_ProtectDataFile: the file is restored if it is backed up, otherwise reset. */
    method RecoverFile(lid: nat, image: Option<bytes>) returns (r: int)
      requires Valid() && 0 < lid < p.t.Count() && ver.file.Some?
      modifies this, ver
      ensures (r, Snapshot()) == RestoreOrReset(p, old(Snapshot()), lid, image)
      ensures Valid()
    {
      var name := RecordName(p.t.Entry(lid));
      var restoreFlag := false;
      var i := 0;
      while i < |p.backup|
        invariant 0 <= i <= |p.backup|
        invariant restoreFlag <==> exists j | 0 <= j < i :: p.backup[j].lid == lid && p.backup[j].name == name
      {
        if p.backup[i].name == name && p.backup[i].lid == lid {
          restoreFlag := true;
        }
        i := i + 1;
      }
      if restoreFlag {
        var restored := RestoreOneFile(lid, image);
        if restored {
          return 1;
        }
      }
      var ok := ResetFileToDefault(lid);
      r := if ok then 1 else 0;
    }

    /** NVM_ProtectDataFile. */
    method ProtectDataFile(lid: nat, setFlag: bool, image: Option<bytes>) returns (r: int)
      requires Valid()
      modifies this, ver
      ensures (r, Snapshot()) == Protect(p, old(Snapshot()), lid, setFlag, image)
      ensures KeepsPromise(p, old(Snapshot()), lid, setFlag, r, Snapshot())
      ensures Valid()
    {
      ProtectKeepsPromise(p, Snapshot(), lid, setFlag, image);
      EnsureVersionFile();
      if lid >= p.t.Count() {
        return -1;
      }
      if lid == 0 {
        RegenerateVersionFile();
        return -1;
      }
      var e := p.t.Entry(lid);
      var flag := CheckFileSize(e);
      if flag == -1 {
        r := RecoverFile(lid, image);
        return;
      }
      if setFlag || flag == 0 {
        var ok := SetCheck(e.path, flag == 1);
        return if ok then 1 else 0;
      }
      var valid := CheckFileContent(files[e.path]);
      if valid {
        return 1;
      }
      r := RecoverFile(lid, image);
    }

    /** NVM_DataVerConvert, for a file that exists. */
    method DataVerConvert(lid: nat, env: Env) returns (ok: bool)
      requires Valid() && 0 < lid < p.t.Count() && ver.file.Some?
      modifies this, ver
      ensures (ok, Snapshot()) == Convert(p, old(Snapshot()), lid, env)
      ensures Valid()
    {
      if (lid + 1 + 1) * 74 > |ver.file.value| {
        ok := ResetFileToDefault(lid);
        return;
      }
      var e := p.t.Entry(lid);
      if e.path !in files {
        return false;
      }
      if env.converted.None? {
        return false;
      }
      files := files[e.path := env.converted.value];
      UpdateVersion(lid);
      if lid in p.performance {
        return true;
      }
      var r := ProtectDataFile(lid, true, env.image);
      ok := r == 1;
    }

    /** The missing-file branch of NVM_GetFileDesc: restored if the restore flag is there and the lid
        is backed up, otherwise created and reset. */
    method CreateFile(lid: nat, env: Env) returns (ready: bool)
      requires Valid() && 0 < lid < p.t.Count() && p.t.Entry(lid).path !in files
      modifies this, ver
      ensures (ready, Snapshot()) == Prepare(p, old(Snapshot()), lid, env)
      ensures Valid()
    {
      if env.restoreFlag {
        var i := 0;
        while i < |p.backup| && p.backup[i].lid != lid
          invariant 0 <= i <= |p.backup|
          invariant forall j | 0 <= j < i :: p.backup[j].lid != lid
        {
          i := i + 1;
        }
        if i < |p.backup| {
          var restored := RestoreOneFile(lid, env.image);
          if restored {
            return true;
          }
        }
      }
      if p.t.Entry(lid).path !in files {
        files := files[p.t.Entry(lid).path := []];
      }
      ready := ResetFileToDefault(lid);
    }

    /** The existing-file branch: a file of another version is reset, or converted and failing that
        reset. */
    method BringUpToDate(lid: nat, env: Env) returns (ready: bool)
      requires Valid() && 0 < lid < p.t.Count() && p.t.Entry(lid).path in files
      modifies this, ver
      ensures (ready, Snapshot()) == Prepare(p, old(Snapshot()), lid, env)
      ensures Valid()
    {
      var e := p.t.Entry(lid);
      BaseNameFollowsLastSlash(e.path);
      RegeneratedIsNewFormat(p.t, None);
      var same := ver.CmpFileVerNo(lid);
      if same {
        return true;
      }
      if !e.dataReset && ver.file.Some? {
        var converted := DataVerConvert(lid, env);
        if converted {
          return true;
        }
      }
      files := files[e.path := []];
      ready := ResetFileToDefault(lid);
    }

    /** NVM_GetFileDesc for a lid outside the special partition. */
    method GetFileDesc(lid: nat, env: Env) returns (ok: bool)
      requires Valid() && 0 < lid
      modifies this, ver
      ensures (ok, Snapshot()) == Open(p, old(Snapshot()), lid, env)
      ensures Ordinary(p, lid) && Healthy(old(Snapshot())) ==>
                && (ok <==> Expected(p, old(Snapshot()), lid, env).Some?)
                && (ok ==> Seen(Snapshot(), p.t.Entry(lid)) == Expected(p, old(Snapshot()), lid, env).value)
      ensures Ordinary(p, lid) && Healthy(old(Snapshot())) && ok ==>
                && Healthy(Snapshot())
                && (Protected(Snapshot(), p.t.Entry(lid)) <==> !RestoresBare(p, old(Snapshot()), lid, env))
                && (VersionMatches(p.t, Snapshot().ver.value, lid) <==> !RestoresStale(p, old(Snapshot()), lid, env))
      ensures Valid()
    {
      OpenKeepsPromise(p, Snapshot(), lid, env);
      if lid >= p.t.Count() {
        return false;
      }
      var e := p.t.Entry(lid);
      if e.path == RESERVED {
        return false;
      }
      if e.path !in files {
        ok := CreateFile(lid, env);
      } else {
        ok := BringUpToDate(lid, env);
      }
      if !ok {
        return;
      }
      if lid !in p.performance {
        var r := ProtectDataFile(lid, false, env.image);
        ok := r == 1;
      }
    }

    /** NVM_CloseFileDesc. */
    method CloseFileDesc(lid: nat, isRead: bool, env: Env) returns (ok: bool)
      requires Valid() && 0 < lid
      modifies this, ver
      ensures (ok, Snapshot()) == Close(p, old(Snapshot()), lid, isRead, env)
      ensures isRead || lid in p.performance ==> ok && Snapshot() == old(Snapshot())
      ensures !isRead && lid !in p.performance && lid < p.t.Count() && SizeFlag(old(Snapshot()), p.t.Entry(lid)) != -1 ==>
                ok && Exposes(Snapshot(), p.t.Entry(lid), Seen(old(Snapshot()), p.t.Entry(lid)))
      ensures Valid()
    {
      if lid in p.performance {
        return true;
      }
      if isRead {
        return true;
      }
      var r := ProtectDataFile(lid, true, env.image);
      ok := r == 1;
    }
  }

  /** What protection promises its callers: a protected file whenever it returns 1, and, for a file of a right
      size that it sets or finds valid, the same content. */
  ghost predicate KeepsPromise(p: Policy, before: Store, lid: nat, set': bool, r: int, after: Store)
    requires p.Valid()
  {
    0 < lid < p.t.Count() && lid !in p.performance ==>
      var e := p.t.Entry(lid);
      && (r == 1 && !(Ambiguous(e) && p.ListedAs(lid, RecordName(e))) ==> Protected(after, e))
      && (SizeFlag(before, e) == 0 || (SizeFlag(before, e) == 1 && (set' || CheckFile(before.files[e.path]))) ==>
            r == 1 && Exposes(after, e, Seen(before, e)))
  }

  lemma ProtectKeepsPromise(p: Policy, s: Store, lid: nat, set': bool, image: Option<bytes>)
    requires p.Valid()
    ensures var (r, s') := Protect(p, s, lid, set', image); KeepsPromise(p, s, lid, set', r, s')
  {
    if 0 < lid < p.t.Count() && lid !in p.performance {
      hide Protect, CheckFile;
      var e := p.t.Entry(lid);
      if Protect(p, s, lid, set', image).0 == 1 {
        if !Ambiguous(e) {
          ProtectProtects(p, s, lid, set', image);
        } else if !p.ListedAs(lid, RecordName(e)) {
          UnlistedProtects(p, s, lid, set', image);
        }
      }
      if SizeFlag(s, e) == 0 || (SizeFlag(s, e) == 1 && (set' || CheckFile(s.files[e.path]))) {
        RightSizeIsProtected(p, s, lid, set', image);
      }
    }
  }

  lemma OpenKeepsPromise(p: Policy, s: Store, lid: nat, env: Env)
    requires p.Valid() && 0 < lid
    ensures var (ok, s') := Open(p, s, lid, env);
            Ordinary(p, lid) && Healthy(s) ==>
              && (ok <==> Expected(p, s, lid, env).Some?)
              && (ok ==> Seen(s', p.t.Entry(lid)) == Expected(p, s, lid, env).value)
    ensures var (ok, s') := Open(p, s, lid, env);
            Ordinary(p, lid) && Healthy(s) && ok ==>
              && Healthy(s')
              && (Protected(s', p.t.Entry(lid)) <==> !RestoresBare(p, s, lid, env))
              && (VersionMatches(p.t, s'.ver.value, lid) <==> !RestoresStale(p, s, lid, env))
  {
    hide Open, Protected, VersionMatches, Expected, Seen, Usable;
    if Ordinary(p, lid) && Healthy(s) {
      OpenYieldsExactly(p, s, lid, env);
    }
    if Ordinary(p, lid) && Healthy(s) && Open(p, s, lid, env).0 {
      OpenProtects(p, s, lid, env);
      OpenMakesCurrent(p, s, lid, env);
    }
  }

  /** Updating a lid's version keeps the new format, whatever the file's length. */
  lemma UpdateKeepsFormat(t: Tables, file: bytes, lid: nat)
    requires t.Valid() && lid < t.Count() && NewFormat(file)
    ensures NewFormat(Updated(t, file, lid))
  {
    var r := RecordOf(t.Entry(lid));
    var k := IndexOf(Records(file), RecordName(t.Entry(lid)));
    NameOfRecordOf(t.Entry(lid));
    if |file| < 74 {
      AddKeepsFormat(t, file, lid);
    } else if k == 0 {
      ReadsOfSlot(file, 0);
      assert PRead(WriteRecord(file, 0, r), 0, 69) == r[..69];
    } else if k < |Records(file)| {
      KeepsFormat(file, WriteRecord(file, k, r));
    } else {
      AddKeepsFormat(t, file, lid);
    }
  }

  lemma RegeneratedIsNewFormat(t: Tables, file: Option<bytes>)
    requires t.Valid()
    ensures NewFormat(Regenerated(t, file))
  {
    var g := Generated(t);
    var h := HeaderRecord(t);
    assert g[..74] == h;
    assert Regenerated(t, file)[..|g|] == g;
    assert PRead(Regenerated(t, file), 0, 69) == h[..69];
    NameOfNamed(VER_INFO, t.Entry(0).ver);
  }

  lemma {:induction false} RepeatGrows(s: bytes, n: nat)
    ensures Repeat(s, n + 1) == Repeat(s, n) + s
  {
    if n == 0 {
      assert s + [] == [] + s;
    } else {
      RepeatGrows(s, n - 1);
      assert s + (Repeat(s, n - 1) + s) == (s + Repeat(s, n - 1)) + s;
    }
  }
}
