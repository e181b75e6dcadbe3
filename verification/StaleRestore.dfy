/** Where opening a file falls short of the promise that what a close has sealed is there at the next open:
    a missing file that is restored although its version is stale, and an image that has the size of a file
    without trailer. */
module StaleRestore {
  import opened Bytes
  import opened Config
  import opened CheckTrailer
  import opened VersionTable
  import opened VersionFile
  import opened NvramStore
  import opened Durability
  import opened Reopening

  // ----- a sealed write that is lost -----

  /** An open that restores a file of a stale version yields the image. */
  lemma StaleOpenYields(p: Policy, s: Store, lid: nat, env: Env)
    requires p.Valid() && Ordinary(p, lid) && Healthy(s)
    requires RestoresStale(p, s, lid, env) && !Ambiguous(p.t.Entry(lid))
    ensures var (ok, s'), e := Open(p, s, lid, env), p.t.Entry(lid);
            && ok && s' == WithFile(s, e.path, env.image.value)
            && SizeFlag(s', e) == 1 && |env.image.value| == TableSize(e) + 2
  {
    hide Open, VersionMatches;
    RestoredByOpen(p, s, lid, env);
  }

  /** What a successful open leaves has a size that the size check knows. */
  lemma OpenLeavesFit(p: Policy, s: Store, lid: nat, env: Env)
    requires p.Valid() && Ordinary(p, lid) && Healthy(s) && Open(p, s, lid, env).0
    ensures Fit(Open(p, s, lid, env).1, p.t.Entry(lid))
  {
    hide Prepare, Protect, Fit, VersionMatches;
    PrepareTouches(p, s, lid, env);
    ProtectLeavesFit(p, Prepare(p, s, lid, env).1, lid, false, env.image);
  }

  /** Writing a byte and closing seals it, whatever the version of the file. */
  lemma WriteAndClose(p: Policy, s: Store, lid: nat, k: nat, v: byte, env: Env)
    requires p.Valid() && Ordinary(p, lid) && s.ver.Some? && k < TableSize(p.t.Entry(lid))
    requires SizeFlag(s, p.t.Entry(lid)) == 0 || SizeFlag(s, p.t.Entry(lid)) == 1
    ensures var (sealed, s'), e := Close(p, Write(p, s, lid, k, [v]), lid, false, env), p.t.Entry(lid);
            sealed && s'.ver == s.ver && Exposes(s', e, PWrite(Seen(s, e), k, [v]))
  {
    hide CheckFile, SetCheckNo, TableSize;
    var e := p.t.Entry(lid);
    var file := s.files[e.path];
    assert PWrite(file, k, [v]) == file[k := v];
    var s' := Write(p, s, lid, k, [v]);
    assert SizeFlag(s', e) == SizeFlag(s, e);
    assert Seen(s', e) == PWrite(Seen(s, e), k, [v]);
    ProtectKeepsContent(p, s', lid, true, env.image);
    SetCheckNoMakesValid(s'.files[e.path], SizeFlag(s', e) == 1);
  }

  /** An entry that resets on a version mismatch: the open puts the default in the place of what was sealed. */
  lemma StaleFileIsReset(p: Policy, s: Store, lid: nat, env: Env)
    requires p.Valid() && Ordinary(p, lid) && Healthy(s) && p.t.Entry(lid).dataReset
    requires p.t.Entry(lid).path in s.files && !VersionMatches(p.t, s.ver.value, lid)
    ensures var (ok, s'), e := Open(p, s, lid, env), p.t.Entry(lid);
            && (ok <==> DefaultContent(e).Some?)
            && (ok ==> Exposes(s', e, DefaultContent(e).value))
  {
    hide VersionMatches, Reset, Protect;
    var path := p.t.Entry(lid).path;
    var s1 := WithFile(s, path, []);
    BaseNameFollowsLastSlash(path);
    ResetProtects(p, s1, lid);
    ResetTouches(p, s1, lid);
    if Reset(p, s1, lid).0 {
      CheckKeepsProtected(p, Reset(p, s1, lid).1, lid, env.image);
    }
  }

  /** Open, write a byte, close. */
  ghost function Session(p: Policy, s: Store, lid: nat, k: nat, v: byte, env: Env): (bool, Store)
    requires p.Valid() && 0 < lid < p.t.Count()
  {
    Close(p, Write(p, Open(p, s, lid, env).1, lid, k, [v]), lid, false, env)
  }

  /** Open, write, close, open again, for an entry that resets on a version mismatch and for every way the
      first open can succeed: the close seals the byte under a valid trailer, and at the second open, whatever
      its surroundings, it is still there if and only if the first did not restore a missing file of a stale
      version, or what was sealed is the default. */
  lemma SealedWriteSurvivesExactly(p: Policy, s: Store, lid: nat, k: nat, v: byte, env: Env, later: Env)
    requires p.Valid() && Ordinary(p, lid) && Healthy(s) && p.t.Entry(lid).dataReset
    requires Open(p, s, lid, env).0 && k < TableSize(p.t.Entry(lid))
    ensures var e := p.t.Entry(lid);
            var content := PWrite(Seen(Open(p, s, lid, env).1, e), k, [v]);
            var (sealed, s3) := Session(p, s, lid, k, v, env);
            var (again, s4) := Open(p, s3, lid, later);
            && sealed && Exposes(s3, e, content)
            && (again && Exposes(s4, e, content)
                <==> !RestoresStale(p, s, lid, env) || DefaultContent(e) == Some(content))
  {
    hide Open, Write, Close, VersionMatches, CheckFile, DefaultContent, TableSize, RestoresStale;
    var s1 := Open(p, s, lid, env).1;
    OpenLeavesFit(p, s, lid, env);
    OpenMakesCurrent(p, s, lid, env);
    WriteAndClose(p, s1, lid, k, v, env);
    var s3 := Session(p, s, lid, k, v, env).1;
    if RestoresStale(p, s, lid, env) {
      StaleFileIsReset(p, s3, lid, later);
    } else {
      CurrentIsPrepared(p, s3, lid, later);
      OpenOfPrepared(p, s3, lid, later);
    }
  }

  lemma OpenOfPrepared(p: Policy, s: Store, lid: nat, env: Env)
    requires p.Valid() && Ordinary(p, lid) && Healthy(s) && Protected(s, p.t.Entry(lid))
    requires Prepare(p, s, lid, env) == (true, s)
    ensures Open(p, s, lid, env) == (true, s)
  {
    hide Prepare, Protect;
    CheckKeepsProtected(p, s, lid, env.image);
  }

  /** In particular, after an open that restored a missing file of a stale version, a write over the image is
      sealed and then replaced by the default. */
  lemma SealedWriteIsLost(p: Policy, s: Store, lid: nat, k: nat, v: byte, env: Env, later: Env)
    requires p.Valid() && Ordinary(p, lid) && Healthy(s) && p.t.Entry(lid).dataReset
    requires RestoresStale(p, s, lid, env) && !Ambiguous(p.t.Entry(lid)) && k < TableSize(p.t.Entry(lid))
    ensures var e := p.t.Entry(lid);
            var (sealed, s3) := Session(p, s, lid, k, v, env);
            var (again, s4) := Open(p, s3, lid, later);
            && Open(p, s, lid, env).0 && sealed && Exposes(s3, e, PWrite(Content(env.image.value), k, [v]))
            && (again <==> DefaultContent(e).Some?)
            && (again ==> Exposes(s4, e, DefaultContent(e).value))
  {
    hide Open, Write, Close, VersionMatches, CheckFile, DefaultContent, TableSize;
    StaleOpenYields(p, s, lid, env);
    WriteAndClose(p, Open(p, s, lid, env).1, lid, k, v, env);
    StaleFileIsReset(p, Session(p, s, lid, k, v, env).1, lid, later);
  }

  const SECOND: bytes := [48, 48, 48, 49]

  /** The list that keeps the example's record file in the bin region. */
  const LISTED: seq<BackupEntry> := [BackupEntry([114], 1)]

  /** The version file of the first configuration; the record file is missing. */
  ghost function StaleStart(): Store
  {
    ExampleTablesAreValid(FIRST);
    Store(Some(Generated(ExampleTables(FIRST))), map[])
  }

  /** The image that the bin region holds for it: one byte, 7, and its trailer. */
  ghost function StaleImage(): bytes
  {
    SetCheckNoSucceeds([7], false);
    SetCheckNo([7], false).value
  }

  lemma StaleStartIsStale()
    ensures Example(SECOND, LISTED).Valid() && Healthy(StaleStart())
    ensures RestoresStale(Example(SECOND, LISTED), StaleStart(), 1, Env(Some(StaleImage()), true, None))
  {
    hide Generated, VersionMatches, CheckFile, WellFormed, DistinctNames, SetCheckNo;
    ExampleTablesAreValid(FIRST);
    ExampleTablesAreValid(SECOND);
    ExampleIsOrdinary(SECOND, LISTED);
    GeneratedIsCurrent(ExampleTables(FIRST));
    SetCheckNoMakesValid([7], false);
    OtherVersion(Generated(ExampleTables(FIRST)));
    assert LISTED[0].lid == 1;
  }

  /** A file of one version is not of the other. */
  lemma OtherVersion(file: bytes)
    requires ExampleTables(FIRST).Valid() && VersionMatches(ExampleTables(FIRST), file, 1)
    ensures ExampleTables(SECOND).Valid() && !VersionMatches(ExampleTables(SECOND), file, 1)
  {
    hide VersionFrom, DistinctNames;
    ExampleTablesAreValid(FIRST);
    ExampleTablesAreValid(SECOND);
  }

  /** The same on a concrete store, after an update of the software: open, write 1, close, open again, and the
      content that had been sealed is the default. */
  lemma SealedWriteIsLostAfterUpdate(later: Env)
    ensures Example(SECOND, LISTED).Valid()
    ensures var p, e := Example(SECOND, LISTED), RecordEntry(SECOND);
            var env := Env(Some(StaleImage()), true, None);
            var (sealed, s3) := Session(p, StaleStart(), 1, 0, 1, env);
            var (again, s4) := Open(p, s3, 1, later);
            && Open(p, StaleStart(), 1, env).0 && sealed && Exposes(s3, e, [1])
            && again && Exposes(s4, e, [0])
  {
    ExampleTablesAreValid(SECOND);
    ExampleIsOrdinary(SECOND, LISTED);
    StaleStartIsStale();
    SetCheckNoMakesValid([7], false);
    hide Open, Session, StaleStart, RestoresStale, Ordinary, Healthy, DefaultContent, Exposes, SetCheckNo, RecordName, DistinctNames;
    assert PWrite([7], 0, [1]) == [1];
    SealedWriteIsLost(Example(SECOND, LISTED), StaleStart(), 1, 0, 1, Env(Some(StaleImage()), true, None), later);
  }

  // ----- when every open protects -----

  /** A version file with the header and the record of one lid. */
  lemma SmallVersionFile(t: Tables, lid: nat) returns (file: bytes)
    requires t.Valid() && Named(t, lid)
    ensures WellFormed(file) && VersionMatches(t, file, lid)
  {
    var h := HeaderRecord(t);
    RecordsOfOne(h);
    NameOfNamed(VER_INFO, t.Entry(0).ver);
    OneRecord(h);
    UpdateMakesCurrent(t, h, lid);
    file := Updated(t, h, lid);
  }

  /** Every successful open of a lid leaves its file protected if and only if the entry is not both backed up
      and ambiguous in size. */
  lemma OpenProtectionIsExact(p: Policy, lid: nat)
    requires p.Valid() && Ordinary(p, lid)
    ensures (forall s, env | Healthy(s) && Open(p, s, lid, env).0 :: Protected(Open(p, s, lid, env).1, p.t.Entry(lid)))
            <==> !(Ambiguous(p.t.Entry(lid)) && p.ListedAs(lid, RecordName(p.t.Entry(lid))))
  {
    var e := p.t.Entry(lid);
    hide Open, Protected, VersionMatches, CheckFile;
    if Ambiguous(e) && p.ListedAs(lid, RecordName(e)) {
      var file := SmallVersionFile(p.t, lid);
      var content := Zeros(e.recNum * e.recSize);
      SetCheckNoMakesValid(content, false);
      var s := Store(Some(file), map[e.path := []]);
      var env := Env(SetCheckNo(content, false), false, None);
      BareOpenSucceeds(p, s, lid, env);
      OpenProtects(p, s, lid, env);
    } else {
      forall s, env | Healthy(s) && Open(p, s, lid, env).0
        ensures Protected(Open(p, s, lid, env).1, e)
      {
        OpenProtects(p, s, lid, env);
      }
    }
  }

  lemma BareOpenSucceeds(p: Policy, s: Store, lid: nat, env: Env)
    requires p.Valid() && Ordinary(p, lid) && Healthy(s) && RestoresBare(p, s, lid, env)
    ensures Open(p, s, lid, env).0
  {
    hide VersionMatches, CheckFile, Restore;
    CurrentIsPrepared(p, s, lid, env);
    RestoreYields(p, s, lid, env.image);
  }
}
