/** Opening a file between a write and the close that seals it: the stale trailer is taken for corruption
    and the file is recovered. Exactly when the write survives that, for one call and over whole runs. */
module Reopening {
  import opened Bytes
  import opened Config
  import opened CheckTrailer
  import opened VersionTable
  import opened VersionFile
  import opened NvramStore
  import opened Durability

  /** The content that a recovery puts in place: that of the backup's image, if the file is listed and the
      image passes the checks of a restore, and otherwise the default. */
  ghost function Recovered(p: Policy, lid: nat, image: Option<bytes>): Option<bytes>
    requires p.Valid() && 0 < lid < p.t.Count()
  {
    var e := p.t.Entry(lid);
    if p.ListedAs(lid, RecordName(e)) && Acceptable(e, image)
    then Some(Content(image.value)) else DefaultContent(e)
  }

  // ----- one call -----

  /** What a recovery of a file of the current version leaves behind. */
  lemma RecoveryYields(p: Policy, s: Store, lid: nat, image: Option<bytes>)
    requires p.Valid() && Ordinary(p, lid) && Healthy(s) && VersionMatches(p.t, s.ver.value, lid)
    ensures var (r, s'), e := RestoreOrReset(p, s, lid, image), p.t.Entry(lid);
            && Healthy(s') && e.path in s'.files
            && (r == 1 <==> Recovered(p, lid, image).Some?)
            && (r == 1 ==> VersionMatches(p.t, s'.ver.value, lid)
                           && CheckFile(s'.files[e.path]) && |s'.files[e.path]| >= 2
                           && Content(s'.files[e.path]) == Recovered(p, lid, image).value)
            && (r != 1 ==> s'.files[e.path] == [])
  {
    hide VersionMatches, Healthy, CheckFile;
    var e := p.t.Entry(lid);
    var (restored, s1) := if p.ListedAs(lid, RecordName(e)) then Restore(p, s, lid, image) else (false, s);
    RestoreOrResetTouches(p, s, lid, image);
    TouchedIsHealthy(p, s, RestoreOrReset(p, s, lid, image).1, lid);
    TouchedIsHealthy(p, s, s, lid);
    if restored {
      RestoreYields(p, s, lid, image);
    } else {
      assert s1.ver == s.ver;
      SameVersionFile(s, s1);
      if p.ListedAs(lid, RecordName(e)) {
        RestoreYields(p, s, lid, image);
      }
      ResetProtects(p, s1, lid);
      if Reset(p, s1, lid).0 {
        ResetMakesCurrent(p, s1, lid);
      } else {
        FailedResetEmpties(p, s1, lid);
      }
    }
  }

  lemma SameVersionFile(s: Store, s': Store)
    requires s'.ver == s.ver && Healthy(s)
    ensures Healthy(s')
  {
  }

  lemma TouchedIsHealthy(p: Policy, s: Store, s': Store, lid: nat)
    requires p.Valid() && lid < p.t.Count() && (OnlyTouches(p, s, s', lid) || (s' == s && Healthy(s)))
    ensures Healthy(s') && s'.ver.Some?
  {
  }

  lemma FailedResetEmpties(p: Policy, s: Store, lid: nat)
    requires p.Valid() && 0 < lid < p.t.Count() && lid !in p.performance && !Reset(p, s, lid).0
    ensures p.t.Entry(lid).path in Reset(p, s, lid).1.files && Reset(p, s, lid).1.files[p.t.Entry(lid).path] == []
    ensures DefaultContent(p.t.Entry(lid)).None?
  {
    ResetProtects(p, s, lid);
  }

  /** What opening a file in the middle of writing it yields: the content written when the stale trailer
      happens to fit, and otherwise whatever is recovered; no descriptor when nothing can be. */
  lemma OpenWhileDirtyRecovers(p: Policy, s: Store, lid: nat, content: bytes, env: Env)
    requires p.Valid() && Ordinary(p, lid) && Holds(p, s, lid, content, true)
    ensures var (ok, s'), path := Open(p, s, lid, env), p.t.Entry(lid).path;
            var fits := CheckFile(s.files[path]);
            && path in s'.files && Healthy(s')
            && (ok <==> fits || Recovered(p, lid, env.image).Some?)
            && (ok ==> VersionMatches(p.t, s'.ver.value, lid) && CheckFile(s'.files[path]) && |s'.files[path]| >= 2
                       && Content(s'.files[path]) == if fits then content else Recovered(p, lid, env.image).value)
            && (!ok ==> s'.files[path] == [])
  {
    hide VersionMatches, CheckFile, Healthy;
    BaseNameFollowsLastSlash(p.t.Entry(lid).path);
    HoldsMeans(p, s, lid, content);
    assert Prepare(p, s, lid, env) == (true, s);
    RecoveryYields(p, s, lid, env.image);
  }

  lemma HoldsMeans(p: Policy, s: Store, lid: nat, content: bytes)
    requires p.Valid() && lid < p.t.Count() && Holds(p, s, lid, content, true)
    ensures Healthy(s) && s.ver.Some? && VersionMatches(p.t, s.ver.value, lid)
    ensures var e := p.t.Entry(lid);
            && e.path in s.files && SizeFlag(s, e) == 1 && |s.files[e.path]| == TableSize(e) + 2
            && Content(s.files[e.path]) == content && |content| == TableSize(e)
  {
  }

  /** The write survives an open before its close exactly when the stale trailer fits the new content, or
      what is recovered is that very content; and then it is sealed. */
  lemma ReopenKeepsExactly(p: Policy, s: Store, lid: nat, content: bytes, env: Env)
    requires p.Valid() && Ordinary(p, lid) && Holds(p, s, lid, content, true)
    ensures var s' := Open(p, s, lid, env).1;
            var kept := CheckFile(s.files[p.t.Entry(lid).path]) || Recovered(p, lid, env.image) == Some(content);
            && (Holds(p, s', lid, content, true) <==> kept)
            && (kept ==> Open(p, s, lid, env).0 && Holds(p, s', lid, content, false))
  {
    hide VersionMatches, CheckFile, Healthy, Open, Recovered;
    var s', e := Open(p, s, lid, env).1, p.t.Entry(lid);
    HoldsMeans(p, s, lid, content);
    OpenWhileDirtyRecovers(p, s, lid, content, env);
    assert |s'.files[e.path]| >= 2 ==>
             (SizeFlag(s', e) == 1 <==> |Content(s'.files[e.path])| == |content|);
  }

  /** Whether some image that a restore accepts would change a content of the table's size. */
  ghost predicate Replaceable(p: Policy, lid: nat)
    requires p.Valid() && 0 < lid < p.t.Count()
  {
    var e := p.t.Entry(lid);
    && p.ListedAs(lid, RecordName(e))
    && (Ambiguous(e) || (TableSize(e) == e.recNum * e.recSize && TableSize(e) > 0))
  }

  /** The write survives whatever the backup holds exactly when the stale trailer fits, or the content is
      the default and no backup can replace it. */
  lemma ReopenIsSafeExactly(p: Policy, s: Store, lid: nat, content: bytes)
    requires p.Valid() && Ordinary(p, lid) && Holds(p, s, lid, content, true)
    ensures (forall env :: Holds(p, Open(p, s, lid, env).1, lid, content, true))
            <==> CheckFile(s.files[p.t.Entry(lid).path])
                 || (DefaultContent(p.t.Entry(lid)) == Some(content) && !Replaceable(p, lid))
  {
    hide Holds, Open, Recovered, CheckFile, Replaceable;
    HoldsMeans(p, s, lid, content);
    var fits := CheckFile(s.files[p.t.Entry(lid).path]);
    forall env: Env
      ensures Holds(p, Open(p, s, lid, env).1, lid, content, true) <==> fits || Recovered(p, lid, env.image) == Some(content)
    {
      ReopenKeepsExactly(p, s, lid, content, env);
    }
    if !fits {
      WithoutImage(p, lid);
      var none := Env(None, false, None);
      assert Holds(p, Open(p, s, lid, none).1, lid, content, true) <==> DefaultContent(p.t.Entry(lid)) == Some(content);
      if Replaceable(p, lid) {
        var image := OtherImage(p, lid, content);
        var other := Env(Some(image), false, None);
        assert !Holds(p, Open(p, s, lid, other).1, lid, content, true);
      } else {
        forall env: Env
          ensures Recovered(p, lid, env.image) == DefaultContent(p.t.Entry(lid))
               || (|content| == 0 && Recovered(p, lid, env.image) == Some([]))
        {
          NothingElseIsRecovered(p, lid, env.image);
        }
      }
    }
  }

  lemma WithoutImage(p: Policy, lid: nat)
    requires p.Valid() && 0 < lid < p.t.Count()
    ensures Recovered(p, lid, None) == DefaultContent(p.t.Entry(lid))
  {
  }

  /** An image that a restore accepts and that has another content. */
  lemma OtherImage(p: Policy, lid: nat, content: bytes) returns (image: bytes)
    requires p.Valid() && 0 < lid < p.t.Count() && Replaceable(p, lid) && |content| == TableSize(p.t.Entry(lid))
    ensures Recovered(p, lid, Some(image)).Some? && Recovered(p, lid, Some(image)) != Some(content)
  {
    var e := p.t.Entry(lid);
    var n := e.recNum * e.recSize;
    var other := if |content| == n then content[0 := if content[0] == 0 then 1 else 0] else Zeros(n);
    SetCheckNoMakesValid(other, false);
    image := SetCheckNo(other, false).value;
    assert |content| == n ==> other[0] != content[0];
  }

  lemma NothingElseIsRecovered(p: Policy, lid: nat, image: Option<bytes>)
    requires p.Valid() && 0 < lid < p.t.Count() && !Replaceable(p, lid)
    ensures Recovered(p, lid, image) == DefaultContent(p.t.Entry(lid))
            || (TableSize(p.t.Entry(lid)) == 0 && Recovered(p, lid, image) == Some([]))
  {
  }

  // ----- whole runs -----

  /** Along the run, the file follows its users' view. */
  ghost predicate Follows(p: Policy, s: Store, lid: nat, v: View, ops: seq<Op>)
    requires p.Valid() && lid < p.t.Count() && OnNamedLids(p, ops)
    decreases |ops|
  {
    && Holds(p, s, lid, v.content, v.dirty)
    && (ops != [] ==> Follows(p, Step(p, s, ops[0]), lid, ViewStep(v, lid, ops[0]), ops[1..]))
  }

  /** At every open of the file between a write and its close, the stale trailer fits or the very content
      written is recovered. */
  ghost predicate Careful(p: Policy, s: Store, lid: nat, v: View, ops: seq<Op>)
    requires p.Valid() && 0 < lid < p.t.Count() && OnNamedLids(p, ops)
    decreases |ops|
  {
    ops != [] ==>
      && (ops[0].OpOpen? && ops[0].lid == lid && v.dirty ==> Survives(p, s, lid, v.content, ops[0].env))
      && Careful(p, Step(p, s, ops[0]), lid, ViewStep(v, lid, ops[0]), ops[1..])
  }

  ghost predicate Survives(p: Policy, s: Store, lid: nat, content: bytes, env: Env)
    requires p.Valid() && 0 < lid < p.t.Count()
  {
    var path := p.t.Entry(lid).path;
    path in s.files && (CheckFile(s.files[path]) || Recovered(p, lid, env.image) == Some(content))
  }

  /** Durability, exactly: along a run of opens, writes and closes of any files, reopening included, the
      file follows its users' view if and only if every reopening between a write and its close is one
      that the write survives. */
  lemma {:induction false} RunsAreDurableExactly(p: Policy, s: Store, lid: nat, v: View, ops: seq<Op>)
    requires p.Valid() && Distinct(p) && Ordinary(p, lid) && OnNamedLids(p, ops)
    requires Holds(p, s, lid, v.content, v.dirty)
    ensures Follows(p, s, lid, v, ops) <==> Careful(p, s, lid, v, ops)
    decreases |ops|
  {
    hide Holds, Step, Survives, Distinct;
    if ops != [] {
      var s', v' := Step(p, s, ops[0]), ViewStep(v, lid, ops[0]);
      StepFollowsExactly(p, s, lid, v, ops[0]);
      if Holds(p, s', lid, v'.content, v'.dirty) {
        RunsAreDurableExactly(p, s', lid, v', ops[1..]);
      } else {
        assert !Follows(p, s', lid, v', ops[1..]);
      }
    }
  }

  lemma StepFollowsExactly(p: Policy, s: Store, lid: nat, v: View, op: Op)
    requires p.Valid() && Distinct(p) && Ordinary(p, lid) && 0 < op.lid && Named(p.t, op.lid)
    requires Holds(p, s, lid, v.content, v.dirty)
    ensures var v' := ViewStep(v, lid, op);
            Holds(p, Step(p, s, op), lid, v'.content, v'.dirty)
            <==> (op.OpOpen? && op.lid == lid && v.dirty ==> Survives(p, s, lid, v.content, op.env))
  {
    hide Open, Recovered, CheckFile, Distinct, Ordinary;
    if op.OpOpen? && op.lid == lid && v.dirty {
      hide Holds;
      HoldsMeans(p, s, lid, v.content);
      ReopenKeepsExactly(p, s, lid, v.content, op.env);
    } else {
      hide Holds, Step;
      StepKeepsView(p, s, lid, v, op);
    }
  }

  // ----- a write that is lost -----

  /** Any one-byte write to a file that is not backed up and holds its default is lost if the file is
      opened again before it is closed: all calls succeed, and the content is the default again. */
  lemma OneByteWriteIsLost(p: Policy, s: Store, lid: nat, k: nat, v: byte, env: Env)
    requires p.Valid() && Ordinary(p, lid) && !p.ListedAs(lid, RecordName(p.t.Entry(lid)))
    requires DefaultContent(p.t.Entry(lid)).Some? && TableSize(p.t.Entry(lid)) < 0x1_0000_0000
    requires var d := DefaultContent(p.t.Entry(lid)).value;
             Holds(p, s, lid, d, false) && k < |d| && v != d[k]
    ensures var path, d := p.t.Entry(lid).path, DefaultContent(p.t.Entry(lid)).value;
            var s2 := Write(p, Open(p, s, lid, env).1, lid, k, [v]);
            var (ok, s3) := Open(p, s2, lid, env);
            && Open(p, s, lid, env).0 && Holds(p, s2, lid, d[k := v], true)
            && ok && Holds(p, s3, lid, d, false)
  {
    hide Open, Write, Holds, DefaultContent, TableSize;
    var d := DefaultContent(p.t.Entry(lid)).value;
    var s2 := Write(p, s, lid, k, [v]);
    OpenExposesContent(p, s, lid, d, env);
    OneByteWritten(p, s, lid, d, k, v);
    Unlisted(p, lid, env.image);
    RecoveredHolds(p, s2, lid, d[k := v], env);
  }

  /** One byte written over a valid file: the trailer no longer fits. */
  lemma OneByteWritten(p: Policy, s: Store, lid: nat, d: bytes, k: nat, v: byte)
    requires p.Valid() && Ordinary(p, lid) && TableSize(p.t.Entry(lid)) < 0x1_0000_0000
    requires Holds(p, s, lid, d, false) && k < |d| && v != d[k]
    ensures var s', path := Write(p, s, lid, k, [v]), p.t.Entry(lid).path;
            Holds(p, s', lid, d[k := v], true) && path in s'.files && !CheckFile(s'.files[path])
  {
    var path := p.t.Entry(lid).path;
    HoldsMeans(p, s, lid, d);
    var file := s.files[path];
    assert file[k] == Content(file)[k];
    WriteUpdatesView(p, s, lid, View(d, false), k, [v]);
    assert PWrite(d + Zeros(2), k, [v])[..|d|] == d[k := v];
    OneByteChangeIsDetected(file, k, v);
    assert PWrite(file, k, [v]) == WithByte(file, k, v);
  }

  lemma Unlisted(p: Policy, lid: nat, image: Option<bytes>)
    requires p.Valid() && 0 < lid < p.t.Count() && !p.ListedAs(lid, RecordName(p.t.Entry(lid)))
    ensures Recovered(p, lid, image) == DefaultContent(p.t.Entry(lid))
  {
  }

  /** A recovery of the table's size leaves a file that holds what was recovered. */
  lemma RecoveredHolds(p: Policy, s: Store, lid: nat, content: bytes, env: Env)
    requires p.Valid() && Ordinary(p, lid) && Holds(p, s, lid, content, true)
    requires p.t.Entry(lid).path in s.files && !CheckFile(s.files[p.t.Entry(lid).path])
    requires Recovered(p, lid, env.image).Some? && |Recovered(p, lid, env.image).value| == |content|
    ensures Open(p, s, lid, env).0
    ensures Holds(p, Open(p, s, lid, env).1, lid, Recovered(p, lid, env.image).value, false)
  {
    hide VersionMatches, CheckFile, Healthy, Open, Recovered;
    HoldsMeans(p, s, lid, content);
    OpenWhileDirtyRecovers(p, s, lid, content, env);
  }

  function VersionEntry(ver: bytes): CfgEntry { CfgEntry([SLASH, 118], ver, 1, 1, DEFAULT_ZERO, None, true) }

  function RecordEntry(ver: bytes): CfgEntry { CfgEntry([SLASH, 114], ver, 1, 1, DEFAULT_ZERO, None, true) }

  function ExampleTables(ver: bytes): Tables { Tables([VersionEntry(ver), RecordEntry(ver)], []) }

  /** A configuration with the version file and one record file of one byte, default zero. */
  function Example(ver: bytes, backup: seq<BackupEntry>): Policy { Policy(ExampleTables(ver), {}, backup) }

  const FIRST: bytes := [48, 48, 48, 48]

  lemma ExampleTablesAreValid(ver: bytes)
    requires |ver| == 4
    ensures var t := ExampleTables(ver);
            && t.Valid() && t.Count() == 2 && t.Entry(0) == VersionEntry(ver) && t.Entry(1) == RecordEntry(ver)
            && RecordName(t.Entry(0)) == [118] && RecordName(t.Entry(1)) == [114] && DistinctNames(t)
  {
    hide RecordName;
    var t := ExampleTables(ver);
    assert t.Entry(0) == VersionEntry(ver) && t.Entry(1) == RecordEntry(ver);
    NameInExample(t.Entry(0), 118);
    NameInExample(t.Entry(1), 114);
    TwoNames([118], [114]);
  }

  lemma NameInExample(e: CfgEntry, c: byte)
    requires e.Valid() && e.path == [SLASH, c] && c != SLASH
    ensures RecordName(e) == [c]
  {
    BaseNameFollowsLastSlash(e.path);
  }

  lemma TwoNames(a: bytes, b: bytes)
    requires |a| == 1 && |b| == 1 && a[0] != b[0]
    ensures a != b && a != VER_INFO && b != VER_INFO
  {
  }

  lemma ExampleIsOrdinary(ver: bytes, backup: seq<BackupEntry>)
    requires |ver| == 4
    ensures Example(ver, backup).Valid() && Distinct(Example(ver, backup)) && Ordinary(Example(ver, backup), 1)
    ensures DefaultContent(RecordEntry(ver)) == Some([0]) && TableSize(RecordEntry(ver)) == 1
  {
    hide BaseName;
    ExampleTablesAreValid(ver);
    assert Zeros(1) == [0];
  }

  /** A freshly generated version file, and the record file at its default. */
  ghost function ExampleStart(): Store
  {
    ExampleTablesAreValid(FIRST);
    SetCheckNoSucceeds([0], false);
    Store(Some(Generated(ExampleTables(FIRST))), map[RecordEntry(FIRST).path := SetCheckNo([0], false).value])
  }

  lemma ExampleHolds()
    ensures Example(FIRST, []).Valid() && Holds(Example(FIRST, []), ExampleStart(), 1, [0], false)
  {
    hide VersionMatches, Generated;
    ExampleIsOrdinary(FIRST, []);
    ExampleTablesAreValid(FIRST);
    GeneratedIsCurrent(ExampleTables(FIRST));
    SetCheckNoMakesValid([0], false);
  }

  /** Open, write, open again, on a concrete store: the byte written is gone. */
  lemma WriteIsLost(env: Env)
    ensures var p := Example(FIRST, []);
            p.Valid() &&
            var s0 := ExampleStart();
            var s1 := Open(p, s0, 1, env).1;
            var s2 := Write(p, s1, 1, 0, [1]);
            var s3 := Open(p, s2, 1, env).1;
            && Open(p, s0, 1, env).0 && Holds(p, s2, 1, [1], true)
            && Open(p, s2, 1, env).0 && Holds(p, s3, 1, [0], false)
  {
    ExampleTablesAreValid(FIRST);
    ExampleIsOrdinary(FIRST, []);
    ExampleHolds();
    hide Open, Write, Holds, DefaultContent, TableSize, ExampleStart, Ordinary, RecordName;
    assert [0][0 := 1] == [1];
    OneByteWriteIsLost(Example(FIRST, []), ExampleStart(), 1, 0, 1, env);
  }
}
