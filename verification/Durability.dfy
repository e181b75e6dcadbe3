/** Durability over whole runs: what was written before a successful close is what every later open
    exposes, whatever happens to the other files meanwhile. */
module Durability {
  import opened Bytes
  import opened Config
  import opened CheckTrailer
  import opened VersionTable
  import opened VersionFile
  import opened NvramStore

  /** The configuration a run needs: distinct paths, and distinct base names for the version file. */
  ghost predicate Distinct(p: Policy)
    requires p.Valid()
  {
    && DistinctNames(p.t)
    && forall i: nat, j: nat | i < j < p.t.Count() && Named(p.t, i) && Named(p.t, j) ::
         p.t.Entry(i).path != p.t.Entry(j).path
  }

  /** An ordinary lid: known by name, not the version file, neither performance-listed nor reserved. */
  ghost predicate Ordinary(p: Policy, lid: nat)
    requires p.Valid()
  {
    0 < lid && Named(p.t, lid) && lid !in p.performance && p.t.Entry(lid).path != RESERVED
  }

  /** The version file in use: new format, aligned, unique names. */
  predicate Healthy(s: Store) { s.ver.Some? && WellFormed(s.ver.value) }

  /** The file of `lid` has its size and version and this content; unless it is being written its
      trailer is valid. */
  ghost predicate Holds(p: Policy, s: Store, lid: nat, content: bytes, dirty: bool)
    requires p.Valid() && lid < p.t.Count()
  {
    var e := p.t.Entry(lid);
    && Healthy(s) && VersionMatches(p.t, s.ver.value, lid)
    && SizeFlag(s, e) == 1 && Content(s.files[e.path]) == content
    && (!dirty ==> CheckFile(s.files[e.path]))
  }

  datatype Op =
    | OpOpen(lid: nat, env: Env)
    | OpWrite(lid: nat, offset: nat, data: bytes)
    | OpClose(lid: nat, isRead: bool, env: Env)

  /** A write through a descriptor, which keeps the length of the file. */
  function Write(p: Policy, s: Store, lid: nat, offset: nat, data: bytes): Store
    requires p.Valid() && lid < p.t.Count()
  {
    var path := p.t.Entry(lid).path;
    if path in s.files && offset + |data| <= |s.files[path]|
    then WithFile(s, path, PWrite(s.files[path], offset, data)) else s
  }

  ghost function Step(p: Policy, s: Store, op: Op): Store
    requires p.Valid() && 0 < op.lid < p.t.Count()
  {
    match op
    case OpOpen(lid, env) => Open(p, s, lid, env).1
    case OpWrite(lid, offset, data) => Write(p, s, lid, offset, data)
    case OpClose(lid, isRead, env) => Close(p, s, lid, isRead, env).1
  }

  /** Operations on record files that are known by name. */
  ghost predicate OnNamedLids(p: Policy, ops: seq<Op>)
    requires p.Valid()
  {
    forall i | 0 <= i < |ops| :: 0 < ops[i].lid && Named(p.t, ops[i].lid)
  }

  ghost function Run(p: Policy, s: Store, ops: seq<Op>): Store
    requires p.Valid() && OnNamedLids(p, ops)
    decreases |ops|
  {
    if ops == [] then s else Run(p, Step(p, s, ops[0]), ops[1..])
  }

  // ----- the reader's view: one buffer, no trailer, no version file -----

  /** The content of one file as its users understand it, and whether writes await a close. */
  datatype View = View(content: bytes, dirty: bool)

  function ViewStep(v: View, lid: nat, op: Op): View {
    if op.lid != lid then v
    else
      match op
      case OpOpen(_, _) => v
      case OpWrite(_, offset, data) =>
        if offset + |data| <= |v.content| + 2
        then View(PWrite(v.content + Zeros(2), offset, data)[..|v.content|], true) else v
      case OpClose(_, isRead, _) => if isRead then v else v.(dirty := false)
  }

  function ViewRun(v: View, lid: nat, ops: seq<Op>): View
    decreases |ops|
  {
    if ops == [] then v else ViewRun(ViewStep(v, lid, ops[0]), lid, ops[1..])
  }

  /** Runs in which the file is not opened again between a write and the close that seals it. */
  predicate Disciplined(v: View, lid: nat, ops: seq<Op>)
    decreases |ops|
  {
    ops != [] ==> !(ops[0].OpOpen? && ops[0].lid == lid && v.dirty) && Disciplined(ViewStep(v, lid, ops[0]), lid, ops[1..])
  }

  // ----- what calls on other lids leave alone -----

  /** `after` differs from `before` only in the file of `lid` and the version of its name. */
  ghost predicate OnlyTouches(p: Policy, before: Store, after: Store, lid: nat)
    requires p.Valid() && lid < p.t.Count()
  {
    && Healthy(before) && Healthy(after)
    && (forall path | path != p.t.Entry(lid).path :: path in after.files <==> path in before.files)
    && (forall path | path != p.t.Entry(lid).path && path in before.files :: after.files[path] == before.files[path])
    && (forall other: nat | Named(p.t, other) && RecordName(p.t.Entry(other)) != RecordName(p.t.Entry(lid)) ::
          VersionMatches(p.t, after.ver.value, other) <==> VersionMatches(p.t, before.ver.value, other))
  }

  lemma TouchTwice(p: Policy, a: Store, b: Store, c: Store, lid: nat)
    requires p.Valid() && lid < p.t.Count()
    requires OnlyTouches(p, a, b, lid) && OnlyTouches(p, b, c, lid)
    ensures OnlyTouches(p, a, c, lid)
  {
  }

  lemma TouchVersion(p: Policy, s: Store, lid: nat)
    requires p.Valid() && Named(p.t, lid) && Healthy(s)
    ensures OnlyTouches(p, s, s.(ver := Some(Updated(p.t, s.ver.value, lid))), lid)
  {
    UpdateMakesCurrent(p.t, s.ver.value, lid);
    forall other: nat | Named(p.t, other) && RecordName(p.t.Entry(other)) != RecordName(p.t.Entry(lid))
      ensures VersionMatches(p.t, Updated(p.t, s.ver.value, lid), other) <==> VersionMatches(p.t, s.ver.value, other)
    {
      UpdateKeepsOthers(p.t, s.ver.value, lid, other);
    }
  }

  lemma ResetTouches(p: Policy, s: Store, lid: nat)
    requires p.Valid() && 0 < lid && Named(p.t, lid) && Healthy(s)
    ensures OnlyTouches(p, s, Reset(p, s, lid).1, lid)
  {
    hide Updated;
    TouchVersion(p, s, lid);
  }

  lemma RestoreTouches(p: Policy, s: Store, lid: nat, image: Option<bytes>)
    requires p.Valid() && 0 < lid && Named(p.t, lid) && Healthy(s)
    ensures OnlyTouches(p, s, Restore(p, s, lid, image).1, lid)
  {
  }

  lemma RestoreOrResetTouches(p: Policy, s: Store, lid: nat, image: Option<bytes>)
    requires p.Valid() && 0 < lid && Named(p.t, lid) && Healthy(s)
    ensures OnlyTouches(p, s, RestoreOrReset(p, s, lid, image).1, lid)
  {
    var (restored, s') := if p.ListedAs(lid, RecordName(p.t.Entry(lid))) then Restore(p, s, lid, image) else (false, s);
    assert OnlyTouches(p, s, s', lid) by {
      RestoreTouches(p, s, lid, image);
    }
    if !restored {
      ResetTouches(p, s', lid);
      TouchTwice(p, s, s', Reset(p, s', lid).1, lid);
    }
  }

  lemma ProtectTouches(p: Policy, s: Store, lid: nat, set': bool, image: Option<bytes>)
    requires p.Valid() && 0 < lid && Named(p.t, lid) && Healthy(s)
    ensures OnlyTouches(p, s, Protect(p, s, lid, set', image).1, lid)
  {
    hide Restore, Reset;
    RestoreOrResetTouches(p, s, lid, image);
  }

  lemma ConvertTouches(p: Policy, s: Store, lid: nat, env: Env)
    requires p.Valid() && 0 < lid && Named(p.t, lid) && Healthy(s)
    ensures OnlyTouches(p, s, Convert(p, s, lid, env).1, lid)
  {
    hide Updated, Protect, Reset, VersionMatches;
    ResetTouches(p, s, lid);
    if env.converted.Some? {
      var s' := WithFile(s, p.t.Entry(lid).path, env.converted.value).(ver := Some(Updated(p.t, s.ver.value, lid)));
      TouchVersion(p, s, lid);
      ProtectTouches(p, s', lid, true, env.image);
      TouchTwice(p, s, s', Protect(p, s', lid, true, env.image).1, lid);
    }
  }

  lemma PrepareMissingTouches(p: Policy, s: Store, lid: nat, env: Env)
    requires p.Valid() && 0 < lid && Named(p.t, lid) && Healthy(s) && p.t.Entry(lid).path !in s.files
    ensures OnlyTouches(p, s, Prepare(p, s, lid, env).1, lid)
  {
    var path := p.t.Entry(lid).path;
    var (restored, s1) := if env.restoreFlag && p.Listed(lid) then Restore(p, s, lid, env.image) else (false, s);
    RestoreTouches(p, s, lid, env.image);
    var s2 := if path in s1.files then s1 else WithFile(s1, path, []);
    ResetTouches(p, s2, lid);
    TouchTwice(p, s, s2, Reset(p, s2, lid).1, lid);
  }

  /** Truncating the file and resetting it. */
  lemma TruncateAndResetTouches(p: Policy, s: Store, s1: Store, lid: nat)
    requires p.Valid() && 0 < lid && Named(p.t, lid) && OnlyTouches(p, s, s1, lid)
    ensures OnlyTouches(p, s, Reset(p, WithFile(s1, p.t.Entry(lid).path, []), lid).1, lid)
  {
    var s2 := WithFile(s1, p.t.Entry(lid).path, []);
    assert OnlyTouches(p, s, s2, lid);
    ResetTouches(p, s2, lid);
    TouchTwice(p, s, s2, Reset(p, s2, lid).1, lid);
  }

  lemma PrepareTouches(p: Policy, s: Store, lid: nat, env: Env)
    requires p.Valid() && 0 < lid && Named(p.t, lid) && Healthy(s)
    ensures OnlyTouches(p, s, Prepare(p, s, lid, env).1, lid)
  {
    if p.t.Entry(lid).path !in s.files {
      PrepareMissingTouches(p, s, lid, env);
    } else {
      TruncateAndResetTouches(p, s, s, lid);
      ConvertTouches(p, s, lid, env);
      TruncateAndResetTouches(p, s, Convert(p, s, lid, env).1, lid);
    }
  }

  /** Every operation on a lid keeps the version file healthy, every other file, and the outcome of
      every other lid's version check. */
  lemma StepTouches(p: Policy, s: Store, op: Op)
    requires p.Valid() && 0 < op.lid && Named(p.t, op.lid) && Healthy(s)
    ensures OnlyTouches(p, s, Step(p, s, op), op.lid)
  {
    match op
    case OpOpen(lid, env) =>
      PrepareTouches(p, s, lid, env);
      var s1 := Prepare(p, s, lid, env).1;
      ProtectTouches(p, s1, lid, false, env.image);
      TouchTwice(p, s, s1, Protect(p, s1, lid, false, env.image).1, lid);
    case OpWrite(lid, offset, data) =>
    case OpClose(lid, isRead, env) =>
      ProtectTouches(p, s, lid, true, env.image);
  }

  // ----- calls on the lid itself -----

  /** Opening a clean file of the current version succeeds and changes nothing. */
  lemma OpenExposesContent(p: Policy, s: Store, lid: nat, content: bytes, env: Env)
    requires p.Valid() && Ordinary(p, lid) && Holds(p, s, lid, content, false)
    ensures Open(p, s, lid, env) == (true, s)
  {
    BaseNameFollowsLastSlash(p.t.Entry(lid).path);
    CheckKeepsProtected(p, s, lid, env.image);
  }

  /** Closing a file opened for writing succeeds and seals exactly the bytes written. */
  lemma CloseSealsContent(p: Policy, s: Store, lid: nat, content: bytes, dirty: bool, env: Env)
    requires p.Valid() && Ordinary(p, lid) && Holds(p, s, lid, content, dirty)
    ensures Close(p, s, lid, false, env).0
    ensures Holds(p, Close(p, s, lid, false, env).1, lid, content, false)
  {
    ProtectKeepsContent(p, s, lid, true, env.image);
    var e := p.t.Entry(lid);
    SetCheckNoMakesValid(s.files[e.path], true);
  }

  lemma WriteUpdatesView(p: Policy, s: Store, lid: nat, v: View, offset: nat, data: bytes)
    requires p.Valid() && Ordinary(p, lid) && Holds(p, s, lid, v.content, v.dirty)
    ensures var v' := ViewStep(v, lid, OpWrite(lid, offset, data));
            Holds(p, Write(p, s, lid, offset, data), lid, v'.content, v'.dirty)
  {
    var file := s.files[p.t.Entry(lid).path];
    if offset + |data| <= |file| {
      SameContentAfterWrite(file, v.content + Zeros(2), |v.content|, offset, data);
    }
  }

  /** Writing the same bytes into two buffers that agree up to `n` keeps them so. */
  lemma SameContentAfterWrite(a: bytes, b: bytes, n: nat, offset: nat, data: bytes)
    requires |a| == |b| && n <= |a| && offset + |data| <= |a| && a[..n] == b[..n]
    ensures PWrite(a, offset, data)[..n] == PWrite(b, offset, data)[..n]
  {
    var x, y := PWrite(a, offset, data), PWrite(b, offset, data);
    forall i | 0 <= i < n
      ensures x[i] == y[i]
    {
      assert a[..n][i] == a[i] && b[..n][i] == b[i];
    }
  }

  /** One step of a disciplined run keeps the store and the reader's view together. */
  lemma StepKeepsView(p: Policy, s: Store, lid: nat, v: View, op: Op)
    requires p.Valid() && Distinct(p) && Ordinary(p, lid) && 0 < op.lid && Named(p.t, op.lid)
    requires Holds(p, s, lid, v.content, v.dirty)
    requires !(op.OpOpen? && op.lid == lid && v.dirty)
    ensures var v' := ViewStep(v, lid, op); Holds(p, Step(p, s, op), lid, v'.content, v'.dirty)
  {
    if op.lid != lid {
      StepTouches(p, s, op);
      assert p.t.Entry(op.lid).path != p.t.Entry(lid).path;
      assert RecordName(p.t.Entry(op.lid)) != RecordName(p.t.Entry(lid));
    } else {
      match op
      case OpOpen(_, env) => OpenExposesContent(p, s, lid, v.content, env);
      case OpWrite(_, offset, data) => WriteUpdatesView(p, s, lid, v, offset, data);
      case OpClose(_, isRead, env) =>
        if !isRead {
          CloseSealsContent(p, s, lid, v.content, v.dirty, env);
        }
    }
  }

  /** Durability: along every disciplined run of opens, writes and closes of any files, the file of an
      ordinary lid holds exactly what its users' view says. */
  lemma {:induction false} RunsAreDurable(p: Policy, s: Store, lid: nat, v: View, ops: seq<Op>)
    requires p.Valid() && Distinct(p) && Ordinary(p, lid)
    requires OnNamedLids(p, ops)
    requires Holds(p, s, lid, v.content, v.dirty) && Disciplined(v, lid, ops)
    ensures var v' := ViewRun(v, lid, ops); Holds(p, Run(p, s, ops), lid, v'.content, v'.dirty)
    decreases |ops|
  {
    if ops != [] {
      StepKeepsView(p, s, lid, v, ops[0]);
      RunsAreDurable(p, Step(p, s, ops[0]), lid, ViewStep(v, lid, ops[0]), ops[1..]);
    }
  }

  /** An open after any such run that left no write unsealed succeeds and exposes the view's content. */
  lemma OpenAfterRun(p: Policy, s: Store, lid: nat, v: View, ops: seq<Op>, env: Env)
    requires p.Valid() && Distinct(p) && Ordinary(p, lid)
    requires OnNamedLids(p, ops)
    requires Holds(p, s, lid, v.content, v.dirty) && Disciplined(v, lid, ops) && !ViewRun(v, lid, ops).dirty
    ensures var s' := Run(p, s, ops);
            && Open(p, s', lid, env) == (true, s')
            && Protected(s', p.t.Entry(lid))
            && Content(s'.files[p.t.Entry(lid).path]) == ViewRun(v, lid, ops).content
  {
    RunsAreDurable(p, s, lid, v, ops);
    OpenExposesContent(p, Run(p, s, ops), lid, ViewRun(v, lid, ops).content, env);
  }

  // ----- how a run gets started -----

  lemma ResetMakesCurrent(p: Policy, s: Store, lid: nat)
    requires p.Valid() && Ordinary(p, lid) && Healthy(s)
    requires Reset(p, s, lid).0
    ensures VersionMatches(p.t, Reset(p, s, lid).1.ver.value, lid)
  {
    UpdateMakesCurrent(p.t, s.ver.value, lid);
  }

  lemma RestoreOrResetKeepsCurrent(p: Policy, s: Store, lid: nat, image: Option<bytes>)
    requires p.Valid() && Ordinary(p, lid) && Healthy(s) && VersionMatches(p.t, s.ver.value, lid)
    requires RestoreOrReset(p, s, lid, image).0 == 1
    ensures VersionMatches(p.t, RestoreOrReset(p, s, lid, image).1.ver.value, lid)
  {
    var (restored, s') := if p.ListedAs(lid, RecordName(p.t.Entry(lid))) then Restore(p, s, lid, image) else (false, s);
    assert s'.ver == s.ver;
    if !restored {
      ResetMakesCurrent(p, s', lid);
    }
  }

  lemma ProtectKeepsCurrent(p: Policy, s: Store, lid: nat, set': bool, image: Option<bytes>)
    requires p.Valid() && Ordinary(p, lid) && Healthy(s) && VersionMatches(p.t, s.ver.value, lid)
    requires Protect(p, s, lid, set', image).0 == 1
    ensures VersionMatches(p.t, Protect(p, s, lid, set', image).1.ver.value, lid)
  {
    hide VersionMatches, RestoreOrReset;
    if RestoreOrReset(p, s, lid, image).0 == 1 {
      RestoreOrResetKeepsCurrent(p, s, lid, image);
    }
  }

  lemma ConvertMakesCurrent(p: Policy, s: Store, lid: nat, env: Env)
    requires p.Valid() && Ordinary(p, lid) && Healthy(s)
    requires Convert(p, s, lid, env).0
    ensures VersionMatches(p.t, Convert(p, s, lid, env).1.ver.value, lid)
  {
    if (lid + 2) * 74 > |s.ver.value| {
      ResetMakesCurrent(p, s, lid);
    } else {
      var s' := WithFile(s, p.t.Entry(lid).path, env.converted.value).(ver := Some(Updated(p.t, s.ver.value, lid)));
      UpdateMakesCurrent(p.t, s.ver.value, lid);
      ProtectKeepsCurrent(p, s', lid, true, env.image);
    }
  }

  /** A call that finds the file missing, its image acceptable and its version stale: the file comes back
      from the bin region, and nothing on the way looks at the version. */
  ghost predicate RestoresStale(p: Policy, s: Store, lid: nat, env: Env)
    requires p.Valid() && 0 < lid < p.t.Count() && s.ver.Some?
  {
    var e := p.t.Entry(lid);
    && e.path !in s.files && env.restoreFlag && p.Listed(lid) && Acceptable(e, env.image)
    && !VersionMatches(p.t, s.ver.value, lid)
  }

  /** A call that finds a current but corrupt file, and an acceptable image that has the size of a file
      without trailer. */
  ghost predicate RestoresBare(p: Policy, s: Store, lid: nat, env: Env)
    requires p.Valid() && 0 < lid < p.t.Count() && s.ver.Some?
  {
    var e := p.t.Entry(lid);
    && Ambiguous(e) && p.ListedAs(lid, RecordName(e)) && Acceptable(e, env.image)
    && e.path in s.files && VersionMatches(p.t, s.ver.value, lid)
    && (SizeFlag(s, e) == -1 || (SizeFlag(s, e) == 1 && !CheckFile(s.files[e.path])))
  }

  /** A file that the last check of an open accepts or gives a trailer. */
  ghost predicate Fit(s: Store, e: CfgEntry) {
    SizeFlag(s, e) == 0 || Protected(s, e)
  }

  lemma FitIsProtected(p: Policy, s: Store, lid: nat, image: Option<bytes>)
    requires p.Valid() && 0 < lid < p.t.Count() && s.ver.Some? && Fit(s, p.t.Entry(lid))
    ensures var (r, s') := Protect(p, s, lid, false, image);
            r == 1 && s'.ver == s.ver && Protected(s', p.t.Entry(lid))
  {
    SetCheckNoMakesValid(s.files[p.t.Entry(lid).path], false);
  }

  lemma ProtectLeavesFit(p: Policy, s: Store, lid: nat, set': bool, image: Option<bytes>)
    requires p.Valid() && Ordinary(p, lid) && s.ver.Some? && Protect(p, s, lid, set', image).0 == 1
    ensures Fit(Protect(p, s, lid, set', image).1, p.t.Entry(lid))
  {
    hide CheckFile, SetCheckNo;
    var e := p.t.Entry(lid);
    if SizeFlag(s, e) != -1 {
      SetCheckNoSucceeds(s.files[e.path], SizeFlag(s, e) == 1);
      SetCheckNoMakesValid(s.files[e.path], SizeFlag(s, e) == 1);
    }
    RestoreYields(p, s, lid, image);
    ResetProtects(p, if p.ListedAs(lid, RecordName(e)) then Restore(p, s, lid, image).1 else s, lid);
  }

  lemma ConvertLeavesFit(p: Policy, s: Store, lid: nat, env: Env)
    requires p.Valid() && Ordinary(p, lid) && s.ver.Some? && Convert(p, s, lid, env).0
    ensures Fit(Convert(p, s, lid, env).1, p.t.Entry(lid))
  {
    hide Protect, Reset, Fit, Updated;
    ResetLeavesFit(p, s, lid);
    if env.converted.Some? {
      var s' := WithFile(s, p.t.Entry(lid).path, env.converted.value).(ver := Some(Updated(p.t, s.ver.value, lid)));
      if Protect(p, s', lid, true, env.image).0 == 1 {
        ProtectLeavesFit(p, s', lid, true, env.image);
      }
    }
  }

  lemma ResetLeavesFit(p: Policy, s: Store, lid: nat)
    requires p.Valid() && Ordinary(p, lid)
    ensures Reset(p, s, lid).0 ==> Fit(Reset(p, s, lid).1, p.t.Entry(lid))
  {
    ResetProtects(p, s, lid);
  }

  /** Whatever makes a missing or outdated file exist leaves one that the last check makes protected. */
  lemma PrepareLeavesFit(p: Policy, s: Store, lid: nat, env: Env)
    requires p.Valid() && Ordinary(p, lid) && Healthy(s) && Prepare(p, s, lid, env).0
    requires p.t.Entry(lid).path in s.files ==> !VersionMatches(p.t, s.ver.value, lid)
    ensures Fit(Prepare(p, s, lid, env).1, p.t.Entry(lid))
  {
    hide Reset, Convert, Restore, Fit, VersionMatches;
    var path := p.t.Entry(lid).path;
    BaseNameFollowsLastSlash(path);
    if path !in s.files {
      RestoreLeavesFit(p, s, lid, env.image);
      var s1 := if env.restoreFlag && p.Listed(lid) then Restore(p, s, lid, env.image).1 else s;
      ResetLeavesFit(p, if path in s1.files then s1 else WithFile(s1, path, []), lid);
    } else if !p.t.Entry(lid).dataReset && Convert(p, s, lid, env).0 {
      ConvertLeavesFit(p, s, lid, env);
    } else {
      ResetLeavesFit(p, WithFile(s, path, []), lid);
      ResetLeavesFit(p, WithFile(Convert(p, s, lid, env).1, path, []), lid);
    }
  }

  lemma RestoreLeavesFit(p: Policy, s: Store, lid: nat, image: Option<bytes>)
    requires p.Valid() && Ordinary(p, lid) && s.ver.Some?
    ensures Restore(p, s, lid, image).0 ==> Fit(Restore(p, s, lid, image).1, p.t.Entry(lid))
  {
    RestoreYields(p, s, lid, image);
  }

  /** The last check of an open that found the file current. */
  lemma CheckOfCurrent(p: Policy, s: Store, lid: nat, env: Env)
    requires p.Valid() && Ordinary(p, lid) && Healthy(s)
    requires p.t.Entry(lid).path in s.files && VersionMatches(p.t, s.ver.value, lid)
    requires Protect(p, s, lid, false, env.image).0 == 1
    ensures Protected(Protect(p, s, lid, false, env.image).1, p.t.Entry(lid)) <==> !RestoresBare(p, s, lid, env)
  {
    hide CheckFile, SetCheckNo, Reset, Restore, VersionMatches;
    var e := p.t.Entry(lid);
    if SizeFlag(s, e) == 0 {
      SetCheckNoMakesValid(s.files[e.path], false);
    }
    RestoreYields(p, s, lid, env.image);
    ResetProtects(p, if p.ListedAs(lid, RecordName(e)) then Restore(p, s, lid, env.image).1 else s, lid);
  }

  lemma OpenProtects(p: Policy, s: Store, lid: nat, env: Env)
    requires p.Valid() && Ordinary(p, lid) && Healthy(s) && Open(p, s, lid, env).0
    ensures Protected(Open(p, s, lid, env).1, p.t.Entry(lid)) <==> !RestoresBare(p, s, lid, env)
  {
    hide VersionMatches, Prepare, Protect, Fit, Protected;
    var path, s1 := p.t.Entry(lid).path, Prepare(p, s, lid, env).1;
    PrepareTouches(p, s, lid, env);
    if path in s.files && VersionMatches(p.t, s.ver.value, lid) {
      CurrentIsPrepared(p, s, lid, env);
      CheckOfCurrent(p, s, lid, env);
    } else {
      PrepareLeavesFit(p, s, lid, env);
      FitIsProtected(p, s1, lid, env.image);
    }
  }

  lemma CurrentIsPrepared(p: Policy, s: Store, lid: nat, env: Env)
    requires p.Valid() && Ordinary(p, lid) && Healthy(s)
    requires p.t.Entry(lid).path in s.files && VersionMatches(p.t, s.ver.value, lid)
    ensures Prepare(p, s, lid, env) == (true, s)
  {
    hide VersionMatches;
    BaseNameFollowsLastSlash(p.t.Entry(lid).path);
  }

  /** What an open that restores a missing file does: nothing but write the image, and its trailer if it
      has none. */
  lemma RestoredByOpen(p: Policy, s: Store, lid: nat, env: Env)
    requires p.Valid() && Ordinary(p, lid) && Healthy(s) && p.t.Entry(lid).path !in s.files
    requires env.restoreFlag && p.Listed(lid) && Acceptable(p.t.Entry(lid), env.image)
    ensures var (ok, s'), e := Open(p, s, lid, env), p.t.Entry(lid);
            && ok && s'.ver == s.ver && Protected(s', e)
            && (!Ambiguous(e) ==> s' == WithFile(s, e.path, env.image.value))
  {
    hide CheckFile, SetCheckNo, VersionMatches;
    RestoreYields(p, s, lid, env.image);
    var s1 := WithFile(s, p.t.Entry(lid).path, env.image.value);
    FitIsProtected(p, s1, lid, env.image);
  }

  lemma PrepareMakesCurrent(p: Policy, s: Store, lid: nat, env: Env)
    requires p.Valid() && Ordinary(p, lid) && Healthy(s)
    requires Prepare(p, s, lid, env).0 && !RestoresStale(p, s, lid, env)
    ensures VersionMatches(p.t, Prepare(p, s, lid, env).1.ver.value, lid)
  {
    var path := p.t.Entry(lid).path;
    BaseNameFollowsLastSlash(path);
    if path !in s.files {
      RestoreYields(p, s, lid, env.image);
      hide Acceptable, VersionMatches;
      var s1 := if env.restoreFlag && p.Listed(lid) then Restore(p, s, lid, env.image).1 else s;
      var s2 := if path in s1.files then s1 else WithFile(s1, path, []);
      if Reset(p, s2, lid).0 {
        ResetMakesCurrent(p, s2, lid);
      }
    } else if !VersionMatches(p.t, s.ver.value, lid) {
      if p.t.Entry(lid).dataReset {
        ResetMakesCurrent(p, WithFile(s, path, []), lid);
      } else if Convert(p, s, lid, env).0 {
        ConvertMakesCurrent(p, s, lid, env);
      } else {
        ConvertTouches(p, s, lid, env);
        ResetMakesCurrent(p, WithFile(Convert(p, s, lid, env).1, path, []), lid);
      }
    }
  }

  lemma OpenMakesCurrent(p: Policy, s: Store, lid: nat, env: Env)
    requires p.Valid() && Ordinary(p, lid) && Healthy(s) && Open(p, s, lid, env).0
    ensures Healthy(Open(p, s, lid, env).1)
    ensures VersionMatches(p.t, Open(p, s, lid, env).1.ver.value, lid) <==> !RestoresStale(p, s, lid, env)
  {
    hide VersionMatches, Prepare, Protect, Protected, Acceptable;
    StepTouches(p, s, OpOpen(lid, env));
    if RestoresStale(p, s, lid, env) {
      RestoredByOpen(p, s, lid, env);
    } else {
      PrepareTouches(p, s, lid, env);
      PrepareMakesCurrent(p, s, lid, env);
      ProtectKeepsCurrent(p, Prepare(p, s, lid, env).1, lid, false, env.image);
    }
  }

  /** A successful open of an ordinary lid, from any store with a healthy version file and by any path (as
      found, reset, converted, restored), ends with a protected file, unless it restores an image without
      trailer; and the durability results apply from there on exactly when, besides, it has not restored a
      missing file of a stale version. */
  lemma OpenStartsDurability(p: Policy, s: Store, lid: nat, env: Env)
    requires p.Valid() && Ordinary(p, lid) && Healthy(s)
    requires Open(p, s, lid, env).0
    ensures var s', e := Open(p, s, lid, env).1, p.t.Entry(lid);
            && Healthy(s')
            && (Protected(s', e) <==> !RestoresBare(p, s, lid, env))
            && ((exists content :: Holds(p, s', lid, content, false))
                <==> !RestoresBare(p, s, lid, env) && !RestoresStale(p, s, lid, env))
  {
    hide Open, RestoresBare, RestoresStale, VersionMatches;
    OpenProtects(p, s, lid, env);
    OpenMakesCurrent(p, s, lid, env);
    var s', e := Open(p, s, lid, env).1, p.t.Entry(lid);
    if Protected(s', e) && VersionMatches(p.t, s'.ver.value, lid) {
      assert Holds(p, s', lid, Content(s'.files[e.path]), false);
    }
  }
}
