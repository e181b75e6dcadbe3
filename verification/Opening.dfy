/** What an open gives its caller to see, said without trailers, version files and the order of the calls: as the
    file was, as it was stored in the backup, as the converter made it, or the default. */
module Opening {
  import opened Bytes
  import opened Config
  import opened CheckTrailer
  import opened VersionTable
  import opened VersionFile
  import opened NvramStore
  import opened Durability

  /** What is left of an image that has a trailer when the table's size says so. */
  function SeenOf(e: CfgEntry, image: bytes): bytes {
    if |image| == TableSize(e) + 2 then Content(image) else image
  }

  /** A file that cannot be used as it is: its backup, if it is listed under its name and the image acceptable;
      otherwise the default. */
  ghost function FromBackup(p: Policy, lid: nat, image: Option<bytes>): Option<bytes>
    requires p.Valid() && 0 < lid < p.t.Count()
  {
    var e := p.t.Entry(lid);
    if p.ListedAs(lid, RecordName(e)) && Acceptable(e, image) then Some(SeenOf(e, image.value)) else DefaultContent(e)
  }

  /** The content after an open, none when the open fails. */
  ghost function Expected(p: Policy, s: Store, lid: nat, env: Env): Option<bytes>
    requires p.Valid() && 0 < lid < p.t.Count() && s.ver.Some?
  {
    var e := p.t.Entry(lid);
    if e.path !in s.files then
      if env.restoreFlag && p.Listed(lid) && Acceptable(e, env.image) then Some(SeenOf(e, env.image.value))
      else DefaultContent(e)
    else if VersionMatches(p.t, s.ver.value, lid) then
      if Usable(s, e) then Some(Seen(s, e)) else FromBackup(p, lid, env.image)
    else if e.dataReset || |s.ver.value| < (lid + 2) * 74 || env.converted.None? then DefaultContent(e)
    else
      var c := env.converted.value;
      if |c| == TableSize(e) || |c| == TableSize(e) + 2 then Some(c[..TableSize(e)]) else FromBackup(p, lid, env.image)
  }

  /** Of the table's size without trailer, or with one that matches. */
  ghost predicate Usable(s: Store, e: CfgEntry) {
    SizeFlag(s, e) == 0 || (SizeFlag(s, e) == 1 && CheckFile(s.files[e.path]))
  }

  // ----- the branches -----

  /** The last check of an open, and the first protection of a converted file, change nothing that users see. */
  lemma CheckKeepsSeen(p: Policy, s: Store, lid: nat, set': bool, image: Option<bytes>)
    requires p.Valid() && Ordinary(p, lid) && s.ver.Some?
    requires Usable(s, p.t.Entry(lid)) || (set' && SizeFlag(s, p.t.Entry(lid)) == 1)
    ensures var (r, s'), e := Protect(p, s, lid, set', image), p.t.Entry(lid);
            r == 1 && s'.ver == s.ver && Usable(s', e) && Seen(s', e) == Seen(s, e)
  {
    RightSizeIsProtected(p, s, lid, set', image);
    ProtectKeepsContent(p, s, lid, set', image);
  }

  lemma ResetYields(p: Policy, s: Store, lid: nat)
    requires p.Valid() && Ordinary(p, lid)
    ensures var (ok, s'), e := Reset(p, s, lid), p.t.Entry(lid);
            && (ok <==> DefaultContent(e).Some?)
            && (ok ==> s'.ver.Some? && Usable(s', e) && Seen(s', e) == DefaultContent(e).value)
  {
    ResetProtects(p, s, lid);
  }

  lemma RestoreGives(p: Policy, s: Store, lid: nat, image: Option<bytes>)
    requires p.Valid() && Ordinary(p, lid) && s.ver.Some?
    ensures var (restored, s'), e := Restore(p, s, lid, image), p.t.Entry(lid);
            && (restored <==> Acceptable(e, image)) && s'.ver == s.ver
            && (restored ==> Usable(s', e) && Seen(s', e) == SeenOf(e, image.value))
  {
    RestoreYields(p, s, lid, image);
  }

  lemma RecoveryGives(p: Policy, s: Store, lid: nat, image: Option<bytes>)
    requires p.Valid() && Ordinary(p, lid) && s.ver.Some?
    ensures var (r, s'), e := RestoreOrReset(p, s, lid, image), p.t.Entry(lid);
            && (r == 1 <==> FromBackup(p, lid, image).Some?)
            && (r == 1 ==> s'.ver.Some? && Usable(s', e) && Seen(s', e) == FromBackup(p, lid, image).value)
  {
    hide Usable, Seen, Restore, Reset, Acceptable, DefaultContent;
    RestoreGives(p, s, lid, image);
    var s1 := if p.ListedAs(lid, RecordName(p.t.Entry(lid))) then Restore(p, s, lid, image).1 else s;
    ResetYields(p, s1, lid);
  }

  /** Protection: what users see if the file is of use, otherwise its backup or default. */
  lemma ProtectGives(p: Policy, s: Store, lid: nat, set': bool, image: Option<bytes>)
    requires p.Valid() && Ordinary(p, lid) && s.ver.Some?
    ensures var (r, s'), e := Protect(p, s, lid, set', image), p.t.Entry(lid);
            var kept := Usable(s, e) || (set' && SizeFlag(s, e) == 1);
            && (r == 1 <==> kept || FromBackup(p, lid, image).Some?)
            && (r == 1 ==> s'.ver.Some? && Usable(s', e)
                           && Seen(s', e) == if kept then Seen(s, e) else FromBackup(p, lid, image).value)
  {
    var e := p.t.Entry(lid);
    if Usable(s, e) || (set' && SizeFlag(s, e) == 1) {
      CheckKeepsSeen(p, s, lid, set', image);
    } else {
      RecoveryGives(p, s, lid, image);
      assert Protect(p, s, lid, set', image) == RestoreOrReset(p, s, lid, image) by {
        hide RestoreOrReset, SetCheckNo;
      }
    }
  }

  lemma MissingGives(p: Policy, s: Store, lid: nat, env: Env)
    requires p.Valid() && Ordinary(p, lid) && Healthy(s) && p.t.Entry(lid).path !in s.files
    ensures PrepareGives(p, s, lid, env)
  {
    hide Usable, Seen, Restore, Reset, Acceptable, DefaultContent;
    var path := p.t.Entry(lid).path;
    RestoreGives(p, s, lid, env.image);
    var s1 := if env.restoreFlag && p.Listed(lid) then Restore(p, s, lid, env.image).1 else s;
    ResetYields(p, if path in s1.files then s1 else WithFile(s1, path, []), lid);
  }

  /** The file is made to exist exactly when there is an expected content, which is then what users see. */
  ghost predicate PrepareGives(p: Policy, s: Store, lid: nat, env: Env)
    requires p.Valid() && 0 < lid < p.t.Count() && s.ver.Some?
  {
    var (ok, s'), e := Prepare(p, s, lid, env), p.t.Entry(lid);
    && (ok <==> Expected(p, s, lid, env).Some?)
    && (ok ==> s'.ver.Some? && Usable(s', e) && Seen(s', e) == Expected(p, s, lid, env).value)
  }

  lemma ConvertGives(p: Policy, s: Store, lid: nat, env: Env)
    requires p.Valid() && Ordinary(p, lid) && Healthy(s) && p.t.Entry(lid).path in s.files
    requires !VersionMatches(p.t, s.ver.value, lid) && !p.t.Entry(lid).dataReset
    ensures var (ok, s'), e := Convert(p, s, lid, env), p.t.Entry(lid);
            && (ok ==> Expected(p, s, lid, env).Some? && s'.ver.Some?
                       && Usable(s', e) && Seen(s', e) == Expected(p, s, lid, env).value)
            && (!ok ==> Expected(p, s, lid, env) == DefaultContent(e))
  {
    hide Usable, Seen, Protect, Reset, Updated, VersionMatches, DefaultContent, FromBackup;
    var e := p.t.Entry(lid);
    ResetYields(p, s, lid);
    if |s.ver.value| >= (lid + 2) * 74 && env.converted.Some? {
      var s' := WithFile(s, e.path, env.converted.value).(ver := Some(Updated(p.t, s.ver.value, lid)));
      ProtectGives(p, s', lid, true, env.image);
      ConvertedIsSeen(s', e, env.converted.value);
      WithoutBackup(p, lid, env.image);
    }
  }

  /** What a converter wrote, before its trailer is set. */
  lemma ConvertedIsSeen(s: Store, e: CfgEntry, c: bytes)
    requires e.path in s.files && s.files[e.path] == c
    ensures Usable(s, e) || SizeFlag(s, e) == 1 <==> |c| == TableSize(e) || |c| == TableSize(e) + 2
    ensures |c| == TableSize(e) || |c| == TableSize(e) + 2 ==> Seen(s, e) == c[..TableSize(e)]
  {
    hide CheckFile;
  }

  lemma WithoutBackup(p: Policy, lid: nat, image: Option<bytes>)
    requires p.Valid() && 0 < lid < p.t.Count()
    ensures FromBackup(p, lid, image).None? ==> DefaultContent(p.t.Entry(lid)).None?
  {
  }

  lemma OutdatedGives(p: Policy, s: Store, lid: nat, env: Env)
    requires p.Valid() && Ordinary(p, lid) && Healthy(s) && p.t.Entry(lid).path in s.files
    requires !VersionMatches(p.t, s.ver.value, lid)
    ensures PrepareGives(p, s, lid, env)
  {
    hide Usable, Seen, Reset, Convert, DefaultContent, VersionMatches;
    var e := p.t.Entry(lid);
    BaseNameFollowsLastSlash(e.path);
    ResetYields(p, WithFile(s, e.path, []), lid);
    if !e.dataReset {
      ConvertGives(p, s, lid, env);
      ResetYields(p, WithFile(Convert(p, s, lid, env).1, e.path, []), lid);
    }
  }

  // ----- the result -----

  /** Every open of an ordinary lid from a store with a usable version file: it succeeds if and only if there is an
      expected content, and then that is what users see. */
  lemma OpenYieldsExactly(p: Policy, s: Store, lid: nat, env: Env)
    requires p.Valid() && Ordinary(p, lid) && Healthy(s)
    ensures var (ok, s'), e := Open(p, s, lid, env), p.t.Entry(lid);
            && (ok <==> Expected(p, s, lid, env).Some?)
            && (ok ==> Usable(s', e) && Seen(s', e) == Expected(p, s, lid, env).value)
  {
    hide Prepare, Protect, Usable, Seen, VersionMatches, FromBackup, DefaultContent, TableSize;
    var e, s1 := p.t.Entry(lid), Prepare(p, s, lid, env).1;
    if e.path in s.files && VersionMatches(p.t, s.ver.value, lid) {
      CurrentIsPrepared(p, s, lid, env);
      ProtectGives(p, s, lid, false, env.image);
    } else {
      if e.path !in s.files { MissingGives(p, s, lid, env); } else { OutdatedGives(p, s, lid, env); }
      hide Expected;
      if Prepare(p, s, lid, env).0 {
        CheckKeepsSeen(p, s1, lid, false, env.image);
      }
    }
  }

  // ----- files listed for performance -----

  /** The whole file after an open of a lid that is never given a trailer. */
  ghost function ExpectedFile(p: Policy, s: Store, lid: nat, env: Env): Option<bytes>
    requires p.Valid() && 0 < lid < p.t.Count() && s.ver.Some?
  {
    var e := p.t.Entry(lid);
    if e.path !in s.files then
      if env.restoreFlag && p.Listed(lid) && Acceptable(e, env.image) then env.image else DefaultContent(e)
    else if VersionMatches(p.t, s.ver.value, lid) then Some(s.files[e.path])
    else if e.dataReset || |s.ver.value| < (lid + 2) * 74 || env.converted.None? then DefaultContent(e)
    else env.converted
  }

  lemma PerformanceReset(p: Policy, s: Store, lid: nat)
    requires p.Valid() && 0 < lid < p.t.Count() && lid in p.performance
    ensures var (ok, s'), e := Reset(p, s, lid), p.t.Entry(lid);
            && (ok <==> DefaultContent(e).Some?)
            && (ok ==> e.path in s'.files && s'.files[e.path] == DefaultContent(e).value)
  {
  }

  /** A file listed for performance is opened without any check, and closing changes nothing. */
  lemma PerformanceYields(p: Policy, s: Store, lid: nat, isRead: bool, env: Env)
    requires p.Valid() && 0 < lid && Named(p.t, lid) && p.t.Entry(lid).path != RESERVED && Healthy(s)
    requires lid in p.performance
    ensures var (ok, s'), path := Open(p, s, lid, env), p.t.Entry(lid).path;
            && (ok <==> ExpectedFile(p, s, lid, env).Some?)
            && (ok ==> path in s'.files && s'.files[path] == ExpectedFile(p, s, lid, env).value)
    ensures Close(p, s, lid, isRead, env) == (true, s)
  {
    hide Reset, VersionMatches, DefaultContent, Updated;
    var e := p.t.Entry(lid);
    BaseNameFollowsLastSlash(e.path);
    RestoreYields(p, s, lid, env.image);
    PerformanceReset(p, s, lid);
    if e.path !in s.files {
      hide Acceptable;
      var s1 := if env.restoreFlag && p.Listed(lid) then Restore(p, s, lid, env.image).1 else s;
      PerformanceReset(p, if e.path in s1.files then s1 else WithFile(s1, e.path, []), lid);
    } else {
      PerformanceReset(p, WithFile(s, e.path, []), lid);
      PerformanceReset(p, WithFile(Convert(p, s, lid, env).1, e.path, []), lid);
    }
  }
}
