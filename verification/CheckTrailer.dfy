/** The two-byte trailer of a protected file: the flag 0xAA, then an alternating add/xor check byte. */
module CheckTrailer {
  import opened Bytes
  import opened Alternating

  const FLAG_VALUE: byte := 0xAA

  /** `ilooptimes`: computed in size_t, then cut to an unsigned int. An old file's last two bytes
      are its trailer; a file too short to have one yields a count past its end. */
  function LoopTimes(size: nat, isOldFile: bool): nat {
    (if isOldFile then size - 2 else size) % 0x1_0000_0000
  }

  /** NVM_ComputeCheckNo: no value when a read fails, which the loop count alone decides. */
  ghost function CheckNo(file: bytes, isOldFile: bool): Option<byte> {
    var n := LoopTimes(|file|, isOldFile);
    if n <= |file| then Some(Fold(0x100, file[..n], 0, false)) else None
  }

  method ComputeCheckNo(file: bytes, isOldFile: bool) returns (r: Option<byte>)
    ensures r == CheckNo(file, isOldFile)
  {
    var loopTimes := LoopTimes(|file|, isOldFile);
    var flag := false;
    var checkNo: byte := 0;
    var i := 0;
    while i < loopTimes
      invariant 0 <= i <= loopTimes && i <= |file|
      invariant loopTimes <= |file| ==>
                  Fold(0x100, file[i..loopTimes], checkNo, flag) == Fold(0x100, file[..loopTimes], 0, false)
    {
      if i >= |file| {
        return None;
      }
      checkNo := Mix(0x100, checkNo, file[i], flag);
      flag := !flag;
      assert loopTimes <= |file| ==> file[i..loopTimes][1..] == file[i + 1..loopTimes];
      i := i + 1;
    }
    r := Some(checkNo);
  }

  /** The file after NVM_SetCheckNo, or None when it reports failure: an old file's trailer is
      overwritten, a new file gets one appended. */
  ghost function SetCheckNo(file: bytes, isOldFile: bool): Option<bytes> {
    match CheckNo(file, isOldFile)
    case None => None
    case Some(c) => Some(PWrite(file, if isOldFile && |file| >= 2 then |file| - 2 else |file|, [FLAG_VALUE, c]))
  }

  /** NVM_CheckFile. */
  ghost predicate CheckFile(file: bytes) {
    match CheckNo(file, true)
    case None => false
    case Some(c) => |file| >= 2 && file[|file| - 2] == FLAG_VALUE && file[|file| - 1] == c
  }

  method CheckFileContent(file: bytes) returns (ok: bool)
    ensures ok == CheckFile(file)
  {
    var c := ComputeCheckNo(file, true);
    if c.None? {
      return false;
    }
    if |file| - 2 < 0 {
      return false;
    }
    var trailer := file[|file| - 2..];
    if trailer[0] == FLAG_VALUE {
      ok := trailer[1] == c.value;
    } else {
      ok := false;
    }
  }

  /** A file without its trailer. */
  function Content(file: bytes): bytes
    requires |file| >= 2
  {
    file[..|file| - 2]
  }

  /** Setting the check number succeeds exactly on files that can hold what it rewrites. */
  lemma SetCheckNoSucceeds(file: bytes, isOldFile: bool)
    ensures SetCheckNo(file, isOldFile).Some? <==> !isOldFile || |file| >= 2
  {
    if isOldFile && |file| < 2 {
      assert LoopTimes(|file|, isOldFile) >= 0xFFFF_FFFE;
    }
  }

  /** For every file length, NVM_SetCheckNo makes NVM_CheckFile true and keeps every content byte. */
  lemma SetCheckNoMakesValid(file: bytes, isOldFile: bool)
    requires isOldFile ==> |file| >= 2
    ensures SetCheckNo(file, isOldFile).Some?
    ensures var after := SetCheckNo(file, isOldFile).value;
            && CheckFile(after)
            && |after| == (if isOldFile then |file| else |file| + 2)
            && Content(after) == if isOldFile then Content(file) else file
  {
    SetCheckNoSucceeds(file, isOldFile);
    var after := SetCheckNo(file, isOldFile).value;
    var n := LoopTimes(|file|, isOldFile);
    assert LoopTimes(|after|, true) == n;
    assert after[..n] == file[..n];
    var covered := if isOldFile then |file| - 2 else |file|;
    assert after[..covered] == file[..covered];
  }

  /** The check byte, one byte after the other: nothing sums to 0, every first, third, ... byte is added modulo 256,
      every second, fourth, ... is xored. */
  lemma CheckNoGrows(s: bytes, b: byte)
    requires |s| + 1 < 0x1_0000_0000
    ensures CheckNo([], false) == Some(0) && CheckNo(s, false).Some? && CheckNo(s + [b], false).Some?
    ensures var before: nat := CheckNo(s, false).value;
            CheckNo(s + [b], false).value == if |s| % 2 == 0 then (before + b) % 0x100 else Xor(before, b)
  {
    hide Fold;
    assert s[..|s|] == s && (s + [b])[..|s| + 1] == s + [b];
    FoldOneMore(0x100, s, b, 0, false);
    FoldOfNothing(0x100, 0, false);
  }

  /** What is written behind a new file: 0xAA and the check byte. */
  lemma TrailerIs(s: bytes)
    requires |s| < 0x1_0000_0000
    ensures CheckNo(s, false).Some? && SetCheckNo(s, false) == Some(s + [0xAA, CheckNo(s, false).value])
  {
    SetCheckNoSucceeds(s, false);
    assert s[..|s|] == s;
  }

  /** Every change of exactly one byte of a valid file is noticed. */
  ghost predicate DetectsEveryByteChange(file: bytes) {
    forall k: nat, v: byte | k < |file| && v != file[k] :: !CheckFile(WithByte(file, k, v))
  }

  lemma OneByteChangeIsDetected(file: bytes, k: nat, v: byte)
    requires CheckFile(file) && |file| - 2 < 0x1_0000_0000
    requires k < |file| && v != file[k]
    ensures !CheckFile(WithByte(file, k, v))
  {
    var after := file[k := v];
    var n := |file| - 2;
    if k < n {
      assert after[..n] == file[..n][k := v];
      FoldDetectsOneChange(0x100, file[..n], k, v, 0, false);
    } else {
      assert after[..n] == file[..n];
    }
  }

  /** Any one-byte change (content, flag or check byte) makes NVM_CheckFile false, exactly for the
      files whose content length fits the unsigned int that counts the bytes checked. */
  lemma DetectionIsExact(file: bytes)
    requires CheckFile(file)
    ensures DetectsEveryByteChange(file) <==> |file| - 2 < 0x1_0000_0000
  {
    if |file| - 2 < 0x1_0000_0000 {
      forall k: nat, v: byte | k < |file| && v != file[k]
        ensures !CheckFile(WithByte(file, k, v))
      {
        OneByteChangeIsDetected(file, k, v);
      }
    } else {
      var n := LoopTimes(|file|, true);
      var v: byte := if file[n] == 0 then 1 else 0;
      assert file[n := v][..n] == file[..n];
      assert CheckFile(WithByte(file, n, v));
    }
  }
}
