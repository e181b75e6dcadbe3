/** The backup counter of the auto-backup build: a four-byte count and one check byte in the flag file. */
module BackupCounter {
  import opened Bytes
  import opened Alternating

  /** The check byte over the count's four bytes: xor first. */
  function CheckByte(count: bytes): (c: byte) { Fold(0x100, count, 0, true) }

  /** The flag file that holds `count`. */
  function Encode(count: word): (file: bytes)
    ensures |file| == 5
  {
    WordBytes(count) + [CheckByte(WordBytes(count))]
  }

  /** What NVM_CheckBackFlag accepts. */
  predicate ValidFlagFile(file: bytes) {
    |file| == 5 && CheckByte(file[..4]) == file[4]
  }

  /** What the bin region offers when the flag file is not usable: its count, unless it cannot be
      read or is the erased pattern. */
  function Fallback(bin: Option<word>): word {
    match bin
    case Some(n) => if n == 0xFFFF_FFFF then 0 else n
    case None => 0
  }

  /** The count an addition starts from. */
  function Saved(file: Option<bytes>, bin: Option<word>): word {
    match file
    case None => 0
    case Some(f) => if ValidFlagFile(f) then Word(f[..4]) else Fallback(bin)
  }

  /** The flag file after NVM_AddBackupNum. */
  function AfterAdd(file: Option<bytes>, modified: word, bin: Option<word>): Option<bytes> {
    if modified == 0 then file
    else Some(Encode((Saved(file, bin) + modified) % 0x1_0000_0000))
  }

  class Counter {
    /** The file /nvdata/BackupFlag, or None when it does not exist. */
    var flagFile: Option<bytes>

    constructor (file: Option<bytes>)
      ensures flagFile == file
    {
      flagFile := file;
    }

    /** NVM_CheckBackFlag. */
    method CheckBackFlag() returns (ok: bool)
      requires flagFile.Some?
      ensures ok == ValidFlagFile(flagFile.value)
    {
      var file := flagFile.value;
      if |file| != 5 {
        return false;
      }
      var checksum := FoldCount(file);
      ok := checksum == file[4];
    }

    /** The loop shared by the check and the computation of the check byte. */
    method FoldCount(file: bytes) returns (checksum: byte)
      requires |file| >= 4
      ensures checksum == CheckByte(file[..4])
    {
      checksum := 0;
      var flag := true;
      var index := 0;
      while index < 4
        invariant 0 <= index <= 4
        invariant Fold(0x100, file[index..4], checksum, flag) == CheckByte(file[..4])
      {
        assert file[index..4][1..] == file[index + 1..4];
        checksum := Mix(0x100, checksum, file[index], flag);
        flag := !flag;
        index := index + 1;
      }
    }

    /** NVM_AddBackupNum; `bin` is what NVM_GetBackupFileNum would report. */
    method AddBackupNum(modified: word, bin: Option<word>) returns (ok: bool)
      modifies this
      ensures ok == (modified != 0)
      ensures flagFile == AfterAdd(old(flagFile), modified, bin)
      ensures !ok ==> flagFile == old(flagFile)
    {
      if modified <= 0 {
        return false;
      }
      var saved: word := 0;
      if flagFile.None? {
        flagFile := Some([]);
      } else {
        var valid := CheckBackFlag();
        if valid {
          saved := Word(flagFile.value[..4]);
        } else {
          flagFile := Some([]);
          saved := match bin case Some(n) => n case None => 0xFFFF_FFFF;
          if bin.None? || saved == 0xFFFF_FFFF {
            saved := 0;
          }
        }
      }
      saved := (saved + modified) % 0x1_0000_0000;
      var file := PWrite(flagFile.value, 0, WordBytes(saved));
      var checksum := FoldCount(file);
      assert file[..4] == WordBytes(saved);
      file := PWrite(file, 4, [checksum]);
      assert file == Encode(saved);
      flagFile := Some(file);
      ok := true;
    }
  }

  /** The accepted files are exactly the encodings of counts. */
  lemma ValidFilesAreEncodings(file: bytes)
    ensures ValidFlagFile(file) ==> file == Encode(Word(file[..4]))
    ensures ValidFlagFile(file) <==> exists count: word :: file == Encode(count)
  {
    if ValidFlagFile(file) {
      WordBytesRoundTrip(file[..4]);
      assert file == Encode(Word(file[..4])) by { assert file == file[..4] + [file[4]]; }
    }
    if count: word :| file == Encode(count) {
      assert file[..4] == WordBytes(count);
    }
  }

  lemma EncodeRoundTrip(count: word)
    ensures ValidFlagFile(Encode(count)) && Word(Encode(count)[..4]) == count
  {
    assert Encode(count)[..4] == WordBytes(count);
    WordRoundTrip(count);
  }

  /** Any one-byte corruption of the five-byte file is detected, and its count is replaced by that of the
      bin region, or zero when that cannot be read or was never set. */
  lemma CorruptionIsDetected(file: bytes, k: nat, v: byte, bin: Option<word>)
    requires ValidFlagFile(file) && k < 5 && v != file[k]
    ensures !ValidFlagFile(WithByte(file, k, v))
    ensures Saved(Some(WithByte(file, k, v)), bin) == if bin.None? || bin.value == 0xFFFF_FFFF then 0 else bin.value
  {
    var after := WithByte(file, k, v);
    if k < 4 {
      assert after[..4] == file[..4][k := v];
      FoldDetectsOneChange(0x100, file[..4], k, v, 0, true);
    } else {
      assert after[..4] == file[..4];
    }
  }

  /** The check byte of four bytes: the first and third are xored in, the second and fourth added. */
  lemma CheckByteOf(a: byte, b: byte, c: byte, d: byte)
    ensures CheckByte([a, b, c, d]) == (Xor((a + b as int) % 0x100, c) + d as int) % 0x100
  {
    XorWithZero(a);
    FoldFour(a, b, c, d);
  }

  lemma FoldFour(a: byte, b: byte, c: byte, d: byte)
    ensures CheckByte([a, b, c, d])
         == Mix(0x100, Mix(0x100, Mix(0x100, Mix(0x100, 0, a, true), b, false), c, true), d, false)
  {
    hide Mix;
    var m1 := Mix(0x100, 0, a, true);
    var m2 := Mix(0x100, m1, b, false);
    var m3 := Mix(0x100, m2, c, true);
    assert [a, b, c, d][1..] == [b, c, d] && [b, c, d][1..] == [c, d] && [c, d][1..] == [d] && [d][1..] == [];
    assert Fold(0x100, [d], m3, false) == Mix(0x100, m3, d, false);
    assert Fold(0x100, [c, d], m2, true) == Fold(0x100, [d], m3, false);
    assert Fold(0x100, [b, c, d], m1, false) == Fold(0x100, [c, d], m2, true);
  }

  /** The first addition, with no flag file yet: the file holds the increment itself, low byte first. */
  lemma FirstAddition(modified: word, bin: Option<word>)
    requires modified != 0
    ensures var file := AfterAdd(None, modified, bin);
            && file.Some? && |file.value| == 5 && LittleEndian(file.value[..4]) == modified
            && file.value[4] == CheckByte(file.value[..4])
  {
    hide Word, CheckByte, WordBytes, LittleEndian;
    WordRoundTrip(modified);
    WordIsLittleEndian(WordBytes(modified));
    assert Encode(modified)[..4] == WordBytes(modified);
  }

  // ----- whole runs -----

  /** One round of a run: perhaps one of the file's five bytes is overwritten by another value, given by its
      difference to the old one modulo 256; then a successful addition. */
  datatype Round = Round(overwrite: Option<(nat, byte)>, modified: word, bin: Option<word>)

  predicate Admissible(r: Round) {
    r.modified != 0 && (r.overwrite.Some? ==> r.overwrite.value.0 < 5)
  }

  function Overwritten(file: bytes, overwrite: Option<(nat, byte)>): bytes {
    match overwrite
    case Some((k, change)) => if k < |file| then WithByte(file, k, Changed(file[k], change)) else file
    case None => file
  }

  function Changed(value: byte, change: byte): byte { (value + change) % 0x100 }

  function RunFile(file: bytes, rounds: seq<Round>): Option<bytes>
    decreases |rounds|
  {
    if rounds == [] then Some(file)
    else
      var r := rounds[0];
      match AfterAdd(Some(Overwritten(file, r.overwrite)), r.modified, r.bin)
      case Some(f) => RunFile(f, rounds[1..])
      case None => None
  }

  /** The count a reader of the history expects, with no file and no checksum in sight: additions
      modulo 2^32, restarted from the bin region's count by every overwrite that changes a byte. */
  function ExpectedCount(count: word, rounds: seq<Round>): word
    decreases |rounds|
  {
    if rounds == [] then count else ExpectedCount(CountAfterRound(count, rounds[0]), rounds[1..])
  }

  function CountAfterRound(count: word, r: Round): word {
    var corrupted := r.overwrite.Some? && r.overwrite.value.1 != 0;
    ((if corrupted then Fallback(r.bin) else count) + r.modified) % 0x1_0000_0000
  }

  lemma OneRoundKeepsTheCount(count: word, r: Round)
    requires Admissible(r)
    ensures AfterAdd(Some(Overwritten(Encode(count), r.overwrite)), r.modified, r.bin)
         == Some(Encode(CountAfterRound(count, r)))
  {
    hide Encode, Saved, Overwritten;
    SavedAfterOverwrite(count, r.overwrite, r.bin);
  }

  /** What is read of a file one byte of which may have been overwritten. */
  lemma SavedAfterOverwrite(count: word, overwrite: Option<(nat, byte)>, bin: Option<word>)
    requires overwrite.Some? ==> overwrite.value.0 < 5
    ensures Saved(Some(Overwritten(Encode(count), overwrite)), bin)
         == if overwrite.Some? && overwrite.value.1 != 0 then Fallback(bin) else count
  {
    hide Encode, Word, ValidFlagFile, Changed;
    var file := Encode(count);
    EncodeRoundTrip(count);
    if overwrite.Some? {
      var (k, change) := overwrite.value;
      ChangeChanges(file[k], change);
      if change != 0 {
        CorruptionIsDetected(file, k, Changed(file[k], change), bin);
      } else {
        assert WithByte(file, k, file[k]) == file;
      }
    }
  }

  lemma ChangeChanges(value: byte, change: byte)
    ensures Changed(value, change) == value <==> change == 0
  {
  }

  /** After every run of additions, corrupted or not, the file is valid and holds the expected count. */
  lemma {:induction false} RunsKeepTheCount(count: word, rounds: seq<Round>)
    requires forall r | r in rounds :: Admissible(r)
    ensures RunFile(Encode(count), rounds) == Some(Encode(ExpectedCount(count, rounds)))
    decreases |rounds|
  {
    if rounds != [] {
      assert Admissible(rounds[0]);
      OneRoundKeepsTheCount(count, rounds[0]);
      RunsKeepTheCount(CountAfterRound(count, rounds[0]), rounds[1..]);
    }
  }

  function Sum(rounds: seq<Round>): nat {
    if rounds == [] then 0 else rounds[0].modified + Sum(rounds[1..])
  }

  lemma ModularSum(a: nat, b: nat, c: nat)
    ensures ((a + b) % 0x1_0000_0000 + c) % 0x1_0000_0000 == (a + b + c) % 0x1_0000_0000
  {
  }

  /** Absent corruption the count is the starting count plus the sum of the increments mod 2^32. */
  lemma {:induction false} UncorruptedRunAddsUp(count: word, rounds: seq<Round>)
    requires forall r | r in rounds :: r.overwrite.None?
    ensures ExpectedCount(count, rounds) == (count + Sum(rounds)) % 0x1_0000_0000
    decreases |rounds|
  {
    if rounds != [] {
      var r := rounds[0];
      assert r.overwrite.None?;
      var next := (count + r.modified) % 0x1_0000_0000;
      assert CountAfterRound(count, r) == next;
      UncorruptedRunAddsUp(next, rounds[1..]);
      ModularSum(count, r.modified, Sum(rounds[1..]));
    }
  }
}
