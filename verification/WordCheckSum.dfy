/** NVM_ComputeCheckSum: the checksum of the backup data file, read 4096 words at a time, beside the
    word-at-a-time version that the source keeps disabled. */
module WordCheckSum {
  import opened Bytes
  import opened Alternating

  const LOOP_NUM := 4096

  /** The unsigned ints stored in the whole words of `s`. */
  function Words(s: bytes): (w: seq<word>)
    ensures |w| == |s| / 4
  {
    if |s| < 4 then [] else [Word(s[..4])] + Words(s[4..])
  }

  /** `unsigned int iFileSize = st.st_size`: only this much of the file is summed. */
  function SummedSize(file: bytes): nat { |file| % 0x1_0000_0000 }

  /** The one to three bytes left over, read into a zeroed unsigned int. */
  function TailWord(s: bytes): (w: word)
    requires |s| < 4
  {
    Word(s + Zeros(4 - |s|))
  }

  /** The checksum both versions mean: whole words alternately xored and added, xor first, then the
      left-over bytes added whatever the phase. */
  ghost function CheckSum(file: bytes): (sum: word) {
    var s := file[..SummedSize(file)];
    var cut := WholeSize(|s|);
    (FoldWords(s[..cut], 0, true) + TailWord(s[cut..])) % 0x1_0000_0000
  }

  /** How many of `n` bytes make up whole words. */
  function WholeSize(n: nat): (cut: nat)
    ensures cut % 4 == 0 && cut <= n < cut + 4
  {
    n / 4 * 4
  }

  /** The words of `s` folded into an accumulator. */
  function FoldWords(s: bytes, acc: word, xorNext: bool): (r: word) {
    Fold(0x1_0000_0000, Words(s), acc, xorNext)
  }

  /** Words of a concatenation, when the first part ends at a word. */
  lemma {:induction false} WordsAppend(s: bytes, t: bytes)
    requires |s| % 4 == 0
    ensures Words(s + t) == Words(s) + Words(t)
  {
    hide Word;
    if s == [] {
      assert s + t == t;
    } else {
      WordsAppend(s[4..], t);
      var st := s + t;
      assert st[4..] == s[4..] + t;
      assert st[..4] == s[..4];
      assert Words(st) == [Word(st[..4])] + Words(st[4..]);
    }
  }

  /** Having folded a word-aligned prefix, folding the words of the next read extends it. */
  lemma FoldNextRead(s: bytes, t: bytes)
    requires |s| % 4 == 0
    ensures FoldWords(s + t, 0, true) == FoldWords(t, FoldWords(s, 0, true), |s| / 4 % 2 == 0)
  {
    WordsAppend(s, t);
    FoldAppend(0x1_0000_0000, Words(s), Words(t), 0, true);
  }

  lemma FoldNothing(acc: word, xorNext: bool)
    ensures FoldWords([], acc, xorNext) == acc
  {
  }

  /** Folding starts with the first word. */
  lemma FoldFirstWord(s: bytes, acc: word, xorNext: bool)
    requires |s| >= 4
    ensures FoldWords(s, acc, xorNext)
         == FoldWords(s[4..], Mix(0x1_0000_0000, acc, Word(s[..4]), xorNext), !xorNext)
  {
    assert Words(s)[1..] == Words(s[4..]);
  }

  /** The words of `buf` from word `j` on. */
  ghost function FromWord(buf: bytes, j: nat): (rest: bytes)
    requires 4 * j <= |buf|
    ensures |rest| == |buf| - 4 * j
  {
    buf[4 * j..]
  }

  /** Folding from word `j` on starts with that word. */
  lemma FoldAtWord(buf: bytes, j: nat, acc: word, xorNext: bool, acc': word)
    requires 4 * j + 4 <= |buf|
    requires acc' == Mix(0x1_0000_0000, acc, Word(buf[4 * j..4 * j + 4]), xorNext)
    ensures FoldWords(FromWord(buf, j), acc, xorNext) == FoldWords(FromWord(buf, j + 1), acc', !xorNext)
  {
    FoldFirstWord(buf[4 * j..], acc, xorNext);
    assert buf[4 * j..][..4] == buf[4 * j..4 * j + 4];
    assert buf[4 * j..][4..] == buf[4 * (j + 1)..];
  }

  /** The sum of one more word of the file. */
  lemma FoldNextWord(file: bytes, i: nat)
    requires 4 * i + 4 <= |file|
    ensures FoldWords(file[..4 * i + 4], 0, true)
         == Mix(0x1_0000_0000, FoldWords(file[..4 * i], 0, true), Word(file[4 * i..4 * i + 4]), i % 2 == 0)
  {
    var s, t := file[..4 * i], file[4 * i..4 * i + 4];
    FoldNextRead(s, t);
    assert s + t == file[..4 * i + 4];
    FoldFirstWord(t, FoldWords(s, 0, true), i % 2 == 0);
    assert t[..4] == t && t[4..] == [];
  }

  /** The version under `#if 0`: one read per word. */
  method ComputeCheckSumByWord(file: bytes) returns (sum: word)
    ensures sum == CheckSum(file)
  {
    var loopTime := SummedSize(file) / 4;
    sum := 0;
    var flag := true;
    var pos := 0;
    var i := 0;
    while i < loopTime
      invariant 0 <= i <= loopTime && pos == 4 * i
      invariant sum == FoldWords(file[..pos], 0, true)
      invariant flag == (i % 2 == 0)
    {
      var buf := PRead(file, pos, 4);
      assert buf == file[pos..pos + 4];
      FoldNextWord(file, i);
      sum := Mix(0x1_0000_0000, sum, Word(buf), flag);
      flag := !flag;
      pos := pos + |buf|;
      i := i + 1;
    }
    sum := AddTail(file, pos, sum);
  }

  /** `n` words later the phase flag has been flipped `n` times. */
  lemma PhaseFlips(n: nat, flag: bool)
    ensures PhaseAfter(n + 1, flag) == !PhaseAfter(n, flag)
  {
  }

  /** The inner loop of the version in use: mix in the `n` words of one buffer. */
  method MixBuffer(buf: bytes, n: nat, acc: word, flag: bool) returns (sum: word, flag': bool)
    requires |buf| == 4 * n
    ensures sum == FoldWords(buf, acc, flag)
    ensures flag' == PhaseAfter(n, flag)
  {
    hide FoldWords, Word, Mix;
    sum, flag' := acc, flag;
    var j := 0;
    assert FromWord(buf, 0) == buf;
    while j < n
      invariant 0 <= j <= n
      invariant flag' == PhaseAfter(j, flag)
      invariant FoldWords(FromWord(buf, j), sum, flag') == FoldWords(buf, acc, flag)
    {
      var sum' := Mix(0x1_0000_0000, sum, Word(buf[4 * j..4 * j + 4]), flag');
      FoldAtWord(buf, j, sum, flag', sum');
      PhaseFlips(j, flag);
      sum, flag' := sum', !flag';
      j := j + 1;
    }
    assert FromWord(buf, n) == [];
    FoldNothing(sum, flag');
  }

  /** The loop in use: reads of 4096 words, the last one shorter and possibly empty; the phase flag
      is carried from one read to the next. */
  method ComputeCheckSum(file: bytes) returns (sum: word)
    ensures sum == CheckSum(file)
  {
    var loopTime := SummedSize(file) / 4;
    var chunks := loopTime / LOOP_NUM + 1;
    sum := 0;
    var flag := true;
    var pos := 0;
    ghost var words := 0;
    var i := 0;
    while i < chunks
      invariant 0 <= i <= chunks
      invariant pos == 4 * words
      invariant words == if i == chunks then loopTime else i * LOOP_NUM
      invariant sum == FoldWords(file[..pos], 0, true)
      invariant flag == (words % 2 == 0)
    {
      var jLoop := if i != chunks - 1 then LOOP_NUM else loopTime % LOOP_NUM;
      assert words + jLoop == if i + 1 == chunks then loopTime else (i + 1) * LOOP_NUM;
      var buf := PRead(file, pos, jLoop * 4);
      sum, flag := NextRead(file, words, buf, jLoop, sum, flag);
      pos := pos + |buf|;
      words := words + jLoop;
      i := i + 1;
    }
    sum := AddTail(file, pos, sum);
  }

  /** The words summed and those just read are the words summed next. */
  lemma PrefixGrows(file: bytes, words: nat, n: nat)
    requires 4 * (words + n) <= |file|
    ensures file[..4 * words] + file[4 * words..4 * (words + n)] == file[..4 * (words + n)]
    ensures |file[..4 * words]| / 4 == words
  {
  }

  /** One pass of the outer loop: the buffer just read extends the prefix summed. */
  method NextRead(file: bytes, ghost words: nat, buf: bytes, n: nat, acc: word, flag: bool)
      returns (sum: word, flag': bool)
    requires 4 * (words + n) <= |file| && buf == file[4 * words..4 * (words + n)]
    requires acc == FoldWords(file[..4 * words], 0, true) && flag == (words % 2 == 0)
    ensures sum == FoldWords(file[..4 * (words + n)], 0, true) && flag' == ((words + n) % 2 == 0)
  {
    hide FoldWords;
    PrefixGrows(file, words, n);
    FoldNextRead(file[..4 * words], buf);
    sum, flag' := MixBuffer(buf, n, acc, flag);
  }

  /** `ulCheckSum += tempNum` for the bytes after the last whole word. */
  method AddTail(file: bytes, pos: nat, acc: word) returns (sum: word)
    requires pos == SummedSize(file) / 4 * 4
    requires acc == FoldWords(file[..pos], 0, true)
    ensures sum == CheckSum(file)
  {
    ghost var s := file[..SummedSize(file)];
    var tail := PRead(file, pos, SummedSize(file) % 4);
    assert tail == s[pos..];
    assert s[..pos] == file[..pos];
    sum := (acc + TailWord(tail)) % 0x1_0000_0000;
  }

  /** The checksum, word after word: nothing sums to 0; every first, third, ... word is xored, every second,
      fourth, ... is added modulo 2^32, each low byte first. */
  lemma SumOfOneMoreWord(s: bytes, t: bytes)
    requires |s| % 4 == 0 && |t| == 4 && |s| + 4 < 0x1_0000_0000
    ensures CheckSum([]) == 0
    ensures CheckSum(s + t)
         == if |s| / 4 % 2 == 0 then Xor(CheckSum(s), LittleEndian(t)) else (CheckSum(s) + LittleEndian(t)) % 0x1_0000_0000
  {
    hide CheckSum, Fold, FoldWords, Word, LittleEndian, Xor;
    WholeSum(s);
    WholeSum(s + t);
    WholeSum([]);
    FoldNothing(0, true);
    FoldNextWord(s + t, |s| / 4);
    assert (s + t)[..|s| + 4] == s + t && (s + t)[..|s|] == s && (s + t)[|s|..|s| + 4] == t;
    WordIsLittleEndian(t);
  }

  lemma WholeSum(s: bytes)
    requires |s| % 4 == 0 && |s| < 0x1_0000_0000
    ensures CheckSum(s) == FoldWords(s, 0, true)
  {
    hide FoldWords, TailWord;
    assert s[..|s|] == s && s[|s|..] == [];
    NoTail();
  }

  lemma NoTail()
    ensures TailWord([]) == 0
  {
    assert [] + Zeros(4) == [0, 0, 0, 0];
  }

  /** The one to three bytes left over are added, low byte first, whatever the phase. */
  lemma SumOfTail(s: bytes, tail: bytes)
    requires |s| % 4 == 0 && |tail| < 4 && |s| + 4 < 0x1_0000_0000
    ensures CheckSum(s + tail) == (CheckSum(s) + LittleEndian(tail)) % 0x1_0000_0000
  {
    hide CheckSum, FoldWords, LittleEndian, TailWord;
    WholeSum(s);
    SumOfParts(s, tail);
    TailByItsBytes(tail);
  }

  lemma SumOfParts(s: bytes, tail: bytes)
    requires |s| % 4 == 0 && |tail| < 4 && |s| + 4 < 0x1_0000_0000
    ensures CheckSum(s + tail) == (FoldWords(s, 0, true) + TailWord(tail)) % 0x1_0000_0000
  {
    hide FoldWords, TailWord;
    var t := s + tail;
    assert t[..|t|] == t && t[..|s|] == s && t[|s|..] == tail;
    assert SummedSize(t) == |t| && WholeSize(|t|) == |s|;
  }

  lemma TailByItsBytes(tail: bytes)
    requires |tail| < 4
    ensures TailWord(tail) == LittleEndian(tail)
  {
    hide Word;
    WordIsLittleEndian(tail + Zeros(4 - |tail|));
    ZerosAddNothing(tail, 4 - |tail|);
  }

  lemma {:induction false} ZerosAddNothing(s: bytes, n: nat)
    ensures LittleEndian(s + Zeros(n)) == LittleEndian(s)
  {
    if s != [] {
      assert (s + Zeros(n))[1..] == s[1..] + Zeros(n);
      ZerosAddNothing(s[1..], n);
    } else if n > 0 {
      assert s + Zeros(n) == Zeros(n) && Zeros(n)[1..] == [] + Zeros(n - 1);
      ZerosAddNothing([], n - 1);
    } else {
      assert s + Zeros(n) == [];
    }
  }

  /** The size is cut to 32 bits: of a longer file only what is over 2^32 bytes is summed, from its start. */
  lemma SumWraps(file: bytes)
    requires 0x1_0000_0000 <= |file| < 0x2_0000_0000
    ensures CheckSum(file) == CheckSum(file[..|file| - 0x1_0000_0000])
  {
    hide FoldWords, TailWord;
    var n := |file| - 0x1_0000_0000;
    assert SummedSize(file) == n && SummedSize(file[..n]) == n;
    assert file[..n][..n] == file[..n];
  }

  lemma WordIsInjective(s: bytes, t: bytes)
    requires |s| == |t| == 4 && Word(s) == Word(t)
    ensures s == t
  {
    WordBytesRoundTrip(s);
    WordBytesRoundTrip(t);
  }

  /** Whole words with one byte changed fold to something else. */
  lemma {:induction false} FoldWordsDetectsByteChange(s: bytes, k: nat, v: byte, acc: word, xorNext: bool)
    requires |s| % 4 == 0 && k < |s| && v != s[k]
    ensures FoldWords(s[k := v], acc, xorNext) != FoldWords(s, acc, xorNext)
  {
    var t := s[k := v];
    FoldFirstWord(s, acc, xorNext);
    FoldFirstWord(t, acc, xorNext);
    var acc' := Mix(0x1_0000_0000, acc, Word(s[..4]), xorNext);
    if k >= 4 {
      assert t[4..] == s[4..][k - 4 := v];
      assert t[..4] == s[..4];
      FoldWordsDetectsByteChange(s[4..], k - 4, v, acc', !xorNext);
    } else {
      FirstWordDiffers(s, t, k);
      assert t[4..] == s[4..];
      if Mix(0x1_0000_0000, acc, Word(t[..4]), xorNext) == acc' {
        MixInjectiveInValue(0x1_0000_0000, acc, Word(s[..4]), Word(t[..4]), xorNext);
      } else {
        FoldInjectiveInAcc(0x1_0000_0000, Words(s[4..]), Mix(0x1_0000_0000, acc, Word(t[..4]), xorNext), acc', !xorNext);
      }
    }
  }

  lemma FirstWordDiffers(s: bytes, t: bytes, k: nat)
    requires 4 <= |s| && 4 <= |t| && k < 4 && s[k] != t[k]
    ensures Word(s[..4]) != Word(t[..4])
  {
    assert s[..4][k] == s[k] && t[..4][k] == t[k];
    if Word(s[..4]) == Word(t[..4]) {
      WordIsInjective(s[..4], t[..4]);
    }
  }

  /** Any change of one byte of the summed part changes the checksum, so the comparison made before
      a restore refuses the data file. */
  lemma CheckSumDetectsOneByteChange(file: bytes, k: nat, v: byte)
    requires k < SummedSize(file) && v != file[k]
    ensures CheckSum(WithByte(file, k, v)) != CheckSum(file)
  {
    var n := SummedSize(file);
    var s, t := file[..n], WithByte(file, k, v)[..n];
    assert t == s[k := v];
    SumDetectsOneByteChange(s, k, v);
  }

  /** The sum of whole words and tail, as the checksum takes it. */
  lemma SumDetectsOneByteChange(s: bytes, k: nat, v: byte)
    requires k < |s| && v != s[k]
    ensures var cut, t := WholeSize(|s|), s[k := v];
            (FoldWords(t[..cut], 0, true) + TailWord(t[cut..])) % 0x1_0000_0000
            != (FoldWords(s[..cut], 0, true) + TailWord(s[cut..])) % 0x1_0000_0000
  {
    var cut, t := WholeSize(|s|), s[k := v];
    if k < cut {
      assert t[..cut] == s[..cut][k := v];
      assert t[cut..] == s[cut..];
      FoldWordsDetectsByteChange(s[..cut], k, v, 0, true);
      SumsDiffer(FoldWords(t[..cut], 0, true), FoldWords(s[..cut], 0, true), TailWord(s[cut..]));
    } else {
      assert t[..cut] == s[..cut];
      assert t[cut..] == s[cut..][k - cut := v];
      TailWordDiffers(s[cut..], k - cut, v);
      SumsDiffer(TailWord(t[cut..]), TailWord(s[cut..]), FoldWords(s[..cut], 0, true));
    }
  }

  lemma SumsDiffer(a: word, b: word, c: word)
    requires a != b
    ensures (a + c) % 0x1_0000_0000 != (b + c) % 0x1_0000_0000
  {
  }

  lemma TailWordDiffers(s: bytes, k: nat, v: byte)
    requires k < |s| < 4 && v != s[k]
    ensures TailWord(s[k := v]) != TailWord(s)
  {
    var a, b := s + Zeros(4 - |s|), s[k := v] + Zeros(4 - |s|);
    assert a[k] != b[k];
    if Word(a) == Word(b) {
      WordIsInjective(a, b);
    }
  }
}
