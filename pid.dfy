/**
 * The PID allocator of kern/process/process.c, repeated word for word in
 * kern/process/pid.c: a bitmap of MAX_PID bits in 32-bit words, a count of
 * PIDs handed out, a recursive search for the lowest zero bit of a word, and
 * set/clear of single PIDs. `get_pid_index` takes its word as a signed
 * `int`, so its `>>=` shifts in copies of the sign bit; the search only ever
 * looks at the low `bit_len` bits of its argument, which a logical shift
 * leaves the same, so words are `bv32` here.
 */
module Pids {
  import opened Util

  const MAX_PID: int := 1024
  /** MAX_PID / 32: the number of words in pid_map. */
  const PID_WORDS: int := 32
  const FULL: bv32 := 0xffff_ffff

  /** Bit `i` of `w` is set: PID `32*word + i` is taken. */
  predicate Bit(w: bv32, i: bv32)
    requires i < 32
  {
    (w >> i) & 1 == 1
  }

  /** `~(~0 << k)`: the mask of the low `k` bits, as get_pid_index computes it. */
  function LowMask(k: bv32): bv32
    requires k <= 32
  {
    !(!(0 as bv32) << k)
  }

  lemma LowMaskFull()
    ensures LowMask(32) == FULL
  {
  }

  /** The lengths get_pid_index is called with: 32 and its halvings. */
  predicate IsLen(n: bv32)
  {
    n == 1 || n == 2 || n == 4 || n == 8 || n == 16 || n == 32
  }

  /**
   * Bit `r` is the lowest clear bit of `w`: adding one carries through the
   * set bits below it and stops there.
   */
  predicate LowestClear(w: bv32, r: bv32)
    requires r < 32
  {
    1 << r == !w & (w + 1)
  }

  /** LowestClear means what it says, bit by bit. */
  lemma LowestClearBits(w: bv32, r: bv32, j: bv32)
    requires r < 32 && j < 32
    requires LowestClear(w, r)
    ensures !Bit(w, r)
    ensures j < r ==> Bit(w, j)
  {
  }

  /**
   * `r` is where get_pid_index should land in the low `n` bits of `w`: the
   * lowest clear bit when there is one, bit n-1 when they are all set.
   */
  predicate FindsLowestZero(w: bv32, n: bv32, r: bv32)
    requires n <= 32 && r < n
  {
    && (w & LowMask(n) != LowMask(n) ==> LowestClear(w, r))
    && (w & LowMask(n) == LowMask(n) ==> r == n - 1)
  }

  /**
   * One halving step: if both halves land where they should, so does the
   * choice get_pid_index makes between them.
   */
  lemma HalvesFindLowestZero(w: bv32, half: bv32, rLower: bv32, rUpper: bv32)
    requires 0 < half <= 16 && rLower < half && rUpper < half
    requires FindsLowestZero(w & LowMask(half), half, rLower)
    requires FindsLowestZero(w >> half, half, rUpper)
    ensures FindsLowestZero(w, half + half,
                            if w & LowMask(half) < LowMask(half) then rLower else half + rUpper)
  {
  }

  /**
   * get_pid_index(w, n): 0 for a one-bit word; otherwise search the lower
   * half if it is not all ones, else the upper half shifted down. It lands
   * on the lowest clear bit of the low `n` bits, or on bit n-1 when they
   * are all set. Both halves' results are named so that the halving step
   * can relate them; only the chosen one is the result, as in the source.
   */
  function GetPidIndex(w: bv32, n: bv32): (r: bv32)
    requires IsLen(n)
    ensures r < n
    ensures FindsLowestZero(w, n, r)
    decreases n
  {
    if n == 1 then 0
    else
      var half := n / 2;
      var mask := LowMask(half);
      var lower := w & mask;
      var rLower := GetPidIndex(lower, half);
      var rUpper := GetPidIndex(w >> half, half);
      HalvesFindLowestZero(w, half, rLower, rUpper);
      if lower < mask then rLower
      else half + rUpper
  }

  /** The word after set_pid(index, offset): `pid_map[index] &= (1 << offset)`. */
  function SetWord(w: bv32, offset: bv32): bv32
    requires offset < 32
  {
    w & (1 << offset)
  }

  /** The word after clear_pid: `pid_map[index] &= ~(1 << offset)`. */
  function ClearWord(w: bv32, offset: bv32): bv32
    requires offset < 32
  {
    w & !(1 << offset)
  }

  /** clear_pid clears exactly the one bit and leaves the others alone. */
  lemma ClearWordBits(w: bv32, offset: bv32, j: bv32)
    requires offset < 32 && j < 32
    ensures Bit(ClearWord(w, offset), j) == (j != offset && Bit(w, j))
  {
  }

  /**
   * set_pid keeps bit `offset` as it was and clears every other bit: it
   * never marks a free PID taken, and it frees the rest of the word.
   */
  lemma SetWordBits(w: bv32, offset: bv32, j: bv32)
    requires offset < 32 && j < 32
    ensures Bit(SetWord(w, offset), j) == (j == offset && Bit(w, j))
  {
  }

  /** The position of PID `pid` in the bitmap: word pid / 32, bit pid % 32. */
  function BitOf(pid: int): (b: bv32)
    requires 0 <= pid
    ensures b < 32
  {
    ((pid % 32) as bv5) as bv32
  }

  /** A bit position as a number. */
  function BitIndex(b: bv32): (k: int)
    requires b < 32
    ensures 0 <= k < 32 && BitOf(k) == b
  {
    var c := b as bv5;
    var k := c as int;
    assert k % 32 == k;
    assert k as bv5 == c;
    assert c as bv32 == b;
    k
  }

  /**
   * get_pid on the bitmap `words` with `count` PIDs out: the PID chosen (or
   * -1), the new bitmap and the new count.
   */
  function PidAlloc(words: seq<bv32>, count: int): (r: (int, seq<bv32>, int))
    requires |words| == PID_WORDS
    ensures |r.1| == PID_WORDS
    ensures r.0 == -1 <==> count == MAX_PID - 1 || forall i :: 0 <= i < PID_WORDS ==> words[i] == FULL
    ensures r.0 == -1 ==> r.1 == words && r.2 == count
    ensures r.0 != -1 ==> 0 <= r.0 < MAX_PID && r.2 == count + 1
  {
    if count == MAX_PID - 1 then (-1, words, count)
    else match FirstWhere(words, (w: bv32) => w != FULL)
      case None => (-1, words, count)
      case Some(i) =>
        var offset := GetPidIndex(words[i], 32);
        var bit := BitIndex(offset);
        (i * 32 + bit, words[i := SetWord(words[i], offset)], count + 1)
  }

  lemma PidParts(i: int, offset: bv32)
    requires 0 <= i && offset < 32
    ensures (i * 32 + BitIndex(offset)) / 32 == i
    ensures BitOf(i * 32 + BitIndex(offset)) == offset
  {
  }

  /** Within one word that is not full: the bit chosen was clear, and set_pid leaves it clear. */
  lemma WordAlloc(w: bv32)
    requires w != FULL
    ensures LowestClear(w, GetPidIndex(w, 32))
    ensures !Bit(SetWord(w, GetPidIndex(w, 32)), GetPidIndex(w, 32))
  {
    var r := GetPidIndex(w, 32);
    LowMaskFull();
    LowestClearBits(w, r, 0);
    SetWordBits(w, r, r);
  }

  /**
   * The PID get_pid hands out comes from the first word that is not full,
   * at that word's lowest clear bit, so it was free; set_pid then leaves
   * that bit clear, so the PID is still free afterwards.
   */
  lemma PidAllocPicksFreePid(words: seq<bv32>, count: int)
    requires |words| == PID_WORDS
    requires PidAlloc(words, count).0 != -1
    ensures var (pid, words', _) := PidAlloc(words, count);
      && (forall j :: 0 <= j < pid / 32 ==> words[j] == FULL)
      && words[pid / 32] != FULL
      && LowestClear(words[pid / 32], BitOf(pid))
      && !Bit(words'[pid / 32], BitOf(pid))
  {
    var i := FirstWhere(words, (w: bv32) => w != FULL).value;
    var offset := GetPidIndex(words[i], 32);
    PidParts(i, offset);
    WordAlloc(words[i]);
  }

  /**
   * On an empty bitmap get_pid hands out PID 0 and leaves the bitmap
   * empty, so the next call hands out PID 0 again.
   */
  lemma PidAllocRepeatsOnEmptyMap(count: int)
    requires count != MAX_PID - 1 && count + 1 != MAX_PID - 1
    ensures var zero := seq(PID_WORDS, _ => 0 as bv32);
      && PidAlloc(zero, count) == (0, zero, count + 1)
      && PidAlloc(zero, count + 1).0 == 0
  {
    var zero := seq(PID_WORDS, _ => 0 as bv32);
    assert FirstWhere(zero, (w: bv32) => w != FULL) == Some(0);
    var r := GetPidIndex(0, 32);
    LowMaskFull();
    assert LowestClear(0, r);
    assert r == 0;
    assert zero[0 := SetWord(0, 0)] == zero;
  }

  /** pid_map and pid_count. */
  class PidTable {
    var pidMap: array<bv32>
    var pidCount: int

    ghost predicate Valid()
      reads this
    {
      pidMap.Length == PID_WORDS
    }

    /** The allocator as the kernel starts: all PIDs free, none counted. */
    constructor ()
      ensures Valid() && fresh(pidMap) && pidCount == 0
      ensures forall i :: 0 <= i < PID_WORDS ==> pidMap[i] == 0
    {
      pidMap := new bv32[PID_WORDS](_ => 0);
      pidCount := 0;
    }

    /** clear_pid: clears bit pid % 32 of word pid / 32 and decrements pid_count. */
    method ClearPid(pid: int)
      requires Valid()
      requires 0 <= pid < MAX_PID
      modifies this, pidMap
      ensures Valid() && pidMap == old(pidMap)
      ensures pidMap[..] == old(pidMap[..])[pid / 32 := ClearWord(old(pidMap[pid / 32]), BitOf(pid))]
      ensures pidCount == old(pidCount) - 1
    {
      var index := pid / 32;
      var bitOffset := BitOf(pid);
      pidMap[index] := pidMap[index] & !(1 << bitOffset);
      pidCount := pidCount - 1;
    }

    /** set_pid: `pid_map[index] &= (1 << offset)`, one more PID counted, PID index*32 + offset. */
    method SetPid(index: int, offset: bv32) returns (pid: int)
      requires Valid()
      requires 0 <= index < PID_WORDS && offset < 32
      modifies this, pidMap
      ensures Valid() && pidMap == old(pidMap)
      ensures pidMap[..] == old(pidMap[..])[index := SetWord(old(pidMap[index]), offset)]
      ensures pidCount == old(pidCount) + 1
      ensures pid == index * 32 + BitIndex(offset) && pid / 32 == index && BitOf(pid) == offset
    {
      pidMap[index] := pidMap[index] & (1 << offset);
      pidCount := pidCount + 1;
      PidParts(index, offset);
      return index * 32 + BitIndex(offset);
    }

    /** get_pid: the scan for the first word that is not full. */
    method GetPid() returns (pid: int)
      requires Valid()
      modifies this, pidMap
      ensures Valid() && pidMap == old(pidMap)
      ensures (pid, pidMap[..], pidCount) == PidAlloc(old(pidMap[..]), old(pidCount))
    {
      if pidCount == MAX_PID - 1 {
        return -1;
      }
      var i := 0;
      while i < MAX_PID / 32
        invariant 0 <= i <= PID_WORDS
        invariant pidMap[..] == old(pidMap[..]) && pidCount == old(pidCount)
        invariant forall j :: 0 <= j < i ==> pidMap[j] == FULL
      {
        if pidMap[i] != FULL {
          assert FirstWhere(old(pidMap[..]), (w: bv32) => w != FULL) == Some(i);
          var offset := GetPidIndex(pidMap[i], 32);
          pid := SetPid(i, offset);
          return pid;
        }
        i := i + 1;
      }
      return -1;
    }
  }
}
