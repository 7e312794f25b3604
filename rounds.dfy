/** The MD4 compression function as pure functions over the four-word state:
    the round tables of class `MD4`, one step (`_round` followed by
    `_right_circular_shift`), the three rounds of sixteen steps, the
    feed-forward addition and the serialisation of the final state
    (sections 3.3 to 3.5 of RFC 1320). */
module Rounds {
  import opened Words
  import opened Bytes

  /** The state `[A, B, C, D]`: always exactly four words. */
  type State = s: seq<Word> | |s| == 4 witness [0, 0, 0, 0]

  /** The state a new hash starts from (section 3.3 of RFC 1320). */
  const INITIAL_STATE: State := [0x6745_2301, 0xefcd_ab89, 0x98ba_dcfe, 0x1032_5476]

  const NUMBER_OF_ROUNDS: nat := 3

  /** `ROUND_CONSTANT[r]`: 0, then the integer parts of 2^30 times the square
      roots of 2 and of 3 (section 3.4 of RFC 1320). */
  function RoundConstant(r: nat): Word
    requires r < NUMBER_OF_ROUNDS
  {
    [0x0000_0000, 0x5a82_7999, 0x6ed9_eba1][r]
  }

  /** The constants of rounds 1 and 2 are the integer square roots of 2^61
      and 3 * 2^60, that is 2^30 times the square roots of 2 and 3, rounded
      down. */
  lemma RoundConstantsAreRoots()
    ensures RoundConstant(0) == 0
    ensures IsFloorRoot(RoundConstant(1) as nat, 2 * TWO_TO_60)
    ensures IsFloorRoot(RoundConstant(2) as nat, 3 * TWO_TO_60)
  {
    assert RoundConstant(1) as nat == 0x5a82_7999;
    assert RoundConstant(2) as nat == 0x6ed9_eba1;
  }

  const TWO_TO_60: nat := 0x1000_0000_0000_0000

  /** k is the square root of n, rounded down. */
  predicate IsFloorRoot(k: nat, n: nat)
  {
    k * k <= n < (k + 1) * (k + 1)
  }

  /** `ROUND_FUNCTION[r](x, y, z)`: F, G and H for rounds 0, 1 and 2. */
  function RoundFunction(r: nat, x: Wide, y: Wide, z: Wide): Word
    requires r < NUMBER_OF_ROUNDS
  {
    if r == 0 then F(x, y, z) else if r == 1 then G(x, y, z) else H(x, y, z)
  }

  /** The first half of `ROUND_PARAMS[r]`: which message word each step reads. */
  function WordOrder(r: nat): (order: seq<nat>)
    requires r < NUMBER_OF_ROUNDS
    ensures |order| == 16 && forall i :: 0 <= i < 16 ==> order[i] < 16
  {
    [[0, 1, 2, 3, 4, 5, 6, 7, 8, 9, 10, 11, 12, 13, 14, 15],
     [0, 4, 8, 12, 1, 5, 9, 13, 2, 6, 10, 14, 3, 7, 11, 15],
     [0, 8, 4, 12, 2, 10, 6, 14, 1, 9, 5, 13, 3, 11, 7, 15]][r]
  }

  /** The rotation of step i of round r: the second half of
      `ROUND_PARAMS[r]` repeats four amounts four times (`[...] * 4`). */
  function Shift(r: nat, i: nat): (s: Word)
    requires r < NUMBER_OF_ROUNDS && i < 16
    ensures 0 < s < 32
  {
    [[3, 7, 11, 19], [3, 5, 9, 13], [3, 9, 11, 15]][r][i % 4]
  }

  /** Each order is its own inverse: round 1 reads the 4 x 4 word matrix
      transposed, round 2 in bit-reversed order. */
  lemma WordOrderInvolution(r: nat, i: nat)
    requires r < NUMBER_OF_ROUNDS && i < 16
    ensures WordOrder(r)[WordOrder(r)[i]] == i
  {
  }

  /** Each round reads every one of the sixteen message words exactly once. */
  lemma WordOrderIsPermutation(r: nat)
    requires r < NUMBER_OF_ROUNDS
    ensures forall i, j :: 0 <= i < j < 16 ==> WordOrder(r)[i] != WordOrder(r)[j]
    ensures forall w :: 0 <= w < 16 ==> w in WordOrder(r)
  {
    forall i, j | 0 <= i < j < 16
      ensures WordOrder(r)[i] != WordOrder(r)[j]
    {
      WordOrderInvolution(r, i);
      WordOrderInvolution(r, j);
    }
    forall w | 0 <= w < 16
      ensures w in WordOrder(r)
    {
      WordOrderInvolution(r, w);
    }
  }

  // ---------------------------------------------------------------- one step

  /** `self.state[-s:] + self.state[:-s]` on a four-word state. Python's
      slices make a shift of 0, or of more than the length, a no-op. */
  function RotatedRight(st: State, s: nat): (r: State)
    // word i moves to position i + s, wrapping around
    ensures 0 < s <= 4 ==> forall i :: 0 <= i < 4 ==> r[(i + s) % 4] == st[i]
    ensures s == 0 || s > 4 ==> r == st
  {
    if 0 < s <= 4 then st[4 - s..] + st[..4 - s] else st
  }

  /** `(A + round_function(B, C, D) + value + round_constant) & WORD_MASK`. */
  function StepSum(st: State, r: nat, value: Word): Word
    requires r < NUMBER_OF_ROUNDS
  {
    var mixed := RoundFunction(r, st[1] as Wide, st[2] as Wide, st[3] as Wide);
    Mask(st[0] as Wide + mixed as Wide + value as Wide + RoundConstant(r) as Wide)
  }

  /** The word `_round` stores in `state[0]`. */
  function NewWord(st: State, r: nat, value: Word, s: Word): Word
    requires r < NUMBER_OF_ROUNDS && s <= 32
  {
    LeftCircularShift(StepSum(st, r, value), s)
  }

  /** The state after one call of `_round(r, value, s)`: `[D, new A, B, C]`
      (`StoreThenRotate` shows that storing the new word in A and rotating
      right gives this). */
  function StepState(st: State, r: nat, value: Word, s: Word): (next: State)
    requires r < NUMBER_OF_ROUNDS && s <= 32
  {
    [st[3], NewWord(st, r, value, s), st[1], st[2]]
  }

  /** `_round` stores a new word in `state[0]` and then rotates the state
      one place right; that leaves `[D, new A, B, C]`. */
  lemma StoreThenRotate(st: State, a: Word)
    ensures RotatedRight(st[0 := a], 1) == [st[3], a, st[1], st[2]]
  {
    var stored := st[0 := a];
    assert stored[4 - 1..] + stored[..4 - 1] == [stored[3], stored[0], stored[1], stored[2]];
  }

  /** A step replaces A by the rotated sum (modulo 2^32) of A, the round
      function of B, C and D, the message word and the round constant, then
      rotates the state right: the result is `[D, new A, B, C]`. */
  lemma StepShape(st: State, r: nat, value: Word, s: Word)
    requires r < NUMBER_OF_ROUNDS && s <= 32
    ensures StepState(st, r, value, s) == [st[3],
      LeftCircularShift(st[0] + RoundFunction(r, st[1] as Wide, st[2] as Wide, st[3] as Wide)
        + value + RoundConstant(r), s),
      st[1], st[2]]
  {
    StepSumIsSum(st, r, value);
  }

  /** The step's sum, masked to 32 bits, is its sum modulo 2^32. */
  lemma StepSumIsSum(st: State, r: nat, value: Word)
    requires r < NUMBER_OF_ROUNDS
    ensures StepSum(st, r, value)
      == st[0] + RoundFunction(r, st[1] as Wide, st[2] as Wide, st[3] as Wide) + value + RoundConstant(r)
  {
    var a, f, k := st[0], RoundFunction(r, st[1] as Wide, st[2] as Wide, st[3] as Wide), RoundConstant(r);
    MaskedSum4(a, f, value, k);
  }

  // ---------------------------------------------------------------- one block

  /** The arguments of one call `_round(round_number, value, s)`. */
  datatype Step = Step(round: nat, value: Word, shift: Word)

  /** A step `_round` accepts: a table round, and a shift of at most 32. */
  type RoundStep = step: Step | step.round < NUMBER_OF_ROUNDS && step.shift <= 32 witness Step(0, 0, 0)

  /** The state after the given calls of `_round`, first to last, from st. */
  function RunSteps(st: State, steps: seq<RoundStep>): State
  {
    if steps == [] then st
    else
      var last := steps[|steps| - 1];
      StepState(RunSteps(st, steps[..|steps| - 1]), last.round, last.value, last.shift)
  }

  /** Running two runs of steps in turn is running their concatenation: the
      state is all that carries over from one step to the next. */
  lemma {:induction false} RunStepsAppend(st: State, a: seq<RoundStep>, b: seq<RoundStep>)
    ensures RunSteps(st, a + b) == RunSteps(RunSteps(st, a), b)
    decreases |b|
  {
    if b != [] {
      var b' := b[..|b| - 1];
      assert (a + b)[..|a + b| - 1] == a + b';
      RunStepsAppend(st, a, b');
    } else {
      assert a + b == a;
    }
  }

  /** Running the first i + 1 steps is running step i after the first i. */
  lemma RunStepsPrefix(st: State, steps: seq<RoundStep>, i: nat)
    requires i < |steps|
    ensures RunSteps(st, steps[..i + 1])
      == StepState(RunSteps(st, steps[..i]), steps[i].round, steps[i].value, steps[i].shift)
  {
    assert steps[..i + 1][..i] == steps[..i];
  }

  /** `zip(*ROUND_PARAMS[r])` over the block's words: the sixteen calls of
      `_round` in round r. */
  function RoundSteps(words: seq<Word>, r: nat): (steps: seq<RoundStep>)
    requires |words| == 16 && r < NUMBER_OF_ROUNDS
    ensures |steps| == 16
  {
    seq(16, i requires 0 <= i < 16 => Step(r, words[WordOrder(r)[i]], Shift(r, i)))
  }

  /** The state after the first n rounds, from st. */
  function RunRounds(st: State, words: seq<Word>, n: nat): State
    requires |words| == 16 && n <= NUMBER_OF_ROUNDS
  {
    if n == 0 then st else RunSteps(RunRounds(st, words, n - 1), RoundSteps(words, n - 1))
  }

  /** The 48 calls of `_round` for a block, numbered across rounds: step k is
      step k % 16 of round k / 16. */
  function Schedule(words: seq<Word>): (steps: seq<RoundStep>)
    requires |words| == 16
    ensures |steps| == 16 * NUMBER_OF_ROUNDS
  {
    seq(16 * NUMBER_OF_ROUNDS, k requires 0 <= k < 16 * NUMBER_OF_ROUNDS =>
      Step(k / 16, words[WordOrder(k / 16)[k % 16]], Shift(k / 16, k % 16)))
  }

  /** The first b elements of s are its first a followed by the next b - a;
      all of s is its first |s|. */
  lemma SplitAt<T>(s: seq<T>, a: nat, b: nat)
    requires a <= b <= |s|
    ensures s[..b] == s[..a] + s[a..b]
    ensures s[..|s|] == s
  {
  }

  /** Step 16r + i of the schedule is step i of round r. */
  lemma ScheduleIndex(r: nat, i: nat)
    requires i < 16
    ensures (16 * r + i) / 16 == r && (16 * r + i) % 16 == i
  {
  }

  /** Steps 16r to 16r + 15 of the schedule are round r. */
  lemma ScheduleRound(words: seq<Word>, r: nat)
    requires |words| == 16 && r < NUMBER_OF_ROUNDS
    ensures Schedule(words)[16 * r .. 16 * r + 16] == RoundSteps(words, r)
  {
    forall i | 0 <= i < 16
      ensures Schedule(words)[16 * r + i] == RoundSteps(words, r)[i]
    {
      ScheduleIndex(r, i);
    }
  }

  /** If steps 16(r - 1) to 16r - 1 are round r - 1, the first 16r steps are
      the first 16(r - 1) followed by round r - 1. */
  lemma RunOneMoreRound(st: State, words: seq<Word>, all: seq<RoundStep>, r: nat)
    requires |words| == 16 && 0 < r <= NUMBER_OF_ROUNDS && 16 * r <= |all|
    requires all[16 * (r - 1) .. 16 * (r - 1) + 16] == RoundSteps(words, r - 1)
    ensures RunSteps(st, all[..16 * r])
      == RunSteps(RunSteps(st, all[..16 * (r - 1)]), RoundSteps(words, r - 1))
  {
    SplitAt(all, 16 * (r - 1), 16 * r);
    RunStepsAppend(st, all[..16 * (r - 1)], all[16 * (r - 1) .. 16 * r]);
  }

  /** Three rounds of sixteen steps are the 48 steps of the schedule, in
      order: its first 16, 32 and 48 steps are the first one, two and three
      rounds. */
  lemma RoundsAreSchedule(st: State, words: seq<Word>)
    requires |words| == 16
    ensures RunSteps(st, Schedule(words)) == RunRounds(st, words, NUMBER_OF_ROUNDS)
  {
    var all := Schedule(words);
    ScheduleRound(words, 0);
    RunOneMoreRound(st, words, all, 1);
    assert all[..0] == [];
    assert RunSteps(st, all[..16]) == RunRounds(st, words, 1);
    ScheduleRound(words, 1);
    RunOneMoreRound(st, words, all, 2);
    assert RunSteps(st, all[..32]) == RunRounds(st, words, 2);
    ScheduleRound(words, 2);
    RunOneMoreRound(st, words, all, 3);
    SplitAt(all, 0, |all|);
  }

  /** `[(self.state[i] + state[i]) & WORD_MASK for i in range(4)]`. */
  function FeedForward(st: State, saved: State): (r: State)
    // the two states are added word by word, modulo 2^32
    ensures forall i :: 0 <= i < 4 ==> r[i] == st[i] + saved[i]
  {
    seq(4, i requires 0 <= i < 4 => MaskedAdd(st[i], saved[i]))
  }

  /** `[struct.unpack('<I', w)[0] for w in chunk(block, 4)]`. */
  function BlockWords(block: seq<Byte>): (words: seq<Word>)
    requires |block| == 64
    ensures |words| == 16
  {
    var pieces := Chunk(block, 4);
    ChunkFull(block, 4, 16);
    seq(16, i requires 0 <= i < 16 => UnpackU32(pieces[i]))
  }

  /** The sixteen words, packed back little-endian and concatenated, are the
      block. */
  lemma BlockWordsRoundTrip(block: seq<Byte>)
    requires |block| == 64
    ensures Flatten(seq(16, i requires 0 <= i < 16 => PackU32(BlockWords(block)[i]))) == block
  {
    var pieces := Chunk(block, 4);
    ChunkFull(block, 4, 16);
    var repacked := seq(16, i requires 0 <= i < 16 => PackU32(BlockWords(block)[i]));
    forall i | 0 <= i < 16
      ensures repacked[i] == pieces[i]
    {
      PackUnpackU32(pieces[i]);
    }
    assert repacked == pieces;
  }

  /** `_process_block(block)` as a function of the state before it: the
      48-step schedule over the block's words, then the feed-forward of the
      state saved before them. */
  function Compress(st: State, block: seq<Byte>): (r: State)
    requires |block| == 64
    ensures r == FeedForward(RunSteps(st, Schedule(BlockWords(block))), st)
  {
    RoundsAreSchedule(st, BlockWords(block));
    FeedForward(RunRounds(st, BlockWords(block), NUMBER_OF_ROUNDS), st)
  }

  /** Every block of a sequence is 64 bytes long. */
  predicate AllBlocks(blocks: seq<seq<Byte>>)
  {
    forall k :: 0 <= k < |blocks| ==> |blocks[k]| == 64
  }

  /** The state after compressing the blocks one after the other, from st. */
  function ProcessBlocks(st: State, blocks: seq<seq<Byte>>): State
    requires AllBlocks(blocks)
  {
    if blocks == [] then st
    else Compress(ProcessBlocks(st, blocks[..|blocks| - 1]), blocks[|blocks| - 1])
  }

  /** Compressing two runs of blocks in turn is compressing their
      concatenation: the running state is all that carries over. */
  lemma {:induction false} ProcessBlocksAppend(st: State, a: seq<seq<Byte>>, b: seq<seq<Byte>>)
    requires AllBlocks(a) && AllBlocks(b)
    ensures AllBlocks(a + b)
    ensures ProcessBlocks(st, a + b) == ProcessBlocks(ProcessBlocks(st, a), b)
    decreases |b|
  {
    if b != [] {
      var b' := b[..|b| - 1];
      assert (a + b)[..|a + b| - 1] == a + b';
      ProcessBlocksAppend(st, a, b');
    } else {
      assert a + b == a;
    }
  }

  /** `for b in blocks: self._process_block(b)`: the first block is
      compressed first, and the rest from the state it leaves. */
  lemma ProcessBlocksFirst(st: State, blocks: seq<seq<Byte>>)
    requires AllBlocks(blocks) && blocks != []
    ensures ProcessBlocks(st, blocks) == ProcessBlocks(Compress(st, blocks[0]), blocks[1..])
  {
    assert [blocks[0]] + blocks[1..] == blocks;
    ProcessBlocksAppend(st, [blocks[0]], blocks[1..]);
    assert [blocks[0]][..0] == [];
  }

  /** Compressing the first i + 1 blocks is compressing block i into the
      state the first i blocks leave. */
  lemma ProcessBlocksPrefix(st: State, blocks: seq<seq<Byte>>, i: nat)
    requires AllBlocks(blocks) && i < |blocks|
    ensures AllBlocks(blocks[..i]) && AllBlocks(blocks[..i + 1])
    ensures ProcessBlocks(st, blocks[..i + 1]) == Compress(ProcessBlocks(st, blocks[..i]), blocks[i])
  {
    assert blocks[..i + 1][..i] == blocks[..i];
  }

  /** `struct.pack('<IIII', *state)`: A, B, C and D, each little-endian. */
  function Serialize(st: State): (digest: seq<Byte>)
    ensures |digest| == 16
  {
    PackU32(st[0]) + PackU32(st[1]) + PackU32(st[2]) + PackU32(st[3])
  }

  /** The initial state packed is the byte sequence 01 23 45 67 89 ab cd ef
      fe dc ba 98 76 54 32 10, the register values of section 3.3 of
      RFC 1320. */
  lemma InitialStateBytes()
    ensures Serialize(INITIAL_STATE)
      == [0x01, 0x23, 0x45, 0x67, 0x89, 0xab, 0xcd, 0xef, 0xfe, 0xdc, 0xba, 0x98, 0x76, 0x54, 0x32, 0x10]
  {
  }

  /** Bytes 4i to 4i + 3 of the digest are word i, least significant first. */
  lemma SerializeWords(st: State, i: nat)
    requires i < 4
    ensures UnpackU32(Serialize(st)[4 * i .. 4 * i + 4]) == st[i]
  {
    assert Serialize(st)[4 * i .. 4 * i + 4] == PackU32(st[i]);
    UnpackPackU32(st[i]);
  }
}
