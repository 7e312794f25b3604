/** The hashing object `MD4`: a running four-word state and the message
    bytes collected so far. `update` appends bytes, `digest` pads the message
    in place, compresses every 64-byte block into the running state and
    serialises it. */
module Md4 {
  import opened Words
  import opened Bytes
  import opened Padding
  import opened Rounds

  /** `chunk(m, 64)` for a message that fills whole blocks. */
  function Blocks(m: seq<Byte>): (blocks: seq<seq<Byte>>)
    requires |m| % 64 == 0
    ensures AllBlocks(blocks) && |blocks| == |m| / 64
    // the blocks, in order, are the message
    ensures Flatten(blocks) == m
  {
    ChunkFull(m, 64, |m| / 64);
    Chunk(m, 64)
  }

  /** The digest a fresh `MD4()` gives after `update(m)`: the message with
      its padding, compressed block by block from the initial state. */
  function Md4(m: seq<Byte>): (r: Result<seq<Byte>>)
    ensures r.Ok? <==> 8 * |m| < U64_LIMIT
    ensures r.Ok? ==> |r.value| == 16
  {
    match PaddingFor(|m|)
    case Err(e) => Err(e)
    case Ok(p) =>
      PaddingShape(|m|);
      Ok(Serialize(ProcessBlocks(INITIAL_STATE, Blocks(m + p))))
  }

  /** The digest of a message whose bit length fits in 64 bits. */
  lemma Md4Ok(m: seq<Byte>)
    requires 8 * |m| < U64_LIMIT
    ensures PaddingFor(|m|).Ok? && (|m| + |PaddingFor(|m|).value|) % 64 == 0
    ensures Md4(m) == Ok(Serialize(ProcessBlocks(INITIAL_STATE, Blocks(m + PaddingFor(|m|).value))))
  {
    PaddingShape(|m|);
  }

  class MD4 {
    /** `[A, B, C, D]`. */
    var state: State
    /** Every byte given to `update` so far, plus any padding `digest` added. */
    var message: seq<Byte>

    /** `MD4()`: the initial state and an empty message. */
    constructor()
      ensures state == INITIAL_STATE && message == []
    {
      state := INITIAL_STATE;
      message := [];
    }

    /** `_get_padding()`: the padding for the current message length, or the
        error `struct.pack` raises when the bit length needs more than 64
        bits. */
    method GetPadding() returns (r: Result<seq<Byte>>)
      ensures r == PaddingFor(|message|)
    {
      var mlen := |message|;
      var count := (64 - 1 - 8 - mlen) % 64;
      assert count == ZeroCount(mlen);
      var lengthBytes := PackU64(8 * mlen);
      if lengthBytes.Err? {
        return Err(lengthBytes.error);
      }
      r := Ok([0x80] + Zeros(count) + lengthBytes.value);
    }

    /** `_pad()`: appends the padding, so the message fills whole blocks. On
        error nothing changes. */
    method Pad() returns (r: Result<()>)
      modifies this
      ensures state == old(state)
      ensures r.Ok? <==> 8 * |old(message)| < U64_LIMIT
      ensures r.Ok? ==> message == old(message) + PaddingFor(|old(message)|).value
      ensures r.Ok? ==> |message| % 64 == 0 && |message| > 0
      ensures r.Err? ==> message == old(message)
    {
      var padding := GetPadding();
      if padding.Err? {
        return Err(padding.error);
      }
      PaddingShape(|message|);
      message := message + padding.value;
      r := Ok(());
    }

    /** `update(message)`: appends bytes to the message; the state is only
        touched by `digest`. */
    method Update(input: seq<Byte>)
      modifies this
      ensures message == old(message) + input && state == old(state)
    {
      message := message + input;
    }

    /** `_round(round_number, value, s)`: one step of round r. */
    method Round(r: nat, value: Word, s: Word)
      requires r < NUMBER_OF_ROUNDS && s <= 32
      modifies this
      ensures state == StepState(old(state), r, value, s) && message == old(message)
    {
      StoreThenRotate(state, NewWord(state, r, value, s));
      state := state[0 := NewWord(state, r, value, s)];
      RightCircularShift(1);
    }

    /** `_right_circular_shift(s)`: rotates the state s places right. */
    method RightCircularShift(s: nat)
      modifies this
      ensures state == RotatedRight(old(state), s) && message == old(message)
    {
      if 0 < s <= 4 {
        state := state[4 - s..] + state[..4 - s];
      }
    }

    /** `for idx, s in zip(*ROUND_PARAMS[r]): self._round(r, words[idx], s)`:
        the sixteen steps of round r, in table order. */
    method RunRound(words: seq<Word>, r: nat)
      requires |words| == 16 && r < NUMBER_OF_ROUNDS
      modifies this
      ensures state == RunSteps(old(state), RoundSteps(words, r)) && message == old(message)
    {
      ghost var steps := RoundSteps(words, r);
      for i := 0 to 16
        invariant state == RunSteps(old(state), steps[..i])
        invariant message == old(message)
      {
        RunStepsPrefix(old(state), steps, i);
        Round(r, words[WordOrder(r)[i]], Shift(r, i));
      }
      assert steps[..16] == steps;
    }

    /** `_process_block(block)`: three rounds of sixteen steps over the
        block's words, then the state saved before them is added back. */
    method ProcessBlock(block: seq<Byte>)
      requires |block| == 64
      modifies this
      ensures state == Compress(old(state), block) && message == old(message)
    {
      var words := BlockWords(block);
      var saved := state;
      for r := 0 to NUMBER_OF_ROUNDS
        invariant state == RunRounds(saved, words, r)
        invariant message == old(message)
      {
        RunRound(words, r);
      }
      state := FeedForward(state, saved);
    }

    /** `for b in blocks: self._process_block(b)`: compresses the blocks
        into the running state, first to last. */
    method ProcessBlocksInOrder(blocks: seq<seq<Byte>>)
      requires AllBlocks(blocks)
      modifies this
      ensures state == ProcessBlocks(old(state), blocks) && message == old(message)
    {
      for i := 0 to |blocks|
        invariant state == ProcessBlocks(old(state), blocks[..i])
        invariant message == old(message)
      {
        ProcessBlocksPrefix(old(state), blocks, i);
        ProcessBlock(blocks[i]);
      }
      assert blocks[..|blocks|] == blocks;
    }

    /** `digest()`: pads the message in place, compresses its blocks in order
        into the running state, and returns the state as 16 bytes. The state
        is not reset, so a second call pads again and compresses every block
        once more from the state the first call left. */
    method Digest() returns (r: Result<seq<Byte>>)
      modifies this
      ensures r.Ok? <==> 8 * |old(message)| < U64_LIMIT
      ensures r.Err? ==> state == old(state) && message == old(message)
      ensures r.Ok? ==>
        && message == old(message) + PaddingFor(|old(message)|).value
        && |message| % 64 == 0
        && state == ProcessBlocks(old(state), Blocks(message))
        && r.value == Serialize(state)
    {
      var padded := Pad();
      if padded.Err? {
        return Err(padded.error);
      }
      ProcessBlocksInOrder(Blocks(message));
      r := Ok(Serialize(state));
    }

    /** `hexdigest()`: the digest as 32 lower-case hexadecimal digits, with
        the same effect on the object as `digest()`. */
    method HexDigest() returns (r: Result<string>)
      modifies this
      ensures r.Ok? <==> 8 * |old(message)| < U64_LIMIT
      ensures r.Err? ==> state == old(state) && message == old(message)
      ensures r.Ok? ==>
        && message == old(message) + PaddingFor(|old(message)|).value
        && |message| % 64 == 0
        && state == ProcessBlocks(old(state), Blocks(message))
        && r.value == Hex(Serialize(state))
        && |r.value| == 32
    {
      var d := Digest();
      if d.Err? {
        return Err(d.error);
      }
      r := Ok(Hex(d.value));
    }
  }

  /** `MD4()`, `update(m)`, `digest()`: the digest of m. */
  method HashOf(m: seq<Byte>) returns (r: Result<seq<Byte>>)
    ensures r == Md4(m)
  {
    var h := new MD4();
    h.Update(m);
    assert h.message == m;
    r := h.Digest();
    if r.Ok? {
      Md4Ok(m);
    }
  }

  /** Two calls of `update` hash the concatenation of their inputs. */
  method HashOfParts(a: seq<Byte>, b: seq<Byte>) returns (r: Result<seq<Byte>>)
    ensures r == Md4(a + b)
  {
    var h := new MD4();
    h.Update(a);
    h.Update(b);
    assert h.message == a + b;
    r := h.Digest();
    if r.Ok? {
      Md4Ok(a + b);
    }
  }

  /** The hexadecimal digest of m is 32 digits that read back as the digest. */
  method HexOf(m: seq<Byte>) returns (r: Result<string>)
    ensures r.Ok? <==> Md4(m).Ok?
    ensures r.Ok? ==> |r.value| == 32 && r.value == Hex(Md4(m).value)
    ensures r.Ok? ==> FromHex(r.value) == Md4(m).value
  {
    var h := new MD4();
    h.Update(m);
    assert h.message == m;
    r := h.HexDigest();
    if r.Ok? {
      Md4Ok(m);
      HexRoundTrip(Md4(m).value);
    }
  }
}
