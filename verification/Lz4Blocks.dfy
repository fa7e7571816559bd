/** lz4_state, for the block codec: the object behind the states of Lz4Block,
    updated in place. */
module Lz4Blocks {
  import opened Zu
  import opened Codecs
  import opened EncodeDriver
  import opened Lz4Format
  import opened Lz4Search
  import B = Lz4Block

  class Block {
    const lib: Lib
    const encoder: bool
    var level: int
    var input: seq<byte>
    var stage: seq<byte>
    var stagePos: nat
    var done: bool
    var maxOutput: uint64
    var hasExpected: bool
    var expected: uint64

    function Snap(): (s: B.State)
      reads this
    {
      B.State(input, stage, stagePos, done, level, maxOutput, hasExpected, expected)
    }

    ghost predicate Valid()
      reads this
    {
      stagePos <= |stage| && |input| <= MAX_INPUT
    }

    constructor (lib: Lib, encoder: bool, level: int, o: DecOpts)
      ensures Valid() && this.lib == lib && this.encoder == encoder
      ensures encoder ==> Snap() == B.FreshEnc(level)
      ensures !encoder ==> Snap() == B.FreshDec(o)
    {
      this.lib, this.encoder := lib, encoder;
      this.level := if encoder then level else 0;
      input, stage, stagePos, done := [], [], 0, false;
      maxOutput, hasExpected, expected := 0, false, 0;
      if !encoder {
        maxOutput, hasExpected, expected := o.maxOutput, o.hasExpected, o.expected;
      }
    }

    /** zu_int_lz4b_clear. */
    method Clear()
      modifies this
      ensures Valid() && Snap() == old(Snap()).(input := [], stage := [], pos := 0, done := false)
    {
      input, stage, stagePos, done := [], [], 0, false;
    }

    method ResetEncoder(level: int)
      modifies this
      ensures Valid() && Snap() == B.ResetEnc(old(Snap()), level)
    {
      if level != LEVEL_DEFAULT {
        this.level := level;
      }
      Clear();
    }

    method ResetDecoder(o: DecOpts)
      modifies this
      ensures Valid() && Snap() == B.ResetDec(old(Snap()), o)
    {
      maxOutput, hasExpected, expected := o.maxOutput, o.hasExpected, o.expected;
      Clear();
    }

    /** zu_int_lz4_drain: true once the stage is empty. */
    method Drain(buf: Buffer) returns (empty: bool)
      requires Valid() && buf.Valid()
      modifies this`stage, this`stagePos, buf`dstPos, buf.dst
      ensures Valid()
      ensures var r := B.Drain(old(Snap()), 0, old(buf.Room()));
              Snap() == r.next && empty == (r.status == StreamEnd) && buf.Advanced(0, r.out)
    {
      var pending, room := |stage| - stagePos, buf.dstSize - buf.dstPos;
      var n := if pending < room then pending else room;
      assert stage[stagePos..][..n] == stage[stagePos..stagePos + n];
      buf.Write(stage[stagePos..stagePos + n]);
      stagePos := stagePos + n;
      if stagePos == |stage| {
        stage, stagePos := [], 0;
        return true;
      }
      return false;
    }

    /** zu_int_lz4b_gather: appends what the caller offered. */
    method Gather(buf: Buffer) returns (st: Status)
      requires Valid() && buf.Valid()
      modifies this`input, buf`srcPos
      ensures Valid() && buf.Valid()
      ensures var w, fits := old(buf.Window()), B.Gathers(old(Snap()), old(buf.Window()));
              && st == (if fits then Ok else if encoder then ErrInvalidArgument else ErrInvalidData)
              && Snap() == (if fits then old(Snap()).(input := old(input) + w) else old(Snap()))
              && buf.Advanced(if fits then |w| else 0, [])
    {
      OverlayNothing(buf.dst[..], buf.dstPos);
      var avail := buf.AvailIn();
      if avail == 0 {
        assert input + buf.Window() == input;
        return Ok;
      }
      if |input| + avail > MAX_INPUT {
        return if encoder then ErrInvalidArgument else ErrInvalidData;
      }
      input := input + buf.Window();
      buf.srcPos := buf.srcPos + avail;
      return Ok;
    }

    /** The pass is over: its result is staged, the input freed. */
    method Stage(data: seq<byte>)
      modifies this
      ensures Valid() && Snap() == B.Staged(old(Snap()), data)
    {
      stage, stagePos, done, input := data, 0, true, [];
    }

    /** lz4b_encoder_process. */
    method EncoderProcess(buf: Buffer, f: Flush) returns (st: Status)
      requires Valid() && buf.Valid() && encoder
      modifies this, buf`srcPos, buf`dstPos, buf.dst
      ensures Valid()
      ensures var r := B.Encode(lib, old(Snap()), old(buf.Window()), old(buf.Room()), f);
              Snap() == r.next && st == r.status && buf.Advanced(r.used, r.out)
    {
      hide Overlay, CompressBound;
      OverlayNothing(buf.dst[..], buf.dstPos);
      if done {
        var empty := Drain(buf);
        return if empty then StreamEnd else NeedOutput;
      }
      if f != Finish {
        st := Gather(buf);
        return if st != Ok then st else NeedInput;
      }
      var availIn, availOut := buf.AvailIn(), buf.Room();
      if input == [] && availIn <= MAX_INPUT && availOut >= CompressBound(availIn) {
        var z := B.Compressed(lib, Snap(), buf.Window());
        if z == [] {
          return ErrInternal;
        }
        buf.Write(z);
        buf.srcPos := buf.srcPos + availIn;
        done := true;
        return StreamEnd;
      }
      st := EncodeStaged(buf);
    }

    /** The gathered block, through the stage. */
    method EncodeStaged(buf: Buffer) returns (st: Status)
      requires Valid() && buf.Valid() && encoder && !done
      requires !(input == [] && buf.AvailIn() <= MAX_INPUT && buf.Room() >= CompressBound(buf.AvailIn()))
      modifies this, buf`srcPos, buf`dstPos, buf.dst
      ensures Valid()
      ensures var r := B.Encode(lib, old(Snap()), old(buf.Window()), old(buf.Room()), Finish);
              Snap() == r.next && st == r.status && buf.Advanced(r.used, r.out)
    {
      hide Overlay, CompressBound;
      OverlayNothing(buf.dst[..], buf.dstPos);
      st := Gather(buf);
      if st != Ok {
        return;
      }
      if CompressBound(|input|) == 0 {
        return ErrInvalidArgument;
      }
      var z := B.Compressed(lib, Snap(), input);
      if z == [] {
        return ErrInternal;
      }
      Stage(z);
      var empty := Drain(buf);
      return if empty then StreamEnd else NeedOutput;
    }

    /** lz4b_decoder_process. */
    method DecoderProcess(buf: Buffer, f: Flush) returns (st: Status)
      requires Valid() && buf.Valid() && !encoder
      modifies this, buf`srcPos, buf`dstPos, buf.dst
      ensures Valid()
      ensures var r := B.Decode(lib, old(Snap()), old(buf.Window()), old(buf.Room()), f);
              Snap() == r.next && st == r.status && buf.Advanced(r.used, r.out)
    {
      hide Overlay, Sought;
      if done {
        var empty := Drain(buf);
        return if empty then StreamEnd else NeedOutput;
      }
      if f != Finish {
        st := Gather(buf);
        return if st != Ok then st else NeedInput;
      }
      if hasExpected {
        st := DecodeKnown(buf);
        return;
      }
      st := Gather(buf);
      if st != Ok {
        return;
      }
      if input == [] {
        return ErrInvalidData;
      }
      var got, why := FindSize(lib, input, maxOutput);
      if got == None {
        return why;
      }
      Stage(got.value);
      var empty := Drain(buf);
      return if empty then StreamEnd else NeedOutput;
    }

    /** With ZU_DEC_EXPECTED_SIZE. */
    method DecodeKnown(buf: Buffer) returns (st: Status)
      requires Valid() && buf.Valid() && !encoder && !done && hasExpected
      modifies this, buf`srcPos, buf`dstPos, buf.dst
      ensures Valid()
      ensures var r := B.DecodeExpected(lib, old(Snap()), old(buf.Window()), old(buf.Room()));
              Snap() == r.next && st == r.status && buf.Advanced(r.used, r.out)
    {
      hide Overlay;
      OverlayNothing(buf.dst[..], buf.dstPos);
      if maxOutput != 0 && expected > maxOutput {
        return ErrOutputLimit;
      }
      if expected > INT_MAX {
        return ErrInvalidData;
      }
      var want, availIn, availOut := expected, buf.AvailIn(), buf.Room();
      if input == [] && availOut >= want {
        if availIn == 0 || availIn > MAX_INPUT {
          return ErrInvalidData;
        }
        var r := lib.safe(buf.Window(), want);
        if r == None || |r.value| != want {
          return ErrInvalidData;
        }
        buf.Write(r.value);
        buf.srcPos := buf.srcPos + availIn;
        done := true;
        return StreamEnd;
      }
      st := Gather(buf);
      if st != Ok {
        return;
      }
      if input == [] {
        return ErrInvalidData;
      }
      var r := lib.safe(input, want);
      if r == None || |r.value| != want {
        return ErrInvalidData;
      }
      Stage(r.value);
      var empty := Drain(buf);
      return if empty then StreamEnd else NeedOutput;
    }
  }
}
