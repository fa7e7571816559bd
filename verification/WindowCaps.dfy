/** Where zstd's window ceiling shows. zukomp sets libzstd's from max_output;
    libzstd looks at it when it reads a frame in pieces, and not when it can
    decode a frame in a single pass. */
module WindowCaps {
  import opened Zu
  import opened Codecs
  import opened Driver
  import F = Frames
  import S = FramedStreams
  import opened ByteFrames
  import opened RawFrames

  /** The limits let `n` bytes through, into that room. */
  predicate Lets(opts: DecOpts, n: nat, room: nat) {
    n <= room && (opts.maxOutput == 0 || n <= opts.maxOutput) && !opts.hasExpected && opts.maxRatio == 0
  }

  /** One byte of a frame, and it is waiting for more. */
  lemma FirstByte(s: F.State<St>, b: byte, room: nat)
    requires s.place == F.Body && s.owed == None && s.d == BLANK && b == F.Magic(F.ZstdFrames)[0]
    ensures F.Process(RawLib, s, [b], room, Run) == Reply(s.(d := Head([b])), 1, [], NeedInput)
  {
    var lim, none: seq<byte> := Some(s.maxOutput), [];
    assert [b][1..] == none && none + [b] == [b] && none + none == none;
    assert Eat(lim, BLANK, b) == Bite(Head([b]), [], false);
    hide Eat;
    StreamNothing(Limited(lim), Head([b]), room);
    assert Stream(Limited(lim), BLANK, [b], room) == F.LibTurn(Head([b]), 1, [], F.More);
    hide Stream, Limited;
    var i := F.OneTurn(RawLib, s, [b], room, Run);
    assert i == Go(s.(d := Head([b])), 1, []);
    assert F.OneTurn(RawLib, i.next, none, room, Run) == Stop(Reply(i.next, 0, [], NeedInput));
  }

  /** The frame in one piece: a single pass, whatever its window. */
  lemma OnePiece(s: F.State<St>, data: seq<byte>, wd: byte, room: nat)
    requires |data| < TWO32 && |data| <= room && s.place == F.Body && s.owed == None && s.d == BLANK && s.held == []
    ensures var z, r := SizedFrame(data, wd), F.Process(RawLib, s, SizedFrame(data, wd), room, Finish);
            r.status == StreamEnd && r.used == |z| && r.out == data
  {
    var z, none: seq<byte> := SizedFrame(data, wd), [];
    SizedRead(None, data, wd, none);
    assert z + none == z && z[|z|..] == none && data + none == data;
    hide Read, SizedFrame, F.IsPrefix;
    var i := F.OneTurn(RawLib, s, z, room, Finish);
    assert i == Go(s.(place := F.Between), |z|, data);
    assert F.OneTurn(RawLib, i.next, none, room - |data|, Finish).Stop?;
  }

  /** The same frame with its first byte gone: it goes on as it would, */
  lemma RestOfFrame(m: uint64, data: seq<byte>, wd: byte)
    requires |data| < TWO32
    ensures var z := SizedFrame(data, wd);
            && |z| > 1 && z[0] == F.Magic(F.ZstdFrames)[0]
            && Read(Some(m), Head([z[0]]), z[1..]) ==
               if F.Admitted(F.ZstdFrames, m, Window(wd)) then F.WholeFrame(data, |z| - 1) else F.BadFrame([], {Refusal(Some(m))})
  {
    hide Window;
    var z, none: seq<byte> := SizedFrame(data, wd), [];
    SizedRead(Some(m), data, wd, none);
    assert z + none == z && z[0] == z[..4][0] && [] + [z[0]] == [z[0]];
    assert Eat(Some(m), BLANK, z[0]) == Bite(Head([z[0]]), [], false);
    assert Read(Some(m), BLANK, z) == F.PrependFrame([], 1, Read(Some(m), Head([z[0]]), z[1..]));
    hide Read;
  }

  /** An honest codec, given room for all that is to come and told that nothing
      more is, ends a complete stream. */
  lemma CompleteEnds<T>(sem: Sem<T>, pol: Policy, o: Outcome, r: Reply<T>, w: seq<byte>, room: nat)
    requires ReplyOk(sem, pol, o, r, w, [], room, Finish) && pol.honest
    requires o.Complete? && o.after == [] && o.used == |w| && |o.out| <= room
    ensures r.status == StreamEnd && r.used == |w| && r.out == o.out
  {
  }

  /** and comes to its end, if its window is admitted, */
  lemma RestDecodes(s: F.State<St>, data: seq<byte>, wd: byte, room: nat)
    requires |data| < TWO32 && |data| <= room && s.place == F.Body && s.owed == None && s.held == [] && s.kind == F.ZstdFrames
    requires s.d == Head([SizedFrame(data, wd)[0]]) && F.Admitted(F.ZstdFrames, s.maxOutput, Window(wd))
    ensures var z := SizedFrame(data, wd);
            var r := F.Process(RawLib, s, z[1..], room, Finish);
            r.status == StreamEnd && r.used == |z| - 1 && r.out == data
  {
    hide *;
    RestOfFrame(s.maxOutput, data, wd);
    var w, none: seq<byte> := SizedFrame(data, wd)[1..], [];
    assert w + none == w;
    RestMeans(s, data, wd);
    RawLibKeeps();
    HeadMayAsk(s, w);
    F.ProcessOk(RawLib, RawSem, s, w, none, room, Finish);
    CompleteEnds(F.FramedSem(RawLib, RawSem, s.kind, F.OptsOf(s)), F.FramedPolicy(s.kind, s.concat, s.reject),
                 F.Rest(RawLib, RawSem, s, w), F.Process(RawLib, s, w, room, Finish), w, room) by {
      Honest(s.kind, s.concat, s.reject);
    }
  }

  lemma Honest(kind: F.Kind, concat: bool, reject: bool)
    ensures F.FramedPolicy(kind, concat, reject).honest
  {
  }

  lemma HeadMayAsk(s: F.State<St>, w: seq<byte>)
    requires s.place == F.Body && s.owed == None && s.held == [] && !F.Rest(RawLib, RawSem, s, w).Open?
    ensures F.Inv(RawLib, RawSem, s.kind, F.OptsOf(s), s) && F.MayAsk(RawLib, RawSem, s, w, [], Finish)
  {
    hide F.Rest;
    assert w + [] == w;
  }

  lemma RestMeans(s: F.State<St>, data: seq<byte>, wd: byte)
    requires |data| < TWO32 && s.place == F.Body && s.owed == None && s.held == []
    requires s.d == Head([SizedFrame(data, wd)[0]]) && F.Admitted(F.ZstdFrames, s.maxOutput, Window(wd))
    ensures var w := SizedFrame(data, wd)[1..];
            F.Rest(RawLib, RawSem, s, w) == Complete(data, |w|, [])
  {
    var w := SizedFrame(data, wd)[1..];
    assert w[|w|..] == [] && data + [] == data;
    RestOfFrame(s.maxOutput, data, wd);
    F.BodyRest(RawLib, RawSem, s, w);
    EndsBetween(s.(place := F.Between, d := BLANK));
    hide F.Rest, Read, SizedFrame, Window;
  }

  lemma EndsBetween(s: F.State<St>)
    requires s.place == F.Between && s.owed == None && s.held == []
    ensures F.Rest(RawLib, RawSem, s, []) == Complete([], 0, [])
  {
  }

  /** and is refused there, if it is not. */
  lemma RestIsRefused(s: F.State<St>, data: seq<byte>, wd: byte, room: nat)
    requires |data| < TWO32 && s.place == F.Body && s.owed == None && s.d == Head([SizedFrame(data, wd)[0]])
    requires !F.Admitted(F.ZstdFrames, s.maxOutput, Window(wd))
    ensures var r := F.Process(RawLib, s, SizedFrame(data, wd)[1..], room, Finish);
            r.status == Refusal(Some(s.maxOutput)) && r.used == 0 && r.out == []
  {
    var w := SizedFrame(data, wd)[1..];
    RestOfFrame(s.maxOutput, data, wd);
    hide SizedFrame, Window;
    LimitedIsSound(Some(s.maxOutput));
    BadStops(Limited(Some(s.maxOutput)), s.d, w, room, Refusal(Some(s.maxOutput)));
    hide Read, Stream, Limited;
  }

  /** Windows show where the ceiling is passed, and nowhere else: a frame that
      says how long it is and how large its window. Read in one piece, with
      room, it is decoded, whatever its window and however low max_output; read
      a byte first and then the rest, it is decoded if and only if its window
      is within the ceiling, and otherwise refused before any output. */
  lemma OverTheCeiling(data: seq<byte>, wd: byte, opts: DecOpts, room: nat)
    requires |data| < TWO32 && Lets(opts, |data|, room)
    ensures InWindow(F.FramedCodec(RawLib, F.ZstdFrames))
    ensures var z := SizedFrame(data, wd);
            var whole := S.Run(RawLib, F.ZstdFrames, opts, z, [Slot(0, room, Finish)]);
            var twice := S.Run(RawLib, F.ZstdFrames, opts, z, [Slot(1, room, Run), Slot(0, room, Finish)]);
            && whole.status == StreamEnd && whole.out == data
            && if F.Admitted(F.ZstdFrames, opts.maxOutput, Window(wd)) then twice.status == StreamEnd && twice.out == data
               else twice.status == (if opts.maxOutput != 0 then ErrOutputLimit else ErrUnsupported) && twice.out == []
  {
    RawLibKeeps();
    F.FramedKeeps(RawLib, RawSem, F.ZstdFrames, opts);
    InOnePiece(data, wd, opts, room);
    InTwoPieces(data, wd, opts, room);
  }

  lemma InOnePiece(data: seq<byte>, wd: byte, opts: DecOpts, room: nat)
    requires |data| < TWO32 && Lets(opts, |data|, room) && InWindow(F.FramedCodec(RawLib, F.ZstdFrames))
    ensures var whole := S.Run(RawLib, F.ZstdFrames, opts, SizedFrame(data, wd), [Slot(0, room, Finish)]);
            whole.status == StreamEnd && whole.out == data
  {
    var z, s := SizedFrame(data, wd), S.New(RawLib, F.ZstdFrames, opts);
    var d := Driver.Fresh(s, opts);
    assert z[..|z|] == z;
    OnePiece(s, data, wd, Allowance(d, room));
    hide F.Process, InWindow, SizedFrame;
    assert Offer(F.FramedCodec(RawLib, F.ZstdFrames), d, z, Slot(0, room, Finish)).status == StreamEnd;
  }

  lemma InTwoPieces(data: seq<byte>, wd: byte, opts: DecOpts, room: nat)
    requires |data| < TWO32 && Lets(opts, |data|, room) && InWindow(F.FramedCodec(RawLib, F.ZstdFrames))
    ensures var twice := S.Run(RawLib, F.ZstdFrames, opts, SizedFrame(data, wd), [Slot(1, room, Run), Slot(0, room, Finish)]);
            if F.Admitted(F.ZstdFrames, opts.maxOutput, Window(wd)) then twice.status == StreamEnd && twice.out == data
            else twice.status == (if opts.maxOutput != 0 then ErrOutputLimit else ErrUnsupported) && twice.out == []
  {
    hide F.FramedCodec, Offer, RunAll, InWindow, SizedFrame, Window, F.Admitted;
    var z, s, c := SizedFrame(data, wd), S.New(RawLib, F.ZstdFrames, opts), F.FramedCodec(RawLib, F.ZstdFrames);
    var d, first, last := Driver.Fresh(s, opts), Slot(1, room, Run), Slot(0, room, Finish);
    FirstPiece(data, wd, opts, room);
    SecondPiece(data, wd, opts, room, Offer(c, d, z, first).next);
    TwoSlots(c, d, z, first, last);
  }

  lemma FirstPiece(data: seq<byte>, wd: byte, opts: DecOpts, room: nat)
    requires |data| < TWO32 && Lets(opts, |data|, room) && InWindow(F.FramedCodec(RawLib, F.ZstdFrames))
    ensures var z, s := SizedFrame(data, wd), S.New(RawLib, F.ZstdFrames, opts);
            var d := Driver.Fresh(s, opts);
            var r := Offer(F.FramedCodec(RawLib, F.ZstdFrames), d, z, Slot(1, room, Run));
            && |z| > 1 && r.status == NeedInput && r.used == 1 && r.out == []
            && r.next == d.(s := s.(d := Head([z[0]])), totalIn := 1)
  {
    hide F.Process, InWindow, SizedFrame, Window;
    var z, s := SizedFrame(data, wd), S.New(RawLib, F.ZstdFrames, opts);
    RestOfFrame(opts.maxOutput, data, wd);
    assert z[..1] == [z[0]];
    FirstByte(s, z[0], Allowance(Driver.Fresh(s, opts), room));
  }

  lemma SecondPiece(data: seq<byte>, wd: byte, opts: DecOpts, room: nat, d: Handle<F.State<St>>)
    requires |data| < TWO32 && Lets(opts, |data|, room) && InWindow(F.FramedCodec(RawLib, F.ZstdFrames))
    requires var z, s := SizedFrame(data, wd), S.New(RawLib, F.ZstdFrames, opts);
             |z| > 1 && d == Driver.Fresh(s, opts).(s := s.(d := Head([z[0]])), totalIn := 1)
    ensures var q := Offer(F.FramedCodec(RawLib, F.ZstdFrames), d, SizedFrame(data, wd)[1..], Slot(0, room, Finish));
            if F.Admitted(F.ZstdFrames, opts.maxOutput, Window(wd)) then q.status == StreamEnd && q.out == data
            else q.status == (if opts.maxOutput != 0 then ErrOutputLimit else ErrUnsupported) && q.out == []
  {
    hide *;
    if F.Admitted(F.ZstdFrames, opts.maxOutput, Window(wd)) {
      AdmittedPiece(data, wd, opts, room, d);
    } else {
      RefusedPiece(data, wd, opts, room, d);
    }
  }

  lemma AdmittedPiece(data: seq<byte>, wd: byte, opts: DecOpts, room: nat, d: Handle<F.State<St>>)
    requires |data| < TWO32 && Lets(opts, |data|, room) && InWindow(F.FramedCodec(RawLib, F.ZstdFrames))
    requires var z, s := SizedFrame(data, wd), S.New(RawLib, F.ZstdFrames, opts);
             |z| > 1 && d == Driver.Fresh(s, opts).(s := s.(d := Head([z[0]])), totalIn := 1)
    requires F.Admitted(F.ZstdFrames, opts.maxOutput, Window(wd))
    ensures var q := Offer(F.FramedCodec(RawLib, F.ZstdFrames), d, SizedFrame(data, wd)[1..], Slot(0, room, Finish));
            q.status == StreamEnd && q.out == data
  {
    hide F.Process, InWindow, SizedFrame, Window, F.Admitted;
    var w := SizedFrame(data, wd)[1..];
    assert w[..|w|] == w;
    RestDecodes(d.s, data, wd, Allowance(d, room));
  }

  lemma RefusedPiece(data: seq<byte>, wd: byte, opts: DecOpts, room: nat, d: Handle<F.State<St>>)
    requires |data| < TWO32 && Lets(opts, |data|, room) && InWindow(F.FramedCodec(RawLib, F.ZstdFrames))
    requires var z, s := SizedFrame(data, wd), S.New(RawLib, F.ZstdFrames, opts);
             |z| > 1 && d == Driver.Fresh(s, opts).(s := s.(d := Head([z[0]])), totalIn := 1)
    requires !F.Admitted(F.ZstdFrames, opts.maxOutput, Window(wd))
    ensures var q := Offer(F.FramedCodec(RawLib, F.ZstdFrames), d, SizedFrame(data, wd)[1..], Slot(0, room, Finish));
            q.status == (if opts.maxOutput != 0 then ErrOutputLimit else ErrUnsupported) && q.out == []
  {
    hide F.Process, InWindow, SizedFrame, Window, F.Admitted;
    var w := SizedFrame(data, wd)[1..];
    assert w[..|w|] == w;
    RestIsRefused(d.s, data, wd, Allowance(d, room));
  }
}
