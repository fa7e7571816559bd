# zukomp: a verified model

zukomp drives vendored compressors (miniz, libzstd, liblz4) through resumable
state machines of its own. A stream arrives in arbitrary input windows, leaves
through arbitrary output windows, and the result must not depend on where
either falls. This project models those machines in Dafny and proves that it
does not, and where it does.

## How it is built

* A codec is a value: a `process` function from state, window, room and flush
  to a reply (`Codec.dfy`). Its contract is stated against a residual
  semantics `res(s, rest)`: what a stream in state `s` amounts to when exactly
  `rest` is still to come. Each call sees a prefix of `rest`, so a codec that
  keeps the contract cannot let its answer depend on windows. An honest codec
  asks for room only when a byte really is pending. What a codec asks of its
  callers in turn (FINISH to the end once said, at most 2^31-1 bytes with it,
  no endless idle calls) is named in its policy, and run theorems are about
  callers who mind it, which is shown of the loops of this package.
* The driver (`Driver.dfy`, `EncodeDriver.dfy`) and the drive loops
  (`Whole.dfy`) are proved over any codec, then over any codec that keeps the
  contract.
* The wrapper and frame machines (`DeflateDecoder.dfy`, `DeflateEncoder.dfy`,
  `Frames.dfy`, `FrameEncoders.dfy`, `ZstdEncoder.dfy`, `Lz4Block.dfy`) are given one turn of
  their loop at a time and proved to keep it. Objects updated in place
  (`Inflater.dfy`, `Deflater.dfy`, `Framer.dfy`, `FrameWriters.dfy`,
  `Lz4Blocks.dfy`, `GzipHeader.Parser`, `Driver.Decoder`, `Sizes.Sink`,
  `Window.Inflator`, `Registry.Table`) compute the same steps in the caller's
  buffer.
* The engines behind them are contracts, with a value for inputs on which the
  vendored code itself lets windows show (`Open`, `OpenFrame`), and each is met
  by a small real one: `mz_inflate` over stored-block tinfl (`MzInflate.dfy`,
  `StoredBlocks.dfy`, `GzipWitness.dfy`), raw-block zstd with window
  descriptors and the single pass (`RawFrames.dfy`, `RawCompressors.dfy`),
  raw-block LZ4 frames (`RawLz4Frames.dfy`), LZ4 blocks with the end-of-block
  checks (`Lz4Format.dfy`).
* Whole-buffer decoders stand beside the streaming ones as an independent
  reading: `Rfc1952.dfy` for gzip and zlib, `FramedStreams.dfy` for frames.

Bytes and sizes are bounded integers; wrap-around of the 64-bit counters and
the 31-bit clamp before miniz are written out. `size_t` is 64 bits wide.

## Where the code is weaker than its prose

* A wrong first FHCRC byte is noticed only with the second
  (`GzipHeader.SwallowedIsViable`, if and only if).
* mz_inflate drops what it has decoded and has no room for when it fails, and
  it fails when FINISH is said of a cut body: the bytes of a cut DEFLATE body
  all come out exactly when the room of that one call suffices
  (`DeflateCuts.CutBodyCall`, `CutRunDelivers`; `CutBodyLosesBytes` at an
  input). A complete stream loses nothing.
* RUN after FINISH is an error for the DEFLATE decoders, so their run theorems
  are about callers that stay with FINISH (`GzipRoundTrip.Minds`;
  `DeflateFinish.RefusedExactlyIfLate`, exactly when, and
  `RunAfterFinishRefuses` at an input).
* RUN or FLUSH after a FINISH that found too little room can end a zstd frame
  unseen: libzstd flushes it out and starts over, the encoder asks for more
  input, and the next FINISH adds a frame of nothing
  (`ZstdEncoder.OneFrameIsExact`, exactly when;
  `RawCompressors.RunAfterFinishSplits` at an input). Read with concatenation
  the payload is the same.
* The clamp to 31 bits is passed to miniz with FINISH as if it were all the
  input. An encoder offered more takes 2^31-1 bytes and ends with STREAM_END
  (`GzipRoundTrip.ModerateIsExact`, exactly when;
  `GzipWitness.OneShotStopsAtTheClamp`: OK, with input unread); a decoder
  refuses a good stream (`DeflateCuts.LongInputIsRefused`).
* FLUSH to a DEFLATE encoder fills whatever room it is given
  (`DeflateEncoder.FlushFillsTheRoom`), so its answer does not tell whether
  there was room for the flush; `DeflateFlush.FlushReads` says when there was.
* The window ceiling that zukomp sets from max_output shows in windows: a frame
  over it is decoded in one piece and refused in two
  (`WindowCaps.OverTheCeiling`, exactly when).
* libzstd fails the sixteenth call in a row that moves nothing, and a decoder
  call may make two (`Frames.PATIENCE`).
* A stream short of the expected size, followed by a lone piece of magic that
  a probe may hold, is TRAILING or INVALID_DATA according to the windows
  (`FramedStreams.WhereWindowsShow` and `FramedLimits`; for gzip
  `DeflateLimits.DecodeUnderLimits`).
* The DEFLATE family may be over the limit with output of exactly the
  ceiling's size, and at no other size (`DeflateLimits`).
* A block that does not end as the LZ4 format says it should can be decoded
  into plenty of room and refused into just enough; such a block is not found
  under a max_output, nor accepted with an expected size, of exactly its
  output (`Lz4Format.ExactRoom`, if and only if; `Lz4Block.TightBlock` at an
  input).
* lz4-block encodes inputs whose block its decoder refuses as too long
  (`Lz4Block.BlockRoundTrip`, exactly when; `LongestInputIsRefused`), and an
  oversize block under a contradictory limit is refused for either reason
  (`Lz4Block.OversizeUnderContradiction`).
* Errors made of a stream's end are not sticky
  (`Driver.EndErrorsAreNotSticky`); runs are therefore stated up to the first
  terminal status, as inst/include/zukomp.h:325 prescribes.
* For zlib, raw DEFLATE and with concatenation off, trailing bytes are seen
  only in the current window (the `exact` field of a `Policy`;
  `DeflateLimits.TrailingHasToBeSeen`).
* Two codecs with equally long matching magics are told apart by registration
  order (`Registry.EqualMagicsDependOnOrder`).
* The comment at src/zu_whole.c:227-238 is out of date: FINISH comes with the
  final bytes. The run theorems cover FINISH with the last bytes or after them.

## Model

| member | source | states |
|---|---|---|
| Driver.LimitsHold | src/zu_stream.c:309-399 | Of any codec that keeps its cursors inside its window: no call, whatever was answered before, takes total_out past max_output or past the expected size. |
| Driver.RunWithinLimits | src/zu_stream.c:285-420 | The same over whole runs: what is delivered in all is within both limits. |
| Driver.RatioIsExact | src/zu_stream.c:401-417 | The 64-bit ratio test with its two overflow guards is exactly total_out > total_in * max_ratio over the integers. |
| Driver.Decoder.Process | src/zu_stream.c:285-420 | The handle, updated in place, makes the modelled call; the caller's buffer size comes back unchanged, cursors move by exactly what was used and written, no other byte of the destination changes; a bad buffer changes nothing. |
| Driver.RunVerdict | src/zu_stream.c:285-420 | Main theorem: a run of a codec that keeps its contract, in any windows the codec's asks allow, ends in a status read off the whole input's outcome and delivers exactly its bytes up to the ceiling, of a corrupt one a prefix of what is good; the ratio error comes exactly over the ratio (a run that ends well is within it, one it stops is not); a run not ended has delivered a prefix. |
| Driver.FreshRunVerdict | src/zu_stream.c:249-283 | The same from a new handle. |
| Driver.LimitsAreTransparent | src/zu_stream.c:309-399 | If an unlimited run ends well, every limited run, in other windows, delivers the same bytes and end when they are within the ceiling, and otherwise exactly the ceiling's worth and the ceiling's own status. |
| Driver.PastALimit | src/zu_stream.c:309-399 | An output past a limit ends over the tighter of the two: INVALID_DATA if and only if an expected size is set that is no larger than a set max_output, otherwise OUTPUT_LIMIT, with exactly the tighter one's worth delivered; an output past neither is delivered whole. |
| Driver.EndErrorsAreNotSticky | src/zu_stream.c:298-304 | After an error the driver made of a stream's own end (size, trailing, ratio), the next call on an empty window answers STREAM_END. |
| Driver.EndedAnswers | src/zu_stream.c:298-304 | After the end nothing moves: TRAILING if and only if bytes are offered and trailing ones refused, else STREAM_END. |
| Driver.UnflushableAnswers | src/zu_stream.c:305-308 | FLUSH of a decoder that has none is UNSUPPORTED, and nothing moves. |
| Driver.UsedUpAnswers | src/zu_stream.c:380-392 | With a limit used up a call writes nothing, and if it leaves input over and does not end the stream it is over the limit: INVALID_DATA if an expected size is set that is no larger than a set max_output, else OUTPUT_LIMIT. |
| Driver.RatioAnswers | src/zu_stream.c:401-417 | The driver answers RATIO_LIMIT of its own only for a call after which total_out > total_in * max_ratio, and never in place of a codec's own OUTPUT_LIMIT. |
| Driver.Decoder.Reset | src/zu_stream.c:422-452 | Reset leaves the handle Driver.ResetHandle describes, at the resolved options, counters and budgets included; without a codec reset it changes nothing. |
| Driver.ResetIsNew | src/zu_stream.c:422-452 | After any run, mid-stream, ended or in error, a reset handle is the new handle at the resolved options, and every later run of it is that of a new one: for every codec that resets clean. |
| Driver.SteadyIsProper | src/zu_stream.c:285-308 | Callers that say FINISH to the end once they have said it mind everything a patient codec asks, on inputs within its span. |
| EncodeDriver.EncodeAllWhole | src/zu_stream.c:153-180 | Main theorem: a run of an encoder that keeps its contract, in any windows, ends only when all the input is taken and all that it becomes is put out. |
| EncodeDriver.Encoder.Process | src/zu_stream.c:153-180 | The encoder handle, updated in place, makes the modelled call. |
| EncodeDriver.Encoder.Reset | src/zu_stream.c:182-215 | A refused level or a missing codec reset changes nothing; otherwise the handle has the codec's reset state at the resolved level. |
| EncodeDriver.EncodeAnswers | src/zu_stream.c:153-180 | After the end an encoder refuses more input with INVALID_ARGUMENT, and without any says STREAM_END; FLUSH of one that has none is UNSUPPORTED; in both cases nothing moves. |
| EncodeDriver.FlushedShows | src/zu_stream.c:153-180 | Main theorem, FLUSH: after any run, in any windows, a FLUSH answered by asking for input has put out what shows every byte taken so far, for an encoder of whose calls that is proved. |
| EncodeDriver.EncResetIsNew | src/zu_stream.c:182-215 | After any run a reset encoder is the new encoder at the level given, or else at the one it had, and every later run of it is that of a new one. |
| EncodeDriver.EnoughRoomEnds | src/zu_stream.c:153-180 | Main theorem, liveness: told to finish, with more room in all than the output can still take, an encoder that never fails ends, all input taken and all output out. |
| EncodeDriver.FinishFillsOrEnds | src/zu_stream.c:153-180 | Told to finish, such an encoder fills all the room it is given, or ends. |
| Whole.OneShotVerdict | src/zu_stream.c:491-544 | One-shot: OK only with the whole output, of the expected size if one is given; output past the buffer below any ceiling is OUTPUT_LIMIT with the buffer full; everything else ends as the outcome says. |
| Whole.OneShot | src/zu_stream.c:491-544 | The loop ends for any codec that keeps its cursors, and computes the modelled answer into the fixed buffer. |
| Whole.RunWhole | src/zu_whole.c:153-287 | The chunked loop ends, having made exactly the calls its chunk sizes prescribe, each where the ones before it led, and its answer is theirs; ZU_ERR_MEMORY of its own comes only when contents and one more chunk pass SIZE_MAX; contents never pass the ceiling. For a codec that keeps its contract the result is read off the outcome whenever output and chunk fit SIZE_MAX, so that neither chunk size shows; and under a ceiling it ends on any input at all, if the codec asks only for what it has used up. |
| Whole.NextSlotIs | src/zu_whole.c:212-287 | Those calls: no window longer than a chunk or past the end of its slice, FINISH exactly with the last bytes, FLUSH with every flush_every-th call before that. |
| Whole.RunsAgree | src/zu_whole.c:212-287 | Two runs over the same input that ends or stops short, one-shot or in any chunks, deliver the same bytes and status, and consume the same count when the codec never reads past the end. |
| Whole.CallMoves | src/zu_whole.c:239-265 | Each call of that loop moves a cursor or ends the run, which is why it ends. |
| Sizes.Add | src/zu_buf.c:11-20 | Refuses exactly the sums that do not fit, without wrapping. |
| Sizes.Mul | src/zu_buf.c:23-32 | The division guard refuses exactly the products that do not fit. |
| Sizes.Grow | src/zu_buf.c:48-75 | Room for the request and a doubling when there is one, and no more than the largest of the request, the doubling and 4096; refuses exactly when the request does not fit. |
| Sizes.SupersededIsLinear | src/zu_whole.c:82-124 | While capacities stay within SIZE_MAX/2, all superseded buffers together are no larger than the last one. |
| Sizes.Sink.Reserve | src/zu_whole.c:82-124 | Room for the request with the contents kept, or an error exactly when the size does not exist and nothing changed. |
| Bytewise.BytewiseKeeps | src/codec_identity.c:48-83 | identity and xor5a are honest codecs with no tail, and their resets leave nothing behind: the driver theorems apply to them. |
| Bytewise.XorRoundTrip | tools/zukomptest/src/codec_xor.c:40-64 | xor5a in any windows, then again in any others, gives the input back. |
| Bytewise.XorInvolution | tools/zukomptest/src/codec_xor.c:40-64 | b ^ 0x5A twice is b. |
| Bytewise.XorIsBitwise | tools/zukomptest/src/codec_xor.c:40-64 | The byte transform is the exclusive or with 0x5A, bit by bit, for each of the 256 bytes. |
| Bytewise.IdentityProcess | src/codec_identity.c:48-83 | The copy in the caller's buffer is the modelled step. |
| Bytewise.Xor5AProcess | tools/zukomptest/src/codec_xor.c:40-64 | The byte loop in the caller's buffer is the modelled step. |
| Checksum.Crc32Append | src/codec_deflate.c:139-153 | CRC-32 over pieces is CRC-32 over the whole. |
| Checksum.Adler32Append | src/codec_deflate.c:139-153 | Adler-32 over pieces is Adler-32 over the whole. |
| Checksum.Crc32CheckValue | src/codec_deflate.c:139-153 | CRC-32 of "123456789" is 0xCBF43926. |
| Checksum.Adler32IsSums | src/codec_deflate.c:139-153 | Adler-32 is the two sums of section 8.2 of RFC 1950 modulo 65521, for every byte string. |
| Checksum.FieldsAreUnique | src/codec_deflate.c:616-662 | A four-byte field is determined by the number it reads as, so a trailer is accepted for one byte string only. |
| Checksum.FieldsArePositional | src/codec_deflate.c:585-662 | Gzip's fields are read least significant byte first, zlib's most significant byte first. |
| GzipHeader.PrintIsAccepted | src/zu_gzip.c:62-175 | A header printed with any combination of optional fields, FHCRC included, is accepted by the byte-at-a-time parser, which reports done exactly at its end. |
| GzipHeader.AcceptedIsPrint | src/zu_gzip.c:62-175 | Whatever the parser accepts is a printed header of section 2.3 of RFC 1952 with every field within 65535 bytes. |
| GzipHeader.SwallowedIsViable | src/zu_gzip.c:151-164 | Bytes taken without complaint begin some header if and only if no wrong first FHCRC byte is among them: that byte is noticed one late. |
| GzipHeader.RefusedIsNotViable | src/zu_gzip.c:62-175 | Bytes the parser refuses begin no header. |
| GzipHeader.HeadersArePrefixFree | src/zu_gzip.c:62-175 | No accepted header is a proper prefix of another. |
| GzipHeader.FeedKeepsWf | src/zu_gzip.c:51-175 | Parser positions never leave their arrays. |
| GzipHeader.Parser.FeedByte | src/zu_gzip.c:62-175 | The parser object, updated in place, makes the modelled step. |
| GzipHeader.WrittenIsPrint | src/zu_gzip.c:34-49 | The header the encoder writes is the printed header with no options, no time and system 255, so its own decoder accepts it. |
| DeflateDecoder.ProcessOk | src/codec_deflate.c:319-664 | Chunk independence of one call: whatever the window, room and flush, it is a step of the stream the whole remaining input amounts to, or ends as that stream ends; FINISH, once the engine has been told it, is what is asked of every later call. |
| MzInflate.MzKeeps | src/vendor/miniz/miniz.c:439-546 | mz_inflate() keeps the contract the codec assumes of its engine, given only that tinfl_decompress() does not let its answer depend on windows: dictionary, loop, the out-of-input answer without MZ_FINISH and the failure with it, and RUN refused after FINISH. |
| MzInflate.DictDrains | src/vendor/miniz/miniz.c:497-507 | While its dictionary holds output a call only drains it, as a step of the stream. |
| MzInflate.LoopIsStep | src/vendor/miniz/miniz.c:509-545 | However often the loop goes round, a call is one step of the stream, or its end, or its failure with what room there is filled first. |
| MzInflate.CutFails | src/vendor/miniz/miniz.c:531-541 | Under MZ_FINISH, with more room than there is output, a stream cut short fails. |
| DeflateDecoder.DecoderKeeps | src/codec_deflate.c:319-664 | Hence deflate_process, decoding, keeps the driver's contract for gzip, zlib and raw; it asks that FINISH stay FINISH and come with at most 2^31-1 bytes. |
| DeflateDecoder.ProbeTakesAByte | src/codec_deflate.c:561-613 | Taking a 0x1F at a window's end before the second magic byte is seen loses nothing. |
| DeflateDecoder.BodyStep | src/codec_deflate.c:428-451 | A part of the body inflated is a part of the stream dealt with: checksum and count go on from where they were. |
| DeflateDecoder.TrailerByte | src/codec_deflate.c:627-662 | Trailer bytes may come one at a time. |
| DeflateDecoder.ResetIsFresh | src/codec_deflate.c:240-301 | From any state, mid-header, mid-probe, mid-trailer or after an error, reset gives the state of a new decoder. |
| DeflateDecoder.DecoderResetsClean | src/codec_deflate.c:240-309 | From every state a run can lead to, errors included, a reset decoder of each wrapper is a new one: Driver.ResetIsNew is about it. |
| Inflater.Decoder.Process | src/codec_deflate.c:319-664 | The decoding loop over the object's fields and the caller's buffer computes the modelled call, and after every answer that lets the stream go on the object may be called again. |
| Inflater.Decoder.Restart | src/codec_deflate.c:240-301 | The object after a reset is a new object. |
| Rfc1952.GunzipIsRest | src/codec_deflate.c:319-664 | The streaming decoder's outcome is that of a whole-buffer decoder of sections 2.2 and 2.3 of RFC 1952: header grammar, DEFLATE, CRC-32, ISIZE mod 2^32, next member. |
| Rfc1952.FileDecodes | src/codec_deflate.c:517-614 | Members end to end, and junk that begins no member, decode to the members' data end to end, with the junk left over. |
| Rfc1952.DecodedIsFile | src/codec_deflate.c:517-614 | And whatever decodes to the end is such a file. |
| Rfc1952.UnzlibIsRest | src/codec_deflate.c:334-367 | The same for zlib: a printed header of section 2.2 of RFC 1950, a DEFLATE stream, Adler-32. |
| Rfc1952.CheckZlibIsGrammar | src/codec_deflate.c:117-137 | Of the 65536 pairs of bytes exactly the printed headers of section 2.2 of RFC 1950 without a dictionary are accepted, those with one are UNSUPPORTED, and all others INVALID_DATA. |
| DeflateEncoder.EncProcessWrites | src/codec_deflate.c:319-664 | Whatever the windows, an encoder's output so far is wrapper header, engine output and trailer for exactly the input taken. |
| DeflateEncoder.EncProcessTakesAll | src/codec_deflate.c:394-483 | A stream passes its body only under FINISH and with its window taken, if the window fits 31 bits. |
| DeflateEncoder.ZlibHeaderIsAccepted | src/codec_deflate.c:98-137 | The zlib header written at any level passes the decoder's own check and asks for no dictionary. |
| DeflateEncoder.ZlibHeaderIsPrint | src/codec_deflate.c:98-115 | It is the printed header of a 32 KiB window without a dictionary, its FLEVEL 0 below level 2, 1 below 6, 2 at 6 and 3 above. |
| DeflateEncoder.ResetEncIsFresh | src/codec_deflate.c:240-301 | A reset encoder is a new one at the resolved level; saying nothing keeps the stream's level. |
| DeflateEncoder.FlushFillsTheRoom | src/codec_deflate.c:394-483 | Over an engine whose every sync flush writes something, FLUSH with all input taken does not come to rest: the call asks again and again, and answers only when its room is full. |
| DeflateFlush.FlushedShows | src/codec_deflate.c:394-483 | A FLUSH call that asks for input, or in which two turns running leave room, the second with all of the window taken, has written a body that inflates to every byte taken. |
| DeflateFlush.FlushReads | src/codec_deflate.c:394-483 | Main theorem, FLUSH: after any run before FINISH, for such a call, everything out so far decodes, header and all, to every byte taken: for gzip, zlib and raw. |
| GzipWitness.StoredSyncKeeps | src/vendor/miniz/miniz.c:242-305 | The stored-block compressor, which writes at each sync flush, keeps what is assumed of sync flushing. |
| GzipWitness.StoredFlushFits | src/codec_deflate.c:437-482 | Behind it a FLUSH call has that room when the window fits it in stored blocks with an empty block and a byte to spare. |
| GzipRoundTrip.EncoderResetsClean | src/codec_deflate.c:240-304 | From every state an encode run can lead to a reset encoder of each wrapper is a new one: EncodeDriver.EncResetIsNew is about it. |
| GzipRoundTrip.EncoderAdvertises | src/codec_deflate.c:692-760 | Levels 0 to 9 are accepted, and saying nothing means 6. |
| Deflater.Encoder.Process | src/codec_deflate.c:319-664 | The encoding loop over the object's fields and the caller's buffer computes the modelled call. |
| Deflater.Encoder.Restart | src/codec_deflate.c:240-301 | The object after a reset is a new object. |
| GzipRoundTrip.EncodeWrites | src/codec_deflate.c:394-483 | Every encode run that ends has written the wrapper around a DEFLATE stream of the input it took, all of it if no FINISH call of the run was offered more than 2^31-1 bytes. |
| GzipRoundTrip.FinishTakesTheClamp | src/codec_deflate.c:394-396 | The converse, over an engine that takes at once what it is shown: of a longer input FINISH takes exactly 2^31-1 bytes and ends. |
| GzipRoundTrip.ModerateIsExact | src/codec_deflate.c:394-396 | Over such an engine a steady run that ends has taken all of its input if and only if no FINISH call was offered more than 2^31-1 bytes. |
| GzipWitness.OneShotStopsAtTheClamp | src/zu_stream.c:491-551 | It happens: a concrete engine offered more than 2^31-1 bytes in one shot answers OK with the rest unread, and what it wrote is a stream of the first 2^31-1 only. |
| GzipRoundTrip.DecodeInAnyWindows | src/codec_deflate.c:319-664 | Main theorem: any decode run over any bytes, in any windows, with FINISH said to the end once said, comes to the end the whole-buffer decoder comes to: all the bytes of a complete stream, a prefix of what is good of a corrupt one or of a cut body, INVALID_DATA for the latter. |
| GzipRoundTrip.SteadyMinds | inst/include/zukomp.h:315-330 | Every caller that says FINISH to the end minds what the decoder asks, on inputs of up to 2^31-1 bytes. |
| DeflateFinish.LateIsRefused | src/vendor/miniz/miniz.c:463-464 | Over mz_inflate, whatever the stream, RUN or FLUSH in the body once MZ_FINISH has been said answers INVALID_DATA and moves nothing. |
| DeflateFinish.RefusedExactlyIfLate | src/codec_deflate.c:401-461 | Exactly: over any run of a complete stream without limits the next call answers INVALID_DATA if and only if it says something else than FINISH in a body of which MZ_FINISH has been said. |
| DeflateFinish.RunAfterFinishRefuses | src/vendor/miniz/miniz.c:463-464 | At an input: a good stream of two bytes, FINISH said with room for one; FINISH again delivers the other and ends, RUN is INVALID_DATA. |
| DeflateCuts.CutBodyCall | src/vendor/miniz/miniz.c:531-541 | Of a body cut short a FINISH call that fails has delivered everything if and only if there was room for it; and it fails whenever there is more room than output. |
| DeflateCuts.CutRunDelivers | src/codec_deflate.c:428-494 | Over a run: a cut body's bytes are all delivered before the failure exactly when what had been delivered and the room of the one FINISH call suffice; the rest is lost. |
| DeflateCuts.CutBodyLosesBytes | src/vendor/miniz/miniz.c:531-532 | At concrete inputs: two decoded bytes and room for one, one is lost; and under a ceiling at that point the end is INVALID_DATA, or the ceiling's status if FINISH is said at once. |
| DeflateCuts.LongInputIsRefused | src/codec_deflate.c:428-436 | A complete stream longer than 2^31-1 bytes, RUN and then FINISH, is INVALID_DATA: the clamped window is taken for all there is. |
| GzipRoundTrip.GzipRoundTrip | src/codec_deflate.c:319-664 | Main theorem: payloads encoded one by one as gzip, put end to end and decoded with concatenation, every run in its own windows, give the payloads end to end, STREAM_END and every byte consumed. |
| GzipRoundTrip.SingleRoundTrip | src/codec_deflate.c:319-664 | One zlib or raw stream reads back in any windows, whether or not trailing bytes are refused or concatenation is asked for. |
| DeflateLimits.DecodeUnderLimits | src/codec_deflate.c:484-494 | The DEFLATE family under any limits: a complete stream delivers exactly its output up to the ceiling, over it is over the limit, under it ends as if there were none, with the one lone-0x1F status named; of a corrupt stream or cut body a prefix is delivered, and the ceiling's status is given only if there is that much output. |
| DeflateLimits.ExactlyAtTheCeiling | src/codec_deflate.c:487-494 | At exactly the ceiling windows show: one concrete stream ends well in one window and is over the limit in another, the body asking for room when input is what it lacks. |
| DeflateLimits.TrailingHasToBeSeen | src/zu_stream.c:374-378 | For raw DEFLATE a byte after the stream is refused if the window the stream ends in shows it, and otherwise left unread and accepted. |
| DeflateBound.BoundSuffices | src/codec_deflate.c:671-690 | If the engine expands little, one-shot compression into a compress_bound-sized buffer ends in OK for raw, zlib and gzip, with all the input taken and the output the wrapper around a DEFLATE stream of it. |
| DeflateBound.DeflateEncodeEnds | src/codec_deflate.c:394-483 | Liveness, run by run: over such an engine FINISH calls with more room in all than wrapper and stored size end the stream, with all the input in it. |
| DeflateBound.BoundLeavesAByte | src/codec_deflate.c:671-683 | The bound, when it is returned, is what the engine and the wrapper may need and a byte more, with no wrap-around. |
| DeflateBound.BoundIsExact | src/codec_deflate.c:671-690 | There is a bound exactly when n + n/64 + 64 + wrapper fits size_t, and it is that. |
| StoredBlocks.StoredEngineKeeps | src/codec_deflate.c:437-494 | mz_inflate() over a stored-block tinfl keeps the contract assumed of an engine. |
| StoredBlocks.StoredTinflKeeps | src/vendor/miniz/miniz.c:2438-2438 | A stored-block decoder keeps what is assumed of tinfl_decompress(). |
| StoredBlocks.StoreInflates | src/codec_deflate.c:437-494 | Data stored in blocks inflates to itself and ends where it ended, whatever follows. |
| GzipWitness.StoredCompressorKeeps | src/codec_deflate.c:437-482 | A stored-block compressor keeps the contract assumed of the encoder's engine. |
| GzipWitness.StoredIsEager | src/codec_deflate.c:437-482 | It takes what it is shown at once, as ModerateIsExact assumes. |
| GzipWitness.StoredIsSelfDelimiting | src/codec_deflate.c:437-494 | Stored blocks are self-delimiting, as DecodedIsFile assumes. |
| GzipWitness.StoredExpandsLittle | src/codec_deflate.c:671-683 | The same compressor expands no more than BoundSuffices assumes. |
| Frames.ProcessOk | src/codec_zstd.c:320-374 | Chunk independence of one call of the framed decoders, owed byte, held prefix and stall probe included; and the library is kept waiting for no more calls than moved nothing. |
| Frames.FramedKeeps | src/codec_lz4.c:320-371 | zstd and lz4-frame decoding keep the driver's contract as honest codecs, given a library that lets its answer depend on windows only where it may (OpenFrame: over the window ceiling): NEED_OUTPUT only when a byte really is pending. Of zstd's callers no more than thirteen calls in a row may have moved nothing. |
| Frames.StallOk | src/zu_frames.c:184-215 | The stall classifier is right in every case: output-starved, input-starved or cut short, the library one idle call nearer its limit. |
| Frames.ProbeOk | src/zu_frames.c:196-211 | The one-byte probe at FINISH tells pending output, a missing trailer and a cut frame apart, and the byte it takes is owed. |
| Frames.PayOk | src/zu_frames.c:217-227 | The owed byte is paid once, first, and in place. |
| Frames.HeldOk | src/zu_frames.c:114-151 | A held prefix extended over later windows is confirmed, disproved or reported exactly as the bytes themselves would be. |
| Frames.NothingHeldOk | src/zu_frames.c:82-112 | With nothing held, what follows a frame is classified by its first four bytes, or by fewer when there are no more. |
| Frames.HoldingCounts | src/zu_frames.c:102-112 | Holding visible bytes changes nothing but where they are counted. |
| Frames.ResetIsFresh | src/codec_zstd.c:213-228 | Reset while holding, owing or mid-frame, or after an error, is a new decoder with the window ceiling of the options given. |
| Frames.FramedResetsClean | src/codec_zstd.c:213-228 | From every state a run can lead to a reset framed decoder is a new one: Driver.ResetIsNew is about both. |
| Framer.Decoder.Process | src/codec_zstd.c:320-374 | The loop over held bytes, the owed byte and the library context computes the modelled call. |
| Framer.Decoder.Between | src/zu_frames.c:61-151 | zu_int_frames_between in place, the byte-by-byte extension loop included. |
| Framer.Decoder.Stalled | src/zu_frames.c:184-215 | zu_int_frames_stalled in place. |
| Framer.Decoder.Pay | src/zu_frames.c:217-227 | zu_int_frames_pay in place: false exactly while the owed byte finds no room. |
| Framer.Decoder.Restart | src/zu_frames.c:22-29 | The object after a reset is a new object. |
| FramedStreams.UnframeIsRest | src/zu_frames.c:61-151 | The streaming outcome is that of a whole-buffer decoder: frames as long as four bytes with a magic number, the format's or a skippable frame's, stand where a frame ends. |
| Frames.FourBytesBegin | src/zu_frames.c:38-59 | Four bytes are a complete magic if and only if, little-endian, they are 0xFD2FB528 (zstd) or 0x184D2204 (lz4), or lie in 0x184D2A50 to 0x184D2A5F. |
| Frames.HeldMayBegin | src/zu_frames.c:38-59 | Fewer bytes are held if and only if some four such bytes begin with them. |
| FramedStreams.FramesConcatenate | src/zu_frames.c:61-151 | Frames end to end decode to their data end to end, with following bytes that begin no frame left over, under any max_output that admits their windows. |
| FramedStreams.FileReads | src/zu_frames.c:61-151 | Any run over frames end to end, under limits that admit their data, delivers it all and consumes every byte. |
| FramedStreams.SkippedBetween | src/zu_frames.c:50-59 | A frame without data between two frames changes nothing: both frames' data is delivered and every byte consumed. |
| FramedStreams.FramedLimits | src/zu_stream.c:309-399 | Main theorem: under any limits and windows, with concatenation on or off, a stream of exactly the ceiling's size ends well with all its bytes, a longer one is over the limit with exactly the ceiling's worth, and one cut after its last output byte is TRUNCATED and never over a limit; of a corrupt one a prefix of what is good is delivered. With concatenation off bytes after the stream are refused only if the window shows them. |
| FramedStreams.FewMind | src/vendor/zstd/decompress/zstd_decompress.c:2356-2365 | No run over lz4 frames, and no zstd run of up to fourteen calls, tries the library's patience. |
| WindowCaps.OverTheCeiling | src/vendor/zstd/decompress/zstd_decompress.c:2185-2232 | The other place where windows show: a frame that declares its size, read in one piece, is decoded whatever its window; read a byte and then the rest, it is decoded if and only if its window is within the ceiling zukomp sets from max_output, and otherwise refused before any output. |
| FramedStreams.RunFramed | src/zu_whole.c:153-287 | The chunked loop over a framed decoder makes those calls, ends as the whole-buffer decoder says, answers ZU_ERR_MEMORY only when there is no size to grow to, and stays within the ceiling, also on inputs of which nothing is said. |
| FramedStreams.FramedSpends | src/codec_zstd.c:320-374 | Of any library and in any state, the framed decoders ask for input only with their window spent and for room only with none left. |
| FramedStreams.WhereWindowsShow | src/zu_stream.c:364-378 | One place where windows show: a stream short of the expected size followed by one to three bytes of magic, trailing refused, is INVALID_DATA in one piece and TRAILING when the piece is read apart; every other complete or cut stream has one status (FramedLimits). |
| FramedStreams.BytesAreConserved | src/zu_frames.c:61-151 | Every byte consumed went to the library, in order, or is held; at the end at most three bytes, begun like a magic, went nowhere. |
| FramedStreams.NothingHeldCall | src/zu_frames.c:82-112 | A call that begins with nothing held consumes a stream exactly. |
| FramedStreams.CountsAddUp | src/zu_frames.c:61-151 | Consumed and left-over bytes are all the bytes, held ones counted as unread. |
| RawFrames.RawLibKeeps | src/codec_zstd.c:320-374 | A raw-block zstd frame reader, window descriptor, window ceiling and single-pass shortcut included, keeps the contract assumed of the library. |
| RawFrames.RawFrameReads | src/codec_zstd.c:320-374 | A frame of raw blocks reads back, whatever follows it and whatever max_output. |
| RawFrames.SizedFrameReads | src/vendor/zstd/decompress/zstd_decompress.c:2185-2232 | A frame that declares its size and window is a frame like any other exactly when the ceiling admits the window. |
| RawFrames.SkippableReads | src/zu_frames.c:50-59 | A zstd skippable frame, with any of its sixteen magics and any content, is a frame without data. |
| RawFrames.SkippableIsSkipped | src/zu_frames.c:50-59 | So a frame, a skippable frame and a frame, concatenation on and trailing bytes refused, deliver both data in any windows. |
| ByteFrames.ReaderSteps | src/codec_zstd.c:320-374 | Any reader that eats a byte at a time, read in windows with output held back for room, is a step of its frame. |
| RawLz4Frames.RawLz4LibKeeps | src/codec_lz4.c:320-371 | A raw-block LZ4 frame reader keeps the contract assumed of liblz4's frames. |
| RawLz4Frames.SkippableReads | src/zu_frames.c:50-59 | A skippable frame is an LZ4 frame without data too. |
| RawLz4Frames.RawLz4fKeeps | src/codec_lz4.c:204-258 | A raw-block LZ4 frame writer keeps the contract of the staged encoder, and what it has flushed reads back. |
| RawCompressors.RawCompressorKeeps | src/codec_zstd.c:239-287 | A raw-block compressor, which writes out what it has gathered when it is flushed and like libzstd resets itself when an ended frame is flushed out, keeps the contract assumed of libzstd, makes frames that reader reads under any max_output, and shows what it has flushed. |
| RawCompressors.RawEncodeEnds | src/codec_zstd.c:239-287 | Behind it the zstd encoder, told to finish with as much room as the frame takes, ends with the frame. |
| RawCompressors.RawWithin | src/codec_zstd.c:239-287 | However it is flushed, its frame of n bytes takes no more than 9 + 4n. |
| FrameEncoders.LoopOk | src/codec_lz4.c:204-258 | lz4-frame encoding: at every step delivered and staged bytes are the library's output so far, STREAM_END only with the stage empty, no library call ever fails for want of stage or of a wrong declared size, at every chunking. |
| FrameEncoders.Lz4fFlushesShow | src/codec_lz4.c:204-258 | FLUSH is answered by asking for input only when the library has been flushed after all of the window and the stage drained. |
| FrameEncoders.FlushedReads | src/codec_lz4.c:204-258 | Main theorem, FLUSH, for zstd and lz4-frame: after any run in any windows, a decode run in any other windows over what is out when a FLUSH asks for input, if it comes to an end, has delivered every byte taken, and otherwise a prefix of them. |
| FrameEncoders.FirstCallDeclares | src/codec_lz4.c:226-230 | A frame begun by FINISH declares all of its window as content size, and begun otherwise none. |
| FrameEncoders.OnlyItsLevel | src/codec_lz4.c:92-95 | The library is asked for the stream's level, or 1 if none was asked for, and for no other: libraries that differ at other levels give the same call. |
| FrameEncoders.Lz4fAdvertises | src/codec_lz4.c:40-46 | Levels -65536 to 12 are accepted. |
| FrameEncoders.StageSuffices | src/codec_lz4.c:168-176 | LZ4F_compressBound of a 64 KiB chunk covers every update, flush, end and header, with up to a block already buffered: no library call is refused its capacity. |
| FrameEncoders.Lz4fEncoderKeeps | src/codec_lz4.c:204-258 | Hence it keeps the encoder contract, and never fails. |
| FrameEncoders.Lz4fEncodeEnds | src/codec_lz4.c:204-258 | Liveness: told to finish, with more room in all than 27 + 5n bytes (a flush after every byte is the worst), the encoder ends with a frame of all n bytes. |
| ZstdEncoder.ZstdProcessOk | src/codec_zstd.c:239-287 | zstd encoding: a call answers for what it took and wrote and never fails of itself; it asks for input only with the window spent and for room only with none left; what ends is a whole frame of all the input, or that and frames of nothing after it. |
| ZstdEncoder.ZstdFlushesShow | src/codec_zstd.c:278-284 | FLUSH is answered by asking for input only when libzstd has nothing left to flush: what is out then shows every byte taken, whatever frames came before. |
| ZstdEncoder.ShownReadsBack | src/codec_zstd.c:278-284 | What shows is, to a decoder, a stream that ends or is cut short after exactly that. |
| ZstdEncoder.ZstdAdvertises | src/codec_zstd.c:106-119 | Levels -131072 to 22 are accepted, and saying nothing means 3. |
| ZstdEncoder.ZstdEncoderKeeps | src/codec_zstd.c:239-287 | Hence it keeps the encoder contract, and never fails. |
| ZstdEncoder.RunCounts | src/codec_zstd.c:239-287 | Main theorem: over any run the stream that ends is one frame of all the input and one of nothing more for every call other than FINISH that flushed out the last of an ended frame; in progress the frame at hand is the library's. |
| ZstdEncoder.SteadyWritesOneFrame | src/codec_zstd.c:239-287 | A caller that says FINISH to the end writes exactly one frame of all the input, in whatever windows. |
| ZstdEncoder.OneFrameIsExact | src/vendor/zstd/compress/zstd_compress.c:6250-6275 | Exactly: what a run has written is one frame, to any reader of the library's frames, if and only if no call other than FINISH flushed out the last of an ended frame. |
| RawCompressors.RunAfterFinishSplits | src/vendor/zstd/compress/zstd_compress.c:6250-6275 | At concrete slots: FINISH with one byte of room and FINISH again is one frame; with RUN in between it is that frame and a frame of nothing, which is trailing bytes to a reader without concatenation. |
| ZstdEncoder.ZstdEncodeEnds | src/codec_zstd.c:239-287 | Liveness: told to finish, with more room than a frame of the input can take, the encoder ends with the frame. |
| ZstdEncoder.ResetZstdIsFresh | src/codec_zstd.c:192-211 | A reset zstd encoder is a new one at the resolved level. |
| ZstdEncoder.ZstdResetsClean | src/codec_zstd.c:192-211 | From every state a run can lead to a reset zstd encoder is a new one: EncResetIsNew is about it. |
| FrameEncoders.Lz4fResetsClean | src/codec_lz4.c:186-202 | So is an lz4-frame encoder, mid-frame, with bytes staged or after an error. |
| FrameEncoders.FramesRoundTrip | src/zu_frames.c:61-151 | Main theorem: payloads encoded one by one, each as one frame or several, put end to end and decoded with concatenation, every run in its own windows with any flushes and under any limits that admit them and their windows, come back, with every byte consumed. |
| FrameWriters.Lz4Writer.Process | src/codec_lz4.c:204-258 | The staging loop over the object's fields and the caller's buffer computes the modelled call. |
| FrameWriters.Lz4Writer.Drain | src/codec_lz4.c:99-114 | Moves what fits out of the stage; true exactly when it is empty. |
| FrameWriters.ZstdWriter.Process | src/codec_zstd.c:239-287 | The encode loop in place computes the modelled call. |
| ZstdWindow.CeilLog2 | src/codec_zstd.c:77-84 | The counting loop finds the least exponent that reaches n, or 63. |
| ZstdWindow.WindowAdmits | src/codec_zstd.c:86-104 | A window of 2^w bytes is admitted exactly when the default admits it and it is of at most 8 MiB or half of it is below max_output. |
| ZstdWindow.OutputFitsWindow | src/codec_zstd.c:86-104 | Up to the default, the ceiling covers the whole of any output within the limit. |
| Lz4Format.SequenceReads | src/vendor/lz4/lz4.c:2023-2448 | A sequence printed as the block format says (token, extended lengths, literals, two-byte distance, match length less 4), with anything after it, parses as its own literals, distance, length and rest. |
| Lz4Format.LastReads | src/vendor/lz4/lz4.c:2023-2448 | So do literals that end a block. |
| Lz4Format.ParsedIsPrint | src/vendor/lz4/lz4.c:2023-2448 | Whatever parses is a sequence so printed, to the byte. |
| Lz4Format.NothingRepeats | src/vendor/lz4/lz4.c:2023-2448 | A match at distance 0 is read as zeros. |
| Lz4Format.ExpandIsBounded | src/codec_lz4.c:571-585 | n bytes of the block format decode to at most 255n. |
| Lz4Format.StrictLibKeeps | src/codec_lz4.c:571-628 | The contract assumed of liblz4's block functions, which binds it on tight room only for blocks that end as the format says, is met by a decoder with liblz4's end-of-block checks and a literal compressor. |
| Lz4Format.ExactRoom | src/vendor/lz4/lz4.c:2023-2448 | Given room of just its size, that decoder decodes a block if and only if the block ends as the format says it should (last five bytes literals, no match starting in the last twelve). |
| Lz4Format.TightNeedsRoom | src/vendor/lz4/lz4.c:2023-2448 | A block of ten bytes that does not: decoded into thirteen bytes of room or more, refused with fewer. |
| Lz4Search.SearchIsExact | src/codec_lz4.c:586-628 | Main theorem: a block that ends as the format says and that an int can count is found exactly when max_output admits it, with a buffer of at most max(first guess, 4 * decoded size); over max_output it is OUTPUT_LIMIT. |
| Lz4Search.SearchIsSound | src/codec_lz4.c:586-628 | Of any block at all: at most four passes, and what is found is what the block expands to, within the limits; what is not a block is never found. |
| Lz4Search.TightIsNotFound | src/codec_lz4.c:612-626 | Where that condition fails: the ten-byte block is found without a limit, over the limit under a max_output of ten, and refused when told it is ten bytes long. |
| Lz4Search.FindSize | src/codec_lz4.c:586-628 | The doubling loop computes the modelled search. |
| Lz4Search.FormatCeiling | src/codec_lz4.c:588-594 | The guarded ceiling arithmetic is min(255n + 64, INT_MAX). |
| Lz4Block.DecodeOk | src/codec_lz4.c:630-707 | Direct and staged decoding, with the size known or searched, are steps of the same one pass at every chunking, over any library at all. |
| Lz4Block.DecoderKeeps | src/codec_lz4.c:630-707 | The block decoder is an honest codec, over any library at all. |
| Lz4Block.BlockInAnyWindows | src/codec_lz4.c:630-707 | A block that ends as the format says, within the limits, comes out whole in any windows; over max_output it is OUTPUT_LIMIT; of another size than expected it is an error. |
| Lz4Block.BlockIsExpanded | src/codec_lz4.c:630-707 | Of any block, whatever ends a run delivered what the block expands to, and STREAM_END means all of it. |
| Lz4Block.TightBlock | src/codec_lz4.c:612-626 | Over runs in any windows: the ten-byte block comes out unlimited, is OUTPUT_LIMIT under a max_output of ten and INVALID_DATA when told it is ten bytes long. |
| Lz4Block.OversizeUnderContradiction | src/codec_lz4.c:458-484 | An oversize block whose expected size is over max_output is INVALID_DATA gathered in pieces and OUTPUT_LIMIT all at once. |
| Lz4Block.EncodeOk | src/codec_lz4.c:508-569 | The direct path and the gather-and-stage path deliver the same block for the whole input. |
| Lz4Block.DrainWrites | src/codec_lz4.c:99-114 | Delivered and staged bytes are always the same bytes in the same order. |
| Lz4Block.BlockRoundTrip | src/codec_lz4.c:508-569 | Main theorem: what a finished encoder delivers in any windows reads back in any others exactly when the block is at most 0x7E000000 bytes, its own exact size as ceiling or expectation included. |
| Lz4Block.BlockEncodeEnds | src/codec_lz4.c:508-569 | Told to finish, with more room in all than LZ4_compressBound, the encoder ends with the block of the whole input. |
| Lz4Block.LongestInputIsRefused | src/codec_lz4.c:458-484 | The longest input the encoder takes, kept as literals, makes a block the decoder refuses. |
| Lz4Block.ResetIsFresh | src/codec_lz4.c:428-455 | Both resets, gathering, draining or after an error, give a new state at the resolved options. |
| Lz4Block.DecoderResetsClean | src/codec_lz4.c:444-455 | From every state a run can lead to a reset block decoder is a new one: Driver.ResetIsNew is about it. |
| Lz4Block.EncoderResetsClean | src/codec_lz4.c:435-443 | So is a reset block encoder, at the level given or else its own. |
| Lz4Blocks.Block.EncoderProcess | src/codec_lz4.c:508-569 | The object's encode call is the modelled one. |
| Lz4Blocks.Block.DecoderProcess | src/codec_lz4.c:630-707 | The object's decode call is the modelled one. |
| Lz4Blocks.Block.Gather | src/codec_lz4.c:458-484 | Appends the window exactly when the block limit allows, and otherwise changes nothing. |
| Window.Inflator.CheckDistance | tools/patches/miniz/0002-validate-match-distance.patch:73-80 | Accepts exactly the distances 1..min(bytes emitted, window), over any number of calls and wraps. |
| Window.Inflator.RingReads | tools/patches/miniz/0002-validate-match-distance.patch:83-83 | For those the masked ring read is the byte emitted that many places ago. |
| Window.Masked | tools/patches/miniz/0002-validate-match-distance.patch:83-83 | The 64-bit wrap of the subtraction under the mask does not show. |
| Window.Inflator.CopyBytes | tools/patches/miniz/0002-validate-match-distance.patch:83-88 | A match, overlapping or cut short by the room, writes what the history says. |
| Window.Inflator.Call | tools/patches/miniz/0002-validate-match-distance.patch:73-88 | One call, resuming a suspended match, carries the count on: the tokens amount to what they did before it. |
| Window.InflateInCalls | tools/patches/miniz/0002-validate-match-distance.patch:73-88 | Any calls with any room put out what the tokens amount to and stop exactly at the first illegal distance. |
| Lz77.CopiedReads | tools/patches/miniz/0002-validate-match-distance.patch:83-83 | An overlapping match reads every byte one distance back, its own included. |
| Lz77.CopiedTwice | tools/patches/miniz/0002-validate-match-distance.patch:85-88 | A match interrupted anywhere goes on from where it was. |
| Huffman.Canon | tools/make-malformed.R:69-85 | The counting, first-code and assignment loops, shifting in 32 bits, give every used symbol its canonical code whenever no value passes R's integers. |
| Huffman.ShortIsNarrow | tools/make-malformed.R:69-85 | None does for lengths of up to 15 bits, as all of DEFLATE's are, over-subscribed or not; |
| Huffman.FittingIsNarrow | tools/make-malformed.R:69-85 | nor for lengths of up to 30 bits whose codes fit. |
| Huffman.UsedIsKraft | tools/make-malformed.R:69-85 | The codes given out up to a length are the Kraft sum of the lengths. |
| Huffman.CodesFit | tools/make-malformed.R:69-85 | All codes fit their lengths if and only if the lengths are not over-subscribed. |
| Huffman.PrefixFree | tools/make-malformed.R:69-85 | No code begins another. |
| Huffman.ReadsBackUniquely | tools/make-malformed.R:43-46 | A symbol stream written most significant bit first reads back in one way only. |
| Huffman.RawReadsBack | tools/make-malformed.R:47-57 | Bits packed least significant first come back from the bytes, with fewer than eight of padding. |
| Huffman.BytesReadBack | tools/make-malformed.R:38-57 | Both together, behind any header. |
| Huffman.ValueReadsBack | tools/make-malformed.R:38-42 | A field of n bits written least significant bit first reads back as its value. |
| Huffman.CodeReadsBack | tools/make-malformed.R:43-46 | A code of n bits written most significant bit first reads back as the code. |
| Huffman.BitsAre | tools/make-malformed.R:38-46 | Each loop appends, at each place, the bit of the value that place is for: least significant first for fields, most significant first for codes. |
| Huffman.FixedIsCanonical | tools/make-malformed.R:59-65 | The hand-written fixed code is the canonical code of the lengths in section 3.2.6 of RFC 1951, for all 288 symbols. |
| Registry.Table.Register | src/zu_registry.c:92-219 | A rejected attempt changes nothing; an accepted one appends and counts; ids, names and case-folded tokens stay unique and declared ids keep declared names. |
| Registry.RegisterAll | src/zu_registry.c:92-219 | Over any run of attempts the table is sound, holds exactly what was accepted, in order, and generation equals count. |
| Registry.AcceptedIsSound | src/zu_registry.c:92-219 | Soundness is kept by every run of attempts, and nothing registered is ever lost. |
| Registry.BuiltinsAreAccepted | src/zu_registry.c:417-435 | The seven built-in codecs are all accepted. |
| Registry.AcceptedExactly | src/zu_registry.c:92-219 | A codec is accepted exactly when it is whole, its number is a declared one under its own name or at least 1024, and its name and token clash with nothing declared or registered; with 32 registered the answer is MEMORY instead. |
| Registry.RegisteredIsFound | src/zu_registry.c:228-281 | Every registered codec is found under its id, its name, and its token in any letter case. |
| Registry.DeclaredTable | src/zu_registry.c:16-54 | The ten declared names and five declared tokens are found under their numbers, whatever is registered. |
| Registry.TokenInAnyCase | src/zu_registry.c:263-281 | A token is found in any letter case. |
| Registry.SameTokenIsCaseless | src/zu_registry.c:251-261 | Two tokens are the same if and only if they are equally long and each two characters are equal or the same ASCII letter. |
| Registry.FoundIsThere | src/zu_registry.c:228-281 | What a lookup of the registered finds is a registered codec of that name or token. |
| Registry.OrderDoesNotShow | src/zu_registry.c:228-281 | Registration order changes no lookup. |
| Registry.Table.Lookup | src/zu_registry.c:228-246 | The two scans compute first-match lookup. |
| Registry.Table.FromContentEncoding | src/zu_registry.c:263-281 | The same for tokens. |
| Registry.Ieq | src/zu_registry.c:251-261 | The character loop decides equality up to ASCII case. |
| Registry.Table.Sniff | src/zu_registry.c:375-415 | The longest matching magic answers, first predicates only when no magic matches, and failure means nothing recognised the bytes. |
| Registry.LongestMagicIsOne | src/zu_registry.c:386-401 | With no two equally long matches the same codec answers in any registration order. |
| Registry.MagicIsThere | src/zu_registry.c:386-401 | A magic matches exactly where the buffer has it at its offset. |
| Registry.EqualMagicsDependOnOrder | src/zu_registry.c:386-401 | With two equally long matches the one registered first answers. |

## Left out

- miniz, libzstd and liblz4 themselves: entropy coding, match finding, xxHash and the compressed bytes per level are behind contracts (`Inflate.EngineKeeps`, `DeflateEncoder.CompressorKeeps`, `Lz4Format.LibKeeps`, `Frames.LibKeeps`, `FrameEncoders.Lz4fKeeps`, `ZstdEncoder.ZstdKeeps`); that the vendored code keeps them is assumed. Of miniz's inflater the assumption is about tinfl_decompress alone; mz_inflate is modelled.
- MzInflate.MzKeeps: of a stream that comes to an unused code of an incomplete Huffman code nothing is said (`InfOpen`), since tinfl's fast and slow paths treat it differently.
- Frames.FramedKeeps: of a frame over the window ceiling that declares its content size, of a zstd match that reaches past its window, and of an LZ4 frame whose blocks do not end as the format says, nothing is said (`OpenFrame`), since the libraries let windows show there; WindowCaps shows the first at an input, with its exact condition.
- Frames.FramedKeeps: also, which library error becomes which status is left to the library's contract; only that it is an error is used.
- Lz4Format.StrictLibKeeps: the library that shows the contract can be met has the checks of liblz4's safe loop; its fast loop and its shortcut for short matches, which accept some badly ended blocks the safe loop refuses, are not modelled. Of such blocks the contract says only that what is answered is what they expand to.
- Lz4Format.ExpandIsBounded: a match at offset 0 is read as zeros, as liblz4 writes them; the format calls it invalid.
- FrameEncoders.StageSuffices: LZ4F_compressBound is modelled for the preferences zukomp uses (64 KiB blocks, content checksum, no block checksum).
- FrameEncoders.Lz4fResetsClean: the source leaves the compression context as it was until LZ4F_compressBegin rewrites it; the model shows it idle from the reset on, as nothing reads it in between.
- DeflateEncoder.FlushFillsTheRoom: stated of the codec's loop, for engines that write at every sync flush; that miniz does is assumed.
- DeflateFlush.FlushReads: says nothing of a FLUSH call that runs out of room before it has flushed; and what miniz does in a sync flush is assumed (`DeflateFlush.SyncKeeps`).
- FrameEncoders.FlushedReads: decoded without limits; what is out after a FLUSH has no size of its own to check.
- FrameEncoders.Lz4fEncodeEnds: the bound is for any flushes on the way; the smaller one of a run without them is not stated.
- FramedStreams.FramedLimits: stated without a ratio limit. Of a failing stream the status is one of those the library's contract allows.
- Whole.RunWhole: of a DEFLATE stream of which nothing is said (`InfOpen`) termination is not shown, for want of a promise that tinfl moves there.
- Lz4Format.ExactRoom: stated of the safe loop; the fast loop and the shortcut are not modelled.
- Driver.RunVerdict: with max_ratio set, at which call a run comes to be over the ratio depends on windows, since the ratio is tested per call; that it is over it then, and within it at a good end, is proved.
- Lz4Block.BlockRoundTrip: says of an oversize block only that it is refused, not that some input of liblz4's own makes one.
- Window.Inflator.Call: less than 2^64 bytes put out in all, and the wrapping output buffer only; the non-wrapping flag is not modelled.
- Huffman.Canon: where a value passes R's integers (never for DEFLATE's lengths: `ShortIsNarrow`) nothing is said; R would carry doubles or NA there.
- Deflater.Encoder.Process and Inflater.Decoder.Process: an object is used after an error only through reset, as the header prescribes; use without one is not modelled.
- Opaque option structs: struct_size probing and zero-filling of short structs, NULL arguments, and the check that a reset does not change the codec.
- Allocation failure, except as the result of size arithmetic.
- zu_int_run_whole for encoding: the loop is the decoding one; the encoders' own theorems are stated over runs instead.
- zu_compress_bound for lz4-frame and zstd, level tables, status strings, the API table.
- The R side: finalizers, ownership, interrupts, R_CheckUserInterrupt, PROTECT.
- The archive and ZIP consumers, fuzz drivers, build and CI scripts.
