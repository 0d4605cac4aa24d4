/** The incremental decoder of frame.hpp, proved against the one-pass meaning of the bytes fed. */
module Decoder {
  import opened Bits
  import opened Bytes
  import opened ProtocolRegistry
  import opened Utf8
  import opened Frames
  import opened StreamTheorems

  // What a decoder's user can observe of its past: all bytes fed (also those fed after a failure)
  // and all frames handed out.
  datatype History = History(fed: ByteString, popped: seq<Frame>)

  ghost predicate HasFailed(h: History) { ParseStream(h.fed).verdict.Some? }

  // The frames decoded and not yet handed out.
  ghost function Queued(h: History): seq<Frame>
    requires h.popped <= ParseStream(h.fed).frames
  {
    ParseStream(h.fed).frames[|h.popped|..]
  }

  lemma SliceOfTail<T>(s: seq<T>, start: nat, lo: nat, hi: nat)
    requires start + lo <= start + hi <= |s|
    ensures s[start..][lo..hi] == s[start + lo..start + hi] && s[start..][hi..] == s[start + hi..]
  {}

  class FrameDecoder {
    var inputBuffer: ByteString
    var consumedPrefixSize: nat
    var bodyLength: nat
    var frameType: Byte
    var hasPendingHeader: bool
    var failed: bool
    var error: FrameErrorKind
    var decodedFrames: seq<Frame>
    ghost var history: History

    // Between calls, everything a caller can see is a function of the history; while there is no
    // failure, so are the buffer and the header state.
    ghost predicate Valid()
      reads this
    {
      var p := ParseStream(history.fed);
      && consumedPrefixSize == 0
      && p.frames == history.popped + decodedFrames
      && failed == p.verdict.Some?
      && error == (if failed then p.verdict.value else DecoderFailed)
      && (!failed ==> inputBuffer == p.rest && PendingHeaderMatches(inputBuffer))
    }

    // The header flag is set exactly when the unconsumed bytes start with a whole header, and then
    // type and length are that header's.
    ghost predicate PendingHeaderMatches(unconsumed: ByteString)
      reads this
    {
      (hasPendingHeader <==> |unconsumed| >= HEADER_SIZE) && PendingHeaderSound(unconsumed)
    }

    ghost predicate PendingHeaderSound(unconsumed: ByteString)
      reads this
    {
      hasPendingHeader ==>
        |unconsumed| >= HEADER_SIZE && CheckHeader(unconsumed[..HEADER_SIZE]) == Accepted(frameType, bodyLength)
    }

    constructor ()
      ensures Valid() && history == History([], []) && !failed
    {
      inputBuffer := [];
      consumedPrefixSize := 0;
      bodyLength := 0;
      frameType := 0x01;
      hasPendingHeader := false;
      failed := false;
      error := DecoderFailed;
      decodedFrames := [];
      history := History([], []);
    }

    // feedBytes
    method FeedBytes(data: ByteString)
      requires Valid()
      modifies this
      ensures Valid()
      ensures history == old(history).(fed := old(history).fed + data)
      ensures old(decodedFrames) <= decodedFrames
      ensures old(failed) ==>
                failed && error == old(error) && decodedFrames == old(decodedFrames) && inputBuffer == old(inputBuffer)
    {
      hide ParseStream, CheckHeader;
      ghost var before := history.fed;
      ParseAppend(before, data);
      if failed {
        history := history.(fed := before + data);
        return;
      }
      assert |inputBuffer| >= HEADER_SIZE ==> (inputBuffer + data)[..HEADER_SIZE] == inputBuffer[..HEADER_SIZE];
      inputBuffer := inputBuffer + data;
      history := history.(fed := before + data);
      DecodeAvailableFrames();
      DiscardConsumedBytes();
    }

    // tryPopFrame
    method TryPopFrame() returns (out: Option<Frame>)
      requires Valid()
      modifies this
      ensures Valid()
      ensures out.None? <==> old(failed) || old(decodedFrames) == []
      ensures out.None? ==> history == old(history)
      ensures out.Some? ==>
                && out.value == old(decodedFrames)[0]
                && decodedFrames == old(decodedFrames)[1..]
                && history == old(history).(popped := old(history).popped + [out.value])
      ensures failed == old(failed) && error == old(error) && inputBuffer == old(inputBuffer)
    {
      hide ParseStream, CheckHeader;
      if failed || decodedFrames == [] {
        return None;
      }
      out := Some(decodedFrames[0]);
      decodedFrames := decodedFrames[1..];
      history := history.(popped := history.popped + [out.value]);
    }

    method SetFailure(kind: FrameErrorKind)
      modifies this`failed, this`error
      ensures failed && error == kind
    {
      failed := true;
      error := kind;
    }

    // decodeAvailableFrames: takes every complete frame off the buffer, or stops at the first error.
    method DecodeAvailableFrames()
      requires !failed && error == DecoderFailed && consumedPrefixSize == 0
      requires PendingHeaderSound(inputBuffer)
      modifies this
      ensures inputBuffer == old(inputBuffer) && history == old(history)
      ensures consumedPrefixSize <= |inputBuffer|
      ensures var p := ParseStream(inputBuffer);
              && decodedFrames == old(decodedFrames) + p.frames
              && failed == p.verdict.Some?
              && error == (if failed then p.verdict.value else DecoderFailed)
              && inputBuffer[consumedPrefixSize..] == p.rest
              && (!failed ==> PendingHeaderMatches(p.rest))
    {
      hide ParseStream, CheckHeader, FindProtocol, IsUtf8, FromBigEndian32;
      ghost var all := ParseStream(inputBuffer);
      while true
        invariant inputBuffer == old(inputBuffer) && history == old(history)
        invariant !failed && error == DecoderFailed && consumedPrefixSize <= |inputBuffer|
        invariant PendingHeaderSound(inputBuffer[consumedPrefixSize..])
        invariant var q := ParseStream(inputBuffer[consumedPrefixSize..]);
                  && old(decodedFrames) + all.frames == decodedFrames + q.frames
                  && q.rest == all.rest && q.verdict == all.verdict
        decreases |inputBuffer| - consumedPrefixSize
      {
        ghost var s := inputBuffer[consumedPrefixSize..];
        ParseTurn(s);
        if !hasPendingHeader {
          if |inputBuffer| - consumedPrefixSize < HEADER_SIZE {
            return;
          }
          var accepted := ParseAndValidateHeader(consumedPrefixSize);
          if !accepted {
            return;
          }
          hasPendingHeader := true;
        }
        if |inputBuffer| - consumedPrefixSize < HEADER_SIZE + bodyLength {
          return;
        }
        var start := consumedPrefixSize + HEADER_SIZE;
        var body := inputBuffer[start..start + bodyLength];
        SliceOfTail(inputBuffer, consumedPrefixSize, HEADER_SIZE, HEADER_SIZE + bodyLength);
        hasPendingHeader := false;
        var valid := IsValidUtf8(body);
        if !valid {
          SetFailure(InvalidUtf8);
          return;
        }
        ConcatAssociative(decodedFrames, [Frame(frameType, body)], ParseStream(s[HEADER_SIZE + bodyLength..]).frames);
        decodedFrames := decodedFrames + [Frame(frameType, body)];
        consumedPrefixSize := consumedPrefixSize + HEADER_SIZE + bodyLength;
      }
    }

    // parseAndValidateHeader
    method ParseAndValidateHeader(offset: nat) returns (accepted: bool)
      requires offset + HEADER_SIZE <= |inputBuffer|
      modifies this`failed, this`error, this`frameType, this`bodyLength
      ensures match CheckHeader(inputBuffer[offset..][..HEADER_SIZE])
              case Rejected(e) => !accepted && failed && error == e
              case Accepted(kind, length) =>
                accepted && frameType == kind && bodyLength == length && failed == old(failed) && error == old(error)
    {
      hide FindProtocol, FromBigEndian32, Or, Shl;
      ghost var h := inputBuffer[offset..][..HEADER_SIZE];
      if inputBuffer[offset] != MAGIC_HIGH || inputBuffer[offset + 1] != MAGIC_LOW {
        SetFailure(BadMagic);
        return false;
      }
      if inputBuffer[offset + 2] != PROTOCOL_VERSION {
        SetFailure(BadVersion);
        return false;
      }
      var descriptor := FindProtocol(inputBuffer[offset + 3]);
      if descriptor.None? {
        SetFailure(UnknownType);
        return false;
      }
      var length := Or(Or(Or(Shl(inputBuffer[offset + 4], 24), Shl(inputBuffer[offset + 5], 16)),
                          Shl(inputBuffer[offset + 6], 8)), inputBuffer[offset + 7]);
      assert h[4..] == inputBuffer[offset + 4..offset + HEADER_SIZE];
      ShiftedLengthIsValue(h[4..]);
      if length > descriptor.value.maxBody {
        SetFailure(BodyTooLarge);
        return false;
      }
      frameType := descriptor.value.kind;
      bodyLength := length;
      return true;
    }

    // discardConsumedBytes
    method DiscardConsumedBytes()
      requires consumedPrefixSize <= |inputBuffer|
      modifies this`inputBuffer, this`consumedPrefixSize
      ensures inputBuffer == old(inputBuffer[consumedPrefixSize..]) && consumedPrefixSize == 0
    {
      if consumedPrefixSize > 0 {
        inputBuffer := inputBuffer[consumedPrefixSize..];
        consumedPrefixSize := 0;
      }
    }
  }
}
