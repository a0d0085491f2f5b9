/** Frames byte by byte, in plain numbers. */
module FrameLayout {
  import opened Bytes
  import opened Crc16
  import opened Framing
  import opened OfflineScanner
  import opened FrameSync
  import opened SyncRuns
  import opened FrameDamage

  /** The Length in a header at `i`. */
  function LengthIn(s: seq<byte>, i: nat): int
    requires i + 8 <= |s|
  {
    s[i + 6] as int + 256 * s[i + 7] as int
  }

  /** A header at `i` with "$@" in front. */
  predicate HeaderAt(s: seq<byte>, i: nat) { i + 8 <= |s| && s[i] == 0x24 && s[i + 1] == 0x40 }

  predicate LengthFits(n: int) { n % 4 == 0 && 8 <= n <= 8188 }

  /** Every valid frame on the wire: "$@", then CRC, ID and Length, low bytes first, then the body. */
  lemma WireBytes(f: Frame)
    requires f.Valid()
    ensures f.Wire() == [0x24, 0x40, f.crc % 256, f.crc / 256, f.rawId % 256, f.rawId / 256,
                         f.length % 256, f.length / 256] + f.body
    ensures f.length == 8 + |f.body| && LengthFits(f.length) && f.BlockId() == f.rawId % 8192
    ensures f.crc == Crc([f.rawId % 256, f.rawId / 256, f.length % 256, f.length / 256] + f.body)
  {
    hide Crc;
    assert f.Covered() == [f.rawId % 256, f.rawId / 256, f.length % 256, f.length / 256] + f.body;
  }

  /**
   The verdict on every offset, from the bytes themselves: no candidate, an unacceptable Length, not
   enough bytes yet, or a complete frame of which the CRC decides.
   */
  lemma VerdictByBytes(s: seq<byte>, i: nat)
    requires i < |s|
    ensures Judge(s, i) == Skip <==> s[i] != 0x24 || (i + 1 < |s| && s[i + 1] != 0x40)
    ensures Judge(s, i) == BadLength <==> HeaderAt(s, i) && !LengthFits(LengthIn(s, i))
    ensures Judge(s, i) == Pending <==>
              || (s[i] == 0x24 && i + 1 == |s|)
              || (s[i] == 0x24 && i + 1 < |s| < i + 8 && s[i + 1] == 0x40)
              || (HeaderAt(s, i) && LengthFits(LengthIn(s, i)) && |s| < i + LengthIn(s, i))
    ensures HeaderAt(s, i) && LengthFits(LengthIn(s, i)) && i + LengthIn(s, i) <= |s| ==>
              var n, crc, id := LengthIn(s, i), s[i + 2] as int + 256 * s[i + 3] as int,
                                s[i + 4] as int + 256 * s[i + 5] as int;
              && Judge(s, i) == (if Crc(s[i + 4..i + n]) == crc then Accept(n) else BadCrc)
              && FrameAt(s, i) == Frame(crc, id, n, s[i + 8..i + n])
  {
    hide Crc;
  }

  /** A valid frame with an empty body and the ID 0. */
  const EMPTY_FRAME: seq<byte> := [0x24, 0x40, 0xA9, 0x89, 0, 0, 8, 0]

  lemma EmptyFrame()
    ensures Sealed(0, []).Valid() && Sealed(0, []) == Frame(0x89A9, 0, 8, [])
    ensures Sealed(0, []).Wire() == EMPTY_FRAME
  {
    hide Crc;
    SealedValid(0, []);
    EmptyCrcs();
    assert Le16(0) + Le16(8) + [] == [0, 0, 8, 0];
    WireBytes(Sealed(0, []));
  }

  /** However these eight bytes are cut, the synchronizer emits the frame and counts no failure. */
  method FeedEmptyFrame(chunks: seq<seq<byte>>) returns (out: seq<Frame>, stats: Stats)
    requires Concat(chunks) == EMPTY_FRAME
    ensures out == [Frame(0x89A9, 0, 8, [])] && stats == Stats(8, 1, 0, 0, 0)
  {
    hide Scan, StreamFrames, CrcHeld, LengthHeld, CrcTwice, LengthTwice, AtMostTwice, Concat, Stream, Sealed,
      Frame.Wire, Frame.Valid;
    EmptyFrame();
    OneFrameStream(Sealed(0, []));
    out, stats := FeedAll(chunks);
    assert AllValid([Sealed(0, [])]);
  }

  lemma OneFrameStream(f: Frame)
    ensures Stream([f]) == f.Wire()
  {
    hide Frame.Wire;
    assert [] + [f] == [f];
    StreamPush([], f);
    assert Stream([]) == [];
  }

  /** A frame of 8188 bytes is the longest that is accepted. */
  lemma LongestFrame()
    ensures var f := Sealed(0, Zeroes(8180));
            && f.Valid() && |f.Wire()| == 8188 && Judge(f.Wire(), 0) == Accept(8188)
    ensures forall s: seq<byte>, i: nat :: i < |s| && Judge(s, i).Accept? ==> Judge(s, i).length <= 8188
  {
    hide Crc, Frame.Wire, Zeroes;
    var f := Sealed(0, Zeroes(8180));
    SealedValid(0, Zeroes(8180));
    WireAccepted(f, []);
    assert f.Wire() + [] == f.Wire();
    hide Judge;
    forall s: seq<byte>, i: nat | i < |s| && Judge(s, i).Accept? ensures Judge(s, i).length <= 8188 {
      AcceptedFrame(s, i);
    }
  }
}
