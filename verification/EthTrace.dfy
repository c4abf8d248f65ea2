// Splitting a raw trace into Ethernet frames (utils/print_eth_trace.py:83-102, 291-314). The length of
// an IPv4 frame is its Total Length field (section 3.1 of RFC 791) after a 14-byte Ethernet header.
module EthTrace {
  import opened Bytes

  const ETH_HDR: nat := 14
  const ARP_FRAME: nat := 42
  const ETHERTYPE_IPV4: nat := 0x0800
  const ETHERTYPE_ARP: nat := 0x0806

  /** A big-endian 16-bit number. */
  function U16be(buf: seq<byte>, off: nat): (n: nat)
    requires off + 2 <= |buf|
    ensures n < 0x1_0000 && n / 0x100 == buf[off] && n % 0x100 == buf[off + 1]
  {
    buf[off] as nat * 0x100 + buf[off + 1] as nat
  }

  /** _eth_frame_len: the length of the frame at an offset, 0 if there is none. */
  function FrameLen(buf: seq<byte>, offset: nat): nat {
    if offset + ETH_HDR > |buf| then 0
    else
      var et := U16be(buf, offset + 12);
      if et == ETHERTYPE_IPV4 then
        if offset + ETH_HDR + 4 > |buf| then 0
        else
          var ipTotal := U16be(buf, offset + ETH_HDR + 2);
          if ipTotal < 20 || offset + ETH_HDR + ipTotal > |buf| then 0 else ETH_HDR + ipTotal
      else if et == ETHERTYPE_ARP then
        if offset + ARP_FRAME > |buf| then 0 else ARP_FRAME
      else 0
  }

  /** A whole frame by itself: IPv4 as long as its header says, or ARP. */
  predicate WellFormed(frame: seq<byte>) {
    || (|frame| >= ETH_HDR + 20 && U16be(frame, 12) == ETHERTYPE_IPV4 && |frame| == ETH_HDR + U16be(frame, ETH_HDR + 2))
    || (|frame| == ARP_FRAME && U16be(frame, 12) == ETHERTYPE_ARP)
  }

  /** The same byte by byte: type 08 00 and as long as bytes 16 and 17 say, or type 08 06 and 42 bytes long. */
  lemma WellFormedIff(frame: seq<byte>)
    ensures WellFormed(frame) <==>
            && |frame| >= 34 && frame[12] == 0x08
            && ((frame[13] == 0x00 && |frame| - 14 == frame[16] as int * 0x100 + frame[17] as int)
                || (frame[13] == 0x06 && |frame| == 42))
  {
  }

  function Concat(frames: seq<seq<byte>>): seq<byte> {
    if frames == [] then [] else frames[0] + Concat(frames[1..])
  }

  ghost predicate AllWellFormed(frames: seq<seq<byte>>) {
    forall i | 0 <= i < |frames| :: WellFormed(frames[i])
  }

  /** A length is found exactly if that many bytes are a whole frame. */
  lemma LengthIffWellFormed(buf: seq<byte>, offset: nat, n: nat)
    requires n > 0 && offset + n <= |buf|
    ensures FrameLen(buf, offset) == n <==> WellFormed(buf[offset..offset + n])
  {
    var frame := buf[offset..offset + n];
    if n >= ETH_HDR {
      assert frame[12] == buf[offset + 12] && frame[13] == buf[offset + 13];
      if n >= ETH_HDR + 4 {
        assert frame[16] == buf[offset + 16] && frame[17] == buf[offset + 17];
      }
    }
  }

  lemma LengthStaysInside(buf: seq<byte>, offset: nat)
    ensures FrameLen(buf, offset) > 0 ==> offset + FrameLen(buf, offset) <= |buf| && FrameLen(buf, offset) >= 34
  {
  }

  /** No whole frame at the front. */
  ghost predicate NoFrame(rest: seq<byte>) {
    forall n | 0 < n <= |rest| :: !WellFormed(rest[..n])
  }

  lemma NoFrameIffNoLength(buf: seq<byte>, offset: nat)
    requires offset <= |buf|
    ensures FrameLen(buf, offset) == 0 <==> NoFrame(buf[offset..])
  {
    hide FrameLen, WellFormed;
    var rest := buf[offset..];
    LengthStaysInside(buf, offset);
    var n := FrameLen(buf, offset);
    if n > 0 {
      LengthIffWellFormed(buf, offset, n);
      assert rest[..n] == buf[offset..offset + n];
    } else {
      forall m | 0 < m <= |rest| ensures !WellFormed(rest[..m]) {
        LengthIffWellFormed(buf, offset, m);
        assert rest[..m] == buf[offset..offset + m];
      }
    }
  }

  lemma {:induction false} ConcatGrows(frames: seq<seq<byte>>, frame: seq<byte>)
    ensures Concat(frames + [frame]) == Concat(frames) + frame
  {
    if frames == [] {
      assert [] + [frame] == [frame] && [frame][1..] == [];
    } else {
      assert (frames + [frame])[1..] == frames[1..] + [frame];
      ConcatGrows(frames[1..], frame);
    }
  }

  /** Each well-formed frame has at least 34 bytes. */
  lemma {:induction false} FramesAreLong(frames: seq<seq<byte>>)
    requires AllWellFormed(frames)
    ensures |Concat(frames)| >= 34 * |frames|
  {
    if frames != [] {
      FramesAreLong(frames[1..]);
    }
  }

  /** The loop of parse_trace: the frames tile the buffer up to where no frame begins. */
  method ParseTrace(buf: seq<byte>) returns (frames: seq<seq<byte>>, offset: nat)
    ensures offset <= |buf| && Concat(frames) == buf[..offset]
    ensures AllWellFormed(frames) && NoFrame(buf[offset..])
    ensures 34 * |frames| <= |buf|
  {
    hide FrameLen, WellFormed, Concat;
    assert Concat([]) == [] by { NothingConcatenated(); }
    frames, offset := [], 0;
    while offset < |buf|
      invariant offset <= |buf| && Concat(frames) == buf[..offset] && AllWellFormed(frames)
      decreases |buf| - offset
    {
      var flen := FrameLen(buf, offset);
      NoFrameIffNoLength(buf, offset);
      LengthStaysInside(buf, offset);
      if flen == 0 {
        break;
      }
      LengthIffWellFormed(buf, offset, flen);
      ConcatGrows(frames, buf[offset..offset + flen]);
      assert buf[..offset] + buf[offset..offset + flen] == buf[..offset + flen];
      frames := frames + [buf[offset..offset + flen]];
      offset := offset + flen;
    }
    FramesAreLong(frames);
  }

  lemma NothingConcatenated()
    ensures Concat([]) == []
  {
  }

  /** Of two well-formed frames neither begins with the other. */
  lemma FramesArePrefixFree(a: seq<byte>, b: seq<byte>)
    requires WellFormed(a) && WellFormed(b) && a <= b
    ensures a == b
  {
    hide FrameLen, WellFormed;
    assert b[0..|a|] == a && b[0..|b|] == b;
    assert |a| > 0 && |b| > 0 by { NotEmpty(a); NotEmpty(b); }
    LengthIffWellFormed(b, 0, |a|);
    LengthIffWellFormed(b, 0, |b|);
  }

  lemma NotEmpty(frame: seq<byte>)
    requires WellFormed(frame)
    ensures |frame| >= 34
  {
  }

  lemma HeadOfConcat(fs: seq<seq<byte>>, r: seq<byte>)
    requires fs != []
    ensures |fs[0]| <= |Concat(fs) + r| && (Concat(fs) + r)[..|fs[0]|] == fs[0]
    ensures (Concat(fs) + r)[|fs[0]|..] == Concat(fs[1..]) + r
  {
    assert Concat(fs) + r == fs[0] + (Concat(fs[1..]) + r);
  }

  /** A buffer that begins with a frame is not one that begins no frame. */
  lemma NoFrameIsNoConcat(fs: seq<seq<byte>>, r: seq<byte>)
    requires AllWellFormed(fs) && NoFrame(Concat(fs) + r)
    ensures fs == []
  {
    hide WellFormed, Concat;
    if fs != [] {
      HeadOfConcat(fs, r);
      NotEmpty(fs[0]);
    }
  }

  /** A buffer is frames followed by something that begins no frame in one way only. */
  lemma {:induction false} SplittingIsUnique(fs: seq<seq<byte>>, r: seq<byte>, gs: seq<seq<byte>>, t: seq<byte>)
    requires AllWellFormed(fs) && AllWellFormed(gs) && NoFrame(r) && NoFrame(t)
    requires Concat(fs) + r == Concat(gs) + t
    ensures fs == gs && r == t
    decreases |fs| + |gs|
  {
    NothingConcatenated();
    hide WellFormed, Concat, NoFrame;
    if fs == [] || gs == [] {
      assert [] + r == r && [] + t == t;
      if fs == [] {
        NoFrameIsNoConcat(gs, t);
      } else {
        NoFrameIsNoConcat(fs, r);
      }
    } else {
      HeadOfConcat(fs, r);
      HeadOfConcat(gs, t);
      if |fs[0]| <= |gs[0]| {
        assert gs[0][..|fs[0]|] == fs[0];
        FramesArePrefixFree(fs[0], gs[0]);
      } else {
        assert fs[0][..|gs[0]|] == gs[0];
        FramesArePrefixFree(gs[0], fs[0]);
      }
      SplittingIsUnique(fs[1..], r, gs[1..], t);
      assert fs == [fs[0]] + fs[1..] && gs == [gs[0]] + gs[1..];
    }
  }

  /** What ParseTrace finds in a concatenation of frames is those frames, with nothing left. */
  lemma ConcatenationSplitsBack(sent: seq<seq<byte>>, found: seq<seq<byte>>, offset: nat)
    requires AllWellFormed(sent) && AllWellFormed(found) && offset <= |Concat(sent)|
    requires Concat(found) == Concat(sent)[..offset] && NoFrame(Concat(sent)[offset..])
    ensures found == sent && offset == |Concat(sent)|
  {
    hide WellFormed, Concat;
    var buf := Concat(sent);
    assert NoFrame([]);
    assert buf + [] == buf && buf[..offset] + buf[offset..] == buf;
    SplittingIsUnique(sent, [], found, buf[offset..]);
  }
}
