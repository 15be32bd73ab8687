/** On-disk framing of the record store: every record is an 8-byte unsigned
    big-endian length header followed by exactly that many payload bytes,
    and the stream is the concatenation of the framed records. */
module Framing {

  newtype byte = x: int | 0 <= x < 256

  /** Number of bytes of the length header written before every record. */
  const LenWidth: nat := 8

  /** 2^64: every header value is a uint64. */
  const TwoTo64: nat := 0x1_0000_0000_0000_0000

  /** Largest length a Go slice can have on a 64-bit platform (MaxInt64). */
  const MaxPayload: nat := 0x7fff_ffff_ffff_ffff

  function Pow256(k: nat): (r: nat)
    ensures r >= 1
  {
    if k == 0 then 1 else 256 * Pow256(k - 1)
  }

  lemma Pow256Width()
    ensures Pow256(LenWidth) == TwoTo64
  {
    assert Pow256(4) == 0x1_0000_0000;
  }

  /** The `width` low-order base-256 digits of `n`, most significant first. */
  function EncodeBE(n: nat, width: nat): (r: seq<byte>)
    ensures |r| == width
  {
    if width == 0 then [] else EncodeBE(n / 256, width - 1) + [(n % 256) as byte]
  }

  /** The number whose big-endian base-256 digits are `s`. */
  function DecodeBE(s: seq<byte>): (r: nat)
    ensures r < Pow256(|s|)
  {
    if s == [] then 0
    else
      var hi := DecodeBE(s[..|s| - 1]);
      assert hi * 256 <= (Pow256(|s| - 1) - 1) * 256;
      hi * 256 + s[|s| - 1] as nat
  }

  /** Decoding undoes encoding for every value that fits the width. */
  lemma {:induction false} DecodeEncode(n: nat, width: nat)
    requires n < Pow256(width)
    ensures DecodeBE(EncodeBE(n, width)) == n
  {
    if width > 0 {
      var e := EncodeBE(n, width);
      assert e[..width - 1] == EncodeBE(n / 256, width - 1);
      DecodeEncode(n / 256, width - 1);
      assert e[width - 1] as nat == n % 256;
    }
  }

  /** Encoding undoes decoding: every byte string of the width is an encoding. */
  lemma {:induction false} EncodeDecode(s: seq<byte>)
    ensures EncodeBE(DecodeBE(s), |s|) == s
  {
    if s != [] {
      var init, last := s[..|s| - 1], s[|s| - 1];
      var d := DecodeBE(s);
      assert d == DecodeBE(init) * 256 + last as nat;
      assert d / 256 == DecodeBE(init) && d % 256 == last as nat;
      EncodeDecode(init);
      assert s == init + [last];
    }
  }

  /** The uint64 header as `binary.Write(w, binary.BigEndian, v)` writes it. */
  function EncodeU64BE(n: nat): (r: seq<byte>)
    requires n < TwoTo64
    ensures |r| == LenWidth
    ensures DecodeU64BE(r) == n
  {
    Pow256Width();
    DecodeEncode(n, LenWidth);
    assert EncodeBE(n, LenWidth)[..LenWidth] == EncodeBE(n, LenWidth);
    EncodeBE(n, LenWidth)
  }

  /** The uint64 that `binary.BigEndian.Uint64(b)` reads from the first 8 bytes of `b`. */
  function DecodeU64BE(b: seq<byte>): (r: nat)
    requires |b| >= LenWidth
    ensures r < TwoTo64
  {
    Pow256Width();
    DecodeBE(b[..LenWidth])
  }

  /** The header encoding is onto: the first 8 bytes of any buffer are the
      encoding of the value read from them. */
  lemma U64Inverse(b: seq<byte>)
    requires |b| >= LenWidth
    ensures EncodeU64BE(DecodeU64BE(b)) == b[..LenWidth]
  {
    EncodeDecode(b[..LenWidth]);
  }

  /** A record as the store lays it out: header, then payload. The header is
      the payload's length written as a uint64. This is not a second header
      encoding: it is `EncodeU64BE` without that function's precondition, so
      that `Frame`, `Frames` and `Positions` stay total and cheap to unfold;
      `FrameHeader` says the two agree whenever the length fits. */
  function Frame(p: seq<byte>): (r: seq<byte>)
    ensures |r| == LenWidth + |p|
    ensures r[LenWidth..] == p
  {
    EncodeBE(|p|, LenWidth) + p
  }

  lemma FrameHeader(p: seq<byte>)
    requires |p| < TwoTo64
    ensures Frame(p) == EncodeU64BE(|p|) + p
    ensures Frame(p)[..LenWidth] == EncodeU64BE(|p|)
    ensures DecodeU64BE(Frame(p)) == |p|
  {
    var h := EncodeU64BE(|p|);
    assert (h + p)[..LenWidth] == h[..LenWidth];
  }

  /** Every record is no longer than a slice can be, so its length fits the header. */
  ghost predicate Encodable(recs: seq<seq<byte>>)
  {
    forall i :: 0 <= i < |recs| ==> |recs[i]| <= MaxPayload
  }

  /** The stream that results from framing `recs` one after another: at
      least one header's worth of bytes per record. */
  function Frames(recs: seq<seq<byte>>): (r: seq<byte>)
    ensures |r| >= 8 * |recs|
  {
    if recs == [] then []
    else Frames(recs[..|recs| - 1]) + Frame(recs[|recs| - 1])
  }

  lemma {:induction false} FramesAppend(a: seq<seq<byte>>, b: seq<seq<byte>>)
    ensures Frames(a + b) == Frames(a) + Frames(b)
  {
    if b != [] {
      var init := b[..|b| - 1];
      assert (a + b)[..|a + b| - 1] == a + init;
      FramesAppend(a, init);
    } else {
      assert a + b == a;
    }
  }

  /** The offsets at which the records of `recs` begin when the stream starts at `base`. */
  function Positions(base: nat, recs: seq<seq<byte>>): (r: seq<nat>)
    ensures |r| == |recs|
  {
    if recs == [] then []
    else
      var init := recs[..|recs| - 1];
      Positions(base, init) + [base + |Frames(init)|]
  }

  /** The i-th position is the offset just past the first i frames. */
  lemma {:induction false} PositionAt(base: nat, recs: seq<seq<byte>>, i: nat)
    requires i < |recs|
    ensures Positions(base, recs)[i] == base + |Frames(recs[..i])|
  {
    var init := recs[..|recs| - 1];
    if i < |recs| - 1 {
      PositionAt(base, init, i);
      assert init[..i] == recs[..i];
    } else {
      assert init == recs[..i];
    }
  }

  /** The first record begins at `base`. */
  lemma {:induction false} PositionsFirst(base: nat, recs: seq<seq<byte>>)
    requires |recs| > 0
    ensures Positions(base, recs)[0] == base
  {
    PositionAt(base, recs, 0);
    assert recs[..0] == [];
  }

  /** Sequential accounting: each next record begins 8 + len(payload) bytes
      after the previous one. */
  lemma PositionsStep(base: nat, recs: seq<seq<byte>>, i: nat)
    requires i + 1 < |recs|
    ensures Positions(base, recs)[i + 1] == Positions(base, recs)[i] + LenWidth + |recs[i]|
  {
    PositionAt(base, recs, i);
    PositionAt(base, recs, i + 1);
    assert recs[..i + 1][..i] == recs[..i];
  }

  /** Records occupy disjoint byte ranges: a later record begins at or after
      the end of every earlier one. */
  lemma {:induction false} PositionsDisjoint(base: nat, recs: seq<seq<byte>>, i: nat, j: nat)
    requires i < j < |recs|
    ensures Positions(base, recs)[i] + LenWidth + |recs[i]| <= Positions(base, recs)[j]
  {
    PositionsStep(base, recs, j - 1);
    if i < j - 1 {
      PositionsDisjoint(base, recs, i, j - 1);
    }
  }

  /** A stream of framed records seen around its i-th record. */
  lemma FramesSplit(recs: seq<seq<byte>>, i: nat)
    requires i < |recs|
    ensures Frames(recs) == Frames(recs[..i]) + Frame(recs[i]) + Frames(recs[i + 1..])
  {
    var upto, rest := recs[..i + 1], recs[i + 1..];
    assert Frames(recs) == Frames(upto) + Frames(rest) by {
      assert recs == upto + rest;
      FramesAppend(upto, rest);
    }
    assert Frames(upto) == Frames(recs[..i]) + Frame(recs[i]) by {
      assert upto[..|upto| - 1] == recs[..i];
    }
  }

  lemma Regroup(p: seq<byte>, a: seq<byte>, m: seq<byte>, b: seq<byte>)
    ensures p + (a + m + b) == (p + a) + m + b
  {
  }

  lemma SliceMiddle(a: seq<byte>, m: seq<byte>, b: seq<byte>)
    ensures (a + m + b)[|a|..|a| + |m|] == m
  {
  }

  /** Appending one record extends the stream by its frame and the positions
      by the old end of the stream. */
  lemma {:induction false} FramesSnoc(base: nat, recs: seq<seq<byte>>, p: seq<byte>)
    ensures Frames(recs + [p]) == Frames(recs) + Frame(p)
    ensures Positions(base, recs + [p]) == Positions(base, recs) + [base + |Frames(recs)|]
  {
    assert (recs + [p])[..|recs|] == recs;
  }

  lemma EncodableSnoc(recs: seq<seq<byte>>, p: seq<byte>)
    requires Encodable(recs) && |p| <= MaxPayload
    ensures Encodable(recs + [p])
  {
    assert forall i :: 0 <= i < |recs| ==> (recs + [p])[i] == recs[i];
  }
}
