/** Filling the 64-byte hash buffers: the copies, and the byte rotations in the form each
    build computes them. */
module Fills {
  import opened Simd

  /** `memcpy` of `src` to offset `at`. */
  method CopyTo(dst: array<Byte>, at: nat, src: seq<Byte>)
    requires at + |src| <= dst.Length
    modifies dst
    ensures dst[..] == old(dst[..at]) + src + old(dst[at + |src|..])
  {
    forall k | 0 <= k < |src| {
      dst[at + k] := src[k];
    }
  }

  /** The 17 filler bytes at the end of a hash buffer: a source repeated cyclically. */
  function Fill(src: seq<Byte>): (r: seq<Byte>)
    requires |src| > 0
    ensures |r| == 17
  {
    seq(17, j requires 0 <= j < 17 => src[j % |src|])
  }

  //
  // Rotations
  //

  type Control = x: nat | x < 256

  /** NEON `vext`: two registers joined, 16 bytes from byte n on. */
  function Vext(a: seq<Byte>, b: seq<Byte>, n: nat): (r: seq<Byte>)
    requires |a| == |b| == 16 && n <= 16
    ensures |r| == 16
  {
    (a + b)[n..n + 16]
  }

  /** What PSHUFB selects for one control byte: zero when its top bit is set. */
  function Selected(x: seq<Byte>, c: Control): Byte
    requires |x| == 16
  {
    if c >= 128 then 0 else x[c % 16]
  }

  lemma SelectedIs(x: seq<Byte>, c: Control)
    requires |x| == 16 && c < 16
    ensures Selected(x, c) == x[c]
  {
  }

  function Pshufb(x: seq<Byte>, control: seq<Control>): (r: seq<Byte>)
    requires |x| == |control| == 16
    ensures |r| == 16
    ensures forall i :: 0 <= i < 16 ==> r[i] == Selected(x, control[i])
  {
    seq(16, i requires 0 <= i < 16 => Selected(x, control[i]))
  }

  /** The first byte moved to the end. */
  function Rotated(x: seq<Byte>): (r: seq<Byte>)
    requires |x| == 16
    ensures |r| == 16
  {
    x[1..] + x[..1]
  }

  //
  // The fill of the candidates' buffers
  //

  /** `shuf1`. */
  function RotateControl(): (r: seq<Control>)
    ensures |r| == 16 && forall i :: 0 <= i < 16 ==> r[i] == if i == 15 then 0 else i + 1
  {
    [1, 2, 3, 4, 5, 6, 7, 8, 9, 10, 11, 12, 13, 14, 15, 0]
  }

  function Fill1(arm: bool, first: seq<Byte>): (r: seq<Byte>)
    requires |first| == 16
    ensures |r| == 16
  {
    if arm then Vext(first, first, 1) else Pshufb(first, RotateControl())
  }

  /** Both builds rotate the first block of the state by one byte. */
  lemma Fill1Forms(arm: bool, first: seq<Byte>)
    requires |first| == 16
    ensures Fill1(arm, first) == Rotated(first)
  {
    if !arm {
      var r := Pshufb(first, RotateControl());
      forall i | 0 <= i < 16 ensures r[i] == Rotated(first)[i] {
        SelectedIs(first, RotateControl()[i]);
      }
      assert r == Rotated(first);
    }
  }

  //
  // The fill of the final buffer
  //

  /** `shuf2`. */
  function RepeatControl(): (r: seq<Control>)
    ensures |r| == 16
    ensures forall i :: 0 <= i < 16 ==> r[i] == if i == 7 || i == 15 then 0 else if i < 7 then i + 1 else i - 7
  {
    [1, 2, 3, 4, 5, 6, 7, 0, 1, 2, 3, 4, 5, 6, 7, 0]
  }

  /** ARM duplicates the eight bytes; x86 loads them below eight zero bytes. */
  function Fill2(arm: bool, b: seq<Byte>): (r: seq<Byte>)
    requires |b| == 8
    ensures |r| == 16
  {
    if arm then Vext(b + b, b + b, 1) else Pshufb(b + [0, 0, 0, 0, 0, 0, 0, 0], RepeatControl())
  }

  /** Both builds rotate the repeated eight bytes by one. */
  lemma Fill2Forms(arm: bool, b: seq<Byte>)
    requires |b| == 8
    ensures Fill2(arm, b) == Rotated(b + b)
  {
    if !arm {
      var x := b + [0, 0, 0, 0, 0, 0, 0, 0];
      var r := Pshufb(x, RepeatControl());
      forall i | 0 <= i < 16 ensures r[i] == Rotated(b + b)[i] {
        SelectedIs(x, RepeatControl()[i]);
      }
      assert r == Rotated(b + b);
    }
  }

  //
  // In the buffers
  //

  /** A first byte and its rotation make the fill. */
  lemma BlockFill(first: seq<Byte>)
    requires |first| == 16
    ensures [first[0]] + Rotated(first) == Fill(first)
  {
    forall j | 0 <= j < 17 ensures ([first[0]] + Rotated(first))[j] == Fill(first)[j] {
      assert j < 16 ==> j % 16 == j;
    }
  }

  lemma RepeatFill(b: seq<Byte>)
    requires |b| == 8
    ensures [b[0]] + Rotated(b + b) == Fill(b)
  {
    forall j | 0 <= j < 17 ensures ([b[0]] + Rotated(b + b))[j] == Fill(b)[j] {
      if j < 8 {
        assert j % 8 == j;
      } else if j < 16 {
        assert j % 8 == j - 8;
      } else {
        assert j % 8 == 0;
      }
    }
  }

  /** The last 17 bytes of a buffer. */
  method StoreFill(curBuf: array<Byte>, first: Byte, fill: seq<Byte>)
    requires curBuf.Length == 64 && |fill| == 16
    modifies curBuf
    ensures curBuf[..] == old(curBuf[..47]) + ([first] + fill)
  {
    ghost var kept := curBuf[..47];
    CopyTo(curBuf, 48, fill);
    curBuf[47] := first;
    assert curBuf[..] == curBuf[..47] + [curBuf[47]] + curBuf[48..];
    assert curBuf[..47] == kept && curBuf[48..] == fill;
  }

  /** The nonce in front of them. */
  method StoreNonce(curBuf: array<Byte>, nonce: seq<Byte>)
    requires curBuf.Length == 64 && |nonce| == 4
    modifies curBuf
    ensures curBuf[..] == old(curBuf[..43]) + nonce + old(curBuf[47..])
  {
    CopyTo(curBuf, 43, nonce);
  }
}
