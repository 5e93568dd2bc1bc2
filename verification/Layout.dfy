/** The bytes of a block header and its solution: what is hashed, what is submitted, and
    how the two are cut from the work (verus/verusscan.cpp, verus/stratum.cpp). */
module Layout {
  import opened Simd
  import opened Limbs

  const MESSAGE := 1487
  const HEADER := 140
  const PREFIX: seq<Byte> := [0xfd, 0x40, 0x05]
  const SOLUTION := 1344
  const NONCE_WORD := 120  // byte offset of header word 30

  /** Merged mining: version 7 and up with a nonzero count of merged chains. */
  predicate Merged(solution: seq<Byte>)
    requires |solution| == SOLUTION
  {
    solution[0] >= 7 && solution[5] > 0
  }

  /** The 1487 bytes that are hashed, before the nonce space is filled in. Merged
      mining zeroes the previous-block, merkle and sapling roots, nBits and nNonce of
      the header, and the two MMR roots of the solution. */
  function Canonical(data: seq<Byte>, solution: seq<Byte>): (r: seq<Byte>)
    requires |data| == 192 && |solution| == SOLUTION
    ensures |r| == MESSAGE
  {
    if Merged(solution) then
      data[..4] + Zeros(96) + data[100..104] + Zeros(36) + PREFIX + solution[..8] + Zeros(64) + solution[72..]
    else
      data[..HEADER] + PREFIX + solution
  }

  /** The first 11 bytes of the nonce space: pool nonce and thread bytes of the header
      when merged mining cleared them there, zero otherwise. */
  function Space(data: seq<Byte>, solution: seq<Byte>): (r: seq<Byte>)
    requires |data| == 192 && |solution| == SOLUTION
    ensures |r| == 11
  {
    if Merged(solution) then data[108..115] + data[128..132] else Zeros(11)
  }

  /** The message of a candidate nonce. */
  function Message(data: seq<Byte>, solution: seq<Byte>, nonce: Limb): (r: seq<Byte>)
    requires |data| == 192 && |solution| == SOLUTION
    ensures |r| == MESSAGE
  {
    Canonical(data, solution)[..1472] + Space(data, solution) + NonceBytes(nonce)
  }

  /** The little-endian bytes of a 32-bit nonce. */
  function NonceBytes(nonce: Limb): (r: seq<Byte>)
    ensures |r| == 4
  {
    LittleBytes(nonce)
  }

  //
  // Header words
  //

  lemma WordRoundTrip(b: seq<Byte>, off: nat)
    requires off + 4 <= |b|
    ensures WordBytes(WordAt(b, off)) == b[off..off + 4]
  {
    SplitWord(b[off], b[off + 1], b[off + 2], b[off + 3]);
  }

  lemma SplitWord(b0: Byte, b1: Byte, b2: Byte, b3: Byte)
    ensures var w := (b0 as bv32) | ((b1 as bv32) << 8) | ((b2 as bv32) << 16) | ((b3 as bv32) << 24);
            && (w & 0xff) as bv8 == b0 && ((w >> 8) & 0xff) as bv8 == b1
            && ((w >> 16) & 0xff) as bv8 == b2 && (w >> 24) as bv8 == b3
  {
  }

  /** The 1487 bytes a submission stands for: the header with the recorded nonce word
      put back, then the first 1347 bytes of `extra`. */
  function Submitted(data: seq<Byte>, extra: seq<Byte>, nonceWord: bv32): (r: seq<Byte>)
    requires |data| == 192 && |extra| == 1388
    ensures |r| == MESSAGE
  {
    data[..NONCE_WORD] + WordBytes(nonceWord) + data[NONCE_WORD + 4..HEADER] + extra[..1347]
  }

  /** The nonce word a scan leaves in the header: that of the canonical copy plus one. */
  function NextWord(data: seq<Byte>, solution: seq<Byte>): (r: seq<Byte>)
    requires |data| == 192 && |solution| == SOLUTION
    ensures |r| == 4
  {
    WordBytes(WordAt(Canonical(data, solution), NONCE_WORD) + 1)
  }

  /** Under merged mining the canonical nonce is cleared, so the next word is always 1. */
  lemma MergedNextWord(data: seq<Byte>, solution: seq<Byte>)
    requires |data| == 192 && |solution| == SOLUTION && Merged(solution)
    ensures NextWord(data, solution) == [1, 0, 0, 0]
  {
    var c := Canonical(data, solution);
    var head := data[..4] + Zeros(96) + data[100..104];
    assert c[|head|..HEADER] == Zeros(36);
    assert c[NONCE_WORD..NONCE_WORD + 4] == Zeros(36)[16..20];
    assert c[NONCE_WORD] == 0 && c[NONCE_WORD + 1] == 0 && c[NONCE_WORD + 2] == 0 && c[NONCE_WORD + 3] == 0;
    assert WordAt(c, NONCE_WORD) == 0;
  }

  /** The header after a scan: the nonce word of `full` plus one. */
  function MovedData(data: seq<Byte>, full: seq<Byte>): (r: seq<Byte>)
    requires |data| == 192 && |full| == MESSAGE
    ensures |r| == 192
  {
    data[..NONCE_WORD] + WordBytes(WordAt(full, NONCE_WORD) + 1) + data[NONCE_WORD + 4..]
  }

  lemma HeaderWritten(f: seq<Byte>, rest: seq<Byte>, word: seq<Byte>)
    requires |f| == MESSAGE && |word| == 4
    ensures var d := f[..HEADER] + rest;
      d[..NONCE_WORD] + word + d[NONCE_WORD + 4..] == f[..NONCE_WORD] + word + f[NONCE_WORD + 4..HEADER] + rest
  {
  }

  //
  // Scanning what a scan left
  //

  /** When a scan found nothing and the work is scanned again, merged mining tries exactly
      the same messages again, since the nonce word that moved on is cleared; otherwise no
      message is tried twice. */
  lemma RescanRepeats(data: seq<Byte>, solution: seq<Byte>)
    requires |data| == 192 && |solution| == SOLUTION
    ensures var next := MovedData(data, Canonical(data, solution));
      && ((forall n: Limb :: Message(next, solution, n) == Message(data, solution, n)) <==> Merged(solution))
      && (!Merged(solution) ==> forall m: Limb, n: Limb :: Message(next, solution, m) != Message(data, solution, n))
  {
    if Merged(solution) {
      SameMerged(data, Canonical(data, solution), solution);
    } else {
      forall m: Limb, n: Limb
        ensures Message(MovedData(data, Canonical(data, solution)), solution, m) != Message(data, solution, n)
      {
        DifferentMessages(data, solution, m, n);
      }
      var zero: Limb := 0;
      assert Message(MovedData(data, Canonical(data, solution)), solution, zero) != Message(data, solution, zero);
    }
  }

  lemma SameMerged(data: seq<Byte>, full: seq<Byte>, solution: seq<Byte>)
    requires |data| == 192 && |full| == MESSAGE && |solution| == SOLUTION && Merged(solution)
    ensures Canonical(MovedData(data, full), solution) == Canonical(data, solution)
    ensures Space(MovedData(data, full), solution) == Space(data, solution)
  {
    var next := MovedData(data, full);
    assert next[..4] == data[..4] && next[100..104] == data[100..104];
    assert next[108..115] == data[108..115] && next[128..132] == data[128..132];
  }

  lemma DifferentMessages(data: seq<Byte>, solution: seq<Byte>, m: Limb, n: Limb)
    requires |data| == 192 && |solution| == SOLUTION && !Merged(solution)
    ensures Message(MovedData(data, Canonical(data, solution)), solution, m) != Message(data, solution, n)
  {
    var full := Canonical(data, solution);
    HeaderWord(data, solution, n);
    HeaderWord(MovedData(data, full), solution, m);
    MovedWord(data, full);
    assert full[NONCE_WORD..NONCE_WORD + 4] == data[NONCE_WORD..NONCE_WORD + 4];
    WordRoundTrip(full, NONCE_WORD);
    NextDiffers(WordAt(full, NONCE_WORD));
  }

  /** Without merged mining the message has the header's own nonce word. */
  lemma HeaderWord(data: seq<Byte>, solution: seq<Byte>, n: Limb)
    requires |data| == 192 && |solution| == SOLUTION && !Merged(solution)
    ensures Message(data, solution, n)[NONCE_WORD..NONCE_WORD + 4] == data[NONCE_WORD..NONCE_WORD + 4]
  {
  }

  lemma MovedWord(data: seq<Byte>, full: seq<Byte>)
    requires |data| == 192 && |full| == MESSAGE
    ensures MovedData(data, full)[NONCE_WORD..NONCE_WORD + 4] == WordBytes(WordAt(full, NONCE_WORD) + 1)
  {
  }

  lemma NextDiffers(w: bv32)
    ensures WordBytes(w + 1) != WordBytes(w)
  {
    assert WordBytes(w)[0] == (w & 0xff) as bv8 && WordBytes(w + 1)[0] == ((w + 1) & 0xff) as bv8;
  }

  //
  // Submitting
  //

  /** The nonce field of the header with the recorded word put back. */
  function NonceField(data: seq<Byte>, nonceWord: bv32): (r: seq<Byte>)
    requires |data| == 192
    ensures |r| == 32
  {
    data[108..NONCE_WORD] + WordBytes(nonceWord) + data[NONCE_WORD + 4..HEADER]
  }

  lemma SubmittedParts(data: seq<Byte>, extra: seq<Byte>, word: bv32)
    requires |data| == 192 && |extra| == 1388
    ensures var m := Submitted(data, extra, word);
      m[HEADER..] == extra[..1347] && m[108..HEADER] == NonceField(data, word)
  {
  }

  /** The solution as the pool is to see it: what was hashed, with the two roots that
      merged mining clears put back from the pool's own solution. */
  function Spliced(extra: seq<Byte>, solution: seq<Byte>): seq<Byte>
    requires |extra| == 1347 && |solution| == SOLUTION
  {
    extra[..11] + solution[8..72] + extra[75..]
  }

  /** The splice undoes the clearing, on both branches: the message's solution part with
      the roots put back is the pool's own solution up to the nonce space. */
  lemma SpliceUndoesClearing(data: seq<Byte>, solution: seq<Byte>, nonce: Limb)
    requires |data| == 192 && |solution| == SOLUTION
    ensures Spliced(Message(data, solution, nonce)[HEADER..], solution)
         == PREFIX + solution[..1329] + Space(data, solution) + NonceBytes(nonce)
  {
    CanonicalSolution(data, solution);
    SplicePieces(Canonical(data, solution), Space(data, solution), NonceBytes(nonce), solution);
  }

  /** The slicing, for any message c whose solution part differs from `solution` at most
      in the 64 bytes of the roots. */
  lemma SplicePieces(c: seq<Byte>, space: seq<Byte>, nonce: seq<Byte>, solution: seq<Byte>)
    requires |c| == MESSAGE && |space| == 11 && |nonce| == 4 && |solution| == SOLUTION
    requires c[HEADER..HEADER + 11] == PREFIX + solution[..8] && c[HEADER + 75..] == solution[72..]
    ensures Spliced((c[..1472] + space + nonce)[HEADER..], solution) == PREFIX + solution[..1329] + space + nonce
  {
    var m := (c[..1472] + space + nonce)[HEADER..];
    assert m[..11] == c[HEADER..HEADER + 11];
    assert m[75..] == c[HEADER + 75..][..1257] + space + nonce;
    assert solution[72..][..1257] == solution[72..1329];
    assert solution[..8] + solution[8..72] + solution[72..1329] == solution[..1329];
  }

  lemma CanonicalSolution(data: seq<Byte>, solution: seq<Byte>)
    requires |data| == 192 && |solution| == SOLUTION
    ensures var c := Canonical(data, solution);
      c[HEADER..HEADER + 11] == PREFIX + solution[..8] && c[HEADER + 75..] == solution[72..]
  {
    var c := Canonical(data, solution);
    if Merged(solution) {
      var header := data[..4] + Zeros(96) + data[100..104] + Zeros(36);
      assert c == header + (PREFIX + solution[..8]) + Zeros(64) + solution[72..];
    } else {
      assert solution == solution[..8] + solution[8..72] + solution[72..];
      assert c == data[..HEADER] + (PREFIX + solution[..8]) + solution[8..72] + solution[72..];
    }
  }
}
