/** What the bytes of a message mean. */
module LayoutLaws {
  import opened Simd
  import opened Limbs
  import opened BitNumbers
  import opened Octets
  import opened Layout

  /** A nonce is stored least significant byte first. */
  lemma NonceBytesValue(nonce: Limb)
    ensures LittleEndian(Nums(NonceBytes(nonce))) == nonce
  {
    LittleBytesValue(nonce);
  }

  /** Different nonces make different messages, and nothing else changes. */
  lemma NonceDecidesMessage(data: seq<Byte>, solution: seq<Byte>, m: Limb, n: Limb)
    requires |data| == 192 && |solution| == SOLUTION
    ensures Message(data, solution, m) == Message(data, solution, n) <==> m == n
    ensures Message(data, solution, m)[..MESSAGE - 4] == Message(data, solution, n)[..MESSAGE - 4]
    ensures LittleEndian(Nums(Message(data, solution, n)[MESSAGE - 4..])) == n
  {
    NonceAtEnd(data, solution, m);
    NonceAtEnd(data, solution, n);
    NonceBytesValue(m);
    NonceBytesValue(n);
  }

  lemma NonceAtEnd(data: seq<Byte>, solution: seq<Byte>, n: Limb)
    requires |data| == 192 && |solution| == SOLUTION
    ensures Message(data, solution, n)[MESSAGE - 4..] == NonceBytes(n)
    ensures Message(data, solution, n)[..MESSAGE - 4] == Canonical(data, solution)[..1472] + Space(data, solution)
  {
  }

  /** The three bytes in front of the solution are its length as a compact size. */
  lemma PrefixIsLength()
    ensures PREFIX[0] == 0xfd && LittleEndian(Nums(PREFIX[1..])) == SOLUTION
  {
    var s := Nums(PREFIX[1..]);
    PrefixNums();
    assert s[1..][1..] == [];
    assert LittleEndian(s[1..]) == s[1] + 256 * LittleEndian(s[1..][1..]);
  }

  lemma PrefixNums()
    ensures Nums(PREFIX[1..]) == [64, 5]
  {
    assert PREFIX[1..][0] == 0x40 && PREFIX[1..][1] == 0x05;
    assert Num(0x40) == 64 && Num(0x05) == 5;
  }

  /** A register holds 16 consecutive bytes, in order. */
  lemma LoadKeepsBytes(b: seq<Byte>, off: nat)
    requires off + 16 <= |b|
    ensures var v := Load(b, off);
      WordBytes(v.w0) + WordBytes(v.w1) + WordBytes(v.w2) + WordBytes(v.w3) == b[off..off + 16]
  {
    WordRoundTrip(b, off);
    WordRoundTrip(b, off + 4);
    WordRoundTrip(b, off + 8);
    WordRoundTrip(b, off + 12);
    assert b[off..off + 16] == b[off..off + 4] + b[off + 4..off + 8] + b[off + 8..off + 12] + b[off + 12..off + 16];
  }
}
