/** Hexadecimal conversion (util.cpp): `cbin2hex` and `hex2bin`, with what `strtol` makes
    of a two-character string. */
module Hex {
  import opened Simd
  import opened HexPairs

  /** The digit of a four-bit value. */
  function DigitChar(x: Byte): char {
    if x == 0 then '0'
    else if x == 1 then '1'
    else if x == 2 then '2'
    else if x == 3 then '3'
    else if x == 4 then '4'
    else if x == 5 then '5'
    else if x == 6 then '6'
    else if x == 7 then '7'
    else if x == 8 then '8'
    else if x == 9 then '9'
    else if x == 10 then 'a'
    else if x == 11 then 'b'
    else if x == 12 then 'c'
    else if x == 13 then 'd'
    else if x == 14 then 'e'
    else 'f'
  }

  /** `%02x` of one byte. */
  function HexPair(b: Byte): (r: string)
    ensures |r| == 2
  {
    [DigitChar(b >> 4), DigitChar(b & 0xf)]
  }

  function HexOf(bs: seq<Byte>): (r: string)
    ensures |r| == 2 * |bs|
  {
    if bs == [] then "" else HexPair(bs[0]) + HexOf(bs[1..])
  }

  lemma {:induction false} HexConcat(a: seq<Byte>, b: seq<Byte>)
    ensures HexOf(a + b) == HexOf(a) + HexOf(b)
  {
    if a == [] {
      assert a + b == b;
    } else {
      HexConcat(a[1..], b);
      assert (a + b)[1..] == a[1..] + b && (a + b)[0] == a[0];
      var p, x, y := HexPair(a[0]), HexOf(a[1..]), HexOf(b);
      assert HexOf(a + b) == p + (x + y);
      assert p + (x + y) == (p + x) + y;
    }
  }

  //
  // strtol
  //

  /** The value of a hexadecimal digit of either case; 0xff for anything else. */
  function DigitValue(c: char): Byte {
    if c == '0' then 0
    else if c == '1' then 1
    else if c == '2' then 2
    else if c == '3' then 3
    else if c == '4' then 4
    else if c == '5' then 5
    else if c == '6' then 6
    else if c == '7' then 7
    else if c == '8' then 8
    else if c == '9' then 9
    else if c == 'a' || c == 'A' then 10
    else if c == 'b' || c == 'B' then 11
    else if c == 'c' || c == 'C' then 12
    else if c == 'd' || c == 'D' then 13
    else if c == 'e' || c == 'E' then 14
    else if c == 'f' || c == 'F' then 15
    else 0xff
  }

  predicate IsDigit(c: char) {
    DigitValue(c) != 0xff
  }

  /** By character code. */
  lemma DigitCode(c: char)
    ensures '0' <= c <= '9' ==> DigitValue(c) as int == c as int - '0' as int
    ensures 'a' <= c <= 'f' ==> DigitValue(c) as int == c as int - 'a' as int + 10
    ensures 'A' <= c <= 'F' ==> DigitValue(c) as int == c as int - 'A' as int + 10
    ensures IsDigit(c) <==> '0' <= c <= '9' || 'a' <= c <= 'f' || 'A' <= c <= 'F'
  {
  }

  predicate Blank(c: char) {
    c == ' ' || ('\t' <= c <= '\r')
  }

  /** White space and signs are skipped before the digits. */
  predicate Skipped(c: char) {
    Blank(c) || c == '+' || c == '-'
  }

  /** What `strtol` returns for the string c d, base 16, cut to a byte. */
  function PairValue(c: char, d: char): Byte {
    if IsDigit(c) && IsDigit(d) then (DigitValue(c) << 4) | DigitValue(d)
    else if IsDigit(c) then DigitValue(c)
    else if c == '-' && IsDigit(d) then 0 - DigitValue(d)
    else if Skipped(c) && IsDigit(d) then DigitValue(d)
    else 0
  }

  /** `strtol` consumes both characters. */
  predicate PairOk(c: char, d: char) {
    IsDigit(d) && (IsDigit(c) || Skipped(c))
  }

  function Strtol(): Parser {
    Parser(PairValue, PairOk)
  }

  /** s is `len` pairs that `strtol` consumes. */
  predicate Accepts(s: string, len: nat) {
    AcceptsBy(Strtol(), s, len)
  }

  function Unhex(s: string): seq<Byte> {
    if |s| < 2 then [] else [PairValue(s[0], s[1])] + Unhex(s[2..])
  }

  /** The bytes `hex2bin` stores: one for each pair, up to and including the first that
      `strtol` does not consume whole. */
  function Output(s: string, len: nat): (r: seq<Byte>)
    ensures |r| <= len
  {
    OutputBy(Strtol(), s, len)
  }

  lemma {:induction false} AcceptedOutput(s: string, len: nat)
    requires Accepts(s, len)
    ensures Output(s, len) == Unhex(s) && |Unhex(s)| == len
  {
    if len > 0 {
      AcceptedOutput(s[2..], len - 1);
    }
  }

  //
  // Round trips
  //

  lemma DigitRoundTrip(x: Byte)
    requires x < 16
    ensures DigitValue(DigitChar(x)) == x && Lower(DigitChar(x))
  {
  }

  lemma NibbleSplit(b: Byte)
    ensures b >> 4 < 16 && b & 0xf < 16 && ((b >> 4) << 4) | (b & 0xf) == b
  {
  }

  lemma NibbleJoin(h: Byte, l: Byte)
    requires h < 16 && l < 16
    ensures ((h << 4) | l) >> 4 == h && ((h << 4) | l) & 0xf == l
  {
  }

  lemma PairRoundTrip(b: Byte)
    ensures var p := HexPair(b); PairOk(p[0], p[1]) && PairValue(p[0], p[1]) == b
  {
    NibbleSplit(b);
    DigitRoundTrip(b >> 4);
    DigitRoundTrip(b & 0xf);
  }

  /** Every byte string is accepted back from its digits, unchanged. */
  lemma {:induction false} UnhexHex(bs: seq<Byte>)
    ensures Accepts(HexOf(bs), |bs|) && Unhex(HexOf(bs)) == bs
  {
    if bs != [] {
      PairRoundTrip(bs[0]);
      UnhexHex(bs[1..]);
      assert HexOf(bs)[2..] == HexOf(bs[1..]);
    }
  }

  lemma {:induction false} HexHasNoNul(bs: seq<Byte>)
    ensures '\0' !in HexOf(bs)
  {
    if bs != [] {
      NibbleSplit(bs[0]);
      DigitRoundTrip(bs[0] >> 4);
      DigitRoundTrip(bs[0] & 0xf);
      HexHasNoNul(bs[1..]);
    }
  }

  predicate Lower(c: char) {
    '0' <= c <= '9' || 'a' <= c <= 'f'
  }

  lemma LowerDigit(c: char)
    requires Lower(c)
    ensures DigitValue(c) < 16 && DigitChar(DigitValue(c)) == c
  {
  }

  lemma PairBack(c: char, d: char)
    requires PairOk(c, d)
    ensures HexPair(PairValue(c, d)) == [c, d] <==> Lower(c) && Lower(d)
  {
    var b := PairValue(c, d);
    NibbleSplit(b);
    DigitRoundTrip(b >> 4);
    DigitRoundTrip(b & 0xf);
    if Lower(c) && Lower(d) {
      LowerDigit(c);
      LowerDigit(d);
      NibbleJoin(DigitValue(c), DigitValue(d));
    }
  }

  lemma SamePieces(pair: string, rest: string, s: string)
    requires |pair| == 2 && |s| >= 2
    ensures pair + rest == s <==> pair == [s[0], s[1]] && rest == s[2..]
  {
    assert (pair + rest)[..2] == pair && (pair + rest)[2..] == rest;
    assert s == [s[0], s[1]] + s[2..];
  }

  lemma LowerPieces(s: string)
    requires |s| >= 2
    ensures (forall k :: 0 <= k < |s| ==> Lower(s[k]))
       <==> Lower(s[0]) && Lower(s[1]) && (forall k :: 0 <= k < |s[2..]| ==> Lower(s[2..][k]))
  {
    assert s == [s[0], s[1]] + s[2..];
  }

  /** A string that `hex2bin` accepts is the one `cbin2hex` would print exactly when it
      is made of lower-case digits: signs, blanks and capitals are accepted but not
      reproduced. */
  lemma {:induction false} HexUnhex(s: string, len: nat)
    requires Accepts(s, len)
    ensures HexOf(Unhex(s)) == s <==> forall k :: 0 <= k < |s| ==> Lower(s[k])
  {
    if len > 0 {
      var rest := HexOf(Unhex(s[2..]));
      HexUnhex(s[2..], len - 1);
      PairBack(s[0], s[1]);
      var pair := HexPair(PairValue(s[0], s[1]));
      assert Unhex(s)[1..] == Unhex(s[2..]);
      assert HexOf(Unhex(s)) == pair + rest;
      SamePieces(pair, rest, s);
      LowerPieces(s);
    }
  }

  /** For instance "-5" is accepted as the byte 251, which is printed as "fb". */
  lemma SignAccepted()
    ensures Accepts("-5", 1) && Unhex("-5") == [0xfb] && HexOf(Unhex("-5")) == "fb"
  {
    assert "-5"[2..] == "";
    assert DigitValue('5') == 5 && DigitValue('-') == 0xff && PairValue('-', '5') == 0xfb;
    assert HexPair(0xfb) == "fb";
    assert [0xfb as Byte][1..] == [];
  }

  //
  // The loops
  //

  /** One `sprintf`. */
  method PutPair(out: array<char>, at: nat, pair: string)
    requires at + 2 < out.Length && |pair| == 2
    modifies out
    ensures out[..at + 2] == old(out[..at]) + pair && out[at + 2] == '\0'
    ensures forall k :: at + 2 < k < out.Length ==> out[k] == old(out[k])
  {
    out[at], out[at + 1], out[at + 2] := pair[0], pair[1], '\0';
  }

  /** `cbin2hex`; each `sprintf` also writes a terminating NUL that the next one
      overwrites. */
  method Cbin2Hex(out: array?<char>, input: seq<Byte>, len: nat)
    requires len <= |input| && (out != null && len > 0 ==> 2 * len + 1 <= out.Length)
    modifies if out != null then {out} else {}
    ensures out != null && len > 0 ==>
              && out[..2 * len] == HexOf(input[..len]) && out[2 * len] == '\0'
              && out[2 * len + 1..] == old(out[2 * len + 1..])
    ensures out != null && len == 0 ==> out[..] == old(out[..])
  {
    if out != null {
      ghost var was := out[..];
      for i := 0 to len
        invariant i > 0 ==> out[2 * i] == '\0'
        invariant 2 * i <= out.Length && out[..2 * i] == HexOf(input[..i])
        invariant forall k :: (if i == 0 then 0 else 2 * i + 1) <= k < out.Length ==> out[k] == was[k]
      {
        PutPair(out, i * 2, HexPair(input[i]));
        HexSnoc(input, i);
      }
    }
  }

  lemma HexSnoc(bs: seq<Byte>, i: nat)
    requires i < |bs|
    ensures HexOf(bs[..i + 1]) == HexOf(bs[..i]) + HexPair(bs[i])
  {
    HexConcat(bs[..i], [bs[i]]);
    assert bs[..i + 1] == bs[..i] + [bs[i]];
    assert HexOf([bs[i]]) == HexPair(bs[i]) + HexOf([bs[i]][1..]);
  }

  /** `hex2bin`: it succeeds exactly on 2 * len characters that are `len` acceptable
      pairs, and then the output holds their values; a failure leaves the bytes stored
      until then. */
  method Hex2Bin(output: array<Byte>, hexstr: string, count: nat) returns (ok: bool)
    requires count <= output.Length
    modifies output
    ensures ok <==> Accepts(hexstr, count)
    ensures var w := Output(hexstr, count); output[..] == w + old(output[|w|..])
  {
    ok := ConvertPairs(output, hexstr, count, Strtol());
  }
}
