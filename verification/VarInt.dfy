/** The variable-length integers of serialize.hpp: base-128 digits, most significant
    first, one subtracted from every digit but the last. */
module VarInt {
  import opened Limbs
  import Uint256

  /** What reading comes to; `Overflow` is undefined behaviour of a signed type. */
  datatype Result<+T> = Ok(value: T) | EndOfStream | Overflow

  //
  // The code
  //

  /** The digits of n, the last one carrying `mark`.  A negative integer is below 128 too,
      so only its low seven bits are left. */
  function Digits(n: int, mark: nat): (s: seq<Octet>)
    requires mark == 0 || mark == 128
    ensures |s| > 0
  {
    if n < 128 then [n % 128 + mark] else Digits(n / 128 - 1, 128) + [n % 128 + mark]
  }

  function Encode(n: int): seq<Octet> {
    Digits(n, 0)
  }

  /** One more octet, most significant first; a continued one counts one more. */
  function Push(n: nat, b: Octet): nat {
    if b >= 128 then n * 128 + (b - 128) + 1 else n * 128 + b
  }

  function Decode(s: seq<Octet>): nat {
    if s == [] then 0 else Push(Decode(s[..|s| - 1]), s[|s| - 1])
  }

  /** Every octet but the last says that another follows. */
  predicate Complete(s: seq<Octet>) {
    |s| > 0 && s[|s| - 1] < 128 && Continued(s[..|s| - 1])
  }

  predicate Continued(s: seq<Octet>) {
    forall i :: 0 <= i < |s| ==> s[i] >= 128
  }

  lemma {:induction false} DigitsContinued(n: nat)
    ensures Continued(Digits(n, 128))
  {
    if n >= 128 {
      DigitsContinued(n / 128 - 1);
    }
  }

  lemma EncodeComplete(n: nat)
    ensures Complete(Encode(n))
  {
    if n >= 128 {
      DigitsContinued(n / 128 - 1);
      assert Encode(n)[..|Encode(n)| - 1] == Digits(n / 128 - 1, 128);
    }
  }

  lemma DecodeGrow(s: seq<Octet>, b: Octet)
    ensures Decode(s + [b]) == Push(Decode(s), b)
  {
    assert (s + [b])[..|s|] == s;
  }

  lemma PushDigit(n: nat, mark: nat)
    requires mark == 0 || mark == 128
    ensures Push(n / 128, n % 128 + mark) == n + mark / 128
  {
  }

  /** All digits but the last. */
  function Front(n: nat): seq<Octet> {
    if n < 128 then [] else Digits(n / 128 - 1, 128)
  }

  lemma DigitsFront(n: nat, mark: nat)
    requires mark == 0 || mark == 128
    ensures Digits(n, mark) == Front(n) + [n % 128 + mark]
  {
  }

  lemma {:induction false} FrontDecode(n: nat)
    ensures Decode(Front(n)) == n / 128
  {
    if n >= 128 {
      FrontDecode(n / 128 - 1);
      FrontStep(n, n / 128 - 1);
    } else {
      assert n / 128 == 0;
    }
  }

  lemma FrontStep(n: nat, m: nat)
    requires n >= 128 && m == n / 128 - 1 && Decode(Front(m)) == m / 128
    ensures Decode(Front(n)) == n / 128
  {
    DigitsFront(m, 128);
    DecodeGrow(Front(m), m % 128 + 128);
    PushDigit(m, 128);
  }

  lemma DigitsDecode(n: nat, mark: nat)
    requires mark == 0 || mark == 128
    ensures Decode(Digits(n, mark)) == n + mark / 128
  {
    FrontDecode(n);
    DigitsFront(n, mark);
    DecodeGrow(Front(n), n % 128 + mark);
    PushDigit(n, mark);
  }

  /** Decoding undoes encoding, for every natural number. */
  lemma DecodeEncode(n: nat)
    ensures Complete(Encode(n)) && Decode(Encode(n)) == n
  {
    EncodeComplete(n);
    DigitsDecode(n, 0);
  }

  lemma DigitsGrow(d: nat, digit: nat, mark: nat)
    requires d > 0 && digit < 128 && (mark == 0 || mark == 128)
    ensures Digits(d * 128 + digit, mark) == Digits(d - 1, 128) + [digit + mark]
  {
    var n := d * 128 + digit;
    assert n >= 128 && n / 128 == d && n % 128 == digit;
  }

  /** One more octet, in the code and in the integer. */
  lemma DigitsSnoc(t: seq<Octet>, b: Octet, digit: nat, mark: nat)
    requires b == digit + mark && digit < 128 && (mark == 0 || mark == 128)
    requires t != [] ==> Decode(t) > 0 && Digits(Decode(t) - 1, 128) == t
    ensures Digits(Decode(t) * 128 + digit, mark) == t + [b]
    ensures Decode(t + [b]) == Decode(t) * 128 + digit + mark / 128
  {
    DecodeGrow(t, b);
    if t == [] {
      assert Decode(t) == 0 && t + [b] == [b];
    } else {
      DigitsGrow(Decode(t), digit, mark);
    }
  }

  lemma {:induction false} ContinuedDecode(s: seq<Octet>)
    requires Continued(s) && s != []
    ensures Decode(s) > 0 && Digits(Decode(s) - 1, 128) == s
  {
    var t, b := s[..|s| - 1], s[|s| - 1];
    assert s == t + [b];
    if t != [] {
      ContinuedDecode(t);
    }
    DigitsSnoc(t, b, b - 128, 128);
  }

  /** Encoding undoes decoding, for every complete octet string: no integer has two
      encodings, and no complete octet string is wasted. */
  lemma EncodeDecode(s: seq<Octet>)
    requires Complete(s)
    ensures Encode(Decode(s)) == s
  {
    var t, b := s[..|s| - 1], s[|s| - 1];
    assert s == t + [b];
    if t != [] {
      ContinuedDecode(t);
    }
    DigitsSnoc(t, b, b, 0);
  }

  lemma DecodeInjective(s: seq<Octet>, t: seq<Octet>)
    requires Complete(s) && Complete(t) && Decode(s) == Decode(t)
    ensures s == t
  {
    EncodeDecode(s);
    EncodeDecode(t);
  }

  //
  // The documented formula and sizes
  //

  function Pow128(n: nat): (r: nat)
    ensures r > 0
  {
    if n == 0 then 1 else 128 * Pow128(n - 1)
  }

  /** The sum, over the continued octets of s, of their digit plus one, each scaled by its
      place; `place` is the place of the last one. */
  function Places(s: seq<Octet>, place: nat): nat {
    if s == [] then 0
    else Pow128(place) * (s[|s| - 1] % 128 + 1) + Places(s[..|s| - 1], place + 1)
  }

  lemma {:induction false} PlacesScale(s: seq<Octet>, place: nat)
    requires Continued(s)
    ensures Places(s, place) == Pow128(place) * Decode(s)
  {
    if s != [] {
      var t, b := s[..|s| - 1], s[|s| - 1];
      PlacesScale(t, place + 1);
      DecodeGrow(t, b);
      assert s == t + [b] && b % 128 == b - 128;
      Distribute(Pow128(place), Decode(t), b - 127);
    }
  }

  lemma Distribute(p: nat, d: nat, b: nat)
    ensures 128 * p * d + p * b == p * (d * 128 + b)
  {
  }

  /** The formula in the comment above `GetSizeOfVarInt`. */
  lemma DecodeFormula(s: seq<Octet>)
    requires Complete(s)
    ensures Decode(s) == s[|s| - 1] % 128 + Places(s[..|s| - 1], 1)
  {
    PlacesScale(s[..|s| - 1], 1);
    assert Pow128(1) == 128;
  }

  /** The smallest number that needs n + 1 octets: 0, 128, 16512, 2113664, ... */
  function Least(n: nat): nat {
    if n == 0 then 0 else 128 * (Least(n - 1) + 1)
  }

  lemma {:induction false} DigitsSize(n: nat, mark: nat, k: nat)
    requires mark == 0 || mark == 128
    ensures |Digits(n, mark)| == k + 1 <==> Least(k) <= n < Least(k + 1)
  {
    if n >= 128 {
      if k > 0 {
        DigitsSize(n / 128 - 1, 128, k - 1);
      } else {
        assert Least(1) == 128 && |Digits(n / 128 - 1, 128)| > 0;
      }
    } else if k > 0 {
      assert Least(k) >= 128;
    } else {
      assert Least(1) == 128;
    }
  }

  /** The size of an encoding is the number of the interval the integer lies in. */
  lemma EncodeSize(n: nat, k: nat)
    ensures |Encode(n)| == k + 1 <==> Least(k) <= n < Least(k + 1)
  {
    DigitsSize(n, 0, k);
  }

  lemma {:induction false} DigitsFit(n: int, mark: nat, k: nat)
    requires mark == 0 || mark == 128
    requires k > 0 && n < Pow128(k)
    ensures |Digits(n, mark)| <= k
  {
    if n >= 128 {
      assert k > 1 by {
        assert Pow128(1) == 128;
      }
      DigitsFit(n / 128 - 1, 128, k - 1);
    }
  }

  lemma {:induction false} Pow128Is(k: nat)
    ensures Pow128(k) == Pow2(7 * k)
  {
    if k > 0 {
      Pow128Is(k - 1);
      Pow2Add(7, 7 * (k - 1));
      assert Pow2(7) == 128;
    }
  }

  lemma Pow2Grows(m: nat, n: nat)
    requires m <= n
    ensures Pow2(m) <= Pow2(n)
  {
    if m < n {
      Pow2Grows(m, n - 1);
    }
  }

  /** The octets of a W-bit integer always fit the (W + 6) / 7 octets of `tmp`. */
  lemma FitsBuffer(w: nat, n: int)
    requires w > 0 && n < Pow2(w)
    ensures |Encode(n)| <= (w + 6) / 7
  {
    var k := (w + 6) / 7;
    Pow128Is(k);
    Pow2Grows(w, 7 * k);
    DigitsFit(n, 0, k);
  }

  //
  // Streams of integers
  //

  function EncodeAll(ns: seq<nat>): seq<Octet> {
    if ns == [] then [] else Encode(ns[0]) + EncodeAll(ns[1..])
  }

  lemma EncodeAllCons(n: nat, ns: seq<nat>)
    ensures EncodeAll([n] + ns) == Encode(n) + EncodeAll(ns)
  {
    assert ([n] + ns)[1..] == ns;
  }

  /** The length of the first complete octet string of s; all of s when it has none. */
  function FirstLength(s: seq<Octet>): (n: nat)
    ensures n <= |s|
    ensures s != [] ==> n > 0
    ensures forall i :: 0 <= i < n - 1 ==> s[i] >= 128
    ensures Complete(s[..n]) || (n == |s| && Continued(s))
  {
    if s == [] then 0
    else if s[0] < 128 then assert s[..1][..0] == []; 1
    else
      var n := 1 + FirstLength(s[1..]);
      assert forall i :: 1 <= i < |s| ==> s[i] == s[1..][i - 1];
      assert s[..n][1..] == s[1..][..n - 1];
      n
  }

  lemma FirstIs(s: seq<Octet>, rest: seq<Octet>)
    requires Complete(s)
    ensures FirstLength(s + rest) == |s|
  {
    var t := s + rest;
    assert t[|s| - 1] == s[|s| - 1];
    assert forall i :: 0 <= i < |s| - 1 ==> t[i] == s[..|s| - 1][i];
    assert Complete(t[..FirstLength(t)]) ==> t[..FirstLength(t)][FirstLength(t) - 1] == t[FirstLength(t) - 1];
  }

  function DecodeAll(s: seq<Octet>): seq<nat> {
    if s == [] then [] else [Decode(s[..FirstLength(s)])] + DecodeAll(s[FirstLength(s)..])
  }

  /** A list of integers is recovered from its octets ... */
  lemma {:induction false} DecodeAllEncodeAll(ns: seq<nat>)
    ensures DecodeAll(EncodeAll(ns)) == ns
  {
    if ns != [] {
      var s, rest := Encode(ns[0]), EncodeAll(ns[1..]);
      DecodeEncode(ns[0]);
      FirstIs(s, rest);
      assert (s + rest)[..|s|] == s && (s + rest)[|s|..] == rest;
      DecodeAllEncodeAll(ns[1..]);
    }
  }

  lemma FirstComplete(s: seq<Octet>) returns (n: nat)
    requires s != [] && s[|s| - 1] < 128
    ensures n == FirstLength(s) && 0 < n <= |s| && Complete(s[..n]) && s == s[..n] + s[n..]
    ensures s[n..] != [] ==> s[n..][|s| - n - 1] < 128
  {
    n := FirstLength(s);
  }

  /** ... and every octet string that does not break off inside an integer is the
      encoding of a list of integers. */
  lemma {:induction false} EncodeAllDecodeAll(s: seq<Octet>)
    requires s == [] || s[|s| - 1] < 128
    ensures EncodeAll(DecodeAll(s)) == s
  {
    if s != [] {
      var n := FirstComplete(s);
      EncodeDecode(s[..n]);
      EncodeAllDecodeAll(s[n..]);
      EncodeAllCons(Decode(s[..n]), DecodeAll(s[n..]));
    }
  }

  //
  // The loops, on W-bit integers
  //

  /** `GetSizeOfVarInt`. */
  method GetSizeOfVarInt(w: nat, num: int) returns (size: nat)
    requires w > 0 && num < Pow2(w)
    ensures size == |Encode(num)| && size <= (w + 6) / 7
  {
    FitsBuffer(w, num);
    var n := num;
    size := 0;
    ghost var mark := 0;
    while true
      invariant mark == 0 || mark == 128
      invariant size + |Digits(n, mark)| == |Encode(num)|
      decreases n
    {
      size := size + 1;
      if n <= 0x7F {
        break;
      }
      n := n / 128 - 1;
      mark := 128;
    }
  }

  lemma BackwardsGrow(s: seq<Octet>, b: Octet)
    ensures Backwards(s + [b]) == [b] + Backwards(s)
  {
  }

  /** The octet of one digit. */
  function OctetOf(n: int, more: bool): (b: Octet)
    ensures b == n % 128 + if more then 128 else 0
  {
    assert Pow2(7) == 128;
    Uint256.BitOrDisjoint(n % 128, if more then 1 else 0, 7);
    Uint256.BitOr(n % 128, if more then 0x80 else 0x00)
  }

  /** Taking the last digit off the front part. */
  lemma MoveDigit(n: int, more: bool, r: seq<Octet>)
    ensures var mark := if more then 128 else 0;
      Digits(n, mark) + r
      == (if n < 128 then [OctetOf(n, more)] + r else Digits(n / 128 - 1, 128) + ([OctetOf(n, more)] + r))
  {
    var o: Octet := OctetOf(n, more);
    if n >= 128 {
      var d := Digits(n / 128 - 1, 128);
      assert d + [o] + r == d + ([o] + r);
    }
  }

  /** `tmp[len] = octet`. */
  method PutDigit(tmp: array<Octet>, len: nat, octet: Octet)
    requires len < tmp.Length
    modifies tmp
    ensures Backwards(tmp[..len + 1]) == [octet] + Backwards(old(tmp[..len]))
  {
    ghost var done := tmp[..len];
    tmp[len] := octet;
    assert tmp[..len + 1] == done + [octet];
    BackwardsGrow(done, octet);
  }

  /** The first loop of `WriteVarInt`: the digits, last one first, never past the end of
      `tmp`. */
  method FillDigits(tmp: array<Octet>, num: int) returns (len: nat)
    requires |Encode(num)| <= tmp.Length
    modifies tmp
    ensures len < tmp.Length && Backwards(tmp[..len + 1]) == Encode(num)
  {
    var n := num;
    len := 0;
    ghost var mark := 0;
    while true
      invariant mark == if len > 0 then 128 else 0
      invariant len + |Digits(n, mark)| == |Encode(num)|
      invariant Encode(num) == Digits(n, mark) + Backwards(tmp[..len])
      decreases n
    {
      MoveDigit(n, len > 0, Backwards(tmp[..len]));
      PutDigit(tmp, len, OctetOf(n, len > 0));
      if n <= 0x7F {
        break;
      }
      n := n / 128 - 1;
      len := len + 1;
      mark := 128;
    }
  }

  /** `WriteVarInt`: no store leaves `tmp`, and the stream gains exactly the encoding. */
  method WriteVarInt(w: nat, os: seq<Octet>, num: int) returns (out: seq<Octet>)
    requires w > 0 && num < Pow2(w)
    ensures out == os + Encode(num)
  {
    FitsBuffer(w, num);
    var tmp := new Octet[(w + 6) / 7];
    var len := FillDigits(tmp, num);
    out := os;
    while true
      invariant 0 <= len < tmp.Length
      invariant out + Backwards(tmp[..len + 1]) == os + Encode(num)
      decreases len
    {
      assert tmp[..len + 1] == tmp[..len] + [tmp[len]];
      BackwardsGrow(tmp[..len], tmp[len]);
      out := out + [tmp[len]];
      if len == 0 {
        break;
      }
      len := len - 1;
    }
  }

  /** x modulo 2^W. */
  function Low(w: nat, x: nat): (r: nat)
    ensures r < Pow2(w)
  {
    x % Pow2(w)
  }

  /** A W-bit integer type keeps exactly the integers of at most W bits. */
  lemma LowExact(w: nat, x: nat)
    ensures Low(w, x) == x <==> x < Pow2(w)
  {
    if x < Pow2(w) {
      RemainderIs(x, Pow2(w), x, 0);
    }
  }

  lemma LowSucc(x: nat, p: nat)
    requires p > 0
    ensures (x % p + 1) % p == (x + 1) % p
  {
    var m, q := x % p, x / p;
    assert x == q * p + m;
    var r, k := (m + 1) % p, (m + 1) / p;
    assert m + 1 == k * p + r;
    RemainderIs(x + 1, p, r, q + k) by {
      assert (q + k) * p == q * p + k * p;
    }
  }

  /** `(n << 7) | (chData & 0x7F)` on W bits. */
  function Joined(w: nat, n: nat, b: Octet): nat {
    Uint256.BitOr(Low(w, n * 128), b % 128)
  }

  /** What the body of the read loop makes of n. */
  function Advanced(w: nat, n: nat, b: Octet): nat {
    if b >= 0x80 then Low(w, Joined(w, n, b) + 1) else Joined(w, n, b)
  }

  /** Shifting and joining a digit on W bits is multiplying and adding modulo 2^W. */
  lemma ShiftStep(w: nat, value: nat, n: nat, b: Octet)
    requires w >= 8 && n == Low(w, value)
    ensures Joined(w, n, b) == Low(w, value * 128 + b % 128)
  {
    SevenBits(w);
    HighDigits(n, Pow2(w - 7), value, b % 128);
    JoinDigit(n % Pow2(w - 7), b % 128);
  }

  lemma SevenBits(w: nat)
    requires w >= 7
    ensures Pow2(w) == 128 * Pow2(w - 7)
  {
    Pow2Add(7, w - 7);
    assert Pow2(7) == 128;
  }

  lemma JoinDigit(h: nat, d: nat)
    requires d < 128
    ensures Uint256.BitOr(128 * h, d) == d + 128 * h
  {
    assert Pow2(7) == 128;
    Uint256.BitOrDisjoint(d, h, 7);
  }

  lemma HighDigits(n: nat, q: nat, value: nat, d: nat)
    requires q > 0 && d < 128 && n == value % (128 * q)
    ensures n * 128 % (128 * q) == 128 * (n % q)
    ensures (value * 128 + d) % (128 * q) == d + 128 * (n % q)
  {
    var p, h, k, j := 128 * q, n % q, n / q, value / (128 * q);
    assert n == k * q + h && value == j * p + n;
    Regrouped(k, q, j, h);
    RemainderIs(n * 128, p, 128 * h, k);
    RemainderIs(value * 128 + d, p, d + 128 * h, j * 128 + k);
  }

  lemma Regrouped(k: int, q: int, j: int, h: int)
    ensures (k * q + h) * 128 == 128 * h + k * (128 * q)
    ensures (j * 128 + k) * (128 * q) == 128 * (j * (128 * q)) + k * (128 * q)
  {
  }

  lemma AdvancedIs(w: nat, value: nat, n: nat, b: Octet)
    requires w >= 8 && n == Low(w, value)
    ensures Advanced(w, n, b) == Low(w, Push(value, b))
  {
    ShiftStep(w, value, n, b);
    var sum := value * 128 + b % 128;
    assert Joined(w, n, b) == Low(w, sum) && Push(value, b) == if b >= 128 then sum + 1 else sum;
    LowStep(w, sum);
  }

  lemma LowStep(w: nat, x: nat)
    ensures Low(w, Low(w, x) + 1) == Low(w, x + 1)
  {
    LowSucc(x, Pow2(w));
  }

  lemma ReadStep(w: nat, s: seq<Octet>, b: Octet, n: nat)
    requires w >= 8 && n == Low(w, Decode(s))
    ensures Low(w, Decode(s + [b])) == Advanced(w, n, b)
  {
    AdvancedIs(w, Decode(s), n, b);
    DecodeGrow(s, b);
  }

  /** Where the first integer of a stream ends. */
  predicate EndsAt(input: seq<Octet>, k: nat) {
    0 < k <= |input| && Complete(input[..k])
  }

  /** `ReadVarInt`: it consumes the first complete octet string and yields its value
      modulo 2^W, and runs off the stream exactly when there is none. */
  method ReadVarInt(w: nat, input: seq<Octet>) returns (r: Result<(nat, seq<Octet>)>)
    requires w >= 8
    ensures !r.Overflow? && (r.EndOfStream? <==> Continued(input))
    ensures r.Ok? ==> exists k: nat :: EndsAt(input, k) && r.value == (Low(w, Decode(input[..k])), input[k..])
  {
    var n, at := 0, 0;
    assert Decode(input[..0]) == 0;
    while true
      invariant at <= |input| && Continued(input[..at])
      invariant n == Low(w, Decode(input[..at]))
      decreases |input| - at
    {
      if at == |input| {
        assert input[..at] == input;
        return EndOfStream;
      }
      var chData := input[at];
      ReadStep(w, input[..at], chData, n);
      at := at + 1;
      assert input[..at] == input[..at - 1] + [chData];
      n := Advanced(w, n, chData);
      if chData < 0x80 {
        assert EndsAt(input, at) by {
          assert input[..at][..at - 1] == input[..at - 1];
        }
        return Ok((n, input[at..]));
      }
    }
  }

  /** What `ReadVarInt` consumes is determined by the stream. */
  lemma EndsOnce(input: seq<Octet>, j: nat, k: nat)
    requires EndsAt(input, j) && EndsAt(input, k)
    ensures j == k
  {
    FirstIs(input[..j], input[j..]);
    FirstIs(input[..k], input[k..]);
    assert input == input[..j] + input[j..] == input[..k] + input[k..];
  }

  /** Reading back what was written, whatever follows it on the stream. */
  method RoundTrip(w: nat, n: nat, rest: seq<Octet>) returns (r: Result<(nat, seq<Octet>)>)
    requires w >= 8 && n < Pow2(w)
    ensures r == Ok((n, rest))
  {
    var os := WriteVarInt(w, [], n);
    ghost var s := Encode(n);
    DecodeEncode(n);
    assert os + rest == s + rest && (s + rest)[..|s|] == s && (s + rest)[|s|..] == rest;
    assert (s + rest)[|s| - 1] < 128;
    r := ReadVarInt(w, os + rest);
    ghost var k: nat :| EndsAt(s + rest, k) && r.value == (Low(w, Decode((s + rest)[..k])), (s + rest)[k..]);
    EndsOnce(s + rest, k, |s|);
    LowExact(w, n);
  }

  //
  // Signed integer types
  //

  /** The values of the reader's n in round k: shifted with the digit joined, then
      incremented when another octet follows. */
  function Shifted(s: seq<Octet>, k: nat): nat
    requires k < |s|
  {
    Decode(s[..k]) * 128 + s[k] % 128
  }

  function After(s: seq<Octet>, k: nat): nat
    requires k < |s|
  {
    Decode(s[..k + 1])
  }

  /** All of them stay below the limit. */
  ghost predicate StaysBelow(s: seq<Octet>, limit: nat) {
    && (forall k :: 0 <= k < |s| ==> Shifted(s, k) < limit)
    && (forall k :: 0 <= k < |s| ==> After(s, k) < limit)
  }

  lemma {:induction false} PrefixBelow(s: seq<Octet>, k: nat)
    requires k < |s|
    ensures Shifted(s, k) <= After(s, k) <= Decode(s)
    decreases |s| - k
  {
    assert s[..k + 1] == s[..k] + [s[k]];
    DecodeGrow(s[..k], s[k]);
    if k + 1 < |s| {
      PrefixBelow(s, k + 1);
    } else {
      assert s[..k + 1] == s;
    }
  }

  /** With V value bits, as a signed type of V + 1 bits has, no assignment of the reader
      overflows exactly when the integer itself has at most V bits. */
  lemma SignedReader(s: seq<Octet>, v: nat)
    requires Complete(s)
    ensures StaysBelow(s, Pow2(v)) <==> Decode(s) < Pow2(v)
  {
    BelowAll(s, Pow2(v));
  }

  lemma BelowAll(s: seq<Octet>, limit: nat)
    requires |s| > 0
    ensures StaysBelow(s, limit) <==> Decode(s) < limit
  {
    forall k | 0 <= k < |s| ensures Shifted(s, k) <= After(s, k) <= Decode(s) {
      PrefixBelow(s, k);
    }
    LastAfter(s);
  }

  lemma LastAfter(s: seq<Octet>)
    requires |s| > 0
    ensures After(s, |s| - 1) == Decode(s)
  {
    assert s[..|s|] == s;
  }

  /** `ReadVarInt` for a signed type with V value bits: it yields the first integer of the
      stream when that has at most V bits, overflows when it or the unfinished rest of the
      stream has more, and otherwise runs off the stream. */
  method ReadSigned(v: nat, input: seq<Octet>) returns (r: Result<(nat, seq<Octet>)>)
    ensures r.EndOfStream? <==> Continued(input) && Decode(input) < Pow2(v)
    ensures forall k: nat :: EndsAt(input, k) ==>
              r == if Decode(input[..k]) < Pow2(v) then Ok((Decode(input[..k]), input[k..])) else Overflow
    ensures r.Ok? ==> exists k: nat :: EndsAt(input, k)
  {
    var n, at, limit := 0, 0, Pow2(v);
    assert Decode(input[..0]) == 0;
    while true
      invariant at <= |input| && Continued(input[..at]) && n == Decode(input[..at]) < limit
      decreases |input| - at
    {
      if at == |input| {
        assert input[..at] == input;
        NoEnd(input);
        return EndOfStream;
      }
      var chData := input[at];
      assert input[..at + 1] == input[..at] + [chData];
      DecodeGrow(input[..at], chData);
      n := Push(n, chData);
      at := at + 1;
      if n >= limit {
        TooLarge(input, at, limit);
        return Overflow;
      }
      if chData < 0x80 {
        EndHere(input, at);
        return Ok((n, input[at..]));
      }
    }
  }

  lemma NoEnd(input: seq<Octet>)
    requires Continued(input)
    ensures forall k: nat :: !EndsAt(input, k)
  {
  }

  lemma EndHere(input: seq<Octet>, at: nat)
    requires 0 < at <= |input| && Continued(input[..at - 1]) && input[at - 1] < 128
    ensures EndsAt(input, at) && forall k: nat :: EndsAt(input, k) ==> k == at
    ensures !Continued(input)
  {
    assert input[..at][..at - 1] == input[..at - 1];
    forall k: nat | EndsAt(input, k) ensures k == at {
      EndsOnce(input, k, at);
    }
  }

  lemma EndsLater(input: seq<Octet>, at: nat, k: nat)
    requires 0 < at <= |input| && Continued(input[..at - 1]) && EndsAt(input, k)
    ensures k >= at
  {
    assert forall i :: 0 <= i < at - 1 ==> input[i] == input[..at - 1][i];
    assert input[..k][k - 1] == input[k - 1];
  }

  /** Whatever follows, the integer does not get smaller again. */
  lemma TooLarge(input: seq<Octet>, at: nat, limit: nat)
    requires 0 < at <= |input| && Continued(input[..at - 1]) && Decode(input[..at]) >= limit
    ensures Continued(input) ==> Decode(input) >= limit
    ensures forall k: nat :: EndsAt(input, k) ==> Decode(input[..k]) >= limit
  {
    PrefixBelow(input, at - 1);
    forall k: nat | EndsAt(input, k) ensures Decode(input[..k]) >= limit {
      TooLargeAt(input, at, limit, k);
    }
  }

  lemma TooLargeAt(input: seq<Octet>, at: nat, limit: nat, k: nat)
    requires 0 < at <= |input| && Continued(input[..at - 1]) && Decode(input[..at]) >= limit && EndsAt(input, k)
    ensures Decode(input[..k]) >= limit
  {
    EndsLater(input, at, k);
    var s := input[..k];
    assert s[..at - 1 + 1] == input[..at];
    PrefixBelow(s, at - 1);
  }

  //
  // Negative integers
  //

  /** Reading back what was written for an integer of any sign gives it exactly when it was
      not negative. */
  lemma SignedRoundTrip(n: int)
    ensures Complete(Encode(n)) && (Decode(Encode(n)) == n <==> n >= 0)
  {
    if n >= 0 {
      DecodeEncode(n);
    } else {
      assert [n % 128][..0] == [];
    }
  }
}
