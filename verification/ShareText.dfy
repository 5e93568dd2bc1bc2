/** The strings of a share, as `verus_stratum_submit` builds them in its buffers
    (verus/stratum.cpp). */
module ShareText {
  import opened Simd
  import opened Limbs
  import opened Layout
  import opened Hex
  import opened Wrappers

  /** The solution string of a share, the C string in `solhex`. */
  method SolutionHex(extra: seq<Byte>, solution: seq<Byte>) returns (solhex: string)
    requires |extra| == 1388 && |solution| == SOLUTION
    ensures solhex == HexOf(Spliced(extra[..1347], solution))
  {
    var buffer := new char[1344 * 2 + 64](_ => '\0');
    Cbin2Hex(buffer, extra, 1347);
    var restore := new char[129](_ => '\0');
    Cbin2Hex(restore, solution[8..], 64);
    assert solution[8..][..64] == solution[8..72];
    ghost var printed := buffer[..2694];
    forall k | 0 <= k < 128 {
      buffer[6 + 16 + k] := restore[k];
    }
    solhex := buffer[..2694];
    assert solhex == printed[..22] + restore[..128] + printed[150..];
    SpliceHex(extra[..1347], solution[8..72]);
  }

  lemma SpliceHex(x: seq<Byte>, m: seq<Byte>)
    requires |x| == 1347 && |m| == 64
    ensures HexOf(x)[..22] + HexOf(m) + HexOf(x)[150..] == HexOf(x[..11] + m + x[75..])
  {
    var a, b, c := x[..11], x[11..75], x[75..];
    assert x == a + b + c;
    HexConcat(a + b, c);
    HexConcat(a, b);
    HexConcat(a + m, c);
    HexConcat(a, m);
  }

  const WORD64: nat := 0x1_0000_0000_0000_0000

  /** What `bin2hex` asks `malloc` for when the pool's prefix has `skip` bytes:
      `(32 - skip) * 2 + 1` in 64-bit unsigned arithmetic. */
  function NonceAllocation(skip: nat): nat {
    ((32 - skip) % WORD64 * 2 + 1) % WORD64
  }

  /** A prefix longer than the field wraps around to a size no allocation can have. */
  lemma AllocationSize(skip: nat)
    requires skip < WORD64 / 4
    ensures if skip <= 32 then NonceAllocation(skip) == 2 * (32 - skip) + 1 else NonceAllocation(skip) >= WORD64 / 2
  {
    if skip > 32 {
      var len := WORD64 + 32 - skip;
      RemainderIs(32 - skip, WORD64, len, -1);
      RemainderIs(len * 2 + 1, WORD64, len * 2 + 1 - WORD64, 1);
    }
  }

  /** The allocated characters afterwards.  Without a byte to print `cbin2hex` writes
      nothing, not even the NUL. */
  function NonceBuffer(data: seq<Byte>, nonceWord: bv32, skip: nat, garbage: string): (r: string)
    requires |data| == 192 && skip <= 32 && |garbage| == 2 * (32 - skip) + 1
    ensures |r| == |garbage|
  {
    if skip < 32 then HexOf(NonceField(data, nonceWord)[skip..]) + ['\0'] else garbage
  }

  /** The nonce string of a share.  `memory` says which sizes `malloc` can serve, none of
      them from 2^63 on, and `garbage(n)` is what n new characters hold. */
  method NonceHex(data: seq<Byte>, nonceWord: bv32, skip: nat, memory: nat -> bool, garbage: nat -> string)
    returns (noncestr: Option<string>)
    requires |data| == 192 && skip < WORD64 / 4
    requires forall n :: n >= WORD64 / 2 ==> !memory(n)
    requires forall n :: |garbage(n)| == n
    ensures noncestr.Some? <==> skip <= 32 && memory(2 * (32 - skip) + 1)
    ensures noncestr.Some? ==> noncestr.value == NonceBuffer(data, nonceWord, skip, garbage(2 * (32 - skip) + 1))
  {
    var size := NonceAllocation(skip);
    AllocationSize(skip);
    if !memory(size) {
      return None;
    }
    var s := new char[size](i requires 0 <= i < size => garbage(size)[i]);
    assert s[..] == garbage(size);
    PrintNonce(s, data, nonceWord, skip, garbage(size));
    noncestr := Some(s[..]);
  }

  method PrintNonce(s: array<char>, data: seq<Byte>, nonceWord: bv32, skip: nat, ghost garbage: string)
    requires |data| == 192 && skip <= 32 && s.Length == 2 * (32 - skip) + 1 && s[..] == garbage
    modifies s
    ensures s[..] == NonceBuffer(data, nonceWord, skip, garbage)
  {
    var words := data[..NONCE_WORD] + WordBytes(nonceWord) + data[NONCE_WORD + 4..];
    var len := 32 - skip;
    Cbin2Hex(s, words[108 + skip..], len);
    assert words[108 + skip..][..len] == words[108..HEADER][skip..];
    assert words[108..HEADER] == NonceField(data, nonceWord);
    if len > 0 {
      assert s[..] == s[..2 * len] + [s[2 * len]];
    }
  }

  /** s is what a C function reads from this buffer. */
  predicate IsCString(buffer: string, s: string) {
    |s| < |buffer| && s == buffer[..|s|] && buffer[|s|] == '\0' && '\0' !in s
  }

  /** The nonce buffer is a C string, whatever `malloc` returned, exactly when the pool's
      prefix is shorter than the field. */
  lemma NonceIsString(data: seq<Byte>, nonceWord: bv32, skip: nat)
    requires |data| == 192 && skip <= 32
    ensures (forall g: string :: |g| == 2 * (32 - skip) + 1 ==>
               exists s :: IsCString(NonceBuffer(data, nonceWord, skip, g), s))
       <==> skip < 32
  {
    if skip < 32 {
      forall g: string | |g| == 2 * (32 - skip) + 1
        ensures exists s :: IsCString(NonceBuffer(data, nonceWord, skip, g), s)
      {
        var s := HexOf(NonceField(data, nonceWord)[skip..]);
        HexHasNoNul(NonceField(data, nonceWord)[skip..]);
        assert IsCString(NonceBuffer(data, nonceWord, skip, g), s);
      }
    } else {
      assert forall s :: !IsCString(NonceBuffer(data, nonceWord, skip, "x"), s);
      assert |"x"| == 2 * (32 - skip) + 1;
    }
  }

  /** And then it is the digits of the nonce field behind the prefix. */
  lemma NonceString(data: seq<Byte>, nonceWord: bv32, skip: nat, garbage: string, s: string)
    requires |data| == 192 && skip < 32 && |garbage| == 2 * (32 - skip) + 1
    requires IsCString(NonceBuffer(data, nonceWord, skip, garbage), s)
    ensures s == HexOf(NonceField(data, nonceWord)[skip..])
  {
    var h := HexOf(NonceField(data, nonceWord)[skip..]);
    HexHasNoNul(NonceField(data, nonceWord)[skip..]);
    assert forall k :: 0 <= k < |h| ==> h[k] in h;
  }
}
