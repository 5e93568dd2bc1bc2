/** The loop of `hex2bin` (util.cpp): a string taken apart into pairs of characters, for any
    way of converting a pair. */
module HexPairs {
  import opened Simd

  /** How a pair is converted, by name: the loop of `hex2bin` does not depend on it. */
  datatype Parser = Parser(value: (char, char) -> Byte, ok: (char, char) -> bool)

  predicate AcceptsBy(p: Parser, s: string, len: nat) {
    if len == 0 then s == [] else |s| >= 2 && p.ok(s[0], s[1]) && AcceptsBy(p, s[2..], len - 1)
  }

  function OutputBy(p: Parser, s: string, len: nat): (r: seq<Byte>)
    ensures |r| <= len
  {
    if len == 0 || |s| < 2 then []
    else [p.value(s[0], s[1])] + if p.ok(s[0], s[1]) then OutputBy(p, s[2..], len - 1) else []
  }

  //
  // The pairs by number
  //

  predicate OkAt(p: Parser, s: string, i: nat)
    requires 2 * i + 1 < |s|
  {
    p.ok(s[2 * i], s[2 * i + 1])
  }

  function ValueAt(p: Parser, s: string, i: nat): Byte
    requires 2 * i + 1 < |s|
  {
    p.value(s[2 * i], s[2 * i + 1])
  }

  /** r holds the values of the first pairs of s, all but perhaps the last of them consumed
      whole. */
  ghost predicate Converted(p: Parser, s: string, r: seq<Byte>) {
    && 2 * |r| <= |s|
    && (forall i :: 0 <= i < |r| ==> r[i] == ValueAt(p, s, i))
    && (forall i :: 0 <= i < |r| - 1 ==> OkAt(p, s, i))
  }

  /** There is no reason to go on after r. */
  ghost predicate Finished(p: Parser, s: string, len: nat, r: seq<Byte>)
    requires 2 * |r| <= |s|
  {
    |r| == len || 2 * |r| + 1 >= |s| || (r != [] && !OkAt(p, s, |r| - 1))
  }

  lemma {:induction false} OutputIs(p: Parser, s: string, len: nat, r: seq<Byte>)
    requires Converted(p, s, r) && |r| <= len && Finished(p, s, len, r)
    ensures r == OutputBy(p, s, len)
    ensures AcceptsBy(p, s, len) <==> AllTaken(p, s, len, r)
  {
    if len == 0 || |s| < 2 {
      assert r == [];
    } else {
      assert r[0] == ValueAt(p, s, 0) == p.value(s[0], s[1]) && OkAt(p, s, 0) == p.ok(s[0], s[1]);
      if OkAt(p, s, 0) {
        ConvertedTail(p, s, r);
        OutputIs(p, s[2..], len - 1, r[1..]);
        assert r == [r[0]] + r[1..];
      } else {
        assert |r| == 1 && r == [r[0]];
      }
    }
  }

  /** r covers the whole string and its last pair was consumed too. */
  ghost predicate AllTaken(p: Parser, s: string, len: nat, r: seq<Byte>)
    requires 2 * |r| <= |s|
  {
    |r| == len && |s| == 2 * len && (r == [] || OkAt(p, s, |r| - 1))
  }

  lemma ConvertedTail(p: Parser, s: string, r: seq<Byte>)
    requires r != [] && Converted(p, s, r) && OkAt(p, s, 0)
    ensures Converted(p, s[2..], r[1..])
    ensures forall len: nat :: len > 0 && Finished(p, s, len, r) ==> Finished(p, s[2..], len - 1, r[1..])
    ensures forall len: nat :: len > 0 ==> AllTaken(p, s, len, r) == AllTaken(p, s[2..], len - 1, r[1..])
  {
    forall i: nat | 2 * i + 1 < |s[2..]|
      ensures OkAt(p, s[2..], i) == OkAt(p, s, i + 1) && ValueAt(p, s[2..], i) == ValueAt(p, s, i + 1)
    {
      assert s[2..][2 * i] == s[2 * (i + 1)] && s[2..][2 * i + 1] == s[2 * (i + 1) + 1];
    }
  }

  /** The loop. */
  method ConvertPairs(output: array<Byte>, hexstr: string, count: nat, p: Parser) returns (ok: bool)
    requires count <= output.Length
    modifies output
    ensures ok <==> AcceptsBy(p, hexstr, count)
    ensures var w := OutputBy(p, hexstr, count); output[..] == w + old(output[|w|..])
  {
    var at, len := 0, count;
    ghost var was, k := output[..], 0;
    while at < |hexstr| && len > 0
      invariant 0 <= len <= count && k == count - len && at == 2 * k <= |hexstr|
      invariant Converted(p, hexstr, output[..k]) && (k > 0 ==> OkAt(p, hexstr, k - 1))
      invariant output[k..] == was[k..]
    {
      if at + 1 == |hexstr| {
        Stopped(p, hexstr, count, output[..], k, was);
        return false;
      }
      StoreByte(output, hexstr, count - len, p.value(hexstr[at], hexstr[at + 1]), p, was);
      k := k + 1;
      if !p.ok(hexstr[at], hexstr[at + 1]) {
        assert !OkAt(p, hexstr, k - 1);
        Stopped(p, hexstr, count, output[..], k, was);
        return false;
      }
      at := at + 2;
      len := len - 1;
    }
    Stopped(p, hexstr, count, output[..], k, was);
    ok := len == 0 && at == |hexstr|;
  }

  lemma Stopped(p: Parser, s: string, len: nat, x: seq<Byte>, k: nat, was: seq<Byte>)
    requires k <= len <= |x| == |was| && x[k..] == was[k..]
    requires Converted(p, s, x[..k]) && Finished(p, s, len, x[..k])
    ensures var w := OutputBy(p, s, len); x == w + was[|w|..]
    ensures AcceptsBy(p, s, len) <==> AllTaken(p, s, len, x[..k])
  {
    OutputIs(p, s, len, x[..k]);
    assert x == x[..k] + x[k..];
  }

  /** `*p = value`, as byte k. */
  method StoreByte(output: array<Byte>, s: string, k: nat, value: Byte, ghost p: Parser, ghost was: seq<Byte>)
    requires k < output.Length == |was| && 2 * k + 1 < |s| && value == ValueAt(p, s, k) && output[k..] == was[k..]
    requires Converted(p, s, output[..k]) && (k > 0 ==> OkAt(p, s, k - 1))
    modifies output
    ensures Converted(p, s, output[..k + 1]) && output[k + 1..] == was[k + 1..]
  {
    ghost var done := output[..k];
    output[k] := value;
    assert output[..k + 1] == done + [value];
    assert was[k + 1..] == was[k..][1..];
  }
}
