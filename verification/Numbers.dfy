/** Byte strings as numbers. */
module Numbers {
  import opened Bits
  import opened Words

  /** The first byte is the most significant one. */
  function Number(s: seq<u8>): nat {
    if s == [] then 0 else s[|s| - 1] + Shl(Number(s[..|s| - 1]), 8)
  }

  lemma {:induction false} NumberBit(s: seq<u8>, k: nat)
    requires k < 8 * |s|
    ensures Bit(Number(s), k) == Bit(s[|s| - 1 - k / 8], k % 8)
    decreases |s|
  {
    var init := s[..|s| - 1];
    Pow2Values();
    JoinBit(s[|s| - 1], Number(init), 8, k);
    if k >= 8 {
      NumberBit(init, k - 8);
    }
  }

  lemma {:induction false} Pow2Sum(m: nat, n: nat, sum: nat)
    requires sum == m + n
    ensures Pow2(sum) == Shl(Pow2(m), n)
    decreases n
  {
    if n != 0 {
      Pow2Sum(m, n - 1, sum - 1);
    }
  }

  lemma {:induction false} NumberBound(s: seq<u8>, n: nat)
    requires n == 8 * |s|
    ensures Number(s) < Pow2(n)
  {
    if s != [] {
      var init := s[..|s| - 1];
      NumberBound(init, n - 8);
      Pow2Sum(n - 8, 8, n);
      ShlTimes(Pow2(n - 8), 8);
      ShlTimes(Number(init), 8);
      Pow2Values();
    }
  }

  /** Bytes behind others move those up. */
  lemma {:induction false} NumberAppend(a: seq<u8>, b: seq<u8>, n: nat, s: seq<u8>)
    requires n == 8 * |b| && s == a + b
    ensures Number(s) == Number(b) + Shl(Number(a), n)
    decreases |b|
  {
    if b == [] {
      assert s == a;
    } else {
      var rest, init, m := b[..|b| - 1], s[..|s| - 1], n - 8;
      assert init == a + rest && s[|s| - 1] == b[|b| - 1];
      NumberAppend(a, rest, m, init);
      ShlShl(Number(a), m, 8, n);
      ShlAdd(Number(rest), Shl(Number(a), m), 8);
    }
  }

  lemma {:induction false} NumberOfZeros(n: nat)
    ensures Number(seq(n, _ => 0)) == 0
  {
    if n != 0 {
      var s: seq<u8> := seq(n, _ => 0);
      assert s[..n - 1] == seq(n - 1, _ => 0);
      NumberOfZeros(n - 1);
      ZeroParts(8);
    }
  }

  /** Strings of one length are told apart by their numbers. */
  lemma {:induction false} NumberInjective(a: seq<u8>, b: seq<u8>)
    requires |a| == |b| && Number(a) == Number(b)
    ensures a == b
  {
    if a != [] {
      var x, y := a[..|a| - 1], b[..|b| - 1];
      LastByte(a[|a| - 1], Number(x), b[|b| - 1], Number(y));
      NumberInjective(x, y);
      assert a == x + [a[|a| - 1]] && b == y + [b[|b| - 1]];
    }
  }

  lemma LastByte(x: u8, m: nat, y: u8, n: nat)
    requires x + Shl(m, 8) == y + Shl(n, 8)
    ensures x == y && m == n
  {
    Pow2Values();
    Join(x, m, 8);
    Join(y, n, 8);
  }
}
