/**
 Address containment as the standard library computes it (masking off host bits), and the proof that
 it is agreement on the leading prefix bits (RFC 4632 section 3.1, RFC 4291 section 2.3).
 */
module Cidr {
  function Width(version: nat): nat { if version == 4 then 32 else 128 }

  function Pow2(n: nat): (p: nat)
    ensures p > 0
  {
    if n == 0 then 1 else 2 * Pow2(n - 1)
  }

  /** A parsed address: 4 or 6, and its integer value. */
  datatype AddressRaw = Address(version: nat, value: nat)
  type Address = a: AddressRaw | (a.version == 4 || a.version == 6) && a.value < Pow2(Width(a.version))
    witness (assert Pow2(Width(4)) > 0; Address(4, 0))

  /** A parsed `address/prefix`, host bits still set. */
  datatype PrefixRaw = Prefix(base: Address, length: nat)
  type Prefix = p: PrefixRaw | p.length <= Width(p.base.version)
    witness (assert Pow2(Width(4)) > 0; Prefix(Address(4, 0), 0))

  /** `value & netmask` */
  function Masked(value: nat, version: nat, length: nat): int
    requires length <= Width(version)
  {
    var block := Pow2(Width(version) - length);
    value - value % block
  }

  /** `ip_network(..., strict=False)` masks the base; `addr in net` masks the address and compares. */
  predicate Contains(net: Prefix, a: Address) {
    a.version == net.base.version &&
    Masked(a.value, a.version, net.length) == Masked(net.base.value, net.base.version, net.length)
  }

  /** Bit `k` of a `w`-bit value, counted from the most significant one. */
  function BitAt(w: nat, value: nat, k: nat): nat
    requires k < w
  {
    value / Pow2(w - 1 - k) % 2
  }

  ghost predicate SameLeadingBits(w: nat, length: nat, x: nat, y: nat)
    requires length <= w
  {
    forall k | 0 <= k < length :: BitAt(w, x, k) == BitAt(w, y, k)
  }

  lemma MulLe(a: nat, b: nat, m: nat)
    ensures a <= b ==> m * a <= m * b
  {}

  lemma MulNext(m: nat, a: nat)
    ensures m * (a + 1) == m * a + m
  {}

  lemma DivMod(x: nat, m: nat)
    requires m > 0
    ensures 0 <= x % m < m && x / m >= 0 && m * (x / m) == x - x % m
  {}

  lemma Quotient(x: nat, m: nat, q: nat, r: nat)
    requires m > 0 && r < m && x == m * q + r
    ensures x / m == q
  {
    var d := x / m;
    DivMod(x, m);
    MulNext(m, d);
    MulNext(m, q);
    MulLe(d + 1, q, m);
    MulLe(q + 1, d, m);
  }

  lemma MulDouble(m: nat, e: nat)
    ensures m * (2 * e) == (2 * m) * e
    ensures m * (2 * e + 1) == (2 * m) * e + m
  {}

  lemma Halve(x: nat, m: nat)
    requires m > 0
    ensures x / m == 2 * (x / (2 * m)) + x / m % 2
  {
    DivMod(x, m);
    var d, r := x / m, x % m;
    var e := d / 2;
    MulDouble(m, e);
    if d == 2 * e {
      Quotient(x, 2 * m, e, r);
    } else {
      assert d == 2 * e + 1;
      Quotient(x, 2 * m, e, m + r);
    }
  }

  lemma {:induction false} LeadingBitsAreQuotient(w: nat, length: nat, x: nat, y: nat)
    requires length <= w && x < Pow2(w) && y < Pow2(w)
    ensures SameLeadingBits(w, length, x, y) <==> x / Pow2(w - length) == y / Pow2(w - length)
    decreases length
  {
    if length == 0 {
      Quotient(x, Pow2(w), 0, x);
      Quotient(y, Pow2(w), 0, y);
    } else {
      LeadingBitsAreQuotient(w, length - 1, x, y);
      var m := Pow2(w - length);
      assert Pow2(w - (length - 1)) == 2 * m;
      Halve(x, m);
      Halve(y, m);
      assert BitAt(w, x, length - 1) == x / m % 2 && BitAt(w, y, length - 1) == y / m % 2;
      assert SameLeadingBits(w, length, x, y) <==>
             SameLeadingBits(w, length - 1, x, y) && BitAt(w, x, length - 1) == BitAt(w, y, length - 1);
    }
  }

  lemma MaskedIsQuotient(x: nat, y: nat, m: nat)
    requires m > 0
    ensures x - x % m == y - y % m <==> x / m == y / m
  {
    DivMod(x, m);
    DivMod(y, m);
    MulNext(m, x / m);
    MulNext(m, y / m);
    MulLe(x / m + 1, y / m, m);
    MulLe(y / m + 1, x / m, m);
  }

  /** The masked comparison is agreement on the first `length` bits of the same address family. */
  lemma ContainsIsPrefixMatch(net: Prefix, a: Address)
    ensures Contains(net, a) <==>
            a.version == net.base.version &&
            SameLeadingBits(if a.version == 4 then 32 else 128, net.length, a.value, net.base.value)
  {
    if a.version == net.base.version {
      var w := Width(a.version);
      LeadingBitsAreQuotient(w, net.length, a.value, net.base.value);
      MaskedIsQuotient(a.value, net.base.value, Pow2(w - net.length));
    }
  }
}
