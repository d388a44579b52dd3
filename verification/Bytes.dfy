/** Fixed-width integers as bytes: `to_be_bytes`, `to_le_bytes` and their inverses. */
module Bytes {
  import opened Prelude

  function Pow256(width: nat): nat {
    if width == 0 then 1 else 256 * Pow256(width - 1)
  }

  /** The `width` low-order bytes of n, most significant first. */
  function BeBytes(n: nat, width: nat): seq<byte> {
    if width == 0 then [] else BeBytes(n / 256, width - 1) + [n % 256]
  }

  function BeValue(bytes: seq<byte>): nat {
    if bytes == [] then 0 else 256 * BeValue(bytes[..|bytes| - 1]) + bytes[|bytes| - 1]
  }

  function LeBytes(n: nat, width: nat): seq<byte> {
    if width == 0 then [] else [n % 256] + LeBytes(n / 256, width - 1)
  }

  function LeValue(bytes: seq<byte>): nat {
    if bytes == [] then 0 else bytes[0] + 256 * LeValue(bytes[1..])
  }

  lemma {:induction false} BeBytesLength(n: nat, width: nat)
    ensures |BeBytes(n, width)| == width
  {
    if width > 0 {
      BeBytesLength(n / 256, width - 1);
    }
  }

  /** Decoding undoes encoding up to truncation, so short values round-trip exactly. */
  lemma {:induction false} BeRoundTrip(n: nat, width: nat)
    ensures n < Pow256(width) ==> BeValue(BeBytes(n, width)) == n
    ensures |BeBytes(n, width)| == width
  {
    if width > 0 {
      var front := BeBytes(n / 256, width - 1);
      BeRoundTrip(n / 256, width - 1);
      assert BeBytes(n, width)[..width - 1] == front;
    }
  }

  lemma BeBytesInjective(m: nat, n: nat, width: nat)
    requires m < Pow256(width) && n < Pow256(width)
    requires BeBytes(m, width) == BeBytes(n, width)
    ensures m == n
  {
    BeRoundTrip(m, width);
    BeRoundTrip(n, width);
  }

  /** Byte strings of one length are determined by their value. */
  lemma {:induction false} BeValueInjective(a: seq<byte>, b: seq<byte>)
    requires |a| == |b| && BeValue(a) == BeValue(b)
    ensures a == b
    decreases |a|
  {
    if a != [] {
      var n := |a| - 1;
      BeValueInjective(a[..n], b[..n]);
      assert a == a[..n] + [a[n]] && b == b[..n] + [b[n]];
    }
  }

  lemma {:induction false} LeRoundTrip(n: nat, width: nat)
    ensures n < Pow256(width) ==> LeValue(LeBytes(n, width)) == n
    ensures |LeBytes(n, width)| == width
  {
    if width > 0 {
      LeRoundTrip(n / 256, width - 1);
      assert LeBytes(n, width)[1..] == LeBytes(n / 256, width - 1);
    }
  }

  lemma LeBytesInjective(m: u64, n: u64)
    requires LeBytes(m, 8) == LeBytes(n, 8)
    ensures m == n
  {
    Pow256Values();
    LeRoundTrip(m, 8);
    LeRoundTrip(n, 8);
  }

  /** Little-endian is big-endian backwards. */
  lemma {:induction false} LeIsBeReversed(n: nat, width: nat, i: nat)
    requires i < width
    ensures |LeBytes(n, width)| == |BeBytes(n, width)| == width
    ensures LeBytes(n, width)[i] == BeBytes(n, width)[width - 1 - i]
  {
    LeRoundTrip(n, width);
    BeBytesLength(n, width);
    BeBytesLength(n / 256, width - 1);
    if i > 0 {
      LeIsBeReversed(n / 256, width - 1, i - 1);
    }
  }

  lemma Pow256Positive(width: nat)
    ensures Pow256(width) > 0
  {
  }

  /** A byte string's value, split after the first byte: that one weighs most. */
  lemma {:induction false} BeValueHead(bytes: seq<byte>)
    requires bytes != []
    ensures BeValue(bytes) == bytes[0] * Pow256(|bytes| - 1) + BeValue(bytes[1..])
    decreases |bytes|
  {
    var n := |bytes| - 1;
    if n == 0 {
      assert bytes[..0] == [] && bytes[1..] == [];
    } else {
      var front := bytes[..n];
      BeValueHead(front);
      assert bytes[1..][..n - 1] == front[1..] && bytes[1..][n - 1] == bytes[n];
      TimesPower(bytes[0], n - 1);
    }
  }

  lemma TimesPower(x: nat, width: nat)
    ensures 256 * (x * Pow256(width)) == x * Pow256(width + 1)
  {
  }

  lemma {:induction false} BeValueBound(bytes: seq<byte>)
    ensures BeValue(bytes) < Pow256(|bytes|)
    decreases |bytes|
  {
    if bytes != [] {
      BeValueBound(bytes[..|bytes| - 1]);
    }
  }

  /** Bytewise order: the first difference decides. */
  predicate LexBelow(a: seq<byte>, b: seq<byte>) {
    a != [] && b != [] && (a[0] < b[0] || (a[0] == b[0] && LexBelow(a[1..], b[1..])))
  }

  /** Among byte strings of one length the value orders bytewise. */
  lemma {:induction false} BeValueOrders(a: seq<byte>, b: seq<byte>)
    requires |a| == |b| && LexBelow(a, b)
    ensures BeValue(a) < BeValue(b)
    decreases |a|
  {
    BeValueHead(a);
    BeValueHead(b);
    BeValueBound(a[1..]);
    if a[0] < b[0] {
      HeadDecides(a[0], b[0], Pow256(|a| - 1));
    } else {
      BeValueOrders(a[1..], b[1..]);
    }
  }

  lemma HeadDecides(x: nat, y: nat, weight: nat)
    requires x < y
    ensures x * weight + weight <= y * weight
  {
    var d := y - x - 1;
    assert y * weight == x * weight + weight + d * weight;
  }

  lemma Pow256Values()
    ensures Pow256(4) == 0x1_0000_0000
    ensures Pow256(8) == U64_MODULUS
  {
    assert Pow256(2) == 0x1_0000;
    assert Pow256(4) == 0x1_0000 * 0x1_0000;
    assert Pow256(6) == 0x1_0000 * Pow256(4);
    assert Pow256(8) == 0x1_0000 * Pow256(6);
  }
}
