/** Fixed-width big-endian integers: struct's "I" and "Q" fields, and
    `int.to_bytes(width, "big")`. */
module BigEndian {
  import opened Basics

  /** One past the largest value of `width` bytes. */
  function Space(width: nat): nat
    ensures Space(width) > 0
  {
    if width == 0 then 1 else 256 * Space(width - 1)
  }

  function Encode(n: nat, width: nat): (s: Bytes)
    ensures |s| == width
  {
    if width == 0 then [] else Encode(n / 256, width - 1) + [n % 256]
  }

  function Decode(s: Bytes): nat {
    if s == [] then 0 else 256 * Decode(s[..|s| - 1]) + s[|s| - 1]
  }

  lemma {:induction false} DecodeInSpace(s: Bytes)
    ensures Decode(s) < Space(|s|)
  {
    if s != [] {
      DecodeInSpace(s[..|s| - 1]);
    }
  }

  lemma {:induction false} DecodeEncode(n: nat, width: nat)
    requires n < Space(width)
    ensures Decode(Encode(n, width)) == n
  {
    if width > 0 {
      DecodeEncode(n / 256, width - 1);
      var s := Encode(n, width);
      assert s[..|s| - 1] == Encode(n / 256, width - 1);
    }
  }

  lemma {:induction false} EncodeDecode(s: Bytes)
    ensures Encode(Decode(s), |s|) == s
  {
    if s != [] {
      EncodeDecode(s[..|s| - 1]);
      assert Decode(s) / 256 == Decode(s[..|s| - 1]) && Decode(s) % 256 == s[|s| - 1];
      assert s == s[..|s| - 1] + [s[|s| - 1]];
    }
  }

  /** Most significant byte first: byte i has weight 256 to the width - 1 - i. */
  lemma {:induction false} EncodeIsBigEndian(n: nat, width: nat, i: nat)
    requires i < width
    ensures Encode(n, width)[i] == n / Space(width - 1 - i) % 256
  {
    if i < width - 1 {
      EncodeIsBigEndian(n / 256, width - 1, i);
      DivideTwice(n, Space(width - 2 - i));
    }
  }

  lemma DivideTwice(n: nat, m: nat)
    requires m > 0
    ensures n / 256 / m == n / (256 * m)
  {
    var q, r := n / 256, n % 256;
    var s, t := q / m, q % m;
    assert n == 256 * m * s + (256 * t + r) by {
      assert q == m * s + t;
      assert 256 * q == 256 * m * s + 256 * t;
    }
    assert 0 <= 256 * t + r < 256 * m;
    QuotientIs(n, 256 * m, s, 256 * t + r);
  }

  lemma QuotientIs(n: nat, d: nat, q: nat, r: nat)
    requires n == d * q + r && r < d
    ensures n / d == q
  {
    var q' := n / d;
    if q' < q {
      TimesMonotone(d, q' + 1, q);
    } else if q < q' {
      TimesMonotone(d, q + 1, q');
    }
  }

  lemma TimesMonotone(d: nat, a: nat, b: nat)
    requires a <= b
    ensures d * a <= d * b
  {}

  /** Distinct in-range numbers have distinct encodings. */
  lemma EncodeInjective(m: nat, n: nat, width: nat)
    requires m < Space(width) && n < Space(width)
    requires Encode(m, width) == Encode(n, width)
    ensures m == n
  {
    DecodeEncode(m, width);
    DecodeEncode(n, width);
  }

  lemma SpaceValues()
    ensures Space(1) == 0x100
    ensures Space(4) == 0x1_0000_0000
    ensures Space(8) == 0x1_0000_0000_0000_0000
  {
    assert Space(2) == 0x1_0000;
    assert Space(3) == 0x100_0000;
    assert Space(5) == 0x100_0000_0000;
    assert Space(6) == 0x1_0000_0000_0000;
    assert Space(7) == 0x100_0000_0000_0000;
  }
}
