/** Numbers as sequences of bytes, least significant byte first. */
module LittleEndian {

  type Byte = b: int | 0 <= b < 256

  // 256 to the power k.
  function Power(k: nat): (p: nat)
    ensures p >= 1
  {
    if k == 0 then 1 else 256 * Power(k - 1)
  }

  // The number with the given bytes.
  function Join(s: seq<Byte>): (v: nat)
    ensures v < Power(|s|)
  {
    if s == [] then 0 else s[0] + 256 * Join(s[1..])
  }

  // The k low bytes of v.
  function Bytes(v: nat, k: nat): (s: seq<Byte>)
    ensures |s| == k
  {
    if k == 0 then [] else [v % 256] + Bytes(v / 256, k - 1)
  }

  lemma {:induction false} BytesOfJoin(s: seq<Byte>)
    ensures Bytes(Join(s), |s|) == s
  {
    if s != [] {
      var rest := Join(s[1..]);
      assert (s[0] + 256 * rest) % 256 == s[0] && (s[0] + 256 * rest) / 256 == rest;
      BytesOfJoin(s[1..]);
    }
  }

  // Powers of 256 that are used.
  lemma PowerValues()
    ensures Power(0) == 1 && Power(1) == 256 && Power(2) == 0x1_0000 && Power(4) == 0x1_0000_0000
    ensures Power(8) == 0x1_0000_0000_0000_0000
  {
    assert Power(8) == 256 * Power(7) && Power(7) == 256 * Power(6) && Power(6) == 256 * Power(5);
    assert Power(5) == 256 * Power(4) && Power(4) == 256 * Power(3) && Power(3) == 256 * Power(2);
  }

  /** Byte i of a number is its digit with weight 256^i. */
  lemma {:induction false} BytesDigit(v: nat, k: nat, i: nat)
    requires i < k
    ensures Bytes(v, k)[i] == v / Power(i) % 256
  {
    if i > 0 {
      BytesDigit(v / 256, k - 1, i - 1);
      DivideTwice(v, Power(i - 1));
    }
  }

  lemma DivideTwice(v: nat, p: nat)
    requires p > 0
    ensures v / 256 / p == v / (256 * p)
  {
    var q, r, low := v / 256 / p, v / 256 % p, v % 256;
    assert v / 256 == p * q + r;
    assert v == (low + 256 * r) + (256 * p) * q;
    ModOfSum(low + 256 * r, q, 256 * p);
  }

  /** And the number with given bytes has them as its digits. */
  lemma JoinDigit(s: seq<Byte>, i: nat)
    requires i < |s|
    ensures Join(s) / Power(i) % 256 == s[i]
  {
    BytesOfJoin(s);
    BytesDigit(Join(s), |s|, i);
  }

  lemma {:induction false} JoinAppend(s: seq<Byte>, t: seq<Byte>)
    ensures Join(s + t) == Join(s) + Power(|s|) * Join(t)
  {
    if s == [] {
      assert s + t == t;
    } else {
      var u := s + t;
      assert u[0] == s[0] && u[1..] == s[1..] + t;
      JoinAppend(s[1..], t);
      Distribute(Power(|s| - 1), Join(t));
      assert Power(|s|) == 256 * Power(|s| - 1);
      assert Join(u) == s[0] + 256 * Join(u[1..]);
    }
  }

  lemma Distribute(p: nat, v: nat)
    ensures 256 * (p * v) == (256 * p) * v
  {
  }

  /** Masking with 256^k - 1 keeps the k low bytes. */
  lemma {:induction false} JoinMod(s: seq<Byte>, k: nat)
    requires k <= |s|
    ensures Join(s) % Power(k) == Join(s[..k])
  {
    JoinAppend(s[..k], s[k..]);
    assert s[..k] + s[k..] == s;
    ModOfSum(Join(s[..k]), Join(s[k..]), Power(k));
  }

  lemma ModOfSum(low: nat, high: nat, m: nat)
    requires low < m
    ensures (low + m * high) % m == low && (low + m * high) / m == high
  {
    var x := low + m * high;
    var q, r := x / m, x % m;
    assert x == m * q + r;
    if q < high {
      ProductMonotone(m, q, high);
    } else if high < q {
      ProductMonotone(m, high, q);
    }
  }

  lemma ProductMonotone(d: int, a: int, b: int)
    requires d > 0 && a < b
    ensures d * a + d <= d * b
  {
    assert d * (b - a - 1) >= 0;
  }

  lemma QuotientExact(d: int, q: nat)
    requires d > 0
    ensures d * q / d == q
  {
    ModOfSum(0, q, d);
  }

  lemma QuotientBelow(w: nat, d: int, q: int)
    requires d > 0 && w < d * q
    ensures w / d < q
  {
    assert w == d * (w / d) + w % d;
    if q < w / d {
      ProductMonotone(d, q, w / d);
    }
  }
}
