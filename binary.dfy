/**
 * Integers as bit strings: Python's `format(v, "0<w>b")`, `int(s, 2)`, `s[::-1]`,
 * and the bits of a non-negative integer (bit 0 is the least significant).
 */
module Binary {

  function Pow2(k: nat): (r: nat)
    ensures r >= 1
  {
    if k == 0 then 1 else 2 * Pow2(k - 1)
  }

  lemma {:induction false} Pow2Monotone(a: nat, b: nat)
    requires a <= b
    ensures Pow2(a) <= Pow2(b)
  {
    if a < b {
      Pow2Monotone(a, b - 1);
    }
  }

  /** Bit j of v, as `(v >> j) & 1 == 1`. */
  function Bit(v: nat, j: nat): bool
  {
    (v / Pow2(j)) % 2 == 1
  }

  /** The quotient and remainder of Euclidean division are unique. */
  lemma DivModUnique(a: int, m: int, q: int, r: int)
    requires m > 0 && 0 <= r < m && a == m * q + r
    ensures a / m == q && a % m == r
  {
    var q', r' := a / m, a % m;
    var d := q - q';
    assert m * q == m * q' + m * d;
    assert m * d == r' - r;
  }

  lemma BitShift(v: nat, j: nat)
    ensures Bit(v, j + 1) == Bit(v / 2, j)
  {
    var p := Pow2(j);
    var h := v / 2;
    var q, r := h / p, h % p;
    assert h == p * q + r;
    assert v == (2 * p) * q + (2 * r + v % 2);
    DivModUnique(v, 2 * p, q, 2 * r + v % 2);
  }

  /** Splitting off bit j: v mod 2^(j+1) = v mod 2^j + bit_j(v) * 2^j. */
  lemma ModSplit(v: nat, j: nat)
    ensures v % Pow2(j + 1) == v % Pow2(j) + (if Bit(v, j) then Pow2(j) else 0)
  {
    var p := Pow2(j);
    var q, r := v / p, v % p;
    var t, b := q / 2, q % 2;
    assert q == 2 * t + b;
    assert v == p * q + r;
    assert p * q == (2 * p) * t + p * b;
    DivModUnique(v, 2 * p, t, p * b + r);
  }

  lemma BitAbove(v: nat, j: nat)
    requires v < Pow2(j)
    ensures !Bit(v, j)
  {
    DivModUnique(v, Pow2(j), 0, v);
  }

  lemma ModBelow(v: nat, k: nat)
    requires v < Pow2(k)
    ensures v % Pow2(k) == v
  {
    DivModUnique(v, Pow2(k), 0, v);
  }

  lemma {:induction false} LowBitsAgree(a: nat, b: nat, k: nat)
    requires forall q :: 0 <= q < k ==> Bit(a, q) == Bit(b, q)
    ensures a % Pow2(k) == b % Pow2(k)
  {
    if k > 0 {
      LowBitsAgree(a, b, k - 1);
      ModSplit(a, k - 1);
      ModSplit(b, k - 1);
    }
  }

  function Digit(b: bool): char
  {
    if b then '1' else '0'
  }

  predicate IsBitString(s: string)
  {
    forall i :: 0 <= i < |s| ==> s[i] == '0' || s[i] == '1'
  }

  function Zeros(k: nat): (s: string)
  {
    seq(k, _ => '0')
  }

  /** Python's `format(v, "b")`: the binary digits of v, most significant first, "0" for 0. */
  function BinaryDigits(v: nat): string
  {
    if v < 2 then [Digit(v == 1)] else BinaryDigits(v / 2) + [Digit(v % 2 == 1)]
  }

  /** Python's `format(v, "0" + str(w) + "b")`: zero-padded to at least w digits. */
  function Format(v: nat, w: nat): (s: string)
    ensures |s| >= w
  {
    var b := BinaryDigits(v);
    if |b| >= w then b else Zeros(w - |b|) + b
  }

  /** Python's `s[::-1]`. */
  function Reverse<T>(s: seq<T>): (r: seq<T>)
  {
    seq(|s|, i requires 0 <= i < |s| => s[|s| - 1 - i])
  }

  lemma ReverseInvolution<T>(s: seq<T>)
    ensures |Reverse(s)| == |s| && Reverse(Reverse(s)) == s
  {
  }

  /** Python's `int(s, 2)` on a string of binary digits, most significant first. */
  function BinaryValue(s: string): (v: nat)
    ensures v < Pow2(|s|)
  {
    if s == [] then 0
    else 2 * BinaryValue(s[..|s| - 1]) + (if s[|s| - 1] == '1' then 1 else 0)
  }

  /** Bits of a number as the qubit values of a register, qubit q holding bit q. */
  function Encode(t: nat, d: nat): (bits: seq<bool>)
  {
    seq(d, i requires 0 <= i < d => Bit(t, i))
  }

  /** `format(v, "b")` has just enough digits for v. */
  lemma {:induction false} BinaryDigitsSize(v: nat)
    ensures |BinaryDigits(v)| >= 1 && IsBitString(BinaryDigits(v))
    ensures v < Pow2(|BinaryDigits(v)|)
    ensures v >= 1 ==> Pow2(|BinaryDigits(v)| - 1) <= v
  {
    if v >= 2 {
      var b' := BinaryDigits(v / 2);
      BinaryDigitsSize(v / 2);
      assert BinaryDigits(v) == b' + [Digit(v % 2 == 1)];
      HalfBounds(v, |b'|);
    }
  }

  lemma HalfBounds(v: nat, k: nat)
    requires k >= 1 && Pow2(k - 1) <= v / 2 < Pow2(k)
    ensures Pow2(k) <= v < Pow2(k + 1)
  {
  }

  /** Digit j of `format(v, "b")`, counted from the right, is bit j of v. */
  lemma {:induction false} BinaryDigitsLow(v: nat)
    ensures forall j :: 0 <= j < |BinaryDigits(v)| ==>
      BinaryDigits(v)[|BinaryDigits(v)| - 1 - j] == Digit(Bit(v, j))
  {
    var b := BinaryDigits(v);
    if v < 2 {
      assert Bit(v, 0) == (v == 1);
    } else {
      BinaryDigitsLow(v / 2);
      var b' := BinaryDigits(v / 2);
      assert b == b' + [Digit(v % 2 == 1)];
      forall j | 0 <= j < |b|
        ensures b[|b| - 1 - j] == Digit(Bit(v, j))
      {
        if j == 0 {
          assert Bit(v, 0) == (v % 2 == 1);
        } else {
          BitShift(v, j - 1);
          assert b[|b| - 1 - j] == b'[|b'| - 1 - (j - 1)];
        }
      }
    }
  }

  /**
   * What `format(v, "0<w>b")` yields: at least w binary digits, digit j from the right
   * being bit j of v; exactly w digits iff v fits in w bits (for w >= 1); and
   * `int(format(v, "0<w>b"), 2)` gives v back.
   */
  lemma FormatBits(v: nat, w: nat)
    ensures |Format(v, w)| >= w && |Format(v, w)| >= 1 && IsBitString(Format(v, w))
    ensures forall j :: 0 <= j < |Format(v, w)| ==>
      Format(v, w)[|Format(v, w)| - 1 - j] == Digit(Bit(v, j))
    ensures w >= 1 ==> (|Format(v, w)| == w <==> v < Pow2(w))
    ensures BinaryValue(Format(v, w)) == v
  {
    FormatSize(v, w);
    FormatLow(v, w);
    FormatRoundTrip(v, w);
  }

  lemma FormatSize(v: nat, w: nat)
    ensures |Format(v, w)| >= w && |Format(v, w)| >= 1 && IsBitString(Format(v, w))
    ensures w >= 1 ==> (|Format(v, w)| == w <==> v < Pow2(w))
  {
    var b := BinaryDigits(v);
    BinaryDigitsSize(v);
    if w >= 1 {
      if v < Pow2(w) && |b| > w {
        Pow2Monotone(w, |b| - 1);
      }
      if |Format(v, w)| == w {
        Pow2Monotone(|b|, w);
      }
    }
  }

  lemma FormatLow(v: nat, w: nat)
    ensures forall j :: 0 <= j < |Format(v, w)| ==>
      Format(v, w)[|Format(v, w)| - 1 - j] == Digit(Bit(v, j))
  {
    var b := BinaryDigits(v);
    BinaryDigitsSize(v);
    BinaryDigitsLow(v);
    var f := Format(v, w);
    forall j | 0 <= j < |f|
      ensures f[|f| - 1 - j] == Digit(Bit(v, j))
    {
      if j >= |b| {
        Pow2Monotone(|b|, j);
        BitAbove(v, j);
        assert f[|f| - 1 - j] == '0';
      } else {
        assert f[|f| - 1 - j] == b[|b| - 1 - j];
      }
    }
  }

  lemma {:induction false} ZerosValue(k: nat)
    ensures BinaryValue(Zeros(k)) == 0
  {
    if k > 0 {
      assert Zeros(k)[..k - 1] == Zeros(k - 1);
      ZerosValue(k - 1);
    }
  }

  lemma {:induction false} PaddedValue(k: nat, s: string)
    ensures BinaryValue(Zeros(k) + s) == BinaryValue(s)
    decreases |s|
  {
    if s == [] {
      assert Zeros(k) + s == Zeros(k);
      ZerosValue(k);
    } else {
      assert (Zeros(k) + s)[..|Zeros(k) + s| - 1] == Zeros(k) + s[..|s| - 1];
      PaddedValue(k, s[..|s| - 1]);
    }
  }

  lemma {:induction false} BinaryDigitsValue(v: nat)
    ensures BinaryValue(BinaryDigits(v)) == v
  {
    if v >= 2 {
      var b := BinaryDigits(v);
      assert b[..|b| - 1] == BinaryDigits(v / 2);
      BinaryDigitsValue(v / 2);
    }
  }

  /** `int(format(v, "0<w>b"), 2) == v`. */
  lemma FormatRoundTrip(v: nat, w: nat)
    ensures BinaryValue(Format(v, w)) == v
  {
    BinaryDigitsValue(v);
    var b := BinaryDigits(v);
    if |b| < w {
      PaddedValue(w - |b|, b);
    }
  }

  /** Equal-length binary strings with the same value are the same string. */
  lemma {:induction false} BinaryValueInjective(s: string, t: string)
    requires IsBitString(s) && IsBitString(t) && |s| == |t|
    requires BinaryValue(s) == BinaryValue(t)
    ensures s == t
    decreases |s|
  {
    if s != [] {
      var n := |s|;
      BinaryValueInjective(s[..n - 1], t[..n - 1]);
      assert s == s[..n - 1] + [s[n - 1]];
      assert t == t[..n - 1] + [t[n - 1]];
    }
  }

  /** The only binary string of value 0 is the all-zero one. */
  lemma ZeroValueIsZeros(s: string)
    requires IsBitString(s)
    ensures BinaryValue(s) == 0 <==> s == Zeros(|s|)
  {
    ZerosValue(|s|);
    if BinaryValue(s) == 0 {
      BinaryValueInjective(s, Zeros(|s|));
    }
  }

  /** Agreement modulo 2^(k+1) implies agreement modulo 2^k and in bit k. */
  lemma ModDown(a: nat, b: nat, k: nat)
    requires a % Pow2(k + 1) == b % Pow2(k + 1)
    ensures a % Pow2(k) == b % Pow2(k) && Bit(a, k) == Bit(b, k)
  {
    ModSplit(a, k);
    ModSplit(b, k);
    var m := a % Pow2(k + 1);
    DivModUnique(m, Pow2(k), if Bit(a, k) then 1 else 0, a % Pow2(k));
    DivModUnique(m, Pow2(k), if Bit(b, k) then 1 else 0, b % Pow2(k));
  }

  /** Two numbers give the same d-qubit register exactly when they agree modulo 2^d. */
  lemma {:induction false} EncodeMod(a: nat, b: nat, d: nat)
    ensures Encode(a, d) == Encode(b, d) <==> a % Pow2(d) == b % Pow2(d)
  {
    if Encode(a, d) == Encode(b, d) {
      forall q | 0 <= q < d
        ensures Bit(a, q) == Bit(b, q)
      {
        assert Encode(a, d)[q] == Encode(b, d)[q];
      }
      LowBitsAgree(a, b, d);
    }
    if a % Pow2(d) == b % Pow2(d) && d > 0 {
      ModDown(a, b, d - 1);
      EncodeMod(a, b, d - 1);
      assert Encode(a, d) == Encode(a, d - 1) + [Bit(a, d - 1)];
      assert Encode(b, d) == Encode(b, d - 1) + [Bit(b, d - 1)];
    }
  }

  /** A nonempty b is its prefix plus its last element, also after a prefix a. */
  lemma SplitLast<T>(a: seq<T>, b: seq<T>)
    requires b != []
    ensures a + b == (a + b[..|b| - 1]) + [b[|b| - 1]]
    ensures b == b[..|b| - 1] + [b[|b| - 1]]
  {
  }

  lemma ConcatAssoc<T>(ab: seq<T>, ai: seq<T>, a: seq<T>, i: seq<T>, b: seq<T>, l: seq<T>)
    requires ab == ai + l && ai == a + i && b == i + l
    ensures ab == a + b
  {
  }

  lemma AppendThree<T>(s: seq<T>, a: T, b: T, c: T)
    ensures s + [a] + [b] + [c] == s + [a, b, c]
  {
  }

  lemma AppendFour<T>(s: seq<T>, a: T, b: T, c: T, d: T)
    ensures s + [a] + [b] + [c] + [d] == s + [a, b, c, d]
  {
  }
}
