/** Shifts, masks and bitwise "or" on non-negative machine words, read bit by bit. */
module Bits {

  // Bit k of n, least significant first.
  predicate Bit(n: nat, k: nat) {
    if k == 0 then n % 2 == 1 else Bit(n / 2, k - 1)
  }

  // n >> s
  function Shr(n: nat, s: nat): nat {
    if s == 0 then n else Shr(n / 2, s - 1)
  }

  // n << s
  function Shl(n: nat, s: nat): nat {
    if s == 0 then n else 2 * Shl(n, s - 1)
  }

  // n & ((1 << s) - 1)
  function Low(n: nat, s: nat): nat {
    if s == 0 then 0 else n % 2 + 2 * Low(n / 2, s - 1)
  }

  // a | b
  function Or(a: nat, b: nat): nat
    decreases a + b
  {
    if a == 0 then b
    else if b == 0 then a
    else (if a % 2 == 1 || b % 2 == 1 then 1 else 0) + 2 * Or(a / 2, b / 2)
  }

  // Position of the lowest 1 bit (__builtin_ctz).
  function Ctz(n: nat): (k: nat)
    requires n > 0
    ensures Bit(n, k) && forall j :: 0 <= j < k ==> !Bit(n, j)
  {
    if n % 2 == 1 then 0
    else
      var k := Ctz(n / 2);
      assert forall j :: 0 <= j < k + 1 ==> !Bit(n, j) by {
        forall j | 0 <= j < k + 1
          ensures !Bit(n, j)
        {
          if j > 0 {
            assert !Bit(n / 2, j - 1);
          }
        }
      }
      k + 1
  }

  // The number of 1 bits (std::bitset::count).
  function Popcount(n: nat): nat {
    if n == 0 then 0 else n % 2 + Popcount(n / 2)
  }

  lemma {:induction false} BitZero(k: nat)
    ensures !Bit(0, k)
  {
    if k > 0 {
      BitZero(k - 1);
    }
  }

  lemma {:induction false} BitShr(n: nat, s: nat, k: nat)
    ensures Bit(Shr(n, s), k) == Bit(n, k + s)
  {
    if s > 0 {
      BitShr(n / 2, s - 1, k);
    }
  }

  lemma {:induction false} BitShl(n: nat, s: nat, k: nat)
    ensures Bit(Shl(n, s), k) == (k >= s && Bit(n, k - s))
  {
    if s > 0 && k > 0 {
      BitShl(n, s - 1, k - 1);
      assert Shl(n, s) / 2 == Shl(n, s - 1);
    }
  }

  lemma {:induction false} BitLow(n: nat, s: nat, k: nat)
    ensures Bit(Low(n, s), k) == (k < s && Bit(n, k))
  {
    if s == 0 {
      BitZero(k);
    } else if k > 0 {
      BitLow(n / 2, s - 1, k - 1);
      assert Low(n, s) / 2 == Low(n / 2, s - 1);
    }
  }

  lemma OrHalves(a: nat, b: nat)
    ensures Or(a, b) / 2 == Or(a / 2, b / 2)
    ensures Or(a, b) % 2 == (if a % 2 == 1 || b % 2 == 1 then 1 else 0)
  {
    if a != 0 && b != 0 {
      var low := if a % 2 == 1 || b % 2 == 1 then 1 else 0;
      assert Or(a, b) == low + 2 * Or(a / 2, b / 2);
    }
  }

  lemma {:induction false} BitOr(a: nat, b: nat, k: nat)
    ensures Bit(Or(a, b), k) == (Bit(a, k) || Bit(b, k))
    decreases k
  {
    OrHalves(a, b);
    if k > 0 {
      BitOr(a / 2, b / 2, k - 1);
    }
  }

  // A number is determined by its bits.
  lemma {:induction false} BitsDetermine(a: nat, b: nat)
    requires forall k: nat :: Bit(a, k) == Bit(b, k)
    ensures a == b
    decreases a + b
  {
    if a + b > 0 {
      assert Bit(a, 0) == Bit(b, 0);
      forall k: nat
        ensures Bit(a / 2, k) == Bit(b / 2, k)
      {
        assert Bit(a, k + 1) == Bit(b, k + 1);
      }
      BitsDetermine(a / 2, b / 2);
    }
  }

  // n has no 1 bit at position w or above.
  ghost predicate ClearFrom(n: nat, w: nat) {
    forall k: nat :: k >= w ==> !Bit(n, k)
  }

  lemma ZeroIffClear(n: nat)
    ensures n == 0 <==> ClearFrom(n, 0)
  {
    if n == 0 {
      forall k: nat
        ensures !Bit(n, k)
      {
        BitZero(k);
      }
    } else {
      assert Bit(n, Ctz(n));
    }
  }

  // n fits in w bits exactly when it has no bit at w or above.
  lemma {:induction false} FitsIffClear(n: nat, w: nat)
    ensures n < Shl(1, w) <==> ClearFrom(n, w)
  {
    if w == 0 {
      ZeroIffClear(n);
    } else {
      FitsIffClear(n / 2, w - 1);
      if ClearFrom(n, w) {
        forall k: nat | k >= w - 1
          ensures !Bit(n / 2, k)
        {
          assert !Bit(n, k + 1);
        }
      }
      if ClearFrom(n / 2, w - 1) {
        forall k: nat | k >= w
          ensures !Bit(n, k)
        {
          assert !Bit(n / 2, k - 1);
        }
      }
    }
  }

  lemma {:induction false} LowFits(n: nat, w: nat)
    ensures Low(n, w) < Shl(1, w)
  {
    if w > 0 {
      LowFits(n / 2, w - 1);
    }
  }

  lemma {:induction false} OrFits(a: nat, b: nat, w: nat)
    requires a < Shl(1, w) && b < Shl(1, w)
    ensures Or(a, b) < Shl(1, w)
    decreases w
  {
    if w > 0 && a != 0 && b != 0 {
      OrFits(a / 2, b / 2, w - 1);
    }
  }

  lemma {:induction false} ShlOneFits(s: nat, w: nat)
    requires s < w
    ensures Shl(1, s) < Shl(1, w)
  {
    if s > 0 {
      ShlOneFits(s - 1, w - 1);
    } else if w > 1 {
      ShlOneFits(s, w - 1);
    }
  }

  lemma {:induction false} ShlMonotone(a: nat, b: nat, s: nat)
    requires a <= b
    ensures Shl(a, s) <= Shl(b, s)
  {
    if s > 0 {
      ShlMonotone(a, b, s - 1);
    }
  }

  lemma ShlLess(a: nat, b: nat, s: nat)
    requires a < b
    ensures Shl(a, s) + Shl(1, s) <= Shl(b, s)
    decreases s
  {
    if s > 0 {
      ShlLess(a, b, s - 1);
    }
  }

  lemma {:induction false} ShlAdds(s: nat, t: nat, a: nat)
    ensures Shl(Shl(a, s), t) == Shl(a, s + t)
    decreases t
  {
    if t > 0 {
      ShlAdds(s, t - 1, a);
    }
  }

  // Quotient and remainder by 2^s put together again, with "|" and with "+".
  lemma {:induction false} SplitJoin(n: nat, s: nat)
    ensures Shl(Shr(n, s), s) + Low(n, s) == n
  {
    if s > 0 {
      SplitJoin(n / 2, s - 1);
    }
  }

  lemma {:induction false} OrIsSum(q: nat, s: nat, r: nat)
    requires r < Shl(1, s)
    ensures Or(Shl(q, s), r) == Shl(q, s) + r
  {
    if s > 0 {
      OrIsSum(q, s - 1, r / 2);
      assert Shl(q, s) / 2 == Shl(q, s - 1);
    }
  }

  // floor(a / 2^s) + floor(b / 2^s) never exceeds floor((a + b) / 2^s).
  lemma {:induction false} ShrSuperadditive(a: nat, b: nat, s: nat)
    ensures Shr(a, s) + Shr(b, s) <= Shr(a + b, s)
  {
    if s > 0 {
      ShrSuperadditive(a / 2, b / 2, s - 1);
      ShrMonotone(a / 2 + b / 2, (a + b) / 2, s - 1);
    }
  }

  lemma {:induction false} ShrMonotone(a: nat, b: nat, s: nat)
    requires a <= b
    ensures Shr(a, s) <= Shr(b, s)
  {
    if s > 0 {
      ShrMonotone(a / 2, b / 2, s - 1);
    }
  }

  // Setting one bit adds one to the count exactly when the bit was clear.
  lemma {:induction false} PopcountSetBit(n: nat, k: nat)
    ensures Popcount(Or(n, Shl(1, k))) == Popcount(n) + (if Bit(n, k) then 0 else 1)
    decreases k
  {
    var m := Or(n, Shl(1, k));
    OrHalves(n, Shl(1, k));
    PopcountHalf(n);
    PopcountHalf(m);
    if k == 0 {
      assert Or(n / 2, 0) == n / 2;
    } else {
      assert Shl(1, k) == 2 * Shl(1, k - 1);
      PopcountSetBit(n / 2, k - 1);
    }
  }

  lemma PopcountHalf(n: nat)
    ensures Popcount(n) == n % 2 + Popcount(n / 2)
  {
  }

  // ---- In numbers ----

  function Pow2(n: nat): (p: nat)
    ensures p > 0
  {
    if n == 0 then 1 else 2 * Pow2(n - 1)
  }

  lemma {:induction false} ShlMultiplies(n: nat, s: nat)
    ensures Shl(n, s) == n * Pow2(s)
    decreases s
  {
    if s > 0 {
      ShlMultiplies(n, s - 1);
    }
  }

  lemma DivideTwice(n: nat, p: nat)
    requires p > 0
    ensures n / 2 / p == n / (2 * p)
    ensures n % 2 + 2 * (n / 2 % p) == n % (2 * p)
  {
    var h := n / 2;
    var q, r := h / p, h % p;
    assert h == q * p + r;
    assert n == 2 * h + n % 2;
    assert n == q * (2 * p) + (2 * r + n % 2);
    DivisionIs(n, 2 * p, q, 2 * r + n % 2);
  }

  // A quotient and a remainder that fit are those of the division.
  lemma DivisionIs(y: nat, m: nat, q: nat, r: nat)
    requires r < m && y == q * m + r
    ensures y / m == q && y % m == r
  {
    var q', r' := y / m, y % m;
    assert y == q' * m + r' && 0 <= r' < m;
    if q < q' {
      MultipleIsMore(q, q', m);
    } else if q' < q {
      MultipleIsMore(q', q, m);
    }
  }

  lemma {:induction false} MultipleIsMore(a: nat, b: nat, m: nat)
    requires a < b
    ensures a * m + m <= b * m
    decreases m
  {
    if m > 0 {
      MultipleIsMore(a, b, m - 1);
    }
  }

  /** Shifts, masks and bits are multiplication and division by powers of two. */
  lemma {:induction false} BitsAreNumeric(n: nat, s: nat)
    ensures Shl(n, s) == n * Pow2(s)
    ensures Shr(n, s) == n / Pow2(s)
    ensures Low(n, s) == n % Pow2(s)
    ensures Bit(n, s) <==> n / Pow2(s) % 2 == 1
    decreases s
  {
    ShlMultiplies(n, s);
    if s > 0 {
      BitsAreNumeric(n / 2, s - 1);
      DivideTwice(n, Pow2(s - 1));
    }
  }
}
