/** Bit-level operators of C's unsigned integers, on natural numbers, and the
    facts that turn them into sets of bits and into division and remainder. */
module Bits {
  function Pow2(n: nat): (p: nat)
    ensures p > 0
  {
    if n == 0 then 1 else 2 * Pow2(n - 1)
  }

  /** `x & y` */
  function And(x: nat, y: nat): nat {
    if x == 0 || y == 0 then 0
    else (if x % 2 == 1 && y % 2 == 1 then 1 else 0) + 2 * And(x / 2, y / 2)
  }

  /** `x | y` */
  function Or(x: nat, y: nat): nat
    decreases x + y
  {
    if x == 0 then y
    else if y == 0 then x
    else (if x % 2 == 1 || y % 2 == 1 then 1 else 0) + 2 * Or(x / 2, y / 2)
  }

  /** `x >> n` */
  function Shr(x: nat, n: nat): nat
    decreases n
  {
    if n == 0 then x else Shr(x / 2, n - 1)
  }

  /** The number formed by the `n` lowest bits of `x`. */
  function Low(x: nat, n: nat): nat
    decreases n
  {
    if n == 0 then 0 else x % 2 + 2 * Low(x / 2, n - 1)
  }

  /** `~x` on 32 bits */
  function Not32(x: nat): nat
    requires x < 0x1_0000_0000
  {
    0xFFFF_FFFF - x
  }

  /** Whether bit `n` of `x` is one. */
  predicate Bit(x: nat, n: nat)
    decreases n
  {
    if n == 0 then x % 2 == 1 else Bit(x / 2, n - 1)
  }

  lemma {:induction false} BitZero(n: nat)
    ensures !Bit(0, n)
  {
    if n > 0 {
      BitZero(n - 1);
    }
  }

  lemma {:induction false} BitAnd(x: nat, y: nat, n: nat)
    ensures Bit(And(x, y), n) == (Bit(x, n) && Bit(y, n))
    decreases n
  {
    BitZero(n);
    if x != 0 && y != 0 && n > 0 {
      BitAnd(x / 2, y / 2, n - 1);
    }
  }

  lemma {:induction false} BitOr(x: nat, y: nat, n: nat)
    ensures Bit(Or(x, y), n) == (Bit(x, n) || Bit(y, n))
    decreases n
  {
    BitZero(n);
    if x != 0 && y != 0 && n > 0 {
      BitOr(x / 2, y / 2, n - 1);
    }
  }

  lemma {:induction false} BitPow2(j: nat, n: nat)
    ensures Bit(Pow2(j), n) == (j == n)
    decreases n
  {
    if n > 0 && j > 0 {
      BitPow2(j - 1, n - 1);
    } else if n > 0 {
      BitZero(n - 1);
    }
  }

  lemma {:induction false} BitComplement(x: nat, width: nat, n: nat)
    requires x < Pow2(width) && n < width
    ensures Bit(Pow2(width) - 1 - x, n) == !Bit(x, n)
    decreases n
  {
    if n > 0 {
      BitComplement(x / 2, width - 1, n - 1);
      assert (Pow2(width) - 1 - x) / 2 == Pow2(width - 1) - 1 - x / 2;
    }
  }

  lemma {:induction false} AndPow2(x: nat, n: nat)
    ensures And(x, Pow2(n)) == if Bit(x, n) then Pow2(n) else 0
    decreases n
  {
    if n > 0 && x > 0 {
      AndPow2(x / 2, n - 1);
      assert And(x, Pow2(n)) == 2 * And(x / 2, Pow2(n - 1));
    } else if n > 0 {
      BitZero(n);
    } else if x > 0 {
      assert And(x, 1) == x % 2 + 2 * And(x / 2, 0);
    }
  }

  lemma {:induction false} BitShr(x: nat, n: nat)
    ensures And(Shr(x, n), 1) == if Bit(x, n) then 1 else 0
    decreases n
  {
    if n > 0 {
      BitShr(x / 2, n - 1);
    } else if x > 0 {
      assert And(x, 1) == x % 2 + 2 * And(x / 2, 0);
    }
  }

  /** A word is all ones exactly when every one of its bits is set. */
  lemma {:induction false} AllOnes(width: nat, n: nat)
    requires n < width
    ensures Bit(Pow2(width) - 1, n)
    decreases n
  {
    assert Pow2(width) - 1 == 2 * (Pow2(width - 1) - 1) + 1;
    if n > 0 {
      AllOnes(width - 1, n - 1);
    }
  }

  lemma {:induction false} SomeZero(x: nat, width: nat) returns (n: nat)
    requires x < Pow2(width) - 1
    ensures n < width && !Bit(x, n)
    decreases width
  {
    if x % 2 == 0 {
      n := 0;
    } else {
      n := SomeZero(x / 2, width - 1);
      n := n + 1;
    }
  }

  /** Masking with `2^n - 1` keeps the low bits. */
  lemma {:induction false} AndLowMask(x: nat, n: nat)
    ensures And(x, Pow2(n) - 1) == Low(x, n)
    decreases n
  {
    if n > 0 {
      AndLowMask(x / 2, n - 1);
      assert Pow2(n) - 1 == 2 * (Pow2(n - 1) - 1) + 1;
      if x == 0 {
        assert And(0, Pow2(n - 1) - 1) == 0;
      }
    }
  }

  lemma AndEven(x: nat, y: nat)
    ensures And(x, 2 * y) == 2 * And(x / 2, y)
  {
    var z := 2 * y;
    assert z / 2 == y && z % 2 == 0;
    if x != 0 && y != 0 {
      assert And(x, z) == 2 * And(x / 2, z / 2);
    }
  }

  /** Masking with the complement of `2^n - 1` clears the low bits. */
  lemma {:induction false} AndHighMask(x: nat, width: nat, n: nat)
    requires x < Pow2(width) && n <= width
    ensures Pow2(width) >= Pow2(n)
    ensures And(x, Pow2(width) - Pow2(n)) == x - Low(x, n)
    decreases width
  {
    if width > 0 {
      if n == 0 {
        AndLowMask(x, width);
        LowAll(x, width);
      } else {
        var w, p := Pow2(width - 1), Pow2(n - 1);
        AndHighMask(x / 2, width - 1, n - 1);
        AndEven(x, w - p);
      }
    }
  }

  lemma {:induction false} LowAll(x: nat, n: nat)
    requires x < Pow2(n)
    ensures Low(x, n) == x
    decreases n
  {
    if n > 0 {
      LowAll(x / 2, n - 1);
    }
  }

  /** Joining a number without low bits and one with only low bits adds them. */
  lemma {:induction false} OrDisjoint(x: nat, y: nat, n: nat)
    requires Low(x, n) == 0 && y < Pow2(n)
    ensures Or(x, y) == x + y
    decreases n
  {
    if n > 0 && x != 0 && y != 0 {
      OrDisjoint(x / 2, y / 2, n - 1);
    }
  }

  /** Joining only low bits changes only low bits. */
  lemma {:induction false} OrLow(x: nat, y: nat, n: nat)
    requires y < Pow2(n)
    ensures Low(x, n) <= x
    ensures Or(x, y) == x - Low(x, n) + Or(Low(x, n), y)
    decreases n
  {
    if n > 0 {
      OrLow(x / 2, y / 2, n - 1);
      var l := Low(x, n);
      assert l % 2 == x % 2 && l / 2 == Low(x / 2, n - 1);
      if x == 0 {
        LowZero(n);
      } else if y == 0 {
      } else if l == 0 {
        assert Or(x / 2, y / 2) == x / 2 + y / 2;
      } else {
        assert Or(l, y) == (if x % 2 == 1 || y % 2 == 1 then 1 else 0) + 2 * Or(l / 2, y / 2);
      }
    }
  }

  lemma {:induction false} LowZero(n: nat)
    ensures Low(0, n) == 0
  {
    if n > 0 {
      LowZero(n - 1);
    }
  }

  lemma {:induction false} OrBound(x: nat, y: nat, n: nat)
    requires x < Pow2(n) && y < Pow2(n)
    ensures Or(x, y) < Pow2(n)
    decreases n
  {
    if n > 0 && x != 0 && y != 0 {
      OrBound(x / 2, y / 2, n - 1);
    }
  }

  lemma {:induction false} AndBound(x: nat, y: nat)
    ensures And(x, y) <= x && And(x, y) <= y
    decreases x
  {
    if x != 0 && y != 0 {
      AndBound(x / 2, y / 2);
    }
  }

  /** `Shr` and `Low` are quotient and remainder. */
  lemma {:induction false} Split(x: nat, n: nat)
    ensures x == Shr(x, n) * Pow2(n) + Low(x, n) && Low(x, n) < Pow2(n)
    decreases n
  {
    if n > 0 {
      Split(x / 2, n - 1);
      DoubleFactor(Shr(x / 2, n - 1), Pow2(n - 1));
    }
  }

  lemma DoubleFactor(s: int, p: int)
    ensures s * (2 * p) == 2 * (s * p)
  {
  }

  /** The low bits of a number are its own. */
  lemma {:induction false} BitOfLow(x: nat, k: nat, n: nat)
    requires n < k
    ensures Bit(Low(x, k), n) == Bit(x, n)
    decreases k
  {
    var l := Low(x, k);
    assert l % 2 == x % 2 && l / 2 == Low(x / 2, k - 1);
    if n > 0 {
      BitOfLow(x / 2, k - 1, n - 1);
    }
  }

  lemma SplitDiv(x: nat, n: nat, d: nat)
    requires d == Pow2(n)
    ensures Shr(x, n) == x / d && Low(x, n) == x % d
  {
    Split(x, n);
    SameQuotient(d, x / d, x % d, Shr(x, n), Low(x, n));
  }

  lemma MulMono(a: int, b: int, d: int)
    requires a <= b && 0 <= d
    ensures a * d <= b * d
  {
  }

  lemma SameQuotient(d: int, q: int, r: int, q': int, r': int)
    requires 0 <= r < d && 0 <= r' < d && q * d + r == q' * d + r'
    ensures q == q' && r == r'
  {
    assert (q + 1) * d == q * d + d && (q' + 1) * d == q' * d + d;
    if q < q' {
      MulMono(q + 1, q', d);
    } else if q' < q {
      MulMono(q' + 1, q, d);
    }
  }

  lemma {:induction false} Pow2Mono(k: nat, n: nat)
    requires k <= n
    ensures Pow2(k) <= Pow2(n)
    decreases n
  {
    if k < n {
      Pow2Mono(k, n - 1);
    }
  }

  lemma LowMask(x: nat, n: nat, d: nat)
    requires d == Pow2(n)
    ensures And(x, d - 1) == x % d
  {
    AndLowMask(x, n);
    SplitDiv(x, n, d);
  }

  lemma HighMask(x: nat, width: nat, n: nat, w: nat, d: nat)
    requires n <= width && w == Pow2(width) && d == Pow2(n) && x < w && d <= w
    ensures And(x, w - d) == x - x % d
  {
    AndHighMask(x, width, n);
    SplitDiv(x, n, d);
  }

  lemma ShiftMask(x: nat, n: nat, d: nat, k: nat, e: nat)
    requires d == Pow2(n) && e == Pow2(k)
    ensures And(Shr(x, n), e - 1) == x / d % e
  {
    SplitDiv(x, n, d);
    LowMask(Shr(x, n), k, e);
  }

  lemma Powers()
    ensures Pow2(10) == 1024 && Pow2(12) == 4096 && Pow2(22) == 4194304 && Pow2(32) == 0x1_0000_0000
  {
    assert Pow2(8) == 256;
    assert Pow2(16) == 65536;
    assert Pow2(24) == 0x100_0000;
  }
}
