/** Bit strings, most significant bit first, and the numbers they stand for. */
module Bits {
  type byte = x: int | 0 <= x < 256

  function Pow2(n: nat): (p: nat)
    ensures p >= 1
  {
    if n == 0 then 1 else 2 * Pow2(n - 1)
  }

  /** `a` shifted left by `n` bits. */
  function Shl(a: nat, n: nat): nat {
    if n == 0 then a else 2 * Shl(a, n - 1)
  }

  lemma {:induction false} ShlPow2(m: nat, n: nat)
    ensures Shl(Pow2(m), n) == Pow2(m + n)
  {
    if n > 0 {
      ShlPow2(m, n - 1);
    }
  }

  lemma {:induction false} ShlShl(a: nat, m: nat, n: nat)
    ensures Shl(Shl(a, m), n) == Shl(a, m + n)
  {
    if n > 0 {
      ShlShl(a, m, n - 1);
    }
  }

  lemma {:induction false} ShlAdd(a: nat, b: nat, n: nat)
    ensures Shl(a + b, n) == Shl(a, n) + Shl(b, n)
  {
    if n > 0 {
      ShlAdd(a, b, n - 1);
    }
  }

  lemma {:induction false} ShlCompare(a: nat, b: nat, n: nat)
    ensures a <= b <==> Shl(a, n) <= Shl(b, n)
  {
    if n > 0 {
      ShlCompare(a, b, n - 1);
    }
  }

  lemma {:induction false} Pow2Monotone(m: nat, n: nat)
    requires m <= n
    ensures Pow2(m) <= Pow2(n)
  {
    if m < n {
      Pow2Monotone(m, n - 1);
    }
  }

  /** The `h` low-order bits of `c`, most significant first. */
  function ToBits(c: nat, h: nat): (bits: seq<bool>)
    requires c < Pow2(h)
    ensures |bits| == h
  {
    if h == 0 then []
    else if c < Pow2(h - 1) then [false] + ToBits(c, h - 1)
    else [true] + ToBits(c - Pow2(h - 1), h - 1)
  }

  /** The unsigned number a bit string stands for. */
  function Value(bits: seq<bool>): nat {
    if bits == [] then 0
    else 2 * Value(bits[..|bits| - 1]) + (if bits[|bits| - 1] then 1 else 0)
  }

  lemma {:induction false} ValueBound(bits: seq<bool>)
    ensures Value(bits) < Pow2(|bits|)
  {
    if bits != [] {
      ValueBound(bits[..|bits| - 1]);
    }
  }

  /** Peeling a bit string from the front instead of from the back. */
  lemma {:induction false} ValueFront(bits: seq<bool>)
    requires bits != []
    ensures Value(bits) == (if bits[0] then Pow2(|bits| - 1) else 0) + Value(bits[1..])
  {
    var n := |bits|;
    if n > 1 {
      ValueFront(bits[..n - 1]);
      assert bits[..n - 1][1..] == bits[1..][..n - 2];
    } else {
      assert bits[..0] == [] && bits[1..] == [];
      assert Value(bits[..0]) == 0;
    }
  }

  lemma {:induction false} ValueToBits(c: nat, h: nat)
    requires c < Pow2(h)
    ensures Value(ToBits(c, h)) == c
  {
    if h != 0 {
      ValueFront(ToBits(c, h));
      if c < Pow2(h - 1) {
        ValueToBits(c, h - 1);
      } else {
        ValueToBits(c - Pow2(h - 1), h - 1);
      }
    }
  }

  lemma {:induction false} ToBitsValue(bits: seq<bool>)
    ensures Value(bits) < Pow2(|bits|) && ToBits(Value(bits), |bits|) == bits
  {
    ValueBound(bits);
    if bits != [] {
      ValueFront(bits);
      ToBitsValue(bits[1..]);
      ValueBound(bits[1..]);
    }
  }

  /** `c` shifted right by `n` bits. */
  function Shr(c: nat, n: nat): nat {
    if n == 0 then c else Shr(c, n - 1) / 2
  }

  lemma {:induction false} ShrOfShl(a: nat, q: nat, n: nat)
    ensures Shr(a + Shl(q, n), n) == Shr(a, n) + q
    decreases n
  {
    if n > 0 {
      ShrOfShl(a, 2 * q, n - 1);
      ShlDouble(q, n - 1);
    }
  }

  lemma {:induction false} ShlDouble(q: nat, n: nat)
    ensures Shl(2 * q, n) == 2 * Shl(q, n)
  {
    if n > 0 {
      ShlDouble(q, n - 1);
    }
  }

  lemma {:induction false} ShrSmall(c: nat, n: nat)
    requires c < Pow2(n)
    ensures Shr(c, n) == 0
  {
    if n > 0 {
      ShlPow2(1, n - 1);
      assert Pow2(1) == 2 * Pow2(0);
      ShrBound(c, n - 1, 2);
    }
  }

  lemma {:induction false} ShrBound(c: nat, n: nat, q: nat)
    requires c < Shl(q, n)
    ensures Shr(c, n) < q
    decreases n
  {
    if n > 0 {
      ShlDouble(q, n - 1);
      ShrBound(c, n - 1, 2 * q);
    }
  }

  /** Bit `i` of the string is what masking with `1 << (h - 1 - i)` tests. */
  lemma {:induction false} ToBitsAt(c: nat, h: nat, i: nat)
    requires c < Pow2(h) && i < h
    ensures ToBits(c, h)[i] <==> Shr(c, h - 1 - i) % 2 == 1
  {
    var half, rest := Pow2(h - 1), h - 1 - i;
    if c < half {
      if i == 0 { ShrSmall(c, rest); } else { ToBitsAt(c, h - 1, i - 1); }
    } else {
      ShlPow2(i, rest);
      ShrOfShl(c - half, Pow2(i), rest);
      assert Shr(c, rest) == Shr(c - half, rest) + Pow2(i);
      if i == 0 {
        ShrSmall(c - half, rest);
      } else {
        ToBitsAt(c - half, h - 1, i - 1);
        AddEven(Shr(c - half, rest), Pow2(i - 1));
      }
    }
  }

  lemma AddEven(x: nat, y: nat)
    ensures (x + 2 * y) % 2 == x % 2
  {
  }
}
