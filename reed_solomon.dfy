/**
 * Polynomials over GF(256) and the Reed-Solomon remainder (src/reed-solomon.ts).
 *
 * A polynomial is a sequence of bytes, highest power first, as in the source.
 * `GfPolyMultiply`, `GenerateRSGeneratorPoly` and `EncodeReedSolomon` keep
 * the source's loops and are proved equal to the functions `PolyProduct`,
 * `GeneratorPoly` and `Remainder`; the lemmas about those functions state
 * what the encoder promises: the length of its output, a monic generator,
 * zero check bytes for zero data, and the systematic property.
 */
module ReedSolomon {
  import opened Types
  import opened GF256

  /** n zero bytes. */
  function Zeros(n: nat): (z: seq<bv8>)
    ensures |z| == n && forall k | 0 <= k < n :: z[k] == 0
  {
    seq(n, _ => 0)
  }

  /** Coefficient-wise exclusive or: addition of polynomials in GF(256). */
  function Xor(a: seq<bv8>, b: seq<bv8>): (c: seq<bv8>)
    requires |a| == |b|
    ensures |c| == |a| && forall k | 0 <= k < |a| :: c[k] == a[k] ^ b[k]
  {
    seq(|a|, k requires 0 <= k < |a| => a[k] ^ b[k])
  }

  // ---------------------------------------------------------------------------
  // gfPolyMultiply
  // ---------------------------------------------------------------------------

  /**
   * The contribution of p[i] to coefficient k of p * q: p[i] * q[k - i] when
   * that index of q exists, and 0 otherwise.
   */
  function Term(p: seq<bv8>, q: seq<bv8>, k: nat, i: nat): bv8
    requires i < |p|
  {
    if i <= k < i + |q| then GfMultiply(p[i], q[k - i]) else 0
  }

  /** The exclusive or of the contributions of p[0], ..., p[n - 1] to coefficient k. */
  function ProductTerm(p: seq<bv8>, q: seq<bv8>, k: nat, n: nat): bv8
    requires n <= |p|
  {
    if n == 0 then 0 else ProductTerm(p, q, k, n - 1) ^ Term(p, q, k, n - 1)
  }

  /** The |p| + |q| - 1 coefficients with the contributions of p[0], ..., p[n - 1] added. */
  function Coefficients(p: seq<bv8>, q: seq<bv8>, n: nat): (r: seq<bv8>)
    requires |p| + |q| >= 1 && n <= |p|
    ensures |r| == |p| + |q| - 1
  {
    seq(|p| + |q| - 1, k requires 0 <= k < |p| + |q| - 1 => ProductTerm(p, q, k, n))
  }

  /** The product of two polynomials: |p| + |q| - 1 coefficients. */
  function PolyProduct(p: seq<bv8>, q: seq<bv8>): (r: seq<bv8>)
    requires |p| + |q| >= 1
    ensures |r| == |p| + |q| - 1
  {
    Coefficients(p, q, |p|)
  }

  /** The coefficients part-way through turn i: p[i] has reached slots i, ..., i + j - 1. */
  function Accumulated(p: seq<bv8>, q: seq<bv8>, i: nat, j: nat): (r: seq<bv8>)
    requires i < |p| && j <= |q|
    ensures |r| == |p| + |q| - 1
  {
    seq(|p| + |q| - 1, k requires 0 <= k < |p| + |q| - 1 =>
      if i <= k < i + j then ProductTerm(p, q, k, i + 1) else ProductTerm(p, q, k, i))
  }

  lemma AccumulatedStart(p: seq<bv8>, q: seq<bv8>, i: nat)
    requires i < |p|
    ensures Accumulated(p, q, i, 0) == Coefficients(p, q, i)
  {
  }

  /** Only slot i + j changes in step j of turn i, by the contribution of p[i]. */
  lemma AccumulatedSlot(p: seq<bv8>, q: seq<bv8>, i: nat, j: nat, k: nat)
    requires i < |p| && j < |q| && k < |p| + |q| - 1
    ensures Accumulated(p, q, i, j + 1)[k]
      == if k == i + j then Accumulated(p, q, i, j)[k] ^ GfMultiply(p[i], q[j])
         else Accumulated(p, q, i, j)[k]
  {
    if k == i + j {
      AccumulatedWritten(p, q, i, j, k);
    }
  }

  /** Step j of turn i adds p[i] * q[j] to slot k = i + j. */
  lemma AccumulatedWritten(p: seq<bv8>, q: seq<bv8>, i: nat, j: nat, k: nat)
    requires i < |p| && j < |q| && k == i + j
    ensures Accumulated(p, q, i, j + 1)[k] == Accumulated(p, q, i, j)[k] ^ GfMultiply(p[i], q[j])
  {
    AccumulatedAt(p, q, i, j, k);
    ProductTermStep(p, q, i, j, k);
  }

  /** Slot i + j holds the contributions of p[0..i] before step j of turn i, and of p[0..i+1] after it. */
  lemma AccumulatedAt(p: seq<bv8>, q: seq<bv8>, i: nat, j: nat, k: nat)
    requires i < |p| && j < |q| && k == i + j
    ensures Accumulated(p, q, i, j + 1)[k] == ProductTerm(p, q, k, i + 1)
    ensures Accumulated(p, q, i, j)[k] == ProductTerm(p, q, k, i)
  {
  }

  /** The contribution of p[i] to coefficient i + j is p[i] * q[j]. */
  lemma ProductTermStep(p: seq<bv8>, q: seq<bv8>, i: nat, j: nat, k: nat)
    requires i < |p| && j < |q| && k == i + j
    ensures ProductTerm(p, q, k, i + 1) == ProductTerm(p, q, k, i) ^ GfMultiply(p[i], q[j])
  {
    assert Term(p, q, k, i) == GfMultiply(p[i], q[j]);
  }

  lemma AccumulatedStep(p: seq<bv8>, q: seq<bv8>, i: nat, j: nat)
    requires i < |p| && j < |q|
    ensures Accumulated(p, q, i, j + 1)
      == Accumulated(p, q, i, j)[i + j := Accumulated(p, q, i, j)[i + j] ^ GfMultiply(p[i], q[j])]
  {
    var before, after := Accumulated(p, q, i, j), Accumulated(p, q, i, j + 1);
    var updated := before[i + j := before[i + j] ^ GfMultiply(p[i], q[j])];
    forall k | 0 <= k < |after|
      ensures after[k] == updated[k]
    {
      AccumulatedSlot(p, q, i, j, k);
    }
    SameBytes(after, updated);
  }

  lemma AccumulatedEnd(p: seq<bv8>, q: seq<bv8>, i: nat)
    requires i < |p|
    ensures Accumulated(p, q, i, |q|) == Coefficients(p, q, i + 1)
  {
    forall k | 0 <= k < |p| + |q| - 1
      ensures Accumulated(p, q, i, |q|)[k] == Coefficients(p, q, i + 1)[k]
    {
      if !(i <= k < i + |q|) {
        assert Term(p, q, k, i) == 0;
      }
    }
  }

  /**
   * gfPolyMultiply: a zero-filled result of length |p| + |q| - 1, into whose
   * slot i + j each product p[i] * q[j] is added.
   */
  method GfPolyMultiply(p: seq<bv8>, q: seq<bv8>) returns (result: seq<bv8>)
    requires |p| + |q| >= 1
    ensures result == PolyProduct(p, q)
  {
    var r := new bv8[|p| + |q| - 1](_ => 0);
    assert r[..] == Coefficients(p, q, 0);
    for i := 0 to |p|
      invariant r[..] == Coefficients(p, q, i)
    {
      AccumulatedStart(p, q, i);
      for j := 0 to |q|
        invariant r[..] == Accumulated(p, q, i, j)
      {
        AccumulatedStep(p, q, i, j);
        r[i + j] := r[i + j] ^ GfMultiply(p[i], q[j]);
      }
      AccumulatedEnd(p, q, i);
    }
    result := r[..];
  }

  /** Only p[0] reaches coefficient 0 of the product. */
  lemma {:induction false} ProductTermFirst(p: seq<bv8>, q: seq<bv8>, n: nat)
    requires 1 <= n <= |p| && |q| >= 1
    ensures ProductTerm(p, q, 0, n) == GfMultiply(p[0], q[0])
  {
    if n > 1 {
      ProductTermFirst(p, q, n - 1);
    }
  }

  /** The leading coefficient of a product is the product of the leading coefficients. */
  lemma ProductLeading(p: seq<bv8>, q: seq<bv8>)
    requires |p| >= 1 && |q| >= 1
    ensures PolyProduct(p, q)[0] == GfMultiply(p[0], q[0])
  {
    ProductTermFirst(p, q, |p|);
  }

  /** Only the last coefficient of p reaches the last coefficient of the product. */
  lemma {:induction false} ProductTermLast(p: seq<bv8>, q: seq<bv8>, n: nat)
    requires 1 <= n <= |p| && |q| >= 1
    ensures ProductTerm(p, q, |p| + |q| - 2, n)
      == if n == |p| then GfMultiply(p[|p| - 1], q[|q| - 1]) else 0
  {
    if n > 1 {
      ProductTermLast(p, q, n - 1);
    }
  }

  /** The constant term of a product is the product of the constant terms. */
  lemma ProductTrailing(p: seq<bv8>, q: seq<bv8>)
    requires |p| >= 1 && |q| >= 1
    ensures PolyProduct(p, q)[|p| + |q| - 2] == GfMultiply(p[|p| - 1], q[|q| - 1])
  {
    ProductTermLast(p, q, |p|);
  }

  // ---------------------------------------------------------------------------
  // generateRSGeneratorPoly
  // ---------------------------------------------------------------------------

  /**
   * The constant of factor i, ANTILOG_TABLE[i]. The table has no entry at 255
   * and beyond: there the source reads `undefined`, which gfMultiply turns
   * into `undefined` and `^=` then treats as 0, so the factor acts as (x + 0).
   */
  function GeneratorRoot(i: nat): bv8 {
    if i < 255 then Antilog(i) else 0
  }

  /** The generator polynomial (x + alpha^0)(x + alpha^1)...(x + alpha^(n-1)). */
  function GeneratorPoly(n: nat): (g: seq<bv8>)
    ensures |g| == n + 1
  {
    if n == 0 then [1] else PolyProduct(GeneratorPoly(n - 1), [1, GeneratorRoot(n - 1)])
  }

  /** generateRSGeneratorPoly: start from [1] and multiply in one factor per turn. */
  method GenerateRSGeneratorPoly(n: nat) returns (generator: seq<bv8>)
    ensures generator == GeneratorPoly(n)
  {
    generator := [1];
    for i := 0 to n
      invariant generator == GeneratorPoly(i)
    {
      var factor := [1, GeneratorRoot(i)];
      generator := GfPolyMultiply(generator, factor);
    }
  }

  /** The generator polynomial is monic: its leading coefficient is 1. */
  lemma {:induction false} GeneratorMonic(n: nat)
    ensures GeneratorPoly(n)[0] == 1
  {
    if n > 0 {
      GeneratorMonic(n - 1);
      ProductLeading(GeneratorPoly(n - 1), [1, GeneratorRoot(n - 1)]);
      GfMultiplyOne(1);
    }
  }

  /** The constant term of the generator is the product of all the roots. */
  lemma {:induction false} GeneratorConstant(n: nat)
    ensures GeneratorPoly(n)[n] == if n == 0 then 1 else GfMultiply(GeneratorPoly(n - 1)[n - 1], GeneratorRoot(n - 1))
  {
    if n > 0 {
      ProductTrailing(GeneratorPoly(n - 1), [1, GeneratorRoot(n - 1)]);
    }
  }

  // ---------------------------------------------------------------------------
  // encodeReedSolomon
  // ---------------------------------------------------------------------------

  /**
   * One turn of the long division at position i: when the coefficient c at i
   * is non-zero, add c * g into the message starting at i; when it is zero,
   * leave the message alone.
   */
  function Reduce(m: seq<bv8>, g: seq<bv8>, i: nat): (r: seq<bv8>)
    requires i < |m| && i + |g| <= |m|
    ensures |r| == |m|
  {
    if m[i] == 0 then m else PartialReduce(m, g, i, |g|)
  }

  /** The turn at position i after its first j additions: positions i, ..., i + j - 1 have received c * g. */
  function PartialReduce(m: seq<bv8>, g: seq<bv8>, i: nat, j: nat): (r: seq<bv8>)
    requires i < |m| && i + |g| <= |m| && j <= |g|
    ensures |r| == |m|
  {
    seq(|m|, k => if !(0 <= k < |m|) then 0 else if i <= k < i + j then m[k] ^ GfMultiply(g[k - i], m[i]) else m[k])
  }

  /** Addition j of the turn at position i changes only position i + j. */
  lemma PartialReduceSlot(m: seq<bv8>, g: seq<bv8>, i: nat, j: nat, k: nat)
    requires i < |m| && i + |g| <= |m| && j < |g| && k < |m|
    ensures PartialReduce(m, g, i, j + 1)[k]
      == if k == i + j then PartialReduce(m, g, i, j)[k] ^ GfMultiply(g[j], m[i])
         else PartialReduce(m, g, i, j)[k]
  {
    if k == i + j {
      assert PartialReduce(m, g, i, j)[k] == m[k];
    }
  }

  /** Byte sequences agreeing at every position are equal. */
  lemma SameBytes(a: seq<bv8>, b: seq<bv8>)
    requires |a| == |b| && forall k | 0 <= k < |a| :: a[k] == b[k]
    ensures a == b
  {
  }

  /** One more addition of the turn at position i. */
  lemma PartialReduceStep(m: seq<bv8>, g: seq<bv8>, i: nat, j: nat)
    requires i < |m| && i + |g| <= |m| && j < |g|
    ensures PartialReduce(m, g, i, j + 1)
      == PartialReduce(m, g, i, j)[i + j := PartialReduce(m, g, i, j)[i + j] ^ GfMultiply(g[j], m[i])]
  {
    var before, after := PartialReduce(m, g, i, j), PartialReduce(m, g, i, j + 1);
    var updated := before[i + j := before[i + j] ^ GfMultiply(g[j], m[i])];
    forall k | 0 <= k < |m|
      ensures after[k] == updated[k]
    {
      PartialReduceSlot(m, g, i, j, k);
    }
    SameBytes(after, updated);
  }

  /** The message after the division turns at positions 0, ..., k - 1. */
  function Divide(m: seq<bv8>, g: seq<bv8>, k: nat): (r: seq<bv8>)
    requires k <= |m| && k + |g| <= |m| + 1
    ensures |r| == |m|
  {
    if k == 0 then m else Reduce(Divide(m, g, k - 1), g, k - 1)
  }

  /** The error-correction bytes: the tail of the divided, zero-padded message. */
  function Remainder(data: seq<bv8>, n: nat): (ec: seq<bv8>)
    ensures |ec| == n
  {
    Divide(data + Zeros(n), GeneratorPoly(n), |data|)[|data|..]
  }

  /**
   * encodeReedSolomon: pad the data with n zeros, run the division turns in
   * place over the data positions, and return the last n bytes. The data
   * itself is a value and is left as it was.
   */
  method EncodeReedSolomon(data: seq<bv8>, n: nat) returns (ec: seq<bv8>)
    ensures ec == Remainder(data, n)
    ensures |ec| == n
  {
    var generator := GenerateRSGeneratorPoly(n);
    var messageLength := |data|;
    ghost var m0 := data + Zeros(n);
    var message := new bv8[|data| + n](k requires 0 <= k < |data| + n => if k < |data| then data[k] else 0);
    assert message[..] == m0;
    for i := 0 to messageLength
      invariant message[..] == Divide(m0, generator, i)
    {
      ReduceTurn(message, generator, i);
    }
    ec := message[messageLength..];
  }

  /** One turn of the division loop: a nonzero byte at i adds its multiple of the generator from i on. */
  method ReduceTurn(message: array<bv8>, generator: seq<bv8>, i: nat)
    requires i < message.Length && i + |generator| <= message.Length
    modifies message
    ensures message[..] == Reduce(old(message[..]), generator, i)
  {
    var coeff := message[i];
    if coeff != 0 {
      ghost var before := message[..];
      assert message[..] == PartialReduce(before, generator, i, 0);
      for j := 0 to |generator|
        invariant message[..] == PartialReduce(before, generator, i, j)
      {
        PartialReduceStep(before, generator, i, j);
        message[i + j] := message[i + j] ^ GfMultiply(generator[j], coeff);
      }
    }
  }

  /** The turn at position i leaves the positions before i alone. */
  lemma ReduceKeepsPrefix(m: seq<bv8>, g: seq<bv8>, i: nat)
    requires i < |m| && i + |g| <= |m|
    ensures Reduce(m, g, i)[..i] == m[..i]
  {
  }

  /** With a monic generator, the turn at position i clears position i. */
  lemma ReduceClears(m: seq<bv8>, g: seq<bv8>, i: nat)
    requires i < |m| && i + |g| <= |m| && |g| >= 1 && g[0] == 1
    ensures Reduce(m, g, i)[i] == 0
  {
    if m[i] != 0 {
      GfMultiplyOne(m[i]);
      assert PartialReduce(m, g, i, |g|)[i] == m[i] ^ GfMultiply(g[0], m[i]);
    }
  }

  /** With a monic generator, the first k positions are zero after k turns: the quotient is cleared. */
  lemma {:induction false} DivideClearsQuotient(m: seq<bv8>, g: seq<bv8>, k: nat)
    requires k <= |m| && k + |g| <= |m| + 1 && |g| >= 1 && g[0] == 1
    ensures forall t | 0 <= t < k :: Divide(m, g, k)[t] == 0
  {
    if k > 0 {
      DivideClearsQuotient(m, g, k - 1);
      ReduceKeepsPrefix(Divide(m, g, k - 1), g, k - 1);
      ReduceClears(Divide(m, g, k - 1), g, k - 1);
      forall t | 0 <= t < k
        ensures Divide(m, g, k)[t] == 0
      {
        if t < k - 1 {
          assert Divide(m, g, k)[t] == Reduce(Divide(m, g, k - 1), g, k - 1)[..k - 1][t];
        }
      }
    }
  }

  /** After division the padded message is all zeros followed by the check bytes. */
  lemma DividedMessage(data: seq<bv8>, n: nat)
    ensures Divide(data + Zeros(n), GeneratorPoly(n), |data|) == Zeros(|data|) + Remainder(data, n)
  {
    var d := Divide(data + Zeros(n), GeneratorPoly(n), |data|);
    GeneratorMonic(n);
    DivideClearsQuotient(data + Zeros(n), GeneratorPoly(n), |data|);
    assert d == d[..|data|] + d[|data|..];
    assert d[..|data|] == Zeros(|data|);
  }

  /** A turn that skips a zero coefficient: all-zero messages stay all zero. */
  lemma {:induction false} DivideZeros(len: nat, g: seq<bv8>, k: nat)
    requires k <= len && k + |g| <= len + 1
    ensures Divide(Zeros(len), g, k) == Zeros(len)
  {
    if k > 0 {
      DivideZeros(len, g, k - 1);
    }
  }

  /** All-zero data has all-zero check bytes: zero coefficients are skipped. */
  lemma ZeroDataZeroRemainder(data: seq<bv8>, n: nat)
    requires forall k | 0 <= k < |data| :: data[k] == 0
    ensures Remainder(data, n) == Zeros(n)
  {
    assert data + Zeros(n) == Zeros(|data| + n);
    DivideZeros(|data| + n, GeneratorPoly(n), |data|);
  }

  /** A turn commutes with adding e, when e is zero at the turn's position. */
  lemma ReduceAddsThrough(m: seq<bv8>, e: seq<bv8>, g: seq<bv8>, i: nat)
    requires i < |m| && i + |g| <= |m| && |e| == |m| && e[i] == 0
    ensures Reduce(Xor(m, e), g, i) == Xor(Reduce(m, g, i), e)
  {
    var x := Xor(m, e);
    assert x[i] == m[i];
    forall k | 0 <= k < |m|
      ensures Reduce(x, g, i)[k] == Xor(Reduce(m, g, i), e)[k]
    {
      if m[i] != 0 && i <= k < i + |g| {
        var c := GfMultiply(g[k - i], m[i]);
        assert (m[k] ^ e[k]) ^ c == (m[k] ^ c) ^ e[k];
      }
    }
    SameBytes(Reduce(x, g, i), Xor(Reduce(m, g, i), e));
  }

  /**
   * Division commutes with adding e, when e is zero at every position a turn
   * reads: what is added after the data positions never steers the division.
   */
  lemma {:induction false} DivideAddsThrough(m: seq<bv8>, e: seq<bv8>, g: seq<bv8>, k: nat)
    requires k <= |m| && k + |g| <= |m| + 1 && |e| == |m|
    requires forall t | 0 <= t < k :: e[t] == 0
    ensures Divide(Xor(m, e), g, k) == Xor(Divide(m, g, k), e)
  {
    if k > 0 {
      var prev := Divide(m, g, k - 1);
      assert e[k - 1] == 0;
      ReduceAddsThrough(prev, e, g, k - 1);
      DivideAddsThrough(m, e, g, k - 1);
      var x := Xor(m, e);
      assert Divide(x, g, k - 1) == Xor(prev, e);
      assert Divide(x, g, k) == Reduce(Xor(prev, e), g, k - 1);
    }
  }

  /**
   * The code is systematic: appending the check bytes to the data gives a
   * message that the generator divides exactly, so dividing it again leaves
   * an all-zero remainder.
   */
  lemma Systematic(data: seq<bv8>, n: nat)
    ensures Divide(data + Remainder(data, n), GeneratorPoly(n), |data|)[|data|..] == Zeros(n)
  {
    var g := GeneratorPoly(n);
    var r := Remainder(data, n);
    var m := data + Zeros(n);
    var e := Zeros(|data|) + r;
    assert data + r == Xor(m, e);
    DivideAddsThrough(m, e, g, |data|);
    DividedMessage(data, n);
    var d := Divide(m, g, |data|);
    assert Xor(d, e)[|data|..] == Zeros(n);
  }
}
