/** Fixed-point helpers of telos.gpu (`ipow`, `divide`, `multiply`) over
    eosio-style assets: an integer amount in the token's smallest unit and a
    symbol that carries the number of decimal digits (the precision). */
module Assets {
  import opened Outcomes

  /** A token symbol: an uninterpreted code and its decimal precision. */
  datatype Symbol = Symbol(code: nat, precision: nat)

  /** An amount counted in smallest units of `symbol`. */
  datatype Asset = Asset(amount: int, symbol: Symbol)

  /** `b` raised to `e`: the reference definition for `IPow`. */
  function Pow(b: int, e: nat): (r: int)
  {
    if e == 0 then 1 else b * Pow(b, e - 1)
  }

  lemma {:induction false} PowPositive(b: int, e: nat)
    requires b > 0
    ensures Pow(b, e) > 0
  {
    if e > 0 {
      PowPositive(b, e - 1);
    }
  }

  /** `ipow`: 1 for a zero exponent, otherwise `base` multiplied into itself
      `exp - 1` times. */
  method IPow(base: int, exp: nat) returns (result: int)
    ensures result == Pow(base, exp)
  {
    if exp == 0 {
      return 1;
    }
    result := base;
    var i := 0;
    while i < exp - 1
      invariant 0 <= i <= exp - 1
      invariant result == Pow(base, i + 1)
    {
      result := result * base;
      i := i + 1;
    }
  }

  /** `q` is `n / d` rounded toward zero, the way C++ divides a signed
      128-bit integer. */
  ghost predicate IsTruncQuotient(q: int, n: int, d: int)
  {
    && (n >= 0 ==> 0 <= q && q * d <= n < q * d + d)
    && (n < 0 ==> q <= 0 && q * d - d < n <= q * d)
  }

  /** Division truncating toward zero by a positive divisor. */
  function TruncDiv(n: int, d: int): (q: int)
    requires d > 0
    ensures IsTruncQuotient(q, n, d)
  {
    if n >= 0 then
      FloorFacts(n, d);
      n / d
    else
      FloorFacts(-n, d);
      var k := (-n) / d;
      assert (-k) * d == -(k * d);
      -k
  }

  lemma FloorFacts(m: int, d: int)
    requires m >= 0 && d > 0
    ensures 0 <= m / d && (m / d) * d <= m < (m / d) * d + d
  {
  }

  /** `divide(A, B)`: `A / B` as a fixed-point number at B's precision,
      in A's symbol. Fails on a non-positive divisor, then on differing
      precisions. */
  function Divide(a: Asset, b: Asset): (r: Result<Asset>)
    ensures r.Err? <==> b.amount <= 0 || a.symbol.precision != b.symbol.precision
    ensures b.amount <= 0 ==> r == Err(DivideByZero)
    ensures b.amount > 0 && a.symbol.precision != b.symbol.precision ==> r == Err(PrecisionMismatch)
    ensures r.Ok? ==> r.value.symbol == a.symbol
    ensures r.Ok? ==> IsTruncQuotient(r.value.amount, a.amount * Pow(10, b.symbol.precision), b.amount)
  {
    if b.amount <= 0 then Err(DivideByZero)
    else if a.symbol.precision != b.symbol.precision then Err(PrecisionMismatch)
    else Ok(Asset(TruncDiv(a.amount * Pow(10, b.symbol.precision), b.amount), a.symbol))
  }

  /** `multiply(A, B)`: `A * B` with the extra `precision` digits removed,
      in A's symbol. Fails on differing precisions. */
  function Multiply(a: Asset, b: Asset): (r: Result<Asset>)
    ensures r.Err? <==> a.symbol.precision != b.symbol.precision
    ensures r.Err? ==> r.error == PrecisionMismatch
    ensures r.Ok? ==> r.value.symbol == a.symbol
    ensures r.Ok? ==> IsTruncQuotient(r.value.amount, a.amount * b.amount, Pow(10, a.symbol.precision))
  {
    if a.symbol.precision != b.symbol.precision then Err(PrecisionMismatch)
    else
      PowPositive(10, a.symbol.precision);
      Ok(Asset(TruncDiv(a.amount * b.amount, Pow(10, a.symbol.precision)), a.symbol))
  }

  /** The per-payee share computed at settlement:
      `multiply(reward, divide(asset(1, token), asset(k, token)))`.
      The dividend is ONE SMALLEST UNIT of the token, so the factor is
      `floor(10^p / k)` units at precision `p`. */
  function SplitPayment(reward: Asset, token: Symbol, k: nat): (r: Result<Asset>)
    ensures r.Err? <==> k == 0 || reward.symbol.precision != token.precision
    ensures r.Ok? ==> r.value.symbol == reward.symbol
  {
    match Divide(Asset(1, token), Asset(k, token))
    case Err(e) => Err(e)
    case Ok(factor) => Multiply(reward, factor)
  }

  /** a <= b and c >= 0 give a * c <= b * c. */
  lemma MulMonotone(a: int, b: int, c: int)
    requires a <= b && c >= 0
    ensures a * c <= b * c
  {
  }

  /** The arithmetic core of the split bound: a factor `f <= s / k` scaled
      back down by `s` never pays `k` shares beyond `r`. */
  lemma ShareBound(r: int, f: int, k: int, s: int, pay: int)
    requires r >= 0 && k >= 1 && s > 0 && f >= 0 && pay >= 0
    requires f * k <= s && pay * s <= r * f
    ensures pay * k <= r
  {
    MulMonotone(pay * s, r * f, k);
    assert (pay * s) * k == (pay * k) * s;
    assert (r * f) * k == (f * k) * r;
    MulMonotone(f * k, s, r);
    assert (pay * k) * s <= r * s;
    if pay * k > r {
      MulMonotone(r + 1, pay * k, s);
    }
  }

  /** Each of at most `k` payees receiving the split never takes more than
      the escrowed reward in total: `payment * k <= reward`. */
  lemma SplitNeverOverpays(reward: Asset, token: Symbol, k: nat)
    requires reward.amount >= 0 && k >= 1
    requires reward.symbol.precision == token.precision
    ensures SplitPayment(reward, token, k).Ok?
    ensures 0 <= SplitPayment(reward, token, k).value.amount
    ensures SplitPayment(reward, token, k).value.amount * k <= reward.amount
  {
    var s := Pow(10, token.precision);
    PowPositive(10, token.precision);
    var factor := Divide(Asset(1, token), Asset(k, token)).value;
    assert 0 <= factor.amount && factor.amount * k <= 1 * s;
    var pay := Multiply(reward, factor).value.amount;
    assert 0 <= pay && pay * s <= reward.amount * factor.amount;
    ShareBound(reward.amount, factor.amount, k, s, pay);
  }

  /** With a precision-0 token and a quorum of two or more, the split factor
      `floor(1 / k)` is 0, so every payee is credited nothing. */
  lemma ZeroPrecisionPaysNothing(reward: Asset, token: Symbol, k: nat)
    requires token.precision == 0 && reward.symbol.precision == 0 && k >= 2
    ensures SplitPayment(reward, token, k) == Ok(Asset(0, reward.symbol))
  {
    var factor := Divide(Asset(1, token), Asset(k, token)).value;
    assert factor.amount == 0;
  }

  /** Dividing a multiple of `d` by `d` truncates nothing. */
  lemma ExactQuotient(a: int, d: int, q: int)
    requires d > 0 && IsTruncQuotient(q, a * d, d)
    ensures q == a
  {
    assert (q + 1) * d == q * d + d && (a + 1) * d == a * d + d;
    assert (q - 1) * d == q * d - d && (a - 1) * d == a * d - d;
    if a >= 0 {
      if q < a {
        MulMonotone(q + 1, a, d);
      } else if q > a {
        MulMonotone(a + 1, q, d);
      }
    } else {
      if q < a {
        MulMonotone(q, a - 1, d);
      } else if q > a {
        MulMonotone(a, q - 1, d);
      }
    }
  }

  /** A quorum of one is paid the whole reward, whatever the precision. */
  lemma SingleWorkerPaidInFull(reward: Asset, token: Symbol)
    requires reward.symbol.precision == token.precision
    ensures SplitPayment(reward, token, 1) == Ok(reward)
  {
    var s := Pow(10, token.precision);
    PowPositive(10, token.precision);
    var factor := Divide(Asset(1, token), Asset(1, token)).value;
    assert factor.amount == s;
    var pay := Multiply(reward, factor).value.amount;
    ExactQuotient(reward.amount, s, pay);
  }
}
