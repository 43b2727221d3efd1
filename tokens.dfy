/**
 * Token counts and the tokenizer (core/src/storage/tokenizer.rs): the unit
 * of every budget in the context pipeline.
 */
module Tokens {
  import opened Wrappers
  import opened Text

  /** `TokenCount(usize)`: a number of tokens. */
  datatype TokenCount = TokenCount(count: nat)
  {
    /** `as_usize` */
    function AsUsize(): nat {
      count
    }

    /** `impl Add for TokenCount` (and `AddAssign`, which stores the same sum). */
    function Add(other: TokenCount): TokenCount {
      TokenCount(count + other.count)
    }
  }

  /** `impl From<usize> for TokenCount`. */
  function FromUsize(n: nat): (t: TokenCount)
    ensures t.AsUsize() == n
  {
    TokenCount(n)
  }

  /** `impl From<TokenCount> for usize`: the inverse of FromUsize. */
  function ToUsize(t: TokenCount): (n: nat)
    ensures FromUsize(n) == t
  {
    t.count
  }

  /** The fold behind `impl Sum for TokenCount`, started from acc. */
  function SumFrom(acc: TokenCount, s: seq<TokenCount>): TokenCount
    decreases |s|
  {
    if s == [] then acc else SumFrom(acc.Add(s[0]), s[1..])
  }

  /** `impl Sum for TokenCount`: a left fold of Add starting at 0. */
  function Sum(s: seq<TokenCount>): TokenCount {
    SumFrom(TokenCount(0), s)
  }

  /** The starting value of the fold just adds to the result. */
  lemma {:induction false} SumFromShift(acc: TokenCount, s: seq<TokenCount>)
    ensures SumFrom(acc, s).count == acc.count + Sum(s).count
    decreases |s|
  {
    if s != [] {
      SumFromShift(acc.Add(s[0]), s[1..]);
      SumFromShift(TokenCount(0).Add(s[0]), s[1..]);
    }
  }

  /** The sum of an empty sequence is zero. */
  lemma {:induction false} SumEmpty()
    ensures Sum([]) == TokenCount(0)
  {
  }

  /** The sum of a concatenation is the sum of the sums of its parts. */
  lemma {:induction false} SumConcat(a: seq<TokenCount>, b: seq<TokenCount>)
    ensures Sum(a + b) == Sum(a).Add(Sum(b))
    decreases |a|
  {
    if a == [] {
      assert a + b == b;
    } else {
      assert (a + b)[0] == a[0];
      assert (a + b)[1..] == a[1..] + b;
      SumConcat(a[1..], b);
      SumFromShift(TokenCount(0).Add(a[0]), a[1..] + b);
      SumFromShift(TokenCount(0).Add(a[0]), a[1..]);
    }
  }

  /** `TokenizerType`. */
  datatype TokenizerType = Simple | Gpt2 | Cl100k

  /**
   * A loaded Hugging Face model, seen only through `encode`: the number of
   * token ids it produces for a text, or None when encoding fails. The
   * library is foreign code and stays abstract.
   */
  type Encoder = string -> Option<nat>

  /** `Tokenizer { tokenizer_type, hf_tokenizer }`. */
  datatype Tokenizer = Tokenizer(kind: TokenizerType, model: Option<Encoder>)

  // ---------------------------------------------------------------------
  // `usize as f32`

  /** 2^k. */
  function Pow2(k: nat): (p: nat)
    ensures p >= 1
  {
    if k == 0 then 1 else 2 * Pow2(k - 1)
  }

  /** Multiplying powers of two adds their exponents. */
  lemma {:induction false} Pow2Add(a: nat, b: nat)
    ensures Pow2(a + b) == Pow2(a) * Pow2(b)
    decreases a
  {
    if a > 0 {
      Pow2Add(a - 1, b);
      assert Pow2(a + b) == 2 * (Pow2(a - 1) * Pow2(b));
    }
  }

  /** Larger exponents give larger powers. */
  lemma {:induction false} Pow2Monotone(a: nat, b: nat)
    requires a <= b
    ensures Pow2(a) <= Pow2(b)
    decreases b
  {
    if a < b {
      Pow2Monotone(a, b - 1);
    }
  }

  /** The position of the leading bit of n. */
  function Log2(n: nat): (e: nat)
    requires n >= 1
    ensures Pow2(e) <= n < 2 * Pow2(e)
  {
    if n == 1 then 0 else 1 + Log2(n / 2)
  }

  /** A number of at least 2^k has its leading bit at k or above. */
  lemma {:induction false} Log2AtLeast(n: nat, k: nat)
    requires Pow2(k) <= n
    ensures Log2(n) >= k
  {
    var e := Log2(n);
    if e < k {
      Pow2Monotone(e + 1, k);
    }
  }

  /** Integers below 2^24 fit the 24-bit significand of an f32 exactly. */
  const F32_EXACT: nat := 0x100_0000

  /** F32_EXACT is 2^24, built up by squaring 2^3. */
  lemma {:induction false} F32ExactIsPow2()
    ensures Pow2(24) == F32_EXACT && Pow2(23) * 2 == F32_EXACT && Pow2(25) == 2 * F32_EXACT
  {
    assert Pow2(3) == 8;
    Pow2Add(3, 3);
    Pow2Add(6, 6);
    Pow2Add(12, 12);
  }

  /**
   * Rounds n to the nearest multiple of ulp, a tie going to the even
   * multiple (round-half-to-even on the significand).
   */
  function RoundToMultiple(n: nat, ulp: nat): (f: nat)
    requires ulp >= 1
    ensures 2 * (if f >= n then f - n else n - f) <= ulp
  {
    var q := n / ulp;
    var r := n % ulp;
    assert n == q * ulp + r;
    if 2 * r < ulp || (2 * r == ulp && q % 2 == 0) then n - r else n - r + ulp
  }

  /**
   * `n as f32` for a usize n (far below f32's largest finite value): n
   * itself below 2^24; above, the nearest multiple of the spacing
   * 2^(e - 23) of f32 values in n's binade [2^e, 2^(e + 1)), ties going to
   * the even multiple.
   */
  function ToF32(n: nat): nat {
    if n < F32_EXACT then n
    else
      F32ExactIsPow2();
      Log2AtLeast(n, 24);
      RoundToMultiple(n, Pow2(Log2(n) - 23))
  }

  /**
   * Converting to f32 is exact below 2^24, and otherwise off by at most
   * n / 2^24 (half the spacing of f32 values in n's binade).
   */
  lemma {:induction false} ToF32Error(n: nat)
    ensures n < F32_EXACT ==> ToF32(n) == n
    ensures F32_EXACT * (if ToF32(n) >= n then ToF32(n) - n else n - ToF32(n)) <= n
  {
    if n >= F32_EXACT {
      F32ExactIsPow2();
      Log2AtLeast(n, 24);
      var e := Log2(n);
      var ulp := Pow2(e - 23);
      var f := ToF32(n);
      var d := if f >= n then f - n else n - f;
      HalfSpacingScaled(Pow2(23), d, ulp);
      Pow2Add(23, e - 23);
    }
  }

  /** Multiplying by a natural number keeps an inequality. */
  lemma {:induction false} MulMonotone(a: nat, b: nat, c: nat)
    requires b <= c
    ensures a * b <= a * c
    decreases a
  {
    if a > 0 {
      MulMonotone(a - 1, b, c);
    }
  }

  /** An error of at most half the spacing, scaled by 2p, is at most p spacings. */
  lemma {:induction false} HalfSpacingScaled(p: nat, d: nat, ulp: nat)
    requires 2 * d <= ulp
    ensures (p * 2) * d <= p * ulp
  {
    MulMonotone(p, 2 * d, ulp);
    assert (p * 2) * d == p * (2 * d);
  }

  /** 2^24 + 3 lies halfway between the f32 values 2^24 + 2 and 2^24 + 4, and rounds to the even significand. */
  lemma {:induction false} ToF32TieToEven()
    ensures ToF32(F32_EXACT + 3) == F32_EXACT + 4
  {
    var n := F32_EXACT + 3;
    F32ExactIsPow2();
    Log2AtLeast(n, 24);
    if Log2(n) > 24 {
      Pow2Monotone(25, Log2(n));
    }
    assert Log2(n) == 24;
    assert Pow2(1) == 2;
  }

  /**
   * The length heuristic used when no model is available or encoding
   * fails: the UTF-8 byte length converted to f32, times 0.25 (exact in
   * f32), truncated by the cast back to usize, but at least 1.
   */
  function ApproximateCount(text: string): (n: nat)
    ensures n >= 1
    ensures n == 1 || 4 * n <= ToF32(Utf8Length(text)) < 4 * n + 4
    ensures Utf8Length(text) < F32_EXACT ==> n == 1 || 4 * n <= Utf8Length(text) < 4 * n + 4
    ensures 8 <= Utf8Length(text) < F32_EXACT ==> 4 * n <= Utf8Length(text) < 4 * n + 4
  {
    var quarter := ToF32(Utf8Length(text)) / 4;
    if quarter < 1 then 1 else quarter
  }

  /**
   * For every text of at least 8 bytes, four times the heuristic is within
   * len / 2^24 of the length, up to the truncation of the quarter.
   */
  lemma {:induction false} ApproximateCountNearLength(text: string)
    requires Utf8Length(text) >= 8
    ensures 4 * ApproximateCount(text) <= Utf8Length(text) + Utf8Length(text) / F32_EXACT
    ensures Utf8Length(text) < 4 * ApproximateCount(text) + 4 + Utf8Length(text) / F32_EXACT
  {
    var len := Utf8Length(text);
    ToF32Error(len);
    var f := ToF32(len);
    assert F32_EXACT * (len / F32_EXACT) + len % F32_EXACT == len;
    if f >= len {
      assert f - len <= len / F32_EXACT;
    } else {
      assert len - f <= len / F32_EXACT;
    }
  }

  /**
   * The f32 rounding shows from 2^24 bytes on: a text of 2^24 + 3 bytes
   * rounds up to 2^24 + 4, so the heuristic gives 2^22 + 1 tokens, one
   * more than the exact quarter of its length.
   */
  lemma {:induction false} ApproximateCountRoundsUp()
    ensures ToF32(F32_EXACT + 3) / 4 == (F32_EXACT + 3) / 4 + 1 == 0x40_0001
  {
    ToF32TieToEven();
  }

  /**
   * `Tokenizer::count_tokens`. Total: it never fails. The Simple
   * strategy counts whitespace-separated words, so an empty or blank text
   * costs nothing; the model strategies use the model when it is loaded
   * and encodes the text, and otherwise fall back to the heuristic, which
   * never reports less than one token.
   */
  function CountTokens(t: Tokenizer, text: string): (c: TokenCount)
    ensures t.kind == Simple ==> c.count == |Words(text)|
    ensures t.kind == Simple ==> (c.count == 0 <==> AllWhitespace(text))
    ensures t.kind != Simple && t.model.None? ==> c.count == ApproximateCount(text) >= 1
    ensures t.kind != Simple && t.model.Some? ==>
              c.count == (match t.model.value(text)
                          case Some(ids) => ids
                          case None => ApproximateCount(text))
  {
    NoWordsIffAllWhitespace(text);
    match t.kind
    case Simple => TokenCount(|Words(text)|)
    case _ =>
      match t.model
      case Some(encode) =>
        (match encode(text)
         case Some(ids) => TokenCount(ids)
         case None => TokenCount(ApproximateCount(text)))
      case None => TokenCount(ApproximateCount(text))
  }

  /** What `Tokenizer::new` does when a model fails to load. */
  datatype LoadError = LoadError(message: string)

  /**
   * `Tokenizer::new`. The Simple strategy loads nothing and cannot fail;
   * the model strategies take the outcome of loading the model files
   * (`loaded`), which is file and library I/O outside the model.
   */
  function NewTokenizer(kind: TokenizerType, loaded: Result<Encoder, LoadError>): (r: Result<Tokenizer, LoadError>)
    ensures kind == Simple ==> r.Ok? && r.value.kind == Simple && r.value.model.None?
    ensures kind != Simple ==> (r.Ok? <==> loaded.Ok?)
    ensures r.Ok? ==> r.value.kind == kind && (kind != Simple ==> r.value.model == Some(loaded.value))
  {
    match kind
    case Simple => Ok(Tokenizer(Simple, None))
    case _ =>
      match loaded
      case Ok(encode) => Ok(Tokenizer(kind, Some(encode)))
      case Err(e) => Err(e)
  }

  /**
   * `impl Default for Tokenizer`: the Simple tokenizer without a model
   * (both the `new(Simple)` result and the fallback of `unwrap_or_else`).
   */
  function DefaultTokenizer(): (t: Tokenizer)
    ensures t.kind == Simple && t.model.None?
    ensures forall text :: CountTokens(t, text).count == |Words(text)|
  {
    var created := NewTokenizer(Simple, Err(LoadError("")));
    match created
    case Ok(tok) => tok
    case Err(_) => Tokenizer(Simple, None)
  }
}
