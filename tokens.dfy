/** `estimateTokens` (src/tokens.ts): one token per four UTF-16 code units, rounded up. */
module Tokens {

  /** `Math.ceil(text.length / 4)`: the least `r` with `4 * r >= |text|`. */
  function EstimateTokens(text: string): (r: nat)
    ensures 4 * r >= |text|
    ensures r == 0 || 4 * (r - 1) < |text|
  {
    (|text| + 3) / 4
  }

  /** The estimate is the only number with those two properties. */
  lemma EstimateTokensUnique(text: string, n: nat)
    requires 4 * n >= |text| && (n == 0 || 4 * (n - 1) < |text|)
    ensures n == EstimateTokens(text)
  {
  }

  /** A longer text never has a smaller estimate, and appending a text adds at
      most its own estimate. */
  lemma EstimateTokensMonotone(a: string, b: string)
    ensures EstimateTokens(a) <= EstimateTokens(a + b)
    ensures EstimateTokens(a + b) <= EstimateTokens(a) + EstimateTokens(b)
  {
  }

  /** Only the length counts: texts of the same length get the same estimate. */
  lemma EstimateTokensByLength(a: string, b: string)
    requires |a| == |b|
    ensures EstimateTokens(a) == EstimateTokens(b)
  {
  }

  /** A 400-unit text is estimated at exactly 100 tokens. */
  lemma EstimateTokensOfLength400(text: string)
    requires |text| == 400
    ensures EstimateTokens(text) == 100
  {
  }

  lemma EstimateTokensExamples()
    ensures EstimateTokens("") == 0
    ensures EstimateTokens("a") == 1
    ensures EstimateTokens("abcd") == 1
    ensures EstimateTokens("abcde") == 2
  {
  }
}
