/** `truncate_evidence_context` of `benchmarks/evidence_tokens.py`, over an unknown tokenizer. */
module EvidenceBudget {

  /** `count_tokens` and, where the tokenizer has one, `truncate_text`. */
  datatype Tokenizer = Counting(count: string -> nat)
    | Truncating(count: string -> nat, truncate: (string, nat) -> string)

  datatype Fitted = BudgetNotPositive | WrapperTooLarge | CannotTruncate | Ok(text: string)

  function Rendered(prefix: string, value: string, suffix: string): string {
    prefix + value + suffix
  }

  predicate Fits(t: Tokenizer, prefix: string, value: string, suffix: string, budget: int) {
    t.count(Rendered(prefix, value, suffix)) <= budget
  }

  /** The prefix of k tokens, rendered, is within the budget. */
  predicate PrefixFits(t: Tokenizer, context: string, prefix: string, suffix: string, budget: int, k: nat)
    requires t.Truncating?
  {
    Fits(t, prefix, t.truncate(context, k), suffix, budget)
  }

  /** k is a fitting length, and no fitting length follows it directly. */
  ghost predicate Boundary(t: Tokenizer, context: string, prefix: string, suffix: string, budget: int, k: nat)
    requires t.Truncating?
  {
    && k <= t.count(context) && t.count(prefix + t.truncate(context, k) + suffix) <= budget
    && (k < t.count(context) ==> t.count(prefix + t.truncate(context, k + 1) + suffix) > budget)
  }

  /**
   Nothing is assumed of how the token count grows with the text, only that no tokens is no
   text. The result always fits, and stops where one token more would not.
   */
  method TruncateEvidence(context: string, budget: int, t: Tokenizer, prefix: string, suffix: string)
    returns (r: Fitted)
    requires t.Truncating? ==> t.truncate(context, 0) == ""
    ensures r == BudgetNotPositive <==> budget < 1
    ensures r == WrapperTooLarge <==> budget >= 1 && t.count(prefix + suffix) > budget
    ensures r == CannotTruncate <==>
      && budget >= 1 && t.count(prefix + suffix) <= budget < t.count(prefix + context + suffix) && !t.Truncating?
    ensures r.Ok? ==> t.count(prefix + r.text + suffix) <= budget
    ensures r.Ok? && t.count(prefix + context + suffix) <= budget ==> r.text == context
    ensures r.Ok? && t.count(prefix + context + suffix) > budget ==>
      exists k :: Boundary(t, context, prefix, suffix, budget, k) && r.text == t.truncate(context, k)
  {
    assert prefix + "" + suffix == prefix + suffix;
    if budget < 1 { return BudgetNotPositive; }
    if !Fits(t, prefix, "", suffix, budget) { return WrapperTooLarge; }
    if Fits(t, prefix, context, suffix, budget) { return Ok(context); }
    if !t.Truncating? { return CannotTruncate; }
    var low, high := 0, t.count(context);
    while low < high
      invariant 0 <= low <= high <= t.count(context)
      invariant PrefixFits(t, context, prefix, suffix, budget, low)
      invariant high < t.count(context) ==> !PrefixFits(t, context, prefix, suffix, budget, high + 1)
    {
      var candidateTokens := (low + high + 1) / 2;
      if PrefixFits(t, context, prefix, suffix, budget, candidateTokens) {
        low := candidateTokens;
      } else {
        high := candidateTokens - 1;
      }
    }
    assert Boundary(t, context, prefix, suffix, budget, low);
    return Ok(t.truncate(context, low));
  }

  /** A longer prefix never renders to fewer tokens than the budget a shorter one broke. */
  ghost predicate Monotone(t: Tokenizer, context: string, prefix: string, suffix: string, budget: int)
    requires t.Truncating?
  {
    forall j, k :: 0 <= j <= k <= t.count(context) && PrefixFits(t, context, prefix, suffix, budget, k)
      ==> PrefixFits(t, context, prefix, suffix, budget, j)
  }

  /** Where fitting is monotone there is one boundary, and it is the longest fitting prefix. */
  lemma BoundaryIsLongest(t: Tokenizer, context: string, prefix: string, suffix: string, budget: int, k: nat)
    requires t.Truncating? && Monotone(t, context, prefix, suffix, budget)
    requires PrefixFits(t, context, prefix, suffix, budget, k) && k <= t.count(context)
    ensures Boundary(t, context, prefix, suffix, budget, k) <==>
      forall j: nat :: j <= t.count(context) && PrefixFits(t, context, prefix, suffix, budget, j) ==> j <= k
  {
    if k < t.count(context) && PrefixFits(t, context, prefix, suffix, budget, k + 1) {
      assert !Boundary(t, context, prefix, suffix, budget, k);
    }
  }
}
