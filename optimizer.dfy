/**
 * The token-budget optimizer (core/src/storage/context/optimizer.rs): a
 * single greedy pass over the scored memories, best first, that takes every
 * memory meeting the relevance threshold until the next one would overflow
 * the budget. The first eligible memory is taken even when it alone is over
 * the budget.
 */
module Optimizer {
  import opened Tokens
  import opened Relevance

  /** The memories whose score meets the threshold, in their order. */
  function Eligible(s: seq<ScoredMemory>, threshold: real): (e: seq<ScoredMemory>)
    ensures |e| <= |s|
  {
    if s == [] then []
    else
      var last := s[|s| - 1];
      Eligible(s[..|s| - 1], threshold) + (if last.score >= threshold then [last] else [])
  }

  /** The eligible memories are exactly those of the input whose score meets the threshold. */
  lemma {:induction false} EligibleMembers(s: seq<ScoredMemory>, threshold: real)
    ensures forall m :: m in Eligible(s, threshold) <==> m in s && m.score >= threshold
    decreases |s|
  {
    if s != [] {
      var init := s[..|s| - 1];
      EligibleMembers(init, threshold);
      assert s == init + [s[|s| - 1]];
    }
  }

  /** Filtering a concatenation filters each part. */
  lemma {:induction false} EligibleAppend(a: seq<ScoredMemory>, b: seq<ScoredMemory>, threshold: real)
    ensures Eligible(a + b, threshold) == Eligible(a, threshold) + Eligible(b, threshold)
    decreases |b|
  {
    if b == [] {
      assert a + b == a;
    } else {
      var b' := b[..|b| - 1];
      assert (a + b)[..|a + b| - 1] == a + b';
      assert (a + b)[|a + b| - 1] == b[|b| - 1];
      EligibleAppend(a, b', threshold);
    }
  }

  /** The total token count of a selection. */
  function TokenTotal(s: seq<ScoredMemory>): nat {
    if s == [] then 0 else TokenTotal(s[..|s| - 1]) + s[|s| - 1].memory.tokenCount.count
  }

  /** Adding one memory adds its tokens. */
  lemma {:induction false} TokenTotalSnoc(s: seq<ScoredMemory>, m: ScoredMemory)
    ensures TokenTotal(s + [m]) == TokenTotal(s) + m.memory.tokenCount.count
  {
    assert (s + [m])[..|s|] == s;
  }

  /**
   * What the optimizer promises about its selection from the eligible
   * memories e: it is a prefix of e; it is non-empty when e is; its total
   * is within the budget unless it is the single first memory; and it
   * stops short of e only where one more memory would exceed the budget.
   */
  ghost predicate GreedyPrefix(e: seq<ScoredMemory>, maxTokens: nat, selected: seq<ScoredMemory>) {
    && |selected| <= |e|
    && selected == e[..|selected|]
    && (e != [] ==> |selected| >= 1)
    && (TokenTotal(selected) <= maxTokens || |selected| == 1)
    && (|selected| < |e| ==> TokenTotal(e[..|selected| + 1]) > maxTokens)
  }

  /**
   * `TokenBudgetOptimizer::optimize`: a single pass that skips memories
   * below the threshold, takes eligible ones while they fit, takes the first
   * eligible one even when it does not fit, and stops at the first eligible
   * one that would overflow a non-empty selection.
   */
  method Optimize(scored: seq<ScoredMemory>, maxTokens: TokenCount, threshold: real)
    returns (selected: seq<ScoredMemory>)
    ensures GreedyPrefix(Eligible(scored, threshold), maxTokens.count, selected)
    ensures forall m :: m in selected ==> m in scored && m.score >= threshold
  {
    selected := [];
    var total := TokenCount(0);
    var i := 0;
    while i < |scored|
      invariant 0 <= i <= |scored|
      invariant selected == Eligible(scored[..i], threshold)
      invariant total.count == TokenTotal(selected)
      invariant TokenTotal(selected) <= maxTokens.count || |selected| == 1
    {
      var m := scored[i];
      EligibleStep(scored, i, threshold);
      if m.score < threshold {
        i := i + 1;
        continue;
      }
      var newTotal := total.Add(m.memory.tokenCount);
      TokenTotalSnoc(selected, m);
      if newTotal.count > maxTokens.count && selected != [] {
        StopIsGreedy(scored, i, maxTokens.count, threshold);
        return;
      }
      selected := selected + [m];
      total := newTotal;
      i := i + 1;
    }
    assert scored[..i] == scored;
    EligibleMembers(scored, threshold);
  }

  /** Stopping at an eligible s[i] that overflows a non-empty selection keeps the promise. */
  lemma {:induction false} StopIsGreedy(s: seq<ScoredMemory>, i: nat, maxTokens: nat, threshold: real)
    requires i < |s| && s[i].score >= threshold
    requires var sel := Eligible(s[..i], threshold);
             && sel != []
             && (TokenTotal(sel) <= maxTokens || |sel| == 1)
             && TokenTotal(sel + [s[i]]) > maxTokens
    ensures GreedyPrefix(Eligible(s, threshold), maxTokens, Eligible(s[..i], threshold))
    ensures forall m :: m in Eligible(s[..i], threshold) ==> m in s && m.score >= threshold
  {
    var e := Eligible(s, threshold);
    var sel := Eligible(s[..i], threshold);
    EligibleAfterStop(s, i, threshold);
    EligibleMembers(s, threshold);
    assert e[..|sel| + 1][..|sel|] == sel;
    forall m | m in sel
      ensures m in s && m.score >= threshold
    {
      assert m in e;
    }
  }

  /** One more input element extends the filtered prefix by at most that element. */
  lemma {:induction false} EligibleStep(s: seq<ScoredMemory>, i: nat, threshold: real)
    requires i < |s|
    ensures Eligible(s[..i + 1], threshold) == Eligible(s[..i], threshold) + (if s[i].score >= threshold then [s[i]] else [])
  {
    assert s[..i + 1][..i] == s[..i];
  }

  /** Where the loop stops, the eligible memories are those seen so far, then s[i], then more. */
  lemma {:induction false} EligibleAfterStop(s: seq<ScoredMemory>, i: nat, threshold: real)
    requires i < |s| && s[i].score >= threshold
    ensures var e := Eligible(s[..i], threshold);
            && |Eligible(s, threshold)| > |e|
            && Eligible(s, threshold)[..|e| + 1] == e + [s[i]]
  {
    EligibleStep(s, i, threshold);
    assert s == s[..i + 1] + s[i + 1..];
    EligibleAppend(s[..i + 1], s[i + 1..], threshold);
  }

  /** A greedy selection from a non-empty e starts with e's first memory. */
  lemma {:induction false} GreedyPrefixStartsWithFirst(e: seq<ScoredMemory>, maxTokens: nat, selected: seq<ScoredMemory>)
    requires GreedyPrefix(e, maxTokens, selected) && e != []
    ensures |selected| >= 1 && selected[0] == e[0]
  {
    assert selected[0] == e[..|selected|][0];
  }

  /** When nothing meets the threshold, nothing is selected. */
  lemma {:induction false} NothingEligibleNothingSelected(e: seq<ScoredMemory>, maxTokens: nat, selected: seq<ScoredMemory>)
    requires GreedyPrefix(e, maxTokens, selected) && e == []
    ensures selected == []
  {
  }

  /** When everything fits the budget, everything eligible is selected. */
  lemma {:induction false} AllFitAllSelected(e: seq<ScoredMemory>, maxTokens: nat, selected: seq<ScoredMemory>)
    requires GreedyPrefix(e, maxTokens, selected) && TokenTotal(e) <= maxTokens
    ensures selected == e
  {
    if |selected| < |e| {
      TokenTotalPrefixBound(e, |selected| + 1);
    }
    assert e[..|e|] == e;
  }

  /**
   * The first eligible memory exceeds the budget on its own: it is the
   * whole selection.
   */
  lemma {:induction false} OversizedFirstIsAlone(e: seq<ScoredMemory>, maxTokens: nat, selected: seq<ScoredMemory>)
    requires GreedyPrefix(e, maxTokens, selected)
    requires e != [] && e[0].memory.tokenCount.count > maxTokens
    ensures selected == [e[0]]
  {
    TokenTotalPrefixBound(selected, 1);
    assert selected[..1] == [] + [e[0]];
    TokenTotalSnoc([], e[0]);
    assert TokenTotal(selected) > maxTokens;
    assert selected == e[..1];
  }

  /** No greedy selection is longer than another: the promise fixes the length. */
  lemma {:induction false} GreedyPrefixLength(e: seq<ScoredMemory>, maxTokens: nat, a: seq<ScoredMemory>, b: seq<ScoredMemory>)
    requires GreedyPrefix(e, maxTokens, a) && GreedyPrefix(e, maxTokens, b)
    ensures |b| <= |a|
  {
    if |b| > |a| {
      assert b[..|a| + 1] == e[..|a| + 1];
      TokenTotalPrefixBound(b, |a| + 1);
    }
  }

  /** The promise determines the selection: the optimizer's output is unique. */
  lemma {:induction false} GreedyPrefixUnique(e: seq<ScoredMemory>, maxTokens: nat, a: seq<ScoredMemory>, b: seq<ScoredMemory>)
    requires GreedyPrefix(e, maxTokens, a) && GreedyPrefix(e, maxTokens, b)
    ensures a == b
  {
    GreedyPrefixLength(e, maxTokens, a, b);
    GreedyPrefixLength(e, maxTokens, b, a);
  }

  /** A prefix of a selection has no more tokens than the selection. */
  lemma {:induction false} TokenTotalPrefixBound(s: seq<ScoredMemory>, n: nat)
    requires n <= |s|
    ensures TokenTotal(s[..n]) <= TokenTotal(s)
    decreases |s|
  {
    if n < |s| {
      assert s[..|s| - 1][..n] == s[..n];
      TokenTotalPrefixBound(s[..|s| - 1], n);
    } else {
      assert s[..n] == s;
    }
  }
}
