/**
 * Memory-bank configuration (core/src/storage/memory_bank_config.rs): the
 * categories with their token budgets and priorities, the overall budget,
 * and lookups that fall back to defaults for unknown categories. Loading
 * and saving the configuration as JSON is file I/O outside the model.
 */
module BankConfig {
  import opened Tokens
  import opened Sums

  /** `Priority`. */
  datatype Priority = Low | Medium | High | Critical

  /** `CategoryConfig`. */
  datatype CategoryConfig = CategoryConfig(maxTokens: nat, priority: Priority)

  /** `UpdateTriggersConfig`. */
  datatype UpdateTriggers = UpdateTriggers(autoUpdate: bool, umbCommand: bool)

  /** `TokenBudgetConfig`. */
  datatype TokenBudget = TokenBudget(total: nat, perCategory: bool)

  /** `RelevanceConfig`; the threshold is a real. */
  datatype RelevanceConfig = RelevanceConfig(threshold: real, boostRecent: bool)

  /** `MemoryBankConfig`. */
  datatype MemoryBankConfig = MemoryBankConfig(
    categories: map<string, CategoryConfig>,
    updateTriggers: UpdateTriggers,
    tokenBudget: TokenBudget,
    relevance: RelevanceConfig)

  /** The per-category budgets of a configuration, by category. */
  function Budgets(categories: map<string, CategoryConfig>): (b: map<string, nat>)
    ensures b.Keys == categories.Keys
  {
    map c | c in categories :: categories[c].maxTokens
  }

  /**
   * `impl Default for MemoryBankConfig`: five categories (context 10000
   * high, decision 5000 medium, progress 8000 high, product 10000 medium,
   * pattern 5000 low), a 50000-token total enforced per category, a 0.7
   * relevance threshold with recency boost, and both update triggers on.
   */
  function DefaultConfig(): (cfg: MemoryBankConfig)
    ensures cfg.categories.Keys == {"context", "decision", "progress", "product", "pattern"}
    ensures cfg.categories["context"] == CategoryConfig(10000, High)
    ensures cfg.categories["decision"] == CategoryConfig(5000, Medium)
    ensures cfg.categories["progress"] == CategoryConfig(8000, High)
    ensures cfg.categories["product"] == CategoryConfig(10000, Medium)
    ensures cfg.categories["pattern"] == CategoryConfig(5000, Low)
    ensures cfg.tokenBudget == TokenBudget(50000, true)
    ensures cfg.relevance == RelevanceConfig(0.7, true)
    ensures cfg.updateTriggers == UpdateTriggers(true, true)
  {
    var categories := map[
      "context" := CategoryConfig(10000, High),
      "decision" := CategoryConfig(5000, Medium),
      "progress" := CategoryConfig(8000, High),
      "product" := CategoryConfig(10000, Medium),
      "pattern" := CategoryConfig(5000, Low)];
    MemoryBankConfig(categories, UpdateTriggers(true, true), TokenBudget(50000, true), RelevanceConfig(0.7, true))
  }

  /** `get_max_tokens`: the category's budget, or 1000 for an unknown category. */
  function GetMaxTokens(cfg: MemoryBankConfig, category: string): (t: TokenCount)
    ensures category in cfg.categories ==> t.count == cfg.categories[category].maxTokens
    ensures category !in cfg.categories ==> t.count == 1000
  {
    var maxTokens := if category in cfg.categories then cfg.categories[category].maxTokens else 1000;
    FromUsize(maxTokens)
  }

  /** `get_priority`: the category's priority, or Medium for an unknown category. */
  function GetPriority(cfg: MemoryBankConfig, category: string): (p: Priority)
    ensures category in cfg.categories ==> p == cfg.categories[category].priority
    ensures category !in cfg.categories ==> p == Medium
  {
    if category in cfg.categories then cfg.categories[category].priority else Medium
  }

  /**
   * The default per-category budgets add up to 38000 tokens, within the
   * 50000-token total.
   */
  lemma {:induction false} DefaultBudgetsWithinTotal()
    ensures Total(Budgets(DefaultConfig().categories)) == 38000
    ensures Total(Budgets(DefaultConfig().categories)) <= DefaultConfig().tokenBudget.total
  {
    var b := Budgets(DefaultConfig().categories);
    var ks := b.Keys;
    SumOverRemove(b, ks, "context");
    var ks1 := ks - {"context"};
    SumOverRemove(b, ks1, "decision");
    var ks2 := ks1 - {"decision"};
    SumOverRemove(b, ks2, "progress");
    var ks3 := ks2 - {"progress"};
    SumOverRemove(b, ks3, "product");
    var ks4 := ks3 - {"product"};
    assert ks4 == {"pattern"};
    SumOverRemove(b, ks4, "pattern");
    assert ks4 - {"pattern"} == {};
  }

  /**
   * For any configuration, a known category's budget is part of the sum of
   * all budgets, and an unknown one gets 1000; so when the budgets add up
   * to at most the total, and the total is at least 1000, no lookup
   * exceeds the total.
   */
  lemma {:induction false} LookupWithinSum(cfg: MemoryBankConfig, category: string)
    ensures category in cfg.categories ==> GetMaxTokens(cfg, category).count <= Total(Budgets(cfg.categories))
    ensures Total(Budgets(cfg.categories)) <= cfg.tokenBudget.total && 1000 <= cfg.tokenBudget.total ==>
              GetMaxTokens(cfg, category).count <= cfg.tokenBudget.total
  {
    var b := Budgets(cfg.categories);
    if category in cfg.categories {
      SumOverRemove(b, b.Keys, category);
    }
  }

  /**
   * Setting a category's configuration changes the sum of the budgets by
   * the difference between its new budget and its old one (0 when it was
   * not configured).
   */
  lemma {:induction false} BudgetsUpdate(categories: map<string, CategoryConfig>, category: string, c: CategoryConfig)
    ensures category in categories ==>
              Total(Budgets(categories[category := c])) + categories[category].maxTokens == Total(Budgets(categories)) + c.maxTokens
    ensures category !in categories ==>
              Total(Budgets(categories[category := c])) == Total(Budgets(categories)) + c.maxTokens
  {
    var b := Budgets(categories);
    assert Budgets(categories[category := c]) == b[category := c.maxTokens];
    TotalUpdate(b, category, c.maxTokens);
  }
}
