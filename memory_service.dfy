/**
 * The request handlers of the memory service (core/src/service/memory_service.rs)
 * that do real work, without the gRPC transport: loading the stored
 * memories (with the memory-bank category and date filter), scoring,
 * selecting and assembling a context, storing a memory-bank entry, the
 * memory-bank statistics, and the UMB ("update memory bank") command.
 * Each handler's clock reading, fresh ids and the repository's I/O
 * failures are parameters.
 */
module MemoryService {
  import opened Wrappers
  import opened Text
  import opened Tokens
  import opened Sums
  import opened Sorting
  import opened Memories
  import opened Relevance
  import opened Optimizer

  /** `tonic::Status`; every failure of these handlers is `Status::internal`. */
  datatype Status = Internal(message: string)

  /** A truncating `as u32` cast of an unsigned value. */
  function AsU32(n: nat): (r: nat)
    ensures r < U32_BOUND
    ensures n < U32_BOUND ==> r == n
  {
    n % U32_BOUND
  }

  // ---------------------------------------------------------------------
  // Loading and filtering
  // ---------------------------------------------------------------------

  /**
   * The memory-bank filter: with categories given, only a memory whose
   * category is one of them; with a date given, only a memory whose
   * "date" metadata equals it.
   */
  predicate Keep(m: Memory, categories: seq<string>, date: string) {
    && (categories != [] ==> m.category.Some? && m.category.value in categories)
    && (date != "" ==> "date" in m.metadata && m.metadata["date"] == date)
  }

  /** The ids of some memories. */
  function IdsOf(ms: seq<Memory>): set<MemoryId> {
    set m | m in ms :: m.id
  }

  /** No id occurs twice among the memories. */
  predicate DistinctIds(ms: seq<Memory>) {
    forall i, j :: 0 <= i < j < |ms| ==> ms[i].id != ms[j].id
  }

  /**
   * What the loading loop yields from the stored memories under a filter:
   * every stored memory the filter accepts, once each (with its access
   * time possibly refreshed), and nothing else.
   */
  ghost predicate LoadedFrom(loaded: seq<Memory>, stored: map<MemoryId, Memory>, categories: seq<string>, date: string) {
    && DistinctIds(loaded)
    && (forall m :: m in loaded ==> Keep(m, categories, date) && m.id in stored && SameExceptAccess(m, stored[m.id]))
    && (forall k :: k in stored && Keep(stored[k], categories, date) ==> k in IdsOf(loaded))
  }

  /**
   * The loop shared by `get_context`, `get_memory_bank_context`,
   * `optimize_memory_bank` and `get_memory_bank_stats`: list the ids,
   * retrieve each one (which touches it) and keep those the filter
   * accepts. Any storage failure ends the handler with an internal
   * status. Without a filter (no categories, empty date) every stored
   * memory is loaded.
   */
  method LoadMemories(store: MemoryStore, categories: seq<string>, date: string, now: Timestamp,
                      listFault: Option<StorageError>, retrieveFault: MemoryId -> Option<StorageError>)
    returns (r: Result<seq<Memory>, Status>)
    requires store.Valid()
    modifies store, store.repository
    ensures store.Valid()
    ensures store.repository.memories.Keys == old(store.repository.memories).Keys
    ensures forall k :: k in old(store.repository.memories) ==>
              SameExceptAccess(store.repository.memories[k], old(store.repository.memories)[k])
    ensures store.repository.Outcome(listFault).Some? ==> r.Err?
    ensures store.repository.Outcome(listFault).None? && (forall k :: store.repository.Outcome(retrieveFault(k)).None?) ==> r.Ok?
    ensures r.Ok? ==> LoadedFrom(r.value, old(store.repository.memories), categories, date)
  {
    ghost var before := store.repository.memories;
    var listed := store.GetAllIds(listFault);
    if listed.Err? {
      return Err(Internal("Failed to get memory IDs: " + listed.error.message));
    }
    var ids := listed.value;
    var loaded: seq<Memory> := [];
    for i := 0 to |ids|
      invariant store.Valid()
      invariant store.repository.memories.Keys == before.Keys
      invariant forall k :: k in before ==> SameExceptAccess(store.repository.memories[k], before[k])
      invariant LoadedPrefix(loaded, ids, i, before, categories, date)
      invariant store.repository.Outcome(listFault).None?
    {
      var got := LoadOne(store, ids[i], categories, date, now, retrieveFault(ids[i]));
      if got.Err? {
        return Err(got.error);
      }
      KeepIgnoresAccess(store.repository.memories[ids[i]], before[ids[i]], categories, date);
      LoadedPrefixStep(loaded, ids, i, before, categories, date, got.value);
      if got.value.Some? {
        loaded := loaded + [got.value.value];
      }
    }
    LoadedPrefixDone(loaded, ids, before, categories, date);
    r := Ok(loaded);
  }

  /**
   * The loading loop after the first i listed ids: it holds distinct
   * stored memories (up to access time) that pass the filter, each for
   * one of those ids, and one for each of those ids the filter accepts.
   */
  ghost predicate LoadedPrefix(loaded: seq<Memory>, ids: seq<MemoryId>, i: nat, stored: map<MemoryId, Memory>,
                               categories: seq<string>, date: string)
    requires i <= |ids| && forall k :: k in ids ==> k in stored
  {
    && DistinctIds(loaded)
    && (forall m :: m in loaded ==> Keep(m, categories, date) && m.id in stored && SameExceptAccess(m, stored[m.id]))
    && (forall m :: m in loaded ==> m.id in ids[..i])
    && (forall j :: 0 <= j < i && Keep(stored[ids[j]], categories, date) ==> ids[j] in IdsOf(loaded))
  }

  /** One turn of the loading loop keeps LoadedPrefix. */
  lemma {:induction false} LoadedPrefixStep(loaded: seq<Memory>, ids: seq<MemoryId>, i: nat, stored: map<MemoryId, Memory>,
                                            categories: seq<string>, date: string, got: Option<Memory>)
    requires i < |ids| && Distinct(ids) && forall k :: k in ids ==> k in stored
    requires LoadedPrefix(loaded, ids, i, stored, categories, date)
    requires got.Some? ==> got.value.id == ids[i] && SameExceptAccess(got.value, stored[ids[i]]) && Keep(got.value, categories, date)
    requires Keep(stored[ids[i]], categories, date) ==> got.Some?
    ensures LoadedPrefix(loaded + (if got.Some? then [got.value] else []), ids, i + 1, stored, categories, date)
  {
    assert ids[..i + 1] == ids[..i] + [ids[i]];
    if got.Some? {
      IdsOfSnoc(loaded, got.value);
      DistinctIdsSnoc(loaded, got.value, ids, i);
    } else {
      assert loaded + [] == loaded;
    }
  }

  /** After the last listed id, the loop holds what LoadedFrom describes. */
  lemma {:induction false} LoadedPrefixDone(loaded: seq<Memory>, ids: seq<MemoryId>, stored: map<MemoryId, Memory>,
                                            categories: seq<string>, date: string)
    requires forall k :: k in ids <==> k in stored
    requires LoadedPrefix(loaded, ids, |ids|, stored, categories, date)
    ensures LoadedFrom(loaded, stored, categories, date)
  {
    forall k | k in stored && Keep(stored[k], categories, date)
      ensures k in IdsOf(loaded)
    {
      var j :| 0 <= j < |ids| && ids[j] == k;
    }
  }

  /** The filter looks at the category and the metadata only, never the access time. */
  lemma {:induction false} KeepIgnoresAccess(a: Memory, b: Memory, categories: seq<string>, date: string)
    requires SameExceptAccess(a, b)
    ensures a.category == b.category && a.metadata == b.metadata
    ensures Keep(a, categories, date) == Keep(b, categories, date)
  {
    assert a.(lastAccessed := 0).category == a.category;
    assert a.(lastAccessed := 0).metadata == a.metadata;
  }

  /**
   * One turn of the loading loop: retrieve a listed id, then skip the
   * memory unless the category and date filters let it through.
   */
  method LoadOne(store: MemoryStore, id: MemoryId, categories: seq<string>, date: string, now: Timestamp,
                 fault: Option<StorageError>)
    returns (r: Result<Option<Memory>, Status>)
    requires store.Valid() && id in store.repository.memories
    modifies store, store.repository
    ensures store.Valid()
    ensures store.repository.memories.Keys == old(store.repository.memories).Keys
    ensures forall k :: k in old(store.repository.memories) ==>
              SameExceptAccess(store.repository.memories[k], old(store.repository.memories)[k])
    ensures store.repository.Outcome(fault).None? <==> r.Ok?
    ensures r.Ok? && r.value.Some? ==>
              && r.value.value.id == id
              && SameExceptAccess(r.value.value, old(store.repository.memories)[id])
              && Keep(r.value.value, categories, date)
    ensures r.Ok? && Keep(store.repository.memories[id], categories, date) ==> r.value.Some?
  {
    ghost var before := store.repository.memories;
    var got := store.Retrieve(id, now, fault);
    if got.Err? {
      return Err(Internal("Failed to retrieve memory: " + got.error.message));
    }
    if got.value.None? {
      return Ok(None);
    }
    var m := got.value.value;
    KeepIgnoresAccess(m, store.repository.memories[id], categories, date);
    if categories != [] {
      if m.category.Some? {
        if m.category.value !in categories {
          return Ok(None);
        }
      } else {
        return Ok(None);
      }
    }
    if date != "" {
      if "date" in m.metadata {
        if m.metadata["date"] != date {
          return Ok(None);
        }
      } else {
        return Ok(None);
      }
    }
    r := Ok(Some(m));
  }

  /** Appending a memory adds its id. */
  lemma {:induction false} IdsOfSnoc(ms: seq<Memory>, m: Memory)
    ensures IdsOf(ms + [m]) == IdsOf(ms) + {m.id}
  {
    assert m in ms + [m];
    forall k | k in IdsOf(ms)
      ensures k in IdsOf(ms + [m])
    {
      var x :| x in ms && x.id == k;
      assert x in ms + [m];
    }
  }

  /** Appending the memory of a listed id not seen before keeps the ids distinct. */
  lemma {:induction false} DistinctIdsSnoc(ms: seq<Memory>, m: Memory, ids: seq<MemoryId>, i: nat)
    requires Distinct(ids) && i < |ids| && m.id == ids[i]
    requires DistinctIds(ms) && forall x :: x in ms ==> x.id in ids[..i]
    ensures DistinctIds(ms + [m])
  {
    forall a, b | 0 <= a < b < |ms + [m]|
      ensures (ms + [m])[a].id != (ms + [m])[b].id
    {
      if b == |ms| {
        assert ms[a] in ms;
        var j :| 0 <= j < i && ids[j] == ms[a].id;
      }
    }
  }

  // ---------------------------------------------------------------------
  // Context assembly
  // ---------------------------------------------------------------------

  /** Which field of a memory a response's source entry carries. */
  datatype SourceLabel =
    | ContentTypeLabel   // `get_context`: the memory's content type
    | CategoryLabel      // `get_memory_bank_context`: the category, or ""

  /** `ContextSource` / `MemoryBankSource`: id, label and score. */
  datatype Source = Source(id: string, tag: string, relevance: real)

  /** `ContextResponse` / `MemoryBankContextResponse`. */
  datatype ContextBundle = ContextBundle(context: string, tokenCount: nat, relevanceScore: real, sources: seq<Source>)

  /** The source entry of one selected memory. */
  function SourceOf(s: ScoredMemory, kind: SourceLabel): (src: Source)
    ensures src.id == s.memory.id.value && src.relevance == s.score
    ensures kind == CategoryLabel && s.memory.category.None? ==> src.tag == ""
  {
    var text := match kind
      case ContentTypeLabel => s.memory.contentType
      case CategoryLabel => (if s.memory.category.Some? then s.memory.category.value else "");
    Source(s.memory.id.value, text, s.score)
  }

  /** Each selected memory's content followed by a blank line, in order. */
  function Rendered(selected: seq<ScoredMemory>): string {
    if selected == [] then ""
    else Rendered(selected[..|selected| - 1]) + selected[|selected| - 1].memory.content + "\n\n"
  }

  /** Rendering a concatenation renders each part. */
  lemma {:induction false} RenderedAppend(a: seq<ScoredMemory>, b: seq<ScoredMemory>)
    ensures Rendered(a + b) == Rendered(a) + Rendered(b)
    decreases |b|
  {
    if b == [] {
      assert a + b == a;
    } else {
      var b' := b[..|b| - 1];
      assert (a + b)[..|a + b| - 1] == a + b';
      assert (a + b)[|a + b| - 1] == b[|b| - 1];
      RenderedAppend(a, b');
    }
  }

  /** The rendered context is two characters longer per memory than the contents. */
  lemma {:induction false} RenderedLength(selected: seq<ScoredMemory>)
    ensures |Rendered(selected)| >= 2 * |selected|
    ensures selected != [] ==> Rendered(selected)[|Rendered(selected)| - 2..] == "\n\n"
    decreases |selected|
  {
    if selected != [] {
      RenderedLength(selected[..|selected| - 1]);
    }
  }

  /**
   * What a context response says about the selection it was built from:
   * the rendered text, the token total cast to u32, the first (highest)
   * score or 0, and one source per selected memory, in order.
   */
  predicate Describes(b: ContextBundle, selected: seq<ScoredMemory>, kind: SourceLabel) {
    && b.context == Rendered(selected)
    && b.tokenCount == AsU32(TokenTotal(selected))
    && b.relevanceScore == (if selected == [] then 0.0 else selected[0].score)
    && |b.sources| == |selected|
    && forall j :: 0 <= j < |selected| ==> b.sources[j] == SourceOf(selected[j], kind)
  }

  /** The assembly loop of `get_context` and `get_memory_bank_context`. */
  method AssembleContext(selected: seq<ScoredMemory>, kind: SourceLabel) returns (b: ContextBundle)
    ensures Describes(b, selected, kind)
  {
    var context := "";
    var sources: seq<Source> := [];
    var total := 0;
    for i := 0 to |selected|
      invariant context == Rendered(selected[..i])
      invariant total == TokenTotal(selected[..i])
      invariant |sources| == i
      invariant forall j :: 0 <= j < i ==> sources[j] == SourceOf(selected[j], kind)
    {
      var s := selected[i];
      assert selected[..i + 1][..i] == selected[..i];
      context := context + s.memory.content;
      context := context + "\n\n";
      sources := sources + [SourceOf(s, kind)];
      total := total + s.memory.tokenCount.AsUsize();
    }
    assert selected[..|selected|] == selected;
    var first := if |selected| > 0 then selected[0].score else 0.0;
    b := ContextBundle(context, AsU32(total), first, sources);
  }

  /** Keeping the memories above a threshold keeps a descending order. */
  lemma {:induction false} EligibleSorted(s: seq<ScoredMemory>, threshold: real)
    requires SortedDesc(s, ScoreOf)
    ensures SortedDesc(Eligible(s, threshold), ScoreOf)
    decreases |s|
  {
    if s != [] {
      var init := s[..|s| - 1];
      var last := s[|s| - 1];
      assert SortedDesc(init, ScoreOf) by {
        forall i, j | 0 <= i < j < |init|
          ensures ScoreOf(init[i]) >= ScoreOf(init[j])
        {
          assert init[i] == s[i] && init[j] == s[j];
        }
      }
      EligibleSorted(init, threshold);
      var e := Eligible(init, threshold);
      EligibleMembers(init, threshold);
      forall x | x in e
        ensures ScoreOf(x) >= ScoreOf(last)
      {
        assert x in init;
        var k :| 0 <= k < |init| && init[k] == x;
        assert s[k] == x;
      }
      var tail := if last.score >= threshold then [last] else [];
      assert Eligible(s, threshold) == e + tail;
      forall i, j | 0 <= i < j < |e + tail|
        ensures ScoreOf((e + tail)[i]) >= ScoreOf((e + tail)[j])
      {
        if j >= |e| {
          assert (e + tail)[i] in e;
        }
      }
    }
  }

  /** Every scored memory is one of the input memories. */
  lemma {:induction false} ScoredFromInput(scorer: TfIdfScorer, ms: seq<Memory>, mode: string, content: ContentScore)
    ensures forall s :: s in ScoredInOrder(scorer, ms, mode, content) ==> s.memory in ms
  {
    var sio := ScoredInOrder(scorer, ms, mode, content);
    forall s | s in sio
      ensures s.memory in ms
    {
      var i :| 0 <= i < |sio| && sio[i] == s;
      assert sio[i].memory == ms[i];
    }
  }

  /**
   * The candidates of a context request: the loaded memories scored for
   * the mode, best first (ties in load order), keeping those that meet
   * the clamped threshold.
   */
  ghost function Candidates(scorer: TfIdfScorer, memories: seq<Memory>, mode: string, content: ContentScore,
                            threshold: real): seq<ScoredMemory>
  {
    Eligible(SortDesc(ScoredInOrder(scorer, memories, mode, content), ScoreOf), NewScore(threshold))
  }

  /**
   * The greedy budgeted prefix of the candidates comes from the memories,
   * meets the (clamped) threshold, is best first, keeps to the budget
   * unless it is a single memory, and is non-empty whenever some memory
   * meets the threshold.
   */
  lemma {:induction false} GreedySelection(scorer: TfIdfScorer, memories: seq<Memory>, mode: string, content: ContentScore,
                                           maxTokens: nat, threshold: real, selected: seq<ScoredMemory>)
    requires GreedyPrefix(Candidates(scorer, memories, mode, content, threshold), maxTokens, selected)
    ensures SortedDesc(selected, ScoreOf)
    ensures forall s :: s in selected ==> s.memory in memories && s.score >= NewScore(threshold)
    ensures TokenTotal(selected) <= maxTokens || |selected| == 1
    ensures (exists i :: 0 <= i < |memories| && ScoredInOrder(scorer, memories, mode, content)[i].score >= NewScore(threshold)) ==>
              selected != []
  {
    var cut := NewScore(threshold);
    var sio := ScoredInOrder(scorer, memories, mode, content);
    var e := Candidates(scorer, memories, mode, content, threshold);
    CandidatesMembers(scorer, memories, mode, content, threshold);
    ScoredFromInput(scorer, memories, mode, content);
    PrefixOfSorted(e, selected);
    if exists i :: 0 <= i < |memories| && sio[i].score >= cut {
      var i :| 0 <= i < |memories| && sio[i].score >= cut;
      assert sio[i] in e;
    }
  }

  /** A prefix of a best-first sequence is best first and takes its memories from it. */
  lemma {:induction false} PrefixOfSorted(e: seq<ScoredMemory>, selected: seq<ScoredMemory>)
    requires SortedDesc(e, ScoreOf) && |selected| <= |e| && selected == e[..|selected|]
    ensures SortedDesc(selected, ScoreOf)
    ensures forall s :: s in selected ==> s in e
  {
    forall i, j | 0 <= i < j < |selected|
      ensures ScoreOf(selected[i]) >= ScoreOf(selected[j])
    {
      assert selected[i] == e[i] && selected[j] == e[j];
    }
    forall s | s in selected
      ensures s in e
    {
      var k :| 0 <= k < |selected| && selected[k] == s;
      assert e[k] == s;
    }
  }

  /** The candidates are the scored memories that meet the clamped threshold, best first. */
  lemma {:induction false} CandidatesMembers(scorer: TfIdfScorer, memories: seq<Memory>, mode: string, content: ContentScore,
                                             threshold: real)
    ensures SortedDesc(Candidates(scorer, memories, mode, content, threshold), ScoreOf)
    ensures forall s :: s in Candidates(scorer, memories, mode, content, threshold) <==>
              s in ScoredInOrder(scorer, memories, mode, content) && s.score >= NewScore(threshold)
  {
    var cut := NewScore(threshold);
    var sio := ScoredInOrder(scorer, memories, mode, content);
    var scored := SortDesc(sio, ScoreOf);
    EligibleSorted(scored, cut);
    EligibleMembers(scored, cut);
    forall s
      ensures s in scored <==> s in sio
    {
      assert s in scored <==> s in multiset(scored);
      assert s in sio <==> s in multiset(sio);
    }
  }

  /**
   * Score, select and assemble: what `get_context` and
   * `get_memory_bank_context` do with the loaded memories. The selection
   * is the greedy budgeted prefix of the candidates; spelled out, it comes
   * from the memories, meets the (clamped) threshold, is best first, keeps
   * to the budget unless it is a single memory, and is non-empty whenever
   * some memory meets the threshold.
   */
  method BuildContext(memories: seq<Memory>, scorer: TfIdfScorer, mode: string, content: ContentScore,
                      maxTokens: nat, threshold: real, kind: SourceLabel)
    returns (selected: seq<ScoredMemory>, b: ContextBundle)
    ensures Describes(b, selected, kind)
    ensures GreedyPrefix(Candidates(scorer, memories, mode, content, threshold), maxTokens, selected)
    ensures SortedDesc(selected, ScoreOf)
    ensures forall s :: s in selected ==> s.memory in memories && s.score >= NewScore(threshold)
    ensures TokenTotal(selected) <= maxTokens || |selected| == 1
    ensures (exists i :: 0 <= i < |memories| && ScoredInOrder(scorer, memories, mode, content)[i].score >= NewScore(threshold)) ==>
              selected != []
  {
    var scored := ScoreMemories(scorer, memories, mode, content);
    selected := Optimize(scored, FromUsize(maxTokens), NewScore(threshold));
    GreedySelection(scorer, memories, mode, content, maxTokens, threshold, selected);
    b := AssembleContext(selected, kind);
  }

  /**
   * The response a context request yields for some loaded memories: it
   * describes the greedy budgeted prefix of their candidates.
   */
  ghost predicate ContextOf(b: ContextBundle, loaded: seq<Memory>, scorer: TfIdfScorer, mode: string,
                            content: ContentScore, maxTokens: nat, threshold: real, kind: SourceLabel)
  {
    exists selected: seq<ScoredMemory> ::
      && Describes(b, selected, kind)
      && GreedyPrefix(Candidates(scorer, loaded, mode, content, threshold), maxTokens, selected)
  }

  /** For given loaded memories there is exactly one such response. */
  lemma {:induction false} ContextOfUnique(b1: ContextBundle, b2: ContextBundle, loaded: seq<Memory>, scorer: TfIdfScorer,
                                           mode: string, content: ContentScore, maxTokens: nat, threshold: real,
                                           kind: SourceLabel)
    requires ContextOf(b1, loaded, scorer, mode, content, maxTokens, threshold, kind)
    requires ContextOf(b2, loaded, scorer, mode, content, maxTokens, threshold, kind)
    ensures b1 == b2
  {
    var e := Candidates(scorer, loaded, mode, content, threshold);
    var s1 :| Describes(b1, s1, kind) && GreedyPrefix(e, maxTokens, s1);
    var s2 :| Describes(b2, s2, kind) && GreedyPrefix(e, maxTokens, s2);
    GreedyPrefixUnique(e, maxTokens, s1, s2);
    assert b1.sources == b2.sources;
  }

  /**
   * The response is empty (no text, no tokens, score 0, no sources)
   * exactly when no loaded memory scores at least the clamped threshold.
   */
  lemma {:induction false} ContextEmptyIff(b: ContextBundle, loaded: seq<Memory>, scorer: TfIdfScorer, mode: string,
                                           content: ContentScore, maxTokens: nat, threshold: real, kind: SourceLabel)
    requires ContextOf(b, loaded, scorer, mode, content, maxTokens, threshold, kind)
    ensures b.sources == [] <==>
              forall i :: 0 <= i < |loaded| ==> ScoredInOrder(scorer, loaded, mode, content)[i].score < NewScore(threshold)
    ensures b.sources == [] ==> b.context == "" && b.tokenCount == 0 && b.relevanceScore == 0.0
  {
    var sio := ScoredInOrder(scorer, loaded, mode, content);
    var cut := NewScore(threshold);
    var e := Candidates(scorer, loaded, mode, content, threshold);
    var selected :| Describes(b, selected, kind) && GreedyPrefix(e, maxTokens, selected);
    CandidatesMembers(scorer, loaded, mode, content, threshold);
    if b.sources == [] {
      forall i | 0 <= i < |loaded|
        ensures sio[i].score < cut
      {
        assert sio[i] in sio;
      }
    } else {
      assert e[0] in e;
      var i :| 0 <= i < |sio| && sio[i] == e[0];
    }
  }

  /**
   * What a context handler promises about its response, given the stored
   * memories before the call: it is the response for the stored memories
   * the filter accepts, loaded in some order.
   */
  ghost predicate ContextFrom(b: ContextBundle, kind: SourceLabel, stored: map<MemoryId, Memory>,
                              categories: seq<string>, date: string, scorer: TfIdfScorer, mode: string,
                              content: ContentScore, maxTokens: nat, threshold: real)
  {
    exists loaded: seq<Memory> ::
      && LoadedFrom(loaded, stored, categories, date)
      && ContextOf(b, loaded, scorer, mode, content, maxTokens, threshold, kind)
  }

  /** `get_context`: every stored memory, scored for the mode, labelled by content type. */
  method GetContext(store: MemoryStore, scorer: TfIdfScorer, content: ContentScore, mode: string,
                    maxTokens: nat, threshold: real, now: Timestamp,
                    listFault: Option<StorageError>, retrieveFault: MemoryId -> Option<StorageError>)
    returns (r: Result<ContextBundle, Status>)
    requires store.Valid()
    modifies store, store.repository
    ensures store.Valid()
    ensures store.repository.memories.Keys == old(store.repository.memories).Keys
    ensures forall k :: k in old(store.repository.memories) ==>
              SameExceptAccess(store.repository.memories[k], old(store.repository.memories)[k])
    ensures store.repository.Outcome(listFault).Some? ==> r.Err?
    ensures store.repository.Outcome(listFault).None? && (forall k :: store.repository.Outcome(retrieveFault(k)).None?) ==> r.Ok?
    ensures r.Ok? ==> ContextFrom(r.value, ContentTypeLabel, old(store.repository.memories), [], "",
                                     scorer, mode, content, maxTokens, threshold)
  {
    r := ContextHandler(store, scorer, content, mode, [], "", maxTokens, threshold, ContentTypeLabel, now, listFault, retrieveFault);
  }

  /** `get_memory_bank_context`: the filtered memories, labelled by category. */
  method GetMemoryBankContext(store: MemoryStore, scorer: TfIdfScorer, content: ContentScore, mode: string,
                              categories: seq<string>, date: string, maxTokens: nat, threshold: real, now: Timestamp,
                              listFault: Option<StorageError>, retrieveFault: MemoryId -> Option<StorageError>)
    returns (r: Result<ContextBundle, Status>)
    requires store.Valid()
    modifies store, store.repository
    ensures store.Valid()
    ensures store.repository.memories.Keys == old(store.repository.memories).Keys
    ensures forall k :: k in old(store.repository.memories) ==>
              SameExceptAccess(store.repository.memories[k], old(store.repository.memories)[k])
    ensures store.repository.Outcome(listFault).Some? ==> r.Err?
    ensures store.repository.Outcome(listFault).None? && (forall k :: store.repository.Outcome(retrieveFault(k)).None?) ==> r.Ok?
    ensures r.Ok? ==> ContextFrom(r.value, CategoryLabel, old(store.repository.memories), categories, date,
                                     scorer, mode, content, maxTokens, threshold)
  {
    r := ContextHandler(store, scorer, content, mode, categories, date, maxTokens, threshold, CategoryLabel, now, listFault, retrieveFault);
  }

  /** Load, then score, select and assemble. */
  method ContextHandler(store: MemoryStore, scorer: TfIdfScorer, content: ContentScore, mode: string,
                        categories: seq<string>, date: string, maxTokens: nat, threshold: real, kind: SourceLabel,
                        now: Timestamp, listFault: Option<StorageError>, retrieveFault: MemoryId -> Option<StorageError>)
    returns (r: Result<ContextBundle, Status>)
    requires store.Valid()
    modifies store, store.repository
    ensures store.Valid()
    ensures store.repository.memories.Keys == old(store.repository.memories).Keys
    ensures forall k :: k in old(store.repository.memories) ==>
              SameExceptAccess(store.repository.memories[k], old(store.repository.memories)[k])
    ensures store.repository.Outcome(listFault).Some? ==> r.Err?
    ensures store.repository.Outcome(listFault).None? && (forall k :: store.repository.Outcome(retrieveFault(k)).None?) ==> r.Ok?
    ensures r.Ok? ==> ContextFrom(r.value, kind, old(store.repository.memories), categories, date,
                                     scorer, mode, content, maxTokens, threshold)
  {
    ghost var before := store.repository.memories;
    var loaded := LoadMemories(store, categories, date, now, listFault, retrieveFault);
    if loaded.Err? {
      return Err(loaded.error);
    }
    var selected, b := BuildContext(loaded.value, scorer, mode, content, maxTokens, threshold, kind);
    assert ContextOf(b, loaded.value, scorer, mode, content, maxTokens, threshold, kind);
    r := Ok(b);
  }

  // ---------------------------------------------------------------------
  // Storing a memory-bank entry
  // ---------------------------------------------------------------------

  /** The arguments `store_memory_bank` passes on to the store. */
  datatype BankArgs = BankArgs(category: Option<string>, mode: Option<string>, metadata: map<string, string>)

  /**
   * Empty category and mode strings mean "none"; a non-empty date is
   * recorded under the "date" metadata key, replacing any given one.
   */
  function NormaliseBankRequest(category: string, mode: string, metadata: map<string, string>, date: string): (a: BankArgs)
    ensures a.category.None? <==> category == ""
    ensures a.category.Some? ==> a.category.value == category
    ensures a.mode.None? <==> mode == ""
    ensures a.mode.Some? ==> a.mode.value == mode
    ensures date == "" ==> a.metadata == metadata
    ensures date != "" ==> "date" in a.metadata && a.metadata["date"] == date
    ensures date != "" ==> a.metadata.Keys == metadata.Keys + {"date"}
    ensures forall k :: k in metadata && k != "date" ==> k in a.metadata && a.metadata[k] == metadata[k]
  {
    var cat := if category == "" then None else Some(category);
    var md := if mode == "" then None else Some(mode);
    var meta := if date == "" then metadata else metadata["date" := date];
    BankArgs(cat, md, meta)
  }

  /** `MemoryBankStoreResponse`. */
  datatype BankStoreResponse = BankStoreResponse(memoryId: string, tokenCount: nat, category: string, success: bool)

  /** Memory-bank entries are stored as markdown. */
  const BankContentType: string := "text/markdown"

  /** `store_memory_bank`. */
  method StoreMemoryBank(store: MemoryStore, content: string, category: string, mode: string,
                         metadata: map<string, string>, date: string, id: MemoryId, now: Timestamp,
                         fault: Option<StorageError>)
    returns (r: Result<BankStoreResponse, Status>)
    requires store.Valid()
    modifies store, store.repository
    ensures store.Valid()
    ensures var a := NormaliseBankRequest(category, mode, metadata, date);
            var m := NewMemory(id, content, BankContentType, a.category, a.mode, a.metadata, store.tokenizer, now);
            store.repository.Outcome(fault).None? ==>
              && r == Ok(BankStoreResponse(id.value, AsU32(m.tokenCount.count), category, true))
              && store.repository.memories == old(store.repository.memories)[id := m]
    ensures store.repository.Outcome(fault).Some? ==>
              r.Err? && store.repository.memories == old(store.repository.memories)
  {
    var a := NormaliseBankRequest(category, mode, metadata, date);
    var stored := store.Store(content, BankContentType, a.category, a.mode, a.metadata, id, now, fault);
    if stored.Err? {
      return Err(Internal("Failed to store memory bank entry: " + stored.error.message));
    }
    var m := stored.value;
    var shown := if a.category.Some? then a.category.value else "";
    r := Ok(BankStoreResponse(m.id.value, AsU32(m.tokenCount.AsUsize()), shown, true));
  }

  /**
   * An entry stored with a category and a date is found again by a
   * memory-bank context request for that category (among others) and that
   * date, or with no date; one stored without a category is left out by
   * every request that names categories.
   */
  lemma {:induction false} StoredBankEntryIsKept(content: string, category: string, mode: string, metadata: map<string, string>,
                              date: string, id: MemoryId, tokenizer: Tokenizer, now: Timestamp,
                              categories: seq<string>)
    ensures var a := NormaliseBankRequest(category, mode, metadata, date);
            var m := NewMemory(id, content, BankContentType, a.category, a.mode, a.metadata, tokenizer, now);
            && (category != "" && category in categories ==> Keep(m, categories, date) && Keep(m, categories, ""))
            && (category == "" && categories != [] ==> !Keep(m, categories, date))
            && (Keep(m, [], date))
  {
  }

  // ---------------------------------------------------------------------
  // Statistics
  // ---------------------------------------------------------------------

  /** The stats key of a memory: its category, or "uncategorized". */
  function CategoryKey(m: Memory): string {
    match m.category
    case Some(c) => c
    case None => "uncategorized"
  }

  /** The stats keys of some memories, in order. */
  function CategoryKeys(ms: seq<Memory>): (ks: seq<string>)
    ensures |ks| == |ms| && forall i :: 0 <= i < |ms| ==> ks[i] == CategoryKey(ms[i])
  {
    seq(|ms|, i requires 0 <= i < |ms| => CategoryKey(ms[i]))
  }

  /** How many of the memories have key c. */
  function CategoryCount(ms: seq<Memory>, c: string): nat {
    if ms == [] then 0
    else CategoryCount(ms[..|ms| - 1], c) + (if CategoryKey(ms[|ms| - 1]) == c then 1 else 0)
  }

  /** The count of a key is its multiplicity among the memories' keys. */
  lemma {:induction false} CategoryCountIsMultiplicity(ms: seq<Memory>, c: string)
    ensures CategoryCount(ms, c) == multiset(CategoryKeys(ms))[c]
    ensures CategoryCount(ms, c) > 0 <==> c in CategoryKeys(ms)
    decreases |ms|
  {
    if ms != [] {
      var init := ms[..|ms| - 1];
      assert CategoryKeys(ms) == CategoryKeys(init) + [CategoryKey(ms[|ms| - 1])];
      CategoryCountIsMultiplicity(init, c);
    }
  }

  /** The token counts of some memories, added up without truncation. */
  function MemoryTokens(ms: seq<Memory>): nat {
    if ms == [] then 0 else MemoryTokens(ms[..|ms| - 1]) + ms[|ms| - 1].tokenCount.count
  }

  /** The u32-cast token counts of the memories with key c, added up. */
  function CategoryTokens(ms: seq<Memory>, c: string): nat {
    if ms == [] then 0
    else
      var last := ms[|ms| - 1];
      CategoryTokens(ms[..|ms| - 1], c) + (if CategoryKey(last) == c then AsU32(last.tokenCount.count) else 0)
  }

  /** The u32-cast token counts of all the memories, added up. */
  function TruncatedTokens(ms: seq<Memory>): nat {
    if ms == [] then 0 else TruncatedTokens(ms[..|ms| - 1]) + AsU32(ms[|ms| - 1].tokenCount.count)
  }

  /** When no memory has 2^32 tokens or more, the per-memory cast changes nothing. */
  lemma {:induction false} TruncationHarmless(ms: seq<Memory>)
    requires forall m :: m in ms ==> m.tokenCount.count < U32_BOUND
    ensures TruncatedTokens(ms) == MemoryTokens(ms)
    decreases |ms|
  {
    if ms != [] {
      assert ms[|ms| - 1] in ms;
      TruncationHarmless(ms[..|ms| - 1]);
    }
  }

  /** `MemoryBankCategoryStats`; the average relevance is the constant 0.75. */
  datatype CategoryStats = CategoryStats(category: string, memoryCount: nat, tokenCount: nat,
                                         averageRelevance: real, lastUpdated: string)

  /** `MemoryBankStatsResponse`. */
  datatype BankStats = BankStats(totalMemories: nat, totalTokens: nat,
                                 tokensByCategory: map<string, nat>, memoriesByCategory: map<string, nat>,
                                 categoryStats: seq<CategoryStats>)

  /**
   * The grouping loop of `get_memory_bank_stats`: per key, how many
   * memories there are and their (u32-cast) token counts; the per-key
   * counts add up to the number of memories and the per-key tokens to the
   * total of the cast counts.
   */
  method GroupByCategory(ms: seq<Memory>) returns (tokens: map<string, nat>, counts: map<string, nat>)
    ensures forall c :: c in counts <==> CategoryCount(ms, c) > 0
    ensures tokens.Keys == counts.Keys
    ensures forall c :: c in counts ==> counts[c] == CategoryCount(ms, c)
    ensures forall c :: c in tokens ==> tokens[c] == CategoryTokens(ms, c)
    ensures Total(counts) == |ms|
    ensures Total(tokens) == TruncatedTokens(ms)
  {
    tokens := map[];
    counts := map[];
    for i := 0 to |ms|
      invariant CountsOf(ms[..i], counts)
      invariant TokensOf(ms[..i], tokens)
    {
      tokens, counts := GroupOne(ms, i, tokens, counts);
    }
    assert ms[..|ms|] == ms;
  }

  /**
   * One turn of the grouping loop: add the memory's u32-cast token count
   * and one memory to its key's entries, inserting 0 first where the key
   * is new.
   */
  method GroupOne(ms: seq<Memory>, i: nat, tokens: map<string, nat>, counts: map<string, nat>)
    returns (tokens': map<string, nat>, counts': map<string, nat>)
    requires i < |ms| && CountsOf(ms[..i], counts) && TokensOf(ms[..i], tokens)
    ensures CountsOf(ms[..i + 1], counts') && TokensOf(ms[..i + 1], tokens')
  {
    var key := CategoryKey(ms[i]);
    var t := AsU32(ms[i].tokenCount.AsUsize());
    tokens' := tokens[key := (if key in tokens then tokens[key] else 0) + t];
    counts' := counts[key := (if key in counts then counts[key] else 0) + 1];
    CountsStep(ms, i, counts, counts');
    TokensStep(ms, i, tokens, tokens');
  }

  /** The memory counts per key, for the memories ms. */
  ghost predicate CountsOf(ms: seq<Memory>, counts: map<string, nat>) {
    && (forall c :: c in counts <==> CategoryCount(ms, c) > 0)
    && (forall c :: c in counts ==> counts[c] == CategoryCount(ms, c))
    && Total(counts) == |ms|
  }

  /** The (u32-cast) token sums per key, for the memories ms. */
  ghost predicate TokensOf(ms: seq<Memory>, tokens: map<string, nat>) {
    && (forall c :: c in tokens <==> CategoryCount(ms, c) > 0)
    && (forall c :: c in tokens ==> tokens[c] == CategoryTokens(ms, c))
    && Total(tokens) == TruncatedTokens(ms)
  }

  /** One more memory: its key's count goes up by one, the others stay. */
  lemma {:induction false} CountStep(ms: seq<Memory>, i: nat)
    requires i < |ms|
    ensures forall c :: CategoryCount(ms[..i + 1], c) == CategoryCount(ms[..i], c) + (if CategoryKey(ms[i]) == c then 1 else 0)
  {
    assert ms[..i + 1][..i] == ms[..i];
  }

  /** Counting one more memory under its key. */
  lemma {:induction false} CountsStep(ms: seq<Memory>, i: nat, counts: map<string, nat>, counts': map<string, nat>)
    requires i < |ms| && CountsOf(ms[..i], counts)
    requires var key := CategoryKey(ms[i]);
             counts' == counts[key := (if key in counts then counts[key] else 0) + 1]
    ensures CountsOf(ms[..i + 1], counts')
  {
    var key := CategoryKey(ms[i]);
    CountStep(ms, i);
    TotalUpdate(counts, key, (if key in counts then counts[key] else 0) + 1);
  }

  /** Adding one more memory's tokens under its key. */
  lemma {:induction false} TokensStep(ms: seq<Memory>, i: nat, tokens: map<string, nat>, tokens': map<string, nat>)
    requires i < |ms| && TokensOf(ms[..i], tokens)
    requires var key := CategoryKey(ms[i]);
             tokens' == tokens[key := (if key in tokens then tokens[key] else 0) + AsU32(ms[i].tokenCount.count)]
    ensures TokensOf(ms[..i + 1], tokens')
  {
    var key := CategoryKey(ms[i]);
    var t := AsU32(ms[i].tokenCount.count);
    assert ms[..i + 1][..i] == ms[..i];
    CountStep(ms, i);
    TotalUpdate(tokens, key, (if key in tokens then tokens[key] else 0) + t);
    if key !in tokens {
      CategoryTokensAbsent(ms[..i], key);
    }
  }

  /** A key no memory has collects no tokens. */
  lemma {:induction false} CategoryTokensAbsent(ms: seq<Memory>, c: string)
    requires CategoryCount(ms, c) == 0
    ensures CategoryTokens(ms, c) == 0
    decreases |ms|
  {
    if ms != [] {
      CategoryTokensAbsent(ms[..|ms| - 1], c);
    }
  }

  /**
   * What the per-category entries say: each names a different key of the
   * counts and carries its count, its tokens (0 if the tokens map lacks
   * the key), the constant average relevance 0.75 and today's date.
   */
  predicate EntriesDescribe(stats: seq<CategoryStats>, counts: map<string, nat>, tokens: map<string, nat>, today: string) {
    && (forall j, k :: 0 <= j < k < |stats| ==> stats[j].category != stats[k].category)
    && forall j :: 0 <= j < |stats| ==>
         && stats[j].category in counts
         && stats[j].memoryCount == counts[stats[j].category]
         && stats[j].tokenCount == (if stats[j].category in tokens then tokens[stats[j].category] else 0)
         && stats[j].averageRelevance == 0.75
         && stats[j].lastUpdated == today
  }

  /**
   * The per-category entries of the stats response: one per key of the
   * counts, in the map's (unspecified) iteration order, with its count and
   * its tokens (0 if the tokens map lacks the key).
   */
  method CategoryStatsOf(counts: map<string, nat>, tokens: map<string, nat>, today: string)
    returns (stats: seq<CategoryStats>)
    ensures |stats| == |counts|
    ensures EntriesDescribe(stats, counts, tokens, today)
  {
    stats := [];
    var rest := counts.Keys;
    while rest != {}
      invariant rest <= counts.Keys
      invariant |stats| + |rest| == |counts|
      invariant forall j :: 0 <= j < |stats| ==> stats[j].category in counts && stats[j].category !in rest
      invariant forall j, k :: 0 <= j < k < |stats| ==> stats[j].category != stats[k].category
      invariant forall j :: 0 <= j < |stats| ==>
                  && stats[j].memoryCount == counts[stats[j].category]
                  && stats[j].tokenCount == (if stats[j].category in tokens then tokens[stats[j].category] else 0)
                  && stats[j].averageRelevance == 0.75
                  && stats[j].lastUpdated == today
      decreases rest
    {
      var c :| c in rest;
      var t := if c in tokens then tokens[c] else 0;
      stats := stats + [CategoryStats(c, counts[c], t, 0.75, today)];
      rest := rest - {c};
    }
  }

  /**
   * What the statistics of some loaded memories say: the number of
   * memories and their token total, both cast to u32; per key, how many
   * memories have it and their u32-cast tokens; and one entry per key.
   */
  ghost predicate StatsDescribe(s: BankStats, ms: seq<Memory>, today: string) {
    && s.totalMemories == AsU32(|ms|)
    && s.totalTokens == AsU32(MemoryTokens(ms))
    && (forall c :: c in s.memoriesByCategory <==> CategoryCount(ms, c) > 0)
    && (forall c :: c in s.memoriesByCategory ==> s.memoriesByCategory[c] == CategoryCount(ms, c))
    && s.tokensByCategory.Keys == s.memoriesByCategory.Keys
    && (forall c :: c in s.tokensByCategory ==> s.tokensByCategory[c] == CategoryTokens(ms, c))
    && |s.categoryStats| == |s.memoriesByCategory|
    && EntriesDescribe(s.categoryStats, s.memoriesByCategory, s.tokensByCategory, today)
  }

  /** The statistics of the loaded memories. */
  method StatsOf(ms: seq<Memory>, today: string) returns (s: BankStats)
    ensures StatsDescribe(s, ms, today)
    ensures forall c :: c in s.memoriesByCategory <==> c in CategoryKeys(ms)
    ensures forall c :: c in s.memoriesByCategory ==> s.memoriesByCategory[c] == multiset(CategoryKeys(ms))[c]
    ensures Total(s.memoriesByCategory) == |ms|
    ensures Total(s.tokensByCategory) == TruncatedTokens(ms)
  {
    var total := 0;
    for i := 0 to |ms|
      invariant total == MemoryTokens(ms[..i])
    {
      assert ms[..i + 1][..i] == ms[..i];
      total := total + ms[i].tokenCount.AsUsize();
    }
    assert ms[..|ms|] == ms;
    var tokens, counts := GroupByCategory(ms);
    forall c
      ensures CategoryCount(ms, c) == multiset(CategoryKeys(ms))[c]
      ensures CategoryCount(ms, c) > 0 <==> c in CategoryKeys(ms)
    {
      CategoryCountIsMultiplicity(ms, c);
    }
    var stats := CategoryStatsOf(counts, tokens, today);
    s := BankStats(AsU32(|ms|), AsU32(total), tokens, counts, stats);
  }

  /** `get_memory_bank_stats`: the statistics of every stored memory. */
  method GetMemoryBankStats(store: MemoryStore, today: string, now: Timestamp,
                            listFault: Option<StorageError>, retrieveFault: MemoryId -> Option<StorageError>)
    returns (r: Result<BankStats, Status>)
    requires store.Valid()
    modifies store, store.repository
    ensures store.Valid()
    ensures store.repository.memories.Keys == old(store.repository.memories).Keys
    ensures forall k :: k in old(store.repository.memories) ==>
              SameExceptAccess(store.repository.memories[k], old(store.repository.memories)[k])
    ensures store.repository.Outcome(listFault).Some? ==> r.Err?
    ensures store.repository.Outcome(listFault).None? && (forall k :: store.repository.Outcome(retrieveFault(k)).None?) ==> r.Ok?
    ensures r.Ok? ==> StatsOfStore(r.value, old(store.repository.memories), today)
    ensures r.Ok? ==> forall c :: c in r.value.memoriesByCategory ==>
              exists k :: k in old(store.repository.memories) && CategoryKey(old(store.repository.memories)[k]) == c
  {
    ghost var before := store.repository.memories;
    var loaded := LoadMemories(store, [], "", now, listFault, retrieveFault);
    if loaded.Err? {
      return Err(loaded.error);
    }
    var s := StatsOf(loaded.value, today);
    KeysAreStored(loaded.value, before);
    LoadedStats(s, loaded.value, before, today);
    r := Ok(s);
  }

  /** The ids of the stored memories with stats key c. */
  function KeyIds(stored: map<MemoryId, Memory>, c: string): set<MemoryId> {
    set k | k in stored && CategoryKey(stored[k]) == c
  }

  /** The u32-cast token count of every stored memory, by id. */
  function CastTokenMap(stored: map<MemoryId, Memory>): (t: map<MemoryId, nat>)
    ensures t.Keys == stored.Keys
  {
    map k | k in stored :: AsU32(stored[k].tokenCount.count)
  }

  /**
   * The statistics of a store, in terms of the stored memories alone: the
   * number of memories and their token total, both cast to u32; a key is
   * listed exactly when some stored memory has it, with the number of such
   * memories and the sum of their u32-cast token counts; and one entry per
   * listed key.
   */
  ghost predicate StatsOfStore(s: BankStats, stored: map<MemoryId, Memory>, today: string) {
    && s.totalMemories == AsU32(|stored|)
    && s.totalTokens == AsU32(Total(TokenMap(stored)))
    && (forall c :: c in s.memoriesByCategory <==> KeyIds(stored, c) != {})
    && (forall c :: c in s.memoriesByCategory ==> s.memoriesByCategory[c] == |KeyIds(stored, c)|)
    && s.tokensByCategory.Keys == s.memoriesByCategory.Keys
    && (forall c :: c in s.tokensByCategory ==> s.tokensByCategory[c] == SumOver(CastTokenMap(stored), KeyIds(stored, c)))
    && |s.categoryStats| == |s.memoriesByCategory|
    && EntriesDescribe(s.categoryStats, s.memoriesByCategory, s.tokensByCategory, today)
  }

  /** Statistics of the memories loaded without a filter are the statistics of the store. */
  lemma {:induction false} LoadedStats(s: BankStats, ms: seq<Memory>, stored: map<MemoryId, Memory>, today: string)
    requires LoadedFrom(ms, stored, [], "") && StatsDescribe(s, ms, today)
    ensures StatsOfStore(s, stored, today)
  {
    LoadedCount(ms, stored);
    LoadedTokens(ms, stored);
    forall c
      ensures CategoryCount(ms, c) == |KeyIds(stored, c)|
      ensures CategoryTokens(ms, c) == SumOver(CastTokenMap(stored), KeyIds(stored, c))
    {
      LoadedCategoryCount(ms, stored, c);
      LoadedCategoryTokens(ms, stored, c);
    }
  }

  /** A memory and its copy with a refreshed access time have the same key and tokens. */
  lemma {:induction false} SameStatsKey(a: Memory, b: Memory)
    requires SameExceptAccess(a, b)
    ensures CategoryKey(a) == CategoryKey(b) && a.tokenCount == b.tokenCount
  {
    assert a.(lastAccessed := 0).tokenCount == a.tokenCount;
    KeepIgnoresAccess(a, b, [], "");
  }

  /**
   * Taking the last memory off an unfiltered load leaves an unfiltered
   * load of the other stored memories.
   */
  lemma {:induction false} LoadedSplit(ms: seq<Memory>, stored: map<MemoryId, Memory>)
    requires ms != [] && LoadedFrom(ms, stored, [], "")
    ensures ms[|ms| - 1].id in stored
    ensures SameExceptAccess(ms[|ms| - 1], stored[ms[|ms| - 1].id])
    ensures LoadedFrom(ms[..|ms| - 1], stored - {ms[|ms| - 1].id}, [], "")
  {
    var init := ms[..|ms| - 1];
    var m := ms[|ms| - 1];
    var rest := stored - {m.id};
    assert m in ms;
    forall i, j | 0 <= i < j < |init|
      ensures init[i].id != init[j].id
    {
      assert init[i] == ms[i] && init[j] == ms[j];
    }
    forall x | x in init
      ensures x.id in rest && SameExceptAccess(x, rest[x.id])
    {
      var i :| 0 <= i < |init| && init[i] == x;
      assert ms[i] == x && x in ms;
    }
    forall k | k in rest
      ensures k in IdsOf(init)
    {
      assert k in IdsOf(ms);
      var x :| x in ms && x.id == k;
      var i :| 0 <= i < |ms| && ms[i] == x;
      assert ms[i].id != m.id;
      assert init[i] == x;
    }
  }

  /** An unfiltered load has one memory per stored memory. */
  lemma {:induction false} LoadedCount(ms: seq<Memory>, stored: map<MemoryId, Memory>)
    requires LoadedFrom(ms, stored, [], "")
    ensures |ms| == |stored|
    decreases |ms|
  {
    if ms == [] {
      assert stored.Keys <= IdsOf(ms) == {};
    } else {
      var m := ms[|ms| - 1];
      LoadedSplit(ms, stored);
      LoadedCount(ms[..|ms| - 1], stored - {m.id});
      assert (stored - {m.id}).Keys == stored.Keys - {m.id};
    }
  }

  /** An unfiltered load carries the token total of the store. */
  lemma {:induction false} LoadedTokens(ms: seq<Memory>, stored: map<MemoryId, Memory>)
    requires LoadedFrom(ms, stored, [], "")
    ensures MemoryTokens(ms) == Total(TokenMap(stored))
    decreases |ms|
  {
    if ms == [] {
      assert stored.Keys <= IdsOf(ms) == {};
    } else {
      var m := ms[|ms| - 1];
      var rest := stored - {m.id};
      LoadedSplit(ms, stored);
      LoadedTokens(ms[..|ms| - 1], rest);
      SameStatsKey(m, stored[m.id]);
      var t := TokenMap(stored);
      SumOverRemove(t, stored.Keys, m.id);
      assert stored.Keys - {m.id} == rest.Keys;
      SumOverFrame(t, TokenMap(rest), rest.Keys);
    }
  }

  /** In an unfiltered load, a key occurs as often as stored memories have it. */
  lemma {:induction false} LoadedCategoryCount(ms: seq<Memory>, stored: map<MemoryId, Memory>, c: string)
    requires LoadedFrom(ms, stored, [], "")
    ensures CategoryCount(ms, c) == |KeyIds(stored, c)|
    decreases |ms|
  {
    if ms == [] {
      assert stored.Keys <= IdsOf(ms) == {};
      assert KeyIds(stored, c) == {};
    } else {
      var m := ms[|ms| - 1];
      var rest := stored - {m.id};
      LoadedSplit(ms, stored);
      LoadedCategoryCount(ms[..|ms| - 1], rest, c);
      SameStatsKey(m, stored[m.id]);
      KeyIdsRemove(stored, m.id, c);
    }
  }

  /** Removing a stored memory takes its id out of the ids of its key, and only of that key. */
  lemma {:induction false} KeyIdsRemove(stored: map<MemoryId, Memory>, id: MemoryId, c: string)
    requires id in stored
    ensures CategoryKey(stored[id]) == c ==>
              && KeyIds(stored - {id}, c) == KeyIds(stored, c) - {id}
              && |KeyIds(stored, c)| == |KeyIds(stored - {id}, c)| + 1
    ensures CategoryKey(stored[id]) != c ==> KeyIds(stored - {id}, c) == KeyIds(stored, c)
  {
    var ks := KeyIds(stored - {id}, c);
    if CategoryKey(stored[id]) == c {
      assert KeyIds(stored, c) == ks + {id};
    } else {
      assert KeyIds(stored, c) == ks;
    }
  }

  /** In an unfiltered load, the tokens of a key are those of the stored memories with it. */
  lemma {:induction false} LoadedCategoryTokens(ms: seq<Memory>, stored: map<MemoryId, Memory>, c: string)
    requires LoadedFrom(ms, stored, [], "")
    ensures CategoryTokens(ms, c) == SumOver(CastTokenMap(stored), KeyIds(stored, c))
    decreases |ms|
  {
    if ms == [] {
      assert stored.Keys <= IdsOf(ms) == {};
      assert KeyIds(stored, c) == {};
    } else {
      var m := ms[|ms| - 1];
      var rest := stored - {m.id};
      LoadedSplit(ms, stored);
      LoadedCategoryTokens(ms[..|ms| - 1], rest, c);
      SameStatsKey(m, stored[m.id]);
      var t := CastTokenMap(stored);
      KeyIdsRemove(stored, m.id, c);
      if CategoryKey(m) == c {
        SumOverRemove(t, KeyIds(stored, c), m.id);
      }
      SumOverFrame(t, CastTokenMap(rest), KeyIds(rest, c));
    }
  }

  /** Every key of memories loaded from a store is the key of a stored memory. */
  lemma {:induction false} KeysAreStored(loaded: seq<Memory>, stored: map<MemoryId, Memory>)
    requires forall m :: m in loaded ==> m.id in stored && SameExceptAccess(m, stored[m.id])
    ensures forall c :: c in CategoryKeys(loaded) ==> exists k :: k in stored && CategoryKey(stored[k]) == c
  {
    var keys := CategoryKeys(loaded);
    forall c | c in keys
      ensures exists k :: k in stored && CategoryKey(stored[k]) == c
    {
      var i :| 0 <= i < |keys| && keys[i] == c;
      var m := loaded[i];
      assert m in loaded;
      KeepIgnoresAccess(m, stored[m.id], [], "");
      assert CategoryKey(stored[m.id]) == c;
    }
  }

  // ---------------------------------------------------------------------
  // The UMB command
  // ---------------------------------------------------------------------

  /** The categories a UMB command writes to, in order. */
  const UmbCategories: seq<string> := ["context", "decision", "progress"]

  /** `UmbCommandResponse`. */
  datatype UmbResponse = UmbResponse(success: bool, storedMemories: nat, totalTokens: nat,
                                     categories: seq<string>, message: string)

  /**
   * Of the first `n` categories, in order, those whose store did not fail:
   * a store fails when the repository is durable and its write fails.
   */
  function Succeeded(cats: seq<string>, n: nat, durable: bool, fault: string -> Option<StorageError>): (s: seq<string>)
    requires n <= |cats|
    ensures |s| <= n
  {
    if n == 0 then []
    else
      var last := cats[n - 1];
      Succeeded(cats, n - 1, durable, fault) + (if durable && fault(last).Some? then [] else [last])
  }

  /** The succeeded categories are exactly those whose store does not fail. */
  lemma {:induction false} SucceededMembers(cats: seq<string>, n: nat, durable: bool, fault: string -> Option<StorageError>)
    requires n <= |cats|
    ensures forall c :: c in Succeeded(cats, n, durable, fault) <==> c in cats[..n] && !(durable && fault(c).Some?)
  {
    if n > 0 {
      SucceededMembers(cats, n - 1, durable, fault);
      assert cats[..n] == cats[..n - 1] + [cats[n - 1]];
    }
  }

  /** `n` stores of `k` tokens each, added one store at a time. */
  function Times(n: nat, k: nat): nat {
    if n == 0 then 0 else Times(n - 1, k) + k
  }

  lemma {:induction false} TimesIsProduct(n: nat, k: nat)
    ensures Times(n, k) == n * k
  {
    if n > 0 {
      TimesIsProduct(n - 1, k);
    }
  }

  /** `handle_umb_command`'s report. */
  function UmbMessage(stored: nat, tokens: nat): string {
    "Stored " + NatToString(stored) + " memories with " + NatToString(tokens) + " tokens"
  }

  /**
   * The memory a UMB command stores for one category: the context as
   * markdown, with the category, the mode and the metadata; `tokens` is
   * the tokenizer's count of the context (see UmbMemoryIsNew).
   */
  function UmbMemory(id: MemoryId, category: string, mode: string, context: string, metadata: map<string, string>,
                     tokens: TokenCount, now: Timestamp): (m: Memory)
    ensures m.id == id && m.content == context && m.contentType == "text/markdown"
    ensures m.category == Some(category) && m.mode == Some(mode) && m.metadata == metadata
    ensures m.tokenCount == tokens && m.createdAt == m.lastAccessed == now
  {
    Memory(id, context, BankContentType, Some(category), Some(mode), metadata, tokens, now, now)
  }

  /** UmbMemory is `Memory::new` of the context with the category and mode. */
  lemma UmbMemoryIsNew(id: MemoryId, category: string, mode: string, context: string, metadata: map<string, string>,
                       tokenizer: Tokenizer, now: Timestamp)
    ensures UmbMemory(id, category, mode, context, metadata, CountTokens(tokenizer, context), now)
            == NewMemory(id, context, BankContentType, Some(category), Some(mode), metadata, tokenizer, now)
  {
  }

  /**
   * The repository after the first `n` stores of a UMB command: each
   * category whose store does not fail puts the context, as markdown with
   * that category, the mode and the metadata, under the category's new id.
   */
  ghost function UmbStores(before: map<MemoryId, Memory>, cats: seq<string>, n: nat, durable: bool,
                           fault: string -> Option<StorageError>, newId: string -> MemoryId, mode: string,
                           context: string, metadata: map<string, string>, tokens: TokenCount,
                           now: Timestamp): map<MemoryId, Memory>
    requires n <= |cats|
  {
    if n == 0 then before
    else
      var m := UmbStores(before, cats, n - 1, durable, fault, newId, mode, context, metadata, tokens, now);
      var c := cats[n - 1];
      if durable && fault(c).Some? then m
      else m[newId(c) := UmbMemory(newId(c), c, mode, context, metadata, tokens, now)]
  }

  /** The stores of a UMB command keep every earlier key and add the id of every category that succeeded. */
  lemma {:induction false} UmbStoresKeys(before: map<MemoryId, Memory>, cats: seq<string>, n: nat, durable: bool,
                                         fault: string -> Option<StorageError>, newId: string -> MemoryId,
                                         mode: string, context: string, metadata: map<string, string>,
                                         tokens: TokenCount, now: Timestamp)
    requires n <= |cats|
    ensures var after := UmbStores(before, cats, n, durable, fault, newId, mode, context, metadata, tokens, now);
            && (forall k :: k in before ==> k in after)
            && (forall c :: c in Succeeded(cats, n, durable, fault) ==> newId(c) in after)
  {
    if n > 0 {
      UmbStoresKeys(before, cats, n - 1, durable, fault, newId, mode, context, metadata, tokens, now);
    }
  }

  /** Distinct categories get distinct ids, as fresh UUIDs do. */
  ghost predicate IdsApart(cats: seq<string>, newId: string -> MemoryId) {
    forall c, d :: c in cats && d in cats && c != d ==> newId(c) != newId(d)
  }

  /**
   * The repository `after` a UMB command that stored the categories `done`:
   * under each of their ids the new memory of that category, every other
   * earlier memory as it was, and no other key.
   */
  ghost predicate UmbResult(after: map<MemoryId, Memory>, before: map<MemoryId, Memory>, done: seq<string>,
                            newId: string -> MemoryId, mode: string, context: string, metadata: map<string, string>,
                            tokens: TokenCount, now: Timestamp)
  {
    && (forall c :: c in done ==>
          newId(c) in after &&
          after[newId(c)] == UmbMemory(newId(c), c, mode, context, metadata, tokens, now))
    && (forall k :: k in before && (forall c :: c in done ==> k != newId(c)) ==> k in after && after[k] == before[k])
    && (forall k :: k in after ==> k in before || exists c :: c in done && k == newId(c))
  }

  /**
   * What a UMB command leaves in the repository: under the id of every
   * category that succeeded, the new memory of that category; every other
   * earlier memory as it was; and no other key.
   */
  lemma {:induction false} UmbStoresContents(before: map<MemoryId, Memory>, cats: seq<string>, n: nat, durable: bool,
                                             fault: string -> Option<StorageError>, newId: string -> MemoryId,
                                             mode: string, context: string, metadata: map<string, string>,
                                             tokens: TokenCount, now: Timestamp)
    requires n <= |cats| && IdsApart(cats, newId)
    ensures UmbResult(UmbStores(before, cats, n, durable, fault, newId, mode, context, metadata, tokens, now),
                      before, Succeeded(cats, n, durable, fault), newId, mode, context, metadata, tokens, now)
  {
    if n > 0 {
      UmbStoresContents(before, cats, n - 1, durable, fault, newId, mode, context, metadata, tokens, now);
      var last := cats[n - 1];
      var prevDone := Succeeded(cats, n - 1, durable, fault);
      if !(durable && fault(last).Some?) {
        SucceededMembers(cats, n - 1, durable, fault);
        forall c | c in prevDone && c != last
          ensures newId(c) != newId(last)
        {
          assert c in cats[..n - 1];
        }
        UmbResultExtend(UmbStores(before, cats, n - 1, durable, fault, newId, mode, context, metadata, tokens, now),
                        before, prevDone, last, newId, mode, context, metadata, tokens, now);
      }
    }
  }

  /** One more successful store keeps UmbResult, when its id differs from the earlier ones. */
  lemma UmbResultExtend(prev: map<MemoryId, Memory>, before: map<MemoryId, Memory>, prevDone: seq<string>, last: string,
                        newId: string -> MemoryId, mode: string, context: string, metadata: map<string, string>,
                        tokens: TokenCount, now: Timestamp)
    requires UmbResult(prev, before, prevDone, newId, mode, context, metadata, tokens, now)
    requires forall c :: c in prevDone && c != last ==> newId(c) != newId(last)
    ensures UmbResult(prev[newId(last) := UmbMemory(newId(last), last, mode, context, metadata, tokens, now)],
                      before, prevDone + [last], newId, mode, context, metadata, tokens, now)
  {
    var after := prev[newId(last) := UmbMemory(newId(last), last, mode, context, metadata, tokens, now)];
    var done := prevDone + [last];
    forall c | c in done
      ensures newId(c) in after && after[newId(c)] == UmbMemory(newId(c), c, mode, context, metadata, tokens, now)
    {
      if c != last {
        assert c in prevDone;
      }
    }
    forall k | k in before && (forall c :: c in done ==> k != newId(c))
      ensures k in after && after[k] == before[k]
    {
      assert forall c :: c in prevDone ==> c in done;
    }
    forall k | k in after
      ensures k in before || exists c :: c in done && k == newId(c)
    {
      if k == newId(last) {
        assert last in done;
      } else {
        assert k in prev;
        if k !in before {
          var c :| c in prevDone && k == newId(c);
          assert c in done;
        }
      }
    }
  }

  /** One store of the UMB command: the new memory's token count, or None when the store failed. */
  method UmbStoreOne(store: MemoryStore, category: string, mode: string, context: string,
                     metadata: map<string, string>, id: MemoryId, now: Timestamp, fault: Option<StorageError>)
    returns (tokens: Option<nat>)
    requires store.Valid()
    modifies store, store.repository
    ensures store.Valid()
    ensures tokens.None? <==> store.repository.durable && fault.Some?
    ensures tokens.Some? ==> tokens.value == CountTokens(store.tokenizer, context).count && id in store.repository.memories
    ensures forall k :: k in old(store.repository.memories) ==> k in store.repository.memories
    ensures tokens.Some? ==> store.repository.memories == old(store.repository.memories)[id :=
              NewMemory(id, context, BankContentType, Some(category), Some(mode), metadata, store.tokenizer, now)]
    ensures tokens.Some? ==> store.repository.memories == old(store.repository.memories)[id :=
              UmbMemory(id, category, mode, context, metadata, CountTokens(store.tokenizer, context), now)]
    ensures tokens.None? ==> store.repository.memories == old(store.repository.memories)
  {
    UmbMemoryIsNew(id, category, mode, context, metadata, store.tokenizer, now);
    var r := store.Store(context, BankContentType, Some(category), Some(mode), metadata, id, now, fault);
    match r
    case Ok(m) =>
      tokens := Some(m.tokenCount.AsUsize());
    case Err(_) =>
      tokens := None;
  }

  /**
   * One turn of the loop of `handle_umb_command`: store the context for
   * category `cats[i]` and, when that succeeds, count the store, add its
   * tokens and record the category. The turn takes the loop's state after
   * the first i categories to its state after i + 1.
   */
  method UmbStoreNext(store: MemoryStore, cats: seq<string>, i: nat, mode: string, context: string,
                      metadata: map<string, string>, newId: string -> MemoryId, now: Timestamp,
                      fault: string -> Option<StorageError>, ghost before: map<MemoryId, Memory>,
                      stored: nat, total: nat, categories: seq<string>)
    returns (stored': nat, total': nat, categories': seq<string>)
    requires store.Valid() && i < |cats|
    requires categories == Succeeded(cats, i, store.repository.durable, fault)
    requires stored == |categories| && total == Times(stored, CountTokens(store.tokenizer, context).count)
    requires store.repository.memories == UmbStores(before, cats, i, store.repository.durable, fault, newId, mode, context,
                                                    metadata, CountTokens(store.tokenizer, context), now)
    modifies store, store.repository
    ensures store.Valid()
    ensures categories' == Succeeded(cats, i + 1, store.repository.durable, fault)
    ensures stored' == |categories'| && total' == Times(stored', CountTokens(store.tokenizer, context).count)
    ensures store.repository.memories == UmbStores(before, cats, i + 1, store.repository.durable, fault, newId, mode, context,
                                                   metadata, CountTokens(store.tokenizer, context), now)
  {
    var category := cats[i];
    var tokens := UmbStoreOne(store, category, mode, context, metadata, newId(category), now, fault(category));
    if tokens.Some? {
      stored', total', categories' := stored + 1, total + tokens.value, categories + [category];
    } else {
      stored', total', categories' := stored, total, categories;
    }
  }

  /**
   * The loop of `handle_umb_command`: one store per category, counting the
   * successes and adding up their tokens.
   */
  method UmbStoreEach(store: MemoryStore, cats: seq<string>, mode: string, context: string, metadata: map<string, string>,
                      newId: string -> MemoryId, now: Timestamp, fault: string -> Option<StorageError>)
    returns (stored: nat, total: nat, categories: seq<string>)
    requires store.Valid()
    modifies store, store.repository
    ensures store.Valid()
    ensures categories == Succeeded(cats, |cats|, store.repository.durable, fault)
    ensures stored == |categories| && total == Times(stored, CountTokens(store.tokenizer, context).count)
    ensures store.repository.memories == UmbStores(old(store.repository.memories), cats, |cats|, store.repository.durable,
                                                   fault, newId, mode, context, metadata, CountTokens(store.tokenizer, context), now)
  {
    ghost var before := store.repository.memories;
    var count := CountTokens(store.tokenizer, context);
    var durable := store.repository.durable;
    stored, total, categories := 0, 0, [];
    for i := 0 to |cats|
      invariant store.Valid()
      invariant categories == Succeeded(cats, i, durable, fault)
      invariant stored == |categories| && total == Times(stored, count.count)
      invariant store.repository.memories == UmbStores(before, cats, i, durable, fault, newId, mode, context, metadata, count, now)
    {
      stored, total, categories := UmbStoreNext(store, cats, i, mode, context, metadata, newId, now, fault, before, stored, total, categories);
    }
  }

  /**
   * The stores of `handle_umb_command`: the succeeded categories, their
   * number and tokens, and the repository they leave (see UmbStoresContents).
   */
  method UmbStoreAll(store: MemoryStore, cats: seq<string>, mode: string, context: string, metadata: map<string, string>,
                     newId: string -> MemoryId, now: Timestamp, fault: string -> Option<StorageError>)
    returns (stored: nat, total: nat, categories: seq<string>)
    requires store.Valid()
    modifies store, store.repository
    ensures store.Valid()
    ensures categories == Succeeded(cats, |cats|, store.repository.durable, fault)
    ensures stored == |categories| && total == stored * CountTokens(store.tokenizer, context).count
    ensures forall k :: k in old(store.repository.memories) ==> k in store.repository.memories
    ensures forall c :: c in categories ==> newId(c) in store.repository.memories
    ensures store.repository.memories == UmbStores(old(store.repository.memories), cats, |cats|, store.repository.durable,
                                                   fault, newId, mode, context, metadata, CountTokens(store.tokenizer, context), now)
    ensures IdsApart(cats, newId) ==>
              UmbResult(store.repository.memories, old(store.repository.memories), categories,
                        newId, mode, context, metadata, CountTokens(store.tokenizer, context), now)
  {
    ghost var before := store.repository.memories;
    stored, total, categories := UmbStoreEach(store, cats, mode, context, metadata, newId, now, fault);
    var count := CountTokens(store.tokenizer, context);
    TimesIsProduct(stored, count.count);
    UmbStoresKeys(before, cats, |cats|, store.repository.durable, fault, newId, mode, context, metadata, count, now);
    if IdsApart(cats, newId) {
      UmbStoresContents(before, cats, |cats|, store.repository.durable, fault, newId, mode, context, metadata, count, now);
    }
  }

  /**
   * `handle_umb_command`: store the current context once per category, with
   * the mode and metadata; a failed store is skipped. The response counts
   * the stores that succeeded and their tokens; it is a success iff at
   * least one store succeeded.
   */
  method HandleUmb(store: MemoryStore, mode: string, context: string, metadata: map<string, string>,
                   newId: string -> MemoryId, now: Timestamp, fault: string -> Option<StorageError>)
    returns (resp: UmbResponse)
    requires store.Valid()
    modifies store, store.repository
    ensures store.Valid()
    ensures resp.categories == Succeeded(UmbCategories, |UmbCategories|, store.repository.durable, fault)
    ensures resp.storedMemories == |resp.categories| <= 3
    ensures resp.success <==> resp.storedMemories > 0
    ensures resp.totalTokens == AsU32(Times(resp.storedMemories, CountTokens(store.tokenizer, context).count))
    ensures resp.message == UmbMessage(resp.storedMemories, Times(resp.storedMemories, CountTokens(store.tokenizer, context).count))
    ensures forall k :: k in old(store.repository.memories) ==> k in store.repository.memories
    ensures forall c :: c in resp.categories ==> newId(c) in store.repository.memories
    ensures store.repository.memories == UmbStores(old(store.repository.memories), UmbCategories, |UmbCategories|,
                                                   store.repository.durable, fault, newId, mode, context, metadata,
                                                   CountTokens(store.tokenizer, context), now)
    ensures IdsApart(UmbCategories, newId) ==>
              UmbResult(store.repository.memories, old(store.repository.memories), resp.categories,
                        newId, mode, context, metadata, CountTokens(store.tokenizer, context), now)
  {
    var stored, total, categories := UmbStoreAll(store, UmbCategories, mode, context, metadata, newId, now, fault);
    TimesIsProduct(stored, CountTokens(store.tokenizer, context).count);
    resp := UmbResponse(stored > 0, stored, AsU32(total), categories, UmbMessage(stored, total));
  }
}
