/**
 * Relevance scoring (core/src/storage/context/relevance.rs): the score
 * clamp, the document-frequency table, the metadata part of a memory's score,
 * and the ordering of scored memories, best first.
 *
 * Scores are reals. The content part of a score (tf-idf with a logarithm, or
 * a recency decay read from the clock) is an input function `ContentScore`.
 */
module Relevance {
  import opened Text
  import opened Sums
  import opened Sorting
  import opened Memories

  /** `RelevanceScore::new`: clamp into [0, 1]. */
  function NewScore(x: real): (r: real)
    ensures 0.0 <= r <= 1.0
    ensures 0.0 <= x <= 1.0 ==> r == x
    ensures x < 0.0 ==> r == 0.0
    ensures x > 1.0 ==> r == 1.0
  {
    var atLeastZero := if x > 0.0 then x else 0.0;
    if atLeastZero < 1.0 then atLeastZero else 1.0
  }

  /** Clamping an already clamped score changes nothing. */
  lemma {:induction false} NewScoreIdempotent(x: real)
    ensures NewScore(NewScore(x)) == NewScore(x)
  {
  }

  /** `ScoredMemory`. */
  datatype ScoredMemory = ScoredMemory(memory: Memory, score: real)

  /** The sort key of a scored memory. */
  function ScoreOf(s: ScoredMemory): real {
    s.score
  }

  /** The terms of a text: its lower-cased whitespace-separated words. */
  function Terms(text: string): seq<string> {
    Words(Lower(text))
  }

  /** The distinct terms of a text. */
  function TermSet(text: string): set<string> {
    set t | t in Terms(text)
  }

  /** Number of memories among ms whose content has term t. */
  function DocCount(ms: seq<Memory>, t: string): (n: nat)
    ensures n <= |ms|
  {
    if ms == [] then 0
    else DocCount(ms[..|ms| - 1], t) + (if t in TermSet(ms[|ms| - 1].content) then 1 else 0)
  }

  /** Every term of every memory in ms. */
  function AllTerms(ms: seq<Memory>): set<string>
  {
    if ms == [] then {} else AllTerms(ms[..|ms| - 1]) + TermSet(ms[|ms| - 1].content)
  }

  /** A term is some memory's term exactly when some memory counts for it. */
  lemma {:induction false} AllTermsCounted(ms: seq<Memory>, t: string)
    ensures t in AllTerms(ms) <==> DocCount(ms, t) > 0
    decreases |ms|
  {
    if ms != [] {
      AllTermsCounted(ms[..|ms| - 1], t);
    }
  }

  /**
   * The document-frequency table: for every term of some memory, the number
   * of memories containing it; no entry for any other term.
   */
  ghost function DocumentFrequencies(ms: seq<Memory>): (df: map<string, nat>)
    ensures forall t :: t in df <==> DocCount(ms, t) > 0
    ensures forall t :: t in df ==> 1 <= df[t] == DocCount(ms, t) <= |ms|
  {
    forall t ensures t in AllTerms(ms) <==> DocCount(ms, t) > 0 {
      AllTermsCounted(ms, t);
    }
    map t | t in AllTerms(ms) :: DocCount(ms, t)
  }

  /** A table that agrees with DocCount at every term is the document-frequency table. */
  lemma {:induction false} FrequenciesAre(df: map<string, nat>, ms: seq<Memory>)
    requires forall t :: t in df <==> DocCount(ms, t) > 0
    requires forall t :: t in df ==> df[t] == DocCount(ms, t)
    ensures df == DocumentFrequencies(ms)
  {
  }

  /** The inner loop of `build_document_frequencies`: count one more document. */
  method AddDocument(df: map<string, nat>, terms: set<string>) returns (df': map<string, nat>)
    ensures forall t :: t in df' <==> t in df || t in terms
    ensures forall t :: t in df' ==> df'[t] == (if t in df then df[t] else 0) + (if t in terms then 1 else 0)
  {
    df' := df;
    var remaining := terms;
    while remaining != {}
      invariant remaining <= terms
      invariant forall t :: t in df' <==> t in df || t in terms - remaining
      invariant forall t :: t in df' ==> df'[t] == (if t in df then df[t] else 0) + (if t in terms - remaining then 1 else 0)
      decreases remaining
    {
      var t :| t in remaining;
      df' := df'[t := (if t in df' then df'[t] else 0) + 1];
      remaining := remaining - {t};
    }
  }

  /**
   * `build_document_frequencies`: collect each memory's distinct terms,
   * then count, for every term, the memories it occurs in.
   */
  method BuildDocumentFrequencies(memories: seq<Memory>) returns (df: map<string, nat>)
    ensures df == DocumentFrequencies(memories)
  {
    var documentTerms: seq<set<string>> := [];
    for i := 0 to |memories|
      invariant |documentTerms| == i
      invariant forall j :: 0 <= j < i ==> documentTerms[j] == TermSet(memories[j].content)
    {
      documentTerms := documentTerms + [TermSet(memories[i].content)];
    }
    df := map[];
    for i := 0 to |documentTerms|
      invariant forall t :: t in df <==> DocCount(memories[..i], t) > 0
      invariant forall t :: t in df ==> df[t] == DocCount(memories[..i], t)
    {
      assert memories[..i + 1][..i] == memories[..i];
      df := AddDocument(df, documentTerms[i]);
    }
    assert memories[..|memories|] == memories;
    FrequenciesAre(df, memories);
  }

  /** `TfIdfScorer { mode_weights }`: a weight table per mode. */
  datatype TfIdfScorer = TfIdfScorer(modeWeights: map<string, map<string, real>>)

  /** Four weights, each strictly between 0 and 1. */
  ghost predicate FourWeights(table: map<string, real>) {
    && |table| == 4
    && forall key :: key in table ==> 0.0 < table[key] < 1.0
  }

  /** The "code" mode's weights. */
  function CodeWeights(): (t: map<string, real>)
    ensures FourWeights(t)
  {
    var t := map["language" := 0.8, "file" := 0.6, "project" := 0.5, "source" := 0.3];
    assert t.Keys == {"language", "file", "project", "source"};
    t
  }

  /** The "architect" mode's weights. */
  function ArchitectWeights(): (t: map<string, real>)
    ensures FourWeights(t)
  {
    var t := map["project" := 0.8, "design" := 0.7, "architecture" := 0.7, "source" := 0.3];
    assert t.Keys == {"project", "design", "architecture", "source"};
    t
  }

  /** The "debug" mode's weights. */
  function DebugWeights(): (t: map<string, real>)
    ensures FourWeights(t)
  {
    var t := map["error" := 0.9, "language" := 0.7, "file" := 0.6, "project" := 0.5];
    assert t.Keys == {"error", "language", "file", "project"};
    t
  }

  /**
   * `TfIdfScorer::new` (and `Default`): tables for the modes "code",
   * "architect" and "debug", each with four weights between 0 and 1.
   */
  function NewScorer(): (s: TfIdfScorer)
    ensures s.modeWeights.Keys == {"code", "architect", "debug"}
    ensures forall mode :: mode in s.modeWeights ==> FourWeights(s.modeWeights[mode])
  {
    TfIdfScorer(map["code" := CodeWeights(), "architect" := ArchitectWeights(), "debug" := DebugWeights()])
  }

  /** The weight table for a mode: the mode's own, else the "code" table, else none. */
  function ModeTable(scorer: TfIdfScorer, mode: string): (table: map<string, real>)
    ensures mode in scorer.modeWeights ==> table == scorer.modeWeights[mode]
    ensures mode !in scorer.modeWeights && "code" in scorer.modeWeights ==> table == scorer.modeWeights["code"]
    ensures mode !in scorer.modeWeights && "code" !in scorer.modeWeights ==> table == map[]
  {
    var code := if "code" in scorer.modeWeights then scorer.modeWeights["code"] else map[];
    if mode in scorer.modeWeights then scorer.modeWeights[mode] else code
  }

  /** With the standard tables, an unknown mode is scored as "code". */
  lemma {:induction false} UnknownModeUsesCode(mode: string)
    requires mode != "code" && mode != "architect" && mode != "debug"
    ensures ModeTable(NewScorer(), mode) == ModeTable(NewScorer(), "code")
  {
  }

  /** The weight of a metadata key: the table's, or 0.1 for a key it lacks. */
  function WeightOf(table: map<string, real>, key: string): real {
    if key in table then table[key] else 0.1
  }

  /** The weight of each of the given keys. */
  function Weights(table: map<string, real>, keys: set<string>): (w: map<string, real>)
    ensures w.Keys == keys
  {
    map k | k in keys :: WeightOf(table, k)
  }

  /** `max(1, |table|)`, the divisor of the metadata score. */
  function TableSize(table: map<string, real>): (n: real)
    ensures n >= 1.0
  {
    if |table| > 1 then |table| as real else 1.0
  }

  /**
   * The metadata score of a memory: the sum of the weights of its metadata
   * keys, divided by the size of the mode's table (at least 1).
   */
  ghost function MetadataScoreOf(table: map<string, real>, metadata: map<string, string>): real {
    RealSumOver(Weights(table, metadata.Keys), metadata.Keys) / TableSize(table)
  }

  /** The metadata part of `calculate_tf_idf`: a sum over the metadata keys. */
  method MetadataScore(table: map<string, real>, metadata: map<string, string>) returns (score: real)
    ensures score == MetadataScoreOf(table, metadata)
  {
    ghost var weights := Weights(table, metadata.Keys);
    var rest := metadata.Keys;
    var sum := 0.0;
    while rest != {}
      invariant rest <= metadata.Keys
      invariant sum + RealSumOver(weights, rest) == RealSumOver(weights, metadata.Keys)
      decreases rest
    {
      var k :| k in rest;
      RealSumOverRemove(weights, rest, k);
      sum := sum + WeightOf(table, k);
      rest := rest - {k};
    }
    score := sum / TableSize(table);
  }

  /** A sum of weights in [0, 1] lies between 0 and the number of weights. */
  lemma {:induction false} RealSumOverBounds(w: map<string, real>, ks: set<string>)
    requires ks <= w.Keys
    requires forall k :: k in ks ==> 0.0 <= w[k] <= 1.0
    ensures 0.0 <= RealSumOver(w, ks) <= |ks| as real
    decreases ks
  {
    if ks != {} {
      var k :| k in ks;
      RealSumOverRemove(w, ks, k);
      RealSumOverBounds(w, ks - {k});
    }
  }

  /**
   * With weights in [0, 1], the metadata score is between 0 and the number
   * of metadata keys over the table size.
   */
  lemma {:induction false} MetadataScoreBounds(table: map<string, real>, metadata: map<string, string>)
    requires forall k :: k in table ==> 0.0 <= table[k] <= 1.0
    ensures 0.0 <= MetadataScoreOf(table, metadata) <= |metadata.Keys| as real / TableSize(table)
  {
    var w := Weights(table, metadata.Keys);
    assert forall k :: k in metadata.Keys ==> 0.0 <= w[k] <= 1.0;
    RealSumOverBounds(w, metadata.Keys);
    DivideBounds(RealSumOver(w, metadata.Keys), |metadata.Keys| as real, TableSize(table));
  }

  /** Dividing by a positive number keeps 0 <= a <= b. */
  lemma {:induction false} DivideBounds(a: real, b: real, n: real)
    requires 0.0 <= a <= b && n >= 1.0
    ensures 0.0 <= a / n <= b / n
  {
  }

  /**
   * The content part of a memory's score, given the document-frequency
   * table and the number of documents: tf-idf against the query, or recency
   * when there is no query. Floating-point maths and the clock stay outside.
   */
  type ContentScore = (Memory, map<string, nat>, nat) -> real

  /** `calculate_tf_idf`: 70% content, 30% metadata, clamped. */
  ghost function Relevance(scorer: TfIdfScorer, m: Memory, mode: string, content: real): (r: real)
    ensures 0.0 <= r <= 1.0
  {
    NewScore(0.7 * content + 0.3 * MetadataScoreOf(ModeTable(scorer, mode), m.metadata))
  }

  /** Each memory paired with its score, in input order. */
  ghost function ScoredInOrder(scorer: TfIdfScorer, ms: seq<Memory>, mode: string, content: ContentScore): (s: seq<ScoredMemory>)
    ensures |s| == |ms|
    ensures forall i :: 0 <= i < |s| ==> 0.0 <= s[i].score <= 1.0
  {
    var df := DocumentFrequencies(ms);
    var s := seq(|ms|, i requires 0 <= i < |ms| => ScoredMemory(ms[i], Relevance(scorer, ms[i], mode, content(ms[i], df, |ms|))));
    assert forall i :: 0 <= i < |s| ==> s[i].score == Relevance(scorer, ms[i], mode, content(ms[i], df, |ms|));
    s
  }

  /** The `map` step of `score_memories`: score every memory, in input order. */
  method ScoreEach(scorer: TfIdfScorer, memories: seq<Memory>, mode: string, content: ContentScore,
                   df: map<string, nat>) returns (unsorted: seq<ScoredMemory>)
    requires df == DocumentFrequencies(memories)
    ensures unsorted == ScoredInOrder(scorer, memories, mode, content)
  {
    ghost var expected := ScoredInOrder(scorer, memories, mode, content);
    unsorted := [];
    for i := 0 to |memories|
      invariant |unsorted| == i
      invariant forall j :: 0 <= j < i ==> unsorted[j] == expected[j]
    {
      var table := ModeTable(scorer, mode);
      var metadataScore := MetadataScore(table, memories[i].metadata);
      var score := NewScore(0.7 * content(memories[i], df, |memories|) + 0.3 * metadataScore);
      unsorted := unsorted + [ScoredMemory(memories[i], score)];
    }
  }

  /**
   * `score_memories`: one entry per input memory, scored, then sorted best
   * first by a stable sort, so equal scores keep their input order.
   */
  method ScoreMemories(scorer: TfIdfScorer, memories: seq<Memory>, mode: string, content: ContentScore)
    returns (scored: seq<ScoredMemory>)
    ensures scored == SortDesc(ScoredInOrder(scorer, memories, mode, content), ScoreOf)
    ensures |scored| == |memories|
    ensures multiset(scored) == multiset(ScoredInOrder(scorer, memories, mode, content))
    ensures SortedDesc(scored, ScoreOf)
    ensures forall v :: WithKey(scored, ScoreOf, v) == WithKey(ScoredInOrder(scorer, memories, mode, content), ScoreOf, v)
    ensures forall i :: 0 <= i < |scored| ==> 0.0 <= scored[i].score <= 1.0
  {
    var df := BuildDocumentFrequencies(memories);
    var unsorted := ScoreEach(scorer, memories, mode, content, df);
    scored := SortDesc(unsorted, ScoreOf);
    forall v
      ensures WithKey(scored, ScoreOf, v) == WithKey(unsorted, ScoreOf, v)
    {
      SortDescStable(unsorted, ScoreOf, v);
    }
    forall i | 0 <= i < |scored|
      ensures 0.0 <= scored[i].score <= 1.0
    {
      assert scored[i] in multiset(unsorted);
      var j :| 0 <= j < |unsorted| && unsorted[j] == scored[i];
    }
  }
}
