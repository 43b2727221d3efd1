/**
 * Memories and their storage (core/src/storage/memory.rs): the `Memory`
 * record, the map-backed repository behind the `MemoryRepository` trait, and
 * `MemoryStore`, a write-through cache in front of a repository.
 *
 * Clock readings and generated ids are inputs. A repository call either
 * succeeds or fails with the error its backend reports: the in-memory
 * repository never fails; a durable backend (whose SQL is outside the model)
 * fails exactly when the caller-supplied `fault` says so.
 */
module Memories {
  import opened Wrappers
  import opened Tokens
  import opened Sums
  import opened Sorting

  /** `MemoryId(String)`. */
  datatype MemoryId = MemoryId(value: string)

  /** A clock reading (`chrono::DateTime<Utc>`), as seconds. */
  type Timestamp = int

  /** `Memory`. */
  datatype Memory = Memory(
    id: MemoryId,
    content: string,
    contentType: string,
    category: Option<string>,
    mode: Option<string>,
    metadata: map<string, string>,
    tokenCount: TokenCount,
    createdAt: Timestamp,
    lastAccessed: Timestamp)
  {
    /** `Memory::touch`: only the access time changes. */
    function Touch(now: Timestamp): (m: Memory)
      ensures m.lastAccessed == now
      ensures SameExceptAccess(m, this)
    {
      this.(lastAccessed := now)
    }
  }

  /** The same record, up to the time of last access. */
  predicate SameExceptAccess(a: Memory, b: Memory) {
    a.(lastAccessed := 0) == b.(lastAccessed := 0)
  }

  /**
   * `Memory::new`, with the generated id and the clock reading as inputs:
   * the token count is the tokenizer's count of the content, and the memory
   * is created and last accessed at the same instant.
   */
  function NewMemory(id: MemoryId, content: string, contentType: string, category: Option<string>,
                     mode: Option<string>, metadata: map<string, string>, tokenizer: Tokenizer,
                     now: Timestamp): (m: Memory)
    ensures m.id == id && m.content == content && m.contentType == contentType
    ensures m.category == category && m.mode == mode && m.metadata == metadata
    ensures m.tokenCount == CountTokens(tokenizer, content)
    ensures m.createdAt == m.lastAccessed == now
  {
    Memory(id, content, contentType, category, mode, metadata, CountTokens(tokenizer, content), now, now)
  }

  /** The error a failing repository reports (`anyhow::Error`). */
  datatype StorageError = StorageError(message: string)

  /** The token count of every stored memory, by id. */
  ghost function TokenMap(ms: map<MemoryId, Memory>): (t: map<MemoryId, nat>)
    ensures t.Keys == ms.Keys
  {
    map k | k in ms :: ms[k].tokenCount.count
  }

  /**
   * A `MemoryRepository`. With `durable` false it is `InMemoryRepository`,
   * whose every call succeeds; with `durable` true every call fails with the
   * `fault` it is given, if any.
   */
  class Repository {
    var memories: map<MemoryId, Memory>
    const durable: bool

    /** Every memory is filed under its own id. */
    ghost predicate Valid()
      reads this
    {
      forall k :: k in memories ==> memories[k].id == k
    }

    /** The outcome of a call given the backend's fault. */
    function Outcome(fault: Option<StorageError>): Option<StorageError> {
      if durable then fault else None
    }

    /** `InMemoryRepository::new`: an empty map. */
    constructor InMemory()
      ensures Valid() && memories == map[] && !durable
    {
      memories := map[];
      durable := false;
    }

    /** A durable repository opened on existing contents. */
    constructor Opened(stored: map<MemoryId, Memory>)
      requires forall k :: k in stored ==> stored[k].id == k
      ensures Valid() && memories == stored && durable
    {
      memories := stored;
      durable := true;
    }

    /** `store`: insert or replace the memory under its id. */
    method Store(m: Memory, fault: Option<StorageError>) returns (r: Result<(), StorageError>)
      requires Valid()
      modifies this
      ensures Valid()
      ensures Outcome(fault).None? ==> r.Ok? && memories == old(memories)[m.id := m]
      ensures Outcome(fault).Some? ==> r == Err(Outcome(fault).value) && memories == old(memories)
    {
      match Outcome(fault)
      case Some(e) =>
        r := Err(e);
      case None =>
        memories := memories[m.id := m];
        r := Ok(());
    }

    /** `retrieve`: the memory stored under id, if any. */
    method Retrieve(id: MemoryId, fault: Option<StorageError>) returns (r: Result<Option<Memory>, StorageError>)
      ensures Outcome(fault).None? ==> r == Ok(if id in memories then Some(memories[id]) else None)
      ensures Outcome(fault).Some? ==> r == Err(Outcome(fault).value)
    {
      match Outcome(fault)
      case Some(e) =>
        r := Err(e);
      case None =>
        r := Ok(if id in memories then Some(memories[id]) else None);
    }

    /** `touch`: refresh the access time of a stored memory; an absent id is a no-op. */
    method Touch(id: MemoryId, now: Timestamp, fault: Option<StorageError>) returns (r: Result<(), StorageError>)
      requires Valid()
      modifies this
      ensures Valid()
      ensures Outcome(fault).None? ==> r.Ok?
      ensures Outcome(fault).None? && id in old(memories) ==> memories == old(memories)[id := old(memories)[id].Touch(now)]
      ensures Outcome(fault).None? && id !in old(memories) ==> memories == old(memories)
      ensures Outcome(fault).Some? ==> r == Err(Outcome(fault).value) && memories == old(memories)
    {
      match Outcome(fault)
      case Some(e) =>
        r := Err(e);
      case None =>
        if id in memories {
          memories := memories[id := memories[id].Touch(now)];
        }
        r := Ok(());
    }

    /** `get_all_ids`: every stored id exactly once, in no particular order. */
    method GetAllIds(fault: Option<StorageError>) returns (r: Result<seq<MemoryId>, StorageError>)
      ensures Outcome(fault).None? ==> r.Ok? && Distinct(r.value) && forall k :: k in r.value <==> k in memories
      ensures Outcome(fault).Some? ==> r == Err(Outcome(fault).value)
    {
      if Outcome(fault).Some? {
        return Err(Outcome(fault).value);
      }
      var rest := memories.Keys;
      var ids := [];
      while rest != {}
        invariant rest <= memories.Keys
        invariant Distinct(ids)
        invariant forall k :: k in ids <==> k in memories && k !in rest
        decreases rest
      {
        var k :| k in rest;
        ids := ids + [k];
        rest := rest - {k};
      }
      r := Ok(ids);
    }

    /** `total_tokens`: the sum of the token counts of all stored memories. */
    method TotalTokens(fault: Option<StorageError>) returns (r: Result<TokenCount, StorageError>)
      ensures Outcome(fault).None? ==> r.Ok? && r.value.count == Total(TokenMap(memories))
      ensures Outcome(fault).Some? ==> r == Err(Outcome(fault).value)
    {
      if Outcome(fault).Some? {
        return Err(Outcome(fault).value);
      }
      ghost var tokens := TokenMap(memories);
      var rest := memories.Keys;
      var total := TokenCount(0);
      while rest != {}
        invariant rest <= memories.Keys
        invariant total.count + SumOver(tokens, rest) == Total(tokens)
        decreases rest
      {
        var k :| k in rest;
        SumOverRemove(tokens, rest, k);
        total := total.Add(memories[k].tokenCount);
        rest := rest - {k};
      }
      r := Ok(total);
    }
  }

  /**
   * `MemoryStore`: a repository plus a cache of the memories this store has
   * written or read. The cache is write-through: every cached memory is also
   * in the repository, identical up to its access time.
   */
  class MemoryStore {
    const repository: Repository
    const tokenizer: Tokenizer
    var cache: map<MemoryId, Memory>

    ghost predicate Valid()
      reads this, repository
    {
      && repository.Valid()
      && (forall k :: k in cache ==> cache[k].id == k)
      && (forall k :: k in cache ==> k in repository.memories && SameExceptAccess(cache[k], repository.memories[k]))
    }

    /** `MemoryStore::new_in_memory`. */
    constructor NewInMemory(tokenizer: Tokenizer)
      ensures Valid() && fresh(repository)
      ensures repository.memories == map[] && !repository.durable && cache == map[]
      ensures this.tokenizer.kind == tokenizer.kind && this.tokenizer.model == tokenizer.model
    {
      repository := new Repository.InMemory();
      this.tokenizer := tokenizer;
      cache := map[];
    }

    /** `MemoryStore::new_sqlite`, given the repository the database was opened as. */
    constructor NewDurable(repository: Repository, tokenizer: Tokenizer)
      requires repository.Valid()
      ensures Valid() && this.repository == repository && cache == map[]
      ensures this.tokenizer.kind == tokenizer.kind && this.tokenizer.model == tokenizer.model
    {
      this.repository := repository;
      this.tokenizer := tokenizer;
      cache := map[];
    }

    /**
     * `store`: build the memory (with the generated id and the clock
     * reading given), write it to the repository, and only if that
     * succeeds put it in the cache too.
     */
    method Store(content: string, contentType: string, category: Option<string>, mode: Option<string>,
                 metadata: map<string, string>, id: MemoryId, now: Timestamp, fault: Option<StorageError>)
      returns (r: Result<Memory, StorageError>)
      requires Valid()
      modifies this, repository
      ensures Valid()
      ensures var m := NewMemory(id, content, contentType, category, mode, metadata, tokenizer, now);
              repository.Outcome(fault).None? ==>
                && r == Ok(m)
                && repository.memories == old(repository.memories)[id := m]
                && cache == old(cache)[id := m]
      ensures repository.Outcome(fault).Some? ==>
                && r == Err(repository.Outcome(fault).value)
                && repository.memories == old(repository.memories)
                && cache == old(cache)
    {
      var m := NewMemory(id, content, contentType, category, mode, metadata, tokenizer, now);
      var stored := repository.Store(m, fault);
      match stored
      case Err(e) =>
        r := Err(e);
      case Ok(_) =>
        cache := cache[m.id := m];
        r := Ok(m);
    }

    /**
     * `retrieve`. On a cache hit the cached memory is touched, then the
     * repository's copy; a failure of the latter is reported, with the cache
     * already touched. On a miss the repository's memory (if any) is
     * returned as stored and cached.
     */
    method Retrieve(id: MemoryId, now: Timestamp, fault: Option<StorageError>)
      returns (r: Result<Option<Memory>, StorageError>)
      requires Valid()
      modifies this, repository
      ensures Valid()
      // hit
      ensures id in old(cache) ==>
                && cache == old(cache)[id := old(cache)[id].Touch(now)]
                && (repository.Outcome(fault).None? ==>
                      && r == Ok(Some(old(cache)[id].Touch(now)))
                      && repository.memories == old(repository.memories)[id := old(repository.memories)[id].Touch(now)])
                && (repository.Outcome(fault).Some? ==>
                      && r == Err(repository.Outcome(fault).value)
                      && repository.memories == old(repository.memories))
      // miss
      ensures id !in old(cache) ==>
                && repository.memories == old(repository.memories)
                && (repository.Outcome(fault).Some? ==> r == Err(repository.Outcome(fault).value) && cache == old(cache))
                && (repository.Outcome(fault).None? && id in repository.memories ==>
                      r == Ok(Some(repository.memories[id])) && cache == old(cache)[id := repository.memories[id]])
                && (repository.Outcome(fault).None? && id !in repository.memories ==>
                      r == Ok(None) && cache == old(cache))
      // whatever is returned is the stored memory, up to its access time
      ensures r.Ok? && r.value.Some? ==>
                && r.value.value.id == id
                && id in repository.memories
                && SameExceptAccess(r.value.value, repository.memories[id])
    {
      if id in cache {
        var touched := cache[id].Touch(now);
        cache := cache[id := touched];
        var t := repository.Touch(id, now, fault);
        match t
        case Err(e) =>
          r := Err(e);
        case Ok(_) =>
          r := Ok(Some(touched));
      } else {
        var found := repository.Retrieve(id, fault);
        match found
        case Err(e) =>
          r := Err(e);
        case Ok(None) =>
          r := Ok(None);
        case Ok(Some(m)) =>
          cache := cache[m.id := m];
          r := Ok(Some(m));
      }
    }

    /** `get_all_ids`: asks the repository; the cache is not consulted. */
    method GetAllIds(fault: Option<StorageError>) returns (r: Result<seq<MemoryId>, StorageError>)
      ensures repository.Outcome(fault).None? ==>
                r.Ok? && Distinct(r.value) && forall k :: k in r.value <==> k in repository.memories
      ensures repository.Outcome(fault).Some? ==> r == Err(repository.Outcome(fault).value)
    {
      r := repository.GetAllIds(fault);
    }

    /** `total_tokens`: asks the repository; the cache is not consulted. */
    method TotalTokens(fault: Option<StorageError>) returns (r: Result<TokenCount, StorageError>)
      ensures repository.Outcome(fault).None? ==> r.Ok? && r.value.count == Total(TokenMap(repository.memories))
      ensures repository.Outcome(fault).Some? ==> r == Err(repository.Outcome(fault).value)
    {
      r := repository.TotalTokens(fault);
    }
  }
}
