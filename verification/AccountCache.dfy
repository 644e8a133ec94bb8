/**
  The RPC account cache, used by one caller at a time: lookups, one batched
  fetch for the misses, and reassembly in request order.
*/
module AccountCache {
  import opened Common

  /** An account's contents; only its identity matters here. */
  datatype Account = Account(contents: nat)

  /** `None` records a known-missing account. */
  type Cache = map<Pubkey, Option<Account>>

  datatype CacheError = FailedToFetchAccount

  /** The keys a batch has to fetch, in order, duplicates included. */
  function Misses(cache: Cache, keys: seq<Pubkey>): seq<Pubkey> {
    if keys == [] then []
    else (if keys[0] in cache then [] else [keys[0]]) + Misses(cache, keys[1..])
  }

  /** Insert a batch response key by key; a duplicate key keeps its last answer. */
  function Filled(cache: Cache, keys: seq<Pubkey>, response: seq<Option<Account>>): Cache
    requires |keys| == |response|
  {
    if keys == [] then cache
    else Filled(cache, keys[..|keys| - 1], response[..|keys| - 1])[keys[|keys| - 1] := response[|keys| - 1]]
  }

  lemma {:induction false} MissesAppend(cache: Cache, keys: seq<Pubkey>, k: Pubkey)
    ensures Misses(cache, keys + [k]) == Misses(cache, keys) + (if k in cache then [] else [k])
  {
    if keys == [] {
      assert keys + [k] == [k];
      assert Misses(cache, [k]) == (if k in cache then [] else [k]) + Misses(cache, []);
    } else {
      MissesAppend(cache, keys[1..], k);
      assert (keys + [k])[1..] == keys[1..] + [k];
    }
  }

  lemma {:induction false} MissesAreUncached(cache: Cache, keys: seq<Pubkey>)
    ensures forall k :: k in Misses(cache, keys) <==> k in keys && k !in cache
  {
    if keys != [] {
      MissesAreUncached(cache, keys[1..]);
      assert keys == [keys[0]] + keys[1..];
    }
  }

  lemma {:induction false} FilledKeys(cache: Cache, keys: seq<Pubkey>, response: seq<Option<Account>>)
    requires |keys| == |response|
    ensures Filled(cache, keys, response).Keys == cache.Keys + set k | k in keys
    ensures forall k :: k in cache && k !in keys ==> Filled(cache, keys, response)[k] == cache[k]
    decreases |keys|
  {
    if keys != [] {
      var n := |keys| - 1;
      FilledKeys(cache, keys[..n], response[..n]);
      assert keys == keys[..n] + [keys[n]];
    }
  }

  /** A response that answers every key by `answer`. */
  predicate AnswersBy(keys: seq<Pubkey>, response: seq<Option<Account>>, answer: Pubkey -> Option<Account>) {
    |response| == |keys| && forall i :: 0 <= i < |keys| ==> response[i] == answer(keys[i])
  }

  /** After a batch answered key by key, each fetched key holds its answer and every other key what it held. */
  lemma {:induction false} FilledHoldsAnswers(cache: Cache, keys: seq<Pubkey>, response: seq<Option<Account>>,
                                              answer: Pubkey -> Option<Account>)
    requires AnswersBy(keys, response, answer)
    ensures forall k :: k in Filled(cache, keys, response) <==> k in cache || k in keys
    ensures forall k :: k in Filled(cache, keys, response) ==>
              Filled(cache, keys, response)[k] == if k in keys then answer(k) else cache[k]
    decreases |keys|
  {
    FilledKeys(cache, keys, response);
    if keys != [] {
      var n := |keys| - 1;
      FilledHoldsAnswers(cache, keys[..n], response[..n], answer);
      assert keys == keys[..n] + [keys[n]];
    }
  }

  /** The node answers the keys missing from the cache, if any, one by one with `answer`. */
  predicate NodeAnswers(cache: Cache, keys: seq<Pubkey>, rpc: seq<Pubkey> -> Option<seq<Option<Account>>>,
                        answer: Pubkey -> Option<Account>)
  {
    var misses := Misses(cache, keys);
    misses == [] || (rpc(misses).Some? && AnswersBy(misses, rpc(misses).value, answer))
  }

  /** What the cache comes to: old entries stay, the others are as the node answered. */
  ghost predicate Fetched(before: Cache, after: Cache, keys: seq<Pubkey>, answer: Pubkey -> Option<Account>) {
    && (forall k :: k in after <==> k in before || k in keys)
    && (forall k :: k in after ==> after[k] == if k in before then before[k] else answer(k))
  }

  lemma FetchedByBatch(before: Cache, after: Cache, keys: seq<Pubkey>, rpc: seq<Pubkey> -> Option<seq<Option<Account>>>,
                       answer: Pubkey -> Option<Account>)
    requires NodeAnswers(before, keys, rpc, answer)
    requires var misses := Misses(before, keys);
             if misses == [] then after == before
             else rpc(misses).Some? && |rpc(misses).value| == |misses| && after == Filled(before, misses, rpc(misses).value)
    ensures Fetched(before, after, keys, answer)
  {
    var misses := Misses(before, keys);
    MissesAreUncached(before, keys);
    if misses != [] {
      FilledHoldsAnswers(before, misses, rpc(misses).value, answer);
    } else {
      assert forall k :: k in keys ==> k in before by {
        forall k | k in keys
          ensures k in before
        {
          assert k !in misses;
        }
      }
    }
  }

  // --- whole histories ---

  /** A call together with what the RPC node answered, if it was asked; `None` is a failed request. */
  datatype Call =
    | GetAccount(key: Pubkey, response: Option<Account>)
    | GetAccounts(keys: seq<Pubkey>, batch: Option<seq<Option<Account>>>)
    | GetMultiple(keys: seq<Pubkey>)
    | ResetCache

  /** The node answers a batch key by key. */
  predicate Answered(cache: Cache, call: Call) {
    call.GetAccounts? && call.batch.Some? ==> |call.batch.value| == |Misses(cache, call.keys)|
  }

  function After(cache: Cache, call: Call): Cache
    requires Answered(cache, call)
  {
    match call
    case GetAccount(k, response) =>
      if k in cache || response.None? then cache else cache[k := response]
    case GetAccounts(keys, batch) =>
      if batch.None? then cache else Filled(cache, Misses(cache, keys), batch.value)
    case GetMultiple(_) => cache
    case ResetCache => map[]
  }

  /** What a call hands out for a key it found or fetched. */
  ghost predicate Reads(cache: Cache, call: Call, k: Pubkey, v: Option<Account>)
    requires Answered(cache, call)
  {
    match call
    case GetAccount(key, response) => k == key && k in After(cache, call) && v == After(cache, call)[k]
    case GetAccounts(keys, batch) =>
      && k in keys && (batch.Some? || Misses(cache, keys) == [])
      && k in After(cache, call) && v == After(cache, call)[k]
    case GetMultiple(keys) => k in keys && k in cache && v == cache[k]
    case ResetCache => false
  }

  ghost predicate Extends(small: Cache, large: Cache) {
    forall k :: k in small ==> k in large && large[k] == small[k]
  }

  lemma CallExtends(cache: Cache, call: Call)
    requires Answered(cache, call) && !call.ResetCache?
    ensures Extends(cache, After(cache, call))
  {
    if call.GetAccounts? && call.batch.Some? {
      var misses := Misses(cache, call.keys);
      MissesAreUncached(cache, call.keys);
      FilledKeys(cache, misses, call.batch.value);
    }
  }

  ghost predicate ValidHistory(cache: Cache, calls: seq<Call>)
    decreases |calls|
  {
    calls == [] || (Answered(cache, calls[0]) && !calls[0].ResetCache? && ValidHistory(After(cache, calls[0]), calls[1..]))
  }

  ghost function Final(cache: Cache, calls: seq<Call>): Cache
    requires ValidHistory(cache, calls)
    decreases |calls|
  {
    if calls == [] then cache else Final(After(cache, calls[0]), calls[1..])
  }

  /** The cache in front of call `i`. */
  ghost function Before(cache: Cache, calls: seq<Call>, i: nat): Cache
    requires ValidHistory(cache, calls) && i < |calls|
    ensures Answered(Before(cache, calls, i), calls[i])
    decreases i
  {
    if i == 0 then cache else Before(After(cache, calls[0]), calls[1..], i - 1)
  }

  lemma {:induction false} HistoryExtends(cache: Cache, calls: seq<Call>)
    requires ValidHistory(cache, calls)
    ensures Extends(cache, Final(cache, calls))
    decreases |calls|
  {
    if calls != [] {
      CallExtends(cache, calls[0]);
      HistoryExtends(After(cache, calls[0]), calls[1..]);
    }
  }

  lemma {:induction false} ReadIsFinal(cache: Cache, calls: seq<Call>, i: nat, k: Pubkey, v: Option<Account>)
    requires ValidHistory(cache, calls) && i < |calls| && Reads(Before(cache, calls, i), calls[i], k, v)
    ensures k in Final(cache, calls) && Final(cache, calls)[k] == v
    decreases i
  {
    if i == 0 {
      CallExtends(cache, calls[0]);
      HistoryExtends(After(cache, calls[0]), calls[1..]);
    } else {
      ReadIsFinal(After(cache, calls[0]), calls[1..], i - 1, k, v);
    }
  }

  /** Between resets, any two reads of a key agree, whatever the node answered in between. */
  lemma ReadsAgree(cache: Cache, calls: seq<Call>, i: nat, j: nat, k: Pubkey, v: Option<Account>, v': Option<Account>)
    requires ValidHistory(cache, calls) && i < |calls| && j < |calls|
    requires Reads(Before(cache, calls, i), calls[i], k, v) && Reads(Before(cache, calls, j), calls[j], k, v')
    ensures v == v'
  {
    ReadIsFinal(cache, calls, i, k, v);
    ReadIsFinal(cache, calls, j, k, v');
  }

  // --- the cache object ---

  class RpcClientCache {
    var cache: Cache

    constructor ()
      ensures cache == map[]
    {
      cache := map[];
    }

    method ResetCache()
      modifies this
      ensures cache == map[]
    {
      cache := map[];
    }

    /** `get_multiple`: cached values only, nothing fetched. */
    method GetMultiple(keys: seq<Pubkey>) returns (result: seq<Option<Account>>)
      ensures |result| == |keys|
      ensures forall i :: 0 <= i < |keys| ==> result[i] == if keys[i] in cache then cache[keys[i]] else None
      ensures forall i :: 0 <= i < |keys| && keys[i] in cache ==> Reads(cache, Call.GetMultiple(keys), keys[i], result[i])
    {
      result := [];
      for i := 0 to |keys|
        invariant |result| == i
        invariant forall j :: 0 <= j < i ==> result[j] == if keys[j] in cache then cache[keys[j]] else None
      {
        result := result + [if keys[i] in cache then cache[keys[i]] else None];
      }
    }

    /** `get_account`: a miss is fetched and cached; a failed or empty answer is not. */
    method GetAccount(key: Pubkey, rpc: Pubkey -> Option<Account>) returns (r: Result<Option<Account>, CacheError>)
      modifies this
      ensures key in old(cache) ==> r == Ok(old(cache)[key]) && cache == old(cache)
      ensures key !in old(cache) && rpc(key).None? ==> r == Err(FailedToFetchAccount) && cache == old(cache)
      ensures key !in old(cache) && rpc(key).Some? ==> r == Ok(rpc(key)) && cache == old(cache)[key := rpc(key)]
      ensures cache == After(old(cache), Call.GetAccount(key, rpc(key)))
      ensures r.Ok? ==> Reads(old(cache), Call.GetAccount(key, rpc(key)), key, r.value)
    {
      if key in cache {
        return Ok(cache[key]);
      }
      var response := rpc(key);
      if response.None? {
        return Err(FailedToFetchAccount);
      }
      cache := cache[key := response];
      return Ok(response);
    }

    /** First pass of `get_accounts`: cache hits into the result map, misses in order. */
    method SplitHits(keys: seq<Pubkey>) returns (misses: seq<Pubkey>, hits: Cache)
      ensures misses == Misses(cache, keys)
      ensures forall k :: k in hits ==> k in cache && hits[k] == cache[k]
      ensures forall k :: k in keys ==> k in hits || k in misses
    {
      misses, hits := [], map[];
      for i := 0 to |keys|
        invariant misses == Misses(cache, keys[..i])
        invariant forall k :: k in hits ==> k in cache && hits[k] == cache[k]
        invariant forall j :: 0 <= j < i ==> keys[j] in hits || keys[j] in misses
      {
        MissesAppend(cache, keys[..i], keys[i]);
        assert keys[..i + 1] == keys[..i] + [keys[i]];
        if keys[i] in cache {
          hits := hits[keys[i] := cache[keys[i]]];
        } else {
          misses := misses + [keys[i]];
        }
      }
      assert keys[..|keys|] == keys;
    }

    /** Second pass: every answer goes into the result map and the cache. */
    method StoreBatch(misses: seq<Pubkey>, response: seq<Option<Account>>, hits: Cache) returns (resultMap: Cache)
      requires |misses| == |response|
      requires forall k :: k in hits ==> k in cache && hits[k] == cache[k]
      modifies this
      ensures cache == Filled(old(cache), misses, response)
      ensures forall k :: k in resultMap ==> k in cache && resultMap[k] == cache[k]
      ensures forall k :: k in hits || k in misses ==> k in resultMap
    {
      resultMap := hits;
      for i := 0 to |misses|
        invariant cache == Filled(old(cache), misses[..i], response[..i])
        invariant forall k :: k in resultMap ==> k in cache && resultMap[k] == cache[k]
        invariant forall k :: k in hits ==> k in resultMap
        invariant forall j :: 0 <= j < i ==> misses[j] in resultMap
      {
        assert misses[..i + 1][..i] == misses[..i] && response[..i + 1][..i] == response[..i];
        resultMap := resultMap[misses[i] := response[i]];
        cache := cache[misses[i] := response[i]];
      }
      assert misses[..|misses|] == misses && response[..|misses|] == response;
    }

    /** Last pass: the result map read in request order; no lookup misses. */
    method Reassemble(keys: seq<Pubkey>, resultMap: Cache) returns (result: seq<Option<Account>>)
      requires forall k :: k in keys ==> k in resultMap
      ensures |result| == |keys| && forall i :: 0 <= i < |keys| ==> result[i] == resultMap[keys[i]]
    {
      result := [];
      for i := 0 to |keys|
        invariant |result| == i
        invariant forall j :: 0 <= j < i ==> result[j] == resultMap[keys[j]]
      {
        result := result + [resultMap[keys[i]]];
      }
    }

    /**
      `get_accounts`: results in request order and number, duplicates included;
      the reassembly lookup is always defined.
    */
    method GetAccounts(keys: seq<Pubkey>, rpc: seq<Pubkey> -> Option<seq<Option<Account>>>)
      returns (r: Result<seq<Option<Account>>, CacheError>)
      requires forall ks :: rpc(ks).Some? ==> |rpc(ks).value| == |ks|
      modifies this
      ensures r.Err? <==> (exists k :: k in keys && k !in old(cache)) && rpc(Misses(old(cache), keys)).None?
      ensures r.Err? ==> cache == old(cache)
      ensures r.Ok? ==> |r.value| == |keys| && forall i :: 0 <= i < |keys| ==> keys[i] in cache && r.value[i] == cache[keys[i]]
      ensures r.Ok? && Misses(old(cache), keys) == [] ==> cache == old(cache)
      ensures r.Ok? && Misses(old(cache), keys) != [] ==>
                cache == After(old(cache), Call.GetAccounts(keys, rpc(Misses(old(cache), keys))))
      ensures r.Ok? ==> forall answer: Pubkey -> Option<Account> :: NodeAnswers(old(cache), keys, rpc, answer) ==>
                && Fetched(old(cache), cache, keys, answer)
                && forall i :: 0 <= i < |keys| ==> r.value[i] == if keys[i] in old(cache) then old(cache)[keys[i]] else answer(keys[i])
      ensures r.Ok? ==> forall i :: 0 <= i < |keys| ==>
                Reads(old(cache), Call.GetAccounts(keys, rpc(Misses(old(cache), keys))), keys[i], r.value[i])
    {
      MissesAreUncached(cache, keys);
      assert Filled(cache, [], []) == cache;
      hide Misses, Filled, AnswersBy;
      var misses, resultMap := SplitHits(keys);
      assert misses != [] ==> misses[0] in misses;
      if misses != [] {
        var batch := rpc(misses);
        if batch.None? {
          return Err(FailedToFetchAccount);
        }
        resultMap := StoreBatch(misses, batch.value, resultMap);
      }
      var result := Reassemble(keys, resultMap);
      forall answer: Pubkey -> Option<Account> | NodeAnswers(old(cache), keys, rpc, answer)
        ensures Fetched(old(cache), cache, keys, answer)
      {
        FetchedByBatch(old(cache), cache, keys, rpc, answer);
      }
      return Ok(result);
    }
  }
}
