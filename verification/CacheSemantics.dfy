/**
  What the interleaved cache means: a call that nobody interrupts does in atomic
  steps what the sequential method promises, and after a reset only values the
  chain held from then on are returned.
*/
module CacheSemantics {
  import opened Common
  import opened AccountCache
  import opened CacheInterleaving
  import opened CacheAgreement

  function ChainAnswer(chain: Chain): Pubkey -> Option<Account> {
    k => OnChain(chain, k)
  }

  /** The cache has the old entries, and of the keys in `done` that were missing the node's answers. */
  ghost predicate Holds(before: Cache, after: Cache, done: seq<Pubkey>, answer: Pubkey -> Option<Account>) {
    && (forall k :: k in after <==> k in before || k in done)
    && (forall k :: k in after ==> after[k] == if k in before then before[k] else answer(k))
  }

  /** The misses of a scan are the keys seen so far that are not cached, the hits those that are. */
  ghost predicate Split(before: Cache, keys: seq<Pubkey>, misses: seq<Pubkey>, found: Cache) {
    && (forall k :: k in misses ==> k in keys && k !in before)
    && (forall k :: k in found ==> k in before && found[k] == before[k])
    && (forall k :: k in keys ==> k in found || k in misses)
  }

  /** The first `pos` answers are in the cache and among the results, the rest still to come. */
  ghost predicate StoredSoFar(before: Cache, cache: Cache, answer: Pubkey -> Option<Account>,
                              keys: seq<Pubkey>, misses: seq<Pubkey>, pos: nat, found: Cache)
  {
    && pos <= |misses| && (forall k :: k in misses ==> k in keys && k !in before)
    && Holds(before, cache, misses[..pos], answer)
    && (forall k :: k in found ==> k in cache && found[k] == cache[k])
    && (forall k :: k in keys ==> k in found || k in misses[pos..])
  }

  /** How far an uninterrupted batch call that began with cache `before` has come. */
  ghost predicate OnTrack(before: Cache, chain: Chain, s: State, keys: seq<Pubkey>, client: Client) {
    var answer := ChainAnswer(chain);
    match client
    case Scanning(ks, pos, misses, found) =>
      ks == keys && pos <= |keys| && s.cache == before && Split(before, keys[..pos], misses, found)
    case AwaitingBatch(ks, misses, found) => ks == keys && s.cache == before && Split(before, keys, misses, found)
    case Storing(ks, misses, response, pos, found) =>
      ks == keys && AnswersBy(misses, response, answer) && StoredSoFar(before, s.cache, answer, keys, misses, pos, found)
    case Returned(ks, result) =>
      && ks == keys && |result| == |keys| && Fetched(before, s.cache, keys, answer)
      && forall i :: 0 <= i < |keys| ==> result[i] == if keys[i] in before then before[keys[i]] else answer(keys[i])
    case _ => false
  }

  lemma ScanStays(before: Cache, s: State, c: nat, keys: seq<Pubkey>)
    requires ClientOf(s, c).Scanning? && OnTrack(before, Now(s), s, keys, ClientOf(s, c)) && ClientOf(s, c).pos < |keys|
    ensures var s' := Step(s, LookUp(c));
            OnTrack(before, Now(s), s', keys, ClientOf(s', c)) && Work(ClientOf(s', c)) < Work(ClientOf(s, c))
  {
    var client := ClientOf(s, c);
    assert keys[..client.pos + 1] == keys[..client.pos] + [keys[client.pos]];
  }

  lemma FinishScanStays(before: Cache, s: State, c: nat, keys: seq<Pubkey>)
    requires ClientOf(s, c).Scanning? && OnTrack(before, Now(s), s, keys, ClientOf(s, c)) && ClientOf(s, c).pos == |keys|
    ensures var s' := Step(s, FinishScan(c));
            OnTrack(before, Now(s), s', keys, ClientOf(s', c)) && Work(ClientOf(s', c)) < Work(ClientOf(s, c))
  {
    assert keys[..|keys|] == keys;
  }

  lemma FetchStays(before: Cache, s: State, c: nat, keys: seq<Pubkey>)
    requires ClientOf(s, c).AwaitingBatch? && OnTrack(before, Now(s), s, keys, ClientOf(s, c))
    ensures var s' := Step(s, FetchBatch(c));
            OnTrack(before, Now(s), s', keys, ClientOf(s', c)) && Work(ClientOf(s', c)) < Work(ClientOf(s, c))
  {
    var misses := ClientOf(s, c).misses;
    assert misses[0..] == misses && misses[..0] == [];
  }

  /** Storing the next answer extends what the cache holds by its key. */
  lemma StoredHolds(before: Cache, cache: Cache, misses: seq<Pubkey>, pos: nat, answer: Pubkey -> Option<Account>)
    requires pos < |misses| && misses[pos] !in before && Holds(before, cache, misses[..pos], answer)
    ensures Holds(before, cache[misses[pos] := answer(misses[pos])], misses[..pos + 1], answer)
    ensures forall k :: k in cache ==> cache[misses[pos] := answer(misses[pos])][k] == cache[k]
  {
    assert misses[..pos + 1] == misses[..pos] + [misses[pos]];
  }

  lemma StoringAdvances(before: Cache, cache: Cache, answer: Pubkey -> Option<Account>,
                        keys: seq<Pubkey>, misses: seq<Pubkey>, pos: nat, found: Cache)
    requires StoredSoFar(before, cache, answer, keys, misses, pos, found) && pos < |misses|
    ensures var k, v := misses[pos], answer(misses[pos]);
            StoredSoFar(before, cache[k := v], answer, keys, misses, pos + 1, found[k := v])
  {
    assert misses[pos] in misses;
    StoredHolds(before, cache, misses, pos, answer);
    assert misses[pos..] == [misses[pos]] + misses[pos + 1..];
    hide Holds;
  }

  lemma StoreStays(before: Cache, s: State, c: nat, keys: seq<Pubkey>)
    requires ClientOf(s, c).Storing? && OnTrack(before, Now(s), s, keys, ClientOf(s, c)) && ClientOf(s, c).pos < |ClientOf(s, c).misses|
    ensures var s' := Step(s, StoreNext(c));
            OnTrack(before, Now(s), s', keys, ClientOf(s', c)) && Work(ClientOf(s', c)) < Work(ClientOf(s, c))
  {
    var Storing(_, misses, response, pos, found) := ClientOf(s, c);
    var answer := ChainAnswer(Now(s));
    assert response[pos] == answer(misses[pos]);
    StoringAdvances(before, s.cache, answer, keys, misses, pos, found);
    hide StoredSoFar, ChainAnswer, AnswersBy;
  }

  lemma FinishStoreStays(before: Cache, s: State, c: nat, keys: seq<Pubkey>)
    requires ClientOf(s, c).Storing? && OnTrack(before, Now(s), s, keys, ClientOf(s, c)) && ClientOf(s, c).pos == |ClientOf(s, c).misses|
    ensures var s' := Step(s, FinishStore(c));
            OnTrack(before, Now(s), s', keys, ClientOf(s', c)) && Work(ClientOf(s', c)) < Work(ClientOf(s, c))
  {
    var Storing(_, misses, response, pos, found) := ClientOf(s, c);
    assert misses[..pos] == misses && misses[pos..] == [];
  }

  lemma StepKeepsChain(s: State, c: nat, client: Client)
    ensures Now(Step(s, NextEvent(c, client))) == Now(s)
  {
  }

  /** Left alone, a batch call on track returns on track. */
  lemma {:induction false} TrackEnds(before: Cache, s: State, c: nat, keys: seq<Pubkey>) returns (tail: seq<Event>)
    requires OnTrack(before, Now(s), s, keys, ClientOf(s, c)) && Work(ClientOf(s, c)) >= 0
    ensures var s' := Run(s, tail);
            ClientOf(s', c).Returned? && OnTrack(before, Now(s), s', keys, ClientOf(s', c))
    decreases Work(ClientOf(s, c))
  {
    tail := [];
    var client := ClientOf(s, c);
    if !client.Returned? {
      var e := NextEvent(c, client);
      if client.Scanning? {
        if client.pos < |keys| { ScanStays(before, s, c, keys); } else { FinishScanStays(before, s, c, keys); }
      } else if client.AwaitingBatch? {
        FetchStays(before, s, c, keys);
      } else if client.pos < |client.misses| {
        StoreStays(before, s, c, keys);
      } else {
        FinishStoreStays(before, s, c, keys);
      }
      StepKeepsChain(s, c, client);
      var s' := Step(s, e);
      TrackHasWork(before, Now(s'), s', keys, ClientOf(s', c));
      hide OnTrack, Step;
      var rest := TrackEnds(before, s', c, keys);
      tail := [e] + rest;
      assert tail[1..] == rest;
    }
  }

  lemma TrackHasWork(before: Cache, chain: Chain, s: State, keys: seq<Pubkey>, client: Client)
    requires OnTrack(before, chain, s, keys, client)
    ensures Work(client) >= 0
  {
  }

  /**
    An uninterrupted `get_accounts` over the interleaved cache returns, for each
    key in request order, the cached value or what the chain holds, and leaves
    exactly these in the cache: the contract of the sequential method.
  */
  lemma SoloBatchIsSequential(s: State, c: nat, keys: seq<Pubkey>) returns (tail: seq<Event>)
    requires ClientOf(s, c).Idle?
    ensures var s' := Run(s, [CallGetAccounts(c, keys)] + tail);
            var client := ClientOf(s', c);
            && client.Returned? && client.keys == keys && |client.result| == |keys|
            && Fetched(s.cache, s'.cache, keys, ChainAnswer(Now(s)))
            && forall i :: 0 <= i < |keys| ==>
                 client.result[i] == if keys[i] in s.cache then s.cache[keys[i]] else OnChain(Now(s), keys[i])
  {
    var start := Step(s, CallGetAccounts(c, keys));
    assert keys[..0] == [];
    assert OnTrack(s.cache, Now(s), start, keys, ClientOf(start, c)) && Now(start) == Now(s);
    tail := TrackEnds(s.cache, start, c, keys);
    assert ([CallGetAccounts(c, keys)] + tail)[1..] == tail;
  }

  /** So does an uninterrupted `get_account`; a missing account fails the call and stores nothing. */
  lemma SoloSingleIsSequential(s: State, c: nat, k: Pubkey)
    requires ClientOf(s, c).Idle?
    ensures var s' := Run(s, [CallGetAccount(c, k), FetchOne(c), StoreOne(c)]);
            if k in s.cache then s'.cache == s.cache && ClientOf(s', c) == Returned([k], [s.cache[k]])
            else if OnChain(Now(s), k).None? then s'.cache == s.cache && ClientOf(s', c).Idle?
            else s'.cache == s.cache[k := OnChain(Now(s), k)] && ClientOf(s', c) == Returned([k], [OnChain(Now(s), k)])
  {
    var s1 := Step(s, CallGetAccount(c, k));
    var s2 := Step(s1, FetchOne(c));
    var s3 := Step(s2, StoreOne(c));
    var events := [CallGetAccount(c, k), FetchOne(c), StoreOne(c)];
    assert Run(s, events) == s3 by {
      hide Step;
      RunFromEnd(s, events, 0);
      RunFromEnd(s1, events, 1);
      RunFromEnd(s2, events, 2);
      assert events[0..] == events && events[3..] == [];
    }
  }

  /** An uninterrupted `get_multiple` sees the cache as it is, in request order. */
  lemma {:induction false} SoloPeekIsSequential(s: State, c: nat, keys: seq<Pubkey>, seen: seq<Option<Account>>) returns (tail: seq<Event>)
    requires ClientOf(s, c) == Peeking(keys, seen) && |seen| <= |keys|
    requires forall i :: 0 <= i < |seen| ==> seen[i] == if keys[i] in s.cache then s.cache[keys[i]] else None
    ensures var s' := Run(s, tail);
            && s'.cache == s.cache && ClientOf(s', c).Peeking? && Finished(ClientOf(s', c)) && ClientOf(s', c).keys == keys
            && |ClientOf(s', c).seen| == |keys|
            && forall i :: 0 <= i < |keys| ==> ClientOf(s', c).seen[i] == if keys[i] in s.cache then s.cache[keys[i]] else None
    decreases |keys| - |seen|
  {
    tail := [];
    if |seen| < |keys| {
      var s' := Step(s, Peek(c));
      var more := seen + [if keys[|seen|] in s.cache then s.cache[keys[|seen|]] else None];
      assert ClientOf(s', c) == Peeking(keys, more) && s'.cache == s.cache;
      hide Step;
      var rest := SoloPeekIsSequential(s', c, keys, more);
      tail := [Peek(c)] + rest;
      assert tail[1..] == rest;
    }
  }

  /**
    A batch whose keys were all cached returns without asking the node; a failed
    request ends the call and leaves the cache alone; a finished call makes way
    for the next.
  */
  lemma CallsEnd(s: State, c: nat)
    ensures ClientOf(s, c).Scanning? && ClientOf(s, c).pos == |ClientOf(s, c).keys| && ClientOf(s, c).misses == [] ==>
              ClientOf(Step(s, FinishScan(c)), c).Returned? && Step(s, FinishScan(c)).cache == s.cache
    ensures ClientOf(s, c).AwaitingBatch? || ClientOf(s, c).AwaitingOne? ==>
              ClientOf(Step(s, RpcFails(c)), c).Idle? && Step(s, RpcFails(c)).cache == s.cache
    ensures ClientOf(s, c).Returned? ==> ClientOf(Step(s, Collect(c)), c).Idle? && Step(s, Collect(c)).cache == s.cache
    ensures ClientOf(s, c).Peeking? && |ClientOf(s, c).seen| == |ClientOf(s, c).keys| ==>
              ClientOf(Step(s, Collect(c)), c).Idle? && Step(s, Collect(c)).cache == s.cache
  {
  }

  // --- resets ---

  /** The chain states a schedule goes through. */
  function ChainsOf(events: seq<Event>): seq<Chain> {
    if events == [] then []
    else (if events[0].ChainMoves? then [events[0].chain] else []) + ChainsOf(events[1..])
  }

  lemma StepHistory(s: State, e: Event)
    requires !Resets(s, e)
    ensures Step(s, e).history == s.history + (if e.ChainMoves? then [e.chain] else [])
  {
  }

  /** Between resets the recorded history is where it started plus every chain state since. */
  lemma {:induction false} HistoryGrows(s: State, events: seq<Event>)
    requires ResetFree(s, events)
    ensures Run(s, events).history == s.history + ChainsOf(events)
    decreases |events|
  {
    hide Step, Resets;
    if events != [] {
      StepHistory(s, events[0]);
      HistoryGrows(Step(s, events[0]), events[1..]);
      var here := if events[0].ChainMoves? then [events[0].chain] else [];
      assert s.history + here + ChainsOf(events[1..]) == s.history + (here + ChainsOf(events[1..]));
    }
  }

  /**
    After a reset that found no call in flight, whatever a call returns was on
    chain at the reset or after it, under any interleaving.
  */
  lemma ReadsSinceReset(chain: Chain, before: seq<Event>, after: seq<Event>, c: nat, i: nat)
    requires var s := Run(Init(chain), before);
             && (forall d :: d in s.clients ==> s.clients[d].Idle?)
             && ResetFree(Step(s, Reset), after)
             && ClientOf(Run(Step(s, Reset), after), c).Returned?
             && i < |ClientOf(Run(Step(s, Reset), after), c).keys|
    ensures var s := Run(Init(chain), before);
            var client := ClientOf(Run(Step(s, Reset), after), c);
            && Step(s, Reset).cache == map[]
            && i < |client.result|
            && exists x :: x in [Now(s)] + ChainsOf(after) && client.result[i] == OnChain(x, client.keys[i])
  {
    var s := Run(Init(chain), before);
    InitInv(chain);
    RunKeepsInv(Init(chain), before);
    StepKeepsInv(s, Reset);
    var reset := Step(s, Reset);
    assert reset == State(map[], [Now(s)], s.clients);
    RunKeepsInv(reset, after);
    HistoryGrows(reset, after);
    var end := Run(reset, after);
    var client := ClientOf(end, c);
    assert ClientOk(end, client);
    assert Held(end, client.keys[i], client.result[i]);
    var j :| 0 <= j < |end.history| && OnChain(end.history[j], client.keys[i]) == client.result[i];
    assert end.history[j] in end.history;
  }
}
