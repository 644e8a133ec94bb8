/**
  When concurrent reads of one key agree.  The schedules that keep them in
  agreement, whatever the chain does, are exactly those in which no client
  misses the key while another client's miss of it is still in flight.
*/
module CacheAgreement {
  import opened Common
  import opened AccountCache
  import opened CacheInterleaving

  /** The client has missed `k` and not yet stored it. */
  predicate InFlight(client: Client, k: Pubkey) {
    match client
    case Scanning(_, _, misses, _) => k in misses
    case AwaitingBatch(_, misses, _) => k in misses
    case Storing(_, misses, _, pos, _) => pos <= |misses| && k in misses[pos..]
    case AwaitingOne(key) => key == k
    case StoringOne(key, _) => key == k
    case _ => false
  }

  /** With this event client `c`, which had not missed `k` before, looks it up and misses. */
  predicate NewlyMisses(s: State, e: Event, k: Pubkey, c: nat) {
    k !in s.cache &&
    match e
    case CallGetAccount(d, key) => d == c && key == k && ClientOf(s, c).Idle?
    case LookUp(d) =>
      (match ClientOf(s, c)
       case Scanning(keys, pos, misses, _) => d == c && pos < |keys| && keys[pos] == k && k !in misses
       case _ => false)
    case _ => false
  }

  /** With this event a second client misses `k` while another one's miss is in flight. */
  ghost predicate Races(s: State, e: Event, k: Pubkey) {
    exists c, d :: c != d && NewlyMisses(s, e, k, c) && InFlight(ClientOf(s, d), k)
  }

  /** No step of the schedule races for `k`. */
  ghost predicate Guarded(s: State, events: seq<Event>, k: Pubkey)
    decreases |events|
  {
    events == [] || (!Races(s, events[0], k) && Guarded(Step(s, events[0]), events[1..], k))
  }

  predicate Resets(s: State, e: Event) {
    e.Reset? && forall c :: c in s.clients ==> s.clients[c].Idle?
  }

  predicate ResetFree(s: State, events: seq<Event>)
    decreases |events|
  {
    events == [] || (!Resets(s, events[0]) && ResetFree(Step(s, events[0]), events[1..]))
  }

  /** Client `c` has been given `v` for `k`; a cache-only lookup gives nothing for a key it does not find. */
  ghost predicate Reads(s: State, c: nat, k: Pubkey, v: Option<Account>) {
    match ClientOf(s, c)
    case Returned(keys, result) => Lists(keys, result, k, v)
    case Peeking(keys, seen) => v.Some? && Lists(keys, seen, k, v)
    case _ => false
  }

  ghost predicate Lists(keys: seq<Pubkey>, values: seq<Option<Account>>, k: Pubkey, v: Option<Account>) {
    exists i :: 0 <= i < |keys| && i < |values| && keys[i] == k && values[i] == v
  }

  /** Along the schedule, reads of `k` with no reset between them return the same. */
  ghost predicate AgreeThroughout(s: State, events: seq<Event>, k: Pubkey) {
    forall i, j, c, d, v, w ::
      && 0 <= i <= j <= |events| && ResetFree(Run(s, events[..i]), events[i..j])
      && Reads(Run(s, events[..i]), c, k, v) && Reads(Run(s, events[..j]), d, k, w)
      ==> v == w
  }

  // --- a guarded schedule keeps reads in agreement ---

  /** What a client knows about `k` is what the cache says; before `k` is cached nobody knows it. */
  ghost predicate ClientAgrees(cache: Cache, k: Pubkey, client: Client) {
    match client
    case Scanning(_, _, misses, found) => KnowsOnly(cache, k, found) && (k in cache ==> k !in misses)
    case AwaitingBatch(_, misses, found) => KnowsOnly(cache, k, found) && (k in cache ==> k !in misses)
    case Storing(_, misses, response, pos, found) =>
      && KnowsOnly(cache, k, found)
      && (k in cache ==> forall i :: pos <= i < |misses| && i < |response| && misses[i] == k ==> response[i] == cache[k])
    case AwaitingOne(key) => k in cache ==> key != k
    case StoringOne(key, _) => k in cache ==> key != k
    case Returned(keys, result) =>
      forall i :: 0 <= i < |keys| && i < |result| && keys[i] == k ==> k in cache && result[i] == cache[k]
    case Peeking(keys, seen) =>
      forall i :: 0 <= i < |keys| && i < |seen| && keys[i] == k && seen[i].Some? ==> k in cache && seen[i] == cache[k]
    case Idle => true
  }

  ghost predicate KnowsOnly(cache: Cache, k: Pubkey, found: Cache) {
    k in found ==> k in cache && found[k] == cache[k]
  }

  ghost predicate KeyInv(s: State, k: Pubkey) {
    && Inv(s)
    && (forall c :: c in s.clients ==> ClientAgrees(s.cache, k, s.clients[c]))
    && (k !in s.cache ==> forall c, d :: InFlight(ClientOf(s, c), k) && InFlight(ClientOf(s, d), k) ==> c == d)
  }

  /** The cached entry of `k`, if any, survives. */
  ghost predicate Keeps(cache: Cache, cache': Cache, k: Pubkey) {
    k in cache ==> k in cache' && cache'[k] == cache[k]
  }

  /** A client with nothing in flight for `k` does not care who else stores it. */
  lemma BystanderAgrees(cache: Cache, cache': Cache, k: Pubkey, client: Client)
    requires ClientAgrees(cache, k, client) && Keeps(cache, cache', k)
    requires (k in cache <==> k in cache') || !InFlight(client, k)
    ensures ClientAgrees(cache', k, client)
  {
    if client.Storing? && client.pos <= |client.misses| {
      forall i | client.pos <= i < |client.misses| && client.misses[i] == k
        ensures InFlight(client, k)
      {
        assert client.misses[client.pos..][i - client.pos] == k;
      }
    }
  }

  /** Replacing one client, and perhaps storing `k`, keeps the invariant when the new parts fit. */
  lemma UpdateKeepsKeyInv(s: State, k: Pubkey, cache: Cache, c: nat, client: Client)
    requires KeyInv(s, k) && Inv(With(s.(cache := cache), c, client))
    requires Keeps(s.cache, cache, k) && ClientAgrees(cache, k, client)
    requires k in cache && k !in s.cache ==> InFlight(ClientOf(s, c), k)
    requires k !in cache && InFlight(client, k) && !InFlight(ClientOf(s, c), k) ==>
               forall d :: d != c ==> !InFlight(ClientOf(s, d), k)
    ensures KeyInv(With(s.(cache := cache), c, client), k)
  {
    var s' := With(s.(cache := cache), c, client);
    forall d | d in s'.clients
      ensures ClientAgrees(cache, k, s'.clients[d])
    {
      if d != c {
        assert s'.clients[d] == s.clients[d] == ClientOf(s, d);
        BystanderAgrees(s.cache, cache, k, s.clients[d]);
      }
    }
    assert forall d :: d != c ==> ClientOf(s', d) == ClientOf(s, d);
    if k !in cache {
      forall a, b | InFlight(ClientOf(s', a), k) && InFlight(ClientOf(s', b), k)
        ensures a == b
      {
        assert a != c ==> InFlight(ClientOf(s, a), k);
        assert b != c ==> InFlight(ClientOf(s, b), k);
      }
    }
  }

  lemma LookUpKeepsKeyInv(s: State, k: Pubkey, c: nat)
    requires KeyInv(s, k) && !Races(s, LookUp(c), k)
    ensures KeyInv(Step(s, LookUp(c)), k)
  {
    match ClientOf(s, c)
    case Scanning(keys, pos, misses, found) =>
      if pos < |keys| {
        StepKeepsInv(s, LookUp(c));
        assert !InFlight(ClientOf(s, c), k) && InFlight(Step(s, LookUp(c)).clients[c], k) ==> NewlyMisses(s, LookUp(c), k, c);
        UpdateKeepsKeyInv(s, k, s.cache, c, Step(s, LookUp(c)).clients[c]);
      }
    case _ =>
  }

  lemma CallKeepsKeyInv(s: State, k: Pubkey, c: nat, key: Pubkey)
    requires KeyInv(s, k) && !Races(s, CallGetAccount(c, key), k)
    ensures KeyInv(Step(s, CallGetAccount(c, key)), k)
  {
    var e := CallGetAccount(c, key);
    if ClientOf(s, c).Idle? {
      StepKeepsInv(s, e);
      var next := if key in s.cache then Returned([key], [s.cache[key]]) else AwaitingOne(key);
      assert Step(s, e) == With(s.(cache := s.cache), c, next);
      assert InFlight(next, k) ==> NewlyMisses(s, e, k, c);
      hide Step, Inv, ClientOk;
      UpdateKeepsKeyInv(s, k, s.cache, c, next);
    }
  }

  /** A fetched batch is still in flight for what it missed, and knows nothing new yet. */
  lemma FetchedAgrees(cache: Cache, k: Pubkey, keys: seq<Pubkey>, misses: seq<Pubkey>, found: Cache, response: seq<Option<Account>>)
    requires |response| == |misses| && ClientAgrees(cache, k, AwaitingBatch(keys, misses, found))
    ensures ClientAgrees(cache, k, Storing(keys, misses, response, 0, found))
    ensures InFlight(Storing(keys, misses, response, 0, found), k) <==> InFlight(AwaitingBatch(keys, misses, found), k)
  {
    assert misses[0..] == misses;
  }

  lemma FetchKeepsKeyInv(s: State, k: Pubkey, c: nat)
    requires KeyInv(s, k)
    ensures KeyInv(Step(s, FetchBatch(c)), k)
  {
    StepKeepsInv(s, FetchBatch(c));
    var s' := Step(s, FetchBatch(c));
    match ClientOf(s, c)
    case AwaitingBatch(keys, misses, found) =>
      var next := ClientOf(s', c);
      assert s' == With(s.(cache := s.cache), c, next);
      assert next.Storing? && |next.response| == |misses| && next == Storing(keys, misses, next.response, 0, found);
      hide Step, ClientAgrees, InFlight, Inv;
      FetchedAgrees(s.cache, k, keys, misses, found, next.response);
      UpdateKeepsKeyInv(s, k, s.cache, c, next);
    case _ =>
  }

  lemma FetchOneKeepsKeyInv(s: State, k: Pubkey, c: nat)
    requires KeyInv(s, k)
    ensures KeyInv(Step(s, FetchOne(c)), k)
  {
    StepKeepsInv(s, FetchOne(c));
    var s' := Step(s, FetchOne(c));
    match ClientOf(s, c)
    case AwaitingOne(key) =>
      var next := ClientOf(s', c);
      assert s' == With(s.(cache := s.cache), c, next) && (next.Idle? || (next.StoringOne? && next.key == key));
      hide Step, Inv, ClientOk;
      assert ClientAgrees(s.cache, k, ClientOf(s, c));
      UpdateKeepsKeyInv(s, k, s.cache, c, next);
    case _ =>
  }

  /** A client becoming idle takes nothing along. */
  lemma IdleKeepsKeyInv(s: State, k: Pubkey, c: nat)
    requires KeyInv(s, k)
    ensures KeyInv(With(s, c, Idle), k)
  {
    UpdateKeepsInv(s, s.cache, c, Idle);
    UpdateKeepsKeyInv(s, k, s.cache, c, Idle);
  }

  lemma CallBatchKeepsKeyInv(s: State, k: Pubkey, c: nat, keys: seq<Pubkey>)
    requires KeyInv(s, k)
    ensures KeyInv(Step(s, CallGetAccounts(c, keys)), k)
  {
    StepKeepsInv(s, CallGetAccounts(c, keys));
    if ClientOf(s, c).Idle? { UpdateKeepsKeyInv(s, k, s.cache, c, Scanning(keys, 0, [], map[])); }
  }

  lemma CallPeekKeepsKeyInv(s: State, k: Pubkey, c: nat, keys: seq<Pubkey>)
    requires KeyInv(s, k)
    ensures KeyInv(Step(s, CallGetMultiple(c, keys)), k)
  {
    StepKeepsInv(s, CallGetMultiple(c, keys));
    if ClientOf(s, c).Idle? {
      UpdateKeepsKeyInv(s, k, s.cache, c, Peeking(keys, []));
    }
  }

  /** A lookup that only reads the cache learns what the cache says, or nothing. */
  lemma PeekAgrees(cache: Cache, k: Pubkey, keys: seq<Pubkey>, seen: seq<Option<Account>>, v: Option<Account>)
    requires |seen| < |keys| && ClientAgrees(cache, k, Peeking(keys, seen))
    requires v == if keys[|seen|] in cache then cache[keys[|seen|]] else None
    ensures ClientAgrees(cache, k, Peeking(keys, seen + [v]))
  {
  }

  lemma PeekKeepsKeyInv(s: State, k: Pubkey, c: nat)
    requires KeyInv(s, k)
    ensures KeyInv(Step(s, Peek(c)), k)
  {
    StepKeepsInv(s, Peek(c));
    match ClientOf(s, c)
    case Peeking(keys, seen) =>
      if |seen| < |keys| {
        var v := if keys[|seen|] in s.cache then s.cache[keys[|seen|]] else None;
        assert Step(s, Peek(c)) == With(s.(cache := s.cache), c, Peeking(keys, seen + [v]));
        PeekAgrees(s.cache, k, keys, seen, v);
        hide Step, Inv, ClientOk, ClientAgrees;
        UpdateKeepsKeyInv(s, k, s.cache, c, Peeking(keys, seen + [v]));
      }
    case _ =>
  }

  lemma QuietKeepsKeyInv(s: State, e: Event, k: Pubkey)
    requires KeyInv(s, k) && (e.ChainMoves? || e.Reset?)
    ensures KeyInv(Step(s, e), k)
  {
    StepKeepsInv(s, e);
    var s' := Step(s, e);
    assert forall c :: ClientOf(s', c) == ClientOf(s, c);
  }

  /** A client that has just stored an entry knows exactly what it stored. */
  lemma StoredAgrees(cache: Cache, k: Pubkey, client: Client, misses: seq<Pubkey>, response: seq<Option<Account>>, pos: nat)
    requires client.Storing? && client.misses == misses && client.response == response && client.pos == pos
    requires pos < |misses| == |response| && ClientAgrees(cache, k, client)
    requires forall i, j :: 0 <= i < |misses| && 0 <= j < |misses| && misses[i] == misses[j] ==> response[i] == response[j]
    ensures Keeps(cache, cache[misses[pos] := response[pos]], k)
    ensures ClientAgrees(cache[misses[pos] := response[pos]], k,
                         Storing(client.keys, misses, response, pos + 1, client.found[misses[pos] := response[pos]]))
    ensures misses[pos] == k ==> InFlight(client, k)
    ensures InFlight(Storing(client.keys, misses, response, pos + 1, client.found[misses[pos] := response[pos]]), k) ==>
              InFlight(client, k)
  {
    assert misses[pos..] == [misses[pos]] + misses[pos + 1..];
  }

  lemma StoreKeepsKeyInv(s: State, k: Pubkey, c: nat)
    requires KeyInv(s, k)
    ensures KeyInv(Step(s, StoreNext(c)), k) && Keeps(s.cache, Step(s, StoreNext(c)).cache, k)
  {
    StepKeepsInv(s, StoreNext(c));
    match ClientOf(s, c)
    case Storing(keys, misses, response, pos, found) =>
      if pos < |misses| {
        assert ClientOk(s, ClientOf(s, c));
        StoredAgrees(s.cache, k, ClientOf(s, c), misses, response, pos);
        var cache, next := s.cache[misses[pos] := response[pos]], found[misses[pos] := response[pos]];
        assert Step(s, StoreNext(c)) == With(s.(cache := cache), c, Storing(keys, misses, response, pos + 1, next));
        hide Step, ClientAgrees, InFlight, Inv, ClientOk;
        UpdateKeepsKeyInv(s, k, cache, c, Storing(keys, misses, response, pos + 1, next));
      }
    case _ =>
  }

  lemma StoreOneKeepsKeyInv(s: State, k: Pubkey, c: nat)
    requires KeyInv(s, k)
    ensures KeyInv(Step(s, StoreOne(c)), k) && Keeps(s.cache, Step(s, StoreOne(c)).cache, k)
  {
    StepKeepsInv(s, StoreOne(c));
    match ClientOf(s, c)
    case StoringOne(key, v) =>
      var cache := s.cache[key := v];
      assert Step(s, StoreOne(c)) == With(s.(cache := cache), c, Returned([key], [v]));
      assert ClientAgrees(s.cache, k, ClientOf(s, c));
      hide Step, Inv, ClientOk;
      UpdateKeepsKeyInv(s, k, cache, c, Returned([key], [v]));
    case _ =>
  }

  /** Reassembled from what the client found, a result agrees with the cache. */
  lemma ReassembledAgrees(cache: Cache, k: Pubkey, keys: seq<Pubkey>, found: Cache)
    requires KnowsOnly(cache, k, found) && Reassembles(keys, found)
    ensures ClientAgrees(cache, k, Returned(keys, Reassemble(keys, found)))
  {
  }

  lemma FinishScanKeepsKeyInv(s: State, k: Pubkey, c: nat)
    requires KeyInv(s, k)
    ensures KeyInv(Step(s, FinishScan(c)), k)
  {
    StepKeepsInv(s, FinishScan(c));
    match ClientOf(s, c)
    case Scanning(keys, pos, misses, found) =>
      if pos >= |keys| {
        var next := Step(s, FinishScan(c)).clients[c];
        if misses == [] {
          assert Reassembles(keys, found);
          ReassembledAgrees(s.cache, k, keys, found);
        }
        UpdateKeepsKeyInv(s, k, s.cache, c, next);
      }
    case _ =>
  }

  lemma FinishStoreKeepsKeyInv(s: State, k: Pubkey, c: nat)
    requires KeyInv(s, k)
    ensures KeyInv(Step(s, FinishStore(c)), k)
  {
    StepKeepsInv(s, FinishStore(c));
    match ClientOf(s, c)
    case Storing(keys, misses, response, pos, found) =>
      if pos >= |misses| {
        assert Reassembles(keys, found);
        ReassembledAgrees(s.cache, k, keys, found);
        assert Step(s, FinishStore(c)) == With(s.(cache := s.cache), c, Returned(keys, Reassemble(keys, found)));
        hide Step, Inv, ClientOk, ClientAgrees, Reassemble;
        UpdateKeepsKeyInv(s, k, s.cache, c, Returned(keys, Reassemble(keys, found)));
      }
    case _ =>
  }

  /** Every step that does not race keeps the invariant, and all but a reset keep the entry of `k`. */
  lemma StepKeepsKeyInv(s: State, e: Event, k: Pubkey)
    requires KeyInv(s, k) && !Races(s, e, k)
    ensures KeyInv(Step(s, e), k)
    ensures !Resets(s, e) ==> Keeps(s.cache, Step(s, e).cache, k)
  {
    hide KeyInv, Races;
    match e
    case ChainMoves(_) => QuietKeepsKeyInv(s, e, k);
    case CallGetAccounts(c, keys) => CallBatchKeepsKeyInv(s, k, c, keys);
    case CallGetAccount(c, key) => CallKeepsKeyInv(s, k, c, key);
    case LookUp(c) => LookUpKeepsKeyInv(s, k, c);
    case FinishScan(c) => FinishScanKeepsKeyInv(s, k, c);
    case FetchBatch(c) => FetchKeepsKeyInv(s, k, c);
    case FetchOne(c) => FetchOneKeepsKeyInv(s, k, c);
    case RpcFails(c) => IdleKeepsKeyInv(s, k, c);
    case StoreNext(c) => StoreKeepsKeyInv(s, k, c);
    case FinishStore(c) => FinishStoreKeepsKeyInv(s, k, c);
    case StoreOne(c) => StoreOneKeepsKeyInv(s, k, c);
    case CallGetMultiple(c, keys) => CallPeekKeepsKeyInv(s, k, c, keys);
    case Peek(c) => PeekKeepsKeyInv(s, k, c);
    case Collect(c) => IdleKeepsKeyInv(s, k, c);
    case Reset => QuietKeepsKeyInv(s, e, k);
  }

  lemma {:induction false} RunKeepsKeyInv(s: State, events: seq<Event>, k: Pubkey)
    requires KeyInv(s, k) && Guarded(s, events, k)
    ensures KeyInv(Run(s, events), k)
    ensures ResetFree(s, events) ==> Keeps(s.cache, Run(s, events).cache, k)
    decreases |events|
  {
    hide Step;
    if events != [] {
      StepKeepsKeyInv(s, events[0], k);
      RunKeepsKeyInv(Step(s, events[0]), events[1..], k);
    }
  }

  /** A returned value is the cached one. */
  lemma ReadIsCached(s: State, c: nat, k: Pubkey, v: Option<Account>)
    requires KeyInv(s, k) && Reads(s, c, k, v)
    ensures k in s.cache && s.cache[k] == v
  {
  }

  lemma {:induction false} RunConcatenates(s: State, a: seq<Event>, b: seq<Event>)
    ensures Run(s, a + b) == Run(Run(s, a), b)
    decreases |a|
  {
    hide Step;
    if a == [] {
      assert a + b == b;
    } else {
      assert (a + b)[1..] == a[1..] + b;
      RunConcatenates(Step(s, a[0]), a[1..], b);
    }
  }

  lemma {:induction false} GuardConcatenates(s: State, a: seq<Event>, b: seq<Event>, k: Pubkey)
    ensures Guarded(s, a + b, k) <==> Guarded(s, a, k) && Guarded(Run(s, a), b, k)
    decreases |a|
  {
    hide Step, Races;
    if a == [] {
      assert a + b == b;
    } else {
      assert (a + b)[1..] == a[1..] + b;
      GuardConcatenates(Step(s, a[0]), a[1..], b, k);
    }
  }

  /** Under a guarded schedule any two reads of `k` between resets agree, whatever the chain does. */
  lemma GuardedReadsAgree(chain: Chain, events: seq<Event>, k: Pubkey)
    requires Guarded(Init(chain), events, k)
    ensures AgreeThroughout(Init(chain), events, k)
  {
    hide Run, Guarded, ResetFree, Reads;
    var s := Init(chain);
    assert KeyInv(s, k);
    hide KeyInv;
    forall i, j, c, d, v, w | 0 <= i <= j <= |events| && ResetFree(Run(s, events[..i]), events[i..j])
                              && Reads(Run(s, events[..i]), c, k, v) && Reads(Run(s, events[..j]), d, k, w)
      ensures v == w
    {
      assert events == events[..i] + events[i..j] + events[j..] && events[..j] == events[..i] + events[i..j];
      GuardConcatenates(s, events[..j], events[j..], k);
      GuardConcatenates(s, events[..i], events[i..j], k);
      RunConcatenates(s, events[..i], events[i..j]);
      RunKeepsKeyInv(s, events[..i], k);
      RunKeepsKeyInv(Run(s, events[..i]), events[i..j], k);
      ReadIsCached(Run(s, events[..i]), c, k, v);
      ReadIsCached(Run(s, events[..j]), d, k, w);
    }
  }

  // --- a race can always be driven apart ---

  /** The client's own next step. */
  function NextEvent(c: nat, client: Client): Event {
    match client
    case Scanning(keys, pos, _, _) => if pos < |keys| then LookUp(c) else FinishScan(c)
    case AwaitingBatch(_, _, _) => FetchBatch(c)
    case Storing(_, misses, _, pos, _) => if pos < |misses| then StoreNext(c) else FinishStore(c)
    case AwaitingOne(_) => FetchOne(c)
    case StoringOne(_, _) => StoreOne(c)
    case _ => Collect(c)
  }

  /** An upper bound on the steps left until the client returns. */
  function Work(client: Client): int {
    match client
    case Scanning(keys, pos, misses, _) => 2 * (|keys| - pos) + |misses| + 4
    case AwaitingBatch(_, misses, _) => |misses| + 3
    case Storing(_, misses, _, pos, _) => |misses| - pos + 2
    case AwaitingOne(_) => 2
    case StoringOne(_, _) => 1
    case _ => 0
  }

  /** Left alone from here, the client returns `v` for `k`. */
  ghost predicate WillReturn(s: State, client: Client, k: Pubkey, v: Option<Account>) {
    match client
    case Scanning(_, _, misses, _) => k in misses && OnChain(Now(s), k) == v
    case AwaitingBatch(_, misses, _) => k in misses && OnChain(Now(s), k) == v
    case Storing(keys, misses, response, pos, found) =>
      && k in keys && (k !in misses[Min(pos, |misses|)..] ==> k in found && found[k] == v)
      && forall i :: pos <= i < |misses| && i < |response| && misses[i] == k ==> response[i] == v
    case AwaitingOne(key) => key == k && OnChain(Now(s), k) == v && v.Some?
    case StoringOne(key, w) => key == k && w == v
    case Returned(keys, result) =>
      k in keys && |result| == |keys| && forall i :: 0 <= i < |keys| && keys[i] == k ==> result[i] == v
    case _ => false
  }

  /** A client in flight for `k` has its answer ahead of it, once the chain holds one. */
  lemma InFlightWillReturn(s: State, c: nat, k: Pubkey) returns (v: Option<Account>)
    requires Inv(s) && InFlight(ClientOf(s, c), k) && OnChain(Now(s), k).Some?
    ensures WillReturn(s, ClientOf(s, c), k, v)
  {
    v := OnChain(Now(s), k);
    match ClientOf(s, c)
    case Storing(keys, misses, response, pos, found) =>
      var i :| 0 <= i < |misses[pos..]| && misses[pos..][i] == k;
      assert misses[pos + i] == k;
      v := response[pos + i];
    case StoringOne(_, w) => v := w;
    case _ =>
  }

  /** What one solo step of a client leaves behind. */
  ghost predicate SoloStep(s: State, s': State, c: nat, k: Pubkey, v: Option<Account>) {
    && s'.history == s.history
    && (forall d :: d != c ==> ClientOf(s', d) == ClientOf(s, d))
    && WillReturn(s', ClientOf(s', c), k, v)
  }

  /** Replacing the client, and perhaps the cache, moves nothing else. */
  lemma SoloUpdate(s: State, cache: Cache, c: nat, client: Client, k: Pubkey, v: Option<Account>)
    requires WillReturn(With(s.(cache := cache), c, client), client, k, v)
    ensures ClientOf(With(s.(cache := cache), c, client), c) == client
    ensures SoloStep(s, With(s.(cache := cache), c, client), c, k, v)
  {
  }

  lemma ScanAdvances(s: State, c: nat, k: Pubkey, v: Option<Account>)
    requires Inv(s) && ClientOf(s, c).Scanning? && WillReturn(s, ClientOf(s, c), k, v)
    ensures var s' := Step(s, NextEvent(c, ClientOf(s, c)));
            SoloStep(s, s', c, k, v) && 0 <= Work(ClientOf(s', c)) < Work(ClientOf(s, c))
  {
    var s' := Step(s, NextEvent(c, ClientOf(s, c)));
    var client := ClientOf(s', c);
    assert ClientOk(s, ClientOf(s, c));
    hide Inv, ClientOk;
    assert s' == With(s.(cache := s.cache), c, client);
    assert WillReturn(s', client, k, v);
    hide SoloStep, WillReturn;
    SoloUpdate(s, s.cache, c, client, k, v);
  }

  lemma FetchAdvances(s: State, c: nat, k: Pubkey, v: Option<Account>)
    requires Inv(s) && ClientOf(s, c).AwaitingBatch? && WillReturn(s, ClientOf(s, c), k, v)
    ensures var s' := Step(s, NextEvent(c, ClientOf(s, c)));
            SoloStep(s, s', c, k, v) && 0 <= Work(ClientOf(s', c)) < Work(ClientOf(s, c))
  {
    assert ClientOf(s, c).misses[0..] == ClientOf(s, c).misses;
  }

  /** Storing one entry leaves the client's answer for `k` in place. */
  lemma StoredWillReturn(s: State, s': State, k: Pubkey, v: Option<Account>, keys: seq<Pubkey>, misses: seq<Pubkey>,
                         response: seq<Option<Account>>, pos: nat, found: Cache)
    requires pos < |misses| == |response| && WillReturn(s, Storing(keys, misses, response, pos, found), k, v)
    ensures WillReturn(s', Storing(keys, misses, response, pos + 1, found[misses[pos] := response[pos]]), k, v)
  {
    assert misses[pos..] == [misses[pos]] + misses[pos + 1..];
  }

  lemma ReassembledWillReturn(s: State, s': State, k: Pubkey, v: Option<Account>, keys: seq<Pubkey>, misses: seq<Pubkey>,
                              response: seq<Option<Account>>, pos: nat, found: Cache)
    requires pos >= |misses| && WillReturn(s, Storing(keys, misses, response, pos, found), k, v)
    ensures WillReturn(s', Returned(keys, Reassemble(keys, found)), k, v)
  {
    assert misses[|misses|..] == [];
  }

  lemma StoreAdvances(s: State, c: nat, k: Pubkey, v: Option<Account>)
    requires Inv(s) && ClientOf(s, c).Storing? && WillReturn(s, ClientOf(s, c), k, v)
    ensures var s' := Step(s, NextEvent(c, ClientOf(s, c)));
            SoloStep(s, s', c, k, v) && 0 <= Work(ClientOf(s', c)) < Work(ClientOf(s, c))
  {
    var Storing(keys, misses, response, pos, found) := ClientOf(s, c);
    assert ClientOk(s, ClientOf(s, c));
    var s' := Step(s, NextEvent(c, ClientOf(s, c)));
    hide WillReturn, Inv, ClientOk;
    if pos < |misses| {
      var cache, client := s.cache[misses[pos] := response[pos]],
                           Storing(keys, misses, response, pos + 1, found[misses[pos] := response[pos]]);
      assert s' == With(s.(cache := cache), c, client);
      hide Step, SoloStep;
      StoredWillReturn(s, s', k, v, keys, misses, response, pos, found);
      SoloUpdate(s, cache, c, client, k, v);
    } else {
      var client := Returned(keys, Reassemble(keys, found));
      assert s' == With(s.(cache := s.cache), c, client);
      hide Step, SoloStep;
      ReassembledWillReturn(s, s', k, v, keys, misses, response, pos, found);
      SoloUpdate(s, s.cache, c, client, k, v);
    }
  }

  lemma SingleAdvances(s: State, c: nat, k: Pubkey, v: Option<Account>)
    requires Inv(s) && (ClientOf(s, c).AwaitingOne? || ClientOf(s, c).StoringOne?) && WillReturn(s, ClientOf(s, c), k, v)
    ensures var s' := Step(s, NextEvent(c, ClientOf(s, c)));
            SoloStep(s, s', c, k, v) && 0 <= Work(ClientOf(s', c)) < Work(ClientOf(s, c))
  {
  }

  /** A client's own next step brings it closer to returning, races with nobody and moves nothing else. */
  lemma SoloAdvances(s: State, c: nat, k: Pubkey, v: Option<Account>)
    requires Inv(s) && WillReturn(s, ClientOf(s, c), k, v) && !ClientOf(s, c).Returned?
    ensures var e := NextEvent(c, ClientOf(s, c));
            var s' := Step(s, e);
            && Inv(s') && SoloStep(s, s', c, k, v) && 0 <= Work(ClientOf(s', c)) < Work(ClientOf(s, c))
            && !Races(s, e, k) && !e.Reset?
  {
    StepKeepsInv(s, NextEvent(c, ClientOf(s, c)));
    hide Step, Inv, SoloStep;
    match ClientOf(s, c)
    case Scanning(_, _, _, _) => ScanAdvances(s, c, k, v);
    case AwaitingBatch(_, _, _) => FetchAdvances(s, c, k, v);
    case Storing(_, _, _, _, _) => StoreAdvances(s, c, k, v);
    case _ => SingleAdvances(s, c, k, v);
  }

  /** Left alone, the client returns. */
  lemma {:induction false} SoloReturns(s: State, c: nat, k: Pubkey, v: Option<Account>) returns (tail: seq<Event>)
    requires Inv(s) && WillReturn(s, ClientOf(s, c), k, v) && Work(ClientOf(s, c)) >= 0
    ensures Guarded(s, tail, k) && ResetFree(s, tail)
    ensures Inv(Run(s, tail)) && SoloStep(s, Run(s, tail), c, k, v) && ClientOf(Run(s, tail), c).Returned?
    decreases Work(ClientOf(s, c))
  {
    hide Step, Inv, WillReturn, Races;
    tail := [];
    if !ClientOf(s, c).Returned? {
      SoloAdvances(s, c, k, v);
      var e := NextEvent(c, ClientOf(s, c));
      var s' := Step(s, e);
      var rest := SoloReturns(s', c, k, v);
      tail := [e] + rest;
      assert tail[1..] == rest;
    }
  }

  lemma ReturnedReads(s: State, c: nat, k: Pubkey, v: Option<Account>)
    requires ClientOf(s, c).Returned? && WillReturn(s, ClientOf(s, c), k, v)
    ensures Reads(s, c, k, v)
  {
    var i :| 0 <= i < |ClientOf(s, c).keys| && ClientOf(s, c).keys[i] == k;
  }

  /** A newly missing client is in flight afterwards and has not fetched yet. */
  lemma NewMissIsInFlight(s: State, e: Event, k: Pubkey, c: nat, d: nat)
    requires NewlyMisses(s, e, k, c) && c != d
    ensures ClientOf(Step(s, e), c).Scanning? || ClientOf(Step(s, e), c).AwaitingOne?
    ensures InFlight(ClientOf(Step(s, e), c), k)
    ensures ClientOf(Step(s, e), d) == ClientOf(s, d)
  {
  }

  /** A racing step leaves two clients in flight, one of which has not fetched yet. */
  lemma RaceStep(s: State, e: Event, k: Pubkey) returns (c: nat, d: nat)
    requires Inv(s) && Races(s, e, k)
    ensures var s' := Step(s, e);
            && Inv(s') && c != d && InFlight(ClientOf(s', c), k) && InFlight(ClientOf(s', d), k)
            && (ClientOf(s', c).Scanning? || ClientOf(s', c).AwaitingOne?)
  {
    hide Inv, Step, NewlyMisses, InFlight;
    StepKeepsInv(s, e);
    c, d :| c != d && NewlyMisses(s, e, k, c) && InFlight(ClientOf(s, d), k);
    NewMissIsInFlight(s, e, k, c, d);
  }

  lemma WorkIsNatural(s: State, c: nat)
    requires Inv(s)
    ensures Work(ClientOf(s, c)) >= 0
  {
    assert c in s.clients ==> ClientOk(s, s.clients[c]);
  }

  lemma ChainMoveSeen(s: State, chain: Chain, c: nat)
    ensures Now(Step(s, ChainMoves(chain))) == chain && ClientOf(Step(s, ChainMoves(chain)), c) == ClientOf(s, c)
  {
  }

  /**
    Two clients in flight for `k`, one of which has not fetched yet, can be made
    to return different values: the first finishes, the chain moves, the other
    finishes.
  */
  lemma RaceDiverges(s: State, k: Pubkey, c: nat, d: nat) returns (tail: seq<Event>, v: Option<Account>, w: Option<Account>)
    requires Inv(s) && c != d && InFlight(ClientOf(s, c), k) && InFlight(ClientOf(s, d), k)
    requires ClientOf(s, c).Scanning? || ClientOf(s, c).AwaitingOne?
    ensures Guarded(s, tail, k) && v != w && Reads(Run(s, tail), d, k, v) && Reads(Run(s, tail), c, k, w)
  {
    hide Inv, Step, Reads;
    var start := ChainMoves(map[k := Account(0)]);
    var s1 := Step(s, start);
    StepKeepsInv(s, start);
    ChainMoveSeen(s, start.chain, c);
    ChainMoveSeen(s, start.chain, d);
    v := InFlightWillReturn(s1, d, k);
    WorkIsNatural(s1, d);
    var first := SoloReturns(s1, d, k, v);
    var s2 := Run(s1, first);

    var b := Account(if v == Some(Account(1)) then 2 else 1);
    var move := ChainMoves(map[k := b]);
    var s3 := Step(s2, move);
    StepKeepsInv(s2, move);
    ChainMoveSeen(s2, move.chain, c);
    ChainMoveSeen(s2, move.chain, d);
    w := Some(b);
    assert WillReturn(s3, ClientOf(s3, c), k, w);
    WorkIsNatural(s3, c);
    var second := SoloReturns(s3, c, k, w);
    var s4 := Run(s3, second);
    ReturnedStays(s2, s4, d, k, v);
    ReturnedReads(s4, d, k, v);
    ReturnedReads(s4, c, k, w);

    tail := [start] + (first + ([move] + second));
    TailJoins(s, start, first, move, second, k);
  }

  lemma ReturnedStays(s: State, s': State, d: nat, k: Pubkey, v: Option<Account>)
    requires ClientOf(s, d).Returned? && WillReturn(s, ClientOf(s, d), k, v) && ClientOf(s', d) == ClientOf(s, d)
    ensures WillReturn(s', ClientOf(s', d), k, v)
  {
  }

  /** Two guarded solo runs with a chain move before each make one guarded run. */
  lemma TailJoins(s: State, start: Event, first: seq<Event>, move: Event, second: seq<Event>, k: Pubkey)
    requires start.ChainMoves? && move.ChainMoves?
    requires Guarded(Step(s, start), first, k)
    requires Guarded(Step(Run(Step(s, start), first), move), second, k)
    ensures Guarded(s, [start] + (first + ([move] + second)), k)
    ensures Run(s, [start] + (first + ([move] + second))) == Run(Step(Run(Step(s, start), first), move), second)
  {
    hide Step;
    var s1 := Step(s, start);
    var s2 := Run(s1, first);
    var rest := [move] + second;
    assert rest[1..] == second;
    assert Guarded(s2, rest, k) && Run(s2, rest) == Run(Step(s2, move), second);
    GuardConcatenates(s1, first, rest, k);
    RunConcatenates(s1, first, rest);
    var tail := [start] + (first + rest);
    assert tail[1..] == first + rest;
  }

  // --- exactly the guarded schedules ---

  lemma {:induction false} FindRace(s: State, events: seq<Event>, k: Pubkey) returns (n: nat)
    requires !Guarded(s, events, k)
    ensures n < |events| && Races(Run(s, events[..n]), events[n], k)
    decreases |events|
  {
    hide Step, Races;
    if Races(s, events[0], k) {
      n := 0;
    } else {
      var m := FindRace(Step(s, events[0]), events[1..], k);
      n := m + 1;
      assert events[..n][1..] == events[1..][..m];
    }
  }

  lemma InitInv(chain: Chain)
    ensures Inv(Init(chain))
  {
  }

  /** A schedule that races once can be continued, without racing again, to reads that differ. */
  lemma RacedReadsCanDiffer(chain: Chain, events: seq<Event>, k: Pubkey) returns (n: nat, tail: seq<Event>)
    requires !Guarded(Init(chain), events, k)
    ensures n <= |events| && Guarded(Run(Init(chain), events[..n]), tail, k)
    ensures !AgreeThroughout(Init(chain), events[..n] + tail, k)
  {
    hide Inv, Step, Run, Guarded, Reads, Races, InFlight, AgreeThroughout, Init;
    var s := Init(chain);
    InitInv(chain);
    var m := FindRace(s, events, k);
    var s0 := Run(s, events[..m]);
    RunKeepsInv(s, events[..m]);
    var c, d := RaceStep(s0, events[m], k);
    n := m + 1;
    assert events[..n] == events[..m] + [events[m]];
    RunConcatenates(s, events[..m], [events[m]]);
    RunOfOne(s0, events[m]);
    var v, w;
    tail, v, w := RaceDiverges(Run(s, events[..n]), k, c, d);
    RunConcatenates(s, events[..n], tail);
    DifferingReads(s, events[..n] + tail, k, d, c, v, w);
  }

  /** Different reads at the end of a schedule refute agreement along it. */
  lemma DifferingReads(s: State, all: seq<Event>, k: Pubkey, c: nat, d: nat, v: Option<Account>, w: Option<Account>)
    requires v != w && Reads(Run(s, all), c, k, v) && Reads(Run(s, all), d, k, w)
    ensures !AgreeThroughout(s, all, k)
  {
    hide Run, Reads;
    assert all[..|all|] == all && all[|all|..|all|] == [];
    assert ResetFree(Run(s, all), []);
  }

  lemma RunOfOne(s: State, e: Event)
    ensures Run(s, [e]) == Step(s, e)
  {
    assert [e][1..] == [];
    hide Step;
  }

  /**
    The exact condition for agreement: a schedule is guarded if and only if no
    guarded continuation of any part of it lets two reads of `k` differ.
  */
  lemma GuardedIffAgreeing(chain: Chain, events: seq<Event>, k: Pubkey)
    ensures Guarded(Init(chain), events, k) <==>
            forall n: nat, tail: seq<Event> :: n <= |events| && Guarded(Run(Init(chain), events[..n]), tail, k) ==>
              AgreeThroughout(Init(chain), events[..n] + tail, k)
  {
    hide Run, Guarded, AgreeThroughout;
    if Guarded(Init(chain), events, k) {
      forall n: nat, tail: seq<Event> | n <= |events| && Guarded(Run(Init(chain), events[..n]), tail, k)
        ensures AgreeThroughout(Init(chain), events[..n] + tail, k)
      {
        assert events == events[..n] + events[n..];
        GuardConcatenates(Init(chain), events[..n], events[n..], k);
        GuardConcatenates(Init(chain), events[..n], tail, k);
        GuardedReadsAgree(chain, events[..n] + tail, k);
      }
    } else {
      var n, tail := RacedReadsCanDiffer(chain, events, k);
    }
  }
}
