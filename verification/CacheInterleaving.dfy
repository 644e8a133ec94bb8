/**
  The same cache shared by many clients: every lookup, fetch and insertion is
  one atomic step, the chain moves on between steps, and a reset needs exclusive
  access, so it finds no call in flight.
*/
module CacheInterleaving {
  import opened Common
  import opened AccountCache

  type Chain = map<Pubkey, Account>

  function OnChain(chain: Chain, k: Pubkey): Option<Account> {
    if k in chain then Some(chain[k]) else None
  }

  /** Where a client is in its call. */
  datatype Client =
    | Idle
    | Scanning(keys: seq<Pubkey>, pos: nat, misses: seq<Pubkey>, found: Cache)
    | AwaitingBatch(keys: seq<Pubkey>, misses: seq<Pubkey>, found: Cache)
    | Storing(keys: seq<Pubkey>, misses: seq<Pubkey>, response: seq<Option<Account>>, pos: nat, found: Cache)
    | AwaitingOne(key: Pubkey)
    | StoringOne(key: Pubkey, value: Option<Account>)
    | Returned(keys: seq<Pubkey>, result: seq<Option<Account>>)
    | Peeking(keys: seq<Pubkey>, seen: seq<Option<Account>>)

  /** `history` holds every chain state since the last reset; its last element is the present. */
  datatype State = State(cache: Cache, history: seq<Chain>, clients: map<nat, Client>)

  function Now(s: State): Chain {
    if s.history == [] then map[] else s.history[|s.history| - 1]
  }

  function ClientOf(s: State, c: nat): Client {
    if c in s.clients then s.clients[c] else Idle
  }

  datatype Event =
    | ChainMoves(chain: Chain)
    | CallGetAccounts(c: nat, keys: seq<Pubkey>)
    | CallGetAccount(c: nat, key: Pubkey)
    | LookUp(c: nat)
    | FinishScan(c: nat)
    | FetchBatch(c: nat)
    | FetchOne(c: nat)
    | RpcFails(c: nat)
    | StoreNext(c: nat)
    | FinishStore(c: nat)
    | StoreOne(c: nat)
    | CallGetMultiple(c: nat, keys: seq<Pubkey>)
    | Peek(c: nat)
    | Collect(c: nat)
    | Reset

  /** Results in request order; `Reassembles` says no lookup here is ever missing. */
  function Reassemble(keys: seq<Pubkey>, found: Cache): seq<Option<Account>> {
    seq(|keys|, i requires 0 <= i < |keys| => if keys[i] in found then found[keys[i]] else None)
  }

  ghost predicate Reassembles(keys: seq<Pubkey>, found: Cache) {
    forall k :: k in keys ==> k in found
  }

  /** The call is over and its result can be taken. */
  predicate Finished(client: Client) {
    client.Returned? || (client.Peeking? && |client.seen| >= |client.keys|)
  }

  function With(s: State, c: nat, client: Client): State {
    s.(clients := s.clients[c := client])
  }

  /** One atomic step; an event that does not apply leaves the state unchanged. */
  function Step(s: State, e: Event): State {
    match e
    case ChainMoves(chain) => s.(history := s.history + [chain])
    case CallGetAccounts(c, keys) => if ClientOf(s, c).Idle? then With(s, c, Scanning(keys, 0, [], map[])) else s
    case CallGetAccount(c, k) =>
      if !ClientOf(s, c).Idle? then s
      else if k in s.cache then With(s, c, Returned([k], [s.cache[k]]))
      else With(s, c, AwaitingOne(k))
    case LookUp(c) =>
      (match ClientOf(s, c)
       case Scanning(keys, pos, misses, found) =>
         if pos >= |keys| then s
         else if keys[pos] in s.cache
           then With(s, c, Scanning(keys, pos + 1, misses, found[keys[pos] := s.cache[keys[pos]]]))
           else With(s, c, Scanning(keys, pos + 1, misses + [keys[pos]], found))
       case _ => s)
    case FinishScan(c) =>
      (match ClientOf(s, c)
       case Scanning(keys, pos, misses, found) =>
         if pos < |keys| then s
         else if misses == [] then With(s, c, Returned(keys, Reassemble(keys, found)))
         else With(s, c, AwaitingBatch(keys, misses, found))
       case _ => s)
    case FetchBatch(c) =>
      (match ClientOf(s, c)
       case AwaitingBatch(keys, misses, found) =>
         var response := seq(|misses|, i requires 0 <= i < |misses| => OnChain(Now(s), misses[i]));
         With(s, c, Storing(keys, misses, response, 0, found))
       case _ => s)
    case FetchOne(c) =>
      (match ClientOf(s, c)
       case AwaitingOne(k) =>
         if OnChain(Now(s), k).None? then With(s, c, Idle) else With(s, c, StoringOne(k, OnChain(Now(s), k)))
       case _ => s)
    case RpcFails(c) =>
      if ClientOf(s, c).AwaitingBatch? || ClientOf(s, c).AwaitingOne? then With(s, c, Idle) else s
    case StoreNext(c) =>
      (match ClientOf(s, c)
       case Storing(keys, misses, response, pos, found) =>
         if pos >= |misses| || pos >= |response| then s
         else With(s.(cache := s.cache[misses[pos] := response[pos]]), c,
                   Storing(keys, misses, response, pos + 1, found[misses[pos] := response[pos]]))
       case _ => s)
    case FinishStore(c) =>
      (match ClientOf(s, c)
       case Storing(keys, misses, response, pos, found) =>
         if pos < |misses| then s else With(s, c, Returned(keys, Reassemble(keys, found)))
       case _ => s)
    case StoreOne(c) =>
      (match ClientOf(s, c)
       case StoringOne(k, v) => With(s.(cache := s.cache[k := v]), c, Returned([k], [v]))
       case _ => s)
    case CallGetMultiple(c, keys) => if ClientOf(s, c).Idle? then With(s, c, Peeking(keys, [])) else s
    case Peek(c) =>
      (match ClientOf(s, c)
       case Peeking(keys, seen) =>
         if |seen| >= |keys| then s
         else With(s, c, Peeking(keys, seen + [if keys[|seen|] in s.cache then s.cache[keys[|seen|]] else None]))
       case _ => s)
    case Collect(c) => if Finished(ClientOf(s, c)) then With(s, c, Idle) else s
    case Reset =>
      if forall c :: c in s.clients ==> s.clients[c].Idle? then State(map[], [Now(s)], s.clients) else s
  }

  function Init(chain: Chain): State {
    State(map[], [chain], map[])
  }

  function Run(s: State, events: seq<Event>): State
    decreases |events|
  {
    if events == [] then s else Run(Step(s, events[0]), events[1..])
  }

  // --- what every interleaving keeps ---

  /** The chain held `v` for `k` at some moment since the last reset. */
  ghost predicate Held(s: State, k: Pubkey, v: Option<Account>) {
    exists i :: 0 <= i < |s.history| && OnChain(s.history[i], k) == v
  }

  ghost predicate AllHeld(s: State, m: Cache) {
    forall k :: k in m ==> Held(s, k, m[k])
  }

  ghost predicate ClientOk(s: State, client: Client) {
    match client
    case Idle => true
    case Scanning(keys, pos, misses, found) =>
      && pos <= |keys| && AllHeld(s, found) && (forall k :: k in misses ==> k in keys)
      && (forall i :: 0 <= i < pos ==> keys[i] in found || keys[i] in misses)
    case AwaitingBatch(keys, misses, found) =>
      AllHeld(s, found) && (forall k :: k in misses ==> k in keys) && forall k :: k in keys ==> k in found || k in misses
    case Storing(keys, misses, response, pos, found) =>
      && |response| == |misses| && pos <= |misses| && AllHeld(s, found) && (forall k :: k in misses ==> k in keys)
      && (forall i, j :: 0 <= i < |misses| && 0 <= j < |misses| && misses[i] == misses[j] ==> response[i] == response[j])
      && (forall i :: 0 <= i < |misses| ==> Held(s, misses[i], response[i]))
      && (forall k :: k in keys ==> k in found || k in misses[pos..])
    case AwaitingOne(_) => true
    case StoringOne(k, v) => Held(s, k, v)
    case Returned(keys, result) =>
      |result| == |keys| && forall i :: 0 <= i < |keys| ==> Held(s, keys[i], result[i])
    case Peeking(keys, seen) =>
      |seen| <= |keys| && forall i :: 0 <= i < |seen| && seen[i].Some? ==> Held(s, keys[i], seen[i])
  }

  ghost predicate Inv(s: State) {
    && |s.history| > 0
    && AllHeld(s, s.cache)
    && forall c :: c in s.clients ==> ClientOk(s, s.clients[c])
  }

  lemma HeldPersists(s: State, chain: Chain, k: Pubkey, v: Option<Account>)
    requires Held(s, k, v)
    ensures Held(s.(history := s.history + [chain]), k, v)
  {
    var i :| 0 <= i < |s.history| && OnChain(s.history[i], k) == v;
    assert OnChain((s.history + [chain])[i], k) == v;
  }

  lemma NowIsHeld(s: State, k: Pubkey)
    requires |s.history| > 0
    ensures Held(s, k, OnChain(Now(s), k))
  {
    assert OnChain(s.history[|s.history| - 1], k) == OnChain(Now(s), k);
  }

  /** A client's facts depend on the history alone. */
  lemma ClientOkTransfers(s: State, s': State, client: Client)
    requires ClientOk(s, client)
    requires forall k, v :: Held(s, k, v) ==> Held(s', k, v)
    ensures ClientOk(s', client)
  {
  }

  lemma ChainMoveKeepsInv(s: State, chain: Chain)
    requires Inv(s)
    ensures Inv(Step(s, ChainMoves(chain)))
  {
    var s' := Step(s, ChainMoves(chain));
    forall k, v | Held(s, k, v)
      ensures Held(s', k, v)
    {
      HeldPersists(s, chain, k, v);
    }
    forall c | c in s'.clients
      ensures ClientOk(s', s'.clients[c])
    {
      ClientOkTransfers(s, s', s.clients[c]);
    }
  }

  /** Replacing one client, and perhaps the cache, keeps the invariant when the new parts are fine. */
  lemma UpdateKeepsInv(s: State, cache: Cache, c: nat, client: Client)
    requires Inv(s) && AllHeld(s, cache) && ClientOk(s, client)
    ensures Inv(With(s.(cache := cache), c, client))
  {
    var s' := With(s.(cache := cache), c, client);
    assert forall k, v :: Held(s, k, v) ==> Held(s', k, v);
    forall d | d in s'.clients
      ensures ClientOk(s', s'.clients[d])
    {
      ClientOkTransfers(s, s', s'.clients[d]);
    }
  }

  lemma ReassembledIsHeld(s: State, keys: seq<Pubkey>, found: Cache)
    requires AllHeld(s, found) && Reassembles(keys, found)
    ensures ClientOk(s, Returned(keys, Reassemble(keys, found)))
  {
  }

  lemma StoredIsOk(s: State, keys: seq<Pubkey>, misses: seq<Pubkey>, response: seq<Option<Account>>, pos: nat, found: Cache)
    requires ClientOk(s, Storing(keys, misses, response, pos, found)) && pos < |misses|
    ensures |response| == |misses| && Held(s, misses[pos], response[pos])
    ensures ClientOk(s, Storing(keys, misses, response, pos + 1, found[misses[pos] := response[pos]]))
  {
    hide Held;
    forall k | k in keys
      ensures k in found[misses[pos] := response[pos]] || k in misses[pos + 1..]
    {
      assert misses[pos..] == [misses[pos]] + misses[pos + 1..];
    }
  }

  lemma StoreKeepsInv(s: State, c: nat)
    requires Inv(s)
    ensures Inv(Step(s, StoreNext(c)))
  {
    match ClientOf(s, c)
    case Storing(keys, misses, response, pos, found) =>
      assert ClientOk(s, ClientOf(s, c));
      if pos < |misses| {
        StoredIsOk(s, keys, misses, response, pos, found);
        var cache, next := s.cache[misses[pos] := response[pos]],
                           Storing(keys, misses, response, pos + 1, found[misses[pos] := response[pos]]);
        assert Step(s, StoreNext(c)) == With(s.(cache := cache), c, next);
        assert AllHeld(s, cache);
        hide Step, ClientOk, Inv;
        UpdateKeepsInv(s, cache, c, next);
      }
    case _ =>
  }

  lemma FetchKeepsInv(s: State, c: nat)
    requires Inv(s)
    ensures Inv(Step(s, FetchBatch(c)))
  {
    match ClientOf(s, c)
    case AwaitingBatch(keys, misses, found) =>
      var next := Step(s, FetchBatch(c)).clients[c];
      forall i | 0 <= i < |misses|
        ensures Held(s, misses[i], next.response[i])
      {
        NowIsHeld(s, misses[i]);
      }
      assert misses[0..] == misses;
      UpdateKeepsInv(s, s.cache, c, next);
    case _ =>
  }

  lemma LookUpKeepsInv(s: State, c: nat)
    requires Inv(s)
    ensures Inv(Step(s, LookUp(c)))
  {
    match ClientOf(s, c)
    case Scanning(keys, pos, misses, found) =>
      if pos < |keys| {
        UpdateKeepsInv(s, s.cache, c, Step(s, LookUp(c)).clients[c]);
      }
    case _ =>
  }

  lemma FinishKeepsInv(s: State, c: nat)
    requires Inv(s)
    ensures Inv(Step(s, FinishScan(c))) && Inv(Step(s, FinishStore(c)))
  {
    match ClientOf(s, c)
    case Scanning(keys, pos, misses, found) =>
      if pos >= |keys| {
        if misses == [] {
          ReassembledIsHeld(s, keys, found);
        }
        UpdateKeepsInv(s, s.cache, c, Step(s, FinishScan(c)).clients[c]);
      }
    case Storing(keys, misses, response, pos, found) =>
      if pos >= |misses| {
        ReassembledIsHeld(s, keys, found);
        UpdateKeepsInv(s, s.cache, c, Step(s, FinishStore(c)).clients[c]);
      }
    case _ =>
  }

  lemma CallOneKeepsInv(s: State, c: nat, k: Pubkey)
    requires Inv(s)
    ensures Inv(Step(s, CallGetAccount(c, k)))
  {
    if ClientOf(s, c).Idle? {
      UpdateKeepsInv(s, s.cache, c, Step(s, CallGetAccount(c, k)).clients[c]);
    }
  }

  lemma FetchOneKeepsInv(s: State, c: nat)
    requires Inv(s)
    ensures Inv(Step(s, FetchOne(c)))
  {
    match ClientOf(s, c)
    case AwaitingOne(key) =>
      NowIsHeld(s, key);
      UpdateKeepsInv(s, s.cache, c, Step(s, FetchOne(c)).clients[c]);
    case _ =>
  }

  lemma StoreOneKeepsInv(s: State, c: nat)
    requires Inv(s)
    ensures Inv(Step(s, StoreOne(c)))
  {
    match ClientOf(s, c)
    case StoringOne(key, v) => UpdateKeepsInv(s, s.cache[key := v], c, Returned([key], [v]));
    case _ =>
  }

  lemma PeekKeepsInv(s: State, c: nat)
    requires Inv(s)
    ensures Inv(Step(s, Peek(c)))
  {
    match ClientOf(s, c)
    case Peeking(keys, seen) =>
      if |seen| < |keys| {
        UpdateKeepsInv(s, s.cache, c, Step(s, Peek(c)).clients[c]);
      }
    case _ =>
  }

  /** Every atomic step of every client keeps the invariant. */
  lemma StepKeepsInv(s: State, e: Event)
    requires Inv(s)
    ensures Inv(Step(s, e))
  {
    match e
    case ChainMoves(chain) => ChainMoveKeepsInv(s, chain);
    case CallGetAccounts(c, keys) =>
      if ClientOf(s, c).Idle? { UpdateKeepsInv(s, s.cache, c, Scanning(keys, 0, [], map[])); }
    case CallGetAccount(c, k) => CallOneKeepsInv(s, c, k);
    case LookUp(c) => LookUpKeepsInv(s, c);
    case FinishScan(c) => FinishKeepsInv(s, c);
    case FetchBatch(c) => FetchKeepsInv(s, c);
    case FetchOne(c) => FetchOneKeepsInv(s, c);
    case RpcFails(c) => UpdateKeepsInv(s, s.cache, c, Idle);
    case StoreNext(c) => StoreKeepsInv(s, c);
    case FinishStore(c) => FinishKeepsInv(s, c);
    case StoreOne(c) => StoreOneKeepsInv(s, c);
    case CallGetMultiple(c, keys) => UpdateKeepsInv(s, s.cache, c, Peeking(keys, []));
    case Peek(c) => PeekKeepsInv(s, c);
    case Collect(c) => UpdateKeepsInv(s, s.cache, c, Idle);
    case Reset =>
  }

  lemma {:induction false} RunKeepsInv(s: State, events: seq<Event>)
    requires Inv(s)
    ensures Inv(Run(s, events))
    decreases |events|
  {
    if events != [] {
      StepKeepsInv(s, events[0]);
      RunKeepsInv(Step(s, events[0]), events[1..]);
    }
  }

  /**
    Under any interleaving, a returned result has one entry per requested key,
    in order, and each entry was on chain at some moment since the last reset.
  */
  lemma ReturnedValuesWereHeld(chain: Chain, events: seq<Event>, c: nat)
    requires ClientOf(Run(Init(chain), events), c).Returned?
    ensures var s := Run(Init(chain), events);
            var client := ClientOf(s, c);
            |client.result| == |client.keys|
            && forall i :: 0 <= i < |client.keys| ==> Held(s, client.keys[i], client.result[i])
  {
    assert Inv(Init(chain));
    RunKeepsInv(Init(chain), events);
  }

  /** So was every account a cache-only lookup returned; its other entries stand for keys it did not find. */
  lemma PeekedValuesWereHeld(chain: Chain, events: seq<Event>, c: nat)
    requires ClientOf(Run(Init(chain), events), c).Peeking? && Finished(ClientOf(Run(Init(chain), events), c))
    ensures var s := Run(Init(chain), events);
            var client := ClientOf(s, c);
            |client.seen| == |client.keys|
            && forall i :: 0 <= i < |client.keys| && client.seen[i].Some? ==> Held(s, client.keys[i], client.seen[i])
  {
    assert Inv(Init(chain));
    RunKeepsInv(Init(chain), events);
  }

  /** Reassembly never misses a key, under any interleaving. */
  lemma ReassemblyIsTotal(chain: Chain, events: seq<Event>, c: nat)
    ensures var client := ClientOf(Run(Init(chain), events), c);
            && (client.Scanning? && client.pos >= |client.keys| && client.misses == [] ==> Reassembles(client.keys, client.found))
            && (client.Storing? && client.pos >= |client.misses| ==> Reassembles(client.keys, client.found))
  {
    assert Inv(Init(chain));
    RunKeepsInv(Init(chain), events);
    var client := ClientOf(Run(Init(chain), events), c);
    if client.Scanning? && client.pos >= |client.keys| && client.misses == [] {
      forall k | k in client.keys
        ensures k in client.found
      {
        var i :| 0 <= i < |client.keys| && client.keys[i] == k;
      }
    }
  }

  // --- agreement is lost under interleaving ---

  function RaceEvents(k: Pubkey, later: Chain): seq<Event> {
    [CallGetAccount(0, k), CallGetAccount(1, k), FetchOne(0), StoreOne(0), ChainMoves(later), FetchOne(1), StoreOne(1)]
  }

  lemma RunFromEnd(s: State, events: seq<Event>, i: nat)
    requires i < |events|
    ensures Run(s, events[i..]) == Run(Step(s, events[i]), events[i + 1..])
  {
    assert events[i..][1..] == events[i + 1..];
  }

  /** Both clients miss, and the first one stores what the chain holds. */
  lemma RaceBegins(k: Pubkey, a: Account, later: Chain)
    ensures Run(Init(map[k := a]), RaceEvents(k, later))
         == Run(State(map[k := Some(a)], [map[k := a]], map[0 := Returned([k], [Some(a)]), 1 := AwaitingOne(k)]),
                RaceEvents(k, later)[4..])
  {
    var e := RaceEvents(k, later);
    var s0 := Init(map[k := a]);
    var s1 := State(map[], [map[k := a]], map[0 := AwaitingOne(k)]);
    var s2 := State(map[], [map[k := a]], map[0 := AwaitingOne(k), 1 := AwaitingOne(k)]);
    var s3 := State(map[], [map[k := a]], map[0 := StoringOne(k, Some(a)), 1 := AwaitingOne(k)]);
    var s4 := State(map[k := Some(a)], [map[k := a]], map[0 := Returned([k], [Some(a)]), 1 := AwaitingOne(k)]);
    assert e[0..] == e;
    assert Step(s0, e[0]) == s1;
    assert Step(s1, e[1]) == s2;
    assert Step(s2, e[2]) == s3;
    assert Step(s3, e[3]) == s4;
    hide Step, Run;
    RunFromEnd(s0, e, 0);
    RunFromEnd(s1, e, 1);
    RunFromEnd(s2, e, 2);
    RunFromEnd(s3, e, 3);
  }

  /** The chain moves on, and the second client stores the newer value. */
  lemma RaceEnds(k: Pubkey, a: Account, b: Account)
    ensures var s := Run(State(map[k := Some(a)], [map[k := a]], map[0 := Returned([k], [Some(a)]), 1 := AwaitingOne(k)]),
                         RaceEvents(k, map[k := b])[4..]);
            ClientOf(s, 0) == Returned([k], [Some(a)]) && ClientOf(s, 1) == Returned([k], [Some(b)])
  {
    var e := RaceEvents(k, map[k := b]);
    var history := [map[k := a], map[k := b]];
    var s4 := State(map[k := Some(a)], [map[k := a]], map[0 := Returned([k], [Some(a)]), 1 := AwaitingOne(k)]);
    var s5 := State(map[k := Some(a)], history, map[0 := Returned([k], [Some(a)]), 1 := AwaitingOne(k)]);
    var s6 := State(map[k := Some(a)], history, map[0 := Returned([k], [Some(a)]), 1 := StoringOne(k, Some(b))]);
    var s7 := State(map[k := Some(b)], history, map[0 := Returned([k], [Some(a)]), 1 := Returned([k], [Some(b)])]);
    assert [map[k := a]] + [map[k := b]] == history;
    assert Step(s4, e[4]) == s5;
    assert Step(s5, e[5]) == s6;
    assert Step(s6, e[6]) == s7;
    assert Run(s7, e[7..]) == s7;
    hide Step, Run;
    RunFromEnd(s4, e, 4);
    RunFromEnd(s5, e, 5);
    RunFromEnd(s6, e, 6);
  }

  /**
    Two clients that miss the same key together can return different values with
    no reset in between, although sequential reads always agree.
  */
  lemma RacingReadsDisagree(k: Pubkey, a: Account, b: Account)
    requires a != b
    ensures var s := Run(Init(map[k := a]), RaceEvents(k, map[k := b]));
            ClientOf(s, 0) == Returned([k], [Some(a)]) && ClientOf(s, 1) == Returned([k], [Some(b)])
  {
    hide Step, Run;
    RaceBegins(k, a, map[k := b]);
    RaceEnds(k, a, b);
  }
}
