/**
 The provider cache (machineplane/machine/src/provider/mod.rs): per manifest a list of
 providers, found-or-evicted, cleaned of expired entries, and overwritten by answers to
 queries. Times are nanoseconds; one clock reading per call.
 */
module ProviderCache {
  import opened Basics

  type Peer = string

  datatype ProviderInfo = ProviderInfo(peer: Peer, announcedAt: nat, lastSeen: nat, ttlSeconds: nat)

  /** An announcement from the future counts as expired, as the source's clock error does. */
  predicate IsExpired(p: ProviderInfo, now: nat) {
    now < p.announcedAt || (now - p.announcedAt) / NANOS_PER_SECOND > p.ttlSeconds
  }

  ghost predicate DistinctPeers(list: seq<ProviderInfo>) {
    forall i, j :: 0 <= i < j < |list| ==> list[i].peer != list[j].peer
  }

  predicate HasPeer(list: seq<ProviderInfo>, peer: Peer) {
    exists i :: 0 <= i < |list| && list[i].peer == peer
  }

  /** First entry of the peer. */
  function PositionOf(list: seq<ProviderInfo>, peer: Peer): (i: nat)
    requires HasPeer(list, peer)
    ensures i < |list| && list[i].peer == peer
    ensures forall j :: 0 <= j < i ==> list[j].peer != peer
  {
    if list[0].peer == peer then 0 else 1 + PositionOf(list[1..], peer)
  }

  /** First entry with the smallest last-seen time, as `min_by_key` picks it. */
  function Oldest(list: seq<ProviderInfo>): (o: nat)
    requires list != []
    ensures o < |list|
    ensures forall j :: 0 <= j < |list| ==> list[o].lastSeen <= list[j].lastSeen
    ensures forall j :: 0 <= j < o ==> list[o].lastSeen < list[j].lastSeen
  {
    var n := |list| - 1;
    if n == 0 then 0
    else
      var o := Oldest(list[..n]);
      if list[n].lastSeen < list[o].lastSeen then n else o
  }

  /** Position in a list of the entry at position i once position a is taken out. */
  function Skip(a: nat, i: nat): nat {
    if i < a then i else i + 1
  }

  function Without<T>(s: seq<T>, a: nat): (r: seq<T>)
    requires a < |s|
    ensures |r| == |s| - 1
    ensures forall i :: 0 <= i < |r| ==> r[i] == s[Skip(a, i)]
  {
    s[..a] + s[a + 1..]
  }

  /** The list after a sighting of the peer. */
  function Sighted(list: seq<ProviderInfo>, peer: Peer, now: nat, ttlSeconds: nat, limit: nat): seq<ProviderInfo> {
    if HasPeer(list, peer) then
      var i := PositionOf(list, peer);
      list[i := list[i].(lastSeen := now)]
    else
      var kept := if |list| >= limit && list != [] then Without(list, Oldest(list)) else list;
      kept + [ProviderInfo(peer, now, now, ttlSeconds)]
  }

  function Unexpired(list: seq<ProviderInfo>, now: nat): (r: seq<ProviderInfo>)
    ensures forall p :: p in r <==> p in list && !IsExpired(p, now)
    ensures |r| <= |list|
  {
    if list == [] then []
    else
      var n := |list| - 1;
      assert list == list[..n] + [list[n]];
      Unexpired(list[..n], now) + (if IsExpired(list[n], now) then [] else [list[n]])
  }

  /** r is the list at the kept positions, which rise and are exactly those of unexpired entries. */
  ghost predicate Selects(list: seq<ProviderInfo>, now: nat, kept: seq<nat>, r: seq<ProviderInfo>) {
    && |kept| == |r|
    && (forall k :: 0 <= k < |kept| ==> kept[k] < |list| && r[k] == list[kept[k]] && !IsExpired(r[k], now))
    && (forall j, k :: 0 <= j < k < |kept| ==> kept[j] < kept[k])
    && (forall i :: 0 <= i < |list| && !IsExpired(list[i], now) ==> i in kept)
  }

  /** The unexpired entries keep their order and their number. */
  lemma {:induction false} UnexpiredInOrder(list: seq<ProviderInfo>, now: nat) returns (kept: seq<nat>)
    ensures Selects(list, now, kept, Unexpired(list, now))
  {
    if list == [] {
      kept := [];
    } else {
      var n := |list| - 1;
      var front := UnexpiredInOrder(list[..n], now);
      SelectsOneMore(list, now, front, Unexpired(list[..n], now));
      kept := if IsExpired(list[n], now) then front else front + [n];
      UnexpiredStep(list, now);
    }
  }

  lemma {:induction false} UnexpiredStep(list: seq<ProviderInfo>, now: nat)
    requires list != []
    ensures var front := Unexpired(list[..|list| - 1], now);
            Unexpired(list, now) == if IsExpired(list[|list| - 1], now) then front else front + [list[|list| - 1]]
  {
  }

  lemma {:induction false} SelectsOneMore(list: seq<ProviderInfo>, now: nat, kept: seq<nat>, r: seq<ProviderInfo>)
    requires list != [] && Selects(list[..|list| - 1], now, kept, r)
    ensures if IsExpired(list[|list| - 1], now) then Selects(list, now, kept, r)
            else Selects(list, now, kept + [|list| - 1], r + [list[|list| - 1]])
  {
    var n := |list| - 1;
    forall i | 0 <= i < n && !IsExpired(list[i], now)
      ensures i in kept
    {
      assert list[..n][i] == list[i];
    }
  }

  // ---------- state and steps ----------

  /**
   `remote` is the cache; `pending` the query numbers waiting per manifest; `inbox` the
   list each answered query has been sent.
   */
  datatype State = State(remote: map<string, seq<ProviderInfo>>, pending: map<string, set<nat>>,
                         inbox: map<nat, seq<ProviderInfo>>)

  datatype Config = Config(ttlSeconds: nat, limit: nat)

  datatype Op =
    | Found(manifest: string, peer: Peer, at: nat)
    | Cleanup(at: nat)
    | StartQuery(manifest: string, query: nat)
    | FinishQuery(manifest: string, query: nat)

  function ListFor(remote: map<string, seq<ProviderInfo>>, manifest: string): seq<ProviderInfo> {
    if manifest in remote then remote[manifest] else []
  }

  function Waiting(pending: map<string, set<nat>>, manifest: string): set<nat> {
    if manifest in pending then pending[manifest] else {}
  }

  /** Each of the queries is sent the list. */
  function Delivered(inbox: map<nat, seq<ProviderInfo>>, queries: set<nat>, list: seq<ProviderInfo>): map<nat, seq<ProviderInfo>> {
    map q | q in inbox.Keys + queries :: if q in queries then list else inbox[q]
  }

  function AfterFound(c: Config, s: State, manifest: string, peer: Peer, at: nat): State {
    var list := Sighted(ListFor(s.remote, manifest), peer, at, c.ttlSeconds, c.limit);
    State(s.remote[manifest := list],
          s.pending - {manifest},
          Delivered(s.inbox, Waiting(s.pending, manifest), list))
  }

  function Cleaned(remote: map<string, seq<ProviderInfo>>, now: nat): map<string, seq<ProviderInfo>> {
    map m | m in remote && Unexpired(remote[m], now) != [] :: Unexpired(remote[m], now)
  }

  /** A query without an answer has timed out, or its channel closed: nothing is cached. */
  function AfterFinish(s: State, manifest: string, query: nat): State {
    if query in s.inbox then
      s.(remote := s.remote[manifest := s.inbox[query]], inbox := s.inbox - {query})
    else s
  }

  function Step(c: Config, s: State, op: Op): State {
    match op
    case Found(m, peer, at) => AfterFound(c, s, m, peer, at)
    case Cleanup(at) => s.(remote := Cleaned(s.remote, at))
    case StartQuery(m, q) => s.(pending := s.pending[m := Waiting(s.pending, m) + {q}])
    case FinishQuery(m, q) => AfterFinish(s, m, q)
  }

  function Run(c: Config, ops: seq<Op>): State {
    if ops == [] then State(map[], map[], map[])
    else Step(c, Run(c, ops[..|ops| - 1]), ops[|ops| - 1])
  }

  // ---------- the manager object ----------

  class ProviderManager {
    const config: Config
    var remote: map<string, seq<ProviderInfo>>
    var pending: map<string, set<nat>>
    var inbox: map<nat, seq<ProviderInfo>>

    ghost function View(): State
      reads this
    {
      State(remote, pending, inbox)
    }

    constructor (config: Config)
      ensures this.config == config && View() == Run(config, [])
    {
      this.config := config;
      remote, pending, inbox := map[], map[], map[];
    }

    method HandleProviderFound(manifest: string, peer: Peer, now: nat)
      modifies this
      ensures View() == Step(config, old(View()), Found(manifest, peer, now))
    {
      var providers := FindOrEvict(ListFor(remote, manifest), peer, now);
      remote := remote[manifest := providers];
      var senders := Waiting(pending, manifest);
      pending := pending - {manifest};
      Notify(senders, providers);
    }

    method FindOrEvict(list: seq<ProviderInfo>, peer: Peer, now: nat) returns (providers: seq<ProviderInfo>)
      ensures providers == Sighted(list, peer, now, config.ttlSeconds, config.limit)
    {
      providers := list;
      if HasPeer(providers, peer) {
        var i := PositionOf(providers, peer);
        providers := providers[i := providers[i].(lastSeen := now)];
      } else {
        if |providers| >= config.limit {
          if providers != [] {
            providers := Without(providers, Oldest(providers));
          }
        }
        providers := providers + [ProviderInfo(peer, now, now, config.ttlSeconds)];
      }
    }

    /** Send each waiting query a copy of the list. */
    method Notify(senders: set<nat>, providers: seq<ProviderInfo>)
      modifies this`inbox
      ensures inbox == Delivered(old(inbox), senders, providers)
    {
      var todo := senders;
      while todo != {}
        invariant todo <= senders
        invariant inbox == Delivered(old(inbox), senders - todo, providers)
        decreases todo
      {
        var q :| q in todo;
        inbox := inbox[q := providers];
        todo := todo - {q};
      }
      assert senders - todo == senders;
    }

    method CleanupExpired(now: nat)
      modifies this
      ensures View() == Step(config, old(View()), Cleanup(now))
    {
      var kept: map<string, seq<ProviderInfo>> := map[];
      var todo := remote.Keys;
      while todo != {}
        invariant todo <= remote.Keys
        invariant forall m :: m in kept <==> m in remote && m !in todo && Unexpired(remote[m], now) != []
        invariant forall m :: m in kept ==> kept[m] == Unexpired(remote[m], now)
        decreases todo
      {
        var m :| m in todo;
        var list := Unexpired(remote[m], now);
        if list != [] {
          kept := kept[m := list];
        }
        todo := todo - {m};
      }
      assert kept == Cleaned(remote, now);
      remote := kept;
    }

    /** The cached half of `discover_providers`: only unexpired entries, and None when a query is needed. */
    method CachedProviders(manifest: string, now: nat) returns (r: seq<ProviderInfo>, hit: bool)
      ensures hit <==> exists p :: p in ListFor(remote, manifest) && !IsExpired(p, now)
      ensures r == Unexpired(ListFor(remote, manifest), now)
    {
      r := if manifest in remote then Unexpired(remote[manifest], now) else [];
      hit := r != [];
      assert hit ==> r[0] in r;
    }

    method StartQuery(manifest: string, query: nat)
      modifies this
      ensures View() == Step(config, old(View()), Op.StartQuery(manifest, query))
    {
      pending := pending[manifest := Waiting(pending, manifest) + {query}];
    }

    method FinishQuery(manifest: string, query: nat)
      modifies this
      ensures View() == Step(config, old(View()), Op.FinishQuery(manifest, query))
    {
      if query in inbox {
        remote := remote[manifest := inbox[query]];
        inbox := inbox - {query};
      }
    }
  }

  // ---------- every run ----------

  /** One entry per peer, and no more than the limit allows. */
  ghost predicate Sound(list: seq<ProviderInfo>, limit: nat) {
    DistinctPeers(list) && |list| <= AtLeastOne(limit)
  }

  lemma {:induction false} SightedIsSound(list: seq<ProviderInfo>, peer: Peer, now: nat, ttlSeconds: nat, limit: nat)
    requires Sound(list, limit)
    ensures Sound(Sighted(list, peer, now, ttlSeconds, limit), limit)
  {
    if !HasPeer(list, peer) && |list| >= limit && list != [] {
      ReplacedKeepsPeersDistinct(list, Oldest(list), ProviderInfo(peer, now, now, ttlSeconds));
    }
  }

  lemma {:induction false} UnexpiredIsSound(list: seq<ProviderInfo>, now: nat, limit: nat)
    requires Sound(list, limit)
    ensures Sound(Unexpired(list, now), limit)
  {
    UnexpiredDistinct(list, now);
  }

  lemma {:induction false} UnexpiredDistinct(list: seq<ProviderInfo>, now: nat)
    requires DistinctPeers(list)
    ensures DistinctPeers(Unexpired(list, now))
  {
    if list != [] {
      var n := |list| - 1;
      UnexpiredDistinct(list[..n], now);
      var front := Unexpired(list[..n], now);
      assert forall k :: 0 <= k < |front| ==> front[k] in list[..n];
    }
  }

  ghost predicate AllSound(s: State, limit: nat) {
    && (forall m :: m in s.remote ==> Sound(s.remote[m], limit))
    && (forall q :: q in s.inbox ==> Sound(s.inbox[q], limit))
  }

  /**
   The list after a sighting, entry by entry: the first entry of the peer is refreshed in its
   place; a new peer goes to the end, and if the list is full the first of the least recently
   seen entries is taken out.
   */
  lemma {:induction false} SightedInPlace(list: seq<ProviderInfo>, peer: Peer, now: nat, ttlSeconds: nat, limit: nat, k: nat)
    ensures var entry := ProviderInfo(peer, now, now, ttlSeconds);
            var list' := Sighted(list, peer, now, ttlSeconds, limit);
            && (k < |list| && list[k].peer == peer && (forall j :: 0 <= j < k ==> list[j].peer != peer) ==>
                  list' == list[k := ProviderInfo(peer, list[k].announcedAt, now, list[k].ttlSeconds)])
            && ((forall j :: 0 <= j < |list| ==> list[j].peer != peer) && (|list| < limit || list == []) ==>
                  list' == list + [entry])
            && ((forall j :: 0 <= j < |list| ==> list[j].peer != peer) && |list| >= limit
                && k < |list| && (forall j :: 0 <= j < |list| ==> list[k].lastSeen <= list[j].lastSeen)
                && (forall j :: 0 <= j < k ==> list[k].lastSeen < list[j].lastSeen) ==>
                  list' == list[..k] + list[k + 1..] + [entry])
  {
    if k < |list| && list[k].peer == peer && (forall j :: 0 <= j < k ==> list[j].peer != peer) {
      assert HasPeer(list, peer) && PositionOf(list, peer) == k;
    }
  }

  /** A sighting of a peer not stored, with the list full. */
  predicate Evicts(list: seq<ProviderInfo>, peer: Peer, limit: nat) {
    !HasPeer(list, peer) && |list| >= limit && list != []
  }

  /**
   What a sighting does: the peer is stored and seen now, the oldest entry goes iff the peer is
   new and the list full, and every other entry is as it was.
   */
  lemma {:induction false} SightingEffect(list: seq<ProviderInfo>, peer: Peer, now: nat, ttlSeconds: nat, limit: nat)
    requires DistinctPeers(list)
    ensures var list' := Sighted(list, peer, now, ttlSeconds, limit);
            && (exists p :: p in list' && p.peer == peer && p.lastSeen == now)
            && (forall p: ProviderInfo :: p.peer != peer ==>
                  (p in list' <==> p in list && !(Evicts(list, peer, limit) && p == list[Oldest(list)])))
            && |list'| == if HasPeer(list, peer) || Evicts(list, peer, limit) then |list| else |list| + 1
  {
    var list' := Sighted(list, peer, now, ttlSeconds, limit);
    var i := if HasPeer(list, peer) then PositionOf(list, peer) else |list'| - 1;
    assert list'[i] in list' && list'[i].peer == peer && list'[i].lastSeen == now;
    forall p: ProviderInfo | p.peer != peer
      ensures p in list' <==> p in list && !(Evicts(list, peer, limit) && p == list[Oldest(list)])
    {
      OtherEntries(list, peer, now, ttlSeconds, limit, p);
    }
  }

  lemma {:induction false} OtherEntries(list: seq<ProviderInfo>, peer: Peer, now: nat, ttlSeconds: nat, limit: nat, p: ProviderInfo)
    requires DistinctPeers(list) && p.peer != peer
    ensures p in Sighted(list, peer, now, ttlSeconds, limit) <==>
              p in list && !(Evicts(list, peer, limit) && p == list[Oldest(list)])
  {
    var list' := Sighted(list, peer, now, ttlSeconds, limit);
    if HasPeer(list, peer) {
      var i := PositionOf(list, peer);
      assert forall k :: 0 <= k < |list| && k != i ==> list'[k] == list[k];
    } else if Evicts(list, peer, limit) {
      InWithout(list, Oldest(list), p);
    }
  }

  lemma {:induction false} InWithout(list: seq<ProviderInfo>, o: nat, p: ProviderInfo)
    requires DistinctPeers(list) && o < |list|
    ensures p in Without(list, o) <==> p in list && p != list[o]
  {
    if p in list && p != list[o] {
      var k :| 0 <= k < |list| && list[k] == p;
      assert Without(list, o)[if k < o then k else k - 1] == p;
    }
    if p in Without(list, o) {
      var j :| 0 <= j < |list| - 1 && Without(list, o)[j] == p;
      assert list[Skip(o, j)] == p && Skip(o, j) != o;
    }
  }

  /** On every run, whatever is cached or on its way to the cache has one entry per peer and respects the limit. */
  lemma {:induction false} CacheStaysSound(c: Config, ops: seq<Op>)
    ensures AllSound(Run(c, ops), c.limit)
  {
    if ops != [] {
      var n := |ops| - 1;
      CacheStaysSound(c, ops[..n]);
      StepKeepsSound(c, Run(c, ops[..n]), ops[n]);
    }
  }

  lemma {:induction false} StepKeepsSound(c: Config, s: State, op: Op)
    requires AllSound(s, c.limit)
    ensures AllSound(Step(c, s, op), c.limit)
  {
    match op
    case Found(m, peer, at) =>
      SightedIsSound(ListFor(s.remote, m), peer, at, c.ttlSeconds, c.limit);
    case Cleanup(at) =>
      forall m | m in s.remote
        ensures Sound(Unexpired(s.remote[m], at), c.limit)
      {
        UnexpiredIsSound(s.remote[m], at, c.limit);
      }
    case StartQuery(_, _) =>
    case FinishQuery(_, _) =>
  }

  // ---------- expiry ----------

  /** Expired: announced in the future, or at least one whole second past the time to live. */
  lemma {:induction false} ExpiredInFields(p: ProviderInfo, now: nat)
    ensures IsExpired(p, now) <==>
              now < p.announcedAt || now >= p.announcedAt + (p.ttlSeconds + 1) * 1_000_000_000
  {
  }

  /** A sighting of a stored peer moves its last-seen time and nothing that its expiry depends on. */
  lemma {:induction false} ResightingKeepsExpiry(list: seq<ProviderInfo>, peer: Peer, now: nat, ttlSeconds: nat, limit: nat, t: nat)
    requires HasPeer(list, peer)
    ensures var i, list' := PositionOf(list, peer), Sighted(list, peer, now, ttlSeconds, limit);
            && |list'| == |list| && list'[i].peer == peer && list'[i].lastSeen == now
            && (IsExpired(list'[i], t) <==> IsExpired(list[i], t))
            && forall k :: 0 <= k < |list| && k != i ==> list'[k] == list[k]
  {
  }

  ghost predicate SightingsAndCleanups(ops: seq<Op>) {
    && (forall i :: 0 <= i < |ops| ==> ops[i].Found? || ops[i].Cleanup?)
    && (forall i, j :: 0 <= i < j < |ops| ==> ops[i].at <= ops[j].at)
  }

  ghost predicate StoredAfter(c: Config, ops: seq<Op>, n: nat, manifest: string, peer: Peer)
    requires n <= |ops|
  {
    HasPeer(ListFor(Run(c, ops[..n]).remote, manifest), peer)
  }

  /** Sighting j inserted the peer, which was absent before it and has been stored since. */
  ghost predicate InsertedAt(c: Config, ops: seq<Op>, manifest: string, peer: Peer, j: nat) {
    && SightedAt(ops, manifest, peer, j)
    && !StoredAfter(c, ops, j, manifest, peer)
    && forall i :: j < i <= |ops| ==> StoredAfter(c, ops, i, manifest, peer)
  }

  lemma {:induction false} InsertedOnce(c: Config, ops: seq<Op>, manifest: string, peer: Peer, j: nat, k: nat)
    requires InsertedAt(c, ops, manifest, peer, j) && InsertedAt(c, ops, manifest, peer, k)
    ensures j == k
  {
  }

  lemma {:induction false} StillInserted(c: Config, ops: seq<Op>, manifest: string, peer: Peer, j: nat)
    requires ops != [] && InsertedAt(c, ops[..|ops| - 1], manifest, peer, j)
    requires StoredAfter(c, ops, |ops|, manifest, peer)
    ensures InsertedAt(c, ops, manifest, peer, j)
  {
    var n := |ops| - 1;
    assert ops[..n][..j] == ops[..j];
    forall i | j < i <= |ops|
      ensures StoredAfter(c, ops, i, manifest, peer)
    {
      if i <= n {
        assert StoredAfter(c, ops[..n], i, manifest, peer);
        assert ops[..n][..i] == ops[..i];
      }
    }
  }

  /** Where an entry comes from: it was there, or it was refreshed, or it is new. */
  lemma {:induction false} SightedFrom(list: seq<ProviderInfo>, peer: Peer, at: nat, ttlSeconds: nat, limit: nat, p: ProviderInfo)
    requires DistinctPeers(list) && p in Sighted(list, peer, at, ttlSeconds, limit)
    ensures p.peer != peer ==> p in list
    ensures p.peer == peer && HasPeer(list, peer) ==>
              exists q :: q in list && q.peer == peer && p == q.(lastSeen := at)
    ensures p.peer == peer && !HasPeer(list, peer) ==> p == ProviderInfo(peer, at, at, ttlSeconds)
  {
    var list' := Sighted(list, peer, at, ttlSeconds, limit);
    var k :| 0 <= k < |list'| && list'[k] == p;
    if HasPeer(list, peer) {
      assert list[PositionOf(list, peer)] in list;
      assert k != PositionOf(list, peer) ==> list'[k] == list[k];
    }
  }

  /** One event: an entry carries over its announcement, or is the one that the event inserts. */
  lemma {:induction false} EntryFrom(c: Config, s: State, op: Op, manifest: string, p: ProviderInfo) returns (prior: Option<ProviderInfo>)
    requires (op.Found? || op.Cleanup?) && DistinctPeers(ListFor(s.remote, manifest))
    requires p in ListFor(Step(c, s, op).remote, manifest)
    ensures prior.Some? ==>
              && prior.value in ListFor(s.remote, manifest)
              && prior.value == p.(lastSeen := prior.value.lastSeen)
    ensures prior.None? ==>
              && Sights(op, manifest) && op.peer == p.peer && !HasPeer(ListFor(s.remote, manifest), p.peer)
              && p == ProviderInfo(p.peer, op.at, op.at, c.ttlSeconds)
  {
    var before := ListFor(s.remote, manifest);
    prior := Some(p);
    if Sights(op, manifest) {
      SightedFrom(before, op.peer, op.at, c.ttlSeconds, c.limit, p);
      if op.peer == p.peer && HasPeer(before, p.peer) {
        var q :| q in before && q.peer == p.peer && p == q.(lastSeen := op.at);
        prior := Some(q);
      } else if op.peer == p.peer {
        prior := None;
      }
    } else if op.Cleanup? {
      CleanupIsExact(s.remote, op.at, manifest, p);
    }
  }

  /** Every stored entry carries the time of the sighting that inserted it, whatever sightings came after. */
  lemma {:induction false} DatesFromInsertion(c: Config, ops: seq<Op>, manifest: string, p: ProviderInfo) returns (j: nat)
    requires SightingsAndCleanups(ops) && p in ListFor(Run(c, ops).remote, manifest)
    ensures InsertedAt(c, ops, manifest, p.peer, j)
    ensures p.announcedAt == ops[j].at && p.ttlSeconds == c.ttlSeconds
  {
    var n := |ops| - 1;
    StoredNow(c, ops, manifest, p);
    var before := LastEntryFrom(c, ops, manifest, p);
    if before.Some? {
      j := DatesFromInsertion(c, ops[..n], manifest, before.value);
      StillInserted(c, ops, manifest, p.peer, j);
    } else {
      j := n;
      JustInserted(c, ops, manifest, p.peer);
    }
  }

  lemma {:induction false} LastEntryFrom(c: Config, ops: seq<Op>, manifest: string, p: ProviderInfo) returns (prior: Option<ProviderInfo>)
    requires SightingsAndCleanups(ops) && p in ListFor(Run(c, ops).remote, manifest)
    ensures ops != []
    ensures var n := |ops| - 1;
            var before := ListFor(Run(c, ops[..n]).remote, manifest);
            if prior.Some? then prior.value in before && prior.value == p.(lastSeen := prior.value.lastSeen)
            else SightedAt(ops, manifest, p.peer, n) && !HasPeer(before, p.peer)
                 && p.announcedAt == ops[n].at && p.ttlSeconds == c.ttlSeconds
  {
    var n := |ops| - 1;
    CacheStaysSound(c, ops[..n]);
    prior := EntryFrom(c, Run(c, ops[..n]), ops[n], manifest, p);
  }

  lemma {:induction false} JustInserted(c: Config, ops: seq<Op>, manifest: string, peer: Peer)
    requires ops != [] && SightedAt(ops, manifest, peer, |ops| - 1)
    requires !HasPeer(ListFor(Run(c, ops[..|ops| - 1]).remote, manifest), peer)
    requires StoredAfter(c, ops, |ops|, manifest, peer)
    ensures InsertedAt(c, ops, manifest, peer, |ops| - 1)
  {
  }

  lemma {:induction false} StoredNow(c: Config, ops: seq<Op>, manifest: string, p: ProviderInfo)
    requires p in ListFor(Run(c, ops).remote, manifest)
    ensures StoredAfter(c, ops, |ops|, manifest, p.peer)
  {
    assert ops[..|ops|] == ops;
  }

  /**
   A stored entry is expired iff time to live plus one second have passed since the sighting
   that inserted it, the first one since the peer was last absent: later sightings do not count.
   */
  lemma {:induction false} ExpiresFromInsertion(c: Config, ops: seq<Op>, manifest: string, p: ProviderInfo, t: nat, j: nat)
    requires SightingsAndCleanups(ops) && p in ListFor(Run(c, ops).remote, manifest)
    requires ops != [] ==> ops[|ops| - 1].at <= t
    requires InsertedAt(c, ops, manifest, p.peer, j)
    ensures IsExpired(p, t) <==> t >= ops[j].at + (c.ttlSeconds + 1) * 1_000_000_000
  {
    var k := DatesFromInsertion(c, ops, manifest, p);
    InsertedOnce(c, ops, manifest, p.peer, j, k);
    assert p.announcedAt <= t;
  }

  lemma {:induction false} SeenTwice(c: Config, manifest: string, peer: Peer, first: nat, again: nat)
    ensures ListFor(Run(c, [Found(manifest, peer, first), Found(manifest, peer, again)]).remote, manifest)
         == [ProviderInfo(peer, first, again, c.ttlSeconds)]
  {
    var ops := [Found(manifest, peer, first), Found(manifest, peer, again)];
    var before := [ProviderInfo(peer, first, first, c.ttlSeconds)];
    assert Run(c, ops[..1]) == Step(c, Run(c, []), ops[0]) by {
      assert ops[..0] == [];
      RunStep(c, ops, 0);
    }
    assert Run(c, ops) == Step(c, Run(c, ops[..1]), ops[1]) by {
      assert ops[..2] == ops;
      RunStep(c, ops, 1);
    }
    assert Sighted([], peer, first, c.ttlSeconds, c.limit) == before;
    assert before[0].peer == peer;
  }

  /** It happens: seen again at any time up to then, and expired all the same. */
  lemma {:induction false} SeenAgainExpires(c: Config, manifest: string, peer: Peer, first: nat, again: nat, t: nat)
    requires first <= again <= t == first + (c.ttlSeconds + 1) * NANOS_PER_SECOND
    ensures exists p :: p in ListFor(Run(c, [Found(manifest, peer, first), Found(manifest, peer, again)]).remote, manifest)
                        && p.lastSeen == again && IsExpired(p, t)
  {
    SeenTwice(c, manifest, peer, first, again);
    var p := ProviderInfo(peer, first, again, c.ttlSeconds);
    assert p in [p] && IsExpired(p, t);
  }

  /** A cleanup drops exactly the expired entries, and every manifest left without entries. */
  lemma {:induction false} CleanupIsExact(remote: map<string, seq<ProviderInfo>>, now: nat, manifest: string, p: ProviderInfo)
    ensures p in ListFor(Cleaned(remote, now), manifest) <==> p in ListFor(remote, manifest) && !IsExpired(p, now)
    ensures manifest in Cleaned(remote, now) ==> Cleaned(remote, now)[manifest] != []
  {
    if manifest in remote && Unexpired(remote[manifest], now) == [] {
      assert p !in Unexpired(remote[manifest], now);
    }
  }

  /** A sighting answers every query waiting for its manifest with a list that has the peer, and no other query. */
  lemma {:induction false} SightingAnswersQueries(c: Config, s: State, manifest: string, peer: Peer, at: nat, query: nat)
    ensures var t := AfterFound(c, s, manifest, peer, at);
            && Waiting(t.pending, manifest) == {}
            && (query in Waiting(s.pending, manifest) ==> query in t.inbox && HasPeer(t.inbox[query], peer))
            && (query !in Waiting(s.pending, manifest) ==>
                  (query in t.inbox <==> query in s.inbox) && (query in s.inbox ==> t.inbox[query] == s.inbox[query]))
  {
    var list := ListFor(s.remote, manifest);
    var list' := Sighted(list, peer, at, c.ttlSeconds, c.limit);
    if HasPeer(list, peer) {
      assert list'[PositionOf(list, peer)].peer == peer;
    } else {
      assert list'[|list'| - 1].peer == peer;
    }
  }

  /** A sighting concerns its own manifest only. */
  lemma {:induction false} OtherManifestsUntouched(c: Config, s: State, manifest: string, peer: Peer, at: nat, other: string)
    ensures var t := AfterFound(c, s, manifest, peer, at);
            && manifest in t.remote
            && t.remote[manifest] == Sighted(if manifest in s.remote then s.remote[manifest] else [], peer, at, c.ttlSeconds, c.limit)
            && (other != manifest ==>
                  && (other in t.remote <==> other in s.remote) && (other in s.remote ==> t.remote[other] == s.remote[other])
                  && (other in t.pending <==> other in s.pending) && (other in s.pending ==> t.pending[other] == s.pending[other]))
  {
  }

  // ---------- answers to queries ----------

  predicate Sights(op: Op, manifest: string) {
    op.Found? && op.manifest == manifest
  }

  ghost predicate NotSighted(ops: seq<Op>, manifest: string, i: nat, n: nat)
    requires n <= |ops|
  {
    forall x :: i < x < n ==> !Sights(ops[x], manifest)
  }

  /** j is the first sighting for the manifest after event i. */
  ghost predicate FirstSighting(ops: seq<Op>, manifest: string, i: nat, n: nat, j: int)
    requires n <= |ops|
  {
    i < j < n && Sights(ops[j], manifest) && NotSighted(ops, manifest, i, j)
  }

  predicate Concerns(op: Op, query: nat) {
    (op.StartQuery? || op.FinishQuery?) && op.query == query
  }

  /** The query starts at event i and is neither started again nor finished before event n. */
  ghost predicate Outstanding(ops: seq<Op>, i: nat, n: nat, manifest: string, query: nat) {
    && i < n <= |ops| && ops[i] == StartQuery(manifest, query)
    && forall x :: 0 <= x < n && x != i ==> !Concerns(ops[x], query)
  }

  ghost predicate NotWaiting(s: State, query: nat) {
    forall m :: m in s.pending ==> query !in s.pending[m]
  }

  lemma {:induction false} UnknownQuery(c: Config, ops: seq<Op>, query: nat)
    requires forall x :: 0 <= x < |ops| ==> !Concerns(ops[x], query)
    ensures query !in Run(c, ops).inbox && NotWaiting(Run(c, ops), query)
  {
    if ops != [] {
      UnknownQuery(c, ops[..|ops| - 1], query);
    }
  }

  lemma {:induction false} RunStep(c: Config, ops: seq<Op>, n: nat)
    requires n < |ops|
    ensures Run(c, ops[..n + 1]) == Step(c, Run(c, ops[..n]), ops[n])
  {
    assert ops[..n + 1][..n] == ops[..n];
  }

  /** The query waits for this manifest alone. */
  ghost predicate WaitsFor(s: State, manifest: string, query: nat) {
    && query !in s.inbox && query in Waiting(s.pending, manifest)
    && forall m :: m in s.pending && m != manifest ==> query !in s.pending[m]
  }

  /** The query has been sent this list. */
  ghost predicate Sent(s: State, query: nat, list: seq<ProviderInfo>) {
    NotWaiting(s, query) && query in s.inbox && s.inbox[query] == list
  }

  lemma {:induction false} WaitsStep(c: Config, s: State, op: Op, manifest: string, query: nat)
    requires WaitsFor(s, manifest, query) && !Concerns(op, query)
    ensures !Sights(op, manifest) ==> WaitsFor(Step(c, s, op), manifest, query)
    ensures Sights(op, manifest) ==> Sent(Step(c, s, op), query, ListFor(Step(c, s, op).remote, manifest))
  {
  }

  lemma {:induction false} SentStep(c: Config, s: State, op: Op, query: nat, list: seq<ProviderInfo>)
    requires Sent(s, query, list) && !Concerns(op, query)
    ensures Sent(Step(c, s, op), query, list)
  {
  }

  /** Until its manifest is sighted, the query waits for it and for no other. */
  lemma {:induction false} WaitsUntilSighted(c: Config, ops: seq<Op>, i: nat, n: nat, manifest: string, query: nat)
    requires Outstanding(ops, i, n, manifest, query) && NotSighted(ops, manifest, i, n)
    ensures WaitsFor(Run(c, ops[..n]), manifest, query)
  {
    RunStep(c, ops, n - 1);
    if n == i + 1 {
      UnknownQuery(c, ops[..i], query);
    } else {
      WaitsUntilSighted(c, ops, i, n - 1, manifest, query);
      WaitsStep(c, Run(c, ops[..n - 1]), ops[n - 1], manifest, query);
    }
  }

  lemma {:induction false} StaysSent(c: Config, ops: seq<Op>, j: nat, n: nat, query: nat, list: seq<ProviderInfo>)
    requires j <= n <= |ops| && Sent(Run(c, ops[..j]), query, list)
    requires forall x :: j <= x < n ==> !Concerns(ops[x], query)
    ensures Sent(Run(c, ops[..n]), query, list)
  {
    if j < n {
      StaysSent(c, ops, j, n - 1, query, list);
      RunStep(c, ops, n - 1);
      SentStep(c, Run(c, ops[..n - 1]), ops[n - 1], query, list);
    }
  }

  /** From its first sighting on, the query has been sent the list as of that sighting. */
  lemma {:induction false} SentFirstSighting(c: Config, ops: seq<Op>, i: nat, n: nat, manifest: string, query: nat, j: nat)
    requires Outstanding(ops, i, n, manifest, query) && FirstSighting(ops, manifest, i, n, j)
    ensures Sent(Run(c, ops[..n]), query, ListFor(Run(c, ops[..j + 1]).remote, manifest))
  {
    WaitsUntilSighted(c, ops, i, j, manifest, query);
    RunStep(c, ops, j);
    WaitsStep(c, Run(c, ops[..j]), ops[j], manifest, query);
    StaysSent(c, ops, j + 1, n, query, ListFor(Run(c, ops[..j + 1]).remote, manifest));
  }

  lemma {:induction false} FinishStep(c: Config, s: State, manifest: string, query: nat, list: seq<ProviderInfo>)
    ensures Sent(s, query, list) ==> ListFor(Step(c, s, FinishQuery(manifest, query)).remote, manifest) == list
    ensures WaitsFor(s, manifest, query) ==> Step(c, s, FinishQuery(manifest, query)) == s
  {
  }

  /** A query is answered iff its manifest is sighted while it waits, and then caches the list as of that first sighting. */
  lemma {:induction false} FinishCachesFirstSighting(c: Config, ops: seq<Op>, i: nat, n: nat, manifest: string, query: nat)
    requires Outstanding(ops, i, n, manifest, query) && n < |ops| && ops[n] == FinishQuery(manifest, query)
    ensures forall j :: FirstSighting(ops, manifest, i, n, j) ==>
              ListFor(Run(c, ops[..n + 1]).remote, manifest) == ListFor(Run(c, ops[..j + 1]).remote, manifest)
    ensures NotSighted(ops, manifest, i, n) ==> Run(c, ops[..n + 1]) == Run(c, ops[..n])
  {
    RunStep(c, ops, n);
    forall j | FirstSighting(ops, manifest, i, n, j)
      ensures ListFor(Run(c, ops[..n + 1]).remote, manifest) == ListFor(Run(c, ops[..j + 1]).remote, manifest)
    {
      SentFirstSighting(c, ops, i, n, manifest, query, j);
      FinishStep(c, Run(c, ops[..n]), manifest, query, ListFor(Run(c, ops[..j + 1]).remote, manifest));
    }
    if NotSighted(ops, manifest, i, n) {
      WaitsUntilSighted(c, ops, i, n, manifest, query);
      FinishStep(c, Run(c, ops[..n]), manifest, query, []);
    }
  }

  // ---------- update and notification apart ----------

  /** The two lock sections of `handle_provider_found`, and any other operation, in any order. */
  datatype Section = Update(manifest: string, peer: Peer, at: nat) | Notify(manifest: string) | Whole(op: Op)

  function Notified(s: State, manifest: string): State {
    State(s.remote, s.pending - {manifest},
          Delivered(s.inbox, Waiting(s.pending, manifest), ListFor(s.remote, manifest)))
  }

  function SectionStep(c: Config, s: State, section: Section): State {
    match section
    case Update(m, peer, at) => s.(remote := s.remote[m := Sighted(ListFor(s.remote, m), peer, at, c.ttlSeconds, c.limit)])
    case Notify(m) => Notified(s, m)
    case Whole(op) => Step(c, s, op)
  }

  /** Run without a break, the two sections are the whole operation. */
  lemma {:induction false} SectionsMakeTheWhole(c: Config, s: State, manifest: string, peer: Peer, at: nat)
    ensures SectionStep(c, SectionStep(c, s, Update(manifest, peer, at)), Notify(manifest)) == AfterFound(c, s, manifest, peer, at)
  {
  }

  /** The state after the first n sections. */
  function AfterSections(c: Config, sections: seq<Section>, n: nat): State
    requires n <= |sections|
  {
    if n == 0 then State(map[], map[], map[]) else SectionStep(c, AfterSections(c, sections, n - 1), sections[n - 1])
  }

  lemma {:induction false} SectionsStaySound(c: Config, sections: seq<Section>, n: nat)
    requires n <= |sections|
    ensures AllSound(AfterSections(c, sections, n), c.limit)
  {
    if n > 0 {
      SectionsStaySound(c, sections, n - 1);
      SectionKeepsSound(c, AfterSections(c, sections, n - 1), sections[n - 1]);
    }
  }

  lemma {:induction false} SectionKeepsSound(c: Config, s: State, section: Section)
    requires AllSound(s, c.limit)
    ensures AllSound(SectionStep(c, s, section), c.limit)
  {
    match section
    case Update(m, peer, at) => SightedIsSound(ListFor(s.remote, m), peer, at, c.ttlSeconds, c.limit);
    case Notify(_) =>
    case Whole(op) => StepKeepsSound(c, s, op);
  }

  predicate SightsIn(section: Section, manifest: string) {
    (section.Update? && section.manifest == manifest) || (section.Whole? && Sights(section.op, manifest))
  }

  function PeerIn(section: Section): Peer
    requires section.Update? || (section.Whole? && section.op.Found?)
  {
    if section.Update? then section.peer else section.op.peer
  }

  /** A query that ends with an answer. */
  predicate Answers(s: State, section: Section, manifest: string) {
    && section.Whole? && section.op.FinishQuery? && section.op.manifest == manifest
    && section.op.query in s.inbox
  }

  /** The peer is sighted, or an answer that has it is cached. */
  predicate Gains(s: State, section: Section, manifest: string, peer: Peer) {
    || (SightsIn(section, manifest) && PeerIn(section) == peer)
    || (Answers(s, section, manifest) && HasPeer(s.inbox[section.op.query], peer))
  }

  /** The peer's entry is expired at a cleanup, or the oldest when another peer needs its place, or not in an answer cached. */
  ghost predicate Loses(c: Config, s: State, section: Section, manifest: string, peer: Peer) {
    var list := ListFor(s.remote, manifest);
    || (section.Whole? && section.op.Cleanup? && exists p :: p in list && p.peer == peer && IsExpired(p, section.op.at))
    || (SightsIn(section, manifest) && Evicts(list, PeerIn(section), c.limit) && list[Oldest(list)].peer == peer)
    || (Answers(s, section, manifest) && !HasPeer(s.inbox[section.op.query], peer))
  }

  ghost predicate Stored(s: State, manifest: string, peer: Peer) {
    HasPeer(ListFor(s.remote, manifest), peer)
  }

  lemma {:induction false} SightingStores(list: seq<ProviderInfo>, p: Peer, at: nat, ttl: nat, limit: nat, peer: Peer)
    requires DistinctPeers(list)
    ensures HasPeer(Sighted(list, p, at, ttl, limit), peer) <==>
              p == peer || (HasPeer(list, peer) && !(Evicts(list, p, limit) && list[Oldest(list)].peer == peer))
  {
    var list' := Sighted(list, p, at, ttl, limit);
    SightingEffect(list, p, at, ttl, limit);
    if p == peer {
      var e :| e in list' && e.peer == peer;
    } else {
      if HasPeer(list, peer) {
        var e := list[PositionOf(list, peer)];
        assert e in list' <==> !(Evicts(list, p, limit) && e == list[Oldest(list)]);
        if e in list' {
          var k :| 0 <= k < |list'| && list'[k] == e;
        }
      }
      if HasPeer(list', peer) {
        var e := list'[PositionOf(list', peer)];
        assert e in list' && e in list;
      }
    }
  }

  lemma {:induction false} CleanupStores(remote: map<string, seq<ProviderInfo>>, now: nat, manifest: string, peer: Peer)
    requires DistinctPeers(ListFor(remote, manifest))
    ensures HasPeer(ListFor(Cleaned(remote, now), manifest), peer) <==>
              && HasPeer(ListFor(remote, manifest), peer)
              && !exists p :: p in ListFor(remote, manifest) && p.peer == peer && IsExpired(p, now)
  {
    var list, list' := ListFor(remote, manifest), ListFor(Cleaned(remote, now), manifest);
    if HasPeer(list', peer) {
      var e := list'[PositionOf(list', peer)];
      CleanupIsExact(remote, now, manifest, e);
    }
    if HasPeer(list, peer) {
      var e := list[PositionOf(list, peer)];
      CleanupIsExact(remote, now, manifest, e);
      if e in list' {
        var k :| 0 <= k < |list'| && list'[k] == e;
      }
    }
  }

  lemma {:induction false} StoredStep(c: Config, s: State, section: Section, manifest: string, peer: Peer)
    requires AllSound(s, c.limit)
    ensures Stored(SectionStep(c, s, section), manifest, peer) <==>
              Gains(s, section, manifest, peer) || (Stored(s, manifest, peer) && !Loses(c, s, section, manifest, peer))
  {
    var list := ListFor(s.remote, manifest);
    if SightsIn(section, manifest) {
      var at := if section.Update? then section.at else section.op.at;
      SightingStores(list, PeerIn(section), at, c.ttlSeconds, c.limit, peer);
    } else if section.Whole? && section.op.Cleanup? {
      CleanupStores(s.remote, section.op.at, manifest, peer);
    }
  }

  /** What one section means for one peer. */
  datatype Mark = Mark(gains: bool, loses: bool)

  ghost function MarkOf(c: Config, s: State, section: Section, manifest: string, peer: Peer): Mark {
    Mark(Gains(s, section, manifest, peer), Loses(c, s, section, manifest, peer))
  }

  /** The history of the peer over the first n sections. */
  ghost function MarksOf(c: Config, sections: seq<Section>, n: nat, manifest: string, peer: Peer): (marks: seq<Mark>)
    requires n <= |sections|
    ensures |marks| == n
    ensures forall x :: 0 <= x < n ==> marks[x] == MarkOf(c, AfterSections(c, sections, x), sections[x], manifest, peer)
  {
    seq(n, x requires 0 <= x < n => MarkOf(c, AfterSections(c, sections, x), sections[x], manifest, peer))
  }

  /** Section j stored the peer and none since lost it. */
  ghost predicate StoredSince(marks: seq<Mark>, j: int) {
    0 <= j < |marks| && marks[j].gains && forall x :: j < x < |marks| ==> !marks[x].loses
  }

  /** The same, section by section. */
  predicate Kept(marks: seq<Mark>) {
    && marks != []
    && var n := |marks| - 1;
       marks[n].gains || (Kept(marks[..n]) && !marks[n].loses)
  }

  lemma {:induction false} KeptIffSince(marks: seq<Mark>)
    ensures Kept(marks) <==> exists j :: StoredSince(marks, j)
  {
    if marks != [] {
      var n := |marks| - 1;
      KeptIffSince(marks[..n]);
      if marks[n].gains {
        assert StoredSince(marks, n);
      } else if Kept(marks) {
        var j :| StoredSince(marks[..n], j);
        assert StoredSince(marks, j);
      }
      if j :| StoredSince(marks, j) && j < n {
        assert StoredSince(marks[..n], j);
      }
    }
  }

  lemma {:induction false} StoredIffKept(c: Config, sections: seq<Section>, n: nat, manifest: string, peer: Peer)
    requires n <= |sections|
    ensures Stored(AfterSections(c, sections, n), manifest, peer) <==> Kept(MarksOf(c, sections, n, manifest, peer))
  {
    if n > 0 {
      StoredIffKept(c, sections, n - 1, manifest, peer);
      SectionsStaySound(c, sections, n - 1);
      StoredStep(c, AfterSections(c, sections, n - 1), sections[n - 1], manifest, peer);
      assert MarksOf(c, sections, n, manifest, peer)[..n - 1] == MarksOf(c, sections, n - 1, manifest, peer);
    }
  }

  /** With the sections apart, the answer sent at n has the peer iff it was stored before and not lost since. */
  lemma {:induction false} AnswerHasPeerIff(c: Config, sections: seq<Section>, n: nat, manifest: string, peer: Peer, query: nat)
    requires n < |sections| && sections[n] == Notify(manifest)
    requires query in Waiting(AfterSections(c, sections, n).pending, manifest)
    ensures query in AfterSections(c, sections, n + 1).inbox
    ensures HasPeer(AfterSections(c, sections, n + 1).inbox[query], peer) <==>
              exists j :: StoredSince(MarksOf(c, sections, n, manifest, peer), j)
  {
    StoredIffKept(c, sections, n, manifest, peer);
    KeptIffSince(MarksOf(c, sections, n, manifest, peer));
  }

  /** It happens: a cleanup between the two sections, and the answer lacks the peer just sighted. */
  lemma {:induction false} CleanupBetween(c: Config, manifest: string, peer: Peer, query: nat)
    ensures var late := (c.ttlSeconds + 1) * NANOS_PER_SECOND;
            var sections := [Whole(StartQuery(manifest, query)), Update(manifest, peer, 0), Whole(Cleanup(late)), Notify(manifest)];
            var t := AfterSections(c, sections, 4);
            query in t.inbox && !HasPeer(t.inbox[query], peer)
  {
    var late := (c.ttlSeconds + 1) * NANOS_PER_SECOND;
    var sections := [Whole(StartQuery(manifest, query)), Update(manifest, peer, 0), Whole(Cleanup(late)), Notify(manifest)];
    var s1 := Step(c, State(map[], map[], map[]), StartQuery(manifest, query));
    assert AfterSections(c, sections, 1) == s1;
    var s2 := SectionStep(c, s1, sections[1]);
    assert AfterSections(c, sections, 2) == s2;
    CleanupEmpties(c, s1, manifest, peer, late);
    var s3 := SectionStep(c, s2, sections[2]);
    assert AfterSections(c, sections, 3) == s3;
    assert AfterSections(c, sections, 4) == Notified(s3, manifest);
    assert query in Waiting(s1.pending, manifest) && s3.pending == s1.pending;
  }

  lemma {:induction false} CleanupEmpties(c: Config, s: State, manifest: string, peer: Peer, late: nat)
    requires s.remote == map[] && late == (c.ttlSeconds + 1) * NANOS_PER_SECOND
    ensures !HasPeer(ListFor(Cleaned(SectionStep(c, s, Update(manifest, peer, 0)).remote, late), manifest), peer)
  {
    var remote := SectionStep(c, s, Update(manifest, peer, 0)).remote;
    var entry := ProviderInfo(peer, 0, 0, c.ttlSeconds);
    assert ListFor(remote, manifest) == [entry];
    assert entry in ListFor(remote, manifest) && IsExpired(entry, late);
    CleanupStores(remote, late, manifest, peer);
  }

  // ---------- most recently seen peers ----------

  datatype Visit = Visit(peer: Peer, at: nat)

  function VisitOf(p: ProviderInfo): Visit {
    Visit(p.peer, p.lastSeen)
  }

  ghost predicate OnlySightings(ops: seq<Op>) {
    && (forall i :: 0 <= i < |ops| ==> ops[i].Found?)
    && (forall i, j :: 0 <= i < j < |ops| ==> ops[i].at < ops[j].at)
  }

  /** Position of the peer's visit, or the length if it has none. */
  ghost function VisitPosition(visits: seq<Visit>, peer: Peer): (a: nat)
    ensures a <= |visits|
    ensures a < |visits| ==> visits[a].peer == peer
    ensures a == |visits| ==> forall i :: 0 <= i < |visits| ==> visits[i].peer != peer
  {
    if exists a :: 0 <= a < |visits| && visits[a].peer == peer then
      var a :| 0 <= a < |visits| && visits[a].peer == peer;
      a
    else |visits|
  }

  /** Where the visit at position e was before the one at position a moved to the front. */
  function Back(a: nat, e: nat): nat
    requires e > 0
  {
    if e <= a then e - 1 else e
  }

  /** The peer's visit moved to the front, or put there. */
  ghost function Fronted(visits: seq<Visit>, peer: Peer, at: nat): (r: seq<Visit>)
    ensures |r| == if VisitPosition(visits, peer) < |visits| then |visits| else |visits| + 1
  {
    var a := VisitPosition(visits, peer);
    seq(if a < |visits| then |visits| else |visits| + 1,
        e requires 0 <= e < if a < |visits| then |visits| else |visits| + 1 =>
          if e == 0 then Visit(peer, at) else visits[Back(a, e)])
  }

  /** Each peer sighted for the manifest once, with its last sighting, latest first. */
  ghost function Recency(ops: seq<Op>, manifest: string): seq<Visit>
    requires OnlySightings(ops)
  {
    if ops == [] then []
    else
      var n := |ops| - 1;
      var prev := Recency(ops[..n], manifest);
      if ops[n].manifest == manifest then Fronted(prev, ops[n].peer, ops[n].at) else prev
  }

  ghost predicate WellOrdered(visits: seq<Visit>) {
    && (forall i, j :: 0 <= i < j < |visits| ==> visits[i].peer != visits[j].peer)
    && (forall i, j :: 0 <= i < j < |visits| ==> visits[i].at > visits[j].at)
  }

  /** Where the visit at position d goes. */
  lemma {:induction false} Shifted(visits: seq<Visit>, peer: Peer, at: nat, d: nat) returns (e: nat)
    requires d < |visits| && d != VisitPosition(visits, peer)
    ensures e == if d < VisitPosition(visits, peer) then d + 1 else d
    ensures 0 < e < |Fronted(visits, peer, at)| && Fronted(visits, peer, at)[e] == visits[d]
  {
    e := if d < VisitPosition(visits, peer) then d + 1 else d;
    assert Back(VisitPosition(visits, peer), e) == d;
  }

  lemma {:induction false} MoveToFront(visits: seq<Visit>, peer: Peer, at: nat)
    requires WellOrdered(visits)
    requires forall i :: 0 <= i < |visits| ==> visits[i].at < at
    ensures WellOrdered(Fronted(visits, peer, at))
  {
  }

  lemma {:induction false} RecencyIsWellOrdered(ops: seq<Op>, manifest: string)
    requires OnlySightings(ops)
    ensures WellOrdered(Recency(ops, manifest))
    ensures forall i :: 0 <= i < |Recency(ops, manifest)| ==> Recency(ops, manifest)[i].at <= ops[|ops| - 1].at
  {
    if ops != [] {
      var n := |ops| - 1;
      var before := Recency(ops[..n], manifest);
      RecencyIsWellOrdered(ops[..n], manifest);
      assert forall i :: 0 <= i < |before| ==> before[i].at < ops[n].at;
      MoveToFront(before, ops[n].peer, ops[n].at);
    }
  }

  /** v is one of the n latest visits. */
  ghost predicate AmongLatest(visits: seq<Visit>, n: nat, v: Visit)
    requires n <= |visits|
  {
    exists a :: 0 <= a < n && visits[a] == v
  }

  /** The list holds the latest visits that fit: as many as fit, each one of the latest, no peer twice. */
  ghost predicate HoldsLatest(list: seq<ProviderInfo>, visits: seq<Visit>, limit: nat) {
    && DistinctPeers(list)
    && |list| == Min(AtLeastOne(limit), |visits|)
    && forall i :: 0 <= i < |list| ==> AmongLatest(visits, |list|, VisitOf(list[i]))
  }

  ghost function StoredPeers(list: seq<ProviderInfo>): set<Peer> {
    set i | 0 <= i < |list| :: list[i].peer
  }

  lemma {:induction false} StoredPeersCard(list: seq<ProviderInfo>)
    requires DistinctPeers(list)
    ensures |StoredPeers(list)| == |list|
  {
    if list != [] {
      var n := |list| - 1;
      StoredPeersCard(list[..n]);
      assert StoredPeers(list) == StoredPeers(list[..n]) + {list[n].peer};
      assert list[n].peer !in StoredPeers(list[..n]);
    }
  }

  lemma {:induction false} SubsetOfSameSize(a: set<Peer>, b: set<Peer>)
    requires a <= b && |a| == |b|
    ensures a == b
  {
    assert |b - a| == |b| - |a|;
  }

  /** Every one of the latest visits is stored: there is no room for anything else. */
  lemma {:induction false} LatestIsStored(list: seq<ProviderInfo>, visits: seq<Visit>, limit: nat, a: nat) returns (i: nat)
    requires WellOrdered(visits) && HoldsLatest(list, visits, limit) && a < |list|
    ensures i < |list| && visits[a] == VisitOf(list[i])
  {
    var n := |list|;
    forall p | p in StoredPeers(list)
      ensures p in PeersOf(visits, n)
    {
      var k :| 0 <= k < n && list[k].peer == p;
      assert AmongLatest(visits, n, VisitOf(list[k]));
    }
    StoredPeersCard(list);
    PeersOfCard(visits, n);
    SubsetOfSameSize(StoredPeers(list), PeersOf(visits, n));
    assert visits[a].peer in StoredPeers(list);
    i :| 0 <= i < n && list[i].peer == visits[a].peer;
    assert AmongLatest(visits, n, VisitOf(list[i]));
  }

  /** A sighting of a peer already stored. */
  lemma {:induction false} Resighted(list: seq<ProviderInfo>, visits: seq<Visit>, i: nat, at: nat, limit: nat)
    requires WellOrdered(visits) && HoldsLatest(list, visits, limit) && i < |list|
    ensures HoldsLatest(list[i := list[i].(lastSeen := at)], Fronted(visits, list[i].peer, at), limit)
  {
    var n, peer := |list|, list[i].peer;
    var list' := list[i := list[i].(lastSeen := at)];
    var a := PlaceOf(list, visits, limit, i);
    assert a == VisitPosition(visits, peer);
    var visits' := Fronted(visits, peer, at);
    forall j | 0 <= j < n
      ensures AmongLatest(visits', n, VisitOf(list'[j]))
    {
      if j == i {
        assert visits'[0] == VisitOf(list'[j]);
      } else {
        var d := PlaceOf(list, visits, limit, j);
        var e := Shifted(visits, peer, at, d);
      }
    }
  }

  lemma {:induction false} PlaceOf(list: seq<ProviderInfo>, visits: seq<Visit>, limit: nat, j: nat) returns (d: nat)
    requires HoldsLatest(list, visits, limit) && j < |list|
    ensures d < |list| && visits[d] == VisitOf(list[j])
  {
    assert AmongLatest(visits, |list|, VisitOf(list[j]));
    d :| 0 <= d < |list| && visits[d] == VisitOf(list[j]);
  }

  /** A sighting of a peer not stored, with room or by eviction of the oldest. */
  lemma {:induction false} NewlySighted(list: seq<ProviderInfo>, visits: seq<Visit>, peer: Peer, at: nat, ttl: nat, limit: nat)
    requires WellOrdered(visits) && HoldsLatest(list, visits, limit) && !HasPeer(list, peer)
    ensures HoldsLatest(Sighted(list, peer, at, ttl, limit), Fronted(visits, peer, at), limit)
  {
    var n := |list|;
    UnstoredIsLater(list, visits, peer, limit);
    var newest := ProviderInfo(peer, at, at, ttl);
    var visits' := Fronted(visits, peer, at);
    forall d | 0 <= d < n && d + 1 < |visits'|
      ensures visits'[d + 1] == visits[d]
    {
      if d != VisitPosition(visits, peer) {
        var e := Shifted(visits, peer, at, d);
      }
    }
    if n < AtLeastOne(limit) {
      Appended(list, visits, newest, limit, visits');
    } else {
      Evicted(list, visits, newest, limit, visits');
    }
  }

  lemma {:induction false} UnstoredIsLater(list: seq<ProviderInfo>, visits: seq<Visit>, peer: Peer, limit: nat)
    requires WellOrdered(visits) && HoldsLatest(list, visits, limit) && !HasPeer(list, peer)
    ensures VisitPosition(visits, peer) >= |list|
  {
    forall a | 0 <= a < |list|
      ensures visits[a].peer != peer
    {
      var i := LatestIsStored(list, visits, limit, a);
    }
  }

  lemma {:induction false} Appended(list: seq<ProviderInfo>, visits: seq<Visit>, newest: ProviderInfo, limit: nat, visits': seq<Visit>)
    requires HoldsLatest(list, visits, limit) && |list| == |visits| < AtLeastOne(limit)
    requires !HasPeer(list, newest.peer)
    requires |visits'| == |visits| + 1 && visits'[0] == VisitOf(newest)
    requires forall d :: 0 <= d < |list| ==> visits'[d + 1] == visits[d]
    ensures HoldsLatest(list + [newest], visits', limit)
  {
    var list' := list + [newest];
    forall j | 0 <= j < |list'|
      ensures AmongLatest(visits', |list'|, VisitOf(list'[j]))
    {
      if j == |list| {
        assert visits'[0] == VisitOf(list'[j]);
      } else {
        var d := PlaceOf(list, visits, limit, j);
        assert visits'[d + 1] == VisitOf(list'[j]);
      }
    }
  }

  /** The oldest entry is the last of the latest visits, so it is the one to go. */
  lemma {:induction false} OldestIsLast(list: seq<ProviderInfo>, visits: seq<Visit>, limit: nat)
    requires WellOrdered(visits) && HoldsLatest(list, visits, limit) && list != []
    ensures VisitOf(list[Oldest(list)]) == visits[|list| - 1]
  {
    var o, n := Oldest(list), |list|;
    var i := LatestIsStored(list, visits, limit, n - 1);
    var d := PlaceOf(list, visits, limit, o);
    assert list[o].lastSeen <= list[i].lastSeen;
  }

  lemma {:induction false} Evicted(list: seq<ProviderInfo>, visits: seq<Visit>, newest: ProviderInfo, limit: nat, visits': seq<Visit>)
    requires WellOrdered(visits) && HoldsLatest(list, visits, limit)
    requires |list| == AtLeastOne(limit) && !HasPeer(list, newest.peer)
    requires |visits'| >= |list| && visits'[0] == VisitOf(newest)
    requires forall d :: 0 <= d < |list| && d + 1 < |visits'| ==> visits'[d + 1] == visits[d]
    ensures HoldsLatest(Without(list, Oldest(list)) + [newest], visits', limit)
  {
    var o, n := Oldest(list), |list|;
    OldestIsLast(list, visits, limit);
    ReplacedKeepsPeersDistinct(list, o, newest);
    var list' := Without(list, o) + [newest];
    forall j | 0 <= j < n
      ensures AmongLatest(visits', n, VisitOf(list'[j]))
    {
      if j == n - 1 {
        assert visits'[0] == VisitOf(list'[j]);
      } else {
        var k := Skip(o, j);
        assert list'[j] == list[k];
        var d := PlaceOf(list, visits, limit, k);
        assert list[k].peer != list[o].peer;
        assert visits'[d + 1] == VisitOf(list'[j]);
      }
    }
  }

  lemma {:induction false} ReplacedKeepsPeersDistinct(list: seq<ProviderInfo>, o: nat, newest: ProviderInfo)
    requires DistinctPeers(list) && o < |list| && !HasPeer(list, newest.peer)
    ensures DistinctPeers(Without(list, o) + [newest])
  {
    var kept := Without(list, o);
    forall j | 0 <= j < |kept|
      ensures kept[j].peer != newest.peer
    {
      assert kept[j] == list[Skip(o, j)];
    }
  }

  /** Found-only runs refine the recency list. */
  lemma {:induction false} CacheHoldsLatest(c: Config, ops: seq<Op>, manifest: string)
    requires OnlySightings(ops)
    ensures HoldsLatest(ListFor(Run(c, ops).remote, manifest), Recency(ops, manifest), c.limit)
  {
    if ops != [] {
      var n := |ops| - 1;
      CacheHoldsLatest(c, ops[..n], manifest);
      RecencyIsWellOrdered(ops[..n], manifest);
      var list, visits := ListFor(Run(c, ops[..n]).remote, manifest), Recency(ops[..n], manifest);
      if ops[n].manifest == manifest {
        if HasPeer(list, ops[n].peer) {
          Resighted(list, visits, PositionOf(list, ops[n].peer), ops[n].at, c.limit);
        } else {
          NewlySighted(list, visits, ops[n].peer, ops[n].at, c.ttlSeconds, c.limit);
        }
      }
    }
  }

  // ---------- the same, without the recency list ----------

  ghost predicate SightedAt(ops: seq<Op>, manifest: string, peer: Peer, j: nat) {
    j < |ops| && ops[j].Found? && ops[j].manifest == manifest && ops[j].peer == peer
  }

  /** j is the last sighting of the peer for the manifest. */
  ghost predicate LastSighting(ops: seq<Op>, manifest: string, peer: Peer, j: nat) {
    && SightedAt(ops, manifest, peer, j)
    && forall i :: j < i < |ops| ==> !SightedAt(ops, manifest, peer, i)
  }

  /** Peers sighted for the manifest after event j. */
  ghost function PeersSince(ops: seq<Op>, manifest: string, j: nat): set<Peer>
    requires forall i :: 0 <= i < |ops| ==> ops[i].Found?
  {
    set i | j < i < |ops| && ops[i].manifest == manifest :: ops[i].peer
  }

  ghost function PeersOf(visits: seq<Visit>, n: nat): set<Peer>
    requires n <= |visits|
  {
    set i | 0 <= i < n :: visits[i].peer
  }

  lemma {:induction false} PeersOfCard(visits: seq<Visit>, n: nat)
    requires WellOrdered(visits) && n <= |visits|
    ensures |PeersOf(visits, n)| == n
  {
    if n == 0 {
      assert PeersOf(visits, 0) == {};
    } else {
      PeersOfCard(visits, n - 1);
      PeersOfStep(visits, n);
    }
  }

  lemma {:induction false} PeersOfStep(visits: seq<Visit>, n: nat)
    requires WellOrdered(visits) && 0 < n <= |visits|
    ensures PeersOf(visits, n) == PeersOf(visits, n - 1) + {visits[n - 1].peer}
    ensures visits[n - 1].peer !in PeersOf(visits, n - 1)
  {
    forall i | 0 <= i < n
      ensures visits[i].peer in PeersOf(visits, n - 1) + {visits[n - 1].peer}
    {
    }
  }

  /** The peers ahead of an entry in the recency list are those sighted since its last sighting. */
  lemma {:induction false} RecencyCountsSince(ops: seq<Op>, manifest: string, i: nat) returns (j: nat)
    requires OnlySightings(ops) && i < |Recency(ops, manifest)|
    ensures LastSighting(ops, manifest, Recency(ops, manifest)[i].peer, j)
    ensures PeersSince(ops, manifest, j) == PeersOf(Recency(ops, manifest), i)
  {
    var n := |ops| - 1;
    var before, now := Recency(ops[..n], manifest), Recency(ops, manifest);
    if ops[n].manifest != manifest {
      j := RecencyCountsSince(ops[..n], manifest, i);
      SinceGrows(ops, manifest, now[i].peer, j);
    } else if i == 0 {
      j := n;
      assert PeersSince(ops, manifest, n) == {} == PeersOf(now, 0);
    } else {
      RecencyIsWellOrdered(ops, manifest);
      var a := VisitPosition(before, ops[n].peer);
      var e := if i <= a then i - 1 else i;
      var back := Shifted(before, ops[n].peer, ops[n].at, e);
      assert now[0] == Visit(ops[n].peer, ops[n].at) && now[i] == before[e];
      j := RecencyCountsSince(ops[..n], manifest, e);
      SinceGrows(ops, manifest, now[i].peer, j);
      PeersAfterMove(before, ops[n].peer, ops[n].at, i, e);
    }
  }

  lemma {:induction false} SinceGrows(ops: seq<Op>, manifest: string, peer: Peer, j: nat)
    requires OnlySightings(ops) && ops != []
    requires LastSighting(ops[..|ops| - 1], manifest, peer, j)
    requires ops[|ops| - 1].manifest == manifest ==> ops[|ops| - 1].peer != peer
    ensures LastSighting(ops, manifest, peer, j)
    ensures PeersSince(ops, manifest, j) == PeersSince(ops[..|ops| - 1], manifest, j)
              + (if ops[|ops| - 1].manifest == manifest then {ops[|ops| - 1].peer} else {})
  {
    var n := |ops| - 1;
    forall i | j < i < |ops|
      ensures !SightedAt(ops, manifest, peer, i)
    {
      assert i < n ==> !SightedAt(ops[..n], manifest, peer, i);
    }
    forall p: Peer
      ensures p in PeersSince(ops, manifest, j) <==>
                p in PeersSince(ops[..n], manifest, j) || (ops[n].manifest == manifest && p == ops[n].peer)
    {
      if p in PeersSince(ops, manifest, j) {
        var i :| j < i < |ops| && ops[i].manifest == manifest && ops[i].peer == p;
        assert i < n ==> ops[..n][i].peer == p;
      }
      if p in PeersSince(ops[..n], manifest, j) {
        var i :| j < i < n && ops[..n][i].manifest == manifest && ops[..n][i].peer == p;
        assert ops[i].peer == p;
      }
    }
  }

  lemma {:induction false} PeersAfterMove(before: seq<Visit>, peer: Peer, at: nat, i: nat, e: nat)
    requires 0 < i < |Fronted(before, peer, at)|
    requires e == (if i <= VisitPosition(before, peer) then i - 1 else i) < |before|
    ensures PeersOf(Fronted(before, peer, at), i) == PeersOf(before, e) + {peer}
  {
    var now := Fronted(before, peer, at);
    forall d | 0 <= d < i
      ensures now[d].peer in PeersOf(before, e) + {peer}
    {
      if d > 0 {
        CameFrom(before, peer, at, d, e);
      }
    }
    forall d | 0 <= d < e
      ensures before[d].peer in PeersOf(now, i)
    {
      if d == VisitPosition(before, peer) {
        assert now[0].peer == before[d].peer;
      } else {
        var front := Shifted(before, peer, at, d);
        assert now[front].peer == before[d].peer;
      }
    }
    assert now[0].peer == peer;
  }

  lemma {:induction false} CameFrom(before: seq<Visit>, peer: Peer, at: nat, d: nat, e: nat)
    requires 0 < d < |Fronted(before, peer, at)| && e <= |before|
    requires (if d <= VisitPosition(before, peer) then d - 1 else d) < e
    ensures Fronted(before, peer, at)[d].peer in PeersOf(before, e)
  {
    var b := if d <= VisitPosition(before, peer) then d - 1 else d;
    var back := Shifted(before, peer, at, b);
    assert before[b].peer in PeersOf(before, e);
  }

  lemma {:induction false} SightedIsVisited(ops: seq<Op>, manifest: string, peer: Peer, j: nat) returns (i: nat)
    requires OnlySightings(ops) && SightedAt(ops, manifest, peer, j)
    ensures i < |Recency(ops, manifest)| && Recency(ops, manifest)[i].peer == peer
  {
    var n := |ops| - 1;
    if ops[n].manifest == manifest && ops[n].peer == peer {
      i := 0;
    } else {
      assert SightedAt(ops[..n], manifest, peer, j);
      var b := SightedIsVisited(ops[..n], manifest, peer, j);
      if ops[n].manifest == manifest {
        i := Shifted(Recency(ops[..n], manifest), ops[n].peer, ops[n].at, b);
      } else {
        i := b;
      }
    }
  }

  /**
   Cache refinement: a peer is stored iff it was sighted and fewer than max(1, limit)
   distinct peers were sighted after its last sighting.
   */
  lemma {:induction false} StoredIffRecent(c: Config, ops: seq<Op>, manifest: string, peer: Peer)
    requires OnlySightings(ops)
    ensures HasPeer(ListFor(Run(c, ops).remote, manifest), peer) <==>
              exists j :: LastSighting(ops, manifest, peer, j)
                          && |PeersSince(ops, manifest, j)| < AtLeastOne(c.limit)
  {
    var list, visits := ListFor(Run(c, ops).remote, manifest), Recency(ops, manifest);
    CacheHoldsLatest(c, ops, manifest);
    RecencyIsWellOrdered(ops, manifest);
    if HasPeer(list, peer) {
      var i := PositionOf(list, peer);
      var a := PlaceOf(list, visits, c.limit, i);
      var j := RecencyCountsSince(ops, manifest, a);
      PeersOfCard(visits, a);
      assert LastSighting(ops, manifest, peer, j);
    }
    if j :| LastSighting(ops, manifest, peer, j) && |PeersSince(ops, manifest, j)| < AtLeastOne(c.limit) {
      var a := SightedIsVisited(ops, manifest, peer, j);
      var j' := RecencyCountsSince(ops, manifest, a);
      assert j == j';
      PeersOfCard(visits, a);
      var i := LatestIsStored(list, visits, c.limit, a);
    }
  }
}
