/**
 Replay protection (machineplane/crypto/src/flatbuffer_envelope.rs:35-60): per peer a map of
 nonces and when they were accepted, pruned at every call for that peer; and the envelope
 verification that uses it (machineplane/machine/src/libp2p_beemesh/envelope.rs:184-252).
 Base64 decoding, canonical bytes and signatures are parameters.
 */
module NonceStore {
  import opened Basics

  type Store = map<string, map<string, nat>>

  datatype Call = Call(peer: string, nonce: string, window: nat, at: nat)

  /** `duration_since`, which is zero for an instant in the future. */
  function Elapsed(now: nat, t: nat): nat {
    if now < t then 0 else now - t
  }

  function Bucket(s: Store, peer: string): map<string, nat> {
    if peer in s then s[peer] else map[]
  }

  function Pruned(bucket: map<string, nat>, now: nat, window: nat): map<string, nat> {
    bucket - set n | n in bucket && Elapsed(now, bucket[n]) > window
  }

  /** `check_and_insert_nonce_for_peer` as one step: the new store, and whether the nonce was accepted. */
  function Check(s: Store, c: Call): (Store, bool) {
    if c.nonce == "" then (s, false)
    else
      var kept := Pruned(Bucket(s, c.peer), c.at, c.window);
      if c.nonce in kept then (s[c.peer := kept], false)
      else (s[c.peer := kept[c.nonce := c.at]], true)
  }

  /**
   What a call does, entry by entry: an empty nonce changes nothing; otherwise the other peers
   keep their entries, this peer keeps those at most a window old, and the nonce is accepted and
   entered with this call's time iff it is not among them.
   */
  lemma {:induction false} CheckEffect(s: Store, c: Call, peer: string, nonce: string)
    ensures c.nonce == "" ==> Check(s, c) == (s, false)
    ensures c.nonce != "" ==>
              (Check(s, c).1 <==> !(c.peer in s && c.nonce in s[c.peer] && c.at <= s[c.peer][c.nonce] + c.window))
    ensures peer != c.peer ==>
              (peer in Check(s, c).0 <==> peer in s) && (peer in s ==> Check(s, c).0[peer] == s[peer])
    ensures c.nonce != "" ==>
              && c.peer in Check(s, c).0
              && var bucket := Check(s, c).0[c.peer];
                 var kept := c.peer in s && nonce in s[c.peer] && c.at <= s[c.peer][nonce] + c.window;
                 && (nonce in bucket <==> kept || nonce == c.nonce)
                 && (kept ==> bucket[nonce] == s[c.peer][nonce])
                 && (nonce == c.nonce && !kept ==> bucket[nonce] == c.at)
  {
  }

  class Nonces {
    var store: Store

    constructor ()
      ensures store == map[]
    {
      store := map[];
    }

    method CheckAndInsert(nonce: string, window: nat, peer: string, now: nat) returns (ok: bool)
      modifies this
      ensures (store, ok) == Check(old(store), Call(peer, nonce, window, now))
    {
      if nonce == "" {
        return false;
      }
      if peer !in store {
        store := store[peer := map[]];
      }
      var kept := store[peer] - set n | n in store[peer] && Elapsed(now, store[peer][n]) > window;
      store := store[peer := kept];
      assert store == old(store)[peer := Pruned(Bucket(old(store), peer), now, window)];
      if nonce in store[peer] {
        return false;
      }
      var bucket: map<string, nat> := store[peer][nonce := now];
      assert store[peer := bucket] == old(store)[peer := bucket];
      store := store[peer := bucket];
      ok := true;
    }
  }

  // ---------- runs ----------

  /** The store after the first n calls. */
  function StoreAt(calls: seq<Call>, n: nat): Store
    requires n <= |calls|
  {
    if n == 0 then map[] else Check(StoreAt(calls, n - 1), calls[n - 1]).0
  }

  predicate Accepted(calls: seq<Call>, j: nat)
    requires j < |calls|
  {
    Check(StoreAt(calls, j), calls[j]).1
  }

  /** Call i prunes the bucket of this peer, and would keep an entry accepted at time t. */
  predicate Spares(c: Call, peer: string, t: nat) {
    c.peer == peer && c.nonce != "" ==> Elapsed(c.at, t) <= c.window
  }

  /** Call j accepted the nonce for the peer, and no later call before n pruned it. */
  ghost predicate Remembered(calls: seq<Call>, j: int, n: nat, peer: string, nonce: string)
    requires n <= |calls|
  {
    && 0 <= j < n && Accepted(calls, j)
    && calls[j].peer == peer && calls[j].nonce == nonce
    && forall i :: j < i < n ==> Spares(calls[i], peer, calls[j].at)
  }

  /** What one call does to one entry of one bucket. */
  lemma {:induction false} EntryStep(s: Store, c: Call, peer: string, nonce: string)
    ensures var b, b' := Bucket(s, peer), Bucket(Check(s, c).0, peer);
            var kept := nonce in b && Spares(c, peer, b[nonce]);
            if c.peer == peer && c.nonce == nonce && Check(s, c).1 then
              nonce in b' && b'[nonce] == c.at && !kept
            else
              (nonce in b' <==> kept) && (kept ==> b'[nonce] == b[nonce])
  {
  }

  /** The entry is there iff some accepted call is remembered, and holds that call's time. */
  ghost predicate Tells(calls: seq<Call>, n: nat, peer: string, nonce: string, bucket: map<string, nat>)
    requires n <= |calls|
  {
    && (nonce in bucket ==> exists j :: Remembered(calls, j, n, peer, nonce) && bucket[nonce] == calls[j].at)
    && forall j :: Remembered(calls, j, n, peer, nonce) ==> nonce in bucket && bucket[nonce] == calls[j].at
  }

  /** The pruned map holds exactly the accepted nonces that are still remembered. */
  lemma {:induction false} StoreIsHistory(calls: seq<Call>, n: nat, peer: string, nonce: string)
    requires n <= |calls|
    ensures Tells(calls, n, peer, nonce, Bucket(StoreAt(calls, n), peer))
  {
    if n == 0 {
      NothingToTell(calls, peer, nonce);
    } else {
      StoreIsHistory(calls, n - 1, peer, nonce);
      HistoryStep(calls, n, peer, nonce);
    }
  }

  lemma {:induction false} NothingToTell(calls: seq<Call>, peer: string, nonce: string)
    ensures Tells(calls, 0, peer, nonce, map[]) && Bucket(StoreAt(calls, 0), peer) == map[]
  {
  }

  lemma {:induction false} HistoryStep(calls: seq<Call>, n: nat, peer: string, nonce: string)
    requires 0 < n <= |calls|
    requires Tells(calls, n - 1, peer, nonce, Bucket(StoreAt(calls, n - 1), peer))
    ensures Tells(calls, n, peer, nonce, Bucket(StoreAt(calls, n), peer))
  {
    var c := calls[n - 1];
    var before, now := Bucket(StoreAt(calls, n - 1), peer), Bucket(StoreAt(calls, n), peer);
    EntryStep(StoreAt(calls, n - 1), c, peer, nonce);
    if nonce in now {
      if c.peer == peer && c.nonce == nonce && Accepted(calls, n - 1) {
        assert Remembered(calls, n - 1, n, peer, nonce);
      } else {
        var j :| Remembered(calls, j, n - 1, peer, nonce) && before[nonce] == calls[j].at;
        RememberOneMore(calls, j, n, peer, nonce);
      }
    }
    forall j | Remembered(calls, j, n, peer, nonce)
      ensures nonce in now && now[nonce] == calls[j].at
    {
      RememberOneMore(calls, j, n, peer, nonce);
    }
  }

  lemma {:induction false} RememberOneMore(calls: seq<Call>, j: int, n: nat, peer: string, nonce: string)
    requires 0 < n <= |calls| && 0 <= j < n
    ensures j < n - 1 ==>
              (Remembered(calls, j, n, peer, nonce) <==>
                 Remembered(calls, j, n - 1, peer, nonce) && Spares(calls[n - 1], peer, calls[j].at))
  {
  }

  /** Call j accepted call n's nonce for the same peer, and it is remembered through call n's own pruning. */
  ghost predicate Blocks(calls: seq<Call>, j: int, n: nat)
    requires n < |calls|
  {
    j < n && Remembered(calls, j, n + 1, calls[n].peer, calls[n].nonce)
  }

  /** Exactly when a nonce is accepted, for any clock and any windows. */
  lemma {:induction false} AcceptedIff(calls: seq<Call>, n: nat)
    requires n < |calls|
    ensures Accepted(calls, n) <==>
              && calls[n].nonce != ""
              && !exists j :: Blocks(calls, j, n)
  {
    var c := calls[n];
    StoreIsHistory(calls, n, c.peer, c.nonce);
    EntryStep(StoreAt(calls, n), c, c.peer, c.nonce);
    var before := Bucket(StoreAt(calls, n), c.peer);
    if c.nonce in before && Spares(c, c.peer, before[c.nonce]) {
      var j :| Remembered(calls, j, n, c.peer, c.nonce) && before[c.nonce] == calls[j].at;
      RememberOneMore(calls, j, n + 1, c.peer, c.nonce);
      assert Blocks(calls, j, n);
    }
    if j :| Blocks(calls, j, n) {
      RememberOneMore(calls, j, n + 1, c.peer, c.nonce);
    }
  }

  ghost predicate Monotone(calls: seq<Call>) {
    forall i, j :: 0 <= i < j < |calls| ==> calls[i].at <= calls[j].at
  }

  ghost predicate ConstantWindow(calls: seq<Call>, window: nat) {
    forall i :: 0 <= i < |calls| ==> calls[i].window == window
  }

  /** Call j accepted the same nonce for the same peer at most a window before call n. */
  predicate Replays(calls: seq<Call>, j: nat, n: nat, window: nat)
    requires j < n < |calls|
  {
    && Accepted(calls, j)
    && calls[j].peer == calls[n].peer && calls[j].nonce == calls[n].nonce
    && calls[n].at - calls[j].at <= window
  }

  /** With a forward clock and one window, the store answers as a full history would, whatever other peers do. */
  lemma {:induction false} WindowIsExact(calls: seq<Call>, n: nat, window: nat)
    requires n < |calls| && Monotone(calls) && ConstantWindow(calls, window)
    ensures Accepted(calls, n) <==>
              calls[n].nonce != "" && forall j :: 0 <= j < n ==> !Replays(calls, j, n, window)
  {
    AcceptedIff(calls, n);
    forall j | 0 <= j < n && calls[n].nonce != ""
      ensures Replays(calls, j, n, window) <==> Blocks(calls, j, n)
    {
      if Replays(calls, j, n, window) {
        assert forall i :: j < i < n + 1 ==> Spares(calls[i], calls[n].peer, calls[j].at);
      }
      if Blocks(calls, j, n) {
        assert Spares(calls[n], calls[n].peer, calls[j].at);
      }
    }
  }

  /**
   One window for all calls is needed: a call with a shorter window forgets a nonce that a
   later call with the longer one would have refused.
   */
  lemma {:induction false} ShorterWindowForgets(peer: string)
    ensures var calls := [Call(peer, "x", 10, 0), Call(peer, "y", 1, 5), Call(peer, "x", 10, 6)];
            Monotone(calls) && Accepted(calls, 0) && Accepted(calls, 2) && Replays(calls, 0, 2, 10)
  {
    var calls := [Call(peer, "x", 10, 0), Call(peer, "y", 1, 5), Call(peer, "x", 10, 6)];
    AcceptedIff(calls, 0);
    AcceptedIff(calls, 2);
    assert !Spares(calls[1], peer, calls[0].at);
    assert calls[1].nonce != calls[2].nonce;
  }

  // ---------- envelope verification ----------

  datatype Envelope = Envelope(payload: seq<nat>, payloadType: string, nonce: string, ts: nat, alg: string,
                               sig: string, pubkey: string, peerId: Option<string>, kemPubkey: Option<string>)

  /**
   The library functions: base64, the two canonical forms, over payload, type, nonce, time and
   algorithm, peer id if there is one, and encryption key, and the signature check.
   */
  datatype Library = Library(
    decode: string -> Option<seq<nat>>,
    canonical: (seq<nat>, string, string, nat, string, Option<string>) -> seq<nat>,
    canonicalWithPeer: (seq<nat>, string, string, nat, string, string, Option<string>) -> seq<nat>,
    verify: (seq<nat>, seq<nat>, seq<nat>) -> bool)

  /** Drop a scheme prefix such as "ml-dsa-65:". */
  function AfterColon(sig: string): string {
    if sig == "" then ""
    else if ':' !in sig then sig
    else if sig[0] == ':' then sig[1..]
    else AfterColon(sig[1..])
  }

  /** A scheme prefix is dropped whole, and a bare signature is left alone. */
  lemma {:induction false} PrefixIsDropped(scheme: string, body: string)
    requires ':' !in scheme
    ensures AfterColon(scheme + ":" + body) == body
    ensures ':' !in body ==> AfterColon(body) == body
  {
    var sig := scheme + ":" + body;
    assert sig[|scheme|] == ':';
    if scheme == "" {
      assert sig[1..] == body;
    } else {
      assert sig[0] == scheme[0] && sig[1..] == scheme[1..] + ":" + body;
      PrefixIsDropped(scheme[1..], body);
    }
  }

  datatype Verified = Verified(payload: seq<nat>, pubkey: seq<nat>, signature: seq<nat>, ts: nat, payloadType: string)

  /** None for bytes that do not parse as an envelope. */
  datatype Delivery = Delivery(envelope: Option<Envelope>, window: nat, peer: string, at: nat)

  /** The delivery gets as far as the nonce check. */
  predicate Decodes(lib: Library, d: Delivery) {
    && d.envelope.Some?
    && lib.decode(AfterColon(d.envelope.value.sig)).Some?
    && lib.decode(d.envelope.value.pubkey).Some?
  }

  predicate Authentic(lib: Library, d: Delivery)
    requires Decodes(lib, d)
  {
    var e := d.envelope.value;
    lib.verify(lib.decode(e.pubkey).value,
               if e.peerId.Some?
                     then lib.canonicalWithPeer(e.payload, e.payloadType, e.nonce, e.ts, e.alg, e.peerId.value, e.kemPubkey)
               else lib.canonical(e.payload, e.payloadType, e.nonce, e.ts, e.alg, e.kemPubkey),
               lib.decode(AfterColon(e.sig)).value)
  }

  /** The nonce call a delivery makes; an empty nonce makes none, and changes nothing. */
  function NonceCall(lib: Library, d: Delivery): Call {
    Call(d.peer, if Decodes(lib, d) then d.envelope.value.nonce else "", d.window, d.at)
  }

  /** Which bytes the signature must cover: the form with the peer id iff the envelope has one. */
  lemma {:induction false} AuthenticInFields(lib: Library, d: Delivery, e: Envelope, key: seq<nat>, sig: seq<nat>)
    requires d.envelope == Some(e) && lib.decode(e.pubkey) == Some(key) && lib.decode(AfterColon(e.sig)) == Some(sig)
    ensures Decodes(lib, d)
    ensures e.peerId.Some? ==> (Authentic(lib, d) <==>
              lib.verify(key, lib.canonicalWithPeer(e.payload, e.payloadType, e.nonce, e.ts, e.alg, e.peerId.value, e.kemPubkey), sig))
    ensures e.peerId.None? ==> (Authentic(lib, d) <==>
              lib.verify(key, lib.canonical(e.payload, e.payloadType, e.nonce, e.ts, e.alg, e.kemPubkey), sig))
  {
  }

  /** A delivery that lacks an envelope, a decodable signature or a decodable key gets no further. */
  lemma {:induction false} DecodesInFields(lib: Library, d: Delivery)
    ensures Decodes(lib, d) <==>
              d.envelope.Some? && lib.decode(AfterColon(d.envelope.value.sig)).Some? && lib.decode(d.envelope.value.pubkey).Some?
    ensures Decodes(lib, d) ==> NonceCall(lib, d) == Call(d.peer, d.envelope.value.nonce, d.window, d.at)
    ensures !Decodes(lib, d) ==> NonceCall(lib, d).nonce == ""
  {
  }

  method VerifyEnvelope(lib: Library, nonces: Nonces, d: Delivery) returns (r: Option<Verified>)
    modifies nonces
    ensures nonces.store == Check(old(nonces.store), NonceCall(lib, d)).0
    ensures d.envelope.Some? && lib.decode(d.envelope.value.pubkey).Some?
            && lib.decode(AfterColon(d.envelope.value.sig)).Some? ==>
              var e := d.envelope.value;
              var key, sig := lib.decode(e.pubkey).value, lib.decode(AfterColon(e.sig)).value;
              var unseen := e.nonce == "" || Check(old(nonces.store), Call(d.peer, e.nonce, d.window, d.at)).1;
              && (e.peerId.Some? && unseen ==>
                    (r.Some? <==> lib.verify(key, lib.canonicalWithPeer(e.payload, e.payloadType, e.nonce, e.ts, e.alg,
                                                                        e.peerId.value, e.kemPubkey), sig)))
              && (e.peerId.None? && unseen ==>
                    (r.Some? <==> lib.verify(key, lib.canonical(e.payload, e.payloadType, e.nonce, e.ts, e.alg, e.kemPubkey), sig)))
    ensures r.Some? <==> && Decodes(lib, d)
                         && (d.envelope.value.nonce == "" || Check(old(nonces.store), NonceCall(lib, d)).1)
                         && Authentic(lib, d)
    ensures r.Some? && d.envelope.value.peerId.Some? ==>
              var e := d.envelope.value;
              && lib.decode(e.pubkey).Some? && lib.decode(AfterColon(e.sig)).Some?
              && lib.verify(lib.decode(e.pubkey).value,
                            lib.canonicalWithPeer(e.payload, e.payloadType, e.nonce, e.ts, e.alg, e.peerId.value, e.kemPubkey),
                            lib.decode(AfterColon(e.sig)).value)
    ensures r.Some? && d.envelope.value.peerId.None? ==>
              var e := d.envelope.value;
              && lib.decode(e.pubkey).Some? && lib.decode(AfterColon(e.sig)).Some?
              && lib.verify(lib.decode(e.pubkey).value,
                            lib.canonical(e.payload, e.payloadType, e.nonce, e.ts, e.alg, e.kemPubkey),
                            lib.decode(AfterColon(e.sig)).value)
    ensures r.Some? ==>
              var e := d.envelope.value;
              r.value == Verified(e.payload, lib.decode(e.pubkey).value, lib.decode(AfterColon(e.sig)).value,
                                  e.ts, e.payloadType)
  {
    if d.envelope.None? {
      return None;
    }
    var e := d.envelope.value;
    var sig := lib.decode(AfterColon(e.sig));
    if sig.None? {
      return None;
    }
    var key := lib.decode(e.pubkey);
    if key.None? {
      return None;
    }
    var canonical := if e.peerId.Some?
                     then lib.canonicalWithPeer(e.payload, e.payloadType, e.nonce, e.ts, e.alg, e.peerId.value, e.kemPubkey)
                     else lib.canonical(e.payload, e.payloadType, e.nonce, e.ts, e.alg, e.kemPubkey);
    if e.nonce != "" {
      var ok := nonces.CheckAndInsert(e.nonce, d.window, d.peer, d.at);
      if !ok {
        return None;
      }
    }
    if !lib.verify(key.value, canonical, sig.value) {
      return None;
    }
    r := Some(Verified(e.payload, key.value, sig.value, e.ts, e.payloadType));
  }

  function NonceCalls(lib: Library, ds: seq<Delivery>): (r: seq<Call>)
    ensures |r| == |ds|
  {
    seq(|ds|, i requires 0 <= i < |ds| => NonceCall(lib, ds[i]))
  }

  /** Delivery n is verified, in a run of deliveries from an empty store. */
  predicate Verifies(lib: Library, ds: seq<Delivery>, n: nat)
    requires n < |ds|
  {
    && Decodes(lib, ds[n])
    && (ds[n].envelope.value.nonce == "" || Accepted(NonceCalls(lib, ds), n))
    && Authentic(lib, ds[n])
  }

  ghost predicate OneClockOneWindow(ds: seq<Delivery>, window: nat) {
    && (forall i, j :: 0 <= i < j < |ds| ==> ds[i].at <= ds[j].at)
    && forall i :: 0 <= i < |ds| ==> ds[i].window == window
  }

  /** No two verified deliveries in one peer bucket share a non-empty nonce within the window. */
  lemma {:induction false} NeverTwice(lib: Library, ds: seq<Delivery>, i: nat, j: nat, window: nat)
    requires i < j < |ds| && OneClockOneWindow(ds, window)
    requires Verifies(lib, ds, i) && Verifies(lib, ds, j)
    requires ds[i].peer == ds[j].peer
    requires ds[i].envelope.value.nonce == ds[j].envelope.value.nonce != ""
    ensures ds[j].at - ds[i].at > window
  {
    var calls := NonceCalls(lib, ds);
    WindowIsExact(calls, j, window);
    assert !Replays(calls, i, j, window);
  }

  /** Both reach the nonce check, in one peer bucket, with one nonce. */
  predicate SameNonce(lib: Library, d: Delivery, e: Delivery) {
    && Decodes(lib, d) && Decodes(lib, e)
    && d.peer == e.peer && d.envelope.value.nonce == e.envelope.value.nonce
  }

  /** Delivery j, authentic or not, had the nonce of delivery n accepted at most a window before it. */
  predicate TakesNonce(lib: Library, ds: seq<Delivery>, j: int, n: nat, window: nat)
    requires n < |ds|
  {
    && 0 <= j < n && SameNonce(lib, ds[j], ds[n])
    && Accepted(NonceCalls(lib, ds), j) && ds[n].at - ds[j].at <= window
  }

  /** An authentic envelope with a nonce is refused iff the nonce was taken within the window, be it by a forged one. */
  lemma {:induction false} RefusedIffTaken(lib: Library, ds: seq<Delivery>, n: nat, window: nat)
    requires n < |ds| && OneClockOneWindow(ds, window)
    requires Decodes(lib, ds[n]) && Authentic(lib, ds[n]) && ds[n].envelope.value.nonce != ""
    ensures !Verifies(lib, ds, n) <==> exists j :: TakesNonce(lib, ds, j, n, window)
  {
    var calls := NonceCalls(lib, ds);
    WindowIsExact(calls, n, window);
    if !Verifies(lib, ds, n) {
      var j :| 0 <= j < n && Replays(calls, j, n, window);
      assert calls[j] == NonceCall(lib, ds[j]);
      assert TakesNonce(lib, ds, j, n, window);
    }
    if j :| TakesNonce(lib, ds, j, n, window) {
      assert Replays(calls, j, n, window);
    }
  }

  /** It happens: a forged envelope takes the nonce, and the authentic one after it is refused. */
  lemma {:induction false} ForgedTakesNonce(lib: Library, forged: Delivery, genuine: Delivery)
    requires SameNonce(lib, forged, genuine) && genuine.envelope.value.nonce != ""
    requires !Authentic(lib, forged) && Authentic(lib, genuine)
    requires forged.window == genuine.window && forged.at <= genuine.at <= forged.at + genuine.window
    ensures !Verifies(lib, [forged, genuine], 0) && !Verifies(lib, [forged, genuine], 1) && Verifies(lib, [genuine], 0)
  {
    var ds := [forged, genuine];
    AcceptedIff(NonceCalls(lib, ds), 0);
    assert TakesNonce(lib, ds, 0, 1, genuine.window);
    RefusedIffTaken(lib, ds, 1, genuine.window);
    RefusedIffTaken(lib, [genuine], 0, genuine.window);
  }
}
