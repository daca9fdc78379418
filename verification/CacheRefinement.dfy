/** The cache of a service, followed from a snapshot through the watch, against the store it follows. */
module CacheRefinement {
  import opened Etcd
  import opened AddressList
  import opened DiscoveryCache

  /** The events of one revision that a watch on `prefix` delivers. */
  function EventsOf(m: Mutation, prefix: string): seq<Event> {
    match m
    case Put(k, v, _) => if prefix <= k then [PutEvent(k, v)] else []
    case Delete(ks) => DeletesOf(ks, prefix)
  }

  function DeletesOf(ks: seq<string>, prefix: string): seq<Event> {
    if ks == [] then []
    else (if prefix <= ks[0] then [DeleteEvent(ks[0])] else []) + DeletesOf(ks[1..], prefix)
  }

  /** The events a watch started after revision `base` has delivered by revision `now`. */
  function WatchEvents(log: Log, prefix: string, base: nat, now: nat): seq<Event>
    requires base <= now <= |log|
    decreases now
  {
    if base == now then [] else WatchEvents(log, prefix, base, now - 1) + EventsOf(log[now - 1], prefix)
  }

  /** The cached list after a read of revision `base` and the watch from the next revision on. */
  function CacheAt(log: Log, prefix: string, es: seq<Entry>, base: nat, now: nat): (list: seq<Address>)
    requires base <= now <= |log|
    ensures UniqueKeys(list)
  {
    HandleAllIsUpdateAll([], SnapshotEvents(es));
    HandleAllIsUpdateAll(HandleAll([], SnapshotEvents(es)), WatchEvents(log, prefix, base, now));
    HandleAll(HandleAll([], SnapshotEvents(es)), WatchEvents(log, prefix, base, now))
  }

  /** That list, read as a map. */
  ghost function MapAt(log: Log, prefix: string, es: seq<Entry>, base: nat, now: nat): map<string, Address>
    requires base <= now <= |log|
  {
    AsMap(CacheAt(log, prefix, es, base, now))
  }

  lemma {:induction false} UpdateAllAppends(m: map<string, Address>, es: seq<Event>, more: seq<Event>)
    ensures UpdateAll(m, es + more) == UpdateAll(UpdateAll(m, es), more)
    decreases |es|
  {
    if es == [] {
      assert es + more == more;
    } else {
      assert (es + more)[1..] == es[1..] + more;
      UpdateAllAppends(Update(m, es[0]), es[1..], more);
    }
  }

  /** The decodable part of the store under a prefix. */
  function Decoded(c: Contents, prefix: string): map<string, Address> {
    map k | k in c && prefix <= k && c[k].value.Encoded? :: ToAddress(k, c[k].value.info)
  }

  /** What the cache holds of a key, at any revision: nothing unless the store has the key, and the decoded current
      value whenever that decodes. */
  ghost predicate Follows(m: map<string, Address>, c: Contents, prefix: string) {
    && (forall k | k in m :: k in c) && UnderPrefix(m, prefix)
    && (forall k | k in Decoded(c, prefix) :: k in m && m[k] == Decoded(c, prefix)[k])
  }

  predicate UnderPrefix(m: map<string, Address>, prefix: string) {
    forall k | k in m :: prefix <= k
  }

  lemma UpdateAllFirst(m: map<string, Address>, e: Event, es: seq<Event>)
    ensures UpdateAll(m, [e] + es) == UpdateAll(Update(m, e), es)
  {
    assert ([e] + es)[1..] == es;
  }

  /** A map without some keys. */
  function Without(m: map<string, Address>, ks: seq<string>): map<string, Address> {
    map k | k in m && k !in ks :: m[k]
  }

  lemma WithoutOneMore(m: map<string, Address>, k: string, ks: seq<string>)
    ensures Without(m - {k}, ks) == Without(m, [k] + ks)
  {
  }

  lemma {:induction false} DeletesRemove(m: map<string, Address>, ks: seq<string>, prefix: string)
    requires UnderPrefix(m, prefix)
    ensures UpdateAll(m, DeletesOf(ks, prefix)) == Without(m, ks)
    decreases |ks|
  {
    if ks != [] {
      var k, rest := ks[0], ks[1..];
      DeletesRemove(m - {k}, rest, prefix);
      WithoutOneMore(m, k, rest);
      assert ks == [k] + rest;
      if prefix <= k {
        UpdateAllFirst(m, DeleteEvent(k), DeletesOf(rest, prefix));
      } else {
        assert m - {k} == m;
        assert DeletesOf(ks, prefix) == DeletesOf(rest, prefix);
      }
    }
  }

  lemma StepKeepsFollowing(m: map<string, Address>, c: Contents, prefix: string, u: Mutation, rev: nat)
    requires Follows(m, c, prefix)
    ensures Follows(UpdateAll(m, EventsOf(u, prefix)), Apply(c, u, rev), prefix)
  {
    match u
    case Delete(ks) => DeletesRemove(m, ks, prefix);
    case Put(k, v, _) => assert prefix <= k ==> UpdateAll(m, [PutEvent(k, v)]) == Update(m, PutEvent(k, v));
  }

  /** Loading a reply touches exactly the keys in it whose values decode. */
  lemma {:induction false} SnapshotTouches(m: map<string, Address>, es: seq<Entry>, k: string)
    requires forall i, j | 0 <= i < j < |es| :: es[i].key != es[j].key
    ensures var r := UpdateAll(m, SnapshotEvents(es));
            && ((forall i | 0 <= i < |es| :: es[i].key != k || es[i].kv.value.Malformed?) ==>
                  (k in r <==> k in m) && (k in m ==> r[k] == m[k]))
            && (forall i | 0 <= i < |es| && es[i].key == k && es[i].kv.value.Encoded? ::
                  k in r && r[k] == ToAddress(k, es[i].kv.value.info))
    decreases |es|
  {
    if es != [] {
      var next := Update(m, PutEvent(es[0].key, es[0].kv.value));
      SnapshotTouches(next, es[1..], k);
      assert SnapshotEvents(es)[1..] == SnapshotEvents(es[1..]);
      assert forall i | 0 <= i < |es| - 1 :: es[1..][i] == es[i + 1];
      forall i | 0 <= i < |es| && es[i].key == k && es[i].kv.value.Encoded?
        ensures k in UpdateAll(m, SnapshotEvents(es))
                && UpdateAll(m, SnapshotEvents(es))[k] == ToAddress(k, es[i].kv.value.info)
      {
        assert i > 0 ==> es[1..][i - 1] == es[i];
      }
    }
  }

  lemma SnapshotFollows(es: seq<Entry>, c: Contents, prefix: string)
    requires IsRange(es, c, prefix)
    ensures Follows(UpdateAll(map[], SnapshotEvents(es)), c, prefix)
  {
    var r := UpdateAll(map[], SnapshotEvents(es));
    forall k
      ensures k in r ==> k in c && prefix <= k
      ensures k in Decoded(c, prefix) ==> k in r && r[k] == Decoded(c, prefix)[k]
    {
      SnapshotTouches(map[], es, k);
      if k in c && prefix <= k {
        var i :| 0 <= i < |es| && es[i].key == k;
      }
    }
  }

  /** A map after the watch events of the revisions from `base` to `now`, one revision at a time. */
  function Watched(m: map<string, Address>, log: Log, prefix: string, base: nat, now: nat): map<string, Address>
    requires base <= now <= |log|
    decreases now
  {
    if base == now then m else UpdateAll(Watched(m, log, prefix, base, now - 1), EventsOf(log[now - 1], prefix))
  }

  lemma {:induction false} WatchedIsUpdates(m: map<string, Address>, log: Log, prefix: string, base: nat, now: nat)
    returns (events: seq<Event>)
    requires base <= now <= |log|
    ensures events == WatchEvents(log, prefix, base, now)
    ensures UpdateAll(m, events) == Watched(m, log, prefix, base, now)
    decreases now
  {
    if base == now {
      events := [];
    } else {
      var before := WatchedIsUpdates(m, log, prefix, base, now - 1);
      WatchedNext(m, log, prefix, base, now, before);
      events := before + EventsOf(log[now - 1], prefix);
    }
  }

  lemma WatchedNext(m: map<string, Address>, log: Log, prefix: string, base: nat, now: nat, before: seq<Event>)
    requires base < now <= |log| && UpdateAll(m, before) == Watched(m, log, prefix, base, now - 1)
    ensures UpdateAll(m, before + EventsOf(log[now - 1], prefix)) == Watched(m, log, prefix, base, now)
  {
    UpdateAllAppends(m, before, EventsOf(log[now - 1], prefix));
  }

  /** The cached map is what the read makes of nothing, and the watch of that. */
  lemma MapAtIsUpdates(log: Log, prefix: string, es: seq<Entry>, base: nat, now: nat)
    requires base <= now <= |log|
    ensures MapAt(log, prefix, es, base, now) ==
              Watched(UpdateAll(map[], SnapshotEvents(es)), log, prefix, base, now)
  {
    HandleAllIsUpdateAll([], SnapshotEvents(es));
    HandleAllIsUpdateAll(HandleAll([], SnapshotEvents(es)), WatchEvents(log, prefix, base, now));
    var events := WatchedIsUpdates(UpdateAll(map[], SnapshotEvents(es)), log, prefix, base, now);
  }

  lemma {:induction false} WatchedFollows(m: map<string, Address>, log: Log, prefix: string, base: nat, now: nat)
    requires base <= now <= |log| && Follows(m, At(log, base), prefix)
    ensures Follows(Watched(m, log, prefix, base, now), At(log, now), prefix)
    decreases now
  {
    if base < now {
      WatchedFollows(m, log, prefix, base, now - 1);
      StepKeepsFollowing(Watched(m, log, prefix, base, now - 1), At(log, now - 1), prefix, log[now - 1], now);
    }
  }

  /** At every revision the cache follows the store, for any log, any start revision and any stored bytes. */
  lemma CacheFollowsStore(log: Log, prefix: string, es: seq<Entry>, base: nat, now: nat)
    requires base <= now <= |log| && IsRange(es, At(log, base), prefix)
    ensures Follows(MapAt(log, prefix, es, base, now), At(log, now), prefix)
  {
    MapAtIsUpdates(log, prefix, es, base, now);
    SnapshotFollows(es, At(log, base), prefix);
    WatchedFollows(UpdateAll(map[], SnapshotEvents(es)), log, prefix, base, now);
  }

  /** Starting from `was`: a value of `k` that decodes has been put after revision `base`, or `was` held, and `k` has
      not been deleted since. */
  predicate SeenSince(log: Log, k: string, base: nat, now: nat, was: bool)
    requires base <= now <= |log|
    decreases now
  {
    if base == now then was
    else
      match log[now - 1]
      case Put(p, v, _) => (p == k && v.Encoded?) || SeenSince(log, k, base, now - 1, was)
      case Delete(ks) => k !in ks && SeenSince(log, k, base, now - 1, was)
  }

  /** A value of `k` that decodes has been read at revision `base` or put since, and `k` not deleted after that. */
  predicate Seen(log: Log, k: string, base: nat, now: nat)
    requires base <= now <= |log|
  {
    SeenSince(log, k, base, now, k in At(log, base) && At(log, base)[k].value.Encoded?)
  }

  lemma EventsKeepSeen(m: map<string, Address>, u: Mutation, prefix: string, k: string)
    requires prefix <= k && UnderPrefix(m, prefix)
    ensures UnderPrefix(UpdateAll(m, EventsOf(u, prefix)), prefix)
    ensures k in UpdateAll(m, EventsOf(u, prefix)) <==>
              match u
              case Put(p, v, _) => (p == k && v.Encoded?) || k in m
              case Delete(ks) => k !in ks && k in m
  {
    match u
    case Delete(ks) => DeletesRemove(m, ks, prefix);
    case Put(p, v, _) => assert prefix <= p ==> UpdateAll(m, [PutEvent(p, v)]) == Update(m, PutEvent(p, v));
  }

  lemma {:induction false} WatchedHoldsTheSeen(m: map<string, Address>, log: Log, prefix: string, base: nat, now: nat,
                                               k: string)
    requires base <= now <= |log| && prefix <= k && UnderPrefix(m, prefix)
    ensures UnderPrefix(Watched(m, log, prefix, base, now), prefix)
    ensures k in Watched(m, log, prefix, base, now) <==> SeenSince(log, k, base, now, k in m)
    decreases now
  {
    hide UnderPrefix, EventsOf, UpdateAll;
    if base < now {
      WatchedHoldsTheSeen(m, log, prefix, base, now - 1, k);
      EventsKeepSeen(Watched(m, log, prefix, base, now - 1), log[now - 1], prefix, k);
    }
  }

  lemma SnapshotHoldsTheSeen(es: seq<Entry>, c: Contents, prefix: string, k: string)
    requires IsRange(es, c, prefix) && prefix <= k
    ensures k in UpdateAll(map[], SnapshotEvents(es)) <==> k in c && c[k].value.Encoded?
  {
    SnapshotTouches(map[], es, k);
    if k in c {
      var i :| 0 <= i < |es| && es[i].key == k;
    }
  }

  /** The cache has a key exactly when a value of it that decodes was seen and the key not deleted since. */
  lemma CacheHoldsTheSeen(log: Log, prefix: string, es: seq<Entry>, base: nat, now: nat, k: string)
    requires base <= now <= |log| && IsRange(es, At(log, base), prefix) && prefix <= k
    ensures k in MapAt(log, prefix, es, base, now) <==> Seen(log, k, base, now)
  {
    MapAtIsUpdates(log, prefix, es, base, now);
    SnapshotFollows(es, At(log, base), prefix);
    SnapshotHoldsTheSeen(es, At(log, base), prefix, k);
    WatchedHoldsTheSeen(UpdateAll(map[], SnapshotEvents(es)), log, prefix, base, now, k);
  }

  /** The cache is exactly the decoded store unless some key holds a value that does not decode and an earlier one
      that did was seen with no delete in between: that one is still shown. */
  lemma CacheIsTheStoreIffNothingStale(log: Log, prefix: string, es: seq<Entry>, base: nat, now: nat)
    requires base <= now <= |log| && IsRange(es, At(log, base), prefix)
    ensures MapAt(log, prefix, es, base, now) == Decoded(At(log, now), prefix) <==>
              forall k | k in At(log, now) && prefix <= k && At(log, now)[k].value.Malformed? ::
                !Seen(log, k, base, now)
  {
    var m, c := MapAt(log, prefix, es, base, now), At(log, now);
    CacheFollowsStore(log, prefix, es, base, now);
    forall k | prefix <= k ensures k in m <==> Seen(log, k, base, now) {
      CacheHoldsTheSeen(log, prefix, es, base, now, k);
    }
    FollowingIsEqualIff(m, c, prefix);
  }

  lemma FollowingIsEqualIff(m: map<string, Address>, c: Contents, prefix: string)
    requires Follows(m, c, prefix)
    ensures m == Decoded(c, prefix) <==> forall k | k in c && prefix <= k && c[k].value.Malformed? :: k !in m
  {
    if forall k | k in c && prefix <= k && c[k].value.Malformed? :: k !in m {
      forall k ensures k in m <==> k in Decoded(c, prefix) {
        assert k in m ==> k in c && prefix <= k;
      }
    }
  }

  /** For instance a registration overwritten by bytes that do not decode stays in the cache. */
  lemma AnOverwrittenRegistrationIsStale(k: string, info: ServerInfo, raw: Value, l: nat, prefix: string)
    requires prefix <= k && raw.Malformed?
    ensures var log := [Put(k, Encoded(info), l), Put(k, raw, l)];
            k in MapAt(log, prefix, [], 0, 2) && k !in Decoded(At(log, 2), prefix)
  {
    var log := [Put(k, Encoded(info), l), Put(k, raw, l)];
    assert At(log, 0) == map[] && At(log, 2) == Apply(At(log, 1), log[1], 2);
    assert SeenSince(log, k, 0, 1, false) && SeenSince(log, k, 0, 2, false);
    CacheHoldsTheSeen(log, prefix, [], 0, 2, k);
  }

  /** Every put under the prefix among the first `now` revisions decodes. */
  ghost predicate AllDecode(log: Log, prefix: string, now: nat)
    requires now <= |log|
  {
    forall r | 0 <= r < now && log[r].Put? && prefix <= log[r].key :: log[r].value.Encoded?
  }

  lemma {:induction false} DecodingLogsDecode(log: Log, prefix: string, now: nat)
    requires now <= |log| && AllDecode(log, prefix, now)
    ensures forall k | k in At(log, now) && prefix <= k :: At(log, now)[k].value.Encoded?
    decreases now
  {
    if now > 0 {
      DecodingLogsDecode(log, prefix, now - 1);
    }
  }

  /** So with decodable puts the cache at revision `now` is the store at revision `now`: the watch from the revision
      after the read leaves neither a gap nor an overlap. */
  lemma CacheRefinesStore(log: Log, prefix: string, es: seq<Entry>, base: nat, now: nat)
    requires base <= now <= |log| && IsRange(es, At(log, base), prefix) && AllDecode(log, prefix, now)
    ensures MapAt(log, prefix, es, base, now) == Decoded(At(log, now), prefix)
  {
    CacheFollowsStore(log, prefix, es, base, now);
    DecodingLogsDecode(log, prefix, now);
  }

  /** Every cached key is stored, and cached with its current value if that decodes. */
  ghost predicate Current(m: map<string, Address>, c: Contents, prefix: string) {
    && UnderPrefix(m, prefix)
    && forall k | k in m :: k in c && (c[k].value.Encoded? ==> m[k] == ToAddress(k, c[k].value.info))
  }

  lemma {:induction false} WatchedIsCurrent(m: map<string, Address>, log: Log, prefix: string, base: nat, now: nat)
    requires base <= now <= |log| && Current(m, At(log, base), prefix)
    ensures Current(Watched(m, log, prefix, base, now), At(log, now), prefix)
    decreases now
  {
    hide Current, EventsOf, UpdateAll, Apply;
    if base < now {
      WatchedIsCurrent(m, log, prefix, base, now - 1);
      StepKeepsCurrent(Watched(m, log, prefix, base, now - 1), At(log, now - 1), prefix, log[now - 1], now);
    }
  }

  lemma StepKeepsCurrent(m: map<string, Address>, c: Contents, prefix: string, u: Mutation, rev: nat)
    requires Current(m, c, prefix)
    ensures Current(UpdateAll(m, EventsOf(u, prefix)), Apply(c, u, rev), prefix)
  {
    match u
    case Delete(ks) => DeletesRemove(m, ks, prefix);
    case Put(k, v, _) => assert prefix <= k ==> UpdateAll(m, [PutEvent(k, v)]) == Update(m, PutEvent(k, v));
  }

  /** When the initial read fails the watch starts at the revision it reaches the store, with an empty list. Whatever
      is stored, the cache then has exactly the keys put with a value that decodes, and not deleted, since then: what
      was stored before and has not been put again is missed. */
  lemma WithoutSnapshotOldKeysAreMissed(log: Log, prefix: string, base: nat, now: nat)
    requires base <= now <= |log|
    ensures var list := HandleAll([], WatchEvents(log, prefix, base, now));
            && UniqueKeys(list) && Current(AsMap(list), At(log, now), prefix)
            && forall k | prefix <= k :: k in AsMap(list) <==> SeenSince(log, k, base, now, false)
  {
    HandleAllIsUpdateAll([], WatchEvents(log, prefix, base, now));
    var events := WatchedIsUpdates(map[], log, prefix, base, now);
    WatchedIsCurrent(map[], log, prefix, base, now);
    forall k | prefix <= k
      ensures k in Watched(map[], log, prefix, base, now) <==> SeenSince(log, k, base, now, false)
    {
      WatchedHoldsTheSeen(map[], log, prefix, base, now, k);
    }
  }
}
