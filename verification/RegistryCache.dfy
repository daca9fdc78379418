/** The two halves together: what a discovery cache shows of a running registry. */
module RegistryCache {
  import opened Etcd
  import opened AddressList
  import opened Registry
  import opened LeaseInvariant
  import opened CacheRefinement
  import opened Collections
  import opened DiscoveryCache
  import KeyLayout

  /** Instances put only values that decode. */
  lemma OwnPutsDecode(cfg: Cluster, log: Log, path: string, now: nat)
    requires OwnPutsOnly(cfg, log) && now <= |log|
    ensures AllDecode(log, path, now)
  {
    forall r | 0 <= r < now && log[r].Put? && path <= log[r].key
      ensures log[r].value.Encoded?
    {
      var i :| 0 <= i < |cfg| && log[r].key == KeyOf(cfg[i]) && log[r].value == Encoded(cfg[i].info);
    }
  }

  /** A stored key belongs to one of the instances, and is under a service's path exactly when the instance is one of
      that service. */
  lemma StoredKeysHaveOwners(cfg: Cluster, log: Log, now: nat, service: string, k: string) returns (i: nat)
    requires OwnPutsOnly(cfg, log) && now <= |log| && k in At(log, now)
    requires service in KeyLayout.NAMES && forall j | 0 <= j < |cfg| :: cfg[j].name in KeyLayout.NAMES
    ensures i < |cfg| && k == KeyOf(cfg[i]) && At(log, now)[k].value == Encoded(cfg[i].info)
    ensures KeyLayout.ServiceDiscoveryName(service) <= k <==> cfg[i].name == service
  {
    SnapshotsHoldOwnValues(cfg, log, now, k);
    i :| 0 <= i < |cfg| && k == KeyOf(cfg[i]) && At(log, now)[k].value == Encoded(cfg[i].info);
    KeyLayout.NoServiceCapturesAnother(service, cfg[i].name, cfg[i].uid);
  }

  /** In every run of registrations, keep-alive rounds, shutdowns and expiries, the cache of a service at revision
      `now` lists exactly the instances of that service stored then, each with what it published. */
  lemma CacheListsTheRegisteredInstances(cfg: Cluster, run: seq<Label>, service: string, es: seq<Entry>,
                                         base: nat, now: nat)
    requires ValidCluster(cfg) && (forall i | 0 <= i < |cfg| :: cfg[i].name in KeyLayout.NAMES)
    requires ValidRun(cfg, Initial(cfg), run) && service in KeyLayout.NAMES
    requires var log := Exec(cfg, Initial(cfg), run).log;
             base <= now <= |log| && IsRange(es, At(log, base), KeyLayout.ServiceDiscoveryName(service))
    ensures var log, path := Exec(cfg, Initial(cfg), run).log, KeyLayout.ServiceDiscoveryName(service);
            var m := MapAt(log, path, es, base, now);
            && (forall k :: k in m <==> k in At(log, now)
                                         && exists i :: 0 <= i < |cfg| && cfg[i].name == service && k == KeyOf(cfg[i]))
            && (forall i | 0 <= i < |cfg| && cfg[i].name == service && KeyOf(cfg[i]) in At(log, now) ::
                  m[KeyOf(cfg[i])] == Address(cfg[i].info.url, KeyOf(cfg[i]), (set l | l in cfg[i].info.labels),
                                              cfg[i].info.disableElection, cfg[i].info.env))
  {
    var log, path := Exec(cfg, Initial(cfg), run).log, KeyLayout.ServiceDiscoveryName(service);
    ReachableInv(cfg, run);
    OwnPutsDecode(cfg, log, path, now);
    CacheRefinesStore(log, path, es, base, now);
    forall k | k in At(log, now)
      ensures exists i :: 0 <= i < |cfg| && k == KeyOf(cfg[i]) && At(log, now)[k].value == Encoded(cfg[i].info)
                          && (path <= k <==> cfg[i].name == service)
    {
      var i := StoredKeysHaveOwners(cfg, log, now, service, k);
    }
    forall i | 0 <= i < |cfg|
      ensures path <= KeyOf(cfg[i]) <==> cfg[i].name == service
    {
      KeyLayout.NoServiceCapturesAnother(service, cfg[i].name, cfg[i].uid);
    }
    forall i, j | 0 <= i < |cfg| && 0 <= j < |cfg| && KeyOf(cfg[i]) == KeyOf(cfg[j])
      ensures i == j
    {
    }
  }
  /** A lookup asks for the instances of its environment that have all the requested labels; without any it asks for
      those without labels. */
  predicate Asked(c: Config, env: string, labels: seq<string>) {
    c.info.env == env && (labels == [] ==> c.info.labels == []) && forall l | l in labels :: l in c.info.labels
  }

  lemma WantedIffAsked(c: Config, env: string, labels: seq<string>)
    ensures Wanted(AddressOf(c), env, labels) <==> Asked(c, env, labels)
  {
    assert forall l :: l in AddressOf(c).labels <==> l in c.info.labels;
    assert c.info.labels != [] ==> c.info.labels[0] in AddressOf(c).labels;
  }

  /** The entry an instance has in a cache. */
  function AddressOf(c: Config): Address {
    ToAddress(KeyOf(c), c.info)
  }

  function Urls(cfg: Cluster, owners: seq<nat>): seq<string>
    requires AreOwners(cfg, owners)
  {
    if owners == [] then [] else [cfg[owners[0]].info.url] + Urls(cfg, owners[1..])
  }

  predicate AreOwners(cfg: Cluster, owners: seq<nat>) {
    forall p | 0 <= p < |owners| :: owners[p] < |cfg|
  }

  ghost predicate InOrderOfBirth(cfg: Cluster, owners: seq<nat>, events: seq<Event>)
    requires AreOwners(cfg, owners)
  {
    forall p, q | 0 <= p < q < |owners| ::
      Birth(events, KeyOf(cfg[owners[p]])) < Birth(events, KeyOf(cfg[owners[q]]))
  }

  /** A list of instances' entries in the order of their births. */
  ghost predicate ListsInstances(cfg: Cluster, list: seq<Address>, events: seq<Event>) {
    && (forall p | 0 <= p < |list| :: HasOwner(cfg, list[p]))
    && (forall p, q | 0 <= p < q < |list| :: Birth(events, list[p].key) < Birth(events, list[q].key))
  }

  ghost predicate HasOwner(cfg: Cluster, a: Address) {
    exists i: nat :: i < |cfg| && a == AddressOf(cfg[i])
  }

  /** The instances whose entries are in the list and asked for. */
  ghost predicate OwnWanted(cfg: Cluster, list: seq<Address>, env: string, labels: seq<string>, owners: seq<nat>)
    requires AreOwners(cfg, owners)
  {
    forall i: nat | i < |cfg| :: i in owners <==> AddressOf(cfg[i]) in list && Asked(cfg[i], env, labels)
  }

  /** The owners of the wanted entries of such a list. */
  lemma {:induction false} OwnersOfWanted(cfg: Cluster, list: seq<Address>, events: seq<Event>, env: string,
                                          labels: seq<string>) returns (owners: seq<nat>)
    requires ValidCluster(cfg) && ListsInstances(cfg, list, events)
    ensures AreOwners(cfg, owners) && OwnWanted(cfg, list, env, labels, owners)
    ensures Urls(cfg, owners) == WantedAddresses(list, env, labels) && InOrderOfBirth(cfg, owners, events)
  {
    hide ValidCluster, OwnWanted, InOrderOfBirth, Birth, Asked, Wanted;
    if list == [] {
      owners := [];
      NobodyOwnsNothing(cfg, env, labels, events);
    } else {
      ListsFewer(cfg, list, events);
      var rest := OwnersOfWanted(cfg, list[1..], events, env, labels);
      assert HasOwner(cfg, list[0]);
      var first: nat :| first < |cfg| && list[0] == AddressOf(cfg[first]);
      WantedIffAsked(cfg[first], env, labels);
      if Asked(cfg[first], env, labels) {
        OneMoreOwner(cfg, list, events, env, labels, rest, first);
        owners := [first] + rest;
        assert owners[1..] == rest;
      } else {
        NoMoreOwners(cfg, list, env, labels, rest, first);
        owners := rest;
      }
    }
  }

  lemma NobodyOwnsNothing(cfg: Cluster, env: string, labels: seq<string>, events: seq<Event>)
    ensures AreOwners(cfg, []) && OwnWanted(cfg, [], env, labels, []) && InOrderOfBirth(cfg, [], events)
  {
  }

  lemma ListsFewer(cfg: Cluster, list: seq<Address>, events: seq<Event>)
    requires ListsInstances(cfg, list, events) && list != []
    ensures ListsInstances(cfg, list[1..], events)
    ensures forall a | a in list[1..] :: Birth(events, list[0].key) < Birth(events, a.key)
  {
  }

  /** Instances with one entry are one instance, so the first entry adds its owner only. */
  lemma ListedAgain(cfg: Cluster, list: seq<Address>, first: nat, i: nat)
    requires ValidCluster(cfg) && i < |cfg|
    requires list != [] && first < |cfg| && list[0] == AddressOf(cfg[first])
    ensures AddressOf(cfg[i]) in list <==> i == first || AddressOf(cfg[i]) in list[1..]
  {
    KeysAreOwn(cfg);
    assert list == [list[0]] + list[1..];
  }

  lemma NoMoreOwners(cfg: Cluster, list: seq<Address>, env: string, labels: seq<string>, rest: seq<nat>, first: nat)
    requires ValidCluster(cfg) && list != [] && AreOwners(cfg, rest) && OwnWanted(cfg, list[1..], env, labels, rest)
    requires first < |cfg| && list[0] == AddressOf(cfg[first]) && !Asked(cfg[first], env, labels)
    ensures OwnWanted(cfg, list, env, labels, rest)
  {
    hide ValidCluster, Asked, AddressOf;
    forall i: nat | i < |cfg|
      ensures i in rest <==> AddressOf(cfg[i]) in list && Asked(cfg[i], env, labels)
    {
      ListedAgain(cfg, list, first, i);
    }
  }

  lemma OneMoreOwner(cfg: Cluster, list: seq<Address>, events: seq<Event>, env: string, labels: seq<string>,
                     rest: seq<nat>, first: nat)
    requires ValidCluster(cfg) && AreOwners(cfg, rest) && InOrderOfBirth(cfg, rest, events)
    requires list != [] && OwnWanted(cfg, list[1..], env, labels, rest)
    requires first < |cfg| && list[0] == AddressOf(cfg[first]) && Asked(cfg[first], env, labels)
    requires forall a | a in list[1..] :: Birth(events, list[0].key) < Birth(events, a.key)
    ensures AreOwners(cfg, [first] + rest)
    ensures OwnWanted(cfg, list, env, labels, [first] + rest) && InOrderOfBirth(cfg, [first] + rest, events)
  {
    hide ValidCluster, Asked, Birth, KeyOf;
    forall i: nat | i < |cfg|
      ensures i in [first] + rest <==> AddressOf(cfg[i]) in list && Asked(cfg[i], env, labels)
    {
      ListedAgain(cfg, list, first, i);
    }
    forall q | 0 <= q < |rest|
      ensures Birth(events, KeyOf(cfg[first])) < Birth(events, KeyOf(cfg[rest[q]]))
    {
      assert rest[q] in rest && AddressOf(cfg[rest[q]]) in list[1..];
    }
  }

  /** From what the map holds to what the list holds. */
  lemma EntriesHaveOwners(cfg: Cluster, list: seq<Address>, service: string, c: Contents)
    requires ValidCluster(cfg) && UniqueKeys(list)
    requires forall k :: k in AsMap(list) <==>
                           (k in c && exists i :: 0 <= i < |cfg| && cfg[i].name == service && k == KeyOf(cfg[i]))
    requires forall i | 0 <= i < |cfg| && cfg[i].name == service && KeyOf(cfg[i]) in c ::
               AsMap(list)[KeyOf(cfg[i])] == AddressOf(cfg[i])
    ensures forall p | 0 <= p < |list| :: HasOwner(cfg, list[p])
    ensures forall i | 0 <= i < |cfg| :: AddressOf(cfg[i]) in list <==> cfg[i].name == service && KeyOf(cfg[i]) in c
  {
    EntriesAreTheMap(list);
    forall a | a in list
      ensures exists i: nat :: i < |cfg| && cfg[i].name == service && KeyOf(cfg[i]) in c && a == AddressOf(cfg[i])
    {
      var p :| 0 <= p < |list| && list[p] == a;
      var i :| 0 <= i < |cfg| && cfg[i].name == service && list[p].key == KeyOf(cfg[i]);
    }
    forall i | 0 <= i < |cfg| && cfg[i].name == service && KeyOf(cfg[i]) in c
      ensures AddressOf(cfg[i]) in list
    {
      assert KeyOf(cfg[i]) in AsMap(list) && HasKey(list, KeyOf(cfg[i]));
      var p :| 0 <= p < |list| && list[p].key == KeyOf(cfg[i]);
    }
    KeysAreOwn(cfg);
  }

  lemma KeysAreOwn(cfg: Cluster)
    requires ValidCluster(cfg)
    ensures forall i, j | 0 <= i < |cfg| && 0 <= j < |cfg| && KeyOf(cfg[i]) == KeyOf(cfg[j]) :: i == j
  {
  }

  lemma CachesAreInBirthOrder(log: Log, path: string, es: seq<Entry>, base: nat, now: nat)
    requires base <= now <= |log|
    ensures InBirthOrder(CacheAt(log, path, es, base, now), SnapshotEvents(es) + WatchEvents(log, path, base, now))
  {
    HandleAllAppends([], SnapshotEvents(es), WatchEvents(log, path, base, now));
    SurvivorsKeepTheirOrder(SnapshotEvents(es) + WatchEvents(log, path, base, now));
  }

  /** The list the cache has in a run. */
  lemma CacheListsInstances(cfg: Cluster, run: seq<Label>, log: Log, service: string, es: seq<Entry>, base: nat,
                            now: nat)
    returns (list: seq<Address>)
    requires ValidCluster(cfg) && (forall i | 0 <= i < |cfg| :: cfg[i].name in KeyLayout.NAMES)
    requires ValidRun(cfg, Initial(cfg), run) && log == Exec(cfg, Initial(cfg), run).log && service in KeyLayout.NAMES
    requires base <= now <= |log| && IsRange(es, At(log, base), KeyLayout.ServiceDiscoveryName(service))
    ensures var path := KeyLayout.ServiceDiscoveryName(service);
            && list == CacheAt(log, path, es, base, now)
            && ListsInstances(cfg, list, SnapshotEvents(es) + WatchEvents(log, path, base, now))
    ensures forall i | 0 <= i < |cfg| ::
              AddressOf(cfg[i]) in list <==> cfg[i].name == service && KeyOf(cfg[i]) in At(log, now)
  {
    hide At, Exec, Birth, ValidRun, HandleAll, IsRange, KeyOf;
    var path := KeyLayout.ServiceDiscoveryName(service);
    list := CacheAt(log, path, es, base, now);
    CachesAreInBirthOrder(log, path, es, base, now);
    CacheListsTheRegisteredInstances(cfg, run, service, es, base, now);
    EntriesHaveOwners(cfg, list, service, At(log, now));
  }

  /** In every such run a lookup for labels that do not repeat returns the addresses of exactly the instances it asks
      for that are stored at revision `now`, each once, in the order in which the cache first saw them put since they
      were last removed. */
  lemma LookupsReturnTheRegisteredInstances(cfg: Cluster, run: seq<Label>, log: Log, service: string, es: seq<Entry>,
                                            base: nat, now: nat, env: string, labels: seq<string>)
    returns (owners: seq<nat>)
    requires ValidCluster(cfg) && (forall i | 0 <= i < |cfg| :: cfg[i].name in KeyLayout.NAMES)
    requires ValidRun(cfg, Initial(cfg), run) && log == Exec(cfg, Initial(cfg), run).log
    requires service in KeyLayout.NAMES && NoDuplicates(labels)
    requires base <= now <= |log| && IsRange(es, At(log, base), KeyLayout.ServiceDiscoveryName(service))
    ensures AreOwners(cfg, owners)
    ensures forall i: nat | i < |cfg| ::
              i in owners <==> cfg[i].name == service && KeyOf(cfg[i]) in At(log, now) && Asked(cfg[i], env, labels)
    ensures var path := KeyLayout.ServiceDiscoveryName(service);
            && Pick(CacheAt(log, path, es, base, now), env, labels) == Urls(cfg, owners)
            && InOrderOfBirth(cfg, owners, SnapshotEvents(es) + WatchEvents(log, path, base, now))
  {
    hide At, Exec, CacheAt, ListsInstances, Urls, InOrderOfBirth, ValidRun, ValidCluster, IsRange, Asked;
    var path := KeyLayout.ServiceDiscoveryName(service);
    var list := CacheListsInstances(cfg, run, log, service, es, base, now);
    owners := OwnersOfWanted(cfg, list, SnapshotEvents(es) + WatchEvents(log, path, base, now), env, labels);
    PickIsTheWantedFilter(list, env, labels);
  }
}
