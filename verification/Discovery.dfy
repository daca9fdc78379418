/** The discovery object: cached lists by service, the watch loop that maintains them, and lookup by labels. */
module DiscoveryCache {
  import opened Collections
  import opened Etcd
  import opened AddressList

  datatype Lookup = Found(addresses: seq<string>) | UnknownService

  /** The tests of the lookup loop, in order; the third compares lengths before looking at the labels. */
  predicate Accepts(a: Address, env: string, labels: seq<string>) {
    && a.env == env
    && !(|labels| == 0 && |a.labels| > 0)
    && |labels| <= |a.labels|
    && forall i | 0 <= i < |labels| :: labels[i] in a.labels
  }

  /** What a lookup is for: same environment, every wanted label present, and a caller without wishes
      gets unlabelled instances only. */
  predicate Wanted(a: Address, env: string, labels: seq<string>) {
    && a.env == env
    && (forall l | l in labels :: l in a.labels)
    && (labels == [] ==> a.labels == {})
  }

  /** The addresses of the accepted entries, in list order. */
  function Pick(list: seq<Address>, env: string, labels: seq<string>): seq<string> {
    if list == [] then []
    else (if Accepts(list[0], env, labels) then [list[0].address] else []) + Pick(list[1..], env, labels)
  }

  function Members(labels: seq<string>): set<string> {
    set l | l in labels
  }

  /** A list names at most as many labels as it is long, and exactly as many when it repeats none. */
  lemma {:induction false} Pigeonhole(labels: seq<string>)
    ensures |Members(labels)| <= |labels|
    ensures |Members(labels)| == |labels| <==> NoDuplicates(labels)
  {
    if labels == [] {
    } else {
      var n := |labels| - 1;
      var init, last := labels[..n], labels[n];
      Pigeonhole(init);
      assert labels == init + [last];
      assert Members(labels) == Members(init) + {last};
      if last in init {
        assert Members(labels) == Members(init);
        var i :| 0 <= i < n && init[i] == last;
        assert labels[i] == labels[n];
      } else {
        assert NoDuplicates(labels) <==> NoDuplicates(init);
      }
    }
  }

  lemma SubsetsAreSmaller(s: set<string>, t: set<string>)
    requires s <= t
    ensures |s| <= |t|
    decreases s
  {
    if l :| l in s {
      SubsetsAreSmaller(s - {l}, t - {l});
    }
  }

  /** The length test only ever drops entries that repeated wishes make look too long, so it is exact for
      precisely those requests that repeat no label. */
  lemma LengthTestIsExactIffNoDuplicates(env: string, labels: seq<string>)
    ensures (forall a: Address :: Accepts(a, env, labels) <==> Wanted(a, env, labels)) <==> NoDuplicates(labels)
  {
    Pigeonhole(labels);
    if NoDuplicates(labels) {
      forall a: Address
        ensures Accepts(a, env, labels) <==> Wanted(a, env, labels)
      {
        if Wanted(a, env, labels) {
          SubsetsAreSmaller(Members(labels), a.labels);
        }
      }
    } else {
      var a := Address("", "", Members(labels), false, env);
      assert Wanted(a, env, labels) && !Accepts(a, env, labels);
    }
  }

  /** For such a request a lookup returns, in order, the addresses of exactly the wanted entries. */
  lemma {:induction false} PickIsTheWantedFilter(list: seq<Address>, env: string, labels: seq<string>)
    requires NoDuplicates(labels)
    ensures Pick(list, env, labels) == WantedAddresses(list, env, labels)
  {
    LengthTestIsExactIffNoDuplicates(env, labels);
    if list != [] {
      PickIsTheWantedFilter(list[1..], env, labels);
    }
  }

  function WantedAddresses(list: seq<Address>, env: string, labels: seq<string>): seq<string> {
    if list == [] then []
    else (if Wanted(list[0], env, labels) then [list[0].address] else []) + WantedAddresses(list[1..], env, labels)
  }

  /** A lookup comes back empty exactly when no entry passes: there is no second attempt with other servers. */
  lemma {:induction false} NothingFoundIff(list: seq<Address>, env: string, labels: seq<string>)
    ensures Pick(list, env, labels) == [] <==> forall a | a in list :: !Accepts(a, env, labels)
  {
    if list != [] {
      NothingFoundIff(list[1..], env, labels);
      assert list == [list[0]] + list[1..];
    }
  }

  /** So when every server lacks some requested label, all of them are left out, whatever else they are labelled. */
  lemma {:induction false} UnmatchedLabelsFindNothing(list: seq<Address>, env: string, labels: seq<string>)
    requires forall a | a in list :: exists l :: l in labels && l !in a.labels
    ensures Pick(list, env, labels) == []
  {
    forall a | a in list ensures !Accepts(a, env, labels) {
      var l :| l in labels && l !in a.labels;
    }
    NothingFoundIff(list, env, labels);
  }

  /** For instance a labelled server of the right environment is not used for a request with another label. */
  lemma OtherServersAreNotUsed()
    ensures var a := Address("http://10.0.0.1", "/hcm/services/hc-service/1", {"gold"}, false, "prod");
            Wanted(a, "prod", ["gold"]) && Pick([a], "prod", ["silver"]) == []
  {
    var a := Address("http://10.0.0.1", "/hcm/services/hc-service/1", {"gold"}, false, "prod");
    var l := "silver";
    assert l in ["silver"] && |l| != |"gold"| && l !in a.labels;
    UnmatchedLabelsFindNothing([a], "prod", [l]);
  }

  /** What a reply to the initial read contributes: the puts of its entries, in reply order. */
  function SnapshotEvents(es: seq<Entry>): seq<Event> {
    if es == [] then [] else [PutEvent(es[0].key, es[0].kv.value)] + SnapshotEvents(es[1..])
  }

  class Discovery {
    const services: seq<string>
    const env: string
    var addresses: map<string, seq<Address>>

    constructor (services: seq<string>, env: string)
      ensures this.services == services && this.env == env && addresses == map[]
    {
      this.services, this.env := services, env;
      addresses := map[];
    }

    /** The list of a service; one never stored is empty. */
    function List(service: string): seq<Address>
      reads this`addresses
    {
      if service in addresses then addresses[service] else []
    }

    twostate predicate OnlyChanges(service: string)
      reads this`addresses
    {
      forall s | s != service :: (s in addresses <==> s in old(addresses))
                                 && (s in addresses ==> addresses[s] == old(addresses)[s])
    }

    method SetAddress(service: string, key: string, server: ServerInfo)
      modifies this`addresses
      ensures addresses == old(addresses)[service := Set(old(List(service)), ToAddress(key, server))]
    {
      var list := List(service);
      var known := false;
      var i := 0;
      while i < |list|
        invariant 0 <= i <= |list| && list == List(service)
        invariant !known && forall j | 0 <= j < i :: list[j].key != key
      {
        if list[i].key == key {
          known := true;
          SetAtFirst(list, ToAddress(key, server), i);
          list := list[i := ToAddress(key, server)];
          break;
        }
        i := i + 1;
      }
      if !known {
        SetShape(list, ToAddress(key, server));
        list := list + [ToAddress(key, server)];
      }
      addresses := addresses[service := list];
    }

    method DelAddress(service: string, key: string)
      modifies this`addresses
      ensures addresses == old(addresses)[service := RemoveSkipping(old(List(service)), key)]
    {
      var list := List(service);
      assert list[0..] == list;
      var i := 0;
      while i < |list|
        invariant i <= |list| + 1 && addresses == old(addresses)
        invariant RemoveSkipping(old(List(service)), key) == SkippingFrom(list, i, key)
        decreases |list| + 1 - i
      {
        SkippingStep(list, i, key);
        if list[i].key == key {
          list := list[..i] + list[i + 1..];
        }
        i := i + 1;
      }
      assert i == |list| ==> list[i..] == [] && list[..i] + [] == list;
      assert SkippingFrom(list, i, key) == list;
      addresses := addresses[service := list];
    }

    /** The initial read: every entry that decodes is set. */
    method LoadSnapshot(service: string, es: seq<Entry>)
      modifies this`addresses
      ensures List(service) == HandleAll(old(List(service)), SnapshotEvents(es)) && OnlyChanges(service)
    {
      var i := 0;
      while i < |es|
        invariant 0 <= i <= |es|
        invariant HandleAll(List(service), SnapshotEvents(es[i..])) ==
                    HandleAll(old(List(service)), SnapshotEvents(es))
        invariant OnlyChanges(service)
      {
        assert es[i..][1..] == es[i + 1..];
        assert SnapshotEvents(es[i..])[1..] == SnapshotEvents(es[i + 1..]);
        match es[i].kv.value {
          case Encoded(info) => SetAddress(service, es[i].key, info);
          case Malformed(_) =>
        }
        i := i + 1;
      }
    }

    /** One response of the watch. */
    method HandleResponse(service: string, events: seq<Event>)
      modifies this`addresses
      ensures List(service) == HandleAll(old(List(service)), events) && OnlyChanges(service)
    {
      var i := 0;
      while i < |events|
        invariant 0 <= i <= |events|
        invariant HandleAll(List(service), events[i..]) == HandleAll(old(List(service)), events)
        invariant OnlyChanges(service)
      {
        assert events[i..][1..] == events[i + 1..];
        match events[i] {
          case PutEvent(k, Encoded(info)) => SetAddress(service, k, info);
          case PutEvent(_, Malformed(_)) =>
          case DeleteEvent(k) => DelAddress(service, k);
        }
        i := i + 1;
      }
    }

    /** The body of the lookup loop: whether to list an entry. */
    method Keeps(a: Address, labels: seq<string>) returns (keep: bool)
      ensures keep == Accepts(a, env, labels)
    {
      if a.env != env {
        return false;
      }
      if |labels| == 0 && |a.labels| > 0 {
        return false;
      }
      if |labels| > |a.labels| {
        return false;
      }
      var j := 0;
      while j < |labels|
        invariant 0 <= j <= |labels|
        invariant forall k | 0 <= k < j :: labels[k] in a.labels
      {
        if labels[j] !in a.labels {
          return false;
        }
        j := j + 1;
      }
      return true;
    }

    method DiscoverByLabels(name: string, labels: seq<string>) returns (r: Lookup)
      ensures r == if name in services then Found(Pick(List(name), env, labels)) else UnknownService
    {
      if name !in services {
        return UnknownService;
      }
      var list := List(name);
      var found := [];
      var i := 0;
      while i < |list|
        invariant 0 <= i <= |list|
        invariant found + Pick(list[i..], env, labels) == Pick(list, env, labels)
      {
        var keep := Keeps(list[i], labels);
        assert list[i..][1..] == list[i + 1..];
        if keep {
          found := found + [list[i].address];
        }
        i := i + 1;
      }
      return Found(found);
    }
  }
}
