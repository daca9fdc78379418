/** The cached address list of one service: what setAddress and delAddress do to it (pkg/serviced/discovery.go). */
module AddressList {
  import opened Etcd

  datatype Address = Address(address: string, key: string, labels: set<string>, disableElection: bool, env: string)

  function ToAddress(key: string, info: ServerInfo): Address {
    Address(info.url, key, (set l | l in info.labels), info.disableElection, info.env)
  }

  /** Overwrite the first entry with the key of `a`, or append. */
  function Set(list: seq<Address>, a: Address): seq<Address> {
    if list == [] then [a]
    else if list[0].key == a.key then [a] + list[1..]
    else [list[0]] + Set(list[1..], a)
  }

  /** The list without any entry for `key`. */
  function Remove(list: seq<Address>, key: string): seq<Address> {
    if list == [] then []
    else if list[0].key == key then Remove(list[1..], key)
    else [list[0]] + Remove(list[1..], key)
  }

  /** What the deletion loop leaves: it steps past whatever moved into the place of a removed entry. */
  function RemoveSkipping(list: seq<Address>, key: string): seq<Address> {
    if list == [] then []
    else if list[0].key != key then [list[0]] + RemoveSkipping(list[1..], key)
    else if |list| == 1 then []
    else [list[1]] + RemoveSkipping(list[2..], key)
  }

  /** The same loop once it has reached index `i`. */
  function SkippingFrom(list: seq<Address>, i: nat, key: string): seq<Address> {
    if i <= |list| then list[..i] + RemoveSkipping(list[i..], key) else list
  }

  lemma SkippingStep(list: seq<Address>, i: nat, key: string)
    requires i < |list|
    ensures SkippingFrom(list, i, key) ==
              SkippingFrom(if list[i].key == key then list[..i] + list[i + 1..] else list, i + 1, key)
  {
    var rest := list[i..];
    if list[i].key == key {
      var shorter := list[..i] + list[i + 1..];
      if i < |shorter| {
        assert shorter[..i + 1] == list[..i] + [rest[1]];
        assert shorter[i + 1..] == rest[2..];
      } else {
        assert shorter == list[..i];
      }
    } else {
      assert rest[1..] == list[i + 1..];
      assert list[..i + 1] == list[..i] + [list[i]];
    }
  }

  predicate UniqueKeys(list: seq<Address>) {
    forall i, j | 0 <= i < j < |list| :: list[i].key != list[j].key
  }

  predicate HasKey(list: seq<Address>, key: string) {
    exists i :: 0 <= i < |list| && list[i].key == key
  }

  ghost predicate NoNeighbours(list: seq<Address>, key: string) {
    forall i | 0 <= i < |list| - 1 :: list[i].key != key || list[i + 1].key != key
  }

  /** A list with unique keys, read as a map. */
  ghost function AsMap(list: seq<Address>): map<string, Address>
    requires UniqueKeys(list)
  {
    map a | a in list :: a.key := a
  }

  /** Setting overwrites the first entry with the key, or appends. */
  lemma {:induction false} SetShape(list: seq<Address>, a: Address)
    ensures !HasKey(list, a.key) ==> Set(list, a) == list + [a]
    ensures HasKey(list, a.key) ==>
              exists i :: 0 <= i < |list| && list[i].key == a.key && Set(list, a) == list[i := a]
  {
    if list != [] && list[0].key != a.key {
      var rest := list[1..];
      SetShape(rest, a);
      if i :| 0 <= i < |list| && list[i].key == a.key {
        assert rest[i - 1].key == a.key;
        var j :| 0 <= j < |rest| && rest[j].key == a.key && Set(rest, a) == rest[j := a];
        assert list[j + 1 := a] == [list[0]] + rest[j := a];
      } else {
        assert forall j | 0 <= j < |rest| :: rest[j] == list[j + 1];
        assert list + [a] == [list[0]] + (rest + [a]);
      }
    } else if list != [] {
      assert list[0 := a] == [a] + list[1..];
    }
  }

  lemma {:induction false} SetAtFirst(list: seq<Address>, a: Address, i: nat)
    requires i < |list| && list[i].key == a.key && forall j | 0 <= j < i :: list[j].key != a.key
    ensures Set(list, a) == list[i := a]
  {
    if i > 0 {
      SetAtFirst(list[1..], a, i - 1);
      assert list[i := a] == [list[0]] + list[1..][i - 1 := a];
    } else {
      assert list[0 := a] == [a] + list[1..];
    }
  }

  lemma OverwriteIsUpdate(list: seq<Address>, i: nat, a: Address)
    requires UniqueKeys(list) && i < |list| && list[i].key == a.key
    ensures UniqueKeys(list[i := a]) && AsMap(list[i := a]) == AsMap(list)[a.key := a]
  {
    OverwriteReplaces(list, i, a);
    SameEntriesSameMap(list, list[i := a], a);
  }

  lemma OverwriteReplaces(list: seq<Address>, i: nat, a: Address)
    requires UniqueKeys(list) && i < |list| && list[i].key == a.key
    ensures UniqueKeys(list[i := a])
    ensures forall b :: b in list[i := a] <==> b == a || (b in list && b.key != a.key)
  {
    var r := list[i := a];
    forall b | b in list && b.key != a.key
      ensures b in r
    {
      var j :| 0 <= j < |list| && list[j] == b;
      assert r[j] == b;
    }
    assert r[i] == a;
  }

  lemma SameEntriesSameMap(list: seq<Address>, r: seq<Address>, a: Address)
    requires UniqueKeys(list) && UniqueKeys(r)
    requires forall b :: b in r <==> b == a || (b in list && b.key != a.key)
    ensures AsMap(r) == AsMap(list)[a.key := a]
  {
  }

  lemma AppendIsUpdate(list: seq<Address>, a: Address)
    requires UniqueKeys(list) && !HasKey(list, a.key)
    ensures UniqueKeys(list + [a]) && AsMap(list + [a]) == AsMap(list)[a.key := a]
  {
    assert forall b :: b in list + [a] <==> b in list || b == a;
  }

  lemma SetIsUpdate(list: seq<Address>, a: Address)
    requires UniqueKeys(list)
    ensures UniqueKeys(Set(list, a)) && AsMap(Set(list, a)) == AsMap(list)[a.key := a]
  {
    SetShape(list, a);
    if HasKey(list, a.key) {
      var i :| 0 <= i < |list| && list[i].key == a.key && Set(list, a) == list[i := a];
      OverwriteIsUpdate(list, i, a);
    } else {
      AppendIsUpdate(list, a);
    }
  }

  lemma {:induction false} EntriesAreTheMap(list: seq<Address>)
    requires UniqueKeys(list)
    ensures forall k :: k in AsMap(list) <==> HasKey(list, k)
    ensures forall i | 0 <= i < |list| :: list[i].key in AsMap(list) && AsMap(list)[list[i].key] == list[i]
  {
    forall i | 0 <= i < |list|
      ensures list[i].key in AsMap(list) && AsMap(list)[list[i].key] == list[i]
    {
      assert list[i] in list;
    }
  }

  lemma {:induction false} RemoveIsFilter(list: seq<Address>, key: string)
    ensures forall a :: a in Remove(list, key) <==> a in list && a.key != key
  {
    if list != [] {
      RemoveIsFilter(list[1..], key);
      assert list == [list[0]] + list[1..];
    }
  }

  /** Removing keeps the order of what stays. */
  lemma {:induction false} RemoveKeepsOrder(list: seq<Address>, key: string, i: nat, j: nat) returns (p: nat, q: nat)
    requires i < j < |Remove(list, key)|
    ensures p < q < |list| && list[p] == Remove(list, key)[i] && list[q] == Remove(list, key)[j]
    decreases |list|
  {
    var rest := list[1..];
    if list[0].key == key {
      p, q := RemoveKeepsOrder(rest, key, i, j);
      p, q := p + 1, q + 1;
    } else if i > 0 {
      p, q := RemoveKeepsOrder(rest, key, i - 1, j - 1);
      p, q := p + 1, q + 1;
    } else {
      RemoveIsFilter(rest, key);
      var a := Remove(rest, key)[j - 1];
      assert a in Remove(rest, key);
      var r :| 0 <= r < |rest| && rest[r] == a;
      p, q := 0, r + 1;
    }
  }

  lemma RemoveKeepsUnique(list: seq<Address>, key: string)
    requires UniqueKeys(list)
    ensures UniqueKeys(Remove(list, key))
  {
    var r := Remove(list, key);
    forall i, j | 0 <= i < j < |r|
      ensures r[i].key != r[j].key
    {
      var p, q := RemoveKeepsOrder(list, key, i, j);
    }
  }

  lemma OtherEntriesOtherKeys(list: seq<Address>, r: seq<Address>, key: string)
    requires UniqueKeys(list) && UniqueKeys(r)
    requires forall a :: a in r <==> a in list && a.key != key
    ensures AsMap(r) == AsMap(list) - {key}
  {
  }

  lemma RemoveIsMapRemoval(list: seq<Address>, key: string)
    requires UniqueKeys(list)
    ensures UniqueKeys(Remove(list, key)) && AsMap(Remove(list, key)) == AsMap(list) - {key}
  {
    RemoveKeepsUnique(list, key);
    RemoveIsFilter(list, key);
    OtherEntriesOtherKeys(list, Remove(list, key), key);
  }

  /** The skipping loop removes every entry of the key exactly when no two of them are neighbours. */
  lemma {:induction false} SkippingIsRemovalIffNoNeighbours(list: seq<Address>, key: string)
    ensures RemoveSkipping(list, key) == Remove(list, key) <==> NoNeighbours(list, key)
    decreases |list|
  {
    if |list| < 2 {
    } else if list[0].key != key {
      SkippingIsRemovalIffNoNeighbours(list[1..], key);
      NeighboursInRest(list, key);
      assert [list[0]] + RemoveSkipping(list[1..], key) == [list[0]] + Remove(list[1..], key)
             <==> RemoveSkipping(list[1..], key) == Remove(list[1..], key) by {
        assert ([list[0]] + RemoveSkipping(list[1..], key))[1..] == RemoveSkipping(list[1..], key);
        assert ([list[0]] + Remove(list[1..], key))[1..] == Remove(list[1..], key);
      }
    } else if list[1].key == key {
      RemoveIsFilter(list, key);
      assert list[1] in RemoveSkipping(list, key);
    } else {
      SkippingIsRemovalIffNoNeighbours(list[2..], key);
      NeighboursInRest(list, key);
      if |list| > 2 {
        NeighboursInRest(list[1..], key);
        assert list[1..][1..] == list[2..];
      }
      assert ([list[1]] + RemoveSkipping(list[2..], key))[1..] == RemoveSkipping(list[2..], key);
      assert ([list[1]] + Remove(list[2..], key))[1..] == Remove(list[2..], key);
    }
  }

  lemma NeighboursInRest(list: seq<Address>, key: string)
    requires |list| >= 2
    ensures NoNeighbours(list, key) <==>
              (list[0].key != key || list[1].key != key) && NoNeighbours(list[1..], key)
  {
    if NoNeighbours(list[1..], key) && (list[0].key != key || list[1].key != key) {
      forall i | 0 <= i < |list| - 1
        ensures list[i].key != key || list[i + 1].key != key
      {
        assert i > 0 ==> list[1..][i - 1] == list[i] && list[1..][i] == list[i + 1];
      }
    }
  }

  /** With unique keys the loop is right. */
  lemma {:induction false} UniqueKeysMakeDeletionRight(list: seq<Address>, key: string)
    requires UniqueKeys(list)
    ensures RemoveSkipping(list, key) == Remove(list, key)
  {
    SkippingIsRemovalIffNoNeighbours(list, key);
  }

  /** A watch event. */
  datatype Event = PutEvent(key: string, value: Value) | DeleteEvent(key: string)

  /** A put that does not decode is dropped. */
  function Handle(list: seq<Address>, e: Event): seq<Address> {
    match e
    case PutEvent(k, Encoded(info)) => Set(list, ToAddress(k, info))
    case PutEvent(_, Malformed(_)) => list
    case DeleteEvent(k) => RemoveSkipping(list, k)
  }

  function HandleAll(list: seq<Address>, es: seq<Event>): seq<Address>
    decreases |es|
  {
    if es == [] then list else HandleAll(Handle(list, es[0]), es[1..])
  }

  lemma {:induction false} HandleAllAppends(list: seq<Address>, es: seq<Event>, more: seq<Event>)
    ensures HandleAll(list, es + more) == HandleAll(HandleAll(list, es), more)
    decreases |es|
  {
    if es == [] {
      assert es + more == more;
    } else {
      assert (es + more)[1..] == es[1..] + more;
      HandleAllAppends(Handle(list, es[0]), es[1..], more);
    }
  }

  /** The effect of one event on a map of addresses. */
  function Update(m: map<string, Address>, e: Event): map<string, Address> {
    match e
    case PutEvent(k, Encoded(info)) => m[k := ToAddress(k, info)]
    case PutEvent(_, Malformed(_)) => m
    case DeleteEvent(k) => m - {k}
  }

  function UpdateAll(m: map<string, Address>, es: seq<Event>): map<string, Address>
    decreases |es|
  {
    if es == [] then m else UpdateAll(Update(m, es[0]), es[1..])
  }

  lemma HandleIsUpdate(list: seq<Address>, e: Event)
    requires UniqueKeys(list)
    ensures UniqueKeys(Handle(list, e)) && AsMap(Handle(list, e)) == Update(AsMap(list), e)
  {
    match e
    case PutEvent(k, Encoded(info)) => SetIsUpdate(list, ToAddress(k, info));
    case PutEvent(_, Malformed(_)) =>
    case DeleteEvent(k) =>
      UniqueKeysMakeDeletionRight(list, k);
      RemoveIsMapRemoval(list, k);
  }

  /** Keys stay unique in every list the events can produce, and the list read as a map is the map they make. */
  lemma {:induction false} HandleAllIsUpdateAll(list: seq<Address>, es: seq<Event>)
    requires UniqueKeys(list)
    ensures UniqueKeys(HandleAll(list, es)) && AsMap(HandleAll(list, es)) == UpdateAll(AsMap(list), es)
    decreases |es|
  {
    if es != [] {
      HandleIsUpdate(list, es[0]);
      HandleAllIsUpdateAll(Handle(list, es[0]), es[1..]);
    }
  }

  /** When, among `es`, the key was first set since it was last deleted; -1 if it is not set. */
  function Birth(es: seq<Event>, k: string): int {
    if es == [] then -1
    else
      var n := |es| - 1;
      var before := Birth(es[..n], k);
      match es[n]
      case DeleteEvent(d) => if d == k then -1 else before
      case PutEvent(p, v) => if p == k && v.Encoded? && before == -1 then n else before
  }

  lemma {:induction false} BirthIsInRange(es: seq<Event>, k: string)
    ensures -1 <= Birth(es, k) < |es|
  {
    if es != [] {
      BirthIsInRange(es[..|es| - 1], k);
    }
  }

  /** Entries are listed in the order in which their keys were first set since last deleted. */
  ghost predicate InBirthOrder(list: seq<Address>, es: seq<Event>) {
    && (forall k :: HasKey(list, k) <==> Birth(es, k) >= 0)
    && (forall i, j | 0 <= i < j < |list| :: Birth(es, list[i].key) < Birth(es, list[j].key))
  }

  /** A put gives its key a birth if it has none, and changes no other. */
  lemma BirthAfterPut(es: seq<Event>, k: string, info: ServerInfo, o: string)
    ensures Birth(es + [PutEvent(k, Encoded(info))], o) ==
            if o == k && Birth(es, k) == -1 then |es| else Birth(es, o)
  {
    assert (es + [PutEvent(k, Encoded(info))])[..|es|] == es;
  }

  lemma OverwriteKeepsBirthOrder(list: seq<Address>, es: seq<Event>, k: string, info: ServerInfo, i: nat)
    requires InBirthOrder(list, es) && i < |list| && list[i].key == k
    ensures InBirthOrder(list[i := ToAddress(k, info)], es + [PutEvent(k, Encoded(info))])
  {
    var r, es' := list[i := ToAddress(k, info)], es + [PutEvent(k, Encoded(info))];
    assert HasKey(list, k);
    assert forall j | 0 <= j < |list| :: r[j].key == list[j].key;
    forall o
      ensures Birth(es', o) == Birth(es, o) && (HasKey(r, o) <==> HasKey(list, o))
    {
      BirthAfterPut(es, k, info, o);
    }
  }

  lemma AppendKeepsBirthOrder(list: seq<Address>, es: seq<Event>, k: string, info: ServerInfo)
    requires InBirthOrder(list, es) && !HasKey(list, k)
    ensures InBirthOrder(list + [ToAddress(k, info)], es + [PutEvent(k, Encoded(info))])
  {
    var r, es' := list + [ToAddress(k, info)], es + [PutEvent(k, Encoded(info))];
    forall o
      ensures Birth(es', o) == (if o == k then |es| else Birth(es, o)) && Birth(es, o) < |es|
      ensures HasKey(r, o) <==> o == k || HasKey(list, o)
    {
      BirthAfterPut(es, k, info, o);
      BirthIsInRange(es, o);
      BirthIsInRange(es, k);
      HasKeyAfterAppend(list, ToAddress(k, info), o);
    }
    forall i, j | 0 <= i < j < |r|
      ensures Birth(es', r[i].key) < Birth(es', r[j].key)
    {
      assert HasKey(list, r[i].key);
    }
  }

  lemma HasKeyAfterAppend(list: seq<Address>, a: Address, o: string)
    ensures HasKey(list + [a], o) <==> o == a.key || HasKey(list, o)
  {
    var r := list + [a];
    assert r[|list|] == a && forall i | 0 <= i < |list| :: r[i] == list[i];
  }

  lemma SetKeepsBirthOrder(list: seq<Address>, es: seq<Event>, k: string, info: ServerInfo)
    requires InBirthOrder(list, es)
    ensures InBirthOrder(Set(list, ToAddress(k, info)), es + [PutEvent(k, Encoded(info))])
  {
    SetShape(list, ToAddress(k, info));
    if HasKey(list, k) {
      var i :| 0 <= i < |list| && list[i].key == k && Set(list, ToAddress(k, info)) == list[i := ToAddress(k, info)];
      OverwriteKeepsBirthOrder(list, es, k, info, i);
    } else {
      AppendKeepsBirthOrder(list, es, k, info);
    }
  }

  lemma RemoveKeepsBirthOrder(list: seq<Address>, es: seq<Event>, k: string)
    requires InBirthOrder(list, es)
    ensures InBirthOrder(Remove(list, k), es + [DeleteEvent(k)])
  {
    var es', r := es + [DeleteEvent(k)], Remove(list, k);
    assert es'[..|es|] == es;
    RemoveIsFilter(list, k);
    forall o
      ensures HasKey(r, o) <==> o != k && HasKey(list, o)
    {
      if i :| 0 <= i < |list| && list[i].key == o && o != k {
        assert list[i] in r;
      }
      if i :| 0 <= i < |r| && r[i].key == o {
        assert r[i] in r && r[i] in list;
      }
    }
    forall i, j | 0 <= i < j < |r|
      ensures Birth(es', r[i].key) < Birth(es', r[j].key)
    {
      assert r[i] in r && r[j] in r;
      var p, q := RemoveKeepsOrder(list, k, i, j);
    }
  }

  lemma HandleKeepsBirthOrder(list: seq<Address>, es: seq<Event>, e: Event)
    requires UniqueKeys(list) && InBirthOrder(list, es)
    ensures InBirthOrder(Handle(list, e), es + [e])
  {
    match e
    case PutEvent(k, Malformed(_)) => assert (es + [e])[..|es|] == es;
    case PutEvent(k, Encoded(info)) => SetKeepsBirthOrder(list, es, k, info);
    case DeleteEvent(k) =>
      UniqueKeysMakeDeletionRight(list, k);
      RemoveKeepsBirthOrder(list, es, k);
  }

  /** Whatever the events, survivors are listed in the order of their first set since their last delete. */
  lemma {:induction false} SurvivorsKeepTheirOrder(es: seq<Event>)
    ensures UniqueKeys(HandleAll([], es)) && InBirthOrder(HandleAll([], es), es)
  {
    HandleAllIsUpdateAll([], es);
    if es == [] {
    } else {
      var n := |es| - 1;
      SurvivorsKeepTheirOrder(es[..n]);
      HandleKeepsBirthOrder(HandleAll([], es[..n]), es[..n], es[n]);
      HandleAllAppends([], es[..n], [es[n]]);
      assert es == es[..n] + [es[n]];
      assert HandleAll(HandleAll([], es[..n]), [es[n]]) == Handle(HandleAll([], es[..n]), es[n]);
    }
  }
}
