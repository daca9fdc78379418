/**
 Leader election by create revision (isMaster in pkg/serviced/service.go): an instance compares the
 create revision of its own key, from one read, with that of the first eligible key of the service,
 from a second read. Neither read need be current and the two need not see the same snapshot.
 */
module Election {
  import opened Etcd

  /** The answer of one election check; `Unknown` is the error return. */
  datatype Answer = Yes | No | Unknown

  /** The value decodes and does not opt out of election. */
  predicate TakesPart(v: Value) {
    v.Encoded? && !v.info.disableElection
  }

  /** The create revision of the first participating entry, 0 when there is none. */
  function FirstEligible(es: seq<Entry>): nat {
    if es == [] then 0
    else if TakesPart(es[0].kv.value) then es[0].kv.createRev
    else FirstEligible(es[1..])
  }

  function Decide(own: Reply, all: Reply): Answer {
    if own.ReadFailed? || own.entries == [] then Unknown
    else if all.ReadFailed? || all.entries == [] then Unknown
    else if own.entries[0].kv.createRev == FirstEligible(all.entries) then Yes
    else No
  }

  /** `k` is a key of the service at `path` whose value decodes and does not opt out. */
  predicate Eligible(c: Contents, path: string, k: string) {
    path <= k && k in c && c[k].value.Encoded? && !c[k].value.info.disableElection
  }

  /** `k` is the eligible key with the least create revision: the instance that should lead. */
  ghost predicate Leader(c: Contents, path: string, k: string) {
    Eligible(c, path, k) && forall o :: Eligible(c, path, o) ==> c[k].createRev <= c[o].createRev
  }

  /** The scan stops at the entry of a leader, or finds nobody eligible. */
  lemma {:induction false} ScanFindsTheFirst(es: seq<Entry>)
    ensures (forall i | 0 <= i < |es| :: !TakesPart(es[i].kv.value)) ==> FirstEligible(es) == 0
    ensures (exists i :: 0 <= i < |es| && TakesPart(es[i].kv.value)) ==>
              exists i :: 0 <= i < |es| && TakesPart(es[i].kv.value) && es[i].kv.createRev == FirstEligible(es)
                          && forall j | 0 <= j < i :: !TakesPart(es[j].kv.value)
  {
    if es != [] && !TakesPart(es[0].kv.value) {
      var rest := es[1..];
      ScanFindsTheFirst(rest);
      if i :| 0 <= i < |es| && TakesPart(es[i].kv.value) {
        assert rest[i - 1] == es[i];
        var n :| 0 <= n < |rest| && TakesPart(rest[n].kv.value) && rest[n].kv.createRev == FirstEligible(rest)
                 && forall j | 0 <= j < n :: !TakesPart(rest[j].kv.value);
        assert es[n + 1] == rest[n];
        forall j | 0 <= j < n + 1
          ensures !TakesPart(es[j].kv.value)
        {
          assert j > 0 ==> es[j] == rest[j - 1];
        }
      } else {
        assert forall i | 0 <= i < |rest| :: rest[i] == es[i + 1];
      }
    }
  }

  /** Entry `i` has create revision `cr`, decodes and does not opt out, and no entry before it does both. */
  predicate DecidingEntry(es: seq<Entry>, i: nat, cr: nat)
    requires i < |es|
  {
    && es[i].kv.createRev == cr && es[i].kv.value.Encoded? && !es[i].kv.value.info.disableElection
    && forall j | 0 <= j < i :: es[j].kv.value.Malformed? || es[j].kv.value.info.disableElection
  }

  /** With both reads back the answer is yes exactly when the first entry of the second read that decodes and has not
      opted out, whatever else it publishes, has the create revision of the own entry. */
  lemma YesIffFirstWilling(own: seq<Entry>, all: seq<Entry>)
    requires own != [] && all != [] && own[0].kv.createRev > 0
    ensures Decide(Got(own), Got(all)) == Yes <==>
              exists i: nat :: i < |all| && DecidingEntry(all, i, own[0].kv.createRev)
    ensures Decide(Got(own), Got(all)) != Unknown
  {
    ScanFindsTheFirst(all);
    if i: nat :| i < |all| && DecidingEntry(all, i, own[0].kv.createRev) {
      assert TakesPart(all[i].kv.value) && forall j | 0 <= j < i :: !TakesPart(all[j].kv.value);
    }
    if n :| 0 <= n < |all| && TakesPart(all[n].kv.value) && all[n].kv.createRev == FirstEligible(all)
            && forall j | 0 <= j < n :: !TakesPart(all[j].kv.value) {
      assert DecidingEntry(all, n, FirstEligible(all));
    }
  }

  /** In a read by create revision the first entry that takes part is the leader's. */
  lemma FirstOneLeads(es: seq<Entry>, c: Contents, path: string, i: nat)
    requires IsRange(es, c, path) && CreateAscending(es) && i < |es| && TakesPart(es[i].kv.value)
    requires forall j | 0 <= j < i :: !TakesPart(es[j].kv.value)
    ensures Leader(c, path, es[i].key) && c[es[i].key].createRev == es[i].kv.createRev
  {
    forall o | Eligible(c, path, o)
      ensures es[i].kv.createRev <= c[o].createRev
    {
      var j :| 0 <= j < |es| && es[j].key == o;
    }
  }

  /** The second read yields the create revision of the snapshot's leader, or 0 without one. */
  lemma ScanFindsTheLeader(es: seq<Entry>, c: Contents, path: string)
    requires IsRange(es, c, path) && CreateAscending(es)
    ensures (exists k :: Eligible(c, path, k)) ==>
              exists k :: Leader(c, path, k) && c[k].createRev == FirstEligible(es)
    ensures (forall k :: !Eligible(c, path, k)) ==> FirstEligible(es) == 0
  {
    ScanFindsTheFirst(es);
    if e :| Eligible(c, path, e) {
      var at :| 0 <= at < |es| && es[at].key == e;
      var i :| 0 <= i < |es| && TakesPart(es[i].kv.value) && es[i].kv.createRev == FirstEligible(es)
               && forall j | 0 <= j < i :: !TakesPart(es[j].kv.value);
      FirstOneLeads(es, c, path, i);
    } else {
      forall i | 0 <= i < |es|
        ensures !TakesPart(es[i].kv.value)
      {
        assert !Eligible(c, path, es[i].key);
      }
    }
  }

  /** No stored key is a proper extension of `key`. */
  ghost predicate NoExtension(c: Contents, key: string) {
    forall k | k in c && key <= k :: k == key
  }

  /** A prefix read for `key` cannot come back with other keys only. */
  ghost predicate Unambiguous(c: Contents, key: string) {
    key in c || NoExtension(c, key)
  }

  /**
   What an answer should mean, for reads at revisions `r1` and `r2`.
   Yes: exactly when the caller's key leads the snapshot of the second read and was created by the same put
   as the key the first read saw. Unknown: exactly when a read failed or saw nothing.
   */
  ghost predicate RightAnswer(log: Log, path: string, key: string, r1: nat, r2: nat, own: Reply, all: Reply)
    requires r1 <= |log| && r2 <= |log|
  {
    && (Decide(own, all) == Yes <==>
          && own.Got? && all.Got?
          && key in At(log, r1) && Leader(At(log, r2), path, key)
          && At(log, r1)[key].createRev == At(log, r2)[key].createRev)
    && (Decide(own, all) == Unknown <==>
          own.ReadFailed? || key !in At(log, r1) || all.ReadFailed? || all.entries == [])
  }

  /** Answers are right for any two reads of the same store, in either order, if the first is unambiguous. */
  lemma AnswerIsRight(log: Log, path: string, key: string, r1: nat, r2: nat, own: Reply, all: Reply)
    requires r1 <= |log| && r2 <= |log| && path <= key
    requires Unambiguous(At(log, r1), key)
    requires ReadsByKey(own, At(log, r1), key) && ReadsByCreate(all, At(log, r2), path)
    ensures RightAnswer(log, path, key, r1, r2, own, all)
  {
    if own.Got? {
      var c1 := At(log, r1);
      if own.entries != [] {
        ReadKeyIsStored(own.entries, c1, key);
      }
      if key in c1 {
        OwnKeyIsReadFirst(own.entries, c1, key);
        CreateRevisionNamesItsPut(log, r1, key);
        if all.Got? {
          SecondReadDecides(log, path, key, r1, r2, all.entries);
        }
      }
    }
  }

  lemma ReadKeyIsStored(es: seq<Entry>, c: Contents, key: string)
    requires IsRange(es, c, key) && Unambiguous(c, key) && es != []
    ensures key in c
  {
    var k := es[0].key;
    assert k in c && key <= k;
  }

  /** The exact condition: once both reads have come back and the second is not empty, the answer is right if and only
      if the snapshot of the first read holds the key, or no key that extends it. */
  lemma AnswerIsRightIff(log: Log, path: string, key: string, r1: nat, r2: nat, own: Reply, all: Reply)
    requires r1 <= |log| && r2 <= |log| && path <= key
    requires ReadsByKey(own, At(log, r1), key) && ReadsByCreate(all, At(log, r2), path)
    ensures RightAnswer(log, path, key, r1, r2, own, all) <==>
              Unambiguous(At(log, r1), key) || own.ReadFailed? || all.ReadFailed? || all.entries == []
  {
    var c1 := At(log, r1);
    if Unambiguous(c1, key) {
      AnswerIsRight(log, path, key, r1, r2, own, all);
    } else if own.Got? {
      var k :| k in c1 && key <= k && k != key;
      var i :| 0 <= i < |own.entries| && own.entries[i].key == k;
    }
  }

  lemma SecondReadDecides(log: Log, path: string, key: string, r1: nat, r2: nat, es: seq<Entry>)
    requires r1 <= |log| && r2 <= |log| && path <= key && key in At(log, r1)
    requires At(log, r1)[key].createRev > 0
    requires IsRange(es, At(log, r2), path) && CreateAscending(es)
    ensures At(log, r1)[key].createRev == FirstEligible(es) <==>
              Leader(At(log, r2), path, key) && At(log, r1)[key].createRev == At(log, r2)[key].createRev
  {
    var c2 := At(log, r2);
    ScanFindsTheLeader(es, c2, path);
    if e :| Eligible(c2, path, e) {
      var k :| Leader(c2, path, k) && c2[k].createRev == FirstEligible(es);
      CreateRevisionsAreUnique(log, r1, key, r2, k);
    }
  }

  /** One snapshot has at most one leader. */
  lemma LeaderIsUnique(log: Log, r: nat, path: string, k1: string, k2: string)
    requires r <= |log| && Leader(At(log, r), path, k1) && Leader(At(log, r), path, k2)
    ensures k1 == k2
  {
    CreateRevisionsAreUnique(log, r, k1, r, k2);
  }

  /** At most one key gets a yes from second reads of one snapshot, whatever the first reads saw. */
  lemma AtMostOneYesPerSnapshot(log: Log, path: string, r: nat,
                                key1: string, r1: nat, own1: Reply, all1: Reply,
                                key2: string, r2: nat, own2: Reply, all2: Reply)
    requires r <= |log| && r1 <= |log| && r2 <= |log| && path <= key1 && path <= key2
    requires Unambiguous(At(log, r1), key1) && Unambiguous(At(log, r2), key2)
    requires ReadsByKey(own1, At(log, r1), key1) && ReadsByCreate(all1, At(log, r), path)
    requires ReadsByKey(own2, At(log, r2), key2) && ReadsByCreate(all2, At(log, r), path)
    requires Decide(own1, all1) == Yes && Decide(own2, all2) == Yes
    ensures key1 == key2
  {
    AnswerIsRight(log, path, key1, r1, r, own1, all1);
    AnswerIsRight(log, path, key2, r2, r, own2, all2);
    LeaderIsUnique(log, r, path, key1, key2);
  }

  /** A yes also means the key never left the store between the two snapshots. */
  lemma YesMeansNeverRemovedBetweenReads(log: Log, path: string, key: string, r1: nat, r2: nat, own: Reply, all: Reply)
    requires r1 <= |log| && r2 <= |log| && path <= key
    requires Unambiguous(At(log, r1), key)
    requires ReadsByKey(own, At(log, r1), key) && ReadsByCreate(all, At(log, r2), path)
    requires Decide(own, all) == Yes
    ensures PresentThroughout(log, key, if r1 <= r2 then r1 else r2, if r1 <= r2 then r2 else r1)
  {
    AnswerIsRight(log, path, key, r1, r2, own, all);
    if r1 <= r2 {
      SameCreateRevisionIffNeverRemoved(log, key, r1, r2);
    } else {
      SameCreateRevisionIffNeverRemoved(log, key, r2, r1);
    }
  }

  /** A key whose published value opts out, or does not decode, never gets a yes, from any pair of reads of which the
      first is unambiguous. */
  lemma OptedOutNeverLeads(log: Log, path: string, key: string, r1: nat, r2: nat, own: Reply, all: Reply)
    requires r1 <= |log| && r2 <= |log| && path <= key
    requires Unambiguous(At(log, r1), key)
    requires ReadsByKey(own, At(log, r1), key) && ReadsByCreate(all, At(log, r2), path)
    requires key in At(log, r2) && At(log, r2)[key].value.Encoded? ==> At(log, r2)[key].value.info.disableElection
    ensures Decide(own, all) != Yes
  {
    AnswerIsRight(log, path, key, r1, r2, own, all);
  }

  /** The first read is a prefix read. When it is ambiguous an absent instance can be answered yes on behalf of
      another whose id extends its own. */
  lemma AnExtendedIdConfusesTheCheck()
    ensures exists log: Log, own: Reply, all: Reply ::
              && ReadsByKey(own, Current(log), "/s/1") && ReadsByCreate(all, Current(log), "/s")
              && "/s/1" !in Current(log) && Decide(own, all) == Yes
  {
    var v := Encoded(ServerInfo("u", [], false, ""));
    var log := [Put("/s/10", v, 7)];
    var kv := KeyValue(v, 1, 7);
    assert At(log, 0) == map[];
    assert At(log, 1) == map["/s/10" := kv];
    var es := [Entry("/s/10", kv)];
    assert "/s/1" <= "/s/10" && "/s" <= "/s/10";
    assert es[0].key == "/s/10";
    assert IsRange(es, Current(log), "/s/1") && IsRange(es, Current(log), "/s");
    assert FirstEligible(es) == 1;
    assert Decide(Got(es), Got(es)) == Yes;
    assert ReadsByKey(Got(es), Current(log), "/s/1") && ReadsByCreate(Got(es), Current(log), "/s");
  }
}
