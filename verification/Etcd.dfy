/**
 The revisioned key store the registry talks to, reduced to what the registry relies on.
 A store is the log of its mutations: revision r is the state after the first r of them.
 A stale (serializable) read is a read of an earlier revision.
 */
module Etcd {

  /** What an instance publishes about itself (pkg/serviced/discovery.go). */
  datatype ServerInfo = ServerInfo(url: string, labels: seq<string>, disableElection: bool, env: string)

  /** A stored value: the encoding of a ServerInfo, or bytes that do not decode to one. */
  datatype Value = Encoded(info: ServerInfo) | Malformed(raw: string)

  /** One committed mutation. A lease that expires deletes all its keys in one revision. */
  datatype Mutation =
    | Put(key: string, value: Value, lease: nat)
    | Delete(keys: seq<string>)

  datatype KeyValue = KeyValue(value: Value, createRev: nat, lease: nat)

  type Contents = map<string, KeyValue>

  type Log = seq<Mutation>

  /** The contents after committing `m` as revision `rev`. */
  function Apply(c: Contents, m: Mutation, rev: nat): Contents {
    match m
    case Put(k, v, l) => c[k := KeyValue(v, if k in c then c[k].createRev else rev, l)]
    case Delete(ks) => map k | k in c && k !in ks :: c[k]
  }

  /** The snapshot at revision `r`. */
  function At(log: Log, r: nat): Contents
    requires r <= |log|
  {
    if r == 0 then map[] else Apply(At(log, r - 1), log[r - 1], r)
  }

  function Current(log: Log): Contents {
    At(log, |log|)
  }

  /** Later mutations do not change earlier snapshots. */
  lemma {:induction false} SnapshotsAreStable(log: Log, more: Log, r: nat)
    requires r <= |log|
    ensures At(log + more, r) == At(log, r)
  {
    if r > 0 {
      SnapshotsAreStable(log, more, r - 1);
      assert (log + more)[r - 1] == log[r - 1];
    }
  }

  /** Appending one mutation applies it to the current contents and keeps every snapshot. */
  lemma Append(log: Log, m: Mutation)
    ensures Current(log + [m]) == Apply(Current(log), m, |log| + 1)
  {
    SnapshotsAreStable(log, [m], |log|);
    assert (log + [m])[|log|] == m;
  }

  /** A create revision names the put that created the key. */
  lemma {:induction false} CreateRevisionNamesItsPut(log: Log, r: nat, k: string)
    requires r <= |log| && k in At(log, r)
    ensures var c := At(log, r)[k].createRev; 1 <= c <= r && log[c - 1].Put? && log[c - 1].key == k
    decreases r
  {
    if k in At(log, r - 1) {
      CreateRevisionNamesItsPut(log, r - 1, k);
    }
  }

  /** Create revisions are unique over the whole history, not only inside one snapshot. */
  lemma {:induction false} CreateRevisionsAreUnique(log: Log, r1: nat, k1: string, r2: nat, k2: string)
    requires r1 <= |log| && r2 <= |log| && k1 in At(log, r1) && k2 in At(log, r2)
    ensures At(log, r1)[k1].createRev == At(log, r2)[k2].createRev ==> k1 == k2
  {
    CreateRevisionNamesItsPut(log, r1, k1);
    CreateRevisionNamesItsPut(log, r2, k2);
  }

  /** Key `k` is present in every snapshot from `lo` to `hi`. */
  ghost predicate PresentThroughout(log: Log, k: string, lo: nat, hi: nat)
    requires hi <= |log|
  {
    forall r | lo <= r <= hi :: k in At(log, r)
  }

  /** While a key stays in the store its create revision does not change. */
  lemma {:induction false} PresenceKeepsCreateRevision(log: Log, k: string, lo: nat, hi: nat)
    requires lo <= hi <= |log| && PresentThroughout(log, k, lo, hi)
    ensures At(log, hi)[k].createRev == At(log, lo)[k].createRev
    decreases hi
  {
    if lo < hi {
      PresenceKeepsCreateRevision(log, k, lo, hi - 1);
      assert k in At(log, hi - 1) && k in At(log, hi);
    }
  }

  lemma {:induction false} AbsenceRaisesCreateRevision(log: Log, k: string, gone: nat, hi: nat)
    requires gone <= hi <= |log| && k !in At(log, gone) && k in At(log, hi)
    ensures At(log, hi)[k].createRev > gone
    decreases hi
  {
    if k in At(log, hi - 1) {
      AbsenceRaisesCreateRevision(log, k, gone, hi - 1);
    }
  }

  /** Two snapshots give a key the same create revision exactly when the key never left in between. */
  lemma {:induction false} SameCreateRevisionIffNeverRemoved(log: Log, k: string, lo: nat, hi: nat)
    requires lo <= hi <= |log| && k in At(log, lo) && k in At(log, hi)
    ensures At(log, lo)[k].createRev == At(log, hi)[k].createRev <==> PresentThroughout(log, k, lo, hi)
  {
    if PresentThroughout(log, k, lo, hi) {
      PresenceKeepsCreateRevision(log, k, lo, hi);
    } else {
      var gone :| lo <= gone <= hi && k !in At(log, gone);
      AbsenceRaisesCreateRevision(log, k, gone, hi);
      CreateRevisionNamesItsPut(log, lo, k);
    }
  }

  /** One key and its value in a range reply. */
  datatype Entry = Entry(key: string, kv: KeyValue)

  /** The outcome of a range read. */
  datatype Reply = Got(entries: seq<Entry>) | ReadFailed

  /** `es` lists exactly the keys of `c` that start with `prefix`, each once. */
  ghost predicate IsRange(es: seq<Entry>, c: Contents, prefix: string) {
    && (forall i | 0 <= i < |es| :: prefix <= es[i].key && es[i].key in c && c[es[i].key] == es[i].kv)
    && (forall k | k in c && prefix <= k :: exists i :: 0 <= i < |es| && es[i].key == k)
    && (forall i, j | 0 <= i < j < |es| :: es[i].key != es[j].key)
  }

  /** Byte order on keys. */
  predicate Before(a: string, b: string) {
    if b == [] then false
    else if a == [] then true
    else a[0] < b[0] || (a[0] == b[0] && Before(a[1..], b[1..]))
  }

  ghost predicate KeyAscending(es: seq<Entry>) {
    forall i, j | 0 <= i < j < |es| :: Before(es[i].key, es[j].key)
  }

  ghost predicate CreateAscending(es: seq<Entry>) {
    forall i, j | 0 <= i < j < |es| :: es[i].kv.createRev <= es[j].kv.createRev
  }

  /** A default-order range read of one snapshot. */
  ghost predicate ReadsByKey(reply: Reply, c: Contents, prefix: string) {
    reply.Got? ==> IsRange(reply.entries, c, prefix) && KeyAscending(reply.entries)
  }

  /** A range read of one snapshot sorted by ascending create revision. */
  ghost predicate ReadsByCreate(reply: Reply, c: Contents, prefix: string) {
    reply.Got? ==> IsRange(reply.entries, c, prefix) && CreateAscending(reply.entries)
  }

  /** A key never comes after one of its own extensions. */
  lemma {:induction false} ExtensionsComeLater(k: string, ext: string)
    requires k <= ext
    ensures !Before(ext, k)
  {
    if k != [] {
      assert k[1..] <= ext[1..];
      ExtensionsComeLater(k[1..], ext[1..]);
    }
  }

  /** If the key itself is present, a prefix read on it returns it first. */
  lemma OwnKeyIsReadFirst(es: seq<Entry>, c: Contents, k: string)
    requires IsRange(es, c, k) && KeyAscending(es) && k in c
    ensures |es| > 0 && es[0].key == k && es[0].kv == c[k]
  {
    var i :| 0 <= i < |es| && es[i].key == k;
    ExtensionsComeLater(k, es[0].key);
  }
}
