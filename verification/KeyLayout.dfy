/** Service names and the keys they register under (pkg/cc/service.go, pkg/serviced/types.go). */
module KeyLayout {

  const API_SERVER := "api-server"
  const CLOUD_SERVER := "cloud-server"
  const DATA_SERVICE := "data-service"
  const HC_SERVICE := "hc-service"
  const AUTH_SERVER := "auth-server"
  const WEB_SERVER := "web-server"
  const TASK_SERVER := "task-server"
  const ACCOUNT_SERVER := "account-server"

  /** Every name the program registers or discovers. */
  const NAMES: set<string> := {API_SERVER, CLOUD_SERVER, DATA_SERVICE, HC_SERVICE, AUTH_SERVER, WEB_SERVER,
                              TASK_SERVER, ACCOUNT_SERVER}

  /** The path all instances of a service register under. */
  function ServiceDiscoveryName(name: string): string {
    "/hcm/services/" + name
  }

  /** The key of one instance. */
  function Key(path: string, uid: string): string {
    path + "/" + uid
  }

  /** The names and keys in full. */
  lemma KeysInFull(name: string, uid: string)
    ensures NAMES == {"api-server", "cloud-server", "data-service", "hc-service", "auth-server", "web-server",
                      "task-server", "account-server"}
    ensures Key(ServiceDiscoveryName(name), uid) == "/hcm/services/" + name + "/" + uid
  {
  }

  lemma PrefixOfSameHead(head: string, a: string, b: string)
    ensures head + a <= head + b <==> a <= b
  {
    if a <= b {
      assert b == a + b[|a|..];
      assert head + b == (head + a) + b[|a|..];
    }
    if head + a <= head + b {
      forall i | 0 <= i < |a|
        ensures a[i] == b[i]
      {
        assert (head + a)[|head| + i] == (head + b)[|head| + i];
      }
    }
  }

  /** Watching or reading service `a` by prefix captures an instance key of service `b`
      exactly when `a` is a prefix of `b`; which instance it is does not matter. */
  lemma PrefixCapturesExactlyExtendedNames(a: string, b: string, uid: string)
    requires '/' !in a
    ensures ServiceDiscoveryName(a) <= Key(ServiceDiscoveryName(b), uid) <==> a <= b
  {
    var head := "/hcm/services/";
    var tail := b + "/" + uid;
    assert Key(ServiceDiscoveryName(b), uid) == head + tail;
    PrefixOfSameHead(head, a, tail);
    assert tail[|b|] == '/';
    if |a| <= |b| {
      assert tail[..|a|] == b[..|a|];
    }
  }

  lemma NamesAreDistinctEarly(a: string, b: string)
    requires a in NAMES && b in NAMES && a != b
    ensures '/' !in a && !(a <= b)
  {
    assert |a| >= 2 && |b| >= 2 && (a[0] != b[0] || a[1] != b[1]);
  }

  /** No service's prefix captures a key of another service, whatever the instance id. */
  lemma NoServiceCapturesAnother(a: string, b: string, uid: string)
    requires a in NAMES && b in NAMES
    ensures ServiceDiscoveryName(a) <= Key(ServiceDiscoveryName(b), uid) <==> a == b
  {
    if a != b {
      NamesAreDistinctEarly(a, b);
    }
    PrefixCapturesExactlyExtendedNames(a, b, uid);
  }

  /** Distinct (service, uid) pairs have distinct keys as long as names carry no slash. */
  lemma KeysAreInjective(a: string, u: string, b: string, v: string)
    requires '/' !in a && '/' !in b
    requires Key(ServiceDiscoveryName(a), u) == Key(ServiceDiscoveryName(b), v)
    ensures a == b && u == v
  {
    PrefixCapturesExactlyExtendedNames(a, a, u);
    PrefixCapturesExactlyExtendedNames(b, b, v);
    PrefixCapturesExactlyExtendedNames(a, b, v);
    PrefixCapturesExactlyExtendedNames(b, a, u);
    var n := |Key(ServiceDiscoveryName(a), "")|;
    assert Key(ServiceDiscoveryName(a), u)[n..] == u;
    assert Key(ServiceDiscoveryName(b), v)[n..] == v;
  }

  /** Ids of one fixed length (the program uses UUIDs) never make one instance key extend another. */
  lemma FixedLengthIdsDoNotExtend(a: string, u: string, b: string, v: string)
    requires a in NAMES && b in NAMES && |u| == |v|
    requires Key(ServiceDiscoveryName(a), u) <= Key(ServiceDiscoveryName(b), v)
    ensures a == b && u == v
  {
    var p, q := Key(ServiceDiscoveryName(a), u), Key(ServiceDiscoveryName(b), v);
    NoServiceCapturesAnother(a, a, u);
    assert ServiceDiscoveryName(a) == p[..|ServiceDiscoveryName(a)|] == q[..|ServiceDiscoveryName(a)|];
    NoServiceCapturesAnother(a, b, v);
    assert p == q;
    NamesCarryNoSlash(a);
    KeysAreInjective(a, u, b, v);
  }

  lemma NamesCarryNoSlash(a: string)
    requires a in NAMES
    ensures '/' !in a
  {
    NamesAreDistinctEarly(a, if a == API_SERVER then WEB_SERVER else API_SERVER);
  }
}
