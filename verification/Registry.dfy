/**
 The registry as a distributed protocol: any number of instances, each with its keep-alive loop, its two
 sync loops and its shutdown, against one store with leases and a clock. A label names one atomic step
 together with what the environment answered; `Enabled` says when it can happen and `Step` what it does.
 */
module Registry {
  import opened Etcd
  import opened Election
  import opened ServiceState
  import KeyLayout

  datatype Config = Config(name: string, uid: string, info: ServerInfo)

  type Cluster = seq<Config>

  function PathOf(c: Config): string {
    KeyLayout.ServiceDiscoveryName(c.name)
  }

  function KeyOf(c: Config): string {
    KeyLayout.Key(PathOf(c), c.uid)
  }

  /** No instance key is, or extends, another instance's key. */
  ghost predicate ValidCluster(cfg: Cluster) {
    forall i, j | 0 <= i < |cfg| && 0 <= j < |cfg| && i != j :: !(KeyOf(cfg[i]) <= KeyOf(cfg[j]))
  }

  /** Instances of the known services with distinct ids of one length, as UUIDs are, form a valid cluster. */
  lemma UuidClustersAreValid(cfg: Cluster)
    requires forall i | 0 <= i < |cfg| :: cfg[i].name in KeyLayout.NAMES
    requires forall i, j | 0 <= i < |cfg| && 0 <= j < |cfg| :: |cfg[i].uid| == |cfg[j].uid|
    requires forall i, j | 0 <= i < j < |cfg| :: cfg[i].uid != cfg[j].uid
    ensures ValidCluster(cfg)
  {
    forall i, j | 0 <= i < |cfg| && 0 <= j < |cfg| && i != j
      ensures !(KeyOf(cfg[i]) <= KeyOf(cfg[j]))
    {
      if KeyOf(cfg[i]) <= KeyOf(cfg[j]) {
        KeyLayout.FixedLengthIdsDoNotExtend(cfg[i].name, cfg[i].uid, cfg[j].name, cfg[j].uid);
      }
    }
  }

  /** Where the registration and keep-alive goroutine is. `Putting` holds a granted lease not yet stored. */
  datatype Pc =
    | Idle
    | RegisterPutting(l: nat)
    | AtLoop
    | LoopPutting(l: nat)
    | Renewing
    | Stopped
    | Failed

  datatype Shutdown = Serving | Cancelled | Deleted | Cleared

  /** A sync goroutine between its two reads holds the create revision it read for its own key. */
  datatype Sync = Ready | HasOwn(cr: nat)

  datatype Task = Watcher | Timer

  datatype Node = Node(flags: Flags, pc: Pc, wakeAt: nat, shutdown: Shutdown, sync: map<Task, Sync>)

  datatype Lease = Lease(owner: nat, deadline: nat, live: bool)

  datatype System = System(log: Log, leases: map<nat, Lease>, now: nat, nodes: seq<Node>)

  datatype Label =
    | RegisterGrant(i: nat, grant: Grant, at: nat)
    | RegisterPut(i: nat, ok: bool, applied: bool)
    | LoopGrant(i: nat, grant: Grant, at: nat)
    | LoopPut(i: nat, ok: bool, applied: bool)
    | LoopCheck(i: nat, ok: bool)
    | LoopRenew(i: nat, ok: bool, applied: bool, at: nat)
    | LoopStop(i: nat)
    | Cancel(i: nat)
    | DeleteKey(i: nat, ok: bool, applied: bool)
    | ClearFlag(i: nat)
    | ReadOwn(i: nat, t: Task, rev: nat, reply: Reply)
    | ReadAll(i: nat, t: Task, rev: nat, reply: Reply)
    | SetDisabled(i: nat, disable: bool)
    | Expire(l: nat, keys: seq<string>)
    | Tick(time: nat)

  /** The instance a label belongs to, if any. */
  predicate Actor(x: Label, i: nat) {
    match x
    case Expire(_, _) => false
    case Tick(_) => false
    case _ => x.i == i
  }

  const FreshNode: Node :=
    Node(Flags(0, false, false, false), Idle, 0, Serving, map[Watcher := Ready, Timer := Ready])

  function Initial(cfg: Cluster): System {
    System([], map[], 0, seq(|cfg|, _ => FreshNode))
  }

  predicate LiveLease(s: System, l: nat) {
    l in s.leases && s.leases[l].live
  }

  /** A grant names a lease never used before; the server processed the call at some moment of the attempt. */
  predicate GrantOk(s: System, n: Node, g: Grant, at: nat) {
    g.Granted? ==> n.shutdown == Serving && g.l != 0 && g.l !in s.leases && n.wakeAt <= at <= s.now
  }

  /** An acknowledged put was applied; one that reports an error may have been. Only a live lease can be attached. */
  predicate PutOk(s: System, n: Node, l: nat, ok: bool, applied: bool) {
    (ok ==> applied && n.shutdown == Serving) && (applied ==> LiveLease(s, l))
  }

  /** `keys` lists, once each, the keys bound to lease `l`. */
  ghost predicate BoundKeys(c: Contents, l: nat, keys: seq<string>) {
    && (forall k :: k in keys <==> k in c && c[k].lease == l)
    && (forall i, j | 0 <= i < j < |keys| :: keys[i] != keys[j])
  }

  ghost predicate Enabled(cfg: Cluster, s: System, x: Label)
    requires |s.nodes| == |cfg|
  {
    match x
    case Expire(l, keys) =>
      LiveLease(s, l) && s.now >= s.leases[l].deadline && BoundKeys(Current(s.log), l, keys)
    case Tick(t) => t >= s.now
    case _ => x.i < |cfg| && NodeEnabled(cfg[x.i], s, s.nodes[x.i], x)
  }

  ghost predicate NodeEnabled(c: Config, s: System, n: Node, x: Label)
    requires !x.Expire? && !x.Tick?
  {
    match x
    case RegisterGrant(_, g, at) => n.pc == Idle && !n.flags.registered && GrantOk(s, n, g, at)
    case RegisterPut(_, ok, applied) => n.pc.RegisterPutting? && PutOk(s, n, n.pc.l, ok, applied)
    case LoopGrant(_, g, at) =>
      n.pc == AtLoop && s.now >= n.wakeAt && n.flags.leaseID == 0 && GrantOk(s, n, g, at)
    case LoopPut(_, ok, applied) => n.pc.LoopPutting? && PutOk(s, n, n.pc.l, ok, applied)
    case LoopCheck(_, ok) =>
      n.pc == AtLoop && s.now >= n.wakeAt && n.flags.leaseID != 0 && (ok ==> n.shutdown == Serving)
    case LoopRenew(_, ok, applied, at) =>
      && n.pc == Renewing && (ok ==> applied && n.shutdown == Serving)
      && (applied ==> LiveLease(s, n.flags.leaseID) && n.wakeAt <= at <= s.now)
    case LoopStop(_) => n.pc == AtLoop && n.shutdown != Serving
    case Cancel(_) => n.shutdown == Serving
    case DeleteKey(_, ok, applied) => n.shutdown == Cancelled && (ok ==> applied)
    case ClearFlag(_) => n.shutdown == Deleted
    case ReadOwn(_, t, rev, reply) =>
      t in n.sync && n.sync[t] == Ready && rev <= |s.log| && ReadsByKey(reply, At(s.log, rev), KeyOf(c))
    case ReadAll(_, t, rev, reply) =>
      t in n.sync && n.sync[t].HasOwn? && rev <= |s.log| && ReadsByCreate(reply, At(s.log, rev), PathOf(c))
    case SetDisabled(_, _) => true
  }

  function Grants(s: System, i: nat, g: Grant, at: nat): map<nat, Lease> {
    if g.Granted? then s.leases[g.l := Lease(i, at + GRANT_LEASE_TTL, true)] else s.leases
  }

  /** Deleting nothing does not make a revision. */
  function LogDelete(log: Log, keys: seq<string>): Log {
    if keys == [] then log else log + [Delete(keys)]
  }

  function LogPut(c: Config, log: Log, l: nat, applied: bool): Log {
    if applied then log + [Put(KeyOf(c), Encoded(c.info), l)] else log
  }

  function Sleep(n: Node, f: Flags, now: nat, d: nat): Node {
    n.(flags := f, pc := AtLoop, wakeAt := now + d)
  }

  function SetNode(s: System, i: nat, n: Node): System
    requires i < |s.nodes|
  {
    s.(nodes := s.nodes[i := n])
  }

  /** The lease a put in progress carries. */
  function PendingLease(pc: Pc): nat {
    match pc
    case RegisterPutting(l) => l
    case LoopPutting(l) => l
    case _ => 0
  }

  /** The create revision a sync in progress has read. */
  function ReadRevision(n: Node, t: Task): nat {
    if t in n.sync && n.sync[t].HasOwn? then n.sync[t].cr else 0
  }

  function SetDeadline(leases: map<nat, Lease>, l: nat, deadline: nat): map<nat, Lease> {
    if l in leases then leases[l := leases[l].(deadline := deadline)] else leases
  }

  function Revoke(leases: map<nat, Lease>, l: nat): map<nat, Lease> {
    if l in leases then leases[l := leases[l].(live := false)] else leases
  }

  /** The effect of an enabled label. */
  function Step(cfg: Cluster, s: System, x: Label): (r: System)
    requires |s.nodes| == |cfg|
    ensures |r.nodes| == |cfg|
  {
    match x
    case Expire(l, keys) => s.(leases := Revoke(s.leases, l), log := LogDelete(s.log, keys))
    case Tick(t) => s.(now := t)
    case _ => if x.i < |cfg| then NodeStep(cfg[x.i], s, x) else s
  }

  function NodeStep(c: Config, s: System, x: Label): (r: System)
    requires !x.Expire? && !x.Tick? && x.i < |s.nodes|
    ensures |r.nodes| == |s.nodes|
  {
    var n := s.nodes[x.i];
    var l := PendingLease(n.pc);
    match x
    case RegisterGrant(i, g, at) =>
      SetNode(s.(leases := Grants(s, i, g, at)), i, n.(pc := if g.Granted? then RegisterPutting(g.l) else Failed))
    case RegisterPut(i, ok, applied) =>
      SetNode(s.(log := LogPut(c, s.log, l, applied)), i,
              if ok then Sleep(n, Confirm(n.flags, l), s.now, 0) else n.(pc := Failed))
    case LoopGrant(i, g, at) =>
      SetNode(s.(leases := Grants(s, i, g, at)), i,
              if g.Granted? then n.(pc := LoopPutting(g.l)) else Sleep(n, n.flags, s.now, ERR_SLEEP))
    case LoopPut(i, ok, applied) =>
      SetNode(s.(log := LogPut(c, s.log, l, applied)), i,
              if ok then Sleep(n, Confirm(n.flags, l), s.now, KEEP_ALIVE_INTERVAL)
              else Sleep(n, n.flags, s.now, ERR_SLEEP))
    case LoopCheck(i, ok) =>
      SetNode(s, i, if ok && KeyOf(c) in Current(s.log) then n.(pc := Renewing)
                    else Sleep(n, Drop(n.flags), s.now, ERR_SLEEP))
    case LoopRenew(i, ok, applied, at) =>
      SetNode(if applied then s.(leases := SetDeadline(s.leases, n.flags.leaseID, at + GRANT_LEASE_TTL)) else s, i,
              if ok then Sleep(n, n.flags, s.now, KEEP_ALIVE_INTERVAL)
              else Sleep(n, Drop(n.flags), s.now, ERR_SLEEP))
    case LoopStop(i) => SetNode(s, i, n.(pc := Stopped))
    case Cancel(i) => SetNode(s, i, n.(shutdown := Cancelled))
    case DeleteKey(i, ok, applied) =>
      var keys := if applied && KeyOf(c) in Current(s.log) then [KeyOf(c)] else [];
      SetNode(s.(log := LogDelete(s.log, keys)), i, if ok then n.(shutdown := Deleted) else n)
    case ClearFlag(i) =>
      SetNode(s, i, n.(flags := n.flags.(registered := false), shutdown := Cleared))
    case ReadOwn(i, t, rev, reply) =>
      SetNode(s, i, if reply.Got? && reply.entries != [] then
                      n.(sync := n.sync[t := HasOwn(reply.entries[0].kv.createRev)])
                    else n)
    case ReadAll(i, t, rev, reply) =>
      SetNode(s, i, n.(flags := AfterSync(n.flags, Compare(ReadRevision(n, t), reply)),
                       sync := n.sync[t := Ready]))
    case SetDisabled(i, b) => SetNode(s, i, n.(flags := n.flags.(disabled := b)))
  }

  /** The second half of the election check. */
  function Compare(cr: nat, all: Reply): Answer {
    if all.ReadFailed? || all.entries == [] then Unknown
    else if cr == FirstEligible(all.entries) then Yes
    else No
  }

  /** The two halves make up the whole check, and an unusable first read leaves the flag alone. */
  lemma TwoHalvesMakeTheCheck(own: Reply, all: Reply, f: Flags)
    ensures AfterSync(f, Decide(own, all)) ==
              if own.Got? && own.entries != [] then AfterSync(f, Compare(own.entries[0].kv.createRev, all)) else f
  {
  }

  /** Every label in turn is enabled. */
  ghost predicate ValidRun(cfg: Cluster, s: System, run: seq<Label>)
    requires |s.nodes| == |cfg|
    decreases |run|
  {
    run != [] ==> Enabled(cfg, s, run[0]) && ValidRun(cfg, Step(cfg, s, run[0]), run[1..])
  }

  function Exec(cfg: Cluster, s: System, run: seq<Label>): (r: System)
    requires |s.nodes| == |cfg|
    ensures |r.nodes| == |cfg|
    decreases |run|
  {
    if run == [] then s else Exec(cfg, Step(cfg, s, run[0]), run[1..])
  }
}
