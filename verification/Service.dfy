/**
 The state one registered instance keeps (pkg/serviced/service.go), the effect of each outcome of its
 loops on that state, and the object whose methods perform them.
 */
module ServiceState {

  import opened Etcd
  import opened Election

  /** Durations are in nanoseconds, as in the program (pkg/serviced/types.go). */
  const SECOND: nat := 1_000_000_000
  const KEEP_ALIVE_INTERVAL: nat := 5 * SECOND
  const GRANT_LEASE_TTL: nat := 10 * SECOND
  const ERR_SLEEP: nat := SECOND

  /** The fields the goroutines of an instance share. A zero lease id means "no lease". */
  datatype Flags = Flags(leaseID: nat, registered: bool, master: bool, disabled: bool)

  datatype Grant = Granted(l: nat) | GrantFailed

  datatype Check = Exists | Missing | CheckFailed

  /** What the store answers to the calls of one keep-alive round, in call order; unused answers are ignored. */
  datatype Round = Round(grant: Grant, putOk: bool, check: Check, renewOk: bool)

  function Confirm(f: Flags, l: nat): Flags {
    f.(registered := true, leaseID := l)
  }

  function Drop(f: Flags): Flags {
    f.(registered := false, leaseID := 0)
  }

  /** Whether a round ends with the key confirmed in the store. */
  predicate Succeeds(f: Flags, r: Round) {
    if f.leaseID == 0 then r.grant.Granted? && r.putOk else r.check == Exists && r.renewOk
  }

  function AfterRound(f: Flags, r: Round): Flags {
    if f.leaseID == 0 then
      if Succeeds(f, r) then Confirm(f, r.grant.l) else f
    else
      if Succeeds(f, r) then f else Drop(f)
  }

  function SleepAfterRound(f: Flags, r: Round): nat {
    if Succeeds(f, r) then KEEP_ALIVE_INTERVAL else ERR_SLEEP
  }

  /** One sync of the master flag: an error leaves it as it was. */
  function AfterSync(f: Flags, a: Answer): Flags {
    if a == Unknown then f else f.(master := a == Yes)
  }

  class Service {
    var leaseID: nat
    var isRegisteredFlag: bool
    var isMasterFlag: bool
    var disableMasterSlaveFlag: bool
    var cancelled: bool

    ghost function View(): Flags
      reads this
    {
      Flags(leaseID, isRegisteredFlag, isMasterFlag, disableMasterSlaveFlag)
    }

    constructor ()
      ensures View() == Flags(0, false, false, false) && !cancelled
    {
      leaseID, isRegisteredFlag, isMasterFlag, disableMasterSlaveFlag := 0, false, false, false;
      cancelled := false;
    }

    /** Register up to the start of the keep-alive loop; `ok` says whether the loop is started. */
    method Register(grant: Grant, putOk: bool) returns (ok: bool)
      modifies this`leaseID, this`isRegisteredFlag
      ensures ok <==> !old(isRegisteredFlag) && grant.Granted? && putOk
      ensures View() == if ok then Confirm(old(View()), grant.l) else old(View())
      ensures ok ==> isRegisteredFlag && leaseID == grant.l
    {
      if isRegisteredFlag {
        return false;
      }
      if grant.GrantFailed? {
        return false;
      }
      if !putOk {
        return false;
      }
      leaseID := grant.l;
      isRegisteredFlag := true;
      return true;
    }

    method KeepAliveFailed() returns (sleep: nat)
      modifies this`leaseID, this`isRegisteredFlag
      ensures View() == Drop(old(View())) && !isRegisteredFlag && leaseID == 0 && sleep == 1_000_000_000
    {
      isRegisteredFlag := false;
      leaseID := 0;
      return ERR_SLEEP;
    }

    /** One round of the keep-alive loop; `sleep` is how long it pauses before the next one. */
    method KeepAliveRound(r: Round) returns (sleep: nat)
      modifies this`leaseID, this`isRegisteredFlag
      ensures View() == AfterRound(old(View()), r)
      ensures sleep == SleepAfterRound(old(View()), r)
      ensures old(leaseID) == 0 && r.grant.Granted? && r.putOk ==>
                isRegisteredFlag && leaseID == r.grant.l && sleep == 5_000_000_000
      ensures old(leaseID) == 0 && !(r.grant.Granted? && r.putOk) ==>
                View() == old(View()) && sleep == 1_000_000_000
      ensures old(leaseID) != 0 && r.check == Exists && r.renewOk ==>
                View() == old(View()) && sleep == 5_000_000_000
      ensures old(leaseID) != 0 && !(r.check == Exists && r.renewOk) ==>
                !isRegisteredFlag && leaseID == 0 && sleep == 1_000_000_000
    {
      var curLeaseID := leaseID;
      if curLeaseID == 0 {
        if r.grant.GrantFailed? {
          return ERR_SLEEP;
        }
        if !r.putOk {
          return ERR_SLEEP;
        }
        isRegisteredFlag := true;
        leaseID := r.grant.l;
      } else {
        if r.check != Exists {
          sleep := KeepAliveFailed();
          return;
        }
        if !r.renewOk {
          sleep := KeepAliveFailed();
          return;
        }
      }
      return KEEP_ALIVE_INTERVAL;
    }

    /** Deregister: stop the loops, delete the key, and clear the flag only if the delete succeeded. */
    method Deregister(deleteOk: bool) returns (ok: bool)
      modifies this`cancelled, this`isRegisteredFlag
      ensures cancelled && ok == deleteOk
      ensures View() == if deleteOk then old(View()).(registered := false) else old(View())
    {
      cancelled := true;
      if !deleteOk {
        return false;
      }
      isRegisteredFlag := false;
      return true;
    }

    /** The election check: scan for the first eligible entry of the second read. */
    method CheckMaster(own: Reply, all: Reply) returns (a: Answer)
      ensures a == Decide(own, all)
    {
      if own.ReadFailed? || |own.entries| == 0 {
        return Unknown;
      }
      var cr := own.entries[0].kv.createRev;
      if all.ReadFailed? || |all.entries| == 0 {
        return Unknown;
      }
      var firstCR := 0;
      var i := 0;
      while i < |all.entries|
        invariant 0 <= i <= |all.entries|
        invariant firstCR == 0
        invariant FirstEligible(all.entries) == FirstEligible(all.entries[i..])
      {
        var kv := all.entries[i].kv;
        if kv.value.Encoded? && !kv.value.info.disableElection {
          firstCR := kv.createRev;
          break;
        }
        i := i + 1;
      }
      return if cr == firstCR then Yes else No;
    }

    /** One pass of either sync goroutine. */
    method SyncMasterState(own: Reply, all: Reply) returns (retry: bool)
      modifies this`isMasterFlag
      ensures View() == AfterSync(old(View()), Decide(own, all))
      ensures retry <==> Decide(own, all) == Unknown
    {
      var a := CheckMaster(own, all);
      if a == Unknown {
        return true;
      }
      isMasterFlag := a == Yes;
      return false;
    }

    method IsMaster() returns (b: bool)
      ensures b <==> isMasterFlag && !disableMasterSlaveFlag
    {
      if disableMasterSlaveFlag {
        return false;
      }
      return isMasterFlag;
    }

    method DisableMasterSlave(disable: bool)
      modifies this`disableMasterSlaveFlag
      ensures View() == old(View()).(disabled := disable)
    {
      disableMasterSlaveFlag := disable;
    }
  }
}
