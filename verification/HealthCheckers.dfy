/** The health checker object.  Every method is one atomic step of TaintSpec on the object's fields. */
module HealthCheckers {
  import opened Arithmetic
  import opened Wrappers
  import opened TaintSpec

  const HTTP := "http"
  const WEBSOCKET := "websocket"

  class HealthChecker {
    const name: string
    const connectionType: string
    const chainType: string

    var blockNumber: nat
    var ethCallCheckCounter: nat
    var taintRemoveCh: bool
    var isTainted: bool
    var lastRemoval: Option<int>
    var waitTime: int
    var removalTimer: Option<nat>
    var taintConfig: TaintConfig
    // the Go runtime's timers armed by this checker
    var pending: map<nat, int>
    var nextTimer: nat

    constructor (name: string, chainType: string, connectionType: string)
      ensures this.name == name
      ensures this.chainType == if chainType == "" then "evm" else chainType
      ensures this.connectionType == if connectionType == "" then "http" else connectionType
      ensures Contents() == INITIAL
      ensures !isTainted && !taintRemoveCh && lastRemoval == None && waitTime == 30_000_000_000
      ensures removalTimer == None && pending == map[] && ethCallCheckCounter == 0 && blockNumber == 0
    {
      this.name := name;
      this.chainType := if chainType == "" then "evm" else chainType;
      this.connectionType := if connectionType == "" then HTTP else connectionType;
      blockNumber, ethCallCheckCounter := 0, 0;
      taintRemoveCh, isTainted := false, false;
      lastRemoval, removalTimer := None, None;
      waitTime, taintConfig := HEALTH_CHECK_CONFIG.initialWaitTime, HEALTH_CHECK_CONFIG;
      pending, nextTimer := map[], 0;
    }

    function ProbeKind(): Kind {
      Kind(chainType == "evm", connectionType == WEBSOCKET)
    }

    ghost function Contents(): State
      reads this
    {
      State(isTainted, lastRemoval, waitTime, taintConfig, removalTimer, pending, nextTimer,
            taintRemoveCh, ethCallCheckCounter, blockNumber)
    }

    /** `cleanup` tells whether the before-taint callback of a WebSocket checker is called. */
    method Taint(cfg: TaintConfig, now: int) returns (cleanup: bool)
      modifies this
      ensures Contents() == TaintSpec.Taint(old(Contents()), cfg, now)
      ensures !old(isTainted) && cfg.resetWaitDuration < TWO_63 - 1 ==>
        && lastRemoval == Some(now)
        && waitTime == if old(lastRemoval).Some? && now - old(lastRemoval).value <= cfg.resetWaitDuration
                       then Min(Int64(old(waitTime) * 2), cfg.maxWaitTime) else cfg.initialWaitTime
      ensures cleanup <==> !old(isTainted) && connectionType == "websocket"
    {
      if isTainted {
        return false;
      }
      cleanup := connectionType == WEBSOCKET;
      isTainted := true;
      var wait;
      if Since(lastRemoval, now) <= cfg.resetWaitDuration {
        wait := Min(Int64(waitTime * 2), cfg.maxWaitTime);
      } else {
        wait := cfg.initialWaitTime;
      }
      assert wait == NextWait(old(Contents()), cfg, now);
      if removalTimer.Some? {
        pending := pending - {removalTimer.value};
      }
      removalTimer := Some(nextTimer);
      pending := pending[nextTimer := now + wait];
      nextTimer := nextTimer + 1;
      taintConfig := cfg;
      lastRemoval := Some(now);
      waitTime := wait;
    }

    method TaintHTTP(now: int) returns (cleanup: bool)
      modifies this
      ensures Contents() == TaintSpec.Taint(old(Contents()), HTTP_CONFIG, now)
      ensures cleanup <==> !old(isTainted) && connectionType == "websocket"
    {
      cleanup := Taint(HTTP_CONFIG, now);
    }

    method TaintHealthCheck(now: int) returns (cleanup: bool)
      modifies this
      ensures Contents() == TaintSpec.Taint(old(Contents()), HEALTH_CHECK_CONFIG, now)
      ensures cleanup <==> !old(isTainted) && connectionType == "websocket"
    {
      cleanup := Taint(HEALTH_CHECK_CONFIG, now);
    }

    method RemoveTaint(now: int)
      modifies this
      ensures Contents() == TaintSpec.RemoveTaint(old(Contents()), now)
    {
      isTainted := false;
      lastRemoval := Some(now);
      removalTimer := None;
    }

    /** The runtime runs the callback of the due timer `id`. */
    method OnRemovalTimer(id: nat, now: int)
      requires id in pending && pending[id] <= now
      modifies this
      ensures Contents() == FireTimer(old(Contents()), id, now)
    {
      pending := pending - {id};
      RemoveTaint(now);
      if !taintRemoveCh {
        taintRemoveCh := true;
      }
    }

    /** The loop of the checker receives the signal. */
    method OnTaintRemoveSignal()
      requires taintRemoveCh
      modifies this
      ensures Contents() == DrainSignal(old(Contents()))
    {
      taintRemoveCh := false;
      if removalTimer.Some? {
        pending := pending - {removalTimer.value};
        removalTimer := None;
      }
    }

    method Stop()
      modifies this
      ensures Contents() == TaintSpec.Stop(old(Contents()))
    {
      if !taintRemoveCh {
        taintRemoveCh := true;
      }
    }

    predicate IsHealthy()
      reads this
    {
      !isTainted
    }

    /** The block number half of a cycle before its callback: a failed probe taints, a good one is stored. */
    method StoreBlockNumber(block: Option<nat>, now: int) returns (stored: bool)
      modifies this
      ensures stored <==> block.Some?
      ensures blockNumber == if block.Some? then block.value else old(blockNumber)
      ensures isTainted <==> old(isTainted) || block.None?
      ensures Contents() == CheckBlockNumber(old(Contents()), Answers(block, false, true), now)
    {
      if block.None? {
        var _ := TaintHealthCheck(now);
        return false;
      }
      blockNumber := block.value;
      return true;
    }

    /** The eth_call half of a cycle; `sent` tells whether the probe is sent. */
    method CheckAndSetEthCallHealth(ethCallOk: bool, now: int) returns (sent: bool)
      modifies this
      ensures Contents() == CheckEthCall(ProbeKind(), old(Contents()), ethCallOk, now)
      ensures sent <==> SendsEthCall(ProbeKind(), old(Contents()))
      ensures sent ==> chainType == "evm" && connectionType != "websocket"
      ensures isTainted <==> old(isTainted) || (sent && !ethCallOk)
    {
      if chainType != "evm" {
        return false;
      }
      ethCallCheckCounter := (ethCallCheckCounter + 1) % TWO_32;
      if ethCallCheckCounter % 2 != 0 {
        return false;
      }
      if connectionType == WEBSOCKET {
        return false;
      }
      if !ethCallOk {
        var _ := TaintHealthCheck(now);
      }
      return true;
    }
  }
}
