/**
 * `ARPScanner`: one-shot and periodic scans, the history of results and the
 * callback. The two worker threads are modelled as step methods: `ScanStep`
 * runs the body of one started scan thread, `PeriodicLoopCheck` one test of
 * the periodic loop's condition and `WaitPoll` one test inside its wait.
 * `pendingScans` and `periodicLoops` count the threads started and not yet
 * finished.
 */
module Scanner {
  import opened Wrappers
  import opened ArpTable
  import opened GatewayResolver
  import opened Detector

  /** One entry of the scan history. Times are whole units of the caller's
      clock. */
  datatype ScanResult = ScanResult(
    timestamp: int,
    arpTable: seq<ArpEntry>,
    gateway: Gateway,
    suspicious: seq<Finding>,
    threatLevel: string,
    duration: int)

  /** A value kept in the settings store. */
  datatype Setting = Hours(hours: int) | Flag(flag: bool)

  const IntervalKey: string := "scan_interval"
  const PeriodicKey: string := "periodic_scan_active"
  const DefaultInterval: int := 24
  const HistoryLimit: nat := 100

  /** `get_setting("scan_interval", 24)`. */
  function StoredInterval(store: map<string, Setting>): int {
    if IntervalKey in store && store[IntervalKey].Hours? then store[IntervalKey].hours else DefaultInterval
  }

  /** The store after `set_setting("scan_interval", interval)`, when an
      interval is given. */
  function WithInterval(store: map<string, Setting>, interval: Option<int>): (r: map<string, Setting>)
    ensures interval.Some? ==> IntervalKey in r && StoredInterval(r) == interval.value
    ensures interval.None? ==> r == store
  {
    if interval.Some? then store[IntervalKey := Hours(interval.value)] else store
  }

  /** Clearing the periodic flag before storing the interval is undone by
      setting the flag again. */
  lemma RestartSettings(store: map<string, Setting>, interval: Option<int>)
    ensures WithInterval(store[PeriodicKey := Flag(false)], interval)[PeriodicKey := Flag(true)]
            == WithInterval(store, interval)[PeriodicKey := Flag(true)]
  {
    assert IntervalKey != PeriodicKey by {
      assert IntervalKey[0] != PeriodicKey[0];
    }
  }

  /** "high" if some finding is high, else "medium" if some finding is
      medium, else "none". */
  function ThreatLevelOf(findings: seq<Finding>): (level: string)
    ensures level == High <==> exists f :: f in findings && Level(f) == High
    ensures level == Medium <==>
              (exists f :: f in findings && Level(f) == Medium)
              && !(exists f :: f in findings && Level(f) == High)
    ensures level in {High, Medium, NoThreat}
  {
    if exists f :: f in findings && Level(f) == High then High
    else if exists f :: f in findings && Level(f) == Medium then Medium
    else NoThreat
  }

  /** `history[-100:]`. */
  function KeepLast<T>(history: seq<T>): (r: seq<T>)
    ensures |r| <= HistoryLimit
    ensures |history| <= HistoryLimit ==> r == history
    ensures r == history[|history| - |r|..]
  {
    if |history| > HistoryLimit then history[|history| - HistoryLimit..] else history
  }

  /** One append to the history, trimmed to the limit. */
  function Record<T>(history: seq<T>, result: T): seq<T> {
    KeepLast(history + [result])
  }

  /** The result one scan yields from what the commands printed: the table,
      the gateway, the findings against the gateway the detector looked up,
      the overall level, and the times. */
  function ScanResultOf(platform: Platform, arpOutput: Option<string>, probe: GatewayProbe,
                        detectProbe: GatewayProbe, start: int, finish: int): ScanResult
  {
    var table := ArpTableOf(platform, arpOutput);
    var suspicious := Detect(table, GatewayOf(detectProbe));
    ScanResult(finish, table, GatewayOf(probe), suspicious, ThreatLevelOf(suspicious), finish - start)
  }

  /** What one scan computes, before it is recorded. */
  method RunScan(platform: Platform, arpOutput: Option<string>, probe: GatewayProbe,
                 detectProbe: GatewayProbe, start: int, finish: int)
    returns (result: ScanResult)
    ensures result == ScanResultOf(platform, arpOutput, probe, detectProbe, start, finish)
  {
    var table := GetArpTable(platform, arpOutput);
    var gateway := GetDefaultGateway(probe);
    var detectGateway := GetDefaultGateway(detectProbe);
    var suspicious := DetectArpSpoofing(table, detectGateway);
    var level := ThreatLevelOf(suspicious);
    result := ScanResult(finish, table, gateway, suspicious, level, finish - start);
  }

  class ArpScanner {
    var hasCallback: bool
    /** The results handed to the callback, oldest first. */
    var delivered: seq<ScanResult>
    var running: bool
    var periodicRunning: bool
    var scanInterval: int
    var stopEvent: bool
    var scanHistory: seq<ScanResult>
    /** The persisted settings (`set_setting` writes here). */
    var settings: map<string, Setting>
    var pendingScans: nat
    var periodicLoops: nat

    /** A started scan thread is pending while `running` holds, a started
        loop is alive while `periodicRunning` holds, and the history never
        exceeds its limit. */
    predicate Valid()
      reads this
    {
      (running ==> pendingScans >= 1)
      && (periodicRunning ==> periodicLoops >= 1)
      && |scanHistory| <= HistoryLimit
    }

    constructor(hasCallback: bool, store: map<string, Setting>)
      ensures Valid()
      ensures this.hasCallback == hasCallback && delivered == []
      ensures !running && !periodicRunning && !stopEvent
      ensures scanInterval == StoredInterval(store)
      ensures scanHistory == [] && settings == store
      ensures pendingScans == 0 && periodicLoops == 0
    {
      this.hasCallback := hasCallback;
      delivered := [];
      running := false;
      periodicRunning := false;
      scanInterval := StoredInterval(store);
      stopEvent := false;
      scanHistory := [];
      settings := store;
      pendingScans := 0;
      periodicLoops := 0;
    }

    /** Starts a scan thread unless one is marked running. */
    method StartScan() returns (started: bool)
      requires Valid()
      modifies this
      ensures Valid()
      ensures started == !old(running)
      ensures started ==> running && !stopEvent && pendingScans == old(pendingScans) + 1
      ensures !started ==> running == old(running) && stopEvent == old(stopEvent) && pendingScans == old(pendingScans)
      ensures periodicRunning == old(periodicRunning) && periodicLoops == old(periodicLoops)
      ensures scanInterval == old(scanInterval) && scanHistory == old(scanHistory)
      ensures settings == old(settings) && delivered == old(delivered) && hasCallback == old(hasCallback)
    {
      if running {
        return false;
      }
      running := true;
      stopEvent := false;
      pendingScans := pendingScans + 1;
      return true;
    }

    /** Clears the periodic flag, raises the stop signal and persists
        "inactive". Joining the thread only waits, so the loop's own exit is
        left to `PeriodicLoopCheck`. */
    method StopPeriodicScan() returns (stopped: bool)
      requires Valid()
      modifies this
      ensures Valid()
      ensures stopped == old(periodicRunning)
      ensures !periodicRunning
      ensures stopped ==> stopEvent && settings == old(settings)[PeriodicKey := Flag(false)]
      ensures !stopped ==> stopEvent == old(stopEvent) && settings == old(settings)
      ensures running == old(running) && pendingScans == old(pendingScans) && periodicLoops == old(periodicLoops)
      ensures scanInterval == old(scanInterval) && scanHistory == old(scanHistory)
      ensures delivered == old(delivered) && hasCallback == old(hasCallback)
    {
      if !periodicRunning {
        return false;
      }
      periodicRunning := false;
      stopEvent := true;
      settings := settings[PeriodicKey := Flag(false)];
      return true;
    }

    /** Starts the periodic loop. A new interval while the loop runs first
        stops it and then starts a fresh loop; the old thread is not waited
        for. Always returns true. */
    method StartPeriodicScan(interval: Option<int>) returns (ok: bool)
      requires Valid()
      modifies this
      ensures Valid()
      ensures ok
      ensures periodicRunning
      ensures scanInterval == (if interval.Some? then interval.value else old(scanInterval))
      ensures var restart := old(periodicRunning) && interval.Some? && old(scanInterval) != interval.value;
              var launched := !old(periodicRunning) || restart;
              var stored := WithInterval(old(settings), interval);
              periodicLoops == old(periodicLoops) + (if launched then 1 else 0)
              && (launched ==> !stopEvent && settings == stored[PeriodicKey := Flag(true)])
              && (!launched ==> stopEvent == old(stopEvent) && settings == stored)
      ensures running == old(running) && pendingScans == old(pendingScans)
      ensures scanHistory == old(scanHistory) && delivered == old(delivered) && hasCallback == old(hasCallback)
    {
      if periodicRunning && interval.Some? && scanInterval != interval.value {
        var _ := StopPeriodicScan();
        RestartSettings(old(settings), interval);
      }
      if interval.Some? {
        scanInterval := interval.value;
        settings := settings[IntervalKey := Hours(interval.value)];
      }
      if periodicRunning {
        return true;
      }
      periodicRunning := true;
      stopEvent := false;
      settings := settings[PeriodicKey := Flag(true)];
      periodicLoops := periodicLoops + 1;
      return true;
    }

    /** Stops the periodic loop and marks the one-shot scan stopped. A scan
        thread already started is not cancelled. */
    method Stop()
      requires Valid()
      modifies this
      ensures Valid()
      ensures !running && !periodicRunning
      ensures stopEvent == (old(stopEvent) || old(periodicRunning) || old(running))
      ensures settings == if old(periodicRunning) then old(settings)[PeriodicKey := Flag(false)] else old(settings)
      ensures pendingScans == old(pendingScans) && periodicLoops == old(periodicLoops)
      ensures scanInterval == old(scanInterval) && scanHistory == old(scanHistory)
      ensures delivered == old(delivered) && hasCallback == old(hasCallback)
    {
      if periodicRunning {
        var _ := StopPeriodicScan();
      }
      if running {
        running := false;
        stopEvent := true;
      }
    }

    /** The body of one started scan thread: read the table and the gateway,
        detect, record the result (keeping the last hundred), hand it to the
        callback, and clear `running` whatever happened. The detector looks
        the gateway up a second time, which is `detectProbe`. */
    method ScanStep(platform: Platform, arpOutput: Option<string>, probe: GatewayProbe,
                    detectProbe: GatewayProbe, start: int, finish: int)
      returns (result: ScanResult)
      requires Valid() && pendingScans >= 1
      modifies this
      ensures Valid()
      ensures result == ScanResultOf(platform, arpOutput, probe, detectProbe, start, finish)
      ensures scanHistory == Record(old(scanHistory), result)
      ensures hasCallback ==> delivered == old(delivered) + [result]
      ensures !hasCallback ==> delivered == old(delivered)
      ensures !running && pendingScans == old(pendingScans) - 1
      ensures periodicRunning == old(periodicRunning) && periodicLoops == old(periodicLoops)
      ensures stopEvent == old(stopEvent) && scanInterval == old(scanInterval)
      ensures settings == old(settings) && hasCallback == old(hasCallback)
    {
      result := RunScan(platform, arpOutput, probe, detectProbe, start, finish);
      Finish(result);
    }

    /** The end of the scan thread: append and trim the history, call the
        callback if there is one, and clear `running`. */
    method Finish(result: ScanResult)
      requires Valid() && pendingScans >= 1
      modifies this
      ensures Valid()
      ensures scanHistory == Record(old(scanHistory), result)
      ensures hasCallback ==> delivered == old(delivered) + [result]
      ensures !hasCallback ==> delivered == old(delivered)
      ensures !running && pendingScans == old(pendingScans) - 1
      ensures periodicRunning == old(periodicRunning) && periodicLoops == old(periodicLoops)
      ensures stopEvent == old(stopEvent) && scanInterval == old(scanInterval)
      ensures settings == old(settings) && hasCallback == old(hasCallback)
    {
      scanHistory := scanHistory + [result];
      if |scanHistory| > HistoryLimit {
        scanHistory := scanHistory[|scanHistory| - HistoryLimit..];
      }
      if hasCallback {
        delivered := delivered + [result];
      }
      running := false;
      pendingScans := pendingScans - 1;
    }

    /** One test of the periodic loop's condition by a live loop thread. While
        the loop should go on it starts a scan unless one is running and
        returns true; otherwise the thread ends, and on its way out clears
        `periodicRunning`, whichever loop that flag now belongs to. */
    method PeriodicLoopCheck() returns (continues: bool)
      requires Valid() && periodicLoops >= 1
      modifies this
      ensures Valid()
      ensures continues == (old(periodicRunning) && !old(stopEvent))
      ensures continues ==> periodicRunning && periodicLoops == old(periodicLoops)
      ensures continues && !old(running) ==> running && !stopEvent && pendingScans == old(pendingScans) + 1
      ensures continues && old(running) ==> running && stopEvent == old(stopEvent) && pendingScans == old(pendingScans)
      ensures !continues ==> !periodicRunning && periodicLoops == old(periodicLoops) - 1
      ensures !continues ==> running == old(running) && stopEvent == old(stopEvent) && pendingScans == old(pendingScans)
      ensures scanInterval == old(scanInterval) && scanHistory == old(scanHistory)
      ensures settings == old(settings) && delivered == old(delivered) && hasCallback == old(hasCallback)
    {
      if periodicRunning && !stopEvent {
        if !running {
          var _ := StartScan();
        }
        return true;
      }
      periodicRunning := false;
      periodicLoops := periodicLoops - 1;
      return false;
    }

    /** One test inside the wait between scans: the wait ends early exactly
        when the stop signal is raised or the periodic flag is clear. */
    method WaitPoll() returns (leave: bool)
      ensures leave == (stopEvent || !periodicRunning)
    {
      leave := stopEvent || !periodicRunning;
    }

    method GetLastScanResult() returns (last: Option<ScanResult>)
      ensures last.None? <==> scanHistory == []
      ensures last.Some? ==> last.value == scanHistory[|scanHistory| - 1]
    {
      if |scanHistory| > 0 {
        return Some(scanHistory[|scanHistory| - 1]);
      }
      return None;
    }

    method GetScanHistory() returns (history: seq<ScanResult>)
      ensures history == scanHistory
    {
      history := scanHistory;
    }
  }

  // ------------------------------------------------------------ properties

  /** The history after recording `results` one scan at a time. */
  function Replay<T>(history: seq<T>, results: seq<T>): seq<T> {
    if results == [] then history
    else Record(Replay(history, results[..|results| - 1]), results[|results| - 1])
  }

  /** Trimming before an append changes nothing once the append is trimmed. */
  lemma KeepLastAppend<T>(history: seq<T>, result: T)
    ensures KeepLast(KeepLast(history) + [result]) == KeepLast(history + [result])
  {
    var h := history + [result];
    if |history| > HistoryLimit {
      assert KeepLast(history) + [result] == h[|h| - HistoryLimit - 1..];
    }
  }

  /** Recording scans one at a time keeps the last hundred results of the
      whole sequence, in order. */
  lemma {:induction false} ReplayKeepsLast<T>(history: seq<T>, results: seq<T>)
    requires |history| <= HistoryLimit
    ensures Replay(history, results) == KeepLast(history + results)
  {
    if results == [] {
      assert history + results == history;
    } else {
      var prefix := results[..|results| - 1];
      var last := results[|results| - 1];
      ReplayKeepsLast(history, prefix);
      KeepLastAppend(history + prefix, last);
      assert history + prefix + [last] == history + results;
      calc {
        Replay(history, results);
        Record(Replay(history, prefix), last);
        KeepLast(KeepLast(history + prefix) + [last]);
        KeepLast(history + prefix + [last]);
      }
    }
  }

  /** Recording at least a hundred scans (150, say) leaves exactly the last
      hundred of them. */
  lemma ReplayLastHundred<T>(history: seq<T>, results: seq<T>)
    requires |history| <= HistoryLimit && |results| >= HistoryLimit
    ensures Replay(history, results) == results[|results| - HistoryLimit..]
  {
    ReplayKeepsLast(history, results);
    var all := history + results;
    assert all[|all| - HistoryLimit..] == results[|results| - HistoryLimit..];
  }

  /** A scan's level is "high" exactly when the gateway alarm fires, and
      "none" exactly when, besides, no counted MAC carries two ips. */
  lemma ScanLevel(table: seq<ArpEntry>, gw: Gateway)
    ensures ThreatLevelOf(Detect(table, gw)) == High
            <==> GatewayResolved(gw) && |RowsWithIp(table, gw.ip)| >= 2
    ensures ThreatLevelOf(Detect(table, gw)) == NoThreat
            <==> !(GatewayResolved(gw) && |RowsWithIp(table, gw.ip)| >= 2)
                 && forall mac :: !IsSpecial(mac) ==> |IpsOf(table, mac)| <= 1
  {
    var fs := Detect(table, gw);
    GatewayAlarmIff(table, gw);
    MultipleIpsIff(table, gw);
    if exists mac :: !IsSpecial(mac) && |IpsOf(table, mac)| >= 2 {
      var mac :| !IsSpecial(mac) && |IpsOf(table, mac)| >= 2;
      assert Level(MultipleIps(mac, IpsOf(table, mac))) == Medium;
    }
    if exists f :: f in fs && Level(f) == Medium {
      var f :| f in fs && Level(f) == Medium;
      assert f.MultipleIps?;
      assert |IpsOf(table, f.mac)| >= 2;
    }
  }

  /** Changing the interval while the periodic loop runs starts a second loop
      without ending the first, when the old loop does not poll during the
      two-second join: once the restart is done, the old thread's wait does
      not end, and its next test of the loop condition goes on. */
  method IntervalChangeKeepsOldLoop() returns (loops: nat, oldLoopLeavesWait: bool, oldLoopContinues: bool)
    ensures loops == 2 && !oldLoopLeavesWait && oldLoopContinues
  {
    var scanner := new ArpScanner(false, map[]);
    var _ := scanner.StartPeriodicScan(None);
    var _ := scanner.StartPeriodicScan(Some(12));
    loops := scanner.periodicLoops;
    oldLoopLeavesWait := scanner.WaitPoll();
    oldLoopContinues := scanner.PeriodicLoopCheck();
  }

  /** `stop` does not cancel a scan thread already started: its result is
      still recorded, and a second scan can be started meanwhile, so two scan
      threads run at once. */
  method StopKeepsStartedScan() returns (pendingAfterRestart: nat, recorded: nat)
    ensures pendingAfterRestart == 2 && recorded == 1
  {
    var scanner := new ArpScanner(false, map[]);
    var _ := scanner.StartScan();
    scanner.Stop();
    var _ := scanner.StartScan();
    pendingAfterRestart := scanner.pendingScans;
    var _ := scanner.ScanStep(Posix, None, LinuxProbe(None, None), LinuxProbe(None, None), 0, 1);
    recorded := |scanner.scanHistory|;
  }

  /** A second `start_scan` while one is marked running is refused. */
  method SecondStartRefused() returns (first: bool, second: bool)
    ensures first && !second
  {
    var scanner := new ArpScanner(false, map[]);
    first := scanner.StartScan();
    second := scanner.StartScan();
  }
}
