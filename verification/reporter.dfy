/**
  The main task's reporting loop. Each iteration waits up to 5 seconds
  for a settled sensor level from the channel, remembers it (or keeps the
  previous level on timeout), derives the sensor status by inverting the
  level, builds the URL and notifies the server with it. A URL that does
  not fit ends the run in a delayed device reset instead.
 */
module Reporter {
  import opened Numeric
  import opened UrlBuilder

  /** A digital input level. */
  datatype Level = Low | High

  /** The board support package's level-to-bool conversion. */
  function BoolOfLevel(level: Level): bool
  {
    level == High
  }

  /** The sensor status: true means closed, false means open. The input
      is pulled up, so the closed sensor pulls it Low. */
  function SensorStatus(level: Level): (closed: bool)
    ensures closed <==> level == Low
  {
    !BoolOfLevel(level)
  }

  /** The result of a channel receive bounded by the 5-second timeout.
      Only whether it timed out matters, so the duration is not modelled. */
  datatype Wait =
    | Received(level: Level)
    | TimedOut

  /** What an iteration ends with. */
  datatype Action =
    | Notify(url: seq<byte>)
    | ResetDevice(graceMs: nat)

  datatype StepResult = StepResult(level: Level, status: bool, action: Action)

  /** One iteration of the loop, from the remembered level and the result
      of the wait. */
  function ReporterStep(remembered: Level, wait: Wait, base: seq<byte>, id: u64): (r: StepResult)
    ensures wait.Received? ==> r.level == wait.level
    ensures wait.TimedOut? ==> r.level == remembered
    ensures r.status <==> r.level == Low
    ensures r.action.Notify? <==> |UrlText(base, id, r.status)| <= UrlCapacity
    ensures r.action.Notify? ==> r.action.url == UrlText(base, id, r.status)
    ensures r.action.ResetDevice? ==> r.action.graceMs == ResetGraceMs
  {
    var level := match wait
      case Received(l) => l
      case TimedOut => remembered;
    var status := SensorStatus(level);
    StepResult(level, status, ActionFor(base, id, status))
  }

  /** The action that follows building the URL for a status: notify with
      the complete URL when it fits, otherwise the delayed reset. */
  function ActionFor(base: seq<byte>, id: u64, status: bool): (a: Action)
    ensures a.Notify? <==> |UrlText(base, id, status)| <= UrlCapacity
    ensures a.Notify? ==> a.url == UrlText(base, id, status)
    ensures a.ResetDevice? ==> a.graceMs == ResetGraceMs
  {
    match BuildUrl(base, id, status)
    case Url(url) => Notify(url)
    case ResetAfter(ms) => ResetDevice(ms)
  }

  /** The actions of consecutive iterations, starting from the level read
      at start-up, one per wait result, until an iteration resets the
      device. The identifier is computed once and is the same in every
      iteration. */
  function ReporterRun(level: Level, waits: seq<Wait>, base: seq<byte>, id: u64): (trace: seq<Action>)
    decreases |waits|
    ensures |trace| <= |waits|
    ensures forall k :: 0 <= k < |trace| - 1 ==> trace[k].Notify?
    ensures |trace| < |waits| ==> |trace| > 0 && trace[|trace| - 1].ResetDevice?
  {
    if |waits| == 0 then []
    else
      var r := ReporterStep(level, waits[0], base, id);
      if r.action.ResetDevice? then [r.action]
      else [r.action] + ReporterRun(r.level, waits[1..], base, id)
  }

  /** Reference definition: the level last delivered by the channel among
      the given wait results, or the start-up level if none was. */
  function LastDelivered(initial: Level, waits: seq<Wait>): Level
  {
    if |waits| == 0 then initial
    else match waits[|waits| - 1]
      case Received(l) => l
      case TimedOut => LastDelivered(initial, waits[..|waits| - 1])
  }

  lemma {:induction false} LastDeliveredCons(initial: Level, w: Wait, ws: seq<Wait>)
    ensures LastDelivered(initial, [w] + ws) ==
      LastDelivered(if w.Received? then w.level else initial, ws)
  {
    if |ws| > 0 {
      assert ([w] + ws)[..|ws|] == [w] + ws[..|ws| - 1];
      LastDeliveredCons(initial, w, ws[..|ws| - 1]);
    }
  }

  /** The k-th action of a run reports the status of the level last
      delivered in the first k+1 waits: a timeout repeats the last known
      status (the heartbeat) rather than sampling the pin. */
  lemma {:induction false} RunReportsLastDelivered(level: Level, waits: seq<Wait>, base: seq<byte>, id: u64, k: nat)
    requires k < |ReporterRun(level, waits, base, id)|
    ensures ReporterRun(level, waits, base, id)[k] ==
      ActionFor(base, id, SensorStatus(LastDelivered(level, waits[..k + 1])))
    decreases |waits|
  {
    var r := ReporterStep(level, waits[0], base, id);
    if k == 0 {
      FirstAction(level, waits, base, id);
    } else {
      LaterAction(level, waits, base, id, k);
      RunReportsLastDelivered(r.level, waits[1..], base, id, k - 1);
      LastDeliveredShift(level, waits, k);
      assert r.level == if waits[0].Received? then waits[0].level else level;
    }
  }

  lemma FirstAction(level: Level, waits: seq<Wait>, base: seq<byte>, id: u64)
    requires |waits| > 0
    ensures ReporterRun(level, waits, base, id)[0] ==
      ActionFor(base, id, SensorStatus(LastDelivered(level, waits[..1])))
  {
    assert waits[..1] == [waits[0]] + [];
    LastDeliveredCons(level, waits[0], []);
  }

  lemma LaterAction(level: Level, waits: seq<Wait>, base: seq<byte>, id: u64, k: nat)
    requires 0 < k < |ReporterRun(level, waits, base, id)|
    ensures var r := ReporterStep(level, waits[0], base, id);
      && k - 1 < |ReporterRun(r.level, waits[1..], base, id)|
      && ReporterRun(level, waits, base, id)[k] == ReporterRun(r.level, waits[1..], base, id)[k - 1]
  {
  }

  lemma LastDeliveredShift(level: Level, waits: seq<Wait>, k: nat)
    requires 0 < k < |waits|
    ensures LastDelivered(level, waits[..k + 1]) ==
      LastDelivered(if waits[0].Received? then waits[0].level else level, waits[1..][..k])
  {
    assert waits[..k + 1] == [waits[0]] + waits[1..][..k];
    LastDeliveredCons(level, waits[0], waits[1..][..k]);
  }

  /** When the URL fits for an open sensor (the longer status word), the
      loop never resets: every wait result, timeout or not, yields exactly
      one notification. */
  lemma {:induction false} HeartbeatNeverStops(level: Level, waits: seq<Wait>, base: seq<byte>, id: u64)
    requires |UrlText(base, id, false)| <= UrlCapacity
    ensures |ReporterRun(level, waits, base, id)| == |waits|
    ensures forall k :: 0 <= k < |waits| ==> ReporterRun(level, waits, base, id)[k].Notify?
    decreases |waits|
  {
    OverflowDependsOnStatus(base, id);
    if |waits| > 0 {
      var r := ReporterStep(level, waits[0], base, id);
      HeartbeatNeverStops(r.level, waits[1..], base, id);
    }
  }
}
