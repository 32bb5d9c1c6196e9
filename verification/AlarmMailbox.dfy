/**
  The latest-value mailbox between sensor producers and alarm evaluation: producers merge
  their readings into one snapshot, and an evaluation pass consumes the snapshot at most once.
*/
module AlarmMailbox {
  import opened Words
  import opened Options

  /** A C float. */
  datatype Float = NaN | Infinite(negative: bool) | Finite(value: real)

  /** What a producer submits; fields it has no value for are NaN. */
  datatype Input = Input(
    co2: Float,
    temperature: Float,
    humidity: Float,
    wifiVariance: Float,
    wifiCsiMotion: Float,
    imuTamper: Float)

  /** The merged view that an evaluation receives. */
  datatype Snapshot = Snapshot(
    co2: uint16,
    temp: Float,
    humid: Float,
    timestampMs: uint32,
    wifiVariance: Float,
    wifiCsiMotion: Float,
    imuTamper: Float)

  const INITIAL := Snapshot(0, NaN, NaN, 0, NaN, NaN, NaN)

  /** Clamped to 0..65535 and truncated to a whole number. */
  function ToPpm(x: Float): uint16
    requires x != NaN
  {
    match x
    case Infinite(negative) => if negative then 0 else 0xFFFF
    case Finite(v) => if v <= 0.0 then 0 else if v >= 65535.0 then 0xFFFF else v.Floor
  }

  /** A value is truncated towards zero, those outside 16 bits become the nearest one inside. */
  lemma PpmIs(x: Float)
    requires x != NaN
    ensures x.Infinite? ==> ToPpm(x) == if x.negative then 0 else 65535
    ensures x.Finite? && x.value < 0.0 ==> ToPpm(x) == 0
    ensures x.Finite? && 0.0 <= x.value <= 65535.0 ==> ToPpm(x) as real <= x.value < ToPpm(x) as real + 1.0
    ensures x.Finite? && x.value > 65535.0 ==> ToPpm(x) == 65535
  {
  }

  predicate IsEffective(input: Input) {
    || input.co2 != NaN || input.temperature != NaN || input.humidity != NaN
    || input.wifiVariance != NaN || input.wifiCsiMotion != NaN || input.imuTamper != NaN
  }

  // ---- The history of a mailbox ----

  datatype Event = Submit(input: Input, nowMs: uint32) | Process

  /** The last value of a field that was not NaN, or the initial one. */
  ghost function Last(history: seq<Event>, field: Input -> Float): Float {
    if |history| == 0 then NaN
    else
      var event := history[|history| - 1];
      if event.Submit? && field(event.input) != NaN then field(event.input)
      else Last(history[..|history| - 1], field)
  }

  /** When the last effective submission was made. */
  ghost function LastTime(history: seq<Event>): uint32 {
    if |history| == 0 then 0
    else
      var event := history[|history| - 1];
      if event.Submit? && IsEffective(event.input) then event.nowMs else LastTime(history[..|history| - 1])
  }

  /** Field by field, the last values submitted. */
  ghost function Merged(history: seq<Event>): Snapshot {
    var co2 := Last(history, (i: Input) => i.co2);
    Snapshot(
      if co2 == NaN then 0 else ToPpm(co2),
      Last(history, (i: Input) => i.temperature),
      Last(history, (i: Input) => i.humidity),
      LastTime(history),
      Last(history, (i: Input) => i.wifiVariance),
      Last(history, (i: Input) => i.wifiCsiMotion),
      Last(history, (i: Input) => i.imuTamper))
  }

  /** An effective submission has been made since the last pass. */
  ghost predicate Unevaluated(history: seq<Event>) {
    exists k :: 0 <= k < |history| && history[k].Submit? && IsEffective(history[k].input)
        && forall j :: k < j < |history| ==> history[j] != Process
  }

  // ---- The mailbox as a value ----

  datatype Mailbox = Mailbox(last: Snapshot, pending: bool)

  function Submitted(m: Mailbox, input: Input, nowMs: uint32): Mailbox {
    if !IsEffective(input) then m
    else
      Mailbox(
        Snapshot(
          if input.co2 != NaN then ToPpm(input.co2) else m.last.co2,
          if input.temperature != NaN then input.temperature else m.last.temp,
          if input.humidity != NaN then input.humidity else m.last.humid,
          nowMs,
          if input.wifiVariance != NaN then input.wifiVariance else m.last.wifiVariance,
          if input.wifiCsiMotion != NaN then input.wifiCsiMotion else m.last.wifiCsiMotion,
          if input.imuTamper != NaN then input.imuTamper else m.last.imuTamper),
        true)
  }

  /** The mailbox after a history, and what each of its passes evaluated. */
  function Run(history: seq<Event>): (r: (Mailbox, seq<Option<Snapshot>>)) {
    if |history| == 0 then (Mailbox(INITIAL, false), [])
    else
      var (m, evaluated) := Run(history[..|history| - 1]);
      match history[|history| - 1]
      case Submit(input, nowMs) => (Submitted(m, input, nowMs), evaluated)
      case Process => (m.(pending := false), evaluated + [if m.pending then Some(m.last) else None])
  }

  lemma {:induction false} MailboxHoldsMerged(history: seq<Event>)
    ensures Run(history).0.last == Merged(history)
    ensures Run(history).0.pending <==> Unevaluated(history)
  {
    if |history| > 0 {
      var before := history[..|history| - 1];
      MailboxHoldsMerged(before);
      var last := history[|history| - 1];
      if last == Process {
        assert !Unevaluated(history);
      } else if IsEffective(last.input) {
        assert Unevaluated(history);
      } else if Unevaluated(before) {
        var k :| 0 <= k < |before| && before[k].Submit? && IsEffective(before[k].input)
          && forall j :: k < j < |before| ==> before[j] != Process;
        assert history[k] == before[k];
        forall j | k < j < |history| ensures history[j] != Process {
          if j < |before| {
            assert history[j] == before[j];
          }
        }
      }
    }
  }

  /** How many passes a history contains. */
  function Passes(history: seq<Event>): nat {
    if |history| == 0 then 0
    else Passes(history[..|history| - 1]) + if history[|history| - 1] == Process then 1 else 0
  }

  lemma {:induction false} EvaluatedPrefix(history: seq<Event>, n: nat)
    requires n <= |history|
    ensures |Run(history[..n]).1| == Passes(history[..n])
    ensures Passes(history[..n]) <= |Run(history).1|
    ensures Run(history).1[..Passes(history[..n])] == Run(history[..n]).1
    decreases |history|
  {
    if n < |history| {
      var before := history[..|history| - 1];
      EvaluatedPrefix(before, n);
      assert before[..n] == history[..n];
    } else {
      assert history[..n] == history;
      if n > 0 {
        EvaluatedPrefix(history[..n - 1], n - 1);
        assert history[..n - 1][..n - 1] == history[..n - 1];
      }
    }
  }

  /**
    The pass at position n of any interleaving evaluates, field by field, the last values
    submitted before it if an effective submission came since the previous pass, and
    nothing at all otherwise.
  */
  lemma EachPassEvaluatesLatest(history: seq<Event>, n: nat)
    requires n < |history| && history[n] == Process
    ensures var k := Passes(history[..n]);
            k < |Run(history).1|
            && Run(history).1[k] == if Unevaluated(history[..n]) then Some(Merged(history[..n])) else None
  {
    var k := Passes(history[..n]);
    assert history[..n + 1][..n] == history[..n];
    EvaluatedPrefix(history, n);
    EvaluatedPrefix(history, n + 1);
    MailboxHoldsMerged(history[..n]);
    assert Run(history[..n + 1]).1 == Run(history[..n]).1 + [Run(history[..n + 1]).1[k]];
    assert Run(history).1[k] == Run(history).1[..k + 1][k];
  }

  // ---- The service ----

  class AlarmService {
    var lastSnapshot: Snapshot
    var pendingEvaluation: bool

    ghost function View(): Mailbox
      reads this
    {
      Mailbox(lastSnapshot, pendingEvaluation)
    }

    constructor ()
      ensures View() == Run([]).0
    {
      lastSnapshot, pendingEvaluation := INITIAL, false;
    }

    method SubmitInput(input: Input, nowMs: uint32) returns (hasUpdates: bool)
      modifies this
      ensures hasUpdates == IsEffective(input)
      ensures View() == Submitted(old(View()), input, nowMs)
    {
      hasUpdates := false;
      if input.temperature != NaN {
        lastSnapshot := lastSnapshot.(temp := input.temperature);
        hasUpdates := true;
      }
      if input.humidity != NaN {
        lastSnapshot := lastSnapshot.(humid := input.humidity);
        hasUpdates := true;
      }
      if input.co2 != NaN {
        lastSnapshot := lastSnapshot.(co2 := ToPpm(input.co2));
        hasUpdates := true;
      }
      if input.wifiVariance != NaN {
        lastSnapshot := lastSnapshot.(wifiVariance := input.wifiVariance);
        hasUpdates := true;
      }
      if input.wifiCsiMotion != NaN {
        lastSnapshot := lastSnapshot.(wifiCsiMotion := input.wifiCsiMotion);
        hasUpdates := true;
      }
      if input.imuTamper != NaN {
        lastSnapshot := lastSnapshot.(imuTamper := input.imuTamper);
        hasUpdates := true;
      }
      if hasUpdates {
        lastSnapshot := lastSnapshot.(timestampMs := nowMs);
        pendingEvaluation := true;
      }
    }

    /** The snapshot handed to the alarm coordinator, if there is one. */
    method ProcessPending() returns (evaluated: Option<Snapshot>)
      modifies this
      ensures evaluated == if old(pendingEvaluation) then Some(old(lastSnapshot)) else None
      ensures View() == old(View()).(pending := false)
    {
      evaluated := None;
      if pendingEvaluation {
        evaluated := Some(lastSnapshot);
        pendingEvaluation := false;
      }
    }
  }
}
