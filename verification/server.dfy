/** The monitoring server as one immutable state and a pure transition per
    event: a message arriving from the topic, an operator command line, and
    the dashboard's periodic sweep. Threads are flattened into atomic steps:
    the drain a resume starts runs to completion inside the resume. */
module Server {
  import opened Wrappers
  import opened Text
  import opened VitalSigns
  import opened Alerts
  import opened Commands

  /** What one processed message takes from outside: the alert id that
      `UUID.randomUUID` would produce and the clock reading. */
  datatype Stamp = Stamp(alertId: string, now: int)

  /** `isPaused`, `isRunning`, `pendingMessages` (front first),
      `activeAlerts`, and the readings logged to the CSV history in order. */
  datatype State = State(
    paused: bool,
    running: bool,
    pending: seq<string>,
    alerts: Registry,
    history: seq<Reading>)

  const Start := State(false, true, [], map[], [])

  /** A reading that passes validation and raises at least one condition. */
  predicate Alarming(r: Reading)
  {
    Valid(r) && Conditions(r) != []
  }

  /* ---------------------------------------------------------------------- */
  /* processMessage                                                          */
  /* ---------------------------------------------------------------------- */

  /** `processMessage` on an already decoded reading: a valid one is logged
      and checked; an alarming one files an alert under the stamp's id and
      pauses the server. */
  function Process(s: State, r: Reading, stamp: Stamp): (t: State)
    ensures !Valid(r) ==> t == s
    ensures t.pending == s.pending && t.running == s.running
    ensures Valid(r) ==> t.history == s.history + [r]
    ensures t.paused <==> s.paused || Alarming(r)
    ensures !Alarming(r) ==> t.alerts == s.alerts
    ensures Alarming(r) ==> stamp.alertId in t.alerts && t.alerts[stamp.alertId] == Raise(r, Conditions(r), stamp.now)
  {
    if !Valid(r) then s
    else
      var logged := s.(history := s.history + [r]);
      var cs := Conditions(r);
      if cs == [] then logged
      else logged.(alerts := s.alerts[stamp.alertId := Raise(r, cs, stamp.now)], paused := true)
  }

  /** Processing a reading files at most the stamp's id and leaves every
      other alert as it was. */
  lemma ProcessKeepsOthers(s: State, r: Reading, stamp: Stamp)
    ensures var t := Process(s, r, stamp);
            && (forall id :: id in t.alerts <==> id in s.alerts || (Alarming(r) && id == stamp.alertId))
            && (forall id :: id in s.alerts && id != stamp.alertId ==> t.alerts[id] == s.alerts[id])
  {
  }

  lemma KeptAcrossProcess(s: State, r: Reading, stamp: Stamp, id: string, a: Alert)
    requires id in s.alerts && s.alerts[id] == a && id != stamp.alertId
    ensures id in Process(s, r, stamp).alerts && Process(s, r, stamp).alerts[id] == a
  {
    ProcessKeepsOthers(s, r, stamp);
  }

  /** With a fresh id an alarming reading adds exactly one alert, unconfirmed,
      describing its conditions, and leaves every earlier alert as it was. */
  lemma ProcessAddsOneAlert(s: State, r: Reading, stamp: Stamp)
    requires Alarming(r) && stamp.alertId !in s.alerts
    ensures var t := Process(s, r, stamp);
            && t.alerts.Keys == s.alerts.Keys + {stamp.alertId}
            && |t.alerts| == |s.alerts| + 1
            && (forall k :: k in s.alerts ==> t.alerts[k] == s.alerts[k])
            && !t.alerts[stamp.alertId].confirmed
            && t.alerts[stamp.alertId].condition == Summary(Conditions(r))
            && t.history == s.history + [r]
  {
    var t := Process(s, r, stamp);
    assert t.alerts.Keys == s.alerts.Keys + {stamp.alertId};
    assert |s.alerts.Keys + {stamp.alertId}| == |s.alerts.Keys| + 1;
  }

  /** The readings among `msgs` that pass validation, in order: what
      processing them appends to the history. */
  function Accepted(msgs: seq<string>): (rs: seq<Reading>)
    ensures |rs| <= |msgs|
    ensures forall i :: 0 <= i < |rs| ==> Valid(rs[i])
    decreases |msgs|
  {
    if msgs == [] then []
    else
      var r := FromMessage(msgs[|msgs| - 1]);
      Accepted(msgs[..|msgs| - 1]) + (if Valid(r) then [r] else [])
  }

  lemma {:induction false} AcceptedAppend(a: seq<string>, b: seq<string>)
    ensures Accepted(a + b) == Accepted(a) + Accepted(b)
    decreases |b|
  {
    if b == [] {
      assert a + b == a;
    } else {
      var k := |b| - 1;
      assert (a + b)[..|a + b| - 1] == a + b[..k];
      assert (a + b)[|a + b| - 1] == b[k];
      AcceptedAppend(a, b[..k]);
    }
  }

  /* ---------------------------------------------------------------------- */
  /* processMessages: the gate                                               */
  /* ---------------------------------------------------------------------- */

  /** One received message: buffered at the back of the queue while paused,
      processed at once otherwise. */
  function Deliver(s: State, msg: string, stamp: Stamp): (t: State)
    ensures s.paused ==> t == s.(pending := s.pending + [msg])
    ensures !s.paused ==> t == Process(s, FromMessage(msg), stamp)
    ensures t.pending == s.pending + (if s.paused then [msg] else [])
  {
    if s.paused then s.(pending := s.pending + [msg])
    else Process(s, FromMessage(msg), stamp)
  }

  /** `processPendingMessages`: `msgs` processed front to back, message `i`
      with `stamps(i)`, without ever looking at the pause flag. */
  function Drain(s: State, msgs: seq<string>, stamps: nat -> Stamp): (t: State)
    ensures t.pending == s.pending && t.running == s.running
    decreases |msgs|
  {
    if msgs == [] then s
    else
      var k := |msgs| - 1;
      Process(Drain(s, msgs[..k], stamps), FromMessage(msgs[k]), stamps(k))
  }

  /** The drain logs every valid message of the queue, in queue order. */
  lemma {:induction false} DrainLogsAll(s: State, msgs: seq<string>, stamps: nat -> Stamp)
    ensures Drain(s, msgs, stamps).history == s.history + Accepted(msgs)
    decreases |msgs|
  {
    if msgs != [] {
      var k := |msgs| - 1;
      var r := FromMessage(msgs[k]);
      var tail := if Valid(r) then [r] else [];
      DrainLogsAll(s, msgs[..k], stamps);
      LogsAppend(s.history, Accepted(msgs[..k]), tail);
    }
  }

  lemma LogsAppend(h: seq<Reading>, a: seq<Reading>, b: seq<Reading>)
    ensures (h + a) + b == h + (a + b)
  {
  }

  /** Some message of `msgs` decodes to an alarming reading. */
  predicate RaisesAlert(msgs: seq<string>)
  {
    exists i :: 0 <= i < |msgs| && Alarming(FromMessage(msgs[i]))
  }

  lemma RaisesAlertSnoc(p: seq<string>, m: string, msgs: seq<string>)
    requires msgs == p + [m]
    ensures RaisesAlert(msgs) <==> RaisesAlert(p) || Alarming(FromMessage(m))
  {
    assert forall i :: 0 <= i < |p| ==> msgs[i] == p[i];
    assert msgs[|p|] == m;
  }

  /** After the drain the server is paused exactly when it was paused before
      or one of the drained messages was alarming. */
  lemma {:induction false} DrainPausedIff(s: State, msgs: seq<string>, stamps: nat -> Stamp)
    ensures Drain(s, msgs, stamps).paused <==> s.paused || RaisesAlert(msgs)
    decreases |msgs|
  {
    if msgs != [] {
      var k := |msgs| - 1;
      DrainPausedIff(s, msgs[..k], stamps);
      RaisesAlertSnoc(msgs[..k], msgs[k], msgs);
    }
  }

  /** The pause flag does not steer the drain: starting it paused changes
      nothing but the flag, so an alarming message halfway through the queue
      does not hold back the messages behind it. */
  lemma {:induction false} DrainIgnoresPause(s: State, msgs: seq<string>, stamps: nat -> Stamp)
    ensures Drain(s.(paused := true), msgs, stamps) == Drain(s, msgs, stamps).(paused := true)
    decreases |msgs|
  {
    if msgs != [] {
      var k := |msgs| - 1;
      DrainIgnoresPause(s, msgs[..k], stamps);
    }
  }

  /** An alert whose id no drained message's stamp reuses comes through the
      drain unchanged. */
  lemma {:induction false} DrainKeepsAlerts(s: State, msgs: seq<string>, stamps: nat -> Stamp, id: string)
    requires id in s.alerts
    requires forall i :: 0 <= i < |msgs| ==> stamps(i).alertId != id
    ensures id in Drain(s, msgs, stamps).alerts && Drain(s, msgs, stamps).alerts[id] == s.alerts[id]
    decreases |msgs|
  {
    if msgs != [] {
      var k := |msgs| - 1;
      DrainKeepsAlerts(s, msgs[..k], stamps, id);
      ProcessKeepsOthers(Drain(s, msgs[..k], stamps), FromMessage(msgs[k]), stamps(k));
    }
  }

  /** The alert a message files when it is processed with `stamp`. */
  function Filed(msg: string, stamp: Stamp): Alert
  {
    var r := FromMessage(msg);
    Raise(r, Conditions(r), stamp.now)
  }

  /** Some alarming message of `msgs` is stamped with `id`. */
  predicate FiledUnder(msgs: seq<string>, stamps: nat -> Stamp, id: string)
  {
    exists i :: 0 <= i < |msgs| && Alarming(FromMessage(msgs[i])) && stamps(i).alertId == id
  }

  lemma FiledUnderSnoc(p: seq<string>, m: string, msgs: seq<string>, stamps: nat -> Stamp, id: string)
    requires msgs == p + [m]
    ensures FiledUnder(msgs, stamps, id) <==>
              FiledUnder(p, stamps, id) || (Alarming(FromMessage(m)) && stamps(|p|).alertId == id)
  {
    assert forall i :: 0 <= i < |p| ==> msgs[i] == p[i];
    assert msgs[|p|] == m;
  }

  /** The drain adds exactly the ids stamped on alarming messages to the
      registry, and removes none. */
  lemma {:induction false} DrainAlertKeys(s: State, msgs: seq<string>, stamps: nat -> Stamp)
    ensures forall id :: id in Drain(s, msgs, stamps).alerts <==> id in s.alerts || FiledUnder(msgs, stamps, id)
    decreases |msgs|
  {
    if msgs != [] {
      var k := |msgs| - 1;
      DrainAlertKeys(s, msgs[..k], stamps);
      ProcessKeepsOthers(Drain(s, msgs[..k], stamps), FromMessage(msgs[k]), stamps(k));
      forall id ensures FiledUnder(msgs, stamps, id) <==>
                          FiledUnder(msgs[..k], stamps, id) || (Alarming(FromMessage(msgs[k])) && stamps(k).alertId == id) {
        FiledUnderSnoc(msgs[..k], msgs[k], msgs, stamps, id);
      }
    }
  }

  /** With distinct ids, each alarming drained message leaves the alert
      `triggerAlert` builds for it under its own id. */
  lemma {:induction false} DrainFiles(s: State, msgs: seq<string>, stamps: nat -> Stamp)
    requires forall i, j :: 0 <= i < j < |msgs| ==> stamps(i).alertId != stamps(j).alertId
    ensures var t := Drain(s, msgs, stamps);
            forall i :: 0 <= i < |msgs| && Alarming(FromMessage(msgs[i])) ==>
              && stamps(i).alertId in t.alerts
              && t.alerts[stamps(i).alertId] == Filed(msgs[i], stamps(i))
    decreases |msgs|
  {
    if msgs != [] {
      var k := |msgs| - 1;
      var p := msgs[..k];
      var before := Drain(s, p, stamps);
      var t := Drain(s, msgs, stamps);
      DrainFiles(s, p, stamps);
      assert t == Process(before, FromMessage(msgs[k]), stamps(k));
      forall i | 0 <= i < |msgs| && Alarming(FromMessage(msgs[i]))
        ensures stamps(i).alertId in t.alerts && t.alerts[stamps(i).alertId] == Filed(msgs[i], stamps(i))
      {
        if i < k {
          assert p[i] == msgs[i];
          KeptAcrossProcess(before, FromMessage(msgs[k]), stamps(k), stamps(i).alertId, Filed(msgs[i], stamps(i)));
        }
      }
    }
  }

  /** Nor does the running flag: the drain keeps it as it finds it. */
  lemma {:induction false} DrainIgnoresRunning(s: State, msgs: seq<string>, stamps: nat -> Stamp, running: bool)
    ensures Drain(s.(running := running), msgs, stamps) == Drain(s, msgs, stamps).(running := running)
    decreases |msgs|
  {
    if msgs != [] {
      var k := |msgs| - 1;
      DrainIgnoresRunning(s, msgs[..k], stamps, running);
    }
  }

  /** `resumeSystem`: the flag is cleared, the whole queue drained in order,
      then old alerts are swept at `now`. */
  function Resume(s: State, stamps: nat -> Stamp, now: int): (t: State)
    ensures t.pending == [] && t.running == s.running
    ensures forall k :: k in t.alerts ==> !Expired(t.alerts[k], now)
  {
    var d := Drain(s.(paused := false, pending := []), s.pending, stamps);
    d.(alerts := Sweep(d.alerts, now))
  }

  /** A resume logs every valid queued message in arrival order and ends
      paused only when one of them raised a new alert. */
  lemma ResumeDrainsQueue(s: State, stamps: nat -> Stamp, now: int)
    ensures Resume(s, stamps, now).history == s.history + Accepted(s.pending)
    ensures Resume(s, stamps, now).paused <==> RaisesAlert(s.pending)
  {
    var s0 := s.(paused := false, pending := []);
    DrainLogsAll(s0, s.pending, stamps);
    DrainPausedIff(s0, s.pending, stamps);
  }

  /** An alert that has not expired, and whose id no drained message reuses,
      is still in the registry after a resume, unchanged. */
  lemma ResumeKeepsLive(s: State, stamps: nat -> Stamp, now: int, id: string)
    requires id in s.alerts && !Expired(s.alerts[id], now)
    requires forall i :: 0 <= i < |s.pending| ==> stamps(i).alertId != id
    ensures id in Resume(s, stamps, now).alerts && Resume(s, stamps, now).alerts[id] == s.alerts[id]
  {
    DrainKeepsAlerts(s.(paused := false, pending := []), s.pending, stamps, id);
  }

  /** With distinct ids, each alarming queued message whose alert is still
      within the time-out at `now` leaves that alert in the registry after
      the resume. */
  lemma ResumeFiles(s: State, stamps: nat -> Stamp, now: int)
    requires forall i, j :: 0 <= i < j < |s.pending| ==> stamps(i).alertId != stamps(j).alertId
    ensures var t := Resume(s, stamps, now);
            forall i :: 0 <= i < |s.pending| && Alarming(FromMessage(s.pending[i])) && now - stamps(i).now <= AlertTimeoutMs ==>
              && stamps(i).alertId in t.alerts
              && t.alerts[stamps(i).alertId] == Filed(s.pending[i], stamps(i))
  {
    DrainFiles(s.(paused := false, pending := []), s.pending, stamps);
  }

  /** A resume adds no alert of its own: every id in the registry afterwards
      was there before or was stamped on an alarming queued message. */
  lemma ResumeAddsOnlyFiled(s: State, stamps: nat -> Stamp, now: int)
    ensures forall id :: id in Resume(s, stamps, now).alerts ==> id in s.alerts || FiledUnder(s.pending, stamps, id)
  {
    DrainAlertKeys(s.(paused := false, pending := []), s.pending, stamps);
  }

  /** A resume with nothing queued only clears the flag and sweeps. */
  lemma ResumeEmptyQueue(s: State, stamps: nat -> Stamp, now: int)
    requires s.pending == []
    ensures Resume(s, stamps, now) == s.(paused := false, alerts := Sweep(s.alerts, now))
  {
  }

  /* ---------------------------------------------------------------------- */
  /* processCommand                                                          */
  /* ---------------------------------------------------------------------- */

  /** One console line, trimmed as the listener does, then `processCommand`.
      `stamps` serves the messages a resume drains. */
  function Execute(s: State, line: string, stamps: nat -> Stamp, now: int): (t: State)
    ensures ParseCommand(Trim(line)).ConfirmAlert? || ParseCommand(Trim(line)).IgnoreAlert? ==>
              t == s.(alerts := t.alerts)
    ensures ParseCommand(Trim(line)) == Exit ==> t == Resume(s, stamps, now).(running := false)
    ensures ParseCommand(Trim(line)) == ResumeSystem ==> t == Resume(s, stamps, now)
    ensures forall id :: ParseCommand(Trim(line)) == ConfirmAlert(id) ==> t.alerts == Confirm(s.alerts, id)
    ensures forall id :: ParseCommand(Trim(line)) == IgnoreAlert(id) ==> t.alerts == Ignore(s.alerts, id)
  {
    match ParseCommand(Trim(line))
    case ConfirmAlert(id) => s.(alerts := Confirm(s.alerts, id))
    case IgnoreAlert(id) => s.(alerts := Ignore(s.alerts, id))
    case ResumeSystem => Resume(s, stamps, now)
    case Exit =>
      DrainIgnoresRunning(s.(paused := false, pending := []), s.pending, stamps, false);
      Resume(s.(running := false), stamps, now)
    case Invalid => s
  }

  /** A line that is not a command, or that names an alert the registry does
      not hold, leaves the whole state as it was. */
  lemma NoOpCommands(s: State, line: string, stamps: nat -> Stamp, now: int)
    requires || ParseCommand(Trim(line)) == Invalid
             || (ParseCommand(Trim(line)).ConfirmAlert? && ParseCommand(Trim(line)).id !in s.alerts)
             || (ParseCommand(Trim(line)).IgnoreAlert? && ParseCommand(Trim(line)).id !in s.alerts)
    ensures Execute(s, line, stamps, now) == s
  {
  }

  /** Confirming an alert that exists marks it and nothing else; ignoring one
      drops it and nothing else. */
  lemma AlertCommands(s: State, line: string, stamps: nat -> Stamp, now: int)
    requires ParseCommand(Trim(line)).ConfirmAlert? || ParseCommand(Trim(line)).IgnoreAlert?
    requires ParseCommand(Trim(line)).id in s.alerts
    ensures var id := ParseCommand(Trim(line)).id;
            var t := Execute(s, line, stamps, now);
            && (ParseCommand(Trim(line)).ConfirmAlert? ==>
                  id in t.alerts && t.alerts[id] == s.alerts[id].(confirmed := true))
            && (ParseCommand(Trim(line)).IgnoreAlert? ==> t.alerts.Keys == s.alerts.Keys - {id})
            && (forall k :: k in s.alerts && k != id ==> k in t.alerts && t.alerts[k] == s.alerts[k])
  {
  }

  /* ---------------------------------------------------------------------- */
  /* The event loop                                                          */
  /* ---------------------------------------------------------------------- */

  /** What the server reacts to: a message from the topic, a console line,
      or the dashboard's sweep every thirty seconds. */
  datatype Event =
    | Receive(msg: string, stamp: Stamp)
    | Command(line: string, stamps: nat -> Stamp, now: int)
    | Dashboard(now: int)

  /** One event. A stopped server takes no further message or command: the
      model ends both loops at the moment `running` turns false, although the
      receive loop only tests it before each wait and receive. The
      dashboard's executor is never shut down, so its sweep goes on after
      exit. */
  function Step(s: State, e: Event): (t: State)
    ensures !s.running ==> !t.running && t.pending == s.pending && t.history == s.history
    ensures !s.running || e.Dashboard? ==> t.alerts.Keys <= s.alerts.Keys
    ensures e.Dashboard? ==> t.running == s.running && t.paused == s.paused
    ensures e.Dashboard? ==> t == s.(alerts := Sweep(s.alerts, e.now))
  {
    match e
    case Dashboard(now) => s.(alerts := Sweep(s.alerts, now))
    case _ =>
      if !s.running then s
      else match e
        case Receive(msg, stamp) => Deliver(s, msg, stamp)
        case Command(line, stamps, now) => Execute(s, line, stamps, now)
  }

  /** A trace of events, oldest first. Once stopped, the server stays
      stopped and its waiting messages and history stay as they were. */
  function Run(s: State, events: seq<Event>): (r: State)
    ensures events == [] ==> r == s
    ensures !s.running ==> !r.running && r.pending == s.pending && r.history == s.history
    decreases |events|
  {
    if events == [] then s else Step(Run(s, events[..|events| - 1]), events[|events| - 1])
  }

  /** The gate's invariant: messages wait only while the server is paused. */
  predicate Gate(s: State)
  {
    s.pending != [] ==> s.paused
  }

  lemma StepKeepsGate(s: State, e: Event)
    requires Gate(s)
    ensures Gate(Step(s, e))
  {
  }

  lemma {:induction false} RunKeepsGate(s: State, events: seq<Event>)
    requires Gate(s)
    ensures Gate(Run(s, events))
    decreases |events|
  {
    if events != [] {
      RunKeepsGate(s, events[..|events| - 1]);
      StepKeepsGate(Run(s, events[..|events| - 1]), events[|events| - 1]);
    }
  }

  /** Everything the server has accepted or still holds: the history
      followed by the valid readings waiting in the queue. */
  function Logged(s: State): seq<Reading>
  {
    s.history + Accepted(s.pending)
  }

  /** The message an event hands to the server, if any. */
  function Arrived(s: State, e: Event): seq<string>
  {
    if s.running && e.Receive? then [e.msg] else []
  }

  /** Every message received over a run, in arrival order. */
  function Arrivals(s: State, events: seq<Event>): seq<string>
    decreases |events|
  {
    if events == [] then []
    else
      var k := |events| - 1;
      Arrivals(s, events[..k]) + Arrived(Run(s, events[..k]), events[k])
  }

  lemma ReceiveConserves(s: State, msg: string, stamp: Stamp)
    requires Gate(s)
    ensures Logged(Deliver(s, msg, stamp)) == Logged(s) + Accepted([msg])
  {
    AcceptedAppend(s.pending, [msg]);
    assert Accepted([msg]) == Accepted([]) + Accepted([msg]);
  }

  lemma CommandConserves(s: State, line: string, stamps: nat -> Stamp, now: int)
    ensures Logged(Execute(s, line, stamps, now)) == Logged(s)
  {
    var c := ParseCommand(Trim(line));
    if c == ResumeSystem {
      ResumeDrainsQueue(s, stamps, now);
    } else if c == Exit {
      ResumeDrainsQueue(s.(running := false), stamps, now);
    }
  }

  /** No step loses, duplicates or reorders a valid reading: each one that
      arrives is appended to what was logged or queued before. */
  lemma StepConserves(s: State, e: Event)
    requires Gate(s)
    ensures Logged(Step(s, e)) == Logged(s) + Accepted(Arrived(s, e))
  {
    if s.running {
      match e
      case Receive(msg, stamp) => ReceiveConserves(s, msg, stamp);
      case Command(line, stamps, now) => CommandConserves(s, line, stamps, now);
      case Dashboard(now) =>
    }
  }

  /** Over any run from a state that keeps the gate, the readings logged or
      queued are the earlier ones followed by the valid received ones, in
      the order they arrived. */
  lemma {:induction false} RunConserves(s: State, events: seq<Event>)
    requires Gate(s)
    ensures Logged(Run(s, events)) == Logged(s) + Accepted(Arrivals(s, events))
    decreases |events|
  {
    if events != [] {
      var k := |events| - 1;
      var before := Run(s, events[..k]);
      RunConserves(s, events[..k]);
      RunKeepsGate(s, events[..k]);
      StepConserves(before, events[k]);
      AcceptedAppend(Arrivals(s, events[..k]), Arrived(before, events[k]));
    }
  }
}
