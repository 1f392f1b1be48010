/** The server's clinical rules: which readings are physiologically
    plausible, which conditions a reading raises and in which order, and the
    registry of active alerts with its confirm, ignore and time-out sweep. */
module Alerts {
  import opened Wrappers
  import opened Text
  import opened Numbers
  import opened VitalSigns

  /* ---------------------------------------------------------------------- */
  /* validateVitalSigns                                                      */
  /* ---------------------------------------------------------------------- */

  predicate Measured(f: Field)
  {
    f != IdField && f != NameField
  }

  /** The open range each measured field must lie in, as a table. */
  function Limits(f: Field): (lohi: (int, int))
    requires Measured(f)
    ensures 0 < lohi.0 && lohi.0 + 1 < lohi.1
  {
    match f
    case HeartRateField => (30, 200)
    case RespiratoryRateField => (5, 50)
    case TemperatureField => (320, 420)
    case SystolicField => (50, 250)
    case DiastolicField => (30, 150)
  }

  /** On whole numbers (and on tenths) the open range is the closed one
      shrunk by one at each end. */
  function Inside(r: Reading, f: Field): (ok: bool)
    requires Measured(f)
    ensures ok <==> Limits(f).0 + 1 <= Get(r, f).number <= Limits(f).1 - 1
  {
    Limits(f).0 < Get(r, f).number < Limits(f).1
  }

  /** `validateVitalSigns`: every measured field strictly inside its range
      (temperature in tenths: 32 °C is 320). */
  function Valid(r: Reading): (ok: bool)
    ensures ok ==> forall f :: Measured(f) ==> Inside(r, f)
  {
    && r.heartRate > 30 && r.heartRate < 200
    && r.respiratoryRate > 5 && r.respiratoryRate < 50
    && r.temperature > 320 && r.temperature < 420
    && r.systolic > 50 && r.systolic < 250
    && r.diastolic > 30 && r.diastolic < 150
  }

  /** The validator accepts exactly the readings whose every measured field
      lies strictly inside the table's range for it. */
  lemma ValidIffInsideLimits(r: Reading)
    ensures Valid(r) <==> forall f :: Measured(f) ==> Inside(r, f)
  {
    if forall f :: Measured(f) ==> Inside(r, f) {
      assert Inside(r, HeartRateField) && Inside(r, RespiratoryRateField);
      assert Inside(r, TemperatureField);
      assert Inside(r, SystolicField) && Inside(r, DiastolicField);
    }
  }

  /** A value on either end of its range is rejected, whatever the other
      fields hold. */
  lemma BoundRejected(r: Reading, f: Field)
    requires Measured(f)
    requires Get(r, f).number == Limits(f).0 || Get(r, f).number == Limits(f).1
    ensures !Valid(r)
  {
    ValidIffInsideLimits(r);
  }

  /* ---------------------------------------------------------------------- */
  /* checkForAlerts                                                          */
  /* ---------------------------------------------------------------------- */

  /** One alert condition with the value that raised it (temperature in
      tenths). */
  datatype Condition =
    | HighSbp(systolic: int)
    | HighDbp(diastolic: int)
    | LowHr(rate: int)
    | HighHr(rate: int)
    | LowTemp(tenths: int)
    | HighTemp(tenths: int)

  /** The position of a condition in `checkForAlerts`' fixed order. */
  function Rank(c: Condition): nat
  {
    match c
    case HighSbp(_) => 0
    case HighDbp(_) => 1
    case LowHr(_) => 2
    case HighHr(_) => 3
    case LowTemp(_) => 4
    case HighTemp(_) => 5
  }

  /** The field a condition is about. */
  function Subject(c: Condition): Field
  {
    match c
    case HighSbp(_) => SystolicField
    case HighDbp(_) => DiastolicField
    case LowHr(_) => HeartRateField
    case HighHr(_) => HeartRateField
    case LowTemp(_) => TemperatureField
    case HighTemp(_) => TemperatureField
  }

  /** The value a condition carries. */
  function Reported(c: Condition): int
  {
    match c
    case HighSbp(v) => v
    case HighDbp(v) => v
    case LowHr(v) => v
    case HighHr(v) => v
    case LowTemp(v) => v
    case HighTemp(v) => v
  }

  /** The condition of each rank that `r` raises, if it does; `Raised(r, 0)`
      is the systolic test and so on, the temperature limits being 35.5 °C
      and 37.5 °C. A raised condition has the rank asked for and carries the
      reading's own value of the field it is about. */
  function Raised(r: Reading, rank: nat): (c: Option<Condition>)
    ensures rank > 5 ==> c.None?
    ensures c.Some? ==> Rank(c.value) == rank
    ensures c.Some? ==> Reported(c.value) == Get(r, Subject(c.value)).number
  {
    if rank == 0 then (if r.systolic > 140 then Some(HighSbp(r.systolic)) else None)
    else if rank == 1 then (if r.diastolic > 90 then Some(HighDbp(r.diastolic)) else None)
    else if rank == 2 then (if r.heartRate < 60 then Some(LowHr(r.heartRate)) else None)
    else if rank == 3 then (if r.heartRate > 100 then Some(HighHr(r.heartRate)) else None)
    else if rank == 4 then (if r.temperature < 355 then Some(LowTemp(r.temperature)) else None)
    else if rank == 5 then (if r.temperature > 375 then Some(HighTemp(r.temperature)) else None)
    else None
  }

  lemma RankOfRaised(r: Reading, k: nat)
    ensures Raised(r, k).Some? ==> Rank(Raised(r, k).value) == k
  {
  }

  function Listed(o: Option<Condition>): seq<Condition>
  {
    if o.Some? then [o.value] else []
  }

  /** The conditions of ranks below `n`, in rank order. */
  function RaisedBelow(r: Reading, n: nat): (cs: seq<Condition>)
    ensures forall i :: 0 <= i < |cs| ==> Rank(cs[i]) < n
    ensures forall i, j :: 0 <= i < j < |cs| ==> Rank(cs[i]) < Rank(cs[j])
    ensures forall i :: 0 <= i < |cs| ==> Raised(r, Rank(cs[i])) == Some(cs[i])
    ensures forall k :: 0 <= k < n && Raised(r, k).Some? ==> Raised(r, k).value in cs
  {
    if n == 0 then []
    else
      RankOfRaised(r, n - 1);
      RaisedBelow(r, n - 1) + Listed(Raised(r, n - 1))
  }

  /** `checkForAlerts`' list: the six tests in their fixed order, each
      condition added when its test holds, and nothing else. */
  function Conditions(r: Reading): (cs: seq<Condition>)
    ensures forall i, j :: 0 <= i < j < |cs| ==> Rank(cs[i]) < Rank(cs[j])
    ensures forall i :: 0 <= i < |cs| ==> Raised(r, Rank(cs[i])) == Some(cs[i])
    ensures forall k :: 0 <= k < 6 && Raised(r, k).Some? ==> Raised(r, k).value in cs
  {
    RaisedBelow(r, 6)
  }

  /** A condition is listed exactly when its strict comparison holds; the
      temperature limits are 35.5 °C and 37.5 °C. */
  lemma ConditionsIff(r: Reading)
    ensures HighSbp(r.systolic) in Conditions(r) <==> r.systolic > 140
    ensures HighDbp(r.diastolic) in Conditions(r) <==> r.diastolic > 90
    ensures LowHr(r.heartRate) in Conditions(r) <==> r.heartRate < 60
    ensures HighHr(r.heartRate) in Conditions(r) <==> r.heartRate > 100
    ensures LowTemp(r.temperature) in Conditions(r) <==> r.temperature < 355
    ensures HighTemp(r.temperature) in Conditions(r) <==> r.temperature > 375
  {
    PressureListed(r);
    RateListed(r);
    TemperatureListed(r);
  }

  lemma PressureListed(r: Reading)
    ensures HighSbp(r.systolic) in Conditions(r) <==> r.systolic > 140
    ensures HighDbp(r.diastolic) in Conditions(r) <==> r.diastolic > 90
  {
    ListedIffRaised(r, HighSbp(r.systolic));
    ListedIffRaised(r, HighDbp(r.diastolic));
  }

  lemma RateListed(r: Reading)
    ensures LowHr(r.heartRate) in Conditions(r) <==> r.heartRate < 60
    ensures HighHr(r.heartRate) in Conditions(r) <==> r.heartRate > 100
  {
    ListedIffRaised(r, LowHr(r.heartRate));
    ListedIffRaised(r, HighHr(r.heartRate));
  }

  lemma TemperatureListed(r: Reading)
    ensures LowTemp(r.temperature) in Conditions(r) <==> r.temperature < 355
    ensures HighTemp(r.temperature) in Conditions(r) <==> r.temperature > 375
  {
    ListedIffRaised(r, LowTemp(r.temperature));
    ListedIffRaised(r, HighTemp(r.temperature));
  }

  /** A condition is listed exactly when the test of its rank raises it. */
  lemma ListedIffRaised(r: Reading, c: Condition)
    ensures c in Conditions(r) <==> Raised(r, Rank(c)) == Some(c)
  {
    var cs := Conditions(r);
    if c in cs {
      var i :| 0 <= i < |cs| && cs[i] == c;
    }
    if Raised(r, Rank(c)) == Some(c) {
      assert Raised(r, Rank(c)).value in cs;
    }
  }

  /** A reading is never both too slow and too fast, nor both too cold and
      too hot. */
  lemma OppositesExclusive(r: Reading)
    ensures !(LowHr(r.heartRate) in Conditions(r) && HighHr(r.heartRate) in Conditions(r))
    ensures !(LowTemp(r.temperature) in Conditions(r) && HighTemp(r.temperature) in Conditions(r))
  {
    ConditionsIff(r);
  }

  /** The conditions raised by a reading are those of a reading with the
      same five values; the list is empty exactly when every value lies
      within its alert limits. */
  lemma NoConditionsIff(r: Reading)
    ensures Conditions(r) == [] <==>
              && r.systolic <= 140 && r.diastolic <= 90
              && 60 <= r.heartRate <= 100 && 355 <= r.temperature <= 375
  {
    var cs := Conditions(r);
    ConditionsIff(r);
    if cs != [] {
      assert Raised(r, Rank(cs[0])) == Some(cs[0]);
    }
  }

  /** The words a condition's text opens with, up to its '('. */
  function Label(c: Condition): string
  {
    match c
    case HighSbp(_) => "High SBP ("
    case HighDbp(_) => "High DBP ("
    case LowHr(_) => "Low HR ("
    case HighHr(_) => "High HR ("
    case LowTemp(_) => "Low Temp ("
    case HighTemp(_) => "High Temp ("
  }

  /** The measured value inside the parentheses, with its unit if any. */
  function Measure(c: Condition): string
  {
    match c
    case HighSbp(v) => IntText(v)
    case HighDbp(v) => IntText(v)
    case LowHr(v) => IntText(v) + HeartRateUnit
    case HighHr(v) => IntText(v) + HeartRateUnit
    case LowTemp(t) => TenthsText(t) + TemperatureUnit
    case HighTemp(t) => TenthsText(t) + TemperatureUnit
  }

  /** The text `checkForAlerts` adds for a condition; `Double.toString` of a
      temperature with one decimal writes the same digits as `TenthsText`. */
  function ConditionText(c: Condition): (t: string)
    ensures |t| > 0 && t[|t| - 1] == ')'
  {
    Label(c) + Measure(c) + ")"
  }

  /** `Integer.toString` never writes one text for two numbers. */
  lemma IntTextInjective(a: int, b: int)
    requires IntText(a) == IntText(b)
    ensures a == b
  {
    if a < 0 && b < 0 {
      assert IntText(a)[1..] == NatText(-a) && IntText(b)[1..] == NatText(-b);
    }
  }

  /** Equal texts around equal ends have equal middles. */
  lemma CutEnds(p: string, x: string, y: string, q: string)
    requires p + x + q == p + y + q
    ensures x == y
  {
    assert x == (p + x + q)[|p|..|p| + |x|];
    assert |x| == |y|;
    assert y == (p + y + q)[|p|..|p| + |y|];
  }

  lemma CutSuffix(x: string, y: string, q: string)
    requires x + q == y + q
    ensures x == y
  {
    assert x == (x + q)[..|x|];
    assert y == (y + q)[..|y|];
  }

  /** A number written with a unit identifies the number. */
  lemma IntMeasure(v: int, w: int, unit: string)
    requires IntText(v) + unit == IntText(w) + unit
    ensures v == w
  {
    CutSuffix(IntText(v), IntText(w), unit);
    IntTextInjective(v, w);
  }

  /** A temperature written with its unit identifies the temperature. */
  lemma TenthsMeasure(v: int, w: int)
    requires TenthsText(v) + TemperatureUnit == TenthsText(w) + TemperatureUnit
    ensures v == w
  {
    CutSuffix(TenthsText(v), TenthsText(w), TemperatureUnit);
    ParseTenthsText(v);
    ParseTenthsText(w);
  }

  /** Two labels that a text both starts with are the same label, and so
      belong to the same kind of condition: distinct labels already differ
      within their first six characters. */
  lemma SameLabel(c1: Condition, c2: Condition, t: string)
    requires StartsWith(t, Label(c1)) && StartsWith(t, Label(c2))
    ensures Rank(c1) == Rank(c2) && Label(c1) == Label(c2)
  {
    assert t[0] == Label(c1)[0] == Label(c2)[0];
    assert t[4] == Label(c1)[4] == Label(c2)[4];
    assert t[5] == Label(c1)[5] == Label(c2)[5];
  }

  /** Conditions of the same kind with the same measure text are equal. */
  lemma SameMeasure(c1: Condition, c2: Condition)
    requires Rank(c1) == Rank(c2) && Measure(c1) == Measure(c2)
    ensures c1 == c2
  {
    match c1
    case HighSbp(v) => IntTextInjective(v, c2.systolic);
    case HighDbp(v) => IntTextInjective(v, c2.diastolic);
    case LowHr(v) => IntMeasure(v, c2.rate, HeartRateUnit);
    case HighHr(v) => IntMeasure(v, c2.rate, HeartRateUnit);
    case LowTemp(v) => TenthsMeasure(v, c2.tenths);
    case HighTemp(v) => TenthsMeasure(v, c2.tenths);
  }

  /** The text of a condition identifies it, value included: the alert's
      summary never confuses two conditions. */
  lemma ConditionTextInjective(c1: Condition, c2: Condition)
    requires ConditionText(c1) == ConditionText(c2)
    ensures c1 == c2
  {
    var t := ConditionText(c1);
    OpensWith(Label(c1), Measure(c1), ")");
    OpensWith(Label(c2), Measure(c2), ")");
    SameLabel(c1, c2, t);
    CutEnds(Label(c1), Measure(c1), Measure(c2), ")");
    SameMeasure(c1, c2);
  }

  lemma OpensWith(p: string, x: string, q: string)
    ensures StartsWith(p + x + q, p)
  {
    assert (p + x + q)[..|p|] == p;
  }

  /** The text of each condition, in order. */
  function Texts(cs: seq<Condition>): (ts: seq<string>)
    ensures |ts| == |cs|
    ensures forall i :: 0 <= i < |cs| ==> ts[i] == ConditionText(cs[i])
  {
    if cs == [] then [] else [ConditionText(cs[0])] + Texts(cs[1..])
  }

  /** `String.join(", ", conditions)` over the conditions' texts. */
  function Summary(cs: seq<Condition>): (text: string)
    ensures cs == [] <==> text == ""
    ensures cs != [] ==> StartsWith(text, ConditionText(cs[0]))
  {
    var ts := Texts(cs);
    Join(ts, ", ")
  }

  /** With two or more conditions the first one's text is followed by ", "
      and the summary of the rest. */
  lemma SummaryCons(cs: seq<Condition>)
    requires |cs| >= 2
    ensures Summary(cs) == ConditionText(cs[0]) + ", " + Summary(cs[1..])
  {
    var ts := Texts(cs);
    assert ts[1..] == Texts(cs[1..]);
    JoinCons(ts, ", ");
  }

  /* ---------------------------------------------------------------------- */
  /* The alert registry                                                      */
  /* ---------------------------------------------------------------------- */

  /** `AlertData`. */
  datatype Alert = Alert(
    patientId: Option<string>,
    patientName: Option<string>,
    condition: string,
    confirmed: bool,
    timestamp: int)

  /** `activeAlerts`, keyed by alert id. */
  type Registry = map<string, Alert>

  /** `ALERT_TIMEOUT_MS`: five minutes. */
  const AlertTimeoutMs: int := 300_000

  /** The alert `triggerAlert` builds for a reading and its conditions. */
  function Raise(r: Reading, cs: seq<Condition>, time: int): (a: Alert)
    ensures !a.confirmed && a.timestamp == time
    ensures a.patientId == r.clientId && a.patientName == r.clientName
    ensures a.condition == Summary(cs)
  {
    Alert(r.clientId, r.clientName, Summary(cs), false, time)
  }

  /** `handleAlertConfirmation`: an existing alert is marked confirmed and
      stays in the registry; an unknown id changes nothing. */
  function Confirm(reg: Registry, id: string): (out: Registry)
    ensures out.Keys == reg.Keys
    ensures id in reg ==> out[id] == reg[id].(confirmed := true)
    ensures forall k :: k in reg && k != id ==> out[k] == reg[k]
  {
    if id in reg then reg[id := reg[id].(confirmed := true)] else reg
  }

  /** `handleAlertIgnoring`: the id is removed; every other entry is kept. */
  function Ignore(reg: Registry, id: string): (out: Registry)
    ensures out.Keys == reg.Keys - {id}
    ensures forall k :: k in out ==> out[k] == reg[k]
  {
    reg - {id}
  }

  /** The condition `cleanOldAlerts` removes an entry on: a confirmed alert
      at once, an unconfirmed one once more than the timeout has passed since
      it was raised. */
  function Expired(a: Alert, now: int): (gone: bool)
    ensures a.confirmed ==> gone
    ensures !a.confirmed ==> (gone <==> a.timestamp + AlertTimeoutMs < now)
  {
    a.confirmed || now - a.timestamp > AlertTimeoutMs
  }

  /** `cleanOldAlerts` at time `now`. */
  function Sweep(reg: Registry, now: int): (out: Registry)
    ensures forall k :: k in out <==> k in reg && !Expired(reg[k], now)
    ensures forall k :: k in out ==> out[k] == reg[k]
  {
    map k | k in reg && !Expired(reg[k], now) :: reg[k]
  }

  /** Confirming twice is confirming once. */
  lemma ConfirmIdempotent(reg: Registry, id: string)
    ensures Confirm(Confirm(reg, id), id) == Confirm(reg, id)
  {
  }

  /** Ignoring an unknown id leaves the registry as it was. */
  lemma IgnoreUnknown(reg: Registry, id: string)
    requires id !in reg
    ensures Ignore(reg, id) == reg
  {
  }

  /** A second sweep at the same time removes nothing more. */
  lemma SweepIdempotent(reg: Registry, now: int)
    ensures Sweep(Sweep(reg, now), now) == Sweep(reg, now)
  {
  }

  /** The time-out is strict: an unconfirmed alert exactly five minutes old
      survives, one a millisecond older does not, and a confirmed alert never
      survives. */
  lemma SweepBoundary(reg: Registry, id: string, now: int)
    requires id in reg
    ensures !reg[id].confirmed && now - reg[id].timestamp == AlertTimeoutMs ==> id in Sweep(reg, now)
    ensures now - reg[id].timestamp == AlertTimeoutMs + 1 ==> id !in Sweep(reg, now)
    ensures reg[id].confirmed ==> id !in Sweep(reg, now)
  {
  }

  /** A sweep after a confirm removes the confirmed alert: the two commands
      together act as an ignore followed by a sweep. */
  lemma ConfirmThenSweep(reg: Registry, id: string, now: int)
    ensures Sweep(Confirm(reg, id), now) == Sweep(Ignore(reg, id), now)
  {
  }
}
