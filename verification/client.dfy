/** The client's synthetic readings: `generateVitalSigns` as a function of
    the values its `Random` returns, and what the server makes of them. */
module Client {
  import opened Wrappers
  import opened VitalSigns
  import opened Alerts
  import opened Server

  /** `ABNORMALITY_PROBABILITY`. */
  const AbnormalityProbability: real := 0.15

  /** The values the generator's random calls return, in call order:
      `nextDouble` for the abnormality test, the `nextBoolean` and `nextInt`
      of the heart rate, those of the respiratory rate, then the two
      `nextInt`s of the blood pressure. A `nextBoolean` value is only looked
      at when the reading is abnormal. */
  datatype Draws = Draws(
    uniform: real,
    lowHeartRate: bool,
    heartRateDraw: int,
    lowRespiratoryRate: bool,
    respiratoryRateDraw: int,
    diastolicDraw: int,
    pulseDraw: int)

  predicate Abnormal(d: Draws)
  {
    d.uniform < AbnormalityProbability
  }

  /** The bound passed to the heart rate's `nextInt`, by branch. */
  function HeartRateBound(d: Draws): int
  {
    if Abnormal(d) && d.lowHeartRate then 20 else if Abnormal(d) then 40 else 41
  }

  /** The bound passed to the respiratory rate's `nextInt`, by branch. */
  function RespiratoryRateBound(d: Draws): int
  {
    if Abnormal(d) && d.lowRespiratoryRate then 4 else if Abnormal(d) then 10 else 9
  }

  /** What `Random` can return: `nextDouble` in [0, 1), `nextInt(n)` in
      [0, n). */
  predicate Possible(d: Draws)
  {
    && 0.0 <= d.uniform < 1.0
    && 0 <= d.heartRateDraw < HeartRateBound(d)
    && 0 <= d.respiratoryRateDraw < RespiratoryRateBound(d)
    && 0 <= d.diastolicDraw < 51
    && 0 <= d.pulseDraw < 41
  }

  /** `generateVitalSigns`, with the temperature (in tenths) and the clock
      given, since the temperature is drawn as a double. */
  function Generate(id: Option<string>, name: Option<string>, d: Draws, temperature: int, now: int): (r: Reading)
    requires Possible(d)
    ensures r.clientId == id && r.clientName == name && r.temperature == temperature && r.timestamp == now
    ensures Abnormal(d) <==> !(60 <= r.heartRate <= 100)
    ensures Abnormal(d) <==> !(12 <= r.respiratoryRate <= 20)
    ensures r.systolic > r.diastolic
  {
    var heartRate :=
      if Abnormal(d) && d.lowHeartRate then 40 + d.heartRateDraw
      else if Abnormal(d) then 101 + d.heartRateDraw
      else 60 + d.heartRateDraw;
    var respiratoryRate :=
      if Abnormal(d) && d.lowRespiratoryRate then 8 + d.respiratoryRateDraw
      else if Abnormal(d) then 21 + d.respiratoryRateDraw
      else 12 + d.respiratoryRateDraw;
    var diastolic := 50 + d.diastolicDraw;
    var systolic := diastolic + 30 + d.pulseDraw;
    Reading(id, name, heartRate, respiratoryRate, temperature, systolic, diastolic, now)
  }

  /** The ranges each branch produces: heart rate 40..59, 101..140 or
      60..100; respiratory rate 8..11, 21..30 or 12..20; diastolic 50..100;
      a pulse pressure of 30..70 and so a systolic of 80..170. The id, the
      name, the temperature and the time are copied unchanged. */
  lemma GeneratedRanges(id: Option<string>, name: Option<string>, d: Draws, temperature: int, now: int)
    requires Possible(d)
    ensures var r := Generate(id, name, d, temperature, now);
            && (Abnormal(d) && d.lowHeartRate ==> 40 <= r.heartRate <= 59)
            && (Abnormal(d) && !d.lowHeartRate ==> 101 <= r.heartRate <= 140)
            && (!Abnormal(d) ==> 60 <= r.heartRate <= 100)
            && (Abnormal(d) && d.lowRespiratoryRate ==> 8 <= r.respiratoryRate <= 11)
            && (Abnormal(d) && !d.lowRespiratoryRate ==> 21 <= r.respiratoryRate <= 30)
            && (!Abnormal(d) ==> 12 <= r.respiratoryRate <= 20)
            && 8 <= r.respiratoryRate <= 30
            && 50 <= r.diastolic <= 100
            && 30 <= r.systolic - r.diastolic <= 70
            && 80 <= r.systolic <= 170
            && r.clientId == id && r.clientName == name
            && r.temperature == temperature && r.timestamp == now
  {
  }

  /** Every generated integer field lies strictly inside the validator's
      range, so a reading is valid exactly when its temperature is. */
  lemma GeneratedValidIff(id: Option<string>, name: Option<string>, d: Draws, temperature: int, now: int)
    requires Possible(d)
    ensures var r := Generate(id, name, d, temperature, now);
            && Inside(r, HeartRateField) && Inside(r, RespiratoryRateField)
            && Inside(r, SystolicField) && Inside(r, DiastolicField)
            && (Valid(r) <==> 320 < temperature < 420)
  {
  }

  /** A reading drawn on the normal branch never raises a heart rate
      condition. */
  lemma NormalHeartRateQuiet(id: Option<string>, name: Option<string>, d: Draws, temperature: int, now: int)
    requires Possible(d) && !Abnormal(d)
    ensures var r := Generate(id, name, d, temperature, now);
            forall c :: c in Conditions(r) ==> !c.LowHr? && !c.HighHr?
  {
    var r := Generate(id, name, d, temperature, now);
    forall c | c in Conditions(r)
      ensures !c.LowHr? && !c.HighHr?
    {
      var i :| 0 <= i < |Conditions(r)| && Conditions(r)[i] == c;
      assert Raised(r, Rank(c)) == Some(c);
    }
  }

  /** Blood pressure ignores the abnormality flag: the largest draws on the
      normal branch raise both blood pressure conditions. */
  lemma NormalBranchHighPressure(id: Option<string>, name: Option<string>, temperature: int, now: int)
    ensures var d := Draws(0.5, false, 20, false, 4, 50, 40);
            && Possible(d) && !Abnormal(d)
            && var r := Generate(id, name, d, temperature, now);
               HighSbp(170) in Conditions(r) && HighDbp(100) in Conditions(r)
  {
    var d := Draws(0.5, false, 20, false, 4, 50, 40);
    ConditionsIff(Generate(id, name, d, temperature, now));
  }

  /** The calls the generator makes on its `Random`, in order. */
  datatype Call = NextDouble | NextBoolean | NextInt(bound: int)

  /** The call sequence of one `generateVitalSigns`; `nextBoolean` is only
      called after `isAbnormal` came out true (`&&` short-circuits). */
  function Calls(d: Draws): (c: seq<Call>)
    ensures |c| >= 6 && c[0] == NextDouble
    ensures c[|c| - 2..] == [NextInt(51), NextInt(41)]
    ensures forall i :: 0 <= i < |c| && c[i].NextInt? ==> c[i].bound > 0
  {
    var branch := if Abnormal(d) then [NextBoolean] else [];
    [NextDouble]
    + branch + [NextInt(HeartRateBound(d))]
    + branch + [NextInt(RespiratoryRateBound(d))]
    + branch + [NextDouble]
    + [NextInt(51), NextInt(41)]
  }

  /** `nextBoolean` is called exactly when the reading is abnormal, three
      times then and never otherwise. */
  lemma BooleansOnlyWhenAbnormal(d: Draws)
    ensures NextBoolean in Calls(d) <==> Abnormal(d)
    ensures |Calls(d)| == if Abnormal(d) then 9 else 6
    ensures multiset(Calls(d))[NextBoolean] == if Abnormal(d) then 3 else 0
  {
    var hr := [NextInt(HeartRateBound(d))];
    var rr := [NextInt(RespiratoryRateBound(d))];
    var tail := [NextDouble] + [NextInt(51), NextInt(41)];
    if !Abnormal(d) {
      assert Calls(d) == [NextDouble] + hr + rr + tail;
      assert forall i :: 0 <= i < |Calls(d)| ==> Calls(d)[i] != NextBoolean;
    } else {
      var b := [NextBoolean];
      assert Calls(d) == [NextDouble] + b + hr + b + rr + b + tail;
      assert Calls(d)[1] == NextBoolean;
    }
  }

  /** The `nextBoolean` values play no part in a normal reading. */
  lemma NormalIgnoresBooleans(id: Option<string>, name: Option<string>, d: Draws, b1: bool, b2: bool, temperature: int, now: int)
    requires Possible(d) && !Abnormal(d)
    ensures Possible(d.(lowHeartRate := b1, lowRespiratoryRate := b2))
    ensures Generate(id, name, d, temperature, now)
            == Generate(id, name, d.(lowHeartRate := b1, lowRespiratoryRate := b2), temperature, now)
  {
  }

  /** A generated reading with a comma-free id and name and a plausible
      temperature crosses the wire intact and, if the server is not paused,
      is logged at once with only its timestamp lost. */
  lemma GeneratedReachesHistory(s: State, id: string, name: string, d: Draws, temperature: int, now: int, stamp: Stamp)
    requires Possible(d) && 320 < temperature < 420
    requires ',' !in id && ',' !in name
    requires !s.paused
    ensures var r := Generate(Some(id), Some(name), d, temperature, now);
            Deliver(s, ToMessage(r), stamp).history == s.history + [r.(timestamp := 0)]
  {
    var r := Generate(Some(id), Some(name), d, temperature, now);
    RoundTrip(r);
    GeneratedValidIff(Some(id), Some(name), d, temperature, now);
    assert Valid(r.(timestamp := 0));
  }
}
