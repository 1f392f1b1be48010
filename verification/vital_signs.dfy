/** The `VitalSigns` record and its wire codec: `toMessage` writes
    `ID=<id>,NOME=<name>,FC=<hr>bpm,FR=<rr>rpm,Temp=<t>°C,Pressao=<sys>/<dia>`
    and `fromMessage` reads such a line back part by part, stopping silently at
    the first part it cannot parse. */
module VitalSigns {
  import opened Wrappers
  import opened Text
  import opened Numbers

  /** One reading as the Java class holds it. A `None` string is Java's `null`;
      `temperature` counts tenths of a degree Celsius (the wire carries one
      decimal); `timestamp` is in milliseconds since the epoch. */
  datatype Reading = Reading(
    clientId: Option<string>,
    clientName: Option<string>,
    heartRate: Int32,
    respiratoryRate: Int32,
    temperature: int,
    systolic: Int32,
    diastolic: Int32,
    timestamp: int)

  /** A freshly constructed `VitalSigns`: null strings, zero numbers. */
  const Unset := Reading(None, None, 0, 0, 0, 0, 0, 0)

  const HeartRateUnit := "bpm"
  const RespiratoryRateUnit := "rpm"
  const TemperatureUnit := "\U{00B0}C"

  /** The keys `fromMessage` recognises, in the order it tests them. */
  datatype Key = IdKey | NameKey | HeartRateKey | RespiratoryRateKey | TemperatureKey | PressureKey

  function KeyText(k: Key): string
  {
    match k
    case IdKey => "ID="
    case NameKey => "NOME="
    case HeartRateKey => "FC="
    case RespiratoryRateKey => "FR="
    case TemperatureKey => "Temp="
    case PressureKey => "Pressao="
  }

  /* ---------------------------------------------------------------------- */
  /* toMessage                                                               */
  /* ---------------------------------------------------------------------- */

  /** What `%s` prints for a possibly null string: "null" for null, so a
      shown text other than "null" is the string itself. */
  function Shown(o: Option<string>): (r: string)
    ensures o.None? ==> r == "null"
    ensures r != "null" ==> o == Some(r)
  {
    match o
    case None => "null"
    case Some(s) => s
  }

  /** The six parts `toMessage` writes, in order. */
  function MessageParts(r: Reading): (parts: seq<string>)
    ensures |parts| == 6
  {
    [ KeyText(IdKey) + Shown(r.clientId),
      KeyText(NameKey) + Shown(r.clientName),
      KeyText(HeartRateKey) + IntText(r.heartRate) + HeartRateUnit,
      KeyText(RespiratoryRateKey) + IntText(r.respiratoryRate) + RespiratoryRateUnit,
      KeyText(TemperatureKey) + TenthsText(r.temperature) + TemperatureUnit,
      KeyText(PressureKey) + IntText(r.systolic) + "/" + IntText(r.diastolic) ]
  }

  /** `toMessage`: the parts joined by commas; the timestamp is not written. */
  function ToMessage(r: Reading): (m: string)
    ensures StartsWith(m, KeyText(IdKey))
  {
    var parts := MessageParts(r);
    assert parts[0][..3] == KeyText(IdKey);
    Join(parts, ",")
  }

  /* ---------------------------------------------------------------------- */
  /* fromMessage                                                             */
  /* ---------------------------------------------------------------------- */

  /** The key a part starts with, tested in `fromMessage`'s order; `None` for a
      part that is ignored. */
  function KeyOf(part: string): (k: Option<Key>)
    ensures k.Some? ==> StartsWith(part, KeyText(k.value))
    ensures k.None? ==> forall key :: !StartsWith(part, KeyText(key))
  {
    if StartsWith(part, KeyText(IdKey)) then Some(IdKey)
    else if StartsWith(part, KeyText(NameKey)) then Some(NameKey)
    else if StartsWith(part, KeyText(HeartRateKey)) then Some(HeartRateKey)
    else if StartsWith(part, KeyText(RespiratoryRateKey)) then Some(RespiratoryRateKey)
    else if StartsWith(part, KeyText(TemperatureKey)) then Some(TemperatureKey)
    else if StartsWith(part, KeyText(PressureKey)) then Some(PressureKey)
    else None
  }

  /** The fields of a reading, for stating which part may change which field. */
  datatype Field = IdField | NameField | HeartRateField | RespiratoryRateField
                 | TemperatureField | SystolicField | DiastolicField

  datatype Value = Str(text: Option<string>) | Num(number: int)

  function Get(r: Reading, f: Field): Value
  {
    match f
    case IdField => Str(r.clientId)
    case NameField => Str(r.clientName)
    case HeartRateField => Num(r.heartRate)
    case RespiratoryRateField => Num(r.respiratoryRate)
    case TemperatureField => Num(r.temperature)
    case SystolicField => Num(r.systolic)
    case DiastolicField => Num(r.diastolic)
  }

  /** The fields a part with key `k` assigns. */
  predicate Writes(k: Key, f: Field)
  {
    match k
    case IdKey => f == IdField
    case NameKey => f == NameField
    case HeartRateKey => f == HeartRateField
    case RespiratoryRateKey => f == RespiratoryRateField
    case TemperatureKey => f == TemperatureField
    case PressureKey => f == SystolicField || f == DiastolicField
  }

  predicate PartWrites(part: string, f: Field)
  {
    KeyOf(part).Some? && Writes(KeyOf(part).value, f)
  }

  /** The object after one part, and whether decoding goes on (`Continue`) or
      an exception ended it (`Stop`). */
  datatype Outcome = Continue(reading: Reading) | Stop(reading: Reading)

  /** What a part with key `k` does with the text after the key. Suffixes are
      removed before a number is parsed; a failed parse leaves its field alone
      and stops; a pressure part whose second half is missing or bad stops
      with the systolic value already stored. */
  function ApplyField(r: Reading, k: Key, text: string): (s: Outcome)
    ensures s.reading.timestamp == r.timestamp
    ensures forall f :: !Writes(k, f) ==> Get(s.reading, f) == Get(r, f)
    ensures s.Stop? ==> s.reading == r || (k == PressureKey && s.reading == r.(systolic := s.reading.systolic))
  {
    match k
    case IdKey => Continue(r.(clientId := Some(text)))
    case NameKey => Continue(r.(clientName := Some(text)))
    case HeartRateKey =>
      (match ParseInt(RemoveAll(text, HeartRateUnit))
       case None => Stop(r)
       case Some(v) => Continue(r.(heartRate := v)))
    case RespiratoryRateKey =>
      (match ParseInt(RemoveAll(text, RespiratoryRateUnit))
       case None => Stop(r)
       case Some(v) => Continue(r.(respiratoryRate := v)))
    case TemperatureKey => ReadTemperature(r, text)
    case PressureKey => ReadPressure(r, text)
  }

  /** The temperature part: the unit removed, then `parseDouble`. */
  function ReadTemperature(r: Reading, text: string): (o: Outcome)
    ensures o.Stop? ==> o.reading == r
    ensures o.reading == r.(temperature := o.reading.temperature)
    ensures o.Continue? <==> ParseTenths(RemoveAll(text, TemperatureUnit)).Some?
  {
    match ParseTenths(RemoveAll(text, TemperatureUnit))
    case None => Stop(r)
    case Some(v) => Continue(r.(temperature := v))
  }

  /** The pressure part: `text.split("/")`, then the systolic value from the
      first half and the diastolic value from the second, each stored as soon
      as it parses. */
  function ReadPressure(r: Reading, text: string): (s: Outcome)
    ensures s.reading == r.(systolic := s.reading.systolic, diastolic := s.reading.diastolic)
    ensures s.Stop? ==> s.reading.diastolic == r.diastolic
  {
    var halves := Split(text, '/');
    if |halves| < 1 then Stop(r)
    else match ParseInt(halves[0])
      case None => Stop(r)
      case Some(sys) =>
        var r1 := r.(systolic := sys);
        if |halves| < 2 then Stop(r1)
        else match ParseInt(halves[1])
          case None => Stop(r1)
          case Some(dia) => Continue(r1.(diastolic := dia))
  }

  /** One iteration of `fromMessage`'s loop: a part without a known key is
      skipped, any other is handled by its key. */
  function ApplyPart(r: Reading, part: string): (s: Outcome)
    ensures KeyOf(part).None? ==> s == Continue(r)
    ensures s.reading.timestamp == r.timestamp
    ensures forall f :: !PartWrites(part, f) ==> Get(s.reading, f) == Get(r, f)
    ensures s.Stop? ==> s.reading == r || (KeyOf(part) == Some(PressureKey) && s.reading == r.(systolic := s.reading.systolic))
  {
    match KeyOf(part)
    case None => Continue(r)
    case Some(k) => ApplyField(r, k, part[|KeyText(k)|..])
  }

  /** `fromMessage`'s loop over the comma-separated parts. */
  function DecodeParts(r: Reading, parts: seq<string>): (o: Outcome)
    ensures o.reading.timestamp == r.timestamp
    decreases |parts|
  {
    if |parts| == 0 then Continue(r)
    else match ApplyPart(r, parts[0])
      case Stop(r1) => Stop(r1)
      case Continue(r1) => DecodeParts(r1, parts[1..])
  }

  /** Goes on decoding `parts` after `s` unless `s` stopped. */
  function Then(s: Outcome, parts: seq<string>): Outcome
  {
    match s
    case Stop(r) => Stop(r)
    case Continue(r) => DecodeParts(r, parts)
  }

  /** `fromMessage`: the exception handler returns the object as far as it was
      filled; the wire format has no timestamp, so it stays 0. */
  function FromMessage(message: string): (r: Reading)
    ensures r.timestamp == 0
  {
    DecodeParts(Unset, Split(message, ',')).reading
  }

  /* ---------------------------------------------------------------------- */
  /* Properties of the decoder                                               */
  /* ---------------------------------------------------------------------- */

  /** Decoding two runs of parts is decoding the first, then the second unless
      the first stopped. */
  lemma {:induction false} DecodeAppend(r: Reading, a: seq<string>, b: seq<string>)
    ensures DecodeParts(r, a + b) == Then(DecodeParts(r, a), b)
    decreases |a|
  {
    if |a| > 0 {
      assert (a + b)[0] == a[0];
      assert (a + b)[1..] == a[1..] + b;
      if ApplyPart(r, a[0]).Continue? {
        DecodeAppend(ApplyPart(r, a[0]).reading, a[1..], b);
      }
    } else {
      assert a + b == b;
    }
  }

  /** A part with none of the six keys is skipped wherever it appears. */
  lemma UnknownPartIgnored(r: Reading, a: seq<string>, p: string, b: seq<string>)
    requires KeyOf(p).None?
    ensures DecodeParts(r, a + [p] + b) == DecodeParts(r, a + b)
  {
    assert a + [p] + b == a + ([p] + b);
    DecodeAppend(r, a, [p] + b);
    DecodeAppend(r, a, b);
    var s := DecodeParts(r, a);
    if s.Continue? {
      SkipsUnknown(s.reading, p, b);
    }
  }

  lemma SkipsUnknown(r: Reading, p: string, b: seq<string>)
    requires KeyOf(p).None?
    ensures DecodeParts(r, [p] + b) == DecodeParts(r, b)
  {
    assert ([p] + b)[0] == p && ([p] + b)[1..] == b;
  }

  /** Once a part fails, the parts after it are never looked at. */
  lemma StopDiscardsRest(r: Reading, a: seq<string>, b: seq<string>)
    requires DecodeParts(r, a).Stop?
    ensures DecodeParts(r, a + b) == DecodeParts(r, a)
  {
    DecodeAppend(r, a, b);
  }

  /** A failing part leaves every field as the earlier parts set it, except
      the systolic value a half-parsed pressure part stores; no later part
      has any effect. */
  lemma FailureKeepsEarlierFields(r: Reading, a: seq<string>, p: string, b: seq<string>)
    requires DecodeParts(r, a).Continue?
    requires ApplyPart(DecodeParts(r, a).reading, p).Stop?
    ensures var before := DecodeParts(r, a).reading;
            var after := DecodeParts(r, a + [p] + b);
            after.Stop?
            && (after.reading == before
                || (KeyOf(p) == Some(PressureKey) && after.reading == before.(systolic := after.reading.systolic)))
  {
    assert a + [p] + b == (a + [p]) + b;
    DecodeAppend(r, a, [p]);
    assert [p][1..] == [];
    StopDiscardsRest(r, a + [p], b);
  }

  /** Parts that assign no field `f` leave `f` alone. */
  lemma {:induction false} DecodeFrame(r: Reading, parts: seq<string>, f: Field)
    requires forall i :: 0 <= i < |parts| ==> !PartWrites(parts[i], f)
    ensures Get(DecodeParts(r, parts).reading, f) == Get(r, f)
    decreases |parts|
  {
    if |parts| > 0 && ApplyPart(r, parts[0]).Continue? {
      DecodeFrame(ApplyPart(r, parts[0]).reading, parts[1..], f);
    }
  }

  /** Whether a part parses, and what it assigns, does not depend on the
      values assigned before it. */
  lemma ApplyPartIgnoresPrior(r1: Reading, r2: Reading, part: string, f: Field)
    requires ApplyPart(r1, part).Continue?
    requires PartWrites(part, f)
    ensures ApplyPart(r2, part).Continue?
    ensures Get(ApplyPart(r2, part).reading, f) == Get(ApplyPart(r1, part).reading, f)
  {
  }

  /** A later part with the same key overwrites an earlier one: once decoding
      reaches a part that assigns `f`, the value of `f` is the one that part
      alone gives, as long as no further part assigns `f`. */
  lemma LastWriteWins(r: Reading, a: seq<string>, q: string, b: seq<string>, f: Field)
    requires DecodeParts(r, a).Continue?
    requires ApplyPart(DecodeParts(r, a).reading, q).Continue?
    requires PartWrites(q, f)
    requires forall i :: 0 <= i < |b| ==> !PartWrites(b[i], f)
    ensures Get(DecodeParts(r, a + [q] + b).reading, f) == Get(ApplyPart(Unset, q).reading, f)
  {
    var x := DecodeParts(r, a).reading;
    var y := ApplyPart(x, q).reading;
    assert a + [q] + b == a + ([q] + b);
    DecodeAppend(r, a, [q] + b);
    assert ([q] + b)[0] == q && ([q] + b)[1..] == b;
    assert DecodeParts(r, a + [q] + b) == DecodeParts(y, b);
    DecodeFrame(y, b, f);
    ApplyPartIgnoresPrior(x, Unset, q, f);
  }

  /* ---------------------------------------------------------------------- */
  /* Properties of the codec                                                 */
  /* ---------------------------------------------------------------------- */

  lemma DecodeCons(r: Reading, p: string, ps: seq<string>)
    requires ApplyPart(r, p).Continue?
    ensures DecodeParts(r, [p] + ps) == DecodeParts(ApplyPart(r, p).reading, ps)
  {
    assert ([p] + ps)[0] == p && ([p] + ps)[1..] == ps;
  }

  /** No key is a prefix of another, so a part that starts with a key is read
      under that key, from the text after it. */
  lemma ApplyKeyed(x: Reading, k: Key, t: string)
    ensures KeyOf(KeyText(k) + t) == Some(k)
    ensures ApplyPart(x, KeyText(k) + t) == ApplyField(x, k, t)
  {
    var part := KeyText(k) + t;
    assert part[..|KeyText(k)|] == KeyText(k);
    assert part[|KeyText(k)|..] == t;
    assert part[0] == KeyText(k)[0];
    assert |KeyText(k)| >= 2 ==> part[1] == KeyText(k)[1];
  }

  lemma ReadsNumber(x: Reading, k: Key, n: Int32, unit: string)
    requires (k == HeartRateKey && unit == HeartRateUnit) || (k == RespiratoryRateKey && unit == RespiratoryRateUnit)
    ensures ApplyField(x, k, IntText(n) + unit)
            == Continue(if k == HeartRateKey then x.(heartRate := n) else x.(respiratoryRate := n))
  {
    RemoveAllCutsUnit(IntText(n), [], unit);
    assert IntText(n) + unit + [] == IntText(n) + unit;
    assert IntText(n) + [] == IntText(n);
    ParseIntText(n);
  }

  /** A text followed by a unit that cannot begin inside it loses exactly the
      unit. */
  lemma UnitCut(text: string, unit: string, written: string)
    requires unit != [] && unit[0] !in text
    requires written == text + unit
    ensures RemoveAll(written, unit) == text
  {
    RemoveAllCutsUnit(text, [], unit);
    assert text + unit + [] == written;
    assert text + [] == text;
  }

  lemma ReadsTemperature(x: Reading, t: int)
    ensures ApplyField(x, TemperatureKey, TenthsText(t) + TemperatureUnit) == Continue(x.(temperature := t))
  {
    var text := TenthsText(t);
    assert RemoveAll(text + TemperatureUnit, TemperatureUnit) == text by {
      assert TemperatureUnit[0] !in text;
      UnitCut(text, TemperatureUnit, text + TemperatureUnit);
    }
    ParseTenthsText(t);
    TemperaturePart(x, text + TemperatureUnit);
  }

  lemma TemperaturePart(x: Reading, text: string)
    ensures ApplyField(x, TemperatureKey, text) == ReadTemperature(x, text)
  {
  }

  /** "Pressao=a/b" stores a as systolic and b as diastolic. */
  lemma ReadsPressure(x: Reading, sys: Int32, dia: Int32)
    ensures ApplyField(x, PressureKey, IntText(sys) + "/" + IntText(dia))
            == Continue(x.(systolic := sys, diastolic := dia))
  {
    PressureText(x, sys, dia);
    PressureField(x, IntText(sys) + "/" + IntText(dia));
  }

  lemma PressureField(x: Reading, text: string)
    ensures ApplyField(x, PressureKey, text) == ReadPressure(x, text)
  {
  }

  lemma PressureText(x: Reading, sys: Int32, dia: Int32)
    ensures ReadPressure(x, IntText(sys) + "/" + IntText(dia))
            == Continue(x.(systolic := sys, diastolic := dia))
  {
    var text := IntText(sys) + "/" + IntText(dia);
    PressureHalves(sys, dia, text);
    ReadsHalves(x, text, sys, dia);
  }

  lemma ReadsHalves(x: Reading, text: string, sys: Int32, dia: Int32)
    requires Split(text, '/') == [IntText(sys), IntText(dia)]
    ensures ReadPressure(x, text) == Continue(x.(systolic := sys, diastolic := dia))
  {
    ParseIntText(sys);
    ParseIntText(dia);
  }

  /** The pressure text splits at its one '/'. */
  lemma PressureHalves(sys: int, dia: int, text: string)
    requires text == IntText(sys) + "/" + IntText(dia)
    ensures Split(text, '/') == [IntText(sys), IntText(dia)]
  {
    var halves := [IntText(sys), IntText(dia)];
    assert halves[1..] == [IntText(dia)];
    assert Join(halves, "/") == text;
    assert '/' !in halves[0] && '/' !in halves[1];
    SplitJoin(halves, '/');
  }

  /** "Pressao=a" without the "/b" half stops with the systolic value stored
      and the diastolic one untouched. */
  lemma PressureWithoutDiastolic(x: Reading, sys: Int32)
    ensures ApplyPart(x, KeyText(PressureKey) + IntText(sys)) == Stop(x.(systolic := sys))
  {
    ApplyKeyed(x, PressureKey, IntText(sys));
    PressureField(x, IntText(sys));
    assert '/' !in IntText(sys);
    ParseIntText(sys);
  }

  /** As a whole message, "Pressao=a" decodes to a blank object whose
      systolic value is a and whose diastolic value is still 0. */
  lemma MessageWithoutDiastolic(sys: Int32)
    ensures FromMessage(KeyText(PressureKey) + IntText(sys)) == Unset.(systolic := sys)
  {
    var m := KeyText(PressureKey) + IntText(sys);
    assert ',' !in IntText(sys);
    assert ',' !in m;
    PressureWithoutDiastolic(Unset, sys);
    assert Split(m, ',') == [m];
    assert [m][1..] == [];
  }

  /** A character of a number's text, its sign or its decimal point. */
  predicate NumberChar(c: char) {
    IsDigit(c) || c == '-' || c == '+' || c == '.'
  }

  /** No unit starts inside the text of a number. */
  lemma UnitNotInNumber(unit: string, chunks: seq<string>)
    requires unit == HeartRateUnit || unit == RespiratoryRateUnit || unit == TemperatureUnit
    requires forall i, j :: 0 <= i < |chunks| && 0 <= j < |chunks[i]| ==> NumberChar(chunks[i][j])
    ensures forall i :: 0 <= i < |chunks| ==> unit[0] !in chunks[i]
  {
  }

  lemma UnitStripped(x: Reading, k: Key, unit: string, chunks: seq<string>)
    requires (k == HeartRateKey && unit == HeartRateUnit) || (k == RespiratoryRateKey && unit == RespiratoryRateUnit)
             || (k == TemperatureKey && unit == TemperatureUnit)
    requires forall i, j :: 0 <= i < |chunks| && 0 <= j < |chunks[i]| ==> NumberChar(chunks[i][j])
    ensures ApplyPart(x, KeyText(k) + Join(chunks, unit)) == ApplyPart(x, KeyText(k) + Join(chunks, ""))
  {
    var t1 := Join(chunks, unit);
    var t2 := Join(chunks, "");
    UnitNotInNumber(unit, chunks);
    RemoveAllJoin(chunks, unit);
    NotInJoin(chunks, "", unit[0]);
    RemoveAllNoOccurrence(t2, unit);
    assert RemoveAll(t1, unit) == RemoveAll(t2, unit);
    SameAfterUnit(x, k, unit, t1, t2);
    SameFieldSamePart(x, k, t1, t2);
  }

  lemma SameFieldSamePart(x: Reading, k: Key, t1: string, t2: string)
    requires ApplyField(x, k, t1) == ApplyField(x, k, t2)
    ensures ApplyPart(x, KeyText(k) + t1) == ApplyPart(x, KeyText(k) + t2)
  {
    ApplyKeyed(x, k, t1);
    ApplyKeyed(x, k, t2);
  }

  /** A numeric field reads its text only once the unit is removed. */
  lemma SameAfterUnit(x: Reading, k: Key, unit: string, t1: string, t2: string)
    requires (k == HeartRateKey && unit == HeartRateUnit) || (k == RespiratoryRateKey && unit == RespiratoryRateUnit)
             || (k == TemperatureKey && unit == TemperatureUnit)
    requires RemoveAll(t1, unit) == RemoveAll(t2, unit)
    ensures ApplyField(x, k, t1) == ApplyField(x, k, t2)
  {
  }

  /** The unit suffix is removed everywhere it occurs in the field text
      before the number is parsed, however often: "FC=1bpm2bpm3" reads as
      "FC=123" and "FC=-bpm5" as "FC=-5". */
  lemma UnitsStrippedAnywhere(x: Reading, chunks: seq<string>)
    requires forall i, j :: 0 <= i < |chunks| && 0 <= j < |chunks[i]| ==> NumberChar(chunks[i][j])
    ensures ApplyPart(x, KeyText(HeartRateKey) + Join(chunks, HeartRateUnit))
            == ApplyPart(x, KeyText(HeartRateKey) + Join(chunks, ""))
    ensures ApplyPart(x, KeyText(RespiratoryRateKey) + Join(chunks, RespiratoryRateUnit))
            == ApplyPart(x, KeyText(RespiratoryRateKey) + Join(chunks, ""))
    ensures ApplyPart(x, KeyText(TemperatureKey) + Join(chunks, TemperatureUnit))
            == ApplyPart(x, KeyText(TemperatureKey) + Join(chunks, ""))
  {
    UnitStripped(x, HeartRateKey, HeartRateUnit, chunks);
    UnitStripped(x, RespiratoryRateKey, RespiratoryRateUnit, chunks);
    UnitStripped(x, TemperatureKey, TemperatureUnit, chunks);
  }

  /** `toMessage` writes exactly the six parts, in order, when neither string
      holds a comma. */
  lemma ToMessageSplits(r: Reading)
    requires ',' !in Shown(r.clientId) && ',' !in Shown(r.clientName)
    ensures Split(ToMessage(r), ',') == MessageParts(r)
  {
    var ps := MessageParts(r);
    assert ',' !in IntText(r.heartRate) && ',' !in IntText(r.respiratoryRate);
    assert ',' !in IntText(r.systolic) && ',' !in IntText(r.diastolic);
    assert ',' !in TenthsText(r.temperature);
    forall i | 0 <= i < |ps| ensures ',' !in ps[i] { }
    SplitJoin(ps, ',');
  }

  /** The keys in the order `toMessage` writes them. */
  const WrittenKeys: seq<Key> := [IdKey, NameKey, HeartRateKey, RespiratoryRateKey, TemperatureKey, PressureKey]

  lemma KeyedPart(k: Key, t: string, part: string)
    requires part == KeyText(k) + t
    ensures KeyOf(part) == Some(k)
  {
    ApplyKeyed(Unset, k, t);
  }

  /** `toMessage` writes six parts, each under its own key, in the order ID,
      NOME, FC, FR, Temp, Pressao. */
  lemma MessagePartKeys(r: Reading)
    ensures forall i :: 0 <= i < 6 ==> KeyOf(MessageParts(r)[i]) == Some(WrittenKeys[i])
  {
    var ps := MessageParts(r);
    KeyedPart(IdKey, Shown(r.clientId), ps[0]);
    KeyedPart(NameKey, Shown(r.clientName), ps[1]);
    KeyedPart(HeartRateKey, IntText(r.heartRate) + HeartRateUnit, ps[2]);
    KeyedPart(RespiratoryRateKey, IntText(r.respiratoryRate) + RespiratoryRateUnit, ps[3]);
    KeyedPart(TemperatureKey, TenthsText(r.temperature) + TemperatureUnit, ps[4]);
    KeyedPart(PressureKey, IntText(r.systolic) + "/" + IntText(r.diastolic), ps[5]);
  }

  /** The state of the object after each of the six parts of `toMessage`. */
  function Filled(r: Reading, n: nat): Reading
    requires n <= 6
  {
    if n == 0 then Unset
    else
      var x := Filled(r, n - 1);
      if n == 1 then x.(clientId := r.clientId)
      else if n == 2 then x.(clientName := r.clientName)
      else if n == 3 then x.(heartRate := r.heartRate)
      else if n == 4 then x.(respiratoryRate := r.respiratoryRate)
      else if n == 5 then x.(temperature := r.temperature)
      else x.(systolic := r.systolic, diastolic := r.diastolic)
  }

  /** Each part `toMessage` writes is read back into its own field. */
  lemma ReadsMessagePart(r: Reading, i: nat)
    requires r.clientId.Some? && r.clientName.Some?
    requires i < 6
    ensures ApplyPart(Filled(r, i), MessageParts(r)[i]) == Continue(Filled(r, i + 1))
  {
    var ps := MessageParts(r);
    var x := Filled(r, i);
    if i == 0 {
      ApplyKeyed(x, IdKey, r.clientId.value);
    } else if i == 1 {
      ApplyKeyed(x, NameKey, r.clientName.value);
    } else if i == 2 {
      var hr := IntText(r.heartRate) + HeartRateUnit;
      assert ps[2] == KeyText(HeartRateKey) + hr;
      ApplyKeyed(x, HeartRateKey, hr);
      ReadsNumber(x, HeartRateKey, r.heartRate, HeartRateUnit);
    } else if i == 3 {
      var rr := IntText(r.respiratoryRate) + RespiratoryRateUnit;
      assert ps[3] == KeyText(RespiratoryRateKey) + rr;
      ApplyKeyed(x, RespiratoryRateKey, rr);
      ReadsNumber(x, RespiratoryRateKey, r.respiratoryRate, RespiratoryRateUnit);
    } else if i == 4 {
      var temp := TenthsText(r.temperature) + TemperatureUnit;
      assert ps[4] == KeyText(TemperatureKey) + temp;
      ApplyKeyed(x, TemperatureKey, temp);
      ReadsTemperature(x, r.temperature);
    } else {
      var bp := IntText(r.systolic) + "/" + IntText(r.diastolic);
      assert ps[5] == KeyText(PressureKey) + bp;
      ApplyKeyed(x, PressureKey, bp);
      ReadsPressure(x, r.systolic, r.diastolic);
    }
  }

  /** Decoding the parts from the `i`-th on finishes filling the object. */
  lemma {:induction false} DecodesMessageSuffix(r: Reading, i: nat)
    requires r.clientId.Some? && r.clientName.Some?
    requires i <= 6
    ensures DecodeParts(Filled(r, i), MessageParts(r)[i..]) == Continue(Filled(r, 6))
    decreases 6 - i
  {
    var ps := MessageParts(r);
    if i < 6 {
      ReadsMessagePart(r, i);
      assert ps[i..] == [ps[i]] + ps[i + 1..];
      DecodeCons(Filled(r, i), ps[i], ps[i + 1..]);
      DecodesMessageSuffix(r, i + 1);
    }
  }

  /** Decoding the six parts `toMessage` writes restores every field. */
  lemma DecodesMessageParts(r: Reading)
    requires r.clientId.Some? && r.clientName.Some?
    ensures DecodeParts(Unset, MessageParts(r)) == Continue(r.(timestamp := 0))
  {
    DecodesMessageSuffix(r, 0);
    assert MessageParts(r)[0..] == MessageParts(r);
    assert Filled(r, 2) == Unset.(clientId := r.clientId, clientName := r.clientName);
    assert Filled(r, 4) == Filled(r, 2).(heartRate := r.heartRate, respiratoryRate := r.respiratoryRate);
    assert Filled(r, 6) == r.(timestamp := 0);
  }

  /** Round trip: decoding what `toMessage` wrote restores every field when
      the id and the name are set and hold no comma; only the timestamp,
      which is not transmitted, comes back as 0. */
  lemma RoundTrip(r: Reading)
    requires r.clientId.Some? && r.clientName.Some?
    requires ',' !in r.clientId.value && ',' !in r.clientName.value
    ensures FromMessage(ToMessage(r)) == r.(timestamp := 0)
  {
    ToMessageSplits(r);
    DecodesMessageParts(r);
  }

  /** Any comma-joined list of comma-free parts is decoded part by part. */
  lemma FromJoinedParts(parts: seq<string>)
    requires |parts| >= 1 && parts[|parts| - 1] != ""
    requires forall i :: 0 <= i < |parts| ==> ',' !in parts[i]
    ensures FromMessage(Join(parts, ",")) == DecodeParts(Unset, parts).reading
  {
    SplitJoin(parts, ',');
  }

  /** With a comma in the name, `toMessage` writes the pieces of the name as
      two parts. */
  lemma CommaNameParts(r: Reading, first: string, rest: string)
    requires r.clientName == Some(first + "," + rest)
    ensures var ps := MessageParts(r.(clientName := Some(first)));
            ToMessage(r) == Join(ps[..2] + [rest] + ps[2..], ",")
  {
    var cut := r.(clientName := Some(first));
    var ps := MessageParts(cut);
    var tail := ps[2..];
    assert MessageParts(r)[1] == ps[1] + "," + rest by {
      assert KeyText(NameKey) + (first + "," + rest) == (KeyText(NameKey) + first) + "," + rest;
    }
    assert MessageParts(r)[2..] == tail;
    assert MessageParts(r) == [ps[0], ps[1] + "," + rest] + tail;
    assert ps[..2] + [rest] + ps[2..] == [ps[0], ps[1], rest] + tail;
    JoinCommaInSecond(ps[0], ps[1], rest, tail);
  }

  /** Two parts in front of a non-empty tail, joined at commas. */
  lemma {:induction false} JoinTwo(x: string, y: string, tail: seq<string>)
    requires tail != []
    ensures Join([x, y] + tail, ",") == x + "," + (y + "," + Join(tail, ","))
  {
    var m := [x, y] + tail;
    assert m[1..] == [y] + tail && m[1..][1..] == tail;
    JoinCons(m, ",");
    JoinCons(m[1..], ",");
  }

  /** A comma inside the second part reads as one more part after it. */
  lemma {:induction false} JoinCommaInSecond(a: string, b: string, rest: string, tail: seq<string>)
    requires tail != []
    ensures Join([a, b + "," + rest] + tail, ",") == Join([a, b, rest] + tail, ",")
  {
    var j := Join(tail, ",");
    JoinTwo(a, b + "," + rest, tail);
    var qs := [a, b, rest] + tail;
    assert qs == [a] + ([b, rest] + tail);
    assert qs[1..] == [b, rest] + tail;
    JoinCons(qs, ",");
    JoinTwo(b, rest, tail);
    assert b + "," + rest + "," + j == b + "," + (rest + "," + j);
  }

  /** A comma inside the name splits the NOME part: the name is cut at the
      comma, the piece after it is skipped as an unknown part, and every other
      field still arrives. */
  lemma NameWithCommaIsCut(r: Reading, first: string, rest: string)
    requires r.clientId.Some? && ',' !in r.clientId.value
    requires r.clientName == Some(first + "," + rest)
    requires ',' !in first && ',' !in rest && KeyOf(rest).None?
    ensures FromMessage(ToMessage(r)) == r.(clientName := Some(first), timestamp := 0)
  {
    var cut := r.(clientName := Some(first));
    var ps := MessageParts(cut);
    var qs := ps[..2] + [rest] + ps[2..];
    CommaNameParts(r, first, rest);
    ToMessageSplits(cut);
    forall i | 0 <= i < |qs| ensures ',' !in qs[i] {
      if i >= 3 {
        assert qs[i] == ps[i - 1];
      }
    }
    FromJoinedParts(qs);
    UnknownPartIgnored(Unset, ps[..2], rest, ps[2..]);
    assert ps[..2] + ps[2..] == ps;
    DecodesMessageParts(cut);
  }
}
