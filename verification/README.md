# Vital-signs monitoring over Pulsar: the codec, the alert core and the generator

This project is a Dafny model of the pure logic inside a small Apache Pulsar
client/server pair for patient monitoring. The model covers three parts:

- **The wire codec of a reading** (`VitalSigns.toMessage` / `fromMessage`).
  A reading travels as `ID=<id>,NOME=<name>,FC=<hr>bpm,FR=<rr>rpm,Temp=<t>°C,Pressao=<sys>/<dia>`.
  The decoder splits the line at commas and handles each part by its key.
  It ignores unknown parts and lets a later part overwrite an earlier one.
  It strips unit suffixes before parsing numbers. At the first part that fails
  to parse it stops silently, and the fields not yet reached keep their
  defaults.
- **The server's alert core** (`HealthMonitoringServer`). This is the
  physiological validator, the threshold checks with their fixed order, and
  the registry of alerts with confirm, ignore and the time-out sweep. It also
  covers the operator's command parser and the pause/resume gate. The gate
  holds a `paused` flag and a FIFO queue of raw messages that is drained on
  resume.
- **The synthetic reading generator** (`HealthMonitoringClient.generateVitalSigns`).
  The model takes the values `Random` returns as parameters.

Temperature is held as an integer count of tenths of a degree, because the wire
carries exactly one decimal. Java's `null` strings are `Option<string>`, and
Java's `int` is the subtype `Int32`.

The modules are listed in dependency order:

| module | file | contents |
|---|---|---|
| `Wrappers` | wrappers.dfy | `Option` |
| `Text` | text.dfy | `startsWith`, `replace(p, "")`, `split`, `String.join`, `trim`, `toLowerCase` |
| `Numbers` | numbers.dfy | `Integer.parseInt` / `toString`, `%.1f`, and `Double.parseDouble` on one-decimal texts |
| `Decimals` | decimals.dfy | which texts `Double.parseDouble` accepts as a temperature, and the value it reads from them |
| `VitalSigns` | vital_signs.dfy | the `Reading` record, `ToMessage`, `FromMessage`, and decoder and round-trip lemmas |
| `Alerts` | alerts.dfy | `Valid`, `Conditions`, `Summary`, the `Registry` with `Confirm` / `Ignore` / `Sweep` |
| `Commands` | commands.dfy | `ParseCommand` |
| `Server` | server.dfy | the server `State`; `Process`, `Deliver`, `Drain`, `Resume`, `Execute`; runs of events |
| `Client` | client.dfy | `Generate` and its range facts; a generated reading reaching the server |

The server is one immutable `State(paused, running, pending, alerts, history)`.
Each event is a pure transition:

- `Deliver` handles a message arriving from the topic.
- `Execute` handles a console line.
- A dashboard tick sweeps old alerts, and goes on doing so after `exit`.

Whatever the server would take from outside is a parameter:

- the alert id from `UUID.randomUUID`;
- the clock;
- the values of `Random` in the client.

A resume drains queued message `i` with `stamps(i)`. The history is the
sequence of readings the server logs to its CSV file, in logging order.

`processPendingMessages` polls until the queue is empty and calls
`processMessage` without looking at the pause flag. So within that method an
alarming queued reading re-sets `paused`, but every message behind it in the
queue is still processed (`Server.DrainIgnoresPause`,
`Server.ResumeDrainsQueue`). This describes the method on its own terms. In
the running program the queue stays empty (see "Left out"), so the drain has
nothing to process.

## Model

| member | source | states |
|---|---|---|
| Text.StartsWith | src/main/java/com/example/sinaisvitaisapachepulsar/VitalSigns.java:38-49 | `startsWith` holds only when the prefix is no longer than the text and agrees with it at every one of its positions; the decoder picks keys with it, and the console picks "confirm " and "ignore " with it (HealthMonitoringServer.java:162-164) |
| Text.RemoveAll | src/main/java/com/example/sinaisvitaisapachepulsar/VitalSigns.java:43-47 | `replace(p, "")` gives a text no longer than its argument and made only of its characters; `Text.RemoveAllJoin` states which occurrences go |
| Text.Split | src/main/java/com/example/sinaisvitaisapachepulsar/VitalSigns.java:35 | no piece holds the separator; a text without the separator comes back whole as the only piece; with one, the last piece kept is not empty, because Java drops trailing empty pieces |
| Text.RemoveAllJoin | src/main/java/com/example/sinaisvitaisapachepulsar/VitalSigns.java:43-47 | `replace(p, "")` deletes every occurrence of `p`, however many, from a text whose other characters cannot start one |
| Text.RemoveAllCutsUnit | src/main/java/com/example/sinaisvitaisapachepulsar/VitalSigns.java:43-47 | `replace(unit, "")` deletes a unit glued between two texts that cannot start one, wherever it sits |
| Text.SplitJoin | src/main/java/com/example/sinaisvitaisapachepulsar/VitalSigns.java:35 | `split` at a one-character separator undoes `String.join` of parts that do not hold it, provided the last part is not empty (Java drops trailing empty pieces) |
| Text.Join | src/main/java/com/example/sinaisvitaisapachepulsar/HealthMonitoringServer.java:122 | `String.join` of one or more parts opens with the first part; `Text.SplitJoin` and `Text.JoinFields` relate it to `split` |
| Text.JoinFields | src/main/java/com/example/sinaisvitaisapachepulsar/VitalSigns.java:35 | the pieces between separators, joined again, give the text back: cutting loses only the separators |
| Text.Trim | src/main/java/com/example/sinaisvitaisapachepulsar/HealthMonitoringServer.java:153 | the trimmed line is no longer than the line, and it neither starts nor ends with a character up to U+0020 |
| Text.TrimSpec | src/main/java/com/example/sinaisvitaisapachepulsar/HealthMonitoringServer.java:153 | `trim` cuts only characters up to U+0020, from both ends, and the result neither starts nor ends with one |
| Text.TrimIdempotent | src/main/java/com/example/sinaisvitaisapachepulsar/HealthMonitoringServer.java:163 | trimming an already trimmed id changes nothing |
| Text.ToLower | src/main/java/com/example/sinaisvitaisapachepulsar/HealthMonitoringServer.java:161 | the lower-cased text has the same length and no capital letter; a capital 'A'..'Z' becomes its small letter, 32 code points up; every other character is kept in place |
| Text.ToLowerIdempotent | src/main/java/com/example/sinaisvitaisapachepulsar/HealthMonitoringServer.java:161 | lower-casing a lower-cased line changes nothing |
| Text.ToLowerConcat | src/main/java/com/example/sinaisvitaisapachepulsar/HealthMonitoringServer.java:161-163 | lower-casing a line is lower-casing its keyword and its rest separately, so the keyword test and the id cut agree |
| Numbers.IntText | src/main/java/com/example/sinaisvitaisapachepulsar/VitalSigns.java:27 | `%d` writes at least one character, all digits except a possible leading '-', and never ends with '-' |
| Numbers.NatText | src/main/java/com/example/sinaisvitaisapachepulsar/VitalSigns.java:27 | `%d` of a natural number is a run of digits, without a leading zero, whose value is the number |
| Numbers.ParseInt | src/main/java/com/example/sinaisvitaisapachepulsar/VitalSigns.java:43 | a successful `parseInt` consumed one optional sign and ASCII digits only; a negative result had a '-' |
| Numbers.ParseIntAccepts | src/main/java/com/example/sinaisvitaisapachepulsar/VitalSigns.java:43 | every text of an optional '+' or '-' and one or more ASCII digits, leading zeros allowed, is accepted with its signed value when that fits in 32 bits, and refused otherwise |
| Numbers.ParseIntCanonical | src/main/java/com/example/sinaisvitaisapachepulsar/VitalSigns.java:43 | an accepted text without '+', without a leading zero and other than "-0" is exactly what `toString` writes for the value read |
| Numbers.ParseIntText | src/main/java/com/example/sinaisvitaisapachepulsar/VitalSigns.java:51 | `parseInt` reads back exactly what `%d` writes and refuses values outside the 32-bit range |
| Numbers.TenthsText | src/main/java/com/example/sinaisvitaisapachepulsar/VitalSigns.java:27 | `%.1f` writes digits with exactly one '.', placed just before the single last digit, and a '-' only as the first character |
| Numbers.ParseTenths | src/main/java/com/example/sinaisvitaisapachepulsar/VitalSigns.java:47-48 | a text that parses is not blank once trimmed; `Decimals.ParseTenthsAccepts`, `Decimals.ParseTenthsWhole` and `Decimals.ParseTenthsShape` state which texts are accepted and with what value |
| Numbers.ParseTenthsTrims | src/main/java/com/example/sinaisvitaisapachepulsar/VitalSigns.java:47-48 | padding around a text never changes what `parseDouble` reads from it |
| Decimals.SignedParse | src/main/java/com/example/sinaisvitaisapachepulsar/VitalSigns.java:47-48 | an optional sign, a core of digits and '.', and an optional type letter 'd', 'D', 'f' or 'F' parse exactly when the core's digits give a whole number of tenths, to that number negated under '-' |
| Decimals.ParseTenthsAccepts | src/main/java/com/example/sinaisvitaisapachepulsar/VitalSigns.java:47-48 | a signed decimal with a point, digits on at least one side and an optional type letter is accepted exactly when every decimal after the first is 0, with the value ten times the whole part plus the first decimal, negated under '-': "36.6", "36.60d", ".5" and "-5." are read, while "36.65", which Java reads as a double that is not a whole tenth, is refused here |
| Decimals.ParseTenthsWhole | src/main/java/com/example/sinaisvitaisapachepulsar/VitalSigns.java:47-48 | a signed whole number with an optional type letter is always accepted, as ten tenths per unit: "37" reads as 370 and "-5d" as -50 |
| Decimals.ParseTenthsShape | src/main/java/com/example/sinaisvitaisapachepulsar/VitalSigns.java:47-48 | whatever is accepted is, once trimmed and stripped of its sign and type letter, made only of digits and '.': "abc" is refused as in Java, and so are the exponent form "1e2", "NaN" and "Infinity", which Java reads but this model does not |
| Numbers.ParseTenthsText | src/main/java/com/example/sinaisvitaisapachepulsar/VitalSigns.java:47-48 | `parseDouble` of the one-decimal text gives the temperature back, to the tenth, for every sign |
| VitalSigns.Shown | src/main/java/com/example/sinaisvitaisapachepulsar/VitalSigns.java:27-28 | `%s` prints "null" for a null string, and any other text it prints is the string itself |
| VitalSigns.ToMessage | src/main/java/com/example/sinaisvitaisapachepulsar/VitalSigns.java:26-30 | the message always opens with the ID part's key "ID="; `VitalSigns.RoundTrip` states what the rest carries |
| VitalSigns.MessagePartKeys | src/main/java/com/example/sinaisvitaisapachepulsar/VitalSigns.java:26-30 | `toMessage` writes six parts under the keys ID, NOME, FC, FR, Temp, Pressao, in that order |
| VitalSigns.ToMessageSplits | src/main/java/com/example/sinaisvitaisapachepulsar/VitalSigns.java:27 | when id and name hold no comma, cutting the message at its commas gives exactly the six parts |
| VitalSigns.KeyOf | src/main/java/com/example/sinaisvitaisapachepulsar/VitalSigns.java:38-49 | the key chosen is a prefix of the part; a part matched by no key starts with none of the six |
| VitalSigns.ApplyPart | src/main/java/com/example/sinaisvitaisapachepulsar/VitalSigns.java:38-53 | a part with none of the six keys is skipped and decoding goes on; a part writes only its own fields and never the timestamp; a failing part leaves the object as it was, except for the systolic value of a pressure part |
| VitalSigns.DecodeParts | src/main/java/com/example/sinaisvitaisapachepulsar/VitalSigns.java:37-58 | the loop over the parts never changes the timestamp, whether it runs to the end or stops |
| VitalSigns.ApplyField | src/main/java/com/example/sinaisvitaisapachepulsar/VitalSigns.java:38-53 | a part assigns only its own field or fields; a failing part leaves the object as it was, except for the systolic value of a half-read pressure part |
| VitalSigns.ReadTemperature | src/main/java/com/example/sinaisvitaisapachepulsar/VitalSigns.java:46-48 | the Temp part touches only the temperature; it goes on exactly when `parseDouble` accepts the text with "°C" removed, and a failing part changes nothing |
| VitalSigns.ReadPressure | src/main/java/com/example/sinaisvitaisapachepulsar/VitalSigns.java:50-52 | a pressure part touches only the two pressure fields, and one that fails keeps the diastolic value |
| VitalSigns.FromMessage | src/main/java/com/example/sinaisvitaisapachepulsar/VitalSigns.java:32-60 | the decoded timestamp is always 0: the wire format carries none |
| VitalSigns.DecodeAppend | src/main/java/com/example/sinaisvitaisapachepulsar/VitalSigns.java:37-58 | decoding two runs of parts is decoding the first, then the second only if the first did not fail |
| VitalSigns.UnknownPartIgnored | src/main/java/com/example/sinaisvitaisapachepulsar/VitalSigns.java:37-53 | a part with none of the six keys can be removed from anywhere in the message without changing the result |
| VitalSigns.DecodeFrame | src/main/java/com/example/sinaisvitaisapachepulsar/VitalSigns.java:37-53 | a field no part assigns keeps its starting value |
| VitalSigns.ApplyPartIgnoresPrior | src/main/java/com/example/sinaisvitaisapachepulsar/VitalSigns.java:38-53 | whether a part parses, and what it stores, does not depend on the fields assigned before it |
| VitalSigns.LastWriteWins | src/main/java/com/example/sinaisvitaisapachepulsar/VitalSigns.java:37-53 | a field's final value is the one the last part assigning it gives, whatever earlier parts said |
| VitalSigns.StopDiscardsRest | src/main/java/com/example/sinaisvitaisapachepulsar/VitalSigns.java:34-58 | once a part fails, no later part has any effect |
| VitalSigns.FailureKeepsEarlierFields | src/main/java/com/example/sinaisvitaisapachepulsar/VitalSigns.java:34-58 | the failing part ends decoding with every field as the earlier parts set it, except a pressure part's systolic value |
| VitalSigns.UnitsStrippedAnywhere | src/main/java/com/example/sinaisvitaisapachepulsar/VitalSigns.java:42-47 | "bpm", "rpm" and "°C" are removed before parsing at every place they occur, however often, between pieces made of digits, signs and '.': "FC=1bpm2bpm3" reads as "FC=123" and "FC=-bpm5" as "FC=-5" |
| VitalSigns.ReadsTemperature | src/main/java/com/example/sinaisvitaisapachepulsar/VitalSigns.java:46-48 | the Temp part as written, with its "°C", stores exactly the temperature |
| VitalSigns.ReadsPressure | src/main/java/com/example/sinaisvitaisapachepulsar/VitalSigns.java:49-52 | "Pressao=a/b" stores a as systolic and b as diastolic |
| VitalSigns.PressureWithoutDiastolic | src/main/java/com/example/sinaisvitaisapachepulsar/VitalSigns.java:49-55 | "Pressao=a" without "/b" fails after storing a as systolic, with the diastolic value untouched |
| VitalSigns.MessageWithoutDiastolic | src/main/java/com/example/sinaisvitaisapachepulsar/VitalSigns.java:32-60 | a message made only of "Pressao=a" decodes to a blank object with systolic a and diastolic 0 |
| VitalSigns.ReadsMessagePart | src/main/java/com/example/sinaisvitaisapachepulsar/VitalSigns.java:38-53 | each part `toMessage` writes is read back into its own field and nothing else |
| VitalSigns.RoundTrip | src/main/java/com/example/sinaisvitaisapachepulsar/VitalSigns.java:26-60 | decoding `toMessage` of a reading with a comma-free id and name restores every field; only the timestamp comes back as 0 |
| VitalSigns.FromJoinedParts | src/main/java/com/example/sinaisvitaisapachepulsar/VitalSigns.java:35-37 | a message of comma-free parts whose last part is not empty is decoded part by part, in order |
| VitalSigns.NameWithCommaIsCut | src/main/java/com/example/sinaisvitaisapachepulsar/VitalSigns.java:35-41 | a comma in the name cuts it there when the piece after the comma starts with none of the six keys: that piece is skipped as an unknown part, and every other field still arrives |
| Alerts.Limits | src/main/java/com/example/sinaisvitaisapachepulsar/HealthMonitoringServer.java:94-98 | each measured field has a range with a positive lower end and at least one whole value strictly inside |
| Alerts.Inside | src/main/java/com/example/sinaisvitaisapachepulsar/HealthMonitoringServer.java:94-98 | a value lies strictly inside its open range exactly when it lies in the closed range one in from each end, as every field is held in whole units or tenths |
| Alerts.Valid | src/main/java/com/example/sinaisvitaisapachepulsar/HealthMonitoringServer.java:92-99 | an accepted reading has every measured field strictly inside its range in the limits table |
| Alerts.ValidIffInsideLimits | src/main/java/com/example/sinaisvitaisapachepulsar/HealthMonitoringServer.java:92-99 | the validator accepts a reading exactly when every measured field lies strictly inside its range: (30,200), (5,50), (32,42) °C, (50,250), (30,150) |
| Alerts.BoundRejected | src/main/java/com/example/sinaisvitaisapachepulsar/HealthMonitoringServer.java:94-98 | a value on either end of its range is rejected, whatever the other fields hold |
| Alerts.Raised | src/main/java/com/example/sinaisvitaisapachepulsar/HealthMonitoringServer.java:105-110 | a test of rank 0 to 5 raises only a condition of its own rank, carrying the reading's own value of the field the condition is about; there is no test past rank 5 |
| Alerts.RaisedBelow | src/main/java/com/example/sinaisvitaisapachepulsar/HealthMonitoringServer.java:104-110 | the conditions raised by the tests below rank n, in strictly increasing rank, each the one its test raises, and none of them left out |
| Alerts.Conditions | src/main/java/com/example/sinaisvitaisapachepulsar/HealthMonitoringServer.java:101-111 | the conditions come in the fixed order SBP, DBP, low HR, high HR, low temp, high temp; every listed condition is one its test raises, and every raised one is listed |
| Alerts.ConditionsIff | src/main/java/com/example/sinaisvitaisapachepulsar/HealthMonitoringServer.java:105-110 | each condition is listed exactly when its strict comparison holds (systolic 140 gives none, 141 does; 35.5 °C and 37.5 °C are not alarming) |
| Alerts.ListedIffRaised | src/main/java/com/example/sinaisvitaisapachepulsar/HealthMonitoringServer.java:101-111 | a condition is in the list exactly when the test of its rank raises that very condition |
| Alerts.OppositesExclusive | src/main/java/com/example/sinaisvitaisapachepulsar/HealthMonitoringServer.java:107-110 | low and high heart rate are never both listed, nor low and high temperature |
| Alerts.NoConditionsIff | src/main/java/com/example/sinaisvitaisapachepulsar/HealthMonitoringServer.java:101-114 | no alert is raised exactly when every value lies within its alert limits |
| Alerts.ConditionText | src/main/java/com/example/sinaisvitaisapachepulsar/HealthMonitoringServer.java:105-110 | each condition's text is not empty and ends with ')' |
| Alerts.ConditionTextInjective | src/main/java/com/example/sinaisvitaisapachepulsar/HealthMonitoringServer.java:105-110 | two conditions with the same text are the same condition: the text gives back both the test that fired and the value it saw |
| Alerts.Summary | src/main/java/com/example/sinaisvitaisapachepulsar/HealthMonitoringServer.java:122 | the alert's condition text is `String.join(", ", …)` of the conditions' texts, in the order found (it is defined through `Text.Join`); it is empty exactly when there are no conditions, and begins with the first condition's text |
| Alerts.SummaryCons | src/main/java/com/example/sinaisvitaisapachepulsar/HealthMonitoringServer.java:122 | with two or more conditions, the text is the first condition's text, then ", ", then the text of the others |
| Alerts.Raise | src/main/java/com/example/sinaisvitaisapachepulsar/HealthMonitoringServer.java:117-125 | the alert is unconfirmed, carries the time given, names the patient by the reading's id and name, and holds the joined condition text |
| Alerts.Confirm | src/main/java/com/example/sinaisvitaisapachepulsar/HealthMonitoringServer.java:179-189 | confirming marks only that alert and keeps it; an unknown id changes nothing; the keys stay the same |
| Alerts.ConfirmIdempotent | src/main/java/com/example/sinaisvitaisapachepulsar/HealthMonitoringServer.java:179-189 | confirming twice is confirming once |
| Alerts.Ignore | src/main/java/com/example/sinaisvitaisapachepulsar/HealthMonitoringServer.java:191-200 | ignoring removes exactly that id and keeps every other entry as it was |
| Alerts.IgnoreUnknown | src/main/java/com/example/sinaisvitaisapachepulsar/HealthMonitoringServer.java:191-200 | ignoring an unknown id leaves the registry unchanged |
| Alerts.Expired | src/main/java/com/example/sinaisvitaisapachepulsar/HealthMonitoringServer.java:222-224 | a confirmed alert goes at the next sweep, and an unconfirmed one once its age exceeds the 300000 ms time-out |
| Alerts.Sweep | src/main/java/com/example/sinaisvitaisapachepulsar/HealthMonitoringServer.java:220-226 | the sweep keeps exactly the entries that are unconfirmed and at most 300000 ms old, untouched |
| Alerts.SweepIdempotent | src/main/java/com/example/sinaisvitaisapachepulsar/HealthMonitoringServer.java:220-226 | a second sweep at the same time removes nothing more |
| Alerts.SweepBoundary | src/main/java/com/example/sinaisvitaisapachepulsar/HealthMonitoringServer.java:14 | the five-minute time-out is strict: an alert exactly 300000 ms old survives, one a millisecond older does not, and a confirmed one never does |
| Alerts.ConfirmThenSweep | src/main/java/com/example/sinaisvitaisapachepulsar/HealthMonitoringServer.java:220-226 | a confirm followed by a sweep acts as an ignore followed by a sweep |
| Commands.ParseCommand | src/main/java/com/example/sinaisvitaisapachepulsar/HealthMonitoringServer.java:159-177 | the prefixes are matched case-insensitively; `resume` and `exit` are recognised exactly when the whole line spells them in any case; every other line is invalid |
| Commands.ConfirmAnyCase | src/main/java/com/example/sinaisvitaisapachepulsar/HealthMonitoringServer.java:161-163 | any spelling of "confirm " followed by a text confirms that text trimmed, in its original case |
| Commands.IgnoreAnyCase | src/main/java/com/example/sinaisvitaisapachepulsar/HealthMonitoringServer.java:164-165 | any spelling of "ignore " followed by a text ignores that text trimmed |
| Commands.IgnoreLine | src/main/java/com/example/sinaisvitaisapachepulsar/HealthMonitoringServer.java:164-165 | a line whose lower-cased form starts with "ignore " ignores the rest of the line as typed, trimmed |
| Commands.BareKeywordRejected | src/main/java/com/example/sinaisvitaisapachepulsar/HealthMonitoringServer.java:153-172 | because the console trims each line, "confirm" or "ignore" in any letter case ("CONFIRM", "Ignore") with no id is an invalid command |
| Server.Process | src/main/java/com/example/sinaisvitaisapachepulsar/HealthMonitoringServer.java:78-131 | an invalid reading changes nothing; a valid one is appended to the history once; an alarming one files its alert and pauses; otherwise the alerts and the flag are unchanged |
| Server.ProcessKeepsOthers | src/main/java/com/example/sinaisvitaisapachepulsar/HealthMonitoringServer.java:117-131 | processing a reading adds at most the stamp's id, only when the reading is alarming, and leaves every other alert as it was |
| Server.ProcessAddsOneAlert | src/main/java/com/example/sinaisvitaisapachepulsar/HealthMonitoringServer.java:117-131 | with a fresh id, an alarming reading adds exactly one unconfirmed alert describing its conditions and keeps every earlier alert |
| Server.Accepted | src/main/java/com/example/sinaisvitaisapachepulsar/HealthMonitoringServer.java:80-83 | what processing a run of messages logs is at most one valid reading per message |
| Server.Deliver | src/main/java/com/example/sinaisvitaisapachepulsar/HealthMonitoringServer.java:67-73 | while paused, a message joins the back of the queue and nothing else changes; otherwise it is processed at once and the queue is untouched |
| Server.Drain | src/main/java/com/example/sinaisvitaisapachepulsar/HealthMonitoringServer.java:212-218 | the drain neither changes the queue field nor stops the server |
| Server.DrainKeepsAlerts | src/main/java/com/example/sinaisvitaisapachepulsar/HealthMonitoringServer.java:212-218 | an alert whose id no drained message's stamp reuses comes through the drain unchanged |
| Server.DrainAlertKeys | src/main/java/com/example/sinaisvitaisapachepulsar/HealthMonitoringServer.java:212-218 | after the drain the registry holds exactly the earlier ids and the ids stamped on alarming drained messages |
| Server.DrainFiles | src/main/java/com/example/sinaisvitaisapachepulsar/HealthMonitoringServer.java:212-218 | with distinct ids, each alarming drained message leaves under its own id the alert `triggerAlert` builds for it |
| Server.DrainLogsAll | src/main/java/com/example/sinaisvitaisapachepulsar/HealthMonitoringServer.java:212-218 | the drain logs every valid queued message, in queue order |
| Server.DrainPausedIff | src/main/java/com/example/sinaisvitaisapachepulsar/HealthMonitoringServer.java:212-218 | after the drain the server is paused exactly when it already was or a drained message was alarming |
| Server.DrainIgnoresRunning | src/main/java/com/example/sinaisvitaisapachepulsar/HealthMonitoringServer.java:212-218 | the drain does not look at the running flag either: it keeps the flag as it finds it |
| Server.DrainIgnoresPause | src/main/java/com/example/sinaisvitaisapachepulsar/HealthMonitoringServer.java:214-215 | a paused flag does not stop the drain: starting it paused changes nothing but the flag |
| Server.Resume | src/main/java/com/example/sinaisvitaisapachepulsar/HealthMonitoringServer.java:202-210 | after a resume the queue is empty, `running` is unchanged, and no expired alert is left |
| Server.ResumeDrainsQueue | src/main/java/com/example/sinaisvitaisapachepulsar/HealthMonitoringServer.java:202-218 | a resume logs every valid queued message in arrival order, and ends paused exactly when one of them was alarming |
| Server.ResumeKeepsLive | src/main/java/com/example/sinaisvitaisapachepulsar/HealthMonitoringServer.java:202-226 | an unexpired alert whose id no drained message reuses is still in the registry after a resume, unchanged |
| Server.ResumeFiles | src/main/java/com/example/sinaisvitaisapachepulsar/HealthMonitoringServer.java:202-226 | with distinct ids, the alert of each alarming queued message that is still inside the time-out at the sweep stays in the registry after the resume |
| Server.ResumeAddsOnlyFiled | src/main/java/com/example/sinaisvitaisapachepulsar/HealthMonitoringServer.java:202-218 | after a resume every alert in the registry was there before or was filed, under its stamp's id, by an alarming drained message |
| Server.ResumeEmptyQueue | src/main/java/com/example/sinaisvitaisapachepulsar/HealthMonitoringServer.java:202-210 | with nothing queued, a resume only clears the flag and sweeps |
| Server.Execute | src/main/java/com/example/sinaisvitaisapachepulsar/HealthMonitoringServer.java:159-177 | confirm and ignore change only the registry, and change it exactly as `Alerts.Confirm` and `Alerts.Ignore` do for the id typed; resume is a resume; exit is a resume, with its flag clearing, drain and sweep, that also stops the server |
| Server.NoOpCommands | src/main/java/com/example/sinaisvitaisapachepulsar/HealthMonitoringServer.java:171-198 | an invalid line, or a confirm or ignore of an unknown id, leaves the whole state unchanged |
| Server.AlertCommands | src/main/java/com/example/sinaisvitaisapachepulsar/HealthMonitoringServer.java:179-200 | confirming an existing alert marks only it; ignoring removes only it; every other alert is kept |
| Server.Step | src/main/java/com/example/sinaisvitaisapachepulsar/HealthMonitoringServer.java:63-76 | once the server has stopped, no event changes its history or queue or restarts it, and its registry can only shrink; a dashboard tick is exactly the time-out sweep of the registry at its time, and changes nothing else |
| Server.Run | src/main/java/com/example/sinaisvitaisapachepulsar/HealthMonitoringServer.java:63-76 | an empty run changes nothing, and a server that starts a run stopped ends it stopped, with its history and queue as they were |
| Server.StepKeepsGate | src/main/java/com/example/sinaisvitaisapachepulsar/HealthMonitoringServer.java:63-76 | no event breaks the gate invariant that messages wait only while the server is paused |
| Server.RunKeepsGate | src/main/java/com/example/sinaisvitaisapachepulsar/HealthMonitoringServer.java:63-76 | the gate invariant holds after any run of events |
| Server.ReceiveConserves | src/main/java/com/example/sinaisvitaisapachepulsar/HealthMonitoringServer.java:67-73 | receiving a message appends its reading, if valid, after everything logged or queued before |
| Server.CommandConserves | src/main/java/com/example/sinaisvitaisapachepulsar/HealthMonitoringServer.java:159-177 | no command loses, duplicates or reorders a logged or queued reading |
| Server.StepConserves | src/main/java/com/example/sinaisvitaisapachepulsar/HealthMonitoringServer.java:63-76 | no event loses, duplicates or reorders a valid reading |
| Server.RunConserves | src/main/java/com/example/sinaisvitaisapachepulsar/HealthMonitoringServer.java:63-76 | over any run, the history followed by the queue's valid readings is the earlier one extended by the valid received readings in arrival order |
| Client.Generate | src/main/java/com/example/sinaisvitaisapachepulsar/HealthMonitoringClient.java:65-99 | the id, name, temperature and time are copied; the heart rate falls outside 60..100 exactly on the abnormal branch, and so does the respiratory rate outside 12..20; the systolic value is always above the diastolic one |
| Client.GeneratedRanges | src/main/java/com/example/sinaisvitaisapachepulsar/HealthMonitoringClient.java:65-99 | heart rate is 40..59, 101..140 or 60..100 by branch; respiratory rate 8..11, 21..30 or 12..20; diastolic 50..100; systolic minus diastolic 30..70, so systolic 80..170; the id and name are copied |
| Client.GeneratedValidIff | src/main/java/com/example/sinaisvitaisapachepulsar/HealthMonitoringClient.java:73-95 | every generated integer field lies strictly inside the server's validation range, so a generated reading is valid exactly when its temperature is |
| Client.NormalHeartRateQuiet | src/main/java/com/example/sinaisvitaisapachepulsar/HealthMonitoringClient.java:73-77 | a reading from the normal branch never raises a heart-rate condition |
| Client.NormalBranchHighPressure | src/main/java/com/example/sinaisvitaisapachepulsar/HealthMonitoringClient.java:94-95 | blood pressure ignores the abnormal flag: draws on the normal branch can raise both High SBP and High DBP |
| Client.Calls | src/main/java/com/example/sinaisvitaisapachepulsar/HealthMonitoringClient.java:70-91 | the calls open with the `nextDouble` of the abnormality test and end with `nextInt(51)` and `nextInt(41)` for the pressure; every `nextInt` bound is positive, so none of them throws |
| Client.BooleansOnlyWhenAbnormal | src/main/java/com/example/sinaisvitaisapachepulsar/HealthMonitoringClient.java:70-91 | `nextBoolean` is called exactly when the reading is abnormal, three times; a reading makes 9 random calls then and 6 otherwise |
| Client.NormalIgnoresBooleans | src/main/java/com/example/sinaisvitaisapachepulsar/HealthMonitoringClient.java:73-84 | the boolean draws play no part in a normal reading |
| Client.GeneratedReachesHistory | src/main/java/com/example/sinaisvitaisapachepulsar/HealthMonitoringClient.java:65-99 | a generated reading with a comma-free id and name and a plausible temperature crosses the wire intact and, on an unpaused server, is logged at once with only its timestamp lost |

The code comments disagree with the ranges the code produces. The comment
gives low respiratory rate as "8-12", but the code yields 8..11. It gives
systolic as "80-140", but the code yields up to 170.
`Client.GeneratedRanges` states the ranges the code yields.

## Left out

- Pulsar I/O is not modelled: connecting, `receive` with its time-out,
  `acknowledge`, sending, reconnecting and shutdown are foreign library calls.
  A received message is just a `string`.
- The blocking wait of `checkPauseState` is not modelled, and this changes
  what the gate does. HealthMonitoringServer.java:65 holds the receive loop
  while `isPaused` is set. Only `processMessage` sets `isPaused`, through
  `pauseSystem`, and it is called only at lines 72 and 215. Line 215 only
  processes what line 70 buffered. So line 70 never runs and
  `pendingMessages` stays empty in the running program. Messages that arrive
  while paused wait in the topic instead. After a resume they are processed
  live, and processing stops again at the first alarming one. After an
  `exit`, one of them can still be processed, as the next line says. The model's
  `Receive` while paused, and `Server.DrainIgnoresPause`, describe lines 67-73
  and 212-218 taken alone. This is a reading of the source, not something
  observed.
- Server.Step: a stopped server ignores every later message, but the
  receive loop does not stop that promptly.
  HealthMonitoringServer.java:64 tests `isRunning` only
  at the top of each pass. An `exit` typed while paused clears `isRunning`
  (line 168) and then calls `resumeSystem`, which wakes `checkPauseState`
  (lines 141-147). Line 67 then receives once more, and line 72 processes a
  message that waited in the topic, after the stop. That message is logged,
  and an alarming one is filed and pauses the server again. The same last
  receive can follow an `exit` typed while the loop waits at line 67. The
  model drops that final message. This is a reading of the source, not
  something observed.
- Threads and locks are not modelled. This covers the `pauseLock` monitor
  and the command-listener thread. It
  also covers the drain thread, which the model runs to completion inside the
  resume, before the sweep and before any later event. The code's races
  between the drain thread, the receive loop and the sweep are therefore not
  modelled.
- The dashboard's scheduling and printing are left out. Its sweep is the
  `Dashboard` event. The executor started at HealthMonitoringServer.java:229
  is never shut down: `shutdown` (lines 255-264) closes only the consumer and
  the client. So `Server.Step` lets a dashboard tick sweep even after `exit`,
  while in the model receives and commands do nothing once the server has
  stopped. Its
  non-daemon thread would also keep the JVM alive after `exit`; this is a
  reading of the source, not something observed.
- Text.RemoveAll: its own contract states only length and characters. Java's
  `replace` is one left-to-right pass, so "bbpmpm" still holds "bpm"
  afterwards. `Text.RemoveAllJoin` and `Text.RemoveAllCutsUnit` state which
  occurrences are removed.
- Text.StartsWith: its own contract states only that a true result means
  the prefix fits and agrees at every position; the converse is its
  definition and is left unstated, to keep the proofs that use it cheap.
- Text.Join: its own contract states only that the first part opens the
  result; `Text.JoinFields` and `Text.SplitJoin` state the separators'
  places through its inverse `split`.
- VitalSigns.ToMessage: its own contract states only the opening key;
  `VitalSigns.MessagePartKeys`, `VitalSigns.ToMessageSplits` and
  `VitalSigns.RoundTrip` state the rest of the format.
- `DataLogger` and `AlertLogger` are not part of this model. The CSV history is
  the `history` sequence, and the alert log is not kept.
- Console output is left out: `toString`, `printf` and every message printed.
- Server.Process: alert ids come in through the `Stamp` parameter and are not
  checked for freshness, because the map `put` overwrites as Java's does.
  `ProcessAddsOneAlert` assumes a fresh id, as a random UUID gives.
- Numbers.ParseTenths: it accepts only plain decimal texts, without an
  exponent, whose value is a whole number of tenths. Examples are "36.6",
  "-0.5", "37" and "36.60d"; `Decimals.ParseTenthsAccepts`,
  `Decimals.ParseTenthsWhole` and `Decimals.ParseTenthsShape` state the
  accepted forms exactly. Every other text
  `Double.parseDouble` accepts counts as a failure: more significant
  decimals, exponents, hexadecimal forms, "NaN" and "Infinity". The
  temperatures `toMessage` writes are always in the accepted form.
- Numbers.TenthsText: it writes `%.1f` with '.' as the decimal separator.
  Under a locale whose separator is ',' the Temp part would be split by
  `fromMessage`; that locale is not modelled. Rounding an arbitrary double to
  one decimal is not modelled either, because the temperature is already in
  tenths.
- Alerts.ConditionText: the temperature is written as `TenthsText`.
  `Double.toString` gives the same digits for every tenth in the validator's
  range, but not for doubles that are not whole tenths.
- Numbers.ParseInt: it accepts only ASCII digits. Java also accepts other
  Unicode decimal digits.
- Text.ToLower: it folds only ASCII letters. Locale-dependent case mapping of
  other characters is not modelled.
- Alerts.Expired: `now - timestamp` is an unbounded integer. Java's `long`
  subtraction could overflow, but only for clocks that are billions of years
  apart.
- Client.Generate: the temperature is a parameter. Its three `nextDouble`
  formulas produce doubles, and double arithmetic is not modelled; the calls
  themselves still appear in `Calls`. The generation loop, the send interval
  and reading the client's name from the console are left out.

