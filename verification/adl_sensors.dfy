/** The reading half of the AMD (ADL) backend: the overdrive-version-gated
    fallback chain of `GetSensorValue`, the driver calls it issues, and a
    data-driven reference for that chain ("try the enabled queries in
    priority order, the first one that yields a value wins"). */
module AdlSensors {
  import opened Common
  import AdlAdapters

  /** Index into the PMLog sensor array for load, temperature, power. */
  const PmLogSensorMap: seq<int> := [19, 8, 30]
  /** OverdriveN sensor type for load (none), temperature, power. */
  const OdnSensorMap: seq<int> := [-1, 1, 0]
  /** Size of the PMLog sensor array in the driver's record layout. */
  const PmLogMaxSensors: nat := 256

  /** Overdrive version from which the unified PMLog query is used. */
  const PmLogVersion: int := 8

  datatype SensorData = SensorData(supported: bool, value: int)
  datatype PmLogReply = PmLogReply(status: int, sensors: seq<SensorData>)
  /** Status and the one output field the backend reads. */
  datatype Reply = Reply(status: int, value: int)

  /** The ADL entry points `GetSensorValue` may call, as functions of their
      arguments: adapter index first, then the sensor/controller/power type. */
  datatype AdlDriver = AdlDriver(
    pmLog: int -> PmLogReply,
    odnTemperature: (int, int) -> Reply,
    od5Temperature: (int, int) -> Reply,
    od6Power: (int, int) -> Reply,
    od5Activity: int -> Reply)

  /** A driver call as issued, with the arguments that select what it reads.
      For the PMLog query `entry` is the sensor-array index read back. */
  datatype AdlCall =
    | PmLogQuery(adapter: int, entry: int)
    | OdnTemperatureQuery(adapter: int, temperatureType: int)
    | Od5TemperatureQuery(adapter: int, controller: int)
    | Od6PowerQuery(adapter: int, powerType: int)
    | Od5ActivityQuery(adapter: int)

  predicate IsLegacy(c: AdlCall)
  {
    !c.PmLogQuery?
  }

  /** The value read and the driver calls issued, in order. */
  datatype Answer = Answer(value: Option<real>, calls: seq<AdlCall>)

  /** What one call yields: a reading, or nothing. Temperatures are in
      millidegrees (x 0.001), activity in percent (x 1/100), overdrive-6 power
      in 1/255 units; the PMLog value is returned unscaled. */
  function Outcome(driver: AdlDriver, call: AdlCall): (r: Option<real>)
    ensures call.PmLogQuery? ==>
              var reply := driver.pmLog(call.adapter);
              && (r.Some? <==> reply.status >= 0 && 0 <= call.entry < |reply.sensors| && reply.sensors[call.entry].supported)
              && (r.Some? ==> r.value == reply.sensors[call.entry].value as real)
    ensures call.OdnTemperatureQuery? ==>
              var reply := driver.odnTemperature(call.adapter, call.temperatureType);
              && (r.Some? <==> reply.status == 0) && (r.Some? ==> r.value * 1000.0 == reply.value as real)
    ensures call.Od5TemperatureQuery? ==>
              var reply := driver.od5Temperature(call.adapter, call.controller);
              && (r.Some? <==> reply.status == 0) && (r.Some? ==> r.value * 1000.0 == reply.value as real)
    ensures call.Od6PowerQuery? ==>
              var reply := driver.od6Power(call.adapter, call.powerType);
              && (r.Some? <==> reply.status == 0) && (r.Some? ==> r.value * 255.0 == reply.value as real)
    ensures call.Od5ActivityQuery? ==>
              var reply := driver.od5Activity(call.adapter);
              && (r.Some? <==> reply.status == 0) && (r.Some? ==> r.value * 100.0 == reply.value as real)
  {
    match call
    case PmLogQuery(a, i) =>
      var reply := driver.pmLog(a);
      if reply.status < 0 || !(0 <= i < |reply.sensors|) || !reply.sensors[i].supported then None
      else Some(reply.sensors[i].value as real)
    case OdnTemperatureQuery(a, ty) =>
      var reply := driver.odnTemperature(a, ty);
      if reply.status == 0 then Some(reply.value as real / 1000.0) else None
    case Od5TemperatureQuery(a, c) =>
      var reply := driver.od5Temperature(a, c);
      if reply.status == 0 then Some(reply.value as real / 1000.0) else None
    case Od6PowerQuery(a, ty) =>
      var reply := driver.od6Power(a, ty);
      if reply.status == 0 then Some(reply.value as real / 255.0) else None
    case Od5ActivityQuery(a) =>
      var reply := driver.od5Activity(a);
      if reply.status == 0 then Some(reply.value as real / 100.0) else None
  }

  /** The body of `GetSensorValue` once the overdrive version is known, as
      nested conditionals. `pmLogAdapter` is the adapter index given to the
      PMLog query, `legacyAdapter` the one given to the older queries, and
      `odnTemperatureType` the temperature type given to the OverdriveN
      query. */
  function Query(overdrive: int, pmLogAdapter: int, legacyAdapter: int, odnTemperatureType: int,
                 t: SensorType, driver: AdlDriver): (r: Answer)
    ensures |r.calls| <= 2
    ensures r.value.Some? ==> |r.calls| > 0 && r.value == Outcome(driver, r.calls[|r.calls| - 1])
    ensures forall k :: 0 <= k < |r.calls| - 1 ==> Outcome(driver, r.calls[k]).None?
  {
    if overdrive >= PmLogVersion then
      var call := PmLogQuery(pmLogAdapter, PmLogSensorMap[Ordinal(t)]);
      Answer(Outcome(driver, call), [call])
    else
      match t
      case GfxLoad =>
        if overdrive >= 5 then
          var call := Od5ActivityQuery(legacyAdapter);
          Answer(Outcome(driver, call), [call])
        else Answer(None, [])
      case GfxTemperature =>
        var od5 := Od5TemperatureQuery(legacyAdapter, 0);
        if overdrive >= 7 then
          var odn := OdnTemperatureQuery(legacyAdapter, odnTemperatureType);
          if Outcome(driver, odn).Some? then Answer(Outcome(driver, odn), [odn])
          else Answer(Outcome(driver, od5), [odn, od5])
        else Answer(Outcome(driver, od5), [od5])
      case GfxPower =>
        if overdrive >= 6 then
          var call := Od6PowerQuery(legacyAdapter, OdnSensorMap[Ordinal(GfxPower)]);
          Answer(Outcome(driver, call), [call])
        else Answer(None, [])
  }

  // ---------------------------------------------------------------------
  // Reference: an ordered list of enabled queries, first success wins

  /** The queries enabled for a sensor type at an overdrive version, in
      priority order. */
  function Plan(overdrive: int, pmLogAdapter: int, legacyAdapter: int, odnTemperatureType: int,
                t: SensorType): seq<AdlCall>
  {
    if overdrive >= PmLogVersion then [PmLogQuery(pmLogAdapter, PmLogSensorMap[Ordinal(t)])]
    else
      var candidates := [
        (t == GfxLoad && overdrive >= 5, Od5ActivityQuery(legacyAdapter)),
        (t == GfxTemperature && overdrive >= 7, OdnTemperatureQuery(legacyAdapter, odnTemperatureType)),
        (t == GfxTemperature, Od5TemperatureQuery(legacyAdapter, 0)),
        (t == GfxPower && overdrive >= 6, Od6PowerQuery(legacyAdapter, OdnSensorMap[Ordinal(GfxPower)]))];
      Enabled(candidates)
  }

  function Enabled(candidates: seq<(bool, AdlCall)>): (r: seq<AdlCall>)
    ensures forall c :: c in r ==> (true, c) in candidates
  {
    if |candidates| == 0 then []
    else (if candidates[0].0 then [candidates[0].1] else []) + Enabled(candidates[1..])
  }

  function Pick(c: (bool, AdlCall)): seq<AdlCall>
  {
    if c.0 then [c.1] else []
  }

  lemma EnabledFour(a: (bool, AdlCall), b: (bool, AdlCall), c: (bool, AdlCall), d: (bool, AdlCall))
    ensures Enabled([a, b, c, d]) == Pick(a) + Pick(b) + Pick(c) + Pick(d)
  {
    assert [a, b, c, d][1..] == [b, c, d] && [b, c, d][1..] == [c, d] && [c, d][1..] == [d] && [d][1..] == [];
    assert Enabled([d]) == Pick(d) + Enabled([]);
    assert Enabled([c, d]) == Pick(c) + Enabled([d]);
    assert Enabled([b, c, d]) == Pick(b) + Enabled([c, d]);
    assert Enabled([a, b, c, d]) == Pick(a) + Enabled([b, c, d]);
  }

  /** Issue the planned calls in order until one yields a value. */
  function FirstSuccess(driver: AdlDriver, plan: seq<AdlCall>): (r: Answer)
    ensures |r.calls| <= |plan| && r.calls == plan[..|r.calls|]
    ensures forall k :: 0 <= k < |r.calls| - 1 ==> Outcome(driver, r.calls[k]).None?
    ensures r.value.Some? ==> |r.calls| > 0 && r.value == Outcome(driver, r.calls[|r.calls| - 1])
    ensures r.value.None? ==> r.calls == plan && forall c :: c in plan ==> Outcome(driver, c).None?
  {
    if |plan| == 0 then Answer(None, [])
    else
      match Outcome(driver, plan[0])
      case Some(v) => Answer(Some(v), [plan[0]])
      case None =>
        var rest := FirstSuccess(driver, plan[1..]);
        assert plan == [plan[0]] + plan[1..];
        Answer(rest.value, [plan[0]] + rest.calls)
  }

  lemma FirstSuccessOne(driver: AdlDriver, c: AdlCall)
    ensures FirstSuccess(driver, [c]) == Answer(Outcome(driver, c), [c])
  {
    assert [c][1..] == [];
  }

  lemma FirstSuccessTwo(driver: AdlDriver, c: AdlCall, d: AdlCall)
    ensures FirstSuccess(driver, [c, d]) ==
            if Outcome(driver, c).Some? then Answer(Outcome(driver, c), [c])
            else Answer(Outcome(driver, d), [c, d])
  {
    assert [c, d][1..] == [d];
    FirstSuccessOne(driver, d);
  }

  /** Below overdrive 8 the plan for each sensor type is its gated legacy
      queries in source order. */
  lemma LegacyPlan(overdrive: int, pmLogAdapter: int, legacyAdapter: int, odnTemperatureType: int, t: SensorType)
    requires overdrive < PmLogVersion
    ensures Plan(overdrive, pmLogAdapter, legacyAdapter, odnTemperatureType, t) ==
            match t
            case GfxLoad => if overdrive >= 5 then [Od5ActivityQuery(legacyAdapter)] else []
            case GfxTemperature =>
              if overdrive >= 7 then [OdnTemperatureQuery(legacyAdapter, odnTemperatureType), Od5TemperatureQuery(legacyAdapter, 0)]
              else [Od5TemperatureQuery(legacyAdapter, 0)]
            case GfxPower => if overdrive >= 6 then [Od6PowerQuery(legacyAdapter, 0)] else []
  {
    EnabledFour((t == GfxLoad && overdrive >= 5, Od5ActivityQuery(legacyAdapter)),
                (t == GfxTemperature && overdrive >= 7, OdnTemperatureQuery(legacyAdapter, odnTemperatureType)),
                (t == GfxTemperature, Od5TemperatureQuery(legacyAdapter, 0)),
                (t == GfxPower && overdrive >= 6, Od6PowerQuery(legacyAdapter, OdnSensorMap[Ordinal(GfxPower)])));
  }

  /** The nested conditionals of the source are exactly the data-driven
      policy: same reading, same calls in the same order. */
  lemma QueryIsFirstSuccess(overdrive: int, pmLogAdapter: int, legacyAdapter: int, odnTemperatureType: int,
                            t: SensorType, driver: AdlDriver)
    ensures Query(overdrive, pmLogAdapter, legacyAdapter, odnTemperatureType, t, driver) ==
            FirstSuccess(driver, Plan(overdrive, pmLogAdapter, legacyAdapter, odnTemperatureType, t))
  {
    if overdrive >= PmLogVersion {
      FirstSuccessOne(driver, PmLogQuery(pmLogAdapter, PmLogSensorMap[Ordinal(t)]));
    } else {
      LegacyPlan(overdrive, pmLogAdapter, legacyAdapter, odnTemperatureType, t);
      match t
      case GfxLoad =>
        FirstSuccessOne(driver, Od5ActivityQuery(legacyAdapter));
      case GfxTemperature =>
        FirstSuccessOne(driver, Od5TemperatureQuery(legacyAdapter, 0));
        FirstSuccessTwo(driver, OdnTemperatureQuery(legacyAdapter, odnTemperatureType), Od5TemperatureQuery(legacyAdapter, 0));
      case GfxPower =>
        FirstSuccessOne(driver, Od6PowerQuery(legacyAdapter, 0));
    }
  }

  // ---------------------------------------------------------------------
  // Properties of the chain

  /** From overdrive 8 on, only the PMLog query is issued, so the answer does
      not depend on the legacy entry points at all, even when they would
      succeed. The reading is the unscaled sensor value, absent when the
      call fails, the index is out of range or the sensor is unsupported. */
  lemma PmLogTakesPrecedence(overdrive: int, pmLogAdapter: int, legacyAdapter: int, odnTemperatureType: int,
                             t: SensorType, driver: AdlDriver, other: AdlDriver)
    requires overdrive >= PmLogVersion
    requires other.pmLog == driver.pmLog
    ensures var r := Query(overdrive, pmLogAdapter, legacyAdapter, odnTemperatureType, t, driver);
            && r == Query(overdrive, pmLogAdapter, legacyAdapter, odnTemperatureType, t, other)
            && (forall c :: c in r.calls ==> !IsLegacy(c))
            && var reply := driver.pmLog(pmLogAdapter);
            && var i := PmLogSensorMap[Ordinal(t)];
            && (r.value.Some? <==> reply.status >= 0 && i < |reply.sensors| && reply.sensors[i].supported)
            && (r.value.Some? ==> r.value.value == reply.sensors[i].value as real)
  {
  }

  /** With the driver's fixed 256-entry PMLog array, the index check never
      fails: every mapped index is in range, so the PMLog reading is present
      exactly when the call succeeds and the sensor is supported. */
  lemma PmLogIndexInRange(driver: AdlDriver, adapter: int, t: SensorType)
    requires |driver.pmLog(adapter).sensors| == PmLogMaxSensors
    ensures 0 <= PmLogSensorMap[Ordinal(t)] < PmLogMaxSensors
    ensures var reply := driver.pmLog(adapter);
            var i := PmLogSensorMap[Ordinal(t)];
            Outcome(driver, PmLogQuery(adapter, i)).Some? <==> reply.status >= 0 && reply.sensors[i].supported
  {
  }

  /** Below overdrive 8, load comes only from the overdrive-5 activity query,
      which is gated on version 5; the value is the activity percentage over
      100. */
  lemma LegacyLoad(overdrive: int, pmLogAdapter: int, legacyAdapter: int, odnTemperatureType: int, driver: AdlDriver)
    requires overdrive < PmLogVersion
    ensures var r := Query(overdrive, pmLogAdapter, legacyAdapter, odnTemperatureType, GfxLoad, driver);
            var reply := driver.od5Activity(legacyAdapter);
            && (r.value.Some? <==> overdrive >= 5 && reply.status == 0)
            && (r.value.Some? ==> r.value.value * 100.0 == reply.value as real)
  {
  }

  /** Below overdrive 8, temperature first tries OverdriveN (from version 7),
      then overdrive-5 with thermal controller 0 whatever the version; both in
      millidegrees. */
  lemma LegacyTemperature(overdrive: int, pmLogAdapter: int, legacyAdapter: int, odnTemperatureType: int,
                          driver: AdlDriver)
    requires overdrive < PmLogVersion
    ensures var r := Query(overdrive, pmLogAdapter, legacyAdapter, odnTemperatureType, GfxTemperature, driver);
            var odn := driver.odnTemperature(legacyAdapter, odnTemperatureType);
            var od5 := driver.od5Temperature(legacyAdapter, 0);
            && (r.value.Some? <==> (overdrive >= 7 && odn.status == 0) || od5.status == 0)
            && (overdrive >= 7 && odn.status == 0 ==> r.value == Some(odn.value as real / 1000.0))
            && (!(overdrive >= 7 && odn.status == 0) && od5.status == 0 ==> r.value == Some(od5.value as real / 1000.0))
            && (OdnTemperatureQuery(legacyAdapter, odnTemperatureType) in r.calls <==> overdrive >= 7)
  {
  }

  /** Below overdrive 8, power needs version 6 and a successful overdrive-6
      query with power type 0; the raw value is scaled by 1/255. */
  lemma LegacyPower(overdrive: int, pmLogAdapter: int, legacyAdapter: int, odnTemperatureType: int, driver: AdlDriver)
    requires overdrive < PmLogVersion
    ensures var r := Query(overdrive, pmLogAdapter, legacyAdapter, odnTemperatureType, GfxPower, driver);
            var reply := driver.od6Power(legacyAdapter, 0);
            && (r.value.Some? <==> overdrive >= 6 && reply.status == 0)
            && (r.value.Some? ==> r.value.value * 255.0 == reply.value as real)
            && (forall c :: c in r.calls ==> c == Od6PowerQuery(legacyAdapter, 0))
  {
  }

  // ---------------------------------------------------------------------
  // GetSensorValue on the backend's state

  /** `GetSensorValue` as the source writes it: the PMLog query addresses
      the kept adapter's ADL index, but the legacy queries receive the
      position in the kept list, and the OverdriveN temperature type is
      looked up in the PMLog table. The source indexes the overdrive list,
      so the position must be in range. */
  function GetSensorValueAsWritten(svc: AdlAdapters.AdlService, driver: AdlDriver, deviceIndex: int,
                                   t: SensorType): (r: Answer)
    requires AdlAdapters.Valid(svc) && 0 <= deviceIndex < |svc.overdrive|
    ensures forall c :: c in r.calls ==> c.adapter == (if svc.overdrive[deviceIndex] >= PmLogVersion
                                                       then svc.adapters.value[deviceIndex].adapterIndex
                                                       else deviceIndex)
    ensures forall c :: c in r.calls && c.OdnTemperatureQuery? ==> c.temperatureType == 8
  {
    Query(svc.overdrive[deviceIndex], svc.adapters.value[deviceIndex].adapterIndex, deviceIndex,
          PmLogSensorMap[Ordinal(GfxTemperature)], t, driver)
  }

  /** `GetSensorValue` with every query addressed to the kept adapter's ADL
      index and the OverdriveN temperature type taken from the OverdriveN
      table. */
  function GetSensorValue(svc: AdlAdapters.AdlService, driver: AdlDriver, deviceIndex: int,
                          t: SensorType): (r: Answer)
    requires AdlAdapters.Valid(svc) && 0 <= deviceIndex < |svc.overdrive|
    ensures forall c :: c in r.calls ==> c.adapter == svc.adapters.value[deviceIndex].adapterIndex
    ensures forall c :: c in r.calls && c.OdnTemperatureQuery? ==> c.temperatureType == OdnSensorMap[Ordinal(GfxTemperature)]
  {
    Query(svc.overdrive[deviceIndex], svc.adapters.value[deviceIndex].adapterIndex,
          svc.adapters.value[deviceIndex].adapterIndex, OdnSensorMap[Ordinal(GfxTemperature)], t, driver)
  }

  /** The two agree whenever the kept adapter's ADL index equals its position
      and the OverdriveN temperature query is not reached. */
  lemma AsWrittenAgreesWhenIndicesCoincide(svc: AdlAdapters.AdlService, driver: AdlDriver, deviceIndex: int,
                                          t: SensorType)
    requires AdlAdapters.Valid(svc) && 0 <= deviceIndex < |svc.overdrive|
    requires svc.adapters.value[deviceIndex].adapterIndex == deviceIndex
    requires t == GfxTemperature ==> !(7 <= svc.overdrive[deviceIndex] < PmLogVersion)
    ensures GetSensorValueAsWritten(svc, driver, deviceIndex, t) == GetSensorValue(svc, driver, deviceIndex, t)
  {
  }

  /** Two AMD GPUs each exposing two ADL adapters (0,1 and 2,3): after the
      dedup the second GPU sits at position 1 with ADL index 2. Its load
      query, as written, asks adapter 1 (the first GPU's second output) and
      reports the first GPU's activity. */
  lemma LegacyIndexCounterexample()
    ensures var gpu0 := AdlAdapters.AdapterInfo(0, "PCI_VEN_1002", 1, 0, 0, AdlAdapters.AtiVendorId);
            var gpu1 := AdlAdapters.AdapterInfo(2, "PCI_VEN_1002", 2, 0, 0, AdlAdapters.AtiVendorId);
            var svc := AdlAdapters.AdlService(Some([gpu0, gpu1]), [5, 5], 0);
            var driver := AdlDriver(
              _ => PmLogReply(-1, []), (_, _) => Reply(-1, 0), (_, _) => Reply(-1, 0), (_, _) => Reply(-1, 0),
              a => if a <= 1 then Reply(0, 90) else Reply(0, 10));
            && AdlAdapters.Valid(svc)
            && GetSensorValueAsWritten(svc, driver, 1, GfxLoad) == Answer(Some(0.9), [Od5ActivityQuery(1)])
            && GetSensorValue(svc, driver, 1, GfxLoad) == Answer(Some(0.1), [Od5ActivityQuery(2)])
  {
  }

  /** At overdrive 7 the temperature query, as written, passes type 8 (the
      PMLog index of temperature) to OverdriveN, whose core-temperature type
      is 1 (the OverdriveN table's entry for temperature). */
  lemma OdnTemperatureTypeCounterexample(svc: AdlAdapters.AdlService, driver: AdlDriver, deviceIndex: int)
    requires AdlAdapters.Valid(svc) && 0 <= deviceIndex < |svc.overdrive|
    requires svc.overdrive[deviceIndex] == 7
    ensures GetSensorValueAsWritten(svc, driver, deviceIndex, GfxTemperature).calls[0] ==
            OdnTemperatureQuery(deviceIndex, 8)
    ensures GetSensorValue(svc, driver, deviceIndex, GfxTemperature).calls[0] ==
            OdnTemperatureQuery(svc.adapters.value[deviceIndex].adapterIndex, 1)
  {
  }
}
