/** The NVIDIA-legacy (NVAPI) backend: entry-point resolution, the GPU-handle
    list built from the regular and the TCC enumeration, the subscription
    counter, PCI bus-id strings, and `GetSensorValue`. */
module NvApi {
  import opened Common
  import Hex
  import Subscriptions

  /** Capacity of the handle arrays the enumeration calls fill. */
  const MaxPhysicalGpus: nat := 64
  /** `NvThermalTarget.GPU` and `NvThermalTarget.ALL`. */
  const ThermalTargetGpu: int := 1
  const ThermalTargetAll: int := 15

  /** `GetNvAPIDelegate`: an interface id whose resolved pointer is zero
      becomes a null delegate. */
  function Resolve<F>(pointer: int, behaviour: F): (e: Entry<F>)
    ensures e.Missing? <==> pointer == 0
    ensures e.Present? ==> e.call == behaviour
  {
    if pointer != 0 then Present(behaviour) else Missing
  }

  // ---------------------------------------------------------------------
  // Handle enumeration

  /** What an enumeration call reports: a status, the filled handle array
      (a zero handle is invalid) and the number of GPUs. */
  datatype EnumReply = EnumReply(status: int, handles: seq<int>, count: int)

  /** Position i survives the filter: it is below the reported count and
      its handle is valid. */
  predicate Kept(handles: seq<int>, count: int, i: int)
  {
    0 <= i < |handles| && i < count && handles[i] != 0
  }

  /** How many positions below i survive the filter. */
  function KeptBefore(handles: seq<int>, count: int, i: nat): nat
    requires i <= |handles|
  {
    if i == 0 then 0 else KeptBefore(handles, count, i - 1) + (if Kept(handles, count, i - 1) then 1 else 0)
  }

  /** Surviving positions are numbered consecutively from 0, in order. */
  lemma {:induction false} KeptBeforeStrictlyIncreases(handles: seq<int>, count: int, i: nat, j: nat)
    requires i < j <= |handles| && Kept(handles, count, i)
    ensures KeptBefore(handles, count, i) < KeptBefore(handles, count, j)
    decreases j
  {
    if j > i + 1 {
      KeptBeforeStrictlyIncreases(handles, count, i, j - 1);
    }
  }

  /** Counting on a prefix agrees with counting on the whole array. */
  lemma {:induction false} KeptBeforePrefix(handles: seq<int>, count: int, m: nat, i: nat)
    requires i <= m <= |handles|
    ensures KeptBefore(handles[..m], count, i) == KeptBefore(handles, count, i)
    decreases i
  {
    if i > 0 {
      KeptBeforePrefix(handles, count, m, i - 1);
      assert handles[..m][i - 1] == handles[i - 1];
    }
  }

  /** `handles.Where((h, i) => i < count && h.IsValid)`: the surviving
      handles in array order, duplicates included. The k-th surviving
      position lands at index k of the result, and nothing else is in it. */
  function ValidHandles(handles: seq<int>, count: int): (r: seq<int>)
    ensures |r| == KeptBefore(handles, count, |handles|)
    ensures forall i :: Kept(handles, count, i) ==>
              KeptBefore(handles, count, i) < |r| && r[KeptBefore(handles, count, i)] == handles[i]
    ensures forall x :: x in r ==> x != 0
    ensures forall x :: x in r <==> exists i :: 0 <= i < |handles| && i < count && handles[i] == x && x != 0
  {
    if |handles| == 0 then []
    else
      var last := |handles| - 1;
      var init := ValidHandles(handles[..last], count);
      assert forall i :: 0 <= i < last ==> handles[..last][i] == handles[i];
      var r := init + (if last < count && handles[last] != 0 then [handles[last]] else []);
      KeptBeforePrefix(handles, count, last, last);
      forall i | Kept(handles, count, i)
        ensures KeptBefore(handles, count, i) < |r| && r[KeptBefore(handles, count, i)] == handles[i]
      {
        if i < last {
          assert Kept(handles[..last], count, i);
          KeptBeforePrefix(handles, count, last, i);
        }
      }
      r
  }

  /** With four GPUs reported, a zero handle is dropped and a repeated one
      is kept in place; with three, the last handle is not read. */
  lemma ValidHandlesExample()
    ensures ValidHandles([5, 0, 7, 5], 4) == [5, 7, 5]
    ensures ValidHandles([5, 0, 7, 5], 3) == [5, 7]
  {
    var h := [5, 0, 7, 5];
    assert h[..3] == [5, 0, 7] && h[..3][..2] == [5, 0] && h[..3][..2][..1] == [5] && h[..3][..2][..1][..0] == [];
  }

  /** The handles one enumeration step contributes: none when its call fails. */
  function Contribution(reply: EnumReply): (r: seq<int>)
    ensures reply.status != 0 ==> r == []
    ensures reply.status == 0 ==> r == ValidHandles(reply.handles, reply.count)
  {
    if reply.status == 0 then ValidHandles(reply.handles, reply.count) else []
  }

  datatype NvService = NvService(handles: seq<int>, subscriptions: int)

  datatype NvInit = NvReady(service: NvService) | NullEntryPoint

  /** The constructor after resolution: initialise, then append the regular
      GPUs, then the TCC GPUs. The three calls are made without a null check,
      so a missing one of them fails construction. */
  function Initialize(initialize: Entry<int>, regular: Entry<EnumReply>, tcc: Entry<EnumReply>): (r: NvInit)
    ensures r.NullEntryPoint? <==> initialize.Missing? || regular.Missing? || tcc.Missing?
    ensures r.NvReady? ==> r.service.subscriptions == 0
    ensures r.NvReady? ==> forall h :: h in r.service.handles ==> h != 0
    ensures r.NvReady? ==> forall h :: h in r.service.handles <==>
              (regular.call.status == 0 && h in ValidHandles(regular.call.handles, regular.call.count)) ||
              (tcc.call.status == 0 && h in ValidHandles(tcc.call.handles, tcc.call.count))
    ensures r.NvReady? ==> |r.service.handles| >= |Contribution(regular.call)|
    ensures r.NvReady? ==> r.service.handles[..|Contribution(regular.call)|] == Contribution(regular.call)
    ensures r.NvReady? ==> |r.service.handles| == |Contribution(regular.call)| + |Contribution(tcc.call)|
    ensures r.NvReady? ==> r.service.handles[|Contribution(regular.call)|..] == Contribution(tcc.call)
  {
    if initialize.Missing? || regular.Missing? || tcc.Missing? then NullEntryPoint
    else
      var handles := Contribution(regular.call) + Contribution(tcc.call);
      assert handles[..|Contribution(regular.call)|] == Contribution(regular.call);
      assert handles[|Contribution(regular.call)|..] == Contribution(tcc.call);
      NvReady(NvService(handles, 0))
  }

  /** `SubscribeDevice`, bounded by the number of GPU handles. */
  function SubscribeDevice(svc: NvService): (r: (int, NvService))
    requires Subscriptions.Valid(svc.subscriptions, |svc.handles|)
    ensures Subscriptions.Valid(r.1.subscriptions, |svc.handles|)
    ensures r.1.handles == svc.handles
    ensures r.0 != Subscriptions.NoCapacity <==> svc.subscriptions < |svc.handles|
    ensures r.0 != Subscriptions.NoCapacity ==> r.0 == svc.subscriptions && r.1.subscriptions == r.0 + 1
    ensures r.0 == Subscriptions.NoCapacity ==> r.1 == svc
  {
    var reply := Subscriptions.Subscribe(svc.subscriptions, |svc.handles|);
    (reply.handle, svc.(subscriptions := reply.count))
  }

  /** `UnsubscribeDevice`: the counter never goes below zero. */
  function UnsubscribeDevice(svc: NvService): (r: NvService)
    requires Subscriptions.Valid(svc.subscriptions, |svc.handles|)
    ensures Subscriptions.Valid(r.subscriptions, |svc.handles|)
    ensures r.handles == svc.handles
    ensures svc.subscriptions > 0 ==> r.subscriptions == svc.subscriptions - 1
    ensures svc.subscriptions == 0 ==> r == svc
  {
    svc.(subscriptions := Subscriptions.Unsubscribe(svc.subscriptions))
  }

  // ---------------------------------------------------------------------
  // PCI bus id

  const BusIdPrefix: string := "0000:"
  const BusIdSuffix: string := ":00.0"

  /** The field between the fixed prefix and suffix of a bus-id string. */
  function MiddleField(s: string): string
    requires |s| >= |BusIdPrefix| + |BusIdSuffix|
  {
    s[|BusIdPrefix|..|s| - |BusIdSuffix|]
  }

  /** `"0000:" + busId.ToString("X2") + ":00.0"`: the middle field is the
      bus id in upper-case hex, zero-padded to two digits and no wider than
      needed. */
  function FormatPciBusId(busId: nat): (s: string)
    ensures |s| >= |BusIdPrefix| + 2 + |BusIdSuffix|
    ensures s[..|BusIdPrefix|] == BusIdPrefix && s[|s| - |BusIdSuffix|..] == BusIdSuffix
    ensures var m := MiddleField(s);
            && |m| == (if |Hex.Digits(busId)| < 2 then 2 else |Hex.Digits(busId)|)
            && (forall k :: 0 <= k < |m| ==> Hex.IsUpperHexDigit(m[k]))
            && Hex.AllHex(m) && Hex.Value(m) == busId
  {
    var s := BusIdPrefix + Hex.Format(busId, 2) + BusIdSuffix;
    assert MiddleField(s) == Hex.Format(busId, 2);
    s
  }

  /** Reads a bus id back out of a "0000:XX:00.0" string. */
  function ParsePciBusId(s: string): Option<nat>
  {
    if |s| < |BusIdPrefix| + |BusIdSuffix| + 1 then None
    else if s[..|BusIdPrefix|] != BusIdPrefix || s[|s| - |BusIdSuffix|..] != BusIdSuffix then None
    else
      var middle := MiddleField(s);
      if Hex.AllHex(middle) then Some(Hex.Value(middle)) else None
  }

  /** The bus-id string carries the bus id, readable back from its middle
      field; that field is upper-case hex, exactly two digits for a bus id
      below 256 and the unpadded digits above. */
  lemma PciBusIdRoundTrip(busId: nat)
    ensures ParsePciBusId(FormatPciBusId(busId)) == Some(busId)
    ensures var m := MiddleField(FormatPciBusId(busId));
            && (busId < 256 ==> |m| == 2)
            && (busId >= 256 ==> m == Hex.Digits(busId))
            && forall k :: 0 <= k < |m| ==> Hex.IsUpperHexDigit(m[k])
  {
    var s := FormatPciBusId(busId);
    assert MiddleField(s) == Hex.Format(busId, 2);
    if busId < 256 {
      assert |Hex.Digits(busId)| <= 2 by {
        if busId >= 16 {
          assert |Hex.Digits(busId / 16)| == 1;
        }
      }
    } else {
      assert |Hex.Digits(busId)| >= 2;
    }
  }

  /** `GetPciBusId`: null past the last handle; otherwise the formatted bus
      id the driver reports for that handle. The list indexer rejects a
      negative index, and the bus-id delegate is invoked without a null
      check. */
  function GetPciBusId(svc: NvService, busId: Entry<int -> nat>, deviceIndex: int): (r: Option<string>)
    requires deviceIndex >= 0
    requires deviceIndex < |svc.handles| ==> busId.Present?
    ensures r.None? <==> deviceIndex >= |svc.handles|
    ensures r.Some? ==> ParsePciBusId(r.value) == Some(busId.call(svc.handles[deviceIndex]))
    ensures r.Some? ==> r.value == FormatPciBusId(busId.call(svc.handles[deviceIndex]))
  {
    if deviceIndex >= |svc.handles| then None
    else
      PciBusIdRoundTrip(busId.call(svc.handles[deviceIndex]));
      Some(FormatPciBusId(busId.call(svc.handles[deviceIndex])))
  }

  // ---------------------------------------------------------------------
  // Sensor values

  /** Utilisation domain 0 (the GPU domain) of a dynamic p-states reply. */
  datatype PstatesReply = PstatesReply(status: int, gpuPresent: bool, gpuPercentage: int)

  datatype NvSensor = NvSensor(controller: int, defaultMinTemp: nat, defaultMaxTemp: nat, currentTemp: nat, target: int)
  datatype ThermalReply = ThermalReply(status: int, sensors: seq<NvSensor>)

  /** The entry points `GetSensorValue` may call, each possibly null. */
  datatype NvDriver = NvDriver(
    pstatesEx: Entry<int -> PstatesReply>,
    pstates: Entry<int -> PstatesReply>,
    thermal: Entry<(int, int) -> ThermalReply>)

  datatype NvCall = PstatesExQuery(handle: int) | PstatesQuery(handle: int) | ThermalQuery(handle: int, sensorIndex: int)

  datatype NvAnswer = NvAnswer(value: real, calls: seq<NvCall>)

  /** `Array.Find(sensors, s => s.Target == GPU)`: the first GPU-targeted
      entry, or none. */
  function FindGpuSensor(sensors: seq<NvSensor>): (r: Option<nat>)
    ensures r.Some? ==> r.value < |sensors| && sensors[r.value].target == ThermalTargetGpu
    ensures r.Some? ==> forall j :: 0 <= j < r.value ==> sensors[j].target != ThermalTargetGpu
    ensures r.None? ==> forall j :: 0 <= j < |sensors| ==> sensors[j].target != ThermalTargetGpu
  {
    if |sensors| == 0 then None
    else if sensors[0].target == ThermalTargetGpu then Some(0)
    else match FindGpuSensor(sensors[1..])
      case None => None
      case Some(i) => Some(i + 1)
  }

  /** The current temperature of the GPU-targeted entry; `Array.Find`
      yields a default record, whose temperature is 0, when none matches. */
  function GpuTemperature(sensors: seq<NvSensor>): (temp: nat)
    ensures (exists i :: 0 <= i < |sensors| && sensors[i].target == ThermalTargetGpu) ==>
              exists i :: 0 <= i < |sensors| && sensors[i].target == ThermalTargetGpu && temp == sensors[i].currentTemp &&
                          forall j :: 0 <= j < i ==> sensors[j].target != ThermalTargetGpu
    ensures (forall i :: 0 <= i < |sensors| ==> sensors[i].target != ThermalTargetGpu) ==> temp == 0
  {
    match FindGpuSensor(sensors)
    case None => 0
    case Some(i) => sensors[i].currentTemp
  }

  /** `GetSensorValue` for a subscribed index. The result is a plain float:
      every unsupported or failed case reads 0. */
  function GetSensorValue(svc: NvService, driver: NvDriver, deviceIndex: int, t: SensorType): (r: NvAnswer)
    requires 0 <= deviceIndex < |svc.handles|
    ensures r.value >= 0.0 || (t == GfxLoad && r.calls != [])
    ensures forall c :: c in r.calls ==> c.handle == svc.handles[deviceIndex]
  {
    var h := svc.handles[deviceIndex];
    match t
    case GfxLoad =>
      if driver.pstatesEx.Present? then
        var reply := driver.pstatesEx.call(h);
        NvAnswer(if reply.status == 0 && reply.gpuPresent then reply.gpuPercentage as real / 100.0 else 0.0,
                 [PstatesExQuery(h)])
      else if driver.pstates.Present? then
        var reply := driver.pstates.call(h);
        NvAnswer(if reply.status == 0 && reply.gpuPresent then reply.gpuPercentage as real else 0.0,
                 [PstatesQuery(h)])
      else NvAnswer(0.0, [])
    case GfxTemperature =>
      if driver.thermal.Present? then
        var reply := driver.thermal.call(h, ThermalTargetAll);
        NvAnswer(if reply.status == 0 then GpuTemperature(reply.sensors) as real else 0.0,
                 [ThermalQuery(h, ThermalTargetAll)])
      else NvAnswer(0.0, [])
    case GfxPower => NvAnswer(0.0, [])
  }

  /** When the extended p-states entry point exists it alone decides the
      load, even when its call fails: the legacy entry point is neither
      called nor able to change the answer. The value is the GPU domain's
      percentage over 100 on success with the domain present, else 0. */
  lemma ExtendedLoadShadowsLegacy(svc: NvService, driver: NvDriver, other: Entry<int -> PstatesReply>, deviceIndex: int)
    requires 0 <= deviceIndex < |svc.handles|
    requires driver.pstatesEx.Present?
    ensures var r := GetSensorValue(svc, driver, deviceIndex, GfxLoad);
            var reply := driver.pstatesEx.call(svc.handles[deviceIndex]);
            && r == GetSensorValue(svc, driver.(pstates := other), deviceIndex, GfxLoad)
            && r.calls == [PstatesExQuery(svc.handles[deviceIndex])]
            && (reply.status == 0 && reply.gpuPresent ==> r.value * 100.0 == reply.gpuPercentage as real)
            && (!(reply.status == 0 && reply.gpuPresent) ==> r.value == 0.0)
  {
  }

  /** Without the extended entry point the legacy one is used, and its
      percentage is returned unscaled. */
  lemma LegacyLoadUnscaled(svc: NvService, driver: NvDriver, deviceIndex: int)
    requires 0 <= deviceIndex < |svc.handles|
    requires driver.pstatesEx.Missing? && driver.pstates.Present?
    ensures var r := GetSensorValue(svc, driver, deviceIndex, GfxLoad);
            var reply := driver.pstates.call(svc.handles[deviceIndex]);
            && r.calls == [PstatesQuery(svc.handles[deviceIndex])]
            && r.value == if reply.status == 0 && reply.gpuPresent then reply.gpuPercentage as real else 0.0
  {
  }

  /** A sensor kind whose entry point is null reads 0 without any call;
      power always reads 0. */
  lemma MissingEntryReadsZero(svc: NvService, driver: NvDriver, deviceIndex: int, t: SensorType)
    requires 0 <= deviceIndex < |svc.handles|
    requires t == GfxPower
          || (t == GfxLoad && driver.pstatesEx.Missing? && driver.pstates.Missing?)
          || (t == GfxTemperature && driver.thermal.Missing?)
    ensures GetSensorValue(svc, driver, deviceIndex, t) == NvAnswer(0.0, [])
  {
  }

  /** Whatever the thermal entry point returns, a temperature read makes
      exactly one call, for all sensor targets, and reads the first
      GPU-targeted entry on success; a failed call, or a reply without a GPU
      entry, reads 0. */
  lemma ThermalReadsFirstGpu(svc: NvService, driver: NvDriver, deviceIndex: int)
    requires 0 <= deviceIndex < |svc.handles|
    requires driver.thermal.Present?
    ensures var h := svc.handles[deviceIndex];
            var r := GetSensorValue(svc, driver, deviceIndex, GfxTemperature);
            var reply := driver.thermal.call(h, ThermalTargetAll);
            && r.calls == [ThermalQuery(h, ThermalTargetAll)]
            && (reply.status != 0 ==> r.value == 0.0)
            && (reply.status == 0 && FindGpuSensor(reply.sensors).None? ==> r.value == 0.0)
            && (reply.status == 0 && FindGpuSensor(reply.sensors).Some? ==>
                  var i := FindGpuSensor(reply.sensors).value;
                  && r.value == reply.sensors[i].currentTemp as real
                  && forall j :: 0 <= j < i ==> reply.sensors[j].target != ThermalTargetGpu)
  {
  }

  /** The temperature is that of the GPU-targeted entry wherever it sits in
      the array, provided it is the only one: other targets (board, memory,
      power supply) are never read. */
  lemma {:induction false} GpuTemperatureWhateverOrder(sensors: seq<NvSensor>, i: nat)
    requires i < |sensors| && sensors[i].target == ThermalTargetGpu
    requires forall j :: 0 <= j < |sensors| && j != i ==> sensors[j].target != ThermalTargetGpu
    ensures GpuTemperature(sensors) == sensors[i].currentTemp
  {
    var r := FindGpuSensor(sensors);
    assert r.Some?;
    assert r.value == i;
  }

  /** A successful thermal query over the entries {BOARD, GPU, POWER_SUPPLY},
      in any order, reports the GPU entry's temperature. */
  lemma ThermalScenario(svc: NvService, driver: NvDriver, deviceIndex: int, board: NvSensor, gpu: NvSensor, supply: NvSensor,
                        order: seq<NvSensor>)
    requires 0 <= deviceIndex < |svc.handles|
    requires board.target == 8 && gpu.target == ThermalTargetGpu && supply.target == 4
    requires multiset(order) == multiset{board, gpu, supply}
    requires driver.thermal.Present? && driver.thermal.call(svc.handles[deviceIndex], ThermalTargetAll) == ThermalReply(0, order)
    ensures GetSensorValue(svc, driver, deviceIndex, GfxTemperature).value == gpu.currentTemp as real
  {
    assert gpu in multiset(order);
    var i :| 0 <= i < |order| && order[i] == gpu;
    forall j | 0 <= j < |order| && j != i ensures order[j].target != ThermalTargetGpu {
      assert order[j] in multiset(order);
    }
    GpuTemperatureWhateverOrder(order, i);
  }
}
