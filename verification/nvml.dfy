/** The NVIDIA-modern (NVML) backend: initialisation with a version fallback,
    device enumeration through the NVAPI bus-id strings, and `GetSensorValue`,
    of which only power is implemented. */
module Nvml {
  import opened Common
  import NvApi

  datatype InitCall = InitV2 | InitV1

  datatype InitOutcome = InitOutcome(initialized: bool, calls: seq<InitCall>)

  /** `Initialized`: `nvmlInit_v2` first; `nvmlInit` only when that fails. */
  function Initialize(v2Status: int, v1Status: int): (r: InitOutcome)
    ensures r.initialized <==> v2Status == 0 || v1Status == 0
    ensures |r.calls| >= 1 && r.calls[0] == InitV2
    ensures InitV1 in r.calls <==> v2Status != 0
  {
    if v2Status == 0 then InitOutcome(true, [InitV2])
    else InitOutcome(v1Status == 0, [InitV2, InitV1])
  }

  /** `nvmlDeviceGetHandleByPciBusId_v2`: a status and a device handle. The
      bus id may be null. */
  datatype LookupReply = LookupReply(status: int, device: int)

  datatype PowerReply = PowerReply(status: int, milliwatts: int)

  datatype NvmlDriver = NvmlDriver(
    v2Status: int,
    v1Status: int,
    byPciBusId: Entry<Option<string> -> LookupReply>,
    powerUsage: Entry<int -> PowerReply>)

  /** The device lookup for the NVAPI GPU at an index. */
  function Lookup(nv: NvApi.NvService, busId: Entry<int -> nat>, lookup: Option<string> -> LookupReply, k: nat): LookupReply
    requires k < |nv.handles| ==> busId.Present?
  {
    lookup(NvApi.GetPciBusId(nv, busId, k))
  }

  /** The enumeration loop: look up the bus ids of indices 0, 1, ... and
      collect the handles until the first lookup that fails. `busIdOf` is
      `GetPciBusId` of the NVAPI backend, null from `gpuCount` on; NVML must
      reject a null bus id, or the source's loop would not end. */
  method EnumerateDevices(gpuCount: nat, busIdOf: nat -> Option<string>, lookup: Option<string> -> LookupReply)
      returns (devices: seq<int>)
    requires forall k: nat :: k >= gpuCount ==> busIdOf(k).None?
    requires lookup(None).status != 0
    ensures |devices| <= gpuCount
    ensures forall k :: 0 <= k < |devices| ==>
              lookup(busIdOf(k)).status == 0 && devices[k] == lookup(busIdOf(k)).device
    ensures lookup(busIdOf(|devices|)).status != 0
  {
    devices := [];
    var deviceIndex := 0;
    while lookup(busIdOf(deviceIndex)).status == 0
      invariant deviceIndex == |devices| <= gpuCount
      invariant forall k :: 0 <= k < |devices| ==>
                  lookup(busIdOf(k)).status == 0 && devices[k] == lookup(busIdOf(k)).device
      decreases gpuCount - deviceIndex
    {
      devices := devices + [lookup(busIdOf(deviceIndex)).device];
      deviceIndex := deviceIndex + 1;
    }
  }

  datatype NvmlService = NvmlService(initialized: bool, devices: seq<int>)

  /** The constructor: enumeration happens only once initialised and when
      the bus-id lookup entry point exists. */
  method Construct(driver: NvmlDriver, nv: NvApi.NvService, busId: Entry<int -> nat>) returns (svc: NvmlService)
    requires |nv.handles| > 0 ==> busId.Present?
    requires driver.byPciBusId.Present? ==> driver.byPciBusId.call(None).status != 0
    ensures svc.initialized <==> driver.v2Status == 0 || driver.v1Status == 0
    ensures !(svc.initialized && driver.byPciBusId.Present?) ==> svc.devices == []
    ensures svc.initialized && driver.byPciBusId.Present? ==>
              && |svc.devices| <= |nv.handles|
              && (forall k :: 0 <= k < |svc.devices| ==>
                    Lookup(nv, busId, driver.byPciBusId.call, k) == LookupReply(0, svc.devices[k]))
              && Lookup(nv, busId, driver.byPciBusId.call, |svc.devices|).status != 0
  {
    var init := Initialize(driver.v2Status, driver.v1Status);
    var devices := [];
    if init.initialized && driver.byPciBusId.Present? {
      // the guard always holds here; it only makes the lambda total
      var busIdOf := (k: nat) => if busId.Present? || k >= |nv.handles| then NvApi.GetPciBusId(nv, busId, k) else None;
      devices := EnumerateDevices(|nv.handles|, busIdOf, driver.byPciBusId.call);
    }
    svc := NvmlService(init.initialized, devices);
  }

  /** A power reading, or the distinct "not implemented" failure. */
  datatype NvmlAnswer = NotImplemented | Reading(value: Option<real>)

  /** `GetSensorValue` for an enumerated device. Power is in milliwatts. */
  function GetSensorValue(svc: NvmlService, driver: NvmlDriver, deviceIndex: int, t: SensorType): (r: NvmlAnswer)
    requires 0 <= deviceIndex < |svc.devices|
    ensures r.NotImplemented? <==> t != GfxPower
    ensures r.Reading? && r.value.Some? ==>
              && driver.powerUsage.Present?
              && driver.powerUsage.call(svc.devices[deviceIndex]).status == 0
              && r.value.value * 1000.0 == driver.powerUsage.call(svc.devices[deviceIndex]).milliwatts as real
    ensures r.Reading? ==> (r.value.None? <==>
              driver.powerUsage.Missing? || driver.powerUsage.call(svc.devices[deviceIndex]).status != 0)
  {
    var device := svc.devices[deviceIndex];
    match t
    case GfxLoad => NotImplemented
    case GfxTemperature => NotImplemented
    case GfxPower =>
      if driver.powerUsage.Present? && driver.powerUsage.call(device).status == 0 then
        Reading(Some(driver.powerUsage.call(device).milliwatts as real * 0.001))
      else Reading(None)
  }
}
