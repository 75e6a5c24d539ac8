# BurnGPUBurn core in Dafny

BurnGPUBurn is a GPU stress tool. A host thread keeps re-dispatching a tiled
N x N matrix-multiply OpenCL kernel into a ring of output buffers, counts the
floating-point operations it has issued, and reports MFLOPS. Next to it, a
small telemetry layer (in its fork of Cloo) reads GPU load, temperature and
power through three vendor backends:

- ADL for AMD;
- NVAPI for legacy NVIDIA;
- NVML for modern NVIDIA.

This project models those pieces as pure Dafny functions and small methods,
and proves what their callers rely on:

- `MatMulRunner` covers the host side of `BlockedMatMulThread`:
  - ring sizing;
  - the `Run` loop as a state machine over halt-flag reads;
  - the `ulong` counters;
  - the integer `MFLOPS` read.
- `MatMulKernel` covers the `mmul` kernel's index arithmetic. Each work-item
  of a 16 x 16 work-group computes `C[j*N+i]` as the row-major product,
  going tile by tile through local memory.
- `AdlAdapters` covers adapter discovery:
  - the UDID vendor-id regex and `Convert.ToInt32(_, 16)`;
  - the AMD filter and the (bus, device) de-duplication;
  - one overdrive probe per adapter;
  - the subscription counter.
- `AdlSensors` covers `GetSensorValue`: its overdrive-version-gated fallback
  chain, and the sensor-map tables.
- `NvApi` covers:
  - the null-delegate rule;
  - the handle list (regular GPUs, then TCC GPUs);
  - the subscription counter;
  - the PCI bus-id string;
  - `GetSensorValue`.
- `Nvml` covers:
  - the init-version fallback;
  - device enumeration up to the first failed lookup;
  - power-only `GetSensorValue`.
- Shared pieces:
  - `Common` holds `SensorType` with its ordinals, `Option`, and `Entry`. `Entry` is a native entry point that is either missing (a null delegate) or present with its behaviour.
  - `Subscriptions` holds the bounded admission counter both backends use.
  - `Hex` holds hex parsing and the `X<width>` format.
  - `Arith` holds nonlinear-arithmetic facts.

Native driver calls are parameters. Each is a function from its arguments to
a status and an output record, wrapped in `Entry` where the source checks
for null. A call trace (`calls`) records which queries a read issues, in
order, so that fallback orders are stated and proved. Scale factors (x/100,
x0.001, x/255) are exact reals.

Three behaviours of the code that the model follows as written:

- `Run` overwrites `HaltRequested` with false on entry
  (BurnGPUBurn/BlockedMatMulThread.cs:164). A halt requested before `Run`
  starts is therefore discarded, not honoured.
- The ring length is `maxAlloc / n / n / 4` with no clamp to one buffer.
  `Run` therefore requires a non-empty ring.
- With zero ADL adapters the adapter array stays null, so `SubscribeDevice`
  requires it to exist.

## Model

| member | source | states |
|---|---|---|
| Common.Ordinal | Cloo/Source/Sensor/ISensor.cs:35-43 | The enum value is below 3. It is 0 exactly for load and 2 exactly for power. |
| Common.FromOrdinal | Cloo/Source/Sensor/ISensor.cs:35-43 | An integer names a sensor type iff it is 0, 1 or 2, and that type's ordinal is the integer. |
| Common.OrdinalRoundTrip | Cloo/Source/Sensor/ISensor.cs:35-43 | Decoding a type's ordinal gives the type back. Distinct types have distinct ordinals, so an ordinal indexes a sensor map unambiguously. |
| Subscriptions.Subscribe | Cloo/Source/Sensor/ADLService.cs:221-224 | The count changes iff it is below the capacity. It then returns the pre-increment count and the count goes up by one. Otherwise it returns -1 and leaves the count unchanged. The bounds 0..capacity are preserved. |
| Subscriptions.Unsubscribe | Cloo/Source/Sensor/ADLService.cs:226-230 | A positive count drops by one. A zero count stays. The bounds are preserved for every capacity. |
| Subscriptions.ReplayKeepsBounds | Cloo/Source/Sensor/ADLService.cs:221-230 | Under any interleaving of subscribe and unsubscribe, the count stays within 0..capacity. Every handle returned is -1 or an index below the capacity. |
| Subscriptions.SubscribeInOrder | Cloo/Source/Sensor/ADLService.cs:221-224 | k subscribes with room for all return count, count+1, ..., count+k-1 and leave the counter at count+k. |
| Subscriptions.SubscribeWhenFull | Cloo/Source/Sensor/ADLService.cs:221-224 | Once the counter is at capacity, every further subscribe returns -1 and the counter does not move. |
| Subscriptions.SubscribeAllThenRefuse | Cloo/Source/Sensor/ADLService.cs:221-224 | From zero with k adapters, k+1 subscribes return 0..k-1 and then -1. |
| Hex.Digits | Cloo/Source/Sensor/NVAPIService.cs:256 | The shortest upper-case hex rendering reads back as the value. It has no leading zero, and it is a single digit iff the value is below 16. |
| Hex.Format | Cloo/Source/Sensor/NVAPIService.cs:256 | `X<width>`: upper-case hex that reads back as the value. Its length is the larger of the width and the digit count, and a leading zero appears only as padding. |
| AdlAdapters.SameDevice | Cloo/Source/Sensor/ADLService.cs:78-81 | Two records are equal iff their (bus, device) keys agree, whatever their other fields. |
| AdlAdapters.FindTag | Cloo/Source/Sensor/ADLService.cs:204 | Finds the leftmost position at which `PCI_VEN_` followed by a word character occurs, or reports that none exists. |
| AdlAdapters.WordRun | Cloo/Source/Sensor/ADLService.cs:204 | A greedy run of at most `limit` word characters. It stops short only at the end of the string or at a non-word character. |
| AdlAdapters.VendorToken | Cloo/Source/Sensor/ADLService.cs:204-205 | The regex matches iff the tag occurs. The captured group is then 1 to 4 word characters. |
| AdlAdapters.VendorTokenIsLeftmostGreedy | Cloo/Source/Sensor/ADLService.cs:204-205 | The captured group is the greedy word run after the leftmost tag, and no earlier position matches. |
| AdlAdapters.StripHexPrefix | Cloo/Source/Sensor/ADLService.cs:206 | The digits are the token's suffix. They are shorter than the token iff it starts with `0x` or `0X`. |
| AdlAdapters.ParseVendorHex | Cloo/Source/Sensor/ADLService.cs:206 | Base-16 parse of a token of at most four characters. It succeeds iff what follows an optional `0x`/`0X` is non-empty and all hex digits of either case. The value is then those digits' value, below 0x10000. |
| AdlAdapters.ParseVendorHexDigits | Cloo/Source/Sensor/ADLService.cs:206 | Any 1 to 4 hex digits of either case, without a prefix, parse to their value. |
| AdlAdapters.ParseVendorHexPrefixed | Cloo/Source/Sensor/ADLService.cs:206 | After a `0x` or `0X` prefix, 1 or 2 hex digits of either case parse to their value. |
| AdlAdapters.ParseVendorHexExamples | Cloo/Source/Sensor/ADLService.cs:206 | `10de` and `10DE` both give 0x10DE. A bare `0x`, an empty token and `1_02` are format errors. |
| AdlAdapters.ParseVendorHexRoundTrip | Cloo/Source/Sensor/ADLService.cs:206 | For widths 1 to 4, every value that fits the width reads back from its zero-padded upper-case rendering at that width. |
| AdlAdapters.ApplyVendorId | Cloo/Source/Sensor/ADLService.cs:201-207 | Without a match the record is unchanged. With one, only `vendorId` changes: it becomes the parsed token, or construction fails on a non-hex token. |
| AdlAdapters.AmdUdidExample | Cloo/Source/Sensor/ADLService.cs:204-206 | The UDID `PCI_VEN_1002&DEV_67DF` yields vendor id 0x1002. |
| AdlAdapters.ReadAdapters | Cloo/Source/Sensor/ADLService.cs:201-207 | Reading succeeds iff every record's token parses. The result is then the records, position by position, with their vendor ids applied. |
| AdlAdapters.RetainAmdAdapters | Cloo/Source/Sensor/ADLService.cs:209 | Kept records are input records in input order, and all are AMD. No two share (bus, device), every AMD (bus, device) pair of the input is represented, and each kept record is the first of its pair. |
| AdlAdapters.Initialize | Cloo/Source/Sensor/ADLService.cs:192-211 | With no adapters the list stays null and the probe list is empty. Otherwise construction succeeds iff every UDID token parses. The kept adapters are then AMD records in input order, one per (bus, device) pair and the first of each, with every AMD pair represented. The probe list has one entry per kept adapter, in the same order, taken from probing its ADL index. |
| AdlAdapters.SubscribeDevice | Cloo/Source/Sensor/ADLService.cs:221-224 | Against the retained adapter count: the pre-increment count with an increment, or -1 with the state unchanged. Nothing else in the state changes. |
| AdlAdapters.UnsubscribeDevice | Cloo/Source/Sensor/ADLService.cs:226-230 | A positive count drops by one. A zero count leaves the state unchanged. Only the count ever changes. |
| AdlSensors.Outcome | Cloo/Source/Sensor/ADLService.cs:239-264 | PMLog yields a reading iff the status is non-negative and the indexed sensor exists and is supported; the value is unscaled. Every other call yields a reading iff its status is 0, scaled by 1/1000 for temperature, 1/255 for power and 1/100 for activity. |
| AdlSensors.Query | Cloo/Source/Sensor/ADLService.cs:236-268 | At most two driver calls are made. A reading is the outcome of the last call made, and every earlier call yielded nothing. |
| AdlSensors.FirstSuccess | Cloo/Source/Sensor/ADLService.cs:236-268 | Calls are a prefix of the plan, issued in order up to the first that yields a reading. With no reading, the whole plan was tried and every call failed. |
| AdlSensors.QueryIsFirstSuccess | Cloo/Source/Sensor/ADLService.cs:236-268 | The nested conditionals equal "issue the enabled queries in priority order until one succeeds", with the same reading and the same calls. |
| AdlSensors.PmLogTakesPrecedence | Cloo/Source/Sensor/ADLService.cs:236-246 | From overdrive 8 only the PMLog query is made, at index {19,8,30}[type]. It returns the unscaled value, or nothing on a negative status, an out-of-range index or an unsupported sensor. The legacy entry points cannot affect the answer. |
| AdlSensors.PmLogIndexInRange | Cloo/Source/Sensor/ADLService.cs:238-245 | Every mapped PMLog index is below 256. With the driver's 256-entry reply, the range test never fails: a PMLog reading is present iff the call succeeds and the sensor is supported. |
| AdlSensors.LegacyLoad | Cloo/Source/Sensor/ADLService.cs:250-254 | Below overdrive 8, load is present iff overdrive >= 5 and the activity call succeeds. It is the activity percentage over 100. |
| AdlSensors.LegacyTemperature | Cloo/Source/Sensor/ADLService.cs:255-261 | Below overdrive 8, temperature tries OverdriveN first, from version 7 on, and then Overdrive5 with controller 0 at any version. Both readings are scaled by 0.001. |
| AdlSensors.LegacyPower | Cloo/Source/Sensor/ADLService.cs:262-265 | Below overdrive 8, power is present iff overdrive >= 6 and the Overdrive6 call with power type 0 succeeds. The raw value is scaled by 1/255. |
| AdlSensors.GetSensorValueAsWritten | Cloo/Source/Sensor/ADLService.cs:232-269 | As written: at overdrive 8 and above every call addresses the kept adapter's ADL index. Below 8 every call addresses the position in the kept list, and an OverdriveN temperature call passes type 8. |
| AdlSensors.GetSensorValue | Cloo/Source/Sensor/ADLService.cs:232-269 | Corrected: every query addresses the kept adapter's ADL index. An OverdriveN temperature query passes the OverdriveN table's temperature type. |
| AdlSensors.AsWrittenAgreesWhenIndicesCoincide | Cloo/Source/Sensor/ADLService.cs:239-263 | The two versions agree when the adapter's ADL index equals its position, unless the request is temperature at overdrive 7. |
| AdlSensors.LegacyIndexCounterexample | Cloo/Source/Sensor/ADLService.cs:252 | Two AMD GPUs with two ADL adapters each: as written, load for the second GPU reads the first GPU's activity. |
| AdlSensors.OdnTemperatureTypeCounterexample | Cloo/Source/Sensor/ADLService.cs:256 | At overdrive 7, as written, the OverdriveN temperature call passes type 8 (the PMLog index). The corrected call passes 1. |
| NvApi.Resolve | Cloo/Source/Sensor/NVAPIService.cs:195-199 | An entry point is missing iff its resolved pointer is zero. Otherwise it has the driver's behaviour. |
| NvApi.ValidHandles | Cloo/Source/Sensor/NVAPIService.cs:224 | The result lists the handles at the positions below the reported count whose handle is nonzero, in array order and with duplicates kept. The k-th such position lands at index k, and the length is the number of such positions. |
| NvApi.KeptBeforeStrictlyIncreases | Cloo/Source/Sensor/NVAPIService.cs:224 | A later surviving position gets a later index in the filtered list, so the filter keeps array order. |
| NvApi.ValidHandlesExample | Cloo/Source/Sensor/NVAPIService.cs:224 | `[5, 0, 7, 5]` with count 4 gives `[5, 7, 5]`. With count 3 it gives `[5, 7]`. |
| NvApi.Contribution | Cloo/Source/Sensor/NVAPIService.cs:222-230 | An enumeration call that fails contributes no handles. One that returns 0 contributes its filtered handles. |
| NvApi.Initialize | Cloo/Source/Sensor/NVAPIService.cs:209-232 | Construction fails iff a called entry point is missing. The handle list is then exactly the regular GPUs' valid handles followed by the TCC GPUs' valid handles, so its length is the sum of the two. Each step contributes only when its call returns 0. All handles are nonzero and the counter starts at 0. |
| NvApi.SubscribeDevice | Cloo/Source/Sensor/NVAPIService.cs:239-242 | Against the handle count: the pre-increment count with an increment, or -1 with the state unchanged. |
| NvApi.UnsubscribeDevice | Cloo/Source/Sensor/NVAPIService.cs:244-248 | The count never goes below zero, and the handles are unchanged. |
| NvApi.FormatPciBusId | Cloo/Source/Sensor/NVAPIService.cs:256 | The string is `0000:`, a middle field, then `:00.0`. The middle field is upper-case hex whose value is the bus id, and its length is the larger of 2 and the bus id's digit count (`X2`). |
| NvApi.PciBusIdRoundTrip | Cloo/Source/Sensor/NVAPIService.cs:255-256 | The bus-id string parses back to the bus id. Its upper-case middle field is exactly two digits for a bus id below 256, and the unpadded digits above that. |
| NvApi.GetPciBusId | Cloo/Source/Sensor/NVAPIService.cs:250-257 | The result is null iff the index is at or past the handle count. Otherwise it is exactly the formatted bus-id string of the driver's bus id for that handle, and it reads back as that bus id. |
| NvApi.FindGpuSensor | Cloo/Source/Sensor/NVAPIService.cs:289 | Finds the first entry whose target is GPU, or reports that no entry targets GPU. |
| NvApi.GpuTemperature | Cloo/Source/Sensor/NVAPIService.cs:289 | With a GPU-targeted entry, the temperature is that of the first one. Without one it is 0, the default record's temperature. |
| NvApi.GetSensorValue | Cloo/Source/Sensor/NVAPIService.cs:259-296 | Every call addresses the subscribed GPU's handle. Readings are non-negative unless a load call was made, since either p-states call may report a negative percentage. |
| NvApi.ThermalReadsFirstGpu | Cloo/Source/Sensor/NVAPIService.cs:282-291 | With the thermal entry point present, a temperature read makes one call for all targets. It reads 0 on a failed call or when no entry targets the GPU. Otherwise it reads the first GPU-targeted entry. |
| NvApi.ExtendedLoadShadowsLegacy | Cloo/Source/Sensor/NVAPIService.cs:265-271 | When the extended p-states entry point exists, it alone is called, even if it fails. The reading is the domain-0 percentage over 100 on success with the domain present, and 0 otherwise. |
| NvApi.LegacyLoadUnscaled | Cloo/Source/Sensor/NVAPIService.cs:272-278 | Without the extended entry point, the legacy percentage is returned unscaled, or 0. |
| NvApi.MissingEntryReadsZero | Cloo/Source/Sensor/NVAPIService.cs:279-295 | Power always reads 0 without a call. So does load or temperature when its entry point is null. |
| NvApi.GpuTemperatureWhateverOrder | Cloo/Source/Sensor/NVAPIService.cs:288-289 | The temperature is that of the GPU-targeted entry, wherever it sits in the array. |
| NvApi.ThermalScenario | Cloo/Source/Sensor/NVAPIService.cs:280-291 | With board, GPU and power-supply entries in any order, a successful query reports the GPU entry's temperature. |
| Nvml.Initialize | Cloo/Source/Sensor/NVMLService.cs:100-102 | Initialised iff v2 init or v1 init returns 0. v2 is called first, and v1 only when v2 fails. |
| Nvml.EnumerateDevices | Cloo/Source/Sensor/NVMLService.cs:104-110 | The devices are the lookups of the bus ids of indices 0, 1, ... in order, each of which succeeded. The first lookup that fails ends the list. Since the bus id is null from the GPU count on, there are never more devices than NVAPI GPUs. |
| Nvml.Construct | Cloo/Source/Sensor/NVMLService.cs:100-110 | Enumeration happens only when initialised and the lookup entry point exists. Otherwise the device list is empty. |
| Nvml.GetSensorValue | Cloo/Source/Sensor/NVMLService.cs:118-133 | Not-implemented iff the request is not power, which is distinct from an absent reading. Power is absent iff the entry point is missing or the call fails. Otherwise the call succeeded and the reading is exactly its milliwatts times 0.001. |
| MatMulRunner.RingLength | BurnGPUBurn/BlockedMatMulThread.cs:130 | The ring length is `int`-ranged and agrees with `maxAlloc / n / n / 4` in its low 32 bits. It equals that quotient when the quotient fits. |
| MatMulRunner.RingLengthFitsBudget | BurnGPUBurn/BlockedMatMulThread.cs:130 | Within int range, the ring holds exactly as many N x N float buffers as fit in the allocation budget. It is non-empty iff one buffer fits. |
| MatMulRunner.Construct | BurnGPUBurn/BlockedMatMulThread.cs:130-138 | Allocating the ring array fails with an overflow iff the cast ring length is negative. Otherwise the runner has a ring of exactly `RingLength` buffers, halt clear, both counters zero and start time zero. |
| MatMulRunner.ConstructedRingRunnable | BurnGPUBurn/BlockedMatMulThread.cs:130-131 | When the buffer count fits an `int`, construction succeeds, and the ring is non-empty (as `Run` requires) iff one N x N float buffer fits the allocation budget. |
| MatMulRunner.Enter | BurnGPUBurn/BlockedMatMulThread.cs:160-166 | Entering `Run` stamps the start time, clears halt and zeroes both counters. N and the ring are kept. |
| MatMulRunner.HaltBeforeRunIsDiscarded | BurnGPUBurn/BlockedMatMulThread.cs:160-166 | The entered state does not depend on whether halt was set before `Run`. |
| MatMulRunner.Run | BurnGPUBurn/BlockedMatMulThread.cs:158-189 | The run ends at the first halt read that is true. It dispatches once per dispatch checkpoint passed, never after halt is seen, and dispatch t gets ring buffer t mod len. After the t-th completion the counters are 2·t·N³ and t, mod 2^64. On return both counters are 0. |
| MatMulRunner.AccumulatedClosedForm | BurnGPUBurn/BlockedMatMulThread.cs:181-182 | Adding 2·N³ to the operation counter and 1 to the completion counter per completion, each wrapping mod 2^64, leaves 2·k·N³ and k (mod 2^64) after k completions. |
| MatMulRunner.RingIndexCycles | BurnGPUBurn/BlockedMatMulThread.cs:168 | The ring index after t steps is t mod len. It stays in range and repeats with period exactly len. |
| MatMulRunner.CountersNonDecreasing | BurnGPUBurn/BlockedMatMulThread.cs:181-182 | Until they wrap, neither counter decreases from one completion to a later one. |
| MatMulRunner.ThreeDispatchScenario | BurnGPUBurn/BlockedMatMulThread.cs:181-188 | N = 1024 with halt seen after the third completion: the run makes 3 dispatches. The operation counter reads 3·2·1024³ before return and 0 after. |
| MatMulRunner.Mflops | BurnGPUBurn/BlockedMatMulThread.cs:203-211 | 0 before any completion. Otherwise, without overflow, it is the floor of (operations div 10^6)·frequency / elapsed ticks. |
| MatMulKernel.Slot | BurnGPUBurn/BlockedMatMulThread.cs:87 | A local index `jloc*16+iloc` is below 256 and determines its (jloc, iloc). |
| MatMulKernel.LoadTile | BurnGPUBurn/BlockedMatMulThread.cs:87-88 | Slot (jl, il) of a tile holds the matrix element at `base + jl*N + il`, and that index is in range. |
| MatMulKernel.TilesInside | BurnGPUBurn/BlockedMatMulThread.cs:73-101 | Every A and B tile the loop reads lies below N·N. |
| MatMulKernel.InnerStep | BurnGPUBurn/BlockedMatMulThread.cs:95-96 | One `kloc` step adds A(j, k)·B(k, i) for k = 16·Kblk + kloc. |
| MatMulKernel.AccumulateTile | BurnGPUBurn/BlockedMatMulThread.cs:95-96 | One tile pair adds the next 16 terms of row j of A times column i of B. |
| MatMulKernel.WorkItem | BurnGPUBurn/BlockedMatMulThread.cs:44-105 | With the base addresses advanced by 16 and 16·N per tile, work-item (i, j) produces the full dot product of row j of A with column i of B. |
| MatMulKernel.MatMul | BurnGPUBurn/BlockedMatMulThread.cs:104 | Over the whole N x N launch, `C[j*N+i]` is the row-major product for every i, j < N. |

## Findings

| source | as written | input that shows it | evidently intended | confidence | as-written member | corrected member |
|---|---|---|---|---|---|---|
| Cloo/Source/Sensor/ADLService.cs:252-263 | The legacy Overdrive5/OverdriveN/Overdrive6 queries pass `deviceIndex`, the position in the filtered adapter list. | Two AMD GPUs, each exposed as ADL adapters 0,1 and 2,3, at overdrive 5: load for device 1 queries adapter 1, which is the first GPU. | Pass `adapterInfoList[deviceIndex].AdapterIndex`, as the PMLog query at line 239 does. | medium, not executed | AdlSensors.LegacyIndexCounterexample | AdlSensors.GetSensorValue |
| Cloo/Source/Sensor/ADLService.cs:256 | The OverdriveN temperature query passes `PMLogSensorMap[1]` = 8. | Any adapter at overdrive 7: the call asks for temperature type 8. | Pass `ODNSensorMap[1]` = 1, the OverdriveN table's temperature type, as the power query at line 263 does with `ODNSensorMap`. | medium, not executed | AdlSensors.OdnTemperatureTypeCounterexample | AdlSensors.GetSensorValue |

`AdlSensors.GetSensorValueAsWritten` is the source's behaviour. Both
counterexample lemmas compare it with the corrected `AdlSensors.GetSensorValue`,
and `AdlSensors.AsWrittenAgreesWhenIndicesCoincide` shows that the two
agree whenever the kept adapter's ADL index equals its position in the kept
list, except for a temperature read at overdrive 7, where the type passed
to OverdriveN always differs.

## Left out

- The WinForms UI (BurnGPUBurn/Form1.cs, Form1.Designer.cs) is left out. It holds timer polling, thread start and join, and float formatting.
- BurnGPUBurn/AMDGPU.cs, an unused create/destroy wrapper, is left out.
- All native interop is left out: DllImport, delegate factories, `Marshal` struct layout, and version tags. Each driver call is a function parameter.
- Lazy singletons, finalizers and `Dispose` are left out. `Dispose` is not idempotent and is not claimed to be.
- The OpenCL context, program build and build-log rethrow are left out. So are the kernel-argument setting and the queue calls: dispatch is an opaque step that records its ring index.
- Stopwatch is left out. The current timestamp and frequency are parameters.
- Concurrency is left out. Another thread's writes to `HaltRequested` appear only as the sequence of values `Run` reads at its checkpoints.
- Float arithmetic is left out. Scale factors are exact reals, and the kernel is proved over integers, where summation order does not matter.
- The ADL entry points are always present in the model. The source calls them without null checks, so a missing one throws at call time and is not modelled.
- Nvml.Initialize: `nvmlInit_v2` and `nvmlInit` are always present in the model. The source calls them without a null check (Cloo/Source/Sensor/NVMLService.cs:100-102), so a missing one throws, which is not modelled.
- ADL's `Main_Control_Create` calls and their ignored statuses are left out.
- Regex `\w` is the ASCII word class (letters, digits, underscore). Unicode letters are left out.
- The NVAPI entry points that are resolved but never called (display-handle enumeration, GPUs from display) are left out.
- Every way `Convert.ToInt32` can reject a token (a bare `0x`, a non-hex word character such as `G` or `_`) is one construction failure. .NET's exception types are not reproduced.
- AdlAdapters.RetainAmdAdapters: `HashSet` keeps the first of each (bus, device) pair only because records that are `Equals` also share a hash code. The source does not override `GetHashCode`, so this holds when the records agree on their first field (`Size`), as the driver fills them. Enumeration in insertion order is also assumed.
- AdlAdapters.SubscribeDevice: requires the adapter list to exist. With zero adapters, the source dereferences null there.
- NvApi.GetPciBusId: requires the bus-id entry point when the index is in range. The source calls it without a null check. It also requires a non-negative index: a negative index passes the bound check and the handle list's indexer throws (Cloo/Source/Sensor/NVAPIService.cs:255); the exception is not modelled.
- NvApi.Initialize: a missing initialise or enumeration entry point is reported as a failed construction. In the source it is a null dereference.
- Nvml.EnumerateDevices: requires the lookup of a null bus id to fail, and takes the bus ids as a function that is null from the GPU count on (what `NvApi.GetPciBusId` returns). Past the last NVAPI GPU that is the only thing that ends the source's loop.
- AdlSensors.GetSensorValueAsWritten: requires the device index to be within the overdrive list. The source indexes that list first (Cloo/Source/Sensor/ADLService.cs:234) and throws an out-of-range exception otherwise; the exception is not modelled.
- AdlSensors.GetSensorValue: requires the device index to be within the overdrive list, for the same reason as the as-written version.
- NvApi.GetSensorValue: requires the index to be within the handle list. The source indexes it first (Cloo/Source/Sensor/NVAPIService.cs:261) and throws otherwise; the exception is not modelled.
- Nvml.GetSensorValue: requires the index to be within the device list. The source indexes it first (Cloo/Source/Sensor/NVMLService.cs:120) and throws there, before the not-implemented branch; the exception is not modelled.
- MatMulRunner.Run: requires a non-empty ring and that some halt read is true. With an empty ring the source throws at the first dispatch, and a run that never sees halt does not return.
- MatMulRunner.RingLengthFitsBudget: stated only when the quotient fits in an `int`. Past that, `RingLength` models the unchecked cast, but nothing is claimed about it.
- MatMulRunner.CountersNonDecreasing: stated only before the 64-bit wrap. `Run` itself gives the wrapped values.
- MatMulRunner.Mflops: the floor property is stated only when no `ulong` operand wraps. The final conversion to float is left out.
- MatMulKernel.WorkItem: requires N to be a multiple of 16, as the 16 x 16 work-group launch does. The 32-bit overflow of the kernel's `int` index arithmetic (N·N beyond 2^31) is not modelled.
