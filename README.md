# linak-desk-cli core, modelled in Dafny

A model of the logic inside the command-line client for a LINAK desk's Bluetooth interface:

- **Scan bookkeeping** (`cmdScan`). Discovered device ids are collected in first-seen order without duplicates until the scan timer fires. The operator's numeric answer then picks one id, which is saved as `device_id`.
- **Telemetry decode** (`bufferToNum`, `positionToMm`). A raw unsigned 16-bit sample becomes a height in millimetres: `Math.round(381/3815 * raw + lowest_pos_mm)`, computed exactly over the integers.
- **Preset registry** (`savePositionToConfig`, `cmdSavePosition`, `cmdDeletePosition`). Named heights are kept under the `positions` key. A non-positive height deletes the name.
- **Config check** (`inspectDeviceConfig`). The position command proceeds only when `device_id` and `lowest_pos_mm` are both truthy.
- **`JsonStorage`**. A key-value store over one JSON file that is created as `{}` on first access. It is modelled as a class whose fields are the filesystem state: whether the directory exists, and the object the file holds.

Files:

- `wrappers.dfy`: Option and Result.
- `js_values.dfy`: JSON values, JavaScript numbers (integer or NaN) and truthiness.
- `storage.dfy`: the document functions, their lemmas and class `JsonStorage`.
- `telemetry.dfy`: the sample decode and the calibration.
- `discovery.dfy`: the reference functions of the scan, their lemmas and class `Scanner`.
- `presets.dfy`: the preset registry and the save/delete commands.
- `config_check.dfy`: `inspectDeviceConfig` and lemmas that link it to the scan and to the presets.

Some values are parameters rather than computed:

- `parseInt` results are given as `Option<int>` or `Number`, where NaN is `None` or `NaN`.
- The buffer a live Bluetooth read returns is a parameter, and `None` means the connection or the read failed.
- The timer firing is the `Scanner.StopScanning` call.

## Model

| member | source | states |
|---|---|---|
| `JsValues.NumberToJson` | src/bin.js:220-221 | storing a NaN height in the config stores `null` (a falsy value); a finite height is stored as that number |
| `Storage.Materialise` | src/lib/json-storage.js:11-20 | an absent file is read as the empty object `{}`; an existing file is read as it is |
| `Storage.Lookup` | src/lib/json-storage.js:26-34 | `get` yields the stored value for a present key and the default for an absent one |
| `Storage.Store` | src/lib/json-storage.js:39 | `json[key] = value` adds the key, maps it to the value and leaves every other key and value as it was |
| `Storage.Remove` | src/lib/json-storage.js:46 | `delete json[key]` removes exactly that key and keeps every other entry; for an absent key the document is unchanged |
| `Storage.GetAfterSet` | src/lib/json-storage.js:36-41 | after `set(k, v)`, `get(k, d)` is `v` and `get` of any other key is what it was |
| `Storage.LastWriterWins` | src/lib/json-storage.js:39 | two sets of one key leave the document that the second alone would |
| `Storage.GetAfterDelete` | src/lib/json-storage.js:43-48 | after `delete(k)`, `get(k, d)` is `d` and every other key reads as before |
| `Storage.JsonStorage.constructor` | src/lib/json-storage.js:6-9 | the constructor records the path and touches no file |
| `Storage.JsonStorage.ReadFileData` | src/lib/json-storage.js:11-20 | a missing directory and a missing file are created, the file holding `{}`; afterwards the file exists and its content is returned; an existing file is left untouched |
| `Storage.JsonStorage.WriteToFile` | src/lib/json-storage.js:22-24 | the file afterwards holds exactly the written document |
| `Storage.JsonStorage.Get` | src/lib/json-storage.js:26-34 | returns the stored value or the default (`null` when omitted); the document is unchanged, but the file now exists |
| `Storage.JsonStorage.Set` | src/lib/json-storage.js:36-41 | the file afterwards holds the old document with the key mapped to the value |
| `Storage.JsonStorage.Delete` | src/lib/json-storage.js:43-48 | the file afterwards holds the old document without the key; deleting an absent key leaves the document as it was |
| `Storage.JsonStorage.GetAll` | src/lib/json-storage.js:50-53 | returns the whole document, which is `{}` for a fresh store |
| `Storage.JsonStorage.GetAllKeys` | src/lib/json-storage.js:55-57 | returns each key of the document exactly once and nothing else |
| `Telemetry.BufferToNum` | src/bin.js:17 | an odd-length buffer throws a RangeError; an empty buffer gives undefined; otherwise the sample is `b[0] + 256*b[1]` and lies in [0, 65535] |
| `Telemetry.BufferToNumReadsFirstWord` | src/bin.js:17 | decoding a buffer that starts with the little-endian encoding of `v` yields `v` |
| `Telemetry.PositionToMm` | src/bin.js:18-21 | the height is the integer nearest to `381*v/3815 + offset`, with an exact half rounding up, as `Math.round` does |
| `Telemetry.PositionToMmHalfDown` | src/bin.js:20 | a reference rounding that takes the nearest integer with halves rounding down |
| `Telemetry.PositionToMmJs` | src/bin.js:18-21 | the height is NaN exactly when the sample is undefined or the parsed offset is NaN; otherwise it is the exact rounded value |
| `Telemetry.BufferPositionToMm` | src/bin.js:22 | decoding then calibrating: RangeError for odd lengths, NaN for an empty buffer or a NaN offset, else the rounded height of the first word |
| `Telemetry.NeverHalf` | src/bin.js:20 | for integer sample and offset, the exact scaled value is never a half-integer |
| `Telemetry.TieRuleIrrelevant` | src/bin.js:20 | rounding halves up and rounding halves down give the same height, so the tie rule never applies |
| `Telemetry.PositionAtZero` | src/bin.js:20 | a raw sample of 0 gives exactly the calibration offset |
| `Telemetry.PositionMonotone` | src/bin.js:20 | a larger raw sample never gives a lower height |
| `Telemetry.PositionRange` | src/bin.js:17-20 | over the 16-bit range the height lies between the offset and the offset plus 6545 mm, and the upper end is reached |
| `Telemetry.PositionShift` | src/bin.js:19-20 | raising the offset by `d` raises every height by exactly `d` |
| `Discovery.FoundStep` | src/bin.js:114-124 | one event keeps the list free of duplicates; a known id or a completed scan leaves it unchanged; a new id is appended, keeping the earlier entries in order |
| `Discovery.DiscoveredDistinct` | src/bin.js:116-121 | the list built by any run of events has no duplicates |
| `Discovery.DiscoveredMembers` | src/bin.js:114-121 | an id is listed exactly when some event reported it |
| `Discovery.DiscoveredFirstSeenOrder` | src/bin.js:121 | the ids are listed in the order of their first report |
| `Discovery.SameDeviceTwice` | src/bin.js:116-119 | reporting the same id twice lists it once |
| `Discovery.IsDiscovered` | src/bin.js:116-118 | the `some` scan finds the id exactly when it is already listed |
| `Discovery.SelectionAsWritten` | src/bin.js:137-149 | the handler as written: it crashes exactly for a negative answer; an id is saved exactly when the answer is in 1..length and its id is non-empty, and it is the id at position index-1 |
| `Discovery.NegativeAnswerCrashes` | src/bin.js:139-145 | with the answer `-1` the handler as written ends in the TypeError of reading `device.id` of undefined |
| `Discovery.Selection` | src/bin.js:137-149 | an id is saved exactly when the answer is an index in 1..length whose id is non-empty, and it is the id at position index-1; 0, NaN, too large or negative answers save nothing |
| `Discovery.SelectionCorrectionAgrees` | src/bin.js:139-149 | the corrected handler differs from the written one only on negative answers, where neither saves |
| `Discovery.Scanner.constructor` | src/bin.js:111-112 | a scan starts with no devices and the completion flag clear |
| `Discovery.Scanner.Found` | src/bin.js:114-124 | after completion nothing changes; otherwise a new id is appended and a known one ignored; the list stays the duplicate-free first-seen list of the ids reported before completion |
| `Discovery.Scanner.StopScanning` | src/bin.js:129-130 | the timer sets the completion flag and leaves the list as it is |
| `Discovery.Scanner.Select` | src/bin.js:137-149 | the answer's outcome is that of the handler as written, a TypeError for a negative answer included; only a saved outcome writes `device_id`, with the selected id; otherwise the config is untouched |
| `Presets.Positions` | src/bin.js:214 | the registry is the `positions` object, or `{}` when the key is absent |
| `Presets.UpdatePreset` | src/bin.js:213-224 | a height `<= 0` removes the name; any other height maps the name to it (NaN to `null`); all other presets are unchanged |
| `Presets.SavePositionDoc` | src/bin.js:213-224 | in the whole document only `positions` changes; it is always written, holding the updated registry, even when that registry is empty |
| `Presets.DeleteIdempotent` | src/bin.js:215-217 | deleting twice equals deleting once |
| `Presets.SaveLastWriterWins` | src/bin.js:220 | the last save of a name decides its preset |
| `Presets.PresetRoundTrip` | src/bin.js:213-224 | after saving a positive height the registry lists it; after deleting, the name is gone and the rest of the registry is as it was |
| `Presets.SavePositionToConfig` | src/bin.js:213-224 | the config afterwards holds the document with the updated registry; the outcome is a delete exactly for a non-positive height |
| `Presets.CmdSavePosition` | src/bin.js:226-240 | an empty name writes nothing; a truthy parsed height is saved as given; a height of 0 or NaN is replaced by the live reading, and a failed read saves nothing |
| `Presets.CmdDeletePosition` | src/bin.js:242-248 | an empty name writes nothing; otherwise the result is that of saving the height 0, which never stores |
| `ConfigCheck.Inspect` | src/bin.js:72-83 | a setting is reported missing exactly when its key is absent or its value is falsy |
| `ConfigCheck.InspectDeviceConfig` | src/bin.js:72-83 | execution continues exactly when both `device_id` and `lowest_pos_mm` are truthy; the document is not changed |
| `ConfigCheck.FreshStoreStops` | src/bin.js:72-83 | on a fresh store both settings are reported missing |
| `ConfigCheck.SelectionSatisfiesDeviceCheck` | src/bin.js:142 | a device id saved by the scan passes the device check and does not affect the calibration check |
| `ConfigCheck.PresetsDoNotAffectCheck` | src/bin.js:213-224 | saving or deleting presets never changes the outcome of the config check |

## Left out

- The connection session is left out by choice. `connectToDevice` and `getCurrentPositionMm` (src/bin.js:159-193) are the program's own plumbing over the foreign asynchronous Bluetooth calls (`requestDevice`, `gatt.connect`, `getPrimaryService`, `getCharacteristic`, `readValue`). `onDisconnected` (src/bin.js:195-198) is the disconnect handler; it logs and exits the process. The live read enters the model as the buffer it returned, or as a failure.
- The disconnect listener and `gatt.disconnect` are not modelled. There is no try/finally around the callback, so no cleanup is claimed.
- The scan timer, `readline`, `rl.close` and `process.exit` are not modelled. The timer is the `Scanner.StopScanning` call. The exit in `inspectDeviceConfig` is the `proceed` result.
- Commander wiring, `asyncCmdAndExit`, `console.log` output and the commands outside the core (`cmdSetLowestPosition`, `cmdSetDeviceId`, `cmdShowConfig`, `cmdPosition`, `cmdPositions`) are not modelled.
- Floating-point evaluation of `381 / 3815 * value` is not modelled; the exact rational value is rounded instead. This assumes the double rounding error never moves the value across a rounding boundary. `Telemetry.NeverHalf` shows the exact value is at least 1/7630 away from a half, which is far larger than that error over the 16-bit range.
- `parseInt` string parsing is not modelled. Its result is a parameter.
- The second `parseInt` in `cmdSavePosition` (src/bin.js:238) is taken as the identity. That holds for integers below 10^21 in magnitude.
- Only integral JSON numbers are modelled. The program writes only integers, since heights come from `parseInt` and `Math.round` and `lowest_pos_mm` is stored as a string. A hand-edited file holding a fraction such as `0.5` is outside the model.
- `JSON.parse` and `JSON.stringify` are not modelled; the file is taken to hold one JSON object. A file holding other JSON or unparsable text is not modelled.
- The filesystem calls and `path.dirname` are not modelled. The directory is a flag, and the file is an optional document.
- Only own keys are modelled. The prototype-chain behaviour of `key in json` (for example `get('toString')`) is left out.
- Storage.Store: does not model the key `__proto__`, for which `json[key] = value` (src/lib/json-storage.js:39) sets the object's prototype and stores no entry; the model stores it like any other key.
- Presets.UpdatePreset: does not model the preset name `__proto__`, for which `positions[name] = value` (src/bin.js:220) sets the prototype and stores no preset; the model stores it like any other name.
- `Telemetry.BufferToNum`: assumes a little-endian host, as `Uint16Array` uses the host byte order.
- `Presets.SavePositionToConfig`: when the stored `positions` value is not a JSON object, the model writes nothing. The source runs as strict-mode module code, and its behaviour depends on the value. For `null`, both `delete` and the assignment throw a TypeError. For a number, boolean or string, the assignment throws a TypeError, and the `delete` writes the value back unchanged (a string throws on deleting one of its own index names or `length`). For an array, only an array-index name such as `"0"` survives stringification.
- `Presets.CmdSavePosition`: when the live read fails, it states only that the document is unchanged, not whether the earlier config reads created the file.
- `Storage.JsonStorage.GetAllKeys`: does not state the order of `Object.keys`. That order is the integer-like keys first, ascending, then the other keys in insertion order. The model keeps no insertion order.
- Devices are modelled by their id only. The `{ id }` objects of the source carry nothing else.
- Other tie rules for the height (round half away from zero, round half to even) are not modelled separately. The code uses `Math.round`, which rounds halves up, and the model follows the code. `Telemetry.TieRuleIrrelevant` shows that no tie ever occurs, so the rule never matters.

## Findings

| source | as written | input that shows it | evidently intended | confidence | as-written member | corrected member |
|---|---|---|---|---|---|---|
| src/bin.js:139-145 | a negative parsed answer passes `index && index <= bluetoothDevices.length`; `bluetoothDevices[index - 1]` is undefined, and the error message then reads `device.id` of undefined, throwing a TypeError out of the answer handler | the answer `-1` | report that no device has that index and exit cleanly, as for 0 or an index that is too large | not executed | `Discovery.NegativeAnswerCrashes` | `Discovery.Selection` |
