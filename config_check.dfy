/**
 * `inspectDeviceConfig`: the position command runs only when the
 * configuration names a device and holds the desk's lowest position, both
 * as JavaScript-truthy values; otherwise each missing setting is reported
 * and the process exits.
 */
module ConfigCheck {
  import opened Wrappers
  import opened JsValues
  import opened Storage
  import Presets
  import Discovery

  const DeviceIdKey: string := "device_id"
  const LowestPosKey: string := "lowest_pos_mm"

  /** Which of the two messages `inspectDeviceConfig` prints. */
  datatype ConfigReport = ConfigReport(missingDeviceId: bool, missingLowestPos: bool) {
    predicate Proceeds() {
      !missingDeviceId && !missingLowestPos
    }
  }

  function Inspect(doc: Document): (r: ConfigReport)
    ensures r.missingDeviceId <==> DeviceIdKey !in doc || !Truthy(doc[DeviceIdKey])
    ensures r.missingLowestPos <==> LowestPosKey !in doc || !Truthy(doc[LowestPosKey])
  {
    ConfigReport(!Truthy(Lookup(doc, DeviceIdKey, Null)), !Truthy(Lookup(doc, LowestPosKey, Null)))
  }

  /** `inspectDeviceConfig()`; `proceed` is false where the source calls `process.exit`. */
  method InspectDeviceConfig(config: JsonStorage) returns (proceed: bool, report: ConfigReport)
    requires config.Valid()
    modifies config
    ensures config.Valid() && config.dirExists && config.file == Some(old(config.Contents()))
    ensures report == Inspect(old(config.Contents()))
    ensures proceed == report.Proceeds()
  {
    var deviceId := config.Get(DeviceIdKey);
    var lowestPos := config.Get(LowestPosKey);
    report := ConfigReport(!Truthy(deviceId), !Truthy(lowestPos));
    proceed := !report.missingDeviceId && !report.missingLowestPos;
  }

  /** A fresh store reports both settings missing. */
  lemma FreshStoreStops()
    ensures Inspect(Materialise(None)) == ConfigReport(true, true)
  {
  }

  /** A device saved by the scan command satisfies the device check. */
  lemma SelectionSatisfiesDeviceCheck(doc: Document, devices: seq<string>, answer: Option<int>)
    requires Discovery.SelectionAsWritten(devices, answer).Saved?
    ensures !Inspect(Store(doc, DeviceIdKey, Str(Discovery.SelectionAsWritten(devices, answer).id))).missingDeviceId
    ensures Inspect(Store(doc, DeviceIdKey, Str(Discovery.SelectionAsWritten(devices, answer).id))).missingLowestPos
         == Inspect(doc).missingLowestPos
  {
  }

  /** Saving or deleting presets never changes the outcome of the check. */
  lemma PresetsDoNotAffectCheck(doc: Document, name: string, value: Number)
    ensures Inspect(Presets.SavePositionDoc(doc, name, value)) == Inspect(doc)
  {
  }
}
