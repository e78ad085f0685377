/**
 * The registry of named height presets, kept under the `positions` key of
 * the configuration document (`savePositionToConfig`, `cmdSavePosition`,
 * `cmdDeletePosition`). A non-positive height deletes the preset.
 */
module Presets {
  import opened Wrappers
  import opened JsValues
  import opened Storage
  import Telemetry

  const PositionsKey: string := "positions"

  /**
   * `config.get('positions', {})` when it is a JSON object. Any other stored
   * value is reported as None, and the model then writes nothing.
   */
  function Positions(doc: Document): (r: Option<map<string, Value>>)
    ensures PositionsKey !in doc ==> r == Some(map[])
    ensures PositionsKey in doc ==> (r.Some? <==> doc[PositionsKey].Obj?)
    ensures PositionsKey in doc && r.Some? ==> r.value == doc[PositionsKey].fields
  {
    match Lookup(doc, PositionsKey, Obj(map[]))
    case Obj(fields) => Some(fields)
    case _ => None
  }

  /** A height that `value <= 0` turns into a delete instruction. */
  predicate IsDelete(value: Number) {
    value.Finite? && value.n <= 0
  }

  /** The registry after `savePositionToConfig(name, value)`. */
  function UpdatePreset(positions: map<string, Value>, name: string, value: Number): (r: map<string, Value>)
    ensures IsDelete(value) ==> name !in r && r.Keys == positions.Keys - {name}
    ensures !IsDelete(value) ==> name in r && r[name] == NumberToJson(value) && r.Keys == positions.Keys + {name}
    ensures forall k :: k in positions && k != name ==> k in r && r[k] == positions[k]
  {
    if IsDelete(value) then positions - {name} else positions[name := NumberToJson(value)]
  }

  /** The whole document after `savePositionToConfig(name, value)`. */
  function SavePositionDoc(doc: Document, name: string, value: Number): (r: Document)
    ensures Positions(doc).None? ==> r == doc
    ensures Positions(doc).Some? ==> Positions(r) == Some(UpdatePreset(Positions(doc).value, name, value))
    ensures Positions(doc).Some? ==> PositionsKey in r && r[PositionsKey] == Obj(UpdatePreset(Positions(doc).value, name, value))
    ensures forall k :: k in doc && k != PositionsKey ==> k in r && r[k] == doc[k]
    ensures r.Keys - {PositionsKey} == doc.Keys - {PositionsKey}
  {
    match Positions(doc)
    case None => doc
    case Some(positions) => Store(doc, PositionsKey, Obj(UpdatePreset(positions, name, value)))
  }

  /** Deleting twice is deleting once. */
  lemma DeleteIdempotent(positions: map<string, Value>, name: string)
    ensures UpdatePreset(UpdatePreset(positions, name, Finite(0)), name, Finite(0))
         == UpdatePreset(positions, name, Finite(0))
  {
  }

  /** The last save of a name decides its preset. */
  lemma SaveLastWriterWins(positions: map<string, Value>, name: string, v1: Number, v2: Number)
    ensures UpdatePreset(UpdatePreset(positions, name, v1), name, v2) == UpdatePreset(positions, name, v2)
  {
  }

  /** Save then list shows the height; delete then list no longer holds the name. */
  lemma PresetRoundTrip(doc: Document, name: string, height: int)
    requires height > 0
    requires Positions(doc).Some?
    ensures var saved := SavePositionDoc(doc, name, Finite(height));
      Positions(saved).Some? && name in Positions(saved).value && Positions(saved).value[name] == Num(height)
    ensures var deleted := SavePositionDoc(SavePositionDoc(doc, name, Finite(height)), name, Finite(0));
      Positions(deleted).Some? && name !in Positions(deleted).value &&
      Positions(deleted).value == Positions(doc).value - {name}
  {
  }

  datatype SaveOutcome = Stored | Deleted | NotAnObject

  /** `savePositionToConfig(name, value)` */
  method SavePositionToConfig(config: JsonStorage, name: string, value: Number) returns (outcome: SaveOutcome)
    requires config.Valid()
    modifies config
    ensures config.Valid() && config.dirExists
    ensures config.file == Some(SavePositionDoc(old(config.Contents()), name, value))
    ensures outcome == NotAnObject <==> Positions(old(config.Contents())).None?
    ensures outcome == Deleted <==> Positions(old(config.Contents())).Some? && IsDelete(value)
  {
    var positions := config.Get(PositionsKey, Obj(map[]));
    if !positions.Obj? {
      return NotAnObject;
    }
    if value.Finite? && value.n <= 0 {
      config.Set(PositionsKey, Obj(positions.fields - {name}));
      outcome := Deleted;
    } else {
      config.Set(PositionsKey, Obj(positions.fields[name := NumberToJson(value)]));
      outcome := Stored;
    }
  }

  datatype CommandOutcome =
    | EmptyName            // "Position name can not be empty"
    | ReadFailed           // the live read threw: no device, protocol error, bad buffer
    | Done(saved: SaveOutcome)

  /**
   * `cmdSavePosition(name, heightMm)`, given `parseInt(heightMm)` as `parsed`.
   * When `parsed` is 0 or NaN the height is read from the desk: `reading` is
   * the buffer the position characteristic returned (None when connecting or
   * reading failed) and `offset` is `parseInt(config.get('lowest_pos_mm'))`.
   */
  method CmdSavePosition(config: JsonStorage, name: string, parsed: Number,
                         reading: Option<seq<Telemetry.Byte>>, offset: Number)
    returns (outcome: CommandOutcome)
    requires config.Valid()
    modifies config
    ensures config.Valid()
    ensures name == "" ==> outcome == EmptyName && unchanged(config)
    ensures name != "" && TruthyNumber(parsed) ==>
      outcome.Done? && config.file == Some(SavePositionDoc(old(config.Contents()), name, parsed))
    ensures name != "" && !TruthyNumber(parsed) && reading.None? ==>
      outcome == ReadFailed && config.Contents() == old(config.Contents())
    ensures name != "" && !TruthyNumber(parsed) && reading.Some? ==>
      match Telemetry.BufferPositionToMm(reading.value, offset)
      case Failure(_) => outcome == ReadFailed && config.Contents() == old(config.Contents())
      case Success(mm) => outcome.Done? && config.file == Some(SavePositionDoc(old(config.Contents()), name, mm))
  {
    if name == "" {
      return EmptyName;
    }
    if !(parsed.Finite? && parsed.n != 0) {
      if reading.None? {
        return ReadFailed;
      }
      var mm := Telemetry.BufferPositionToMm(reading.value, offset);
      if mm.Failure? {
        return ReadFailed;
      }
      var saved := SavePositionToConfig(config, name, mm.value);
      outcome := Done(saved);
    } else {
      var saved := SavePositionToConfig(config, name, parsed);
      outcome := Done(saved);
    }
  }

  /** `cmdDeletePosition(name)`: saving the height 0. */
  method CmdDeletePosition(config: JsonStorage, name: string) returns (outcome: CommandOutcome)
    requires config.Valid()
    modifies config
    ensures config.Valid()
    ensures name == "" ==> outcome == EmptyName && unchanged(config)
    ensures name != "" ==> outcome.Done? && outcome.saved != Stored
    ensures name != "" ==> config.file == Some(SavePositionDoc(old(config.Contents()), name, Finite(0)))
  {
    if name == "" {
      return EmptyName;
    }
    var saved := SavePositionToConfig(config, name, Finite(0));
    outcome := Done(saved);
  }
}
