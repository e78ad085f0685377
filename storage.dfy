/**
 * The JSON-file key-value store (`JsonStorage`). The file on disk is modelled
 * by two fields: whether its directory exists and, if the file exists, the
 * JSON object it holds. JSON text encoding and decoding are taken as exact
 * inverses and are not modelled; only own keys of the object are considered.
 */
module Storage {
  import opened Wrappers
  import opened JsValues

  /** The parsed content of the storage file: a JSON object. */
  type Document = map<string, Value>

  /** The document a read sees: an absent file is first created as `{}`. */
  function Materialise(file: Option<Document>): (doc: Document)
    ensures file.None? ==> doc == map[]
    ensures file.Some? ==> doc == file.value
  {
    file.GetOr(map[])
  }

  /** `key in json ? json[key] : defaultValue`, over own keys. */
  function Lookup(doc: Document, key: string, default: Value): (r: Value)
    ensures key in doc ==> r == doc[key]
    ensures key !in doc ==> r == default
  {
    if key in doc then doc[key] else default
  }

  /** `json[key] = value`: the key now maps to the value, nothing else changes. */
  function Store(doc: Document, key: string, value: Value): (r: Document)
    ensures r.Keys == doc.Keys + {key}
    ensures r[key] == value
    ensures forall k :: k in doc && k != key ==> r[k] == doc[k]
  {
    doc[key := value]
  }

  /** `delete json[key]`: the key is gone, nothing else changes. */
  function Remove(doc: Document, key: string): (r: Document)
    ensures r.Keys == doc.Keys - {key}
    ensures forall k :: k in r ==> r[k] == doc[k]
    ensures key !in doc ==> r == doc
  {
    doc - {key}
  }

  lemma GetAfterSet(doc: Document, key: string, value: Value, other: string, default: Value)
    ensures Lookup(Store(doc, key, value), key, default) == value
    ensures other != key ==> Lookup(Store(doc, key, value), other, default) == Lookup(doc, other, default)
  {
  }

  lemma LastWriterWins(doc: Document, key: string, v1: Value, v2: Value)
    ensures Store(Store(doc, key, v1), key, v2) == Store(doc, key, v2)
  {
  }

  lemma GetAfterDelete(doc: Document, key: string, other: string, default: Value)
    ensures Lookup(Remove(doc, key), key, default) == default
    ensures other != key ==> Lookup(Remove(doc, key), other, default) == Lookup(doc, other, default)
  {
  }

  class JsonStorage {
    const filePath: string
    /** `fs.existsSync(this.fileDir)` */
    var dirExists: bool
    /** The JSON object held by the file at `filePath`, when the file exists. */
    var file: Option<Document>

    /** A file exists only inside an existing directory. */
    ghost predicate Valid()
      reads this
    {
      file.Some? ==> dirExists
    }

    /** The document every read of the store sees. */
    function Contents(): (doc: Document)
      reads this
    {
      Materialise(file)
    }

    /** The constructor only records the path; the filesystem is given as it is. */
    constructor (filePath: string, dirExists: bool, file: Option<Document>)
      requires file.Some? ==> dirExists
      ensures Valid()
      ensures this.filePath == filePath && this.dirExists == dirExists && this.file == file
    {
      this.filePath := filePath;
      this.dirExists := dirExists;
      this.file := file;
    }

    /** Creates the directory and a `{}` file when missing, then reads the file. */
    method ReadFileData() returns (doc: Document)
      requires Valid()
      modifies this
      ensures Valid() && dirExists
      ensures file == Some(doc)
      ensures doc == old(Contents())
      ensures old(file).Some? ==> unchanged(this)
    {
      if !dirExists {
        dirExists := true;
        file := Some(map[]);
      } else if file.None? {
        file := Some(map[]);
      }
      doc := file.value;
    }

    method WriteToFile(data: Document)
      requires Valid() && dirExists
      modifies this
      ensures Valid() && dirExists
      ensures file == Some(data)
    {
      file := Some(data);
    }

    method Get(key: string, default: Value := Null) returns (r: Value)
      requires Valid()
      modifies this
      ensures Valid() && dirExists && file == Some(old(Contents()))
      ensures r == Lookup(old(Contents()), key, default)
    {
      var json := ReadFileData();
      if key in json {
        r := json[key];
      } else {
        r := default;
      }
    }

    method Set(key: string, value: Value)
      requires Valid()
      modifies this
      ensures Valid() && dirExists
      ensures file == Some(Store(old(Contents()), key, value))
    {
      var json := ReadFileData();
      json := json[key := value];
      WriteToFile(json);
    }

    method Delete(key: string)
      requires Valid()
      modifies this
      ensures Valid() && dirExists
      ensures file == Some(Remove(old(Contents()), key))
      ensures key !in old(Contents()) ==> Contents() == old(Contents())
    {
      var json := ReadFileData();
      json := json - {key};
      WriteToFile(json);
    }

    method GetAll() returns (doc: Document)
      requires Valid()
      modifies this
      ensures Valid() && dirExists && file == Some(old(Contents()))
      ensures doc == old(Contents())
      ensures old(file).None? ==> doc == map[]
    {
      doc := ReadFileData();
    }

    /** `Object.keys(this.getAll())`: each key of the document exactly once. */
    method GetAllKeys() returns (keys: seq<string>)
      requires Valid()
      modifies this
      ensures Valid() && dirExists && file == Some(old(Contents()))
      ensures forall k :: k in keys <==> k in old(Contents())
      ensures |keys| == |old(Contents())|
      ensures forall i, j :: 0 <= i < j < |keys| ==> keys[i] != keys[j]
    {
      var doc := GetAll();
      var rest := doc.Keys;
      keys := [];
      while rest != {}
        invariant rest <= doc.Keys
        invariant forall k :: k in keys <==> k in doc.Keys - rest
        invariant |keys| + |rest| == |doc.Keys|
        invariant forall i, j :: 0 <= i < j < |keys| ==> keys[i] != keys[j]
        decreases |rest|
      {
        var k :| k in rest;
        assert k !in keys;
        assert |rest - {k}| == |rest| - 1;
        keys := keys + [k];
        rest := rest - {k};
      }
    }
  }
}
