/** SimpleStore, the settings store of the main process: a string-keyed object
    kept in memory and written to a JSON file after every change. The file
    system is not modelled: what the file holds is a ghost field, and whether
    a read or a write succeeds is a parameter. */
module Config {

  /** The values a setting can hold. `Undefined` is JavaScript's undefined, which
      `set` can store but JSON cannot represent. */
  datatype Value = Undefined | Null | Bool(b: bool) | Number(n: int) | Str(s: string)

  /** The settings file: absent, present but unreadable or not valid JSON, or
      parsed to an object. */
  datatype ConfigFile = Missing | Unreadable | Parsed(entries: map<string, Value>)

  /** load: the parsed object, or an empty one when the file is missing or
      reading or parsing fails. */
  function Load(file: ConfigFile): (data: map<string, Value>)
    ensures file.Parsed? ==> data == file.entries
    ensures !file.Parsed? ==> data == map[]
  {
    match file
    case Parsed(entries) => entries
    case _ => map[]
  }

  /** What `JSON.stringify` keeps of the data: every key whose value is not undefined. */
  function Persisted(data: map<string, Value>): (r: map<string, Value>)
    ensures forall k :: k in r <==> k in data && data[k] != Undefined
    ensures forall k :: k in r ==> r[k] == data[k]
  {
    map k | k in data && data[k] != Undefined :: data[k]
  }

  /** `get(key, defaultValue = null)`: the stored value unless it is undefined,
      else the default; an omitted or undefined default is null. */
  function Lookup(data: map<string, Value>, key: string, default: Value): Value {
    var fallback := if default == Undefined then Null else default;
    if key in data && data[key] != Undefined then data[key] else fallback
  }

  /** get never answers undefined. */
  lemma LookupDefined(data: map<string, Value>, key: string, default: Value)
    ensures Lookup(data, key, default) != Undefined
    ensures key !in data ==> Lookup(data, key, default) == (if default == Undefined then Null else default)
  {
  }

  /** After `set(key, value)` with a defined value, get returns it; other keys
      read as before. Setting undefined makes the key read as the default. */
  lemma LookupAfterSet(data: map<string, Value>, key: string, value: Value, other: string, default: Value)
    ensures value != Undefined ==> Lookup(data[key := value], key, default) == value
    ensures value == Undefined ==> Lookup(data[key := value], key, default) == Lookup(map[], key, default)
    ensures other != key ==> Lookup(data[key := value], other, default) == Lookup(data, other, default)
  {
  }

  /** The last of two sets of the same key wins. */
  lemma LastSetWins(data: map<string, Value>, key: string, v1: Value, v2: Value)
    ensures data[key := v1][key := v2] == data[key := v2]
  {
  }

  /** After `delete(key)`, get returns the default; other keys read as before. */
  lemma LookupAfterDelete(data: map<string, Value>, key: string, other: string, default: Value)
    ensures Lookup(data - {key}, key, default) == Lookup(map[], key, default)
    ensures other != key ==> Lookup(data - {key}, other, default) == Lookup(data, other, default)
  {
  }

  /** Deleting a key and setting it to undefined read the same. */
  lemma DeleteReadsAsUndefined(data: map<string, Value>, key: string, other: string, default: Value)
    ensures Lookup(data - {key}, other, default) == Lookup(data[key := Undefined], other, default)
  {
  }

  /** Loading what a successful save wrote answers every get as the store did. */
  lemma ReloadAgrees(data: map<string, Value>, key: string, default: Value)
    ensures Lookup(Load(Parsed(Persisted(data))), key, default) == Lookup(data, key, default)
  {
  }

  /** Saving what was loaded writes the same object back when it holds no undefined. */
  lemma SaveAfterLoad(entries: map<string, Value>)
    requires forall k :: k in entries ==> entries[k] != Undefined
    ensures Persisted(Load(Parsed(entries))) == entries
  {
  }

  class SimpleStore {
    var data: map<string, Value>
    /** The contents of the settings file. */
    ghost var file: ConfigFile

    /** The constructor loads the file. */
    constructor (file: ConfigFile)
      ensures data == Load(file) && this.file == file
    {
      data := Load(file);
      this.file := file;
    }

    /** save: write the data as JSON; a failed write is logged and swallowed,
        and the file keeps what it held. */
    method Save(writeOk: bool)
      modifies this`file
      ensures writeOk ==> file == Parsed(Persisted(data))
      ensures !writeOk ==> file == old(file)
    {
      if writeOk {
        file := Parsed(Persisted(data));
      }
    }

    /** get. */
    method Get(key: string, default: Value) returns (v: Value)
      ensures v == Lookup(data, key, default)
      ensures v != Undefined
    {
      if key in data && data[key] != Undefined {
        v := data[key];
      } else if default == Undefined {
        v := Null;
      } else {
        v := default;
      }
    }

    /** set, then save. The in-memory data changes even when the write fails. */
    method Set(key: string, value: Value, writeOk: bool)
      modifies this
      ensures data == old(data)[key := value]
      ensures writeOk ==> file == Parsed(Persisted(data))
      ensures !writeOk ==> file == old(file)
    {
      data := data[key := value];
      Save(writeOk);
    }

    /** delete, then save. */
    method Delete(key: string, writeOk: bool)
      modifies this
      ensures data == old(data) - {key}
      ensures writeOk ==> file == Parsed(Persisted(data))
      ensures !writeOk ==> file == old(file)
    {
      data := data - {key};
      Save(writeOk);
    }

    /** clear, then save. */
    method Clear(writeOk: bool)
      modifies this
      ensures data == map[]
      ensures writeOk ==> file == Parsed(map[])
      ensures !writeOk ==> file == old(file)
    {
      data := map[];
      Save(writeOk);
    }
  }
}
