/**
 * The record store: the JSON object in `data/models.json` that maps a model
 * name to its description and optional image path. Python's dict keeps keys in
 * insertion order, so the store is an association list; `ToMap` is its view as
 * a mapping.
 */
module RecordStore {
  import opened Wrappers

  /** The value stored under a name: `{"description": ..., "image": ...}`. */
  datatype Record = Record(description: string, image: Option<string>)

  /** One key/value pair of the stored object. */
  datatype Entry = Entry(name: string, record: Record)

  /** The stored object, in its keys' insertion order. */
  type Models = seq<Entry>

  /** The keys in order. */
  function Names(m: Models): (ns: seq<string>)
    ensures |ns| == |m|
    ensures forall k :: 0 <= k < |m| ==> ns[k] == m[k].name
  {
    if m == [] then [] else [m[0].name] + Names(m[1..])
  }

  /** No name occurs twice: what a Python dict, and so the saved file, guarantees. */
  predicate UniqueNames(m: Models) {
    forall i, j :: 0 <= i < j < |m| ==> m[i].name != m[j].name
  }

  /**
   * The store viewed as a mapping. It is meant for stores with unique names,
   * as a Python dict has; with a repeated name the first entry would win here.
   */
  function ToMap(m: Models): map<string, Record> {
    if m == [] then map[] else ToMap(m[1..])[m[0].name := m[0].record]
  }

  /**
   * Python's `models[name] = record`: an existing key keeps its position and
   * gets the new value; a new key is appended.
   */
  function Put(m: Models, name: string, record: Record): (r: Models)
    ensures |r| == if name in Names(m) then |m| else |m| + 1
  {
    if m == [] then [Entry(name, record)]
    else if m[0].name == name then [Entry(name, record)] + m[1..]
    else [m[0]] + Put(m[1..], name, record)
  }

  /** The persisted file: either it does not exist, or it holds a saved object. */
  datatype StoreFile = Absent | Saved(models: Models)

  /** `load_models`: an absent file reads as the empty object. */
  function Load(f: StoreFile): Models {
    match f
    case Absent => []
    case Saved(m) => m
  }

  /** Writing the whole object back with `json.dump`. */
  function Save(m: Models): StoreFile {
    Saved(m)
  }

  /** Loading when the file does not exist gives the empty mapping, and a save reads back unchanged. */
  lemma LoadSave(m: Models)
    ensures ToMap(Load(Absent)) == map[] && Names(Load(Absent)) == []
    ensures Load(Save(m)) == m
  {
  }

  /** The mapping view's keys are exactly the names. */
  lemma {:induction false} ToMapKeys(m: Models)
    ensures ToMap(m).Keys == set k | 0 <= k < |m| :: m[k].name
  {
    if m != [] {
      ToMapKeys(m[1..]);
      assert forall k :: 1 <= k < |m| ==> m[k] == m[1..][k - 1];
      assert forall k :: 0 <= k < |m| - 1 ==> m[1..][k] == m[k + 1];
    }
  }

  /** With unique names, every entry is what the mapping view gives for its name. */
  lemma {:induction false} ToMapAt(m: Models, k: nat)
    requires UniqueNames(m) && k < |m|
    ensures m[k].name in ToMap(m) && ToMap(m)[m[k].name] == m[k].record
  {
    if k > 0 {
      ToMapAt(m[1..], k - 1);
    }
  }

  /** Assigning one key is a map update: that key gets the record, every other key keeps its value. */
  lemma {:induction false} PutUpdates(m: Models, name: string, record: Record)
    ensures ToMap(Put(m, name, record)) == ToMap(m)[name := record]
  {
    if m != [] {
      if m[0].name == name {
        assert ([Entry(name, record)] + m[1..])[1..] == m[1..];
      } else {
        PutUpdates(m[1..], name, record);
        assert ([m[0]] + Put(m[1..], name, record))[1..] == Put(m[1..], name, record);
      }
    }
  }

  /** Key order after an assignment: unchanged for an existing key, the new key last otherwise. */
  lemma {:induction false} PutOrder(m: Models, name: string, record: Record)
    ensures name in Names(m) ==> Names(Put(m, name, record)) == Names(m)
    ensures name !in Names(m) ==> Names(Put(m, name, record)) == Names(m) + [name]
  {
    if m != [] {
      PutOrder(m[1..], name, record);
      assert Names(m) == [m[0].name] + Names(m[1..]);
      if m[0].name == name {
        assert ([Entry(name, record)] + m[1..])[1..] == m[1..];
      } else {
        assert ([m[0]] + Put(m[1..], name, record))[1..] == Put(m[1..], name, record);
      }
    }
  }

  /** An assignment keeps the names unique. */
  lemma PutKeepsUnique(m: Models, name: string, record: Record)
    requires UniqueNames(m)
    ensures UniqueNames(Put(m, name, record))
  {
    PutOrder(m, name, record);
    var r := Put(m, name, record);
    assert forall k :: 0 <= k < |r| ==> r[k].name == Names(r)[k];
    assert forall k :: 0 <= k < |m| ==> m[k].name == Names(m)[k];
  }

  /** Assigning the same record to the same key twice is the same as once. */
  lemma {:induction false} PutIdempotent(m: Models, name: string, record: Record)
    ensures Put(Put(m, name, record), name, record) == Put(m, name, record)
  {
    if m != [] && m[0].name != name {
      PutIdempotent(m[1..], name, record);
      assert ([m[0]] + Put(m[1..], name, record))[1..] == Put(m[1..], name, record);
    }
  }

}
