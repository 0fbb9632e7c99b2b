/** Conditional copying between arrays: what copyIfKeysExist and copyIfSet (through
    copyValueIf) do to their destination, and fillIfKeysExist. */
module CopyOperators {
  import opened PhpValues

  /** The test copyValueIf applies to the source key: existence for copyIfKeysExist,
      a non-null value for copyIfSet. */
  datatype Condition = KeyExists | KeyIsSet

  predicate Holds(c: Condition, source: seq<Entry>, k: Key)
  {
    match c
    case KeyExists => HasKey(source, k)
    case KeyIsSet => IsSet(source, k)
  }

  /** A key map pairs a destination key with a source key; an integer destination key
      means the entry was listed without one, and the source key is used instead. */
  function Destination(destKey: Key, sourceKey: Key): Key
  {
    if destKey.IK? then sourceKey else destKey
  }

  /** Key map entry `p` writes destination key `k`. */
  predicate Copies(c: Condition, source: seq<Entry>, p: (Key, Key), k: Key)
  {
    Destination(p.0, p.1) == k && Holds(c, source, p.1)
  }

  /** The destination after every key map entry has been applied in order. */
  function CopiedInto(dest: seq<Entry>, source: seq<Entry>, keyMap: seq<(Key, Key)>, c: Condition): seq<Entry>
  {
    if keyMap == [] then dest
    else
      var prev := CopiedInto(dest, source, keyMap[..|keyMap| - 1], c);
      var (destKey, sourceKey) := keyMap[|keyMap| - 1];
      if Holds(c, source, sourceKey) then Put(prev, Destination(destKey, sourceKey), Lookup(source, sourceKey).value)
      else prev
  }

  /** The index of the last key map entry that copies to `k`, or -1 when none does. */
  function LastCopy(c: Condition, source: seq<Entry>, keyMap: seq<(Key, Key)>, k: Key): (i: int)
    ensures -1 <= i < |keyMap|
    ensures i >= 0 ==> Copies(c, source, keyMap[i], k)
    ensures forall j | i < j < |keyMap| :: !Copies(c, source, keyMap[j], k)
  {
    if keyMap == [] then -1
    else if Copies(c, source, keyMap[|keyMap| - 1], k) then |keyMap| - 1
    else
      var i := LastCopy(c, source, keyMap[..|keyMap| - 1], k);
      assert forall j | i < j < |keyMap| - 1 :: keyMap[..|keyMap| - 1][j] == keyMap[j];
      i
  }

  /** A destination key receives the source value of the last key map entry that copies to
      it; a key no entry copies to keeps its old value or stays absent. Nothing is deleted. */
  lemma {:induction false} CopiedIntoLookup(dest: seq<Entry>, source: seq<Entry>, keyMap: seq<(Key, Key)>, c: Condition, k: Key)
    ensures var i := LastCopy(c, source, keyMap, k);
      Lookup(CopiedInto(dest, source, keyMap, c), k) ==
        if i < 0 then Lookup(dest, k) else Lookup(source, keyMap[i].1)
    ensures HasKey(dest, k) ==> HasKey(CopiedInto(dest, source, keyMap, c), k)
  {
    if keyMap != [] {
      CopiedIntoLookup(dest, source, keyMap[..|keyMap| - 1], c, k);
      var (destKey, sourceKey) := keyMap[|keyMap| - 1];
      if Holds(c, source, sourceKey) {
        PutFacts(CopiedInto(dest, source, keyMap[..|keyMap| - 1], c), Destination(destKey, sourceKey), Lookup(source, sourceKey).value);
      }
    }
  }

  /** Copying never breaks the distinctness of the destination's keys. */
  lemma {:induction false} CopiedIntoUnique(dest: seq<Entry>, source: seq<Entry>, keyMap: seq<(Key, Key)>, c: Condition)
    requires KeysUnique(dest)
    ensures KeysUnique(CopiedInto(dest, source, keyMap, c))
  {
    if keyMap != [] {
      var prev := CopiedInto(dest, source, keyMap[..|keyMap| - 1], c);
      CopiedIntoUnique(dest, source, keyMap[..|keyMap| - 1], c);
      var (destKey, sourceKey) := keyMap[|keyMap| - 1];
      if Holds(c, source, sourceKey) {
        PutUnique(prev, Destination(destKey, sourceKey), Lookup(source, sourceKey).value);
      }
    }
  }

  /** `fillIfKeysExist`: the template with every key that the source also has overwritten by
      the source's value; keys, their order and the other values stay as in the template. */
  method FillIfKeysExist(template: seq<Entry>, source: seq<Entry>) returns (result: seq<Entry>)
    requires KeysUnique(template)
    ensures |result| == |template|
    ensures forall i | 0 <= i < |template| ::
      result[i].key == template[i].key &&
      result[i].val == if HasKey(source, template[i].key) then Lookup(source, template[i].key).value
                       else template[i].val
  {
    result := template;
    for i := 0 to |template|
      invariant |result| == |template| && KeysUnique(result)
      invariant forall j | 0 <= j < |template| :: result[j].key == template[j].key
      invariant forall j | 0 <= j < i ::
        result[j].val == if HasKey(source, template[j].key) then Lookup(source, template[j].key).value
                         else template[j].val
      invariant forall j | i <= j < |template| :: result[j] == template[j]
    {
      var key := template[i].key;
      if HasKey(source, key) {
        var prev := result;
        LookupAt(prev, i);
        PutFacts(prev, key, Lookup(source, key).value);
        result := Put(result, key, Lookup(source, key).value);
        PutUnique(prev, key, Lookup(source, key).value);
        forall j | 0 <= j < |template| ensures result[j].val == if j == i then Lookup(source, key).value else prev[j].val {
          LookupAt(result, j);
          LookupAt(prev, j);
        }
      }
    }
  }
}
