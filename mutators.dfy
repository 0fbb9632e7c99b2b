/** The operations that change their array argument in place: unsetAll,
    nullifyEmptyStrings, rename, copyIfKeysExist, copyIfSet and their helper copyValueIf. */
module Mutators {
  import opened PhpValues
  import opened CopyOperators

  /** The characters PHP's `trim` strips by default. */
  predicate IsTrimmed(c: char)
  {
    c == ' ' || c == '\t' || c == '\n' || c == '\r' || c == '\0' || c == '\U{000B}'
  }

  /** `trim($s) === ''`: the string is empty or made only of whitespace. */
  predicate IsBlank(s: string)
  {
    forall i | 0 <= i < |s| :: IsTrimmed(s[i])
  }

  /** The value nullifyEmptyStrings leaves behind for `v`. */
  function Nullified(v: Value): (r: Value)
    ensures r == Null <==> v == Null || (v.Str? && IsBlank(v.s))
    ensures r != Null ==> r == v
  {
    if v.Str? && IsBlank(v.s) then Null else v
  }

  /** The caller's array variable that a by-reference parameter aliases. */
  class ArrayRef {
    var entries: seq<Entry>

    constructor (es: seq<Entry>)
      ensures entries == es
    {
      entries := es;
    }

    /** `unsetAll`: removes every listed key; missing keys are ignored. */
    method UnsetAll(keys: seq<Key>)
      modifies this
      ensures entries == Without(old(entries), keys)
      ensures forall k | k in keys :: !HasKey(entries, k)
      ensures forall k | k !in keys :: Lookup(entries, k) == Lookup(old(entries), k)
    {
      WithoutNothing(entries);
      for i := 0 to |keys|
        invariant entries == Without(old(entries), keys[..i])
      {
        WithoutAgain(old(entries), keys[..i], keys[i]);
        entries := Without(entries, [keys[i]]);
        assert keys[..i + 1] == keys[..i] + [keys[i]];
      }
      assert keys[..|keys|] == keys;
      forall k {
        LookupWithout(old(entries), keys, k);
      }
    }

    /** `nullifyEmptyStrings`: every string value that is empty or whitespace becomes null;
        keys, order and all other values stay. */
    method NullifyEmptyStrings()
      modifies this
      ensures |entries| == |old(entries)|
      ensures forall i | 0 <= i < |entries| ::
        entries[i] == Entry(old(entries)[i].key, Nullified(old(entries)[i].val))
    {
      for i := 0 to |entries|
        invariant |entries| == |old(entries)|
        invariant forall j | 0 <= j < i ::
          entries[j] == Entry(old(entries)[j].key, Nullified(old(entries)[j].val))
        invariant forall j | i <= j < |entries| :: entries[j] == old(entries)[j]
      {
        var value := entries[i].val;
        if value.Str? && IsBlank(value.s) {
          entries := entries[i := Entry(entries[i].key, Null)];
        }
      }
    }

    /** `rename`: moves the value of `oldKey` to `newKey`. Fails with InvalidArgument, leaving
        the array untouched, when `oldKey` is absent or when `newKey` is present and
        overwriting was not asked for. */
    method Rename(oldKey: Key, newKey: Key, overwrite: bool) returns (r: Outcome)
      modifies this
      ensures r == Pass <==> HasKey(old(entries), oldKey) && (overwrite || !HasKey(old(entries), newKey))
      ensures r.Fail? ==> r.error == InvalidArgument && entries == old(entries)
      ensures r.Pass? ==>
        entries == Put(Without(old(entries), [oldKey]), newKey, Lookup(old(entries), oldKey).value)
      ensures r.Pass? ==> Lookup(entries, newKey) == Lookup(old(entries), oldKey)
      ensures r.Pass? && oldKey != newKey ==> !HasKey(entries, oldKey)
      ensures r.Pass? ==> forall k | k != oldKey && k != newKey :: Lookup(entries, k) == Lookup(old(entries), k)
    {
      if !HasKey(entries, oldKey) {
        return Fail(InvalidArgument);
      }
      if HasKey(entries, newKey) && !overwrite {
        return Fail(InvalidArgument);
      }
      var value := Lookup(entries, oldKey).value;
      forall k {
        LookupWithout(entries, [oldKey], k);
      }
      entries := Without(entries, [oldKey]);
      PutFacts(entries, newKey, value);
      entries := Put(entries, newKey, value);
      return Pass;
    }

    /** `copyValueIf`: for each key map entry whose source key passes the condition, writes
        the source value under the destination key. */
    method CopyValueIf(source: seq<Entry>, keyMap: seq<(Key, Key)>, c: Condition)
      modifies this
      ensures entries == CopiedInto(old(entries), source, keyMap, c)
    {
      for i := 0 to |keyMap|
        invariant entries == CopiedInto(old(entries), source, keyMap[..i], c)
      {
        var (destKey, sourceKey) := keyMap[i];
        if destKey.IK? {
          destKey := sourceKey;
        }
        if Holds(c, source, sourceKey) {
          entries := Put(entries, destKey, Lookup(source, sourceKey).value);
        }
        assert keyMap[..i + 1][..i] == keyMap[..i];
      }
      assert keyMap[..|keyMap|] == keyMap;
    }

    /** `copyIfKeysExist`: copies the source values whose keys exist in the source. */
    method CopyIfKeysExist(source: seq<Entry>, keyMap: seq<(Key, Key)>)
      modifies this
      ensures entries == CopiedInto(old(entries), source, keyMap, KeyExists)
    {
      CopyValueIf(source, keyMap, KeyExists);
    }

    /** `copyIfSet`: copies the source values that are set (present and not null). */
    method CopyIfSet(source: seq<Entry>, keyMap: seq<(Key, Key)>)
      modifies this
      ensures entries == CopiedInto(old(entries), source, keyMap, KeyIsSet)
    {
      CopyValueIf(source, keyMap, KeyIsSet);
    }
  }

  /** Unsetting one more key after a batch equals unsetting the longer batch. */
  lemma {:induction false} WithoutAgain(es: seq<Entry>, ks: seq<Key>, k: Key)
    ensures Without(Without(es, ks), [k]) == Without(es, ks + [k])
  {
    if es != [] {
      WithoutAgain(es[1..], ks, k);
    }
  }
}
