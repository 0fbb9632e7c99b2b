/** Existence-guarded reads: get, getIfSet, tryGet, getFirstSet and anyKeysExist. */
module Accessors {
  import opened PhpValues
  import opened PhpKeys

  /** `get`: the stored value whenever the key exists, even when that value is null. */
  function Get(a: seq<Entry>, k: Key, default: Value): (r: Value)
    ensures HasKey(a, k) ==> Lookup(a, k) == Some(r)
    ensures !HasKey(a, k) ==> r == default
  {
    match Lookup(a, k)
    case Some(v) => v
    case None => default
  }

  /** `getIfSet`: the stored value only when the key exists with a non-null value. */
  function GetIfSet(a: seq<Entry>, k: Key, default: Value): (r: Value)
    ensures IsSet(a, k) ==> Lookup(a, k) == Some(r) && r != Null
    ensures !IsSet(a, k) ==> r == default
  {
    if IsSet(a, k) then Lookup(a, k).value else default
  }

  /** The two getters agree on keys that hold a non-null value, and `getIfSet` falls back to
      the default exactly where `get` would return a stored null. */
  lemma GetAndGetIfSet(a: seq<Entry>, k: Key, default: Value)
    ensures Get(a, k, default) != Null ==> GetIfSet(a, k, default) == Get(a, k, default)
    ensures HasKey(a, k) && Lookup(a, k) == Some(Null) ==>
      Get(a, k, default) == Null && GetIfSet(a, k, default) == default
  {
  }

  /** `tryGet`: reports whether `key` is a string or integer present in `a`, and yields the
      stored value, or null when it is not found. */
  function TryGet(a: seq<Entry>, key: Value): (r: (bool, Value))
    ensures r.0 <==> AsKey(key).Some? && HasKey(a, AsKey(key).value)
    ensures r.0 ==> Lookup(a, AsKey(key).value) == Some(r.1)
    ensures !r.0 ==> r.1 == Null
  {
    match AsKey(key)
    case Some(k) =>
      (match Lookup(a, k)
       case Some(v) => (true, v)
       case None => (false, Null))
    case None => (false, Null)
  }

  /** `getFirstSet`: the value of the first listed key that is set, or the default. */
  method GetFirstSet(a: seq<Entry>, keys: seq<Key>, default: Value) returns (r: Value)
    ensures (exists i | 0 <= i < |keys| :: IsSet(a, keys[i])) ==>
      exists i | 0 <= i < |keys| ::
        IsSet(a, keys[i]) && Lookup(a, keys[i]) == Some(r) &&
        forall j | 0 <= j < i :: !IsSet(a, keys[j])
    ensures (forall i | 0 <= i < |keys| :: !IsSet(a, keys[i])) ==> r == default
  {
    for i := 0 to |keys|
      invariant forall j | 0 <= j < i :: !IsSet(a, keys[j])
    {
      if IsSet(a, keys[i]) {
        return Lookup(a, keys[i]).value;
      }
    }
    return default;
  }

  /** `anyKeysExist`: whether at least one of the keys is present (whatever its value). */
  method AnyKeysExist(a: seq<Entry>, keys: seq<Key>) returns (r: bool)
    ensures r <==> exists i | 0 <= i < |keys| :: HasKey(a, keys[i])
  {
    for i := 0 to |keys|
      invariant forall j | 0 <= j < i :: !HasKey(a, keys[j])
    {
      if HasKey(a, keys[i]) {
        return true;
      }
    }
    return false;
  }
}
