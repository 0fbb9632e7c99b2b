/** Building one array out of rows (extract) and nesting items into records (embedInto). */
module Extraction {
  import opened PhpValues
  import opened PhpKeys
  import opened Accessors

  /** The duplicate policies extract accepts. */
  predicate IsPolicy(duplicateBehavior: string)
  {
    duplicateBehavior == "takeFirst" || duplicateBehavior == "takeLast" || duplicateBehavior == "throw"
  }

  /** The key a row contributes: the row's value under `keyIndex` (null when missing), when
      the row is an array and that value is a string or an integer. */
  function RowKey(row: Entry, keyIndex: Key): Option<Key>
  {
    if row.val.Arr? then AsKey(Get(row.val.entries, keyIndex, Null)) else None
  }

  /** The value a row contributes: its value under `valueIndex`, null when missing. */
  function RowValue(row: Entry, valueIndex: Key): Value
    requires row.val.Arr?
  {
    Get(row.val.entries, valueIndex, Null)
  }

  /** One row's effect on the array built so far: the array after the row, or the error the
      row raises. */
  function ExtractRow(row: Entry, keyIndex: Key, valueIndex: Key, duplicateBehavior: string, acc: seq<Entry>): Result<seq<Entry>>
  {
    if !row.val.Arr? then Err(InvalidArgument)
    else match RowKey(row, keyIndex)
      case None => Err(UnexpectedValue)
      case Some(k) =>
        if !HasKey(acc, k) then Ok(Put(acc, k, RowValue(row, valueIndex)))
        else if duplicateBehavior == "throw" then Err(Generic)
        else if duplicateBehavior == "takeLast" then Ok(Put(acc, k, RowValue(row, valueIndex)))
        else Ok(acc)
  }

  /** The rows from the current one on, added to the array built so far. */
  function ExtractFrom(rows: seq<Entry>, keyIndex: Key, valueIndex: Key, duplicateBehavior: string, acc: seq<Entry>): Result<seq<Entry>>
  {
    if rows == [] then Ok(acc)
    else match ExtractRow(rows[0], keyIndex, valueIndex, duplicateBehavior, acc)
      case Err(e) => Err(e)
      case Ok(next) => ExtractFrom(rows[1..], keyIndex, valueIndex, duplicateBehavior, next)
  }

  /** What extract returns: the policy and both indexes are checked before any row. */
  function Extracted(input: seq<Entry>, keyIndex: Value, valueIndex: Value, duplicateBehavior: string): Result<seq<Entry>>
  {
    if !IsPolicy(duplicateBehavior) then Err(InvalidArgument)
    else match (AsKey(keyIndex), AsKey(valueIndex))
      case (Some(ki), Some(vi)) => ExtractFrom(input, ki, vi, duplicateBehavior, [])
      case _ => Err(InvalidArgument)
  }

  /** `extract`: maps each row's key-index value to its value-index value. */
  method Extract(input: seq<Entry>, keyIndex: Value, valueIndex: Value, duplicateBehavior: string) returns (r: Result<seq<Entry>>)
    ensures r == Extracted(input, keyIndex, valueIndex, duplicateBehavior)
    ensures !IsPolicy(duplicateBehavior) ==> r == Err(InvalidArgument)
    ensures AsKey(keyIndex).None? || AsKey(valueIndex).None? ==> r == Err(InvalidArgument)
    ensures r.Ok? ==> KeysUnique(r.value)
  {
    if !IsPolicy(duplicateBehavior) {
      return Err(InvalidArgument);
    }
    if AsKey(keyIndex).None? || AsKey(valueIndex).None? {
      return Err(InvalidArgument);
    }
    var ki, vi := AsKey(keyIndex).value, AsKey(valueIndex).value;
    var result := [];
    for i := 0 to |input|
      invariant KeysUnique(result)
      invariant ExtractFrom(input[i..], ki, vi, duplicateBehavior, result) == ExtractFrom(input, ki, vi, duplicateBehavior, [])
    {
      assert input[i..][1..] == input[i + 1..];
      var row := input[i].val;
      if !row.Arr? {
        return Err(InvalidArgument);
      }
      var key := Get(row.entries, ki, Null);
      if AsKey(key).None? {
        return Err(UnexpectedValue);
      }
      var k := AsKey(key).value;
      var value := Get(row.entries, vi, Null);
      if !HasKey(result, k) {
        PutUnique(result, k, value);
        result := Put(result, k, value);
        continue;
      }
      if duplicateBehavior == "throw" {
        return Err(Generic);
      }
      if duplicateBehavior == "takeLast" {
        PutUnique(result, k, value);
        result := Put(result, k, value);
      }
    }
    assert input[|input|..] == [];
    return Ok(result);
  }

  /** Every row is an array whose key-index value is a string or an integer. */
  predicate RowsValid(rows: seq<Entry>, keyIndex: Key)
  {
    forall i | 0 <= i < |rows| :: RowKey(rows[i], keyIndex).Some?
  }

  lemma RowsValidTail(rows: seq<Entry>, keyIndex: Key)
    requires rows != [] && RowsValid(rows, keyIndex)
    ensures RowsValid(rows[1..], keyIndex)
  {
    forall m | 0 <= m < |rows| - 1 ensures RowKey(rows[1..][m], keyIndex).Some? {
      assert rows[1..][m] == rows[m + 1];
    }
  }

  /** The index of the first row whose key is `k`, or -1. */
  function FirstWith(rows: seq<Entry>, keyIndex: Key, k: Key): (i: int)
    ensures -1 <= i < |rows|
    ensures i >= 0 ==> RowKey(rows[i], keyIndex) == Some(k)
    ensures forall j | 0 <= j < |rows| && (i < 0 || j < i) :: RowKey(rows[j], keyIndex) != Some(k)
  {
    if rows == [] then -1
    else if RowKey(rows[0], keyIndex) == Some(k) then 0
    else
      var j := FirstWith(rows[1..], keyIndex, k);
      assert forall m | 1 <= m < |rows| :: rows[m] == rows[1..][m - 1];
      if j < 0 then -1 else j + 1
  }

  /** The index of the last row whose key is `k`, or -1. */
  function LastWith(rows: seq<Entry>, keyIndex: Key, k: Key): (i: int)
    ensures -1 <= i < |rows|
    ensures i >= 0 ==> RowKey(rows[i], keyIndex) == Some(k)
    ensures forall j | 0 <= j < |rows| && i < j :: RowKey(rows[j], keyIndex) != Some(k)
  {
    if rows == [] then -1
    else
      var j := LastWith(rows[1..], keyIndex, k);
      assert forall m | 1 <= m < |rows| :: rows[m] == rows[1..][m - 1];
      if j >= 0 then j + 1
      else if RowKey(rows[0], keyIndex) == Some(k) then 0
      else -1
  }

  /** Under "takeFirst" each key holds the value of the first row with that key. */
  lemma {:induction false} TakeFirstKeepsFirst(rows: seq<Entry>, keyIndex: Key, valueIndex: Key, acc: seq<Entry>, k: Key)
    requires RowsValid(rows, keyIndex)
    ensures ExtractFrom(rows, keyIndex, valueIndex, "takeFirst", acc).Ok?
    ensures var i := FirstWith(rows, keyIndex, k);
      Lookup(ExtractFrom(rows, keyIndex, valueIndex, "takeFirst", acc).value, k) ==
        if HasKey(acc, k) then Lookup(acc, k)
        else if i >= 0 then Some(RowValue(rows[i], valueIndex))
        else None
  {
    if rows != [] {
      assert RowKey(rows[0], keyIndex).Some?;
      var next := ExtractRow(rows[0], keyIndex, valueIndex, "takeFirst", acc).value;
      PutFacts(acc, RowKey(rows[0], keyIndex).value, RowValue(rows[0], valueIndex));
      RowsValidTail(rows, keyIndex);
      TakeFirstKeepsFirst(rows[1..], keyIndex, valueIndex, next, k);
    }
  }

  /** Under "takeLast" each key holds the value of the last row with that key. */
  lemma {:induction false} TakeLastKeepsLast(rows: seq<Entry>, keyIndex: Key, valueIndex: Key, acc: seq<Entry>, k: Key)
    requires RowsValid(rows, keyIndex)
    ensures ExtractFrom(rows, keyIndex, valueIndex, "takeLast", acc).Ok?
    ensures var i := LastWith(rows, keyIndex, k);
      Lookup(ExtractFrom(rows, keyIndex, valueIndex, "takeLast", acc).value, k) ==
        if i >= 0 then Some(RowValue(rows[i], valueIndex)) else Lookup(acc, k)
  {
    if rows != [] {
      assert RowKey(rows[0], keyIndex).Some?;
      var next := ExtractRow(rows[0], keyIndex, valueIndex, "takeLast", acc).value;
      PutFacts(acc, RowKey(rows[0], keyIndex).value, RowValue(rows[0], valueIndex));
      RowsValidTail(rows, keyIndex);
      TakeLastKeepsLast(rows[1..], keyIndex, valueIndex, next, k);
    }
  }

  /** No two rows share a key, and none of them is a key of `acc`. */
  predicate FreshRowKeys(rows: seq<Entry>, keyIndex: Key, acc: seq<Entry>)
    requires RowsValid(rows, keyIndex)
  {
    (forall i, j | 0 <= i < j < |rows| :: RowKey(rows[i], keyIndex) != RowKey(rows[j], keyIndex)) &&
    (forall i | 0 <= i < |rows| :: !HasKey(acc, RowKey(rows[i], keyIndex).value))
  }

  /** Taking the first row's key into the built array moves freshness one row along. */
  lemma FreshRowKeysStep(rows: seq<Entry>, keyIndex: Key, acc: seq<Entry>, v: Value)
    requires rows != [] && RowsValid(rows, keyIndex)
    requires !HasKey(acc, RowKey(rows[0], keyIndex).value)
    ensures RowsValid(rows[1..], keyIndex)
    ensures FreshRowKeys(rows, keyIndex, acc) <==>
      FreshRowKeys(rows[1..], keyIndex, Put(acc, RowKey(rows[0], keyIndex).value, v))
  {
    RowsValidTail(rows, keyIndex);
    var k0 := RowKey(rows[0], keyIndex).value;
    var tail := rows[1..];
    var next := Put(acc, k0, v);
    PutFacts(acc, k0, v);
    assert forall m | 0 <= m < |tail| :: tail[m] == rows[m + 1];
    if FreshRowKeys(rows, keyIndex, acc) {
      forall m | 0 <= m < |tail| ensures !HasKey(next, RowKey(tail[m], keyIndex).value) {
        assert RowKey(rows[0], keyIndex) != RowKey(rows[m + 1], keyIndex);
        assert Lookup(next, RowKey(tail[m], keyIndex).value) == Lookup(acc, RowKey(tail[m], keyIndex).value);
      }
    }
    if FreshRowKeys(tail, keyIndex, next) {
      forall i, j | 0 <= i < j < |rows| ensures RowKey(rows[i], keyIndex) != RowKey(rows[j], keyIndex) {
        if i == 0 {
          assert HasKey(next, k0);
          assert !HasKey(next, RowKey(tail[j - 1], keyIndex).value);
        } else {
          assert RowKey(tail[i - 1], keyIndex) != RowKey(tail[j - 1], keyIndex);
        }
      }
      forall i | 0 <= i < |rows| ensures !HasKey(acc, RowKey(rows[i], keyIndex).value) {
        if i > 0 {
          var x := RowKey(tail[i - 1], keyIndex).value;
          assert !HasKey(next, x);
          assert x != k0;
          assert Lookup(next, x) == Lookup(acc, x);
        }
      }
    }
  }

  /** Under "throw" the rows are accepted exactly when their keys are distinct and new to the
      array built so far; a repeated key fails with the generic error. */
  lemma {:induction false} ThrowRejectsRepeats(rows: seq<Entry>, keyIndex: Key, valueIndex: Key, acc: seq<Entry>)
    requires RowsValid(rows, keyIndex)
    ensures ExtractFrom(rows, keyIndex, valueIndex, "throw", acc).Ok? <==> FreshRowKeys(rows, keyIndex, acc)
    ensures ExtractFrom(rows, keyIndex, valueIndex, "throw", acc).Err? ==>
      ExtractFrom(rows, keyIndex, valueIndex, "throw", acc).error == Generic
  {
    if rows != [] {
      var k0 := RowKey(rows[0], keyIndex).value;
      if !HasKey(acc, k0) {
        var next := Put(acc, k0, RowValue(rows[0], valueIndex));
        FreshRowKeysStep(rows, keyIndex, acc, RowValue(rows[0], valueIndex));
        ThrowRejectsRepeats(rows[1..], keyIndex, valueIndex, next);
      }
    }
  }

  /** When every key is new, the three policies build the same array. */
  lemma {:induction false} PoliciesAgreeWithoutRepeats(rows: seq<Entry>, keyIndex: Key, valueIndex: Key, acc: seq<Entry>, p: string, q: string)
    requires RowsValid(rows, keyIndex) && FreshRowKeys(rows, keyIndex, acc)
    ensures ExtractFrom(rows, keyIndex, valueIndex, p, acc) == ExtractFrom(rows, keyIndex, valueIndex, q, acc)
  {
    if rows != [] {
      var k0 := RowKey(rows[0], keyIndex).value;
      var v := RowValue(rows[0], valueIndex);
      FreshRowKeysStep(rows, keyIndex, acc, v);
      PoliciesAgreeWithoutRepeats(rows[1..], keyIndex, valueIndex, Put(acc, k0, v), p, q);
    }
  }

  /** The first bad row decides the failure: a row that is not an array fails with
      InvalidArgument, a row whose key-index value is not a string or an integer (a missing
      index reads as null) with UnexpectedValue. Under "throw" this holds when no repeated key
      comes first, since a repeat fails before the bad row is reached. */
  lemma {:induction false} FirstBadRowDecides(rows: seq<Entry>, keyIndex: Key, valueIndex: Key, duplicateBehavior: string, acc: seq<Entry>, i: nat)
    requires i < |rows| && RowKey(rows[i], keyIndex).None?
    requires RowsValid(rows[..i], keyIndex)
    requires duplicateBehavior == "throw" ==> FreshRowKeys(rows[..i], keyIndex, acc)
    ensures ExtractFrom(rows, keyIndex, valueIndex, duplicateBehavior, acc) ==
      Err(if rows[i].val.Arr? then UnexpectedValue else InvalidArgument)
  {
    if i > 0 {
      var before := rows[..i];
      var tail := rows[1..];
      assert before[0] == rows[0];
      assert tail[i - 1] == rows[i];
      assert before[1..] == tail[..i - 1];
      RowsValidTail(before, keyIndex);
      var k0 := RowKey(rows[0], keyIndex).value;
      var v := RowValue(rows[0], valueIndex);
      if duplicateBehavior == "throw" {
        assert !HasKey(acc, k0);
        FreshRowKeysStep(before, keyIndex, acc, v);
      }
      var next := ExtractRow(rows[0], keyIndex, valueIndex, duplicateBehavior, acc).value;
      FirstBadRowDecides(tail, keyIndex, valueIndex, duplicateBehavior, next, i - 1);
    }
  }

  /** The error embedInto raises for an item whose key already holds `existing`, if any. */
  function EmbedError(existing: Option<Value>, field: Key, overwrite: bool): (r: Option<ErrorKind>)
    ensures r.None? <==> existing.None? || (existing.value.Arr? && (overwrite || !HasKey(existing.value.entries, field)))
    ensures r == Some(InvalidArgument) <==> existing.Some? && !existing.value.Arr?
    ensures r.Some? ==> r.value == InvalidArgument || r.value == Generic
  {
    match existing
    case None => None
    case Some(v) =>
      if !v.Arr? then Some(InvalidArgument)
      else if !overwrite && HasKey(v.entries, field) then Some(Generic)
      else None
  }

  /** The record embedInto leaves under an item's key: a new record holding only the field,
      or the existing record with the field set. */
  function Embedded(existing: Option<Value>, field: Key, item: Value): (r: Value)
    ensures r.Arr? && Lookup(r.entries, field) == Some(item)
    ensures existing.Some? && existing.value.Arr? ==>
      forall k | k != field :: Lookup(r.entries, k) == Lookup(existing.value.entries, k)
    ensures existing.None? ==> r.entries == [Entry(field, item)]
  {
    match existing
    case Some(Arr(es)) => PutFacts(es, field, item); Arr(Put(es, field, item))
    case _ => Arr([Entry(field, item)])
  }

  /** One item's effect on the destination built so far. */
  function EmbedItem(item: Entry, field: Key, overwrite: bool, dest: seq<Entry>): Result<seq<Entry>>
  {
    var existing := Lookup(dest, item.key);
    match EmbedError(existing, field, overwrite)
    case Some(e) => Err(e)
    case None => Ok(Put(dest, item.key, Embedded(existing, field, item.val)))
  }

  /** The items from the current one on, embedded into the destination built so far. */
  function EmbedFrom(items: seq<Entry>, field: Key, overwrite: bool, dest: seq<Entry>): Result<seq<Entry>>
  {
    if items == [] then Ok(dest)
    else match EmbedItem(items[0], field, overwrite, dest)
      case Err(e) => Err(e)
      case Ok(next) => EmbedFrom(items[1..], field, overwrite, next)
  }

  /** `embedInto`: nests every item under `fieldName` in the record of the destination that
      has the item's key, creating the record when there is none. */
  method EmbedInto(items: seq<Entry>, fieldName: string, destination: seq<Entry>, overwrite: bool) returns (r: Result<seq<Entry>>)
    ensures r == EmbedFrom(items, CanonicalKey(fieldName), overwrite, destination)
    ensures KeysUnique(destination) && r.Ok? ==> KeysUnique(r.value)
  {
    var field := CanonicalKey(fieldName);
    var dest := destination;
    for i := 0 to |items|
      invariant KeysUnique(destination) ==> KeysUnique(dest)
      invariant EmbedFrom(items[i..], field, overwrite, dest) == EmbedFrom(items, field, overwrite, destination)
    {
      assert items[i..][1..] == items[i + 1..];
      var key := items[i].key;
      if !HasKey(dest, key) {
        if KeysUnique(dest) {
          PutUnique(dest, key, Arr([Entry(field, items[i].val)]));
        }
        dest := Put(dest, key, Arr([Entry(field, items[i].val)]));
        continue;
      }
      var record := Lookup(dest, key).value;
      if !record.Arr? {
        return Err(InvalidArgument);
      }
      if !overwrite && HasKey(record.entries, field) {
        return Err(Generic);
      }
      if KeysUnique(dest) {
        PutUnique(dest, key, Arr(Put(record.entries, field, items[i].val)));
      }
      dest := Put(dest, key, Arr(Put(record.entries, field, items[i].val)));
    }
    assert items[|items|..] == [];
    return Ok(dest);
  }

  /** When no item meets a non-array record or an existing field it may not overwrite, every
      item ends up under the field of its key's record, and keys without an item keep their
      values. */
  lemma {:induction false} EmbedIntoLookup(items: seq<Entry>, field: Key, overwrite: bool, dest: seq<Entry>, k: Key)
    requires KeysUnique(items)
    requires forall i | 0 <= i < |items| :: EmbedError(Lookup(dest, items[i].key), field, overwrite).None?
    ensures EmbedFrom(items, field, overwrite, dest).Ok?
    ensures Lookup(EmbedFrom(items, field, overwrite, dest).value, k) ==
      match Lookup(items, k)
      case None => Lookup(dest, k)
      case Some(item) => Some(Embedded(Lookup(dest, k), field, item))
  {
    if items != [] {
      var k0 := items[0].key;
      var tail := items[1..];
      UniqueTail(items);
      var next := EmbedItem(items[0], field, overwrite, dest).value;
      PutFacts(dest, k0, Embedded(Lookup(dest, k0), field, items[0].val));
      forall m | 0 <= m < |tail| ensures EmbedError(Lookup(next, tail[m].key), field, overwrite).None? {
        assert tail[m] == items[m + 1];
        assert tail[m].key != k0;
      }
      EmbedIntoLookup(tail, field, overwrite, next, k);
    }
  }

  /** The first item that meets a non-array record (InvalidArgument) or an existing field it
      may not overwrite (the generic error) decides the failure. */
  lemma {:induction false} EmbedIntoFirstError(items: seq<Entry>, field: Key, overwrite: bool, dest: seq<Entry>, i: nat)
    requires KeysUnique(items) && i < |items|
    requires EmbedError(Lookup(dest, items[i].key), field, overwrite).Some?
    requires forall j | 0 <= j < i :: EmbedError(Lookup(dest, items[j].key), field, overwrite).None?
    ensures EmbedFrom(items, field, overwrite, dest) == Err(EmbedError(Lookup(dest, items[i].key), field, overwrite).value)
  {
    if i > 0 {
      var k0 := items[0].key;
      var tail := items[1..];
      UniqueTail(items);
      var next := EmbedItem(items[0], field, overwrite, dest).value;
      PutFacts(dest, k0, Embedded(Lookup(dest, k0), field, items[0].val));
      assert tail[i - 1] == items[i];
      assert items[i].key != k0;
      forall m | 0 <= m < i - 1 ensures EmbedError(Lookup(next, tail[m].key), field, overwrite).None? {
        assert tail[m] == items[m + 1];
        assert tail[m].key != k0;
      }
      EmbedIntoFirstError(tail, field, overwrite, next, i - 1);
    }
  }
}
