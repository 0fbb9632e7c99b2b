/** Filtering and projection over a list of rows: project, where and getAllWhereKeyExists. */
module Filtering {
  import opened PhpValues

  /** The projection of the rows that hold `key`, each under its row's own key, in row order. */
  function Projected(input: seq<Entry>, key: Key): seq<Entry>
  {
    if input == [] then []
    else
      var row := input[|input| - 1];
      Projected(input[..|input| - 1], key) +
        if row.val.Arr? && HasKey(row.val.entries, key) then [Entry(row.key, Lookup(row.val.entries, key).value)]
        else []
  }

  /** A projection only uses keys of the input rows. */
  lemma {:induction false} ProjectedKeys(input: seq<Entry>, key: Key, k: Key)
    requires HasKey(Projected(input, key), k)
    ensures HasKey(input, k)
  {
    var n := |input| - 1;
    var prev := Projected(input[..n], key);
    LookupAppend(prev, Projected(input, key)[|prev|..], k);
    assert Projected(input, key) == prev + Projected(input, key)[|prev|..];
    if HasKey(prev, k) {
      ProjectedKeys(input[..n], key, k);
      var i :| 0 <= i < n && input[..n][i].key == k;
      assert input[i].key == k;
    } else {
      assert input[n].key == k;
    }
  }

  /** Under each row's key the projection holds exactly what the row holds under `key`,
      and nothing when the row lacks `key`. */
  lemma {:induction false} ProjectedLookup(input: seq<Entry>, key: Key, i: nat)
    requires KeysUnique(input) && i < |input|
    requires input[i].val.Arr?
    ensures Lookup(Projected(input, key), input[i].key) == Lookup(input[i].val.entries, key)
  {
    var n := |input| - 1;
    var prefix := input[..n];
    var prev := Projected(prefix, key);
    var tail := Projected(input, key)[|prev|..];
    assert Projected(input, key) == prev + tail;
    LookupAppend(prev, tail, input[i].key);
    assert KeysUnique(prefix);
    if i < n {
      assert prefix[i] == input[i];
      ProjectedLookup(prefix, key, i);
      assert tail != [] ==> tail[0].key == input[n].key != input[i].key;
    } else {
      PrefixLacksKeyAt(input, n);
      if HasKey(prev, input[n].key) {
        ProjectedKeys(prefix, key, input[n].key);
      }
    }
  }

  /** `project`: the value under `key` of every row that has it, keyed by the row's key.
      Fails with InvalidArgument when a row is not an array, or, under the strict key check,
      when a row lacks `key`. */
  method Project(input: seq<Entry>, key: Key, strictKeyCheck: bool) returns (r: Result<seq<Entry>>)
    requires KeysUnique(input)
    ensures r.Ok? <==> forall i | 0 <= i < |input| ::
      input[i].val.Arr? && (strictKeyCheck ==> HasKey(input[i].val.entries, key))
    ensures r.Err? ==> r.error == InvalidArgument
    ensures r.Ok? ==> r.value == Projected(input, key)
  {
    var projection := [];
    for i := 0 to |input|
      invariant forall j | 0 <= j < i ::
        input[j].val.Arr? && (strictKeyCheck ==> HasKey(input[j].val.entries, key))
      invariant projection == Projected(input[..i], key)
    {
      var item := input[i].val;
      if !item.Arr? {
        return Err(InvalidArgument);
      }
      assert input[..i + 1][..i] == input[..i];
      if HasKey(item.entries, key) {
        PrefixLacksKeyAt(input, i);
        if HasKey(projection, input[i].key) {
          ProjectedKeys(input[..i], key, input[i].key);
        }
        PutKeeps(projection, input[i].key, Lookup(item.entries, key).value);
        projection := Put(projection, input[i].key, Lookup(item.entries, key).value);
      } else if strictKeyCheck {
        return Err(InvalidArgument);
      }
    }
    assert input[..|input|] == input;
    return Ok(projection);
  }

  /** The row has every condition key, holding a value identical to the condition's. */
  predicate Matches(row: seq<Entry>, conditions: seq<Entry>)
  {
    forall j | 0 <= j < |conditions| :: Lookup(row, conditions[j].key) == Some(conditions[j].val)
  }

  function Matching(conditions: seq<Entry>): Entry -> bool
  {
    (e: Entry) => e.val.Arr? && Matches(e.val.entries, conditions)
  }

  /** `where`: the rows that satisfy every condition, under their original keys when
      `preserveKeys` is set and renumbered from 0 otherwise. Fails with InvalidArgument as
      soon as a row is not an array. */
  method Where(rows: seq<Entry>, conditions: seq<Entry>, preserveKeys: bool) returns (r: Result<seq<Entry>>)
    requires KeysUnique(rows)
    ensures r.Ok? <==> forall i | 0 <= i < |rows| :: rows[i].val.Arr?
    ensures r.Err? ==> r.error == InvalidArgument
    ensures r.Ok? && preserveKeys ==> r.value == Filter(rows, Matching(conditions))
    ensures r.Ok? && !preserveKeys ==> r.value == Renumbered(Filter(rows, Matching(conditions)))
  {
    var result := [];
    for i := 0 to |rows|
      invariant forall j | 0 <= j < i :: rows[j].val.Arr?
      invariant result == Filter(rows[..i], Matching(conditions))
    {
      var item := rows[i].val;
      if !item.Arr? {
        return Err(InvalidArgument);
      }
      assert rows[..i + 1][..i] == rows[..i];
      var matched := true;
      var j := 0;
      while j < |conditions| && matched
        invariant 0 <= j <= |conditions|
        invariant matched ==> forall m | 0 <= m < j :: Lookup(item.entries, conditions[m].key) == Some(conditions[m].val)
        invariant !matched ==> j < |conditions| && Lookup(item.entries, conditions[j].key) != Some(conditions[j].val)
        decreases |conditions| - j + if matched then 1 else 0
      {
        var key := conditions[j].key;
        if !HasKey(item.entries, key) || Lookup(item.entries, key).value != conditions[j].val {
          matched := false;
        } else {
          j := j + 1;
        }
      }
      if matched {
        PrefixLacksKeyAt(rows, i);
        if HasKey(result, rows[i].key) {
          FilterKeys(rows[..i], Matching(conditions), rows[i].key);
        }
        PutKeeps(result, rows[i].key, item);
        result := Put(result, rows[i].key, item);
      }
    }
    assert rows[..|rows|] == rows;
    return if preserveKeys then Ok(result) else Ok(Renumbered(result));
  }

  /** With no conditions every row is returned. */
  lemma WhereWithoutConditions(rows: seq<Entry>)
    requires forall i | 0 <= i < |rows| :: rows[i].val.Arr?
    ensures Filter(rows, Matching([])) == rows
  {
    FilterKeepsAll(rows, Matching([]));
  }

  /** The rows `where` returns are exactly the input rows meeting every condition. */
  lemma WhereSelects(rows: seq<Entry>, conditions: seq<Entry>, e: Entry)
    ensures e in Filter(rows, Matching(conditions)) <==>
      e in rows && e.val.Arr? && Matches(e.val.entries, conditions)
  {
    InFilter(rows, Matching(conditions), e);
  }

  function HavingKey(targetKey: Key): Entry -> bool
  {
    (e: Entry) => e.val.Arr? && HasKey(e.val.entries, targetKey)
  }

  /** `getAllWhereKeyExists`: the rows that contain `targetKey`, under their original keys. */
  method GetAllWhereKeyExists(input: seq<Entry>, targetKey: Key) returns (result: seq<Entry>)
    requires KeysUnique(input)
    requires forall i | 0 <= i < |input| :: input[i].val.Arr?
    ensures result == Filter(input, HavingKey(targetKey))
    ensures forall e :: e in result <==> e in input && HasKey(e.val.entries, targetKey)
  {
    result := [];
    for i := 0 to |input|
      invariant result == Filter(input[..i], HavingKey(targetKey))
    {
      assert input[..i + 1][..i] == input[..i];
      if HasKey(input[i].val.entries, targetKey) {
        PrefixLacksKeyAt(input, i);
        if HasKey(result, input[i].key) {
          FilterKeys(input[..i], HavingKey(targetKey), input[i].key);
        }
        PutKeeps(result, input[i].key, input[i].val);
        result := Put(result, input[i].key, input[i].val);
      }
    }
    assert input[..|input|] == input;
    forall e {
      InFilter(input, HavingKey(targetKey), e);
    }
  }
}
