/** PHP arrays as the library sees them: ordered maps from int or string keys to values.
    A PHP array is a sequence of entries whose keys are distinct; writing to a key that is
    present replaces its value in place, writing to a new key appends. */
module PhpValues {

  datatype Option<+T> = None | Some(value: T)

  /** The exception classes the library throws: InvalidArgumentException,
      UnexpectedValueException and the plain Exception. */
  datatype ErrorKind = InvalidArgument | UnexpectedValue | Generic

  datatype Result<+T> = Ok(value: T) | Err(error: ErrorKind)

  /** The outcome of an operation that returns nothing but may throw. */
  datatype Outcome = Pass | Fail(error: ErrorKind)

  /** An array key as PHP stores it: an integer, or a string that is not a decimal integer
      literal (PHP turns those into integers; see PhpKeys.CanonicalKey). */
  datatype Key = IK(n: int) | SK(s: string)

  /** The values the library handles: scalars, null and nested arrays. */
  datatype Value =
    | Null
    | Bool(b: bool)
    | Int(i: int)
    | Str(s: string)
    | Arr(entries: seq<Entry>)

  datatype Entry = Entry(key: Key, val: Value)

  predicate HasKey(es: seq<Entry>, k: Key)
  {
    exists i | 0 <= i < |es| :: es[i].key == k
  }

  /** No key occurs twice: the invariant every PHP array keeps. */
  predicate KeysUnique(es: seq<Entry>)
  {
    forall i, j | 0 <= i < j < |es| :: es[i].key != es[j].key
  }

  /** The value stored under `k`, as `$array[$k]` reads it when `array_key_exists($k, $array)`. */
  function Lookup(es: seq<Entry>, k: Key): (r: Option<Value>)
    ensures r.Some? <==> HasKey(es, k)
  {
    if es == [] then None
    else if es[0].key == k then Some(es[0].val)
    else
      assert HasKey(es, k) <==> HasKey(es[1..], k) by {
        if HasKey(es[1..], k) {
          var i :| 0 <= i < |es[1..]| && es[1..][i].key == k;
          assert es[i + 1].key == k;
        }
        if HasKey(es, k) {
          var i :| 0 <= i < |es| && es[i].key == k;
          assert es[1..][i - 1].key == k;
        }
      }
      Lookup(es[1..], k)
  }

  /** `isset($array[$k])`: the key is present and its value is not null. */
  predicate IsSet(es: seq<Entry>, k: Key)
  {
    Lookup(es, k).Some? && Lookup(es, k).value != Null
  }

  lemma {:induction false} LookupAt(es: seq<Entry>, i: nat)
    requires KeysUnique(es) && i < |es|
    ensures Lookup(es, es[i].key) == Some(es[i].val)
  {
    if i > 0 {
      assert es[0].key != es[i].key;
      assert KeysUnique(es[1..]) by {
        forall p, q | 0 <= p < q < |es[1..]| ensures es[1..][p].key != es[1..][q].key {
          assert es[p + 1].key != es[q + 1].key;
        }
      }
      LookupAt(es[1..], i - 1);
    }
  }

  /** Dropping the first entry of an array with distinct keys leaves distinct keys, none of
      them the dropped one. */
  lemma UniqueTail(es: seq<Entry>)
    requires es != [] && KeysUnique(es)
    ensures KeysUnique(es[1..]) && !HasKey(es[1..], es[0].key)
  {
    forall p, q | 0 <= p < q < |es| - 1 ensures es[1..][p].key != es[1..][q].key {
      assert es[p + 1].key != es[q + 1].key;
    }
    forall p | 0 <= p < |es| - 1 ensures es[1..][p].key != es[0].key {
      assert es[0].key != es[p + 1].key;
    }
  }

  /** In an array with distinct keys, no entry before position `i` has the key at `i`. */
  lemma PrefixLacksKeyAt(es: seq<Entry>, i: nat)
    requires KeysUnique(es) && i < |es|
    ensures !HasKey(es[..i], es[i].key)
  {
  }

  /** Reading a key from two arrays laid end to end finds the first one's entry first. */
  lemma {:induction false} LookupAppend(a: seq<Entry>, b: seq<Entry>, k: Key)
    ensures Lookup(a + b, k) == if HasKey(a, k) then Lookup(a, k) else Lookup(b, k)
  {
    if a != [] {
      assert (a + b)[0] == a[0];
      assert (a + b)[1..] == a[1..] + b;
      LookupAppend(a[1..], b, k);
      if a[0].key != k {
        assert Lookup(a, k) == Lookup(a[1..], k);
        assert HasKey(a, k) == HasKey(a[1..], k);
      }
    } else {
      assert a + b == b;
    }
  }

  /** `$array[$k] = $v`: replaces the value of an existing key where it stands, otherwise
      appends a new entry. */
  function Put(es: seq<Entry>, k: Key, v: Value): seq<Entry>
  {
    if es == [] then [Entry(k, v)]
    else if es[0].key == k then [Entry(k, v)] + es[1..]
    else [es[0]] + Put(es[1..], k, v)
  }

  /** After the write `k` holds `v`, every other key reads as before, an existing key keeps
      every key in place, and a new key is appended. */
  lemma {:induction false} PutFacts(es: seq<Entry>, k: Key, v: Value)
    ensures Lookup(Put(es, k, v), k) == Some(v)
    ensures forall k' | k' != k :: Lookup(Put(es, k, v), k') == Lookup(es, k')
    ensures HasKey(es, k) ==> |Put(es, k, v)| == |es| && forall i | 0 <= i < |es| :: Put(es, k, v)[i].key == es[i].key
    ensures !HasKey(es, k) ==> Put(es, k, v) == es + [Entry(k, v)]
  {
    PutLookupSame(es, k, v);
    forall k' | k' != k ensures Lookup(Put(es, k, v), k') == Lookup(es, k') {
      PutLookupOther(es, k, v, k');
    }
    PutKeeps(es, k, v);
  }

  /** Past a first entry with another key, `k` is present exactly when it is in the rest. */
  lemma HasKeyTail(es: seq<Entry>, k: Key)
    requires es != [] && es[0].key != k
    ensures HasKey(es, k) <==> HasKey(es[1..], k)
  {
    if HasKey(es, k) {
      var i :| 0 <= i < |es| && es[i].key == k;
      assert es[1..][i - 1].key == k;
    }
    if HasKey(es[1..], k) {
      var i :| 0 <= i < |es[1..]| && es[1..][i].key == k;
      assert es[i + 1].key == k;
    }
  }

  lemma {:induction false} PutLookupSame(es: seq<Entry>, k: Key, v: Value)
    ensures Lookup(Put(es, k, v), k) == Some(v)
  {
    if es != [] && es[0].key != k {
      PutLookupSame(es[1..], k, v);
      var r := Put(es, k, v);
      assert r[0] == es[0] && r[1..] == Put(es[1..], k, v);
    }
  }

  lemma {:induction false} PutLookupOther(es: seq<Entry>, k: Key, v: Value, k': Key)
    requires k' != k
    ensures Lookup(Put(es, k, v), k') == Lookup(es, k')
  {
    if es != [] {
      var r := Put(es, k, v);
      if es[0].key != k {
        PutLookupOther(es[1..], k, v, k');
        assert r[0] == es[0] && r[1..] == Put(es[1..], k, v);
      } else {
        assert r[0].key == k && r[1..] == es[1..];
      }
    }
  }

  /** Writing an existing key keeps every key in its place; writing a new key appends it. */
  lemma {:induction false} PutKeeps(es: seq<Entry>, k: Key, v: Value)
    ensures HasKey(es, k) ==> |Put(es, k, v)| == |es| && forall i | 0 <= i < |es| :: Put(es, k, v)[i].key == es[i].key
    ensures !HasKey(es, k) ==> Put(es, k, v) == es + [Entry(k, v)]
  {
    if es != [] && es[0].key != k {
      PutKeeps(es[1..], k, v);
      HasKeyTail(es, k);
      var r := Put(es, k, v);
      assert r == [es[0]] + Put(es[1..], k, v);
      if HasKey(es, k) {
        forall i | 0 <= i < |es| ensures r[i].key == es[i].key {
          if i > 0 {
            assert r[i] == Put(es[1..], k, v)[i - 1];
          }
        }
      } else {
        assert r == [es[0]] + (es[1..] + [Entry(k, v)]);
        assert [es[0]] + es[1..] == es;
      }
    } else if es != [] {
      assert HasKey(es, k) by {
        assert es[0].key == k;
      }
    }
  }

  /** Every entry satisfies `p`. */
  predicate All(es: seq<Entry>, p: Entry -> bool)
  {
    forall i {:trigger At(es, i)} | 0 <= i < |es| :: p(At(es, i))
  }

  /** The entry at `i`: the term on which `All` is instantiated, so that a property is only
      looked at for the entries a proof names. */
  function At(es: seq<Entry>, i: int): Entry
    requires 0 <= i < |es|
  {
    es[i]
  }

  /** A write keeps a property that every entry and the written entry have. */
  lemma {:induction false} PutAll(es: seq<Entry>, k: Key, v: Value, p: Entry -> bool)
    requires All(es, p) && p(Entry(k, v))
    ensures All(Put(es, k, v), p)
  {
    if es != [] && es[0].key != k {
      assert All(es[1..], p) by {
        forall i | 0 <= i < |es| - 1 ensures p(At(es[1..], i)) {
          assert At(es[1..], i) == At(es, i + 1);
        }
      }
      PutAll(es[1..], k, v, p);
      var r := Put(es, k, v);
      forall i | 0 <= i < |r| ensures p(At(r, i)) {
        if i > 0 {
          assert At(r, i) == At(Put(es[1..], k, v), i - 1);
        } else {
          assert At(es, 0) == es[0];
        }
      }
    } else if es != [] {
      var r := Put(es, k, v);
      forall i | 0 <= i < |r| ensures p(At(r, i)) {
        if i > 0 {
          assert At(r, i) == At(es, i);
        }
      }
    }
  }

  lemma PutUnique(es: seq<Entry>, k: Key, v: Value)
    requires KeysUnique(es)
    ensures KeysUnique(Put(es, k, v))
  {
    PutFacts(es, k, v);
    var r := Put(es, k, v);
    if HasKey(es, k) {
      assert forall i | 0 <= i < |r| :: r[i].key == es[i].key;
    } else {
      assert r == es + [Entry(k, v)];
      forall i | 0 <= i < |es| ensures es[i].key != k {
      }
    }
  }

  /** The entries whose key is not listed in `ks`, in their original order: the array after
      `unset($array[$k])` for every listed `$k`. */
  function Without(es: seq<Entry>, ks: seq<Key>): (r: seq<Entry>)
    ensures |r| <= |es|
  {
    if es == [] then []
    else if es[0].key in ks then Without(es[1..], ks)
    else [es[0]] + Without(es[1..], ks)
  }

  lemma {:induction false} WithoutNothing(es: seq<Entry>)
    ensures Without(es, []) == es
  {
    if es != [] {
      WithoutNothing(es[1..]);
    }
  }

  /** After the removal no listed key is present and every other key reads as before. */
  lemma {:induction false} LookupWithout(es: seq<Entry>, ks: seq<Key>, k: Key)
    ensures Lookup(Without(es, ks), k) == if k in ks then None else Lookup(es, k)
  {
    if es != [] {
      LookupWithout(es[1..], ks, k);
    }
  }

  /** The removal keeps exactly the entries whose key is not listed. */
  lemma {:induction false} InWithout(es: seq<Entry>, ks: seq<Key>, e: Entry)
    ensures e in Without(es, ks) <==> e in es && e.key !in ks
  {
    if es != [] {
      InWithout(es[1..], ks, e);
      assert es == [es[0]] + es[1..];
    }
  }

  lemma {:induction false} WithoutUnique(es: seq<Entry>, ks: seq<Key>)
    requires KeysUnique(es)
    ensures KeysUnique(Without(es, ks))
  {
    if es != [] {
      assert KeysUnique(es[1..]) by {
        forall p, q | 0 <= p < q < |es[1..]| ensures es[1..][p].key != es[1..][q].key {
          assert es[p + 1].key != es[q + 1].key;
        }
      }
      WithoutUnique(es[1..], ks);
      var rest := Without(es[1..], ks);
      forall e | e in rest ensures e.key != es[0].key {
        InWithout(es[1..], ks, e);
        var i :| 0 <= i < |es[1..]| && es[1..][i] == e;
        assert es[i + 1] == e;
      }
    }
  }

  /** The entries of `es` that satisfy `p`, in their original order. */
  function Filter(es: seq<Entry>, p: Entry -> bool): (r: seq<Entry>)
    ensures |r| <= |es|
  {
    if es == [] then []
    else Filter(es[..|es| - 1], p) + if p(es[|es| - 1]) then [es[|es| - 1]] else []
  }

  /** Exactly the entries satisfying `p` are kept. */
  lemma {:induction false} InFilter(es: seq<Entry>, p: Entry -> bool, e: Entry)
    ensures e in Filter(es, p) <==> e in es && p(e)
  {
    if es != [] {
      InFilter(es[..|es| - 1], p, e);
      assert es == es[..|es| - 1] + [es[|es| - 1]];
    }
  }

  /** Filtering by a condition every entry meets changes nothing. */
  lemma {:induction false} FilterKeepsAll(es: seq<Entry>, p: Entry -> bool)
    requires forall i | 0 <= i < |es| :: p(es[i])
    ensures Filter(es, p) == es
  {
    if es != [] {
      FilterKeepsAll(es[..|es| - 1], p);
      assert es == es[..|es| - 1] + [es[|es| - 1]];
    }
  }

  /** A filtered array has no key the original lacks. */
  lemma {:induction false} FilterKeys(es: seq<Entry>, p: Entry -> bool, k: Key)
    requires HasKey(Filter(es, p), k)
    ensures HasKey(es, k)
  {
    var f := Filter(es, p);
    var i :| 0 <= i < |f| && f[i].key == k;
    InFilter(es, p, f[i]);
  }

  /** `array_values`: the same values under the keys 0, 1, 2, ... */
  function Renumbered(es: seq<Entry>): (r: seq<Entry>)
    ensures |r| == |es|
    ensures forall i | 0 <= i < |r| :: r[i] == Entry(IK(i), es[i].val)
  {
    seq(|es|, i requires 0 <= i < |es| => Entry(IK(i), es[i].val))
  }

  /** How many of the first `i` entries have integer keys. */
  function IntKeysBefore(es: seq<Entry>, i: nat): nat
    requires i <= |es|
  {
    if i == 0 then 0 else IntKeysBefore(es, i - 1) + if es[i - 1].key.IK? then 1 else 0
  }

  lemma {:induction false} IntKeysBeforeTail(es: seq<Entry>, i: nat)
    requires 1 <= i <= |es|
    ensures IntKeysBefore(es, i) == (if es[0].key.IK? then 1 else 0) + IntKeysBefore(es[1..], i - 1)
  {
    if i > 1 {
      IntKeysBeforeTail(es, i - 1);
      assert es[1..][i - 2] == es[i - 1];
    }
  }

  /** In a list, every key so far is an integer key. */
  lemma {:induction false} IntKeysBeforeList(es: seq<Entry>, i: nat)
    requires i <= |es| && forall j | 0 <= j < |es| :: es[j].key.IK?
    ensures IntKeysBefore(es, i) == i
  {
    if i > 0 {
      IntKeysBeforeList(es, i - 1);
    }
  }

  /** The integer keys renumbered `next`, `next + 1`, ... in order, string keys kept: what
      `array_slice` without preserved keys and `array_merge` do to integer keys. */
  function ReindexInts(es: seq<Entry>, next: int): (r: seq<Entry>)
    ensures |r| == |es|
  {
    if es == [] then []
    else if es[0].key.IK? then [Entry(IK(next), es[0].val)] + ReindexInts(es[1..], next + 1)
    else [es[0]] + ReindexInts(es[1..], next)
  }

  /** Renumbering keeps every value in its place, and every string key. */
  lemma {:induction false} ReindexIntsKeeps(es: seq<Entry>, next: int, i: nat)
    requires i < |es|
    ensures ReindexInts(es, next)[i].val == es[i].val
    ensures ReindexInts(es, next)[i].key.IK? == es[i].key.IK?
    ensures es[i].key.SK? ==> ReindexInts(es, next)[i].key == es[i].key
  {
    if i > 0 {
      var step := if es[0].key.IK? then 1 else 0;
      assert es[1..][i - 1] == es[i];
      ReindexIntsKeeps(es[1..], next + step, i - 1);
    }
  }

  /** The integer key of entry `i` becomes `next` plus the number of integer keys before it. */
  lemma {:induction false} ReindexIntsNumbers(es: seq<Entry>, next: int, i: nat)
    requires i < |es| && es[i].key.IK?
    ensures ReindexInts(es, next)[i].key == IK(next + IntKeysBefore(es, i))
  {
    if i > 0 {
      var step := if es[0].key.IK? then 1 else 0;
      assert es[1..][i - 1] == es[i];
      ReindexIntsNumbers(es[1..], next + step, i - 1);
      IntKeysBeforeTail(es, i);
    }
  }
}
