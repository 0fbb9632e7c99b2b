/** Delimited key paths: `getNested` walks one into a nested array, `flatten` writes every
    leaf of a nested array under the path that leads to it. */
module NestedKeys {
  import opened PhpValues
  import opened PhpKeys

  /** `explode($delimiter, $s)`: the pieces of `s` between the occurrences of `delimiter`,
      found from left to right without overlapping. */
  function Split(s: string, delimiter: string): (r: seq<string>)
    requires |delimiter| > 0
    ensures |r| >= 1
    decreases |s|
  {
    if |s| < |delimiter| then [s]
    else if s[..|delimiter|] == delimiter then [""] + Split(s[|delimiter|..], delimiter)
    else
      var rest := Split(s[1..], delimiter);
      [[s[0]] + rest[0]] + rest[1..]
  }

  /** `implode($delimiter, $pieces)`. */
  function Join(pieces: seq<string>, delimiter: string): string
    requires |pieces| >= 1
  {
    if |pieces| == 1 then pieces[0] else pieces[0] + delimiter + Join(pieces[1..], delimiter)
  }

  /** A character put in front of the first piece goes in front of the joined string. */
  lemma JoinCons(c: char, pieces: seq<string>, delimiter: string)
    requires |pieces| >= 1
    ensures Join([[c] + pieces[0]] + pieces[1..], delimiter) == [c] + Join(pieces, delimiter)
  {
    var r := [[c] + pieces[0]] + pieces[1..];
    assert r[0] == [c] + pieces[0] && r[1..] == pieces[1..];
    if |pieces| > 1 {
      var tail := Join(pieces[1..], delimiter);
      assert ([c] + pieces[0]) + delimiter + tail == [c] + (pieces[0] + delimiter + tail);
    }
  }

  /** Splitting loses nothing: joining the pieces with the delimiter gives the string back. */
  lemma {:induction false} JoinSplit(s: string, delimiter: string)
    requires |delimiter| > 0
    ensures Join(Split(s, delimiter), delimiter) == s
    decreases |s|
  {
    if |s| >= |delimiter| {
      if s[..|delimiter|] == delimiter {
        var rest := s[|delimiter|..];
        JoinSplit(rest, delimiter);
        var r := Split(s, delimiter);
        assert r == [""] + Split(rest, delimiter);
        assert r[0] == "" && r[1..] == Split(rest, delimiter);
        assert s == "" + delimiter + rest;
      } else {
        JoinSplit(s[1..], delimiter);
        JoinCons(s[0], Split(s[1..], delimiter), delimiter);
        assert s == [s[0]] + s[1..];
      }
    }
  }

  /** A string without the (one-character) delimiter is a single piece. */
  lemma {:induction false} SplitWhole(a: string, delimiter: string)
    requires |delimiter| == 1 && delimiter[0] !in a
    ensures Split(a, delimiter) == [a]
    decreases |a|
  {
    if |a| >= 1 {
      assert a[..1] != delimiter by {
        assert a[0] in a;
      }
      SplitWhole(a[1..], delimiter);
      assert a == [a[0]] + a[1..];
    }
  }

  /** A piece without the (one-character) delimiter, followed by the delimiter, splits off as
      the first piece. */
  lemma {:induction false} SplitFirst(a: string, s: string, delimiter: string)
    requires |delimiter| == 1 && delimiter[0] !in a
    ensures Split(a + delimiter + s, delimiter) == [a] + Split(s, delimiter)
    decreases |a|
  {
    var t := a + delimiter + s;
    if |a| == 0 {
      assert t[..1] == delimiter && t[1..] == s;
    } else {
      assert t[..1] != delimiter by {
        assert t[0] == a[0] && a[0] in a;
      }
      assert t[1..] == a[1..] + delimiter + s;
      SplitFirst(a[1..], s, delimiter);
      assert a == [a[0]] + a[1..];
    }
  }

  /** Following the keys the pieces denote from `pointer`: the value reached, or None when a
      piece is missing or the value reached so far is not an array. */
  function Follow(pointer: Value, pieces: seq<string>): Option<Value>
    decreases |pieces|
  {
    if pieces == [] then Some(pointer)
    else if pointer.Arr? && HasKey(pointer.entries, CanonicalKey(pieces[0])) then
      Follow(Lookup(pointer.entries, CanonicalKey(pieces[0])).value, pieces[1..])
    else None
  }

  /** Following two paths one after the other is following the joined path. */
  lemma {:induction false} FollowAppend(pointer: Value, a: seq<string>, b: seq<string>)
    ensures Follow(pointer, a + b) ==
      match Follow(pointer, a)
      case None => None
      case Some(w) => Follow(w, b)
    decreases |a|
  {
    if a == [] {
      assert a + b == b;
    } else {
      assert (a + b)[0] == a[0] && (a + b)[1..] == a[1..] + b;
      if pointer.Arr? && HasKey(pointer.entries, CanonicalKey(a[0])) {
        FollowAppend(Lookup(pointer.entries, CanonicalKey(a[0])).value, a[1..], b);
      }
    }
  }

  /** What `getNested` returns: the value at the end of the path, or null. */
  function NestedValue(input: seq<Entry>, delimitedKey: string, delimiter: string): Value
    requires |delimiter| > 0
  {
    match Follow(Arr(input), Split(delimitedKey, delimiter))
    case Some(v) => v
    case None => Null
  }

  /** `getNested`: walks the pieces of `delimitedKey` from the outermost array inwards. */
  method GetNested(input: seq<Entry>, delimitedKey: string, delimiter: string) returns (r: Value)
    requires |delimiter| > 0
    ensures r == NestedValue(input, delimitedKey, delimiter)
  {
    var keys := Split(delimitedKey, delimiter);
    var pointer := Arr(input);
    for i := 0 to |keys|
      invariant Follow(Arr(input), keys) == Follow(pointer, keys[i..])
    {
      assert keys[i..][1..] == keys[i + 1..];
      var key := CanonicalKey(keys[i]);
      if pointer.Arr? && HasKey(pointer.entries, key) {
        pointer := Lookup(pointer.entries, key).value;
        continue;
      }
      return Null;
    }
    assert keys[|keys|..] == [];
    return pointer;
  }

  /** A path that stops at a missing key or at a value that is not an array yields null,
      however the path continues. */
  lemma GetNestedStops(input: seq<Entry>, pieces: seq<string>, i: nat, delimiter: string)
    requires |delimiter| > 0 && |pieces| >= 1 && i < |pieces|
    requires Follow(Arr(input), pieces[..i]).Some?
    requires var w := Follow(Arr(input), pieces[..i]).value;
      !w.Arr? || !HasKey(w.entries, CanonicalKey(pieces[i]))
    ensures Follow(Arr(input), pieces) == None
  {
    FollowAppend(Arr(input), pieces[..i], pieces[i..]);
    assert pieces[..i] + pieces[i..] == pieces;
  }

  /** `empty($prefix)` on a string: true for "" and also, as PHP has it, for "0". */
  predicate PhpEmpty(s: string)
  {
    s == "" || s == "0"
  }

  /** `array_merge($a, $b)` from the entry `rest[0]` on: integer keys are renumbered from
      `next`, a string key met again overwrites its value where it stands. */
  function MergeFrom(acc: seq<Entry>, rest: seq<Entry>, next: int): seq<Entry>
    decreases |rest|
  {
    if rest == [] then acc
    else if rest[0].key.IK? then MergeFrom(Put(acc, IK(next), rest[0].val), rest[1..], next + 1)
    else MergeFrom(Put(acc, rest[0].key, rest[0].val), rest[1..], next)
  }

  /** `array_merge($a, $b)`. */
  function ArrayMerge(a: seq<Entry>, b: seq<Entry>): seq<Entry>
  {
    MergeFrom([], a + b, 0)
  }

  /** The key a leaf gets under `prefix` in flatten as written. */
  function LeafKeyAsWritten(prefix: string, key: Key, delimiter: string): string
  {
    prefix + (if PhpEmpty(prefix) then "" else delimiter) + KeyString(key)
  }

  /** `flatten` as written, over the first `n` entries of the array `v`: leaves are stored
      under the joined key, and the result of every nested array is combined with
      `array_merge`. */
  function FlattenedAsWritten(v: Value, n: nat, delimiter: string, prefix: string): seq<Entry>
    requires v.Arr? && n <= |v.entries|
    decreases v, n
  {
    if n == 0 then []
    else
      var result := FlattenedAsWritten(v, n - 1, delimiter, prefix);
      var e := v.entries[n - 1];
      var newKey := LeafKeyAsWritten(prefix, e.key, delimiter);
      if e.val.Arr? then ArrayMerge(result, FlattenedAsWritten(e.val, |e.val.entries|, delimiter, newKey))
      else Put(result, CanonicalKey(newKey), e.val)
  }

  /** One more entry holding an array, flattened as written. */
  lemma FlattenedAsWrittenInner(input: seq<Entry>, i: nat, delimiter: string, prefix: string)
    requires i < |input| && input[i].val.Arr?
    ensures FlattenedAsWritten(Arr(input), i + 1, delimiter, prefix) ==
      ArrayMerge(FlattenedAsWritten(Arr(input), i, delimiter, prefix),
        FlattenedAsWritten(Arr(input[i].val.entries), |input[i].val.entries|, delimiter, LeafKeyAsWritten(prefix, input[i].key, delimiter)))
  {
    assert Arr(input[i].val.entries) == input[i].val;
  }

  /** One more leaf entry, flattened as written. */
  lemma FlattenedAsWrittenLeaf(input: seq<Entry>, i: nat, delimiter: string, prefix: string)
    requires i < |input| && !input[i].val.Arr?
    ensures FlattenedAsWritten(Arr(input), i + 1, delimiter, prefix) ==
      Put(FlattenedAsWritten(Arr(input), i, delimiter, prefix), CanonicalKey(LeafKeyAsWritten(prefix, input[i].key, delimiter)), input[i].val)
  {
  }

  /** A nested array is smaller than the array holding it. */
  lemma NestedSmaller(input: seq<Entry>, i: nat)
    requires i < |input| && input[i].val.Arr?
    ensures Arr(input[i].val.entries) < Arr(input)
  {
    assert input[i] in input;
    assert Arr(input[i].val.entries) == input[i].val;
  }

  /** `flatten` with the prefix read from its hidden third argument. */
  method FlattenUnder(input: seq<Entry>, delimiter: string, prefix: string) returns (result: seq<Entry>)
    ensures result == FlattenedAsWritten(Arr(input), |input|, delimiter, prefix)
    decreases Arr(input), 1
  {
    result := [];
    for i := 0 to |input|
      invariant result == FlattenedAsWritten(Arr(input), i, delimiter, prefix)
    {
      result := FlattenEntry(input, i, delimiter, prefix, result);
    }
  }

  /** One pass of `flatten`'s loop: the entry at `i` written into what the earlier entries
      produced. */
  method FlattenEntry(input: seq<Entry>, i: nat, delimiter: string, prefix: string, before: seq<Entry>)
    returns (result: seq<Entry>)
    requires i < |input| && before == FlattenedAsWritten(Arr(input), i, delimiter, prefix)
    ensures result == FlattenedAsWritten(Arr(input), i + 1, delimiter, prefix)
    decreases Arr(input), 0
  {
    var newKey := LeafKeyAsWritten(prefix, input[i].key, delimiter);
    var value := input[i].val;
    if value.Arr? {
      NestedSmaller(input, i);
      FlattenedAsWrittenInner(input, i, delimiter, prefix);
      var flattened := FlattenUnder(value.entries, delimiter, newKey);
      result := ArrayMerge(before, flattened);
    } else {
      FlattenedAsWrittenLeaf(input, i, delimiter, prefix);
      result := Put(before, CanonicalKey(newKey), value);
    }
  }

  /** `flatten`: called without a prefix. */
  method Flatten(input: seq<Entry>, delimiter: string) returns (result: seq<Entry>)
    ensures result == FlattenedAsWritten(Arr(input), |input|, delimiter, "")
  {
    result := FlattenUnder(input, delimiter, "");
  }

  /** With a top-level key 0 holding an array, the prefix "0" counts as empty, so the
      delimiter is left out: `[0 => [0 => 'a']]` flattens to `['00' => 'a']`, a key under
      which getNested finds nothing. */
  lemma FlattenZeroPrefixAsWritten()
    ensures var m := [Entry(IK(0), Arr([Entry(IK(0), Str("a"))]))];
      FlattenedAsWritten(Arr(m), 1, ".", "") == [Entry(SK("00"), Str("a"))] &&
      NestedValue(m, "00", ".") == Null
  {
    var m := [Entry(IK(0), Arr([Entry(IK(0), Str("a"))]))];
    var inner := Arr([Entry(IK(0), Str("a"))]);
    assert KeyString(IK(0)) == "0";
    assert LeafKeyAsWritten("", IK(0), ".") == "0";
    assert LeafKeyAsWritten("0", IK(0), ".") == "00";
    assert !IsIntLiteral("00");
    assert FlattenedAsWritten(inner, 1, ".", "0") == [Entry(SK("00"), Str("a"))];
    assert MergeFrom([], [Entry(SK("00"), Str("a"))], 0) == [Entry(SK("00"), Str("a"))];
    assert [] + [Entry(SK("00"), Str("a"))] == [Entry(SK("00"), Str("a"))];
    assert Split("00", ".") == ["00"] by {
      SplitWhole("00", ".");
    }
    assert !HasKey(m, SK("00"));
  }

  /** `array_merge` renumbers the integer keys of the leaves already collected:
      `[5 => 'a', 'b' => ['c' => 'd']]` flattens to `[0 => 'a', 'b.c' => 'd']`, and getNested
      finds nothing under "0". */
  lemma FlattenRenumbersAsWritten()
    ensures var m := [Entry(IK(5), Str("a")), Entry(SK("b"), Arr([Entry(SK("c"), Str("d"))]))];
      FlattenedAsWritten(Arr(m), 2, ".", "") == [Entry(IK(0), Str("a")), Entry(SK("b.c"), Str("d"))] &&
      NestedValue(m, "0", ".") == Null
  {
    var m := [Entry(IK(5), Str("a")), Entry(SK("b"), Arr([Entry(SK("c"), Str("d"))]))];
    var inner := Arr([Entry(SK("c"), Str("d"))]);
    assert KeyString(IK(5)) == "5";
    assert CanonicalKey("5") == IK(5) by {
      assert IsNatLiteral("5");
      assert ParseNat("5") == ParseNat("5"[..0]) * 10 + 5;
    }
    assert FlattenedAsWritten(Arr(m), 1, ".", "") == [Entry(IK(5), Str("a"))];
    assert LeafKeyAsWritten("", SK("b"), ".") == "b";
    assert LeafKeyAsWritten("b", SK("c"), ".") == "b.c";
    assert !IsIntLiteral("b.c");
    assert FlattenedAsWritten(inner, 1, ".", "b") == [Entry(SK("b.c"), Str("d"))];
    assert FlattenedAsWritten(Arr(m), 2, ".", "") ==
      ArrayMerge([Entry(IK(5), Str("a"))], [Entry(SK("b.c"), Str("d"))]);
    var both := [Entry(IK(5), Str("a")), Entry(SK("b.c"), Str("d"))];
    assert [Entry(IK(5), Str("a"))] + [Entry(SK("b.c"), Str("d"))] == both;
    assert both[1..] == [Entry(SK("b.c"), Str("d"))];
    assert MergeFrom([], both, 0) == MergeFrom([Entry(IK(0), Str("a"))], both[1..], 1);
    assert !HasKey([Entry(IK(0), Str("a"))], SK("b.c"));
    assert MergeFrom([Entry(IK(0), Str("a"))], both[1..], 1) ==
      MergeFrom([Entry(IK(0), Str("a")), Entry(SK("b.c"), Str("d"))], [], 1);
    assert CanonicalKey("0") == IK(0) by {
      assert IsNatLiteral("0");
      assert ParseNat("0") == ParseNat("0"[..0]) * 10 + 0;
    }
    assert Split("0", ".") == ["0"] by {
      SplitWhole("0", ".");
    }
    assert !HasKey(m, IK(0));
  }

  /** The key a leaf gets under `prefix`: the delimiter goes between a non-empty prefix and
      the entry's key. */
  function LeafKey(prefix: string, key: Key, delimiter: string): string
  {
    Under(prefix, delimiter, KeyString(key))
  }

  /** `$a` with every entry of `$b` written into it in order (`array_replace`): keys of
      either kind are kept. */
  function Merged(a: seq<Entry>, b: seq<Entry>): seq<Entry>
  {
    if b == [] then a else Put(Merged(a, b[..|b| - 1]), b[|b| - 1].key, b[|b| - 1].val)
  }

  /** The corrected `flatten`: the delimiter is left out only for the empty prefix, and nested
      results are written into the result without renumbering, so that every key names the
      path to its value. */
  function Flattened(v: Value, n: nat, delimiter: string, prefix: string): seq<Entry>
    requires v.Arr? && n <= |v.entries|
    decreases v, n
  {
    if n == 0 then []
    else
      var result := Flattened(v, n - 1, delimiter, prefix);
      var e := v.entries[n - 1];
      var newKey := LeafKey(prefix, e.key, delimiter);
      if e.val.Arr? then Merged(result, Flattened(e.val, |e.val.entries|, delimiter, newKey))
      else Put(result, CanonicalKey(newKey), e.val)
  }

  /** Keys that flatten can join unambiguously: integer keys, and non-empty string keys
      without the delimiter character. */
  predicate SafeKey(k: Key, c: char)
  {
    k.IK? || (k.s != "" && !IsIntLiteral(k.s) && c !in k.s)
  }

  /** A nested array whose arrays all have distinct, safe keys. */
  predicate SafeKeys(v: Value, c: char)
  {
    match v
    case Arr(es) =>
      KeysUnique(es) && forall i | 0 <= i < |es| :: SafeKey(es[i].key, c) && SafeKeys(es[i].val, c)
    case _ => true
  }

  /** The key and value of an entry of an array with safe keys are safe. */
  lemma EntrySafe(v: Value, i: nat, c: char)
    requires v.Arr? && i < |v.entries| && SafeKeys(v, c)
    ensures SafeKey(v.entries[i].key, c) && SafeKeys(v.entries[i].val, c)
  {
  }

  /** A one-character delimiter that cannot occur in an integer key. */
  predicate SafeDelimiter(delimiter: string)
  {
    |delimiter| == 1 && !IsDigit(delimiter[0]) && delimiter[0] != '-'
  }

  lemma SafeKeyString(k: Key, delimiter: string)
    requires SafeDelimiter(delimiter) && SafeKey(k, delimiter[0])
    ensures KeyString(k) != "" && delimiter[0] !in KeyString(k)
    ensures CanonicalKey(KeyString(k)) == k
  {
    if k.IK? {
      IntToStringChars(k.n);
    }
    CanonicalOfKeyString(k);
  }

  /** The part of the key string `s` below `prefix`, if `s` lies below it. */
  function Below(prefix: string, delimiter: string, s: string): Option<string>
  {
    if prefix == "" then Some(s)
    else if |s| >= |prefix + delimiter| && s[..|prefix + delimiter|] == prefix + delimiter then
      Some(s[|prefix + delimiter|..])
    else None
  }

  /** `prefix` joined to `s` as flatten joins a key to its prefix. */
  function Under(prefix: string, delimiter: string, s: string): string
  {
    prefix + (if prefix == "" then "" else delimiter) + s
  }

  /** A string joined under `prefix` lies below `prefix`, and the rest is the string. */
  lemma BelowUnder(prefix: string, delimiter: string, s: string)
    ensures Below(prefix, delimiter, Under(prefix, delimiter, s)) == Some(s)
  {
    if prefix != "" {
      var t := Under(prefix, delimiter, s);
      assert t == (prefix + delimiter) + s;
      assert t[..|prefix + delimiter|] == prefix + delimiter;
      assert t[|prefix + delimiter|..] == s;
    } else {
      assert Under(prefix, delimiter, s) == s;
    }
  }

  /** Following a first piece that names the entry at `i` continues from that entry's value. */
  lemma FollowEntry(v: Value, i: nat, s: string, pieces: seq<string>)
    requires v.Arr? && KeysUnique(v.entries) && i < |v.entries|
    requires CanonicalKey(s) == v.entries[i].key
    ensures Follow(v, [s] + pieces) == Follow(v.entries[i].val, pieces)
  {
    LookupAt(v.entries, i);
    assert ([s] + pieces)[1..] == pieces;
  }

  /** The flattened entry `e` lies below `prefix`, and the rest of its key leads from `v` to
      its value. */
  predicate Reaches(v: Value, prefix: string, delimiter: string, e: Entry)
  {
    var rest := Below(prefix, delimiter, KeyString(e.key));
    |delimiter| > 0 && rest.Some? && Follow(v, Split(rest.value, delimiter)) == Some(e.val)
  }

  /** Writing entries of `b` into `a` keeps a property every entry of both has. */
  lemma {:induction false} MergedAll(a: seq<Entry>, b: seq<Entry>, p: Entry -> bool)
    requires All(a, p) && All(b, p)
    ensures All(Merged(a, b), p)
  {
    if b != [] {
      var front := b[..|b| - 1];
      assert All(front, p) by {
        forall i | 0 <= i < |front| ensures p(At(front, i)) {
          assert At(front, i) == At(b, i);
        }
      }
      MergedAll(a, front, p);
      assert p(At(b, |b| - 1));
      PutAll(Merged(a, front), b[|b| - 1].key, b[|b| - 1].val, p);
    }
  }

  /** A leaf stored directly under the entry at `i` is found by the entry's key. */
  lemma LeafReaches(v: Value, i: nat, prefix: string, delimiter: string)
    requires SafeDelimiter(delimiter) && SafeKeys(v, delimiter[0])
    requires v.Arr? && i < |v.entries|
    ensures var e := v.entries[i];
      Reaches(v, prefix, delimiter, Entry(CanonicalKey(LeafKey(prefix, e.key, delimiter)), e.val))
  {
    var e := v.entries[i];
    var s := KeyString(e.key);
    var newKey := LeafKey(prefix, e.key, delimiter);
    SafeKeyString(e.key, delimiter);
    KeyStringOfCanonical(newKey);
    assert newKey == Under(prefix, delimiter, s);
    BelowUnder(prefix, delimiter, s);
    SplitWhole(s, delimiter);
    FollowEntry(v, i, s, []);
    assert [s] + [] == [s];
  }

  /** A key string below `s` joined under `prefix` lies below `prefix`, `s` and the delimiter
      leading the rest. */
  lemma BelowNested(prefix: string, delimiter: string, s: string, t: string)
    requires s != "" && Below(Under(prefix, delimiter, s), delimiter, t).Some?
    ensures Below(prefix, delimiter, t) == Some(s + delimiter + Below(Under(prefix, delimiter, s), delimiter, t).value)
  {
    var newKey := Under(prefix, delimiter, s);
    var rest := Below(newKey, delimiter, t).value;
    assert newKey != "";
    assert t == newKey + delimiter + rest;
    assert t == Under(prefix, delimiter, s + delimiter + rest);
    BelowUnder(prefix, delimiter, s + delimiter + rest);
  }

  /** An entry flattened out of the array at `i` under that entry's key is found through it. */
  lemma InnerReaches(v: Value, i: nat, prefix: string, delimiter: string, e: Entry)
    requires SafeDelimiter(delimiter) && SafeKeys(v, delimiter[0])
    requires v.Arr? && i < |v.entries|
    requires Reaches(v.entries[i].val, LeafKey(prefix, v.entries[i].key, delimiter), delimiter, e)
    ensures Reaches(v, prefix, delimiter, e)
  {
    var s := KeyString(v.entries[i].key);
    SafeKeyString(v.entries[i].key, delimiter);
    var rest := Below(Under(prefix, delimiter, s), delimiter, KeyString(e.key)).value;
    BelowNested(prefix, delimiter, s, KeyString(e.key));
    SplitFirst(s, rest, delimiter);
    FollowEntry(v, i, s, Split(rest, delimiter));
  }


  /** The entry flattening makes of the leaf at `i` under `prefix`. */
  function LeafEntry(w: Value, i: nat, prefix: string, delimiter: string): Entry
    requires w.Arr? && i < |w.entries|
  {
    Entry(CanonicalKey(LeafKey(prefix, w.entries[i].key, delimiter)), w.entries[i].val)
  }

  /** A leaf entry keeps a property of every entry flattened so far when the entry it adds
      has that property. */
  lemma FlattenedLeafAll(v: Value, n: nat, delimiter: string, prefix: string, p: Entry -> bool)
    requires v.Arr? && 0 < n <= |v.entries| && !v.entries[n - 1].val.Arr?
    requires All(Flattened(v, n - 1, delimiter, prefix), p)
    requires p(LeafEntry(v, n - 1, prefix, delimiter))
    ensures All(Flattened(v, n, delimiter, prefix), p)
  {
    var e := v.entries[n - 1];
    var newKey := LeafKey(prefix, e.key, delimiter);
    assert LeafEntry(v, n - 1, prefix, delimiter) == Entry(CanonicalKey(newKey), e.val);
    assert Flattened(v, n, delimiter, prefix) == Put(Flattened(v, n - 1, delimiter, prefix), CanonicalKey(newKey), e.val);
    PutAll(Flattened(v, n - 1, delimiter, prefix), CanonicalKey(newKey), e.val, p);
  }

  /** A nested array's flattened entries keep a property of every entry flattened so far when
      they all have it. */
  lemma FlattenedInnerAll(v: Value, n: nat, delimiter: string, prefix: string, p: Entry -> bool)
    requires v.Arr? && 0 < n <= |v.entries| && v.entries[n - 1].val.Arr?
    requires All(Flattened(v, n - 1, delimiter, prefix), p)
    requires var e := v.entries[n - 1];
      All(Flattened(e.val, |e.val.entries|, delimiter, LeafKey(prefix, e.key, delimiter)), p)
    ensures All(Flattened(v, n, delimiter, prefix), p)
  {
    var e := v.entries[n - 1];
    var inner := Flattened(e.val, |e.val.entries|, delimiter, LeafKey(prefix, e.key, delimiter));
    assert Flattened(v, n, delimiter, prefix) == Merged(Flattened(v, n - 1, delimiter, prefix), inner);
    MergedAll(Flattened(v, n - 1, delimiter, prefix), inner, p);
  }

  /** `P(w, prefix, e)`: a property of an entry `e` flattened out of `w` under `prefix`. This
      is `P` for one `w` and `prefix`. */
  function Property(P: (Value, string, Entry) -> bool, w: Value, prefix: string): Entry -> bool
  {
    (e: Entry) => P(w, prefix, e)
  }

  /** Every leaf of an array with safe keys has `P` in the form flattening gives it. */
  ghost predicate LeafHolds(P: (Value, string, Entry) -> bool, delimiter: string)
  {
    forall w: Value, i: nat, prefix: string {:trigger LeafEntry(w, i, prefix, delimiter)} |
      w.Arr? && i < |w.entries| && SafeDelimiter(delimiter) && SafeKeys(w, delimiter[0]) ::
      P(w, prefix, LeafEntry(w, i, prefix, delimiter))
  }

  /** An entry with `P` below the entry at `i`, under that entry's key, has `P` below `prefix`. */
  predicate Lifted(P: (Value, string, Entry) -> bool, w: Value, i: nat, prefix: string, delimiter: string, e: Entry)
    requires w.Arr? && i < |w.entries|
  {
    P(w.entries[i].val, LeafKey(prefix, w.entries[i].key, delimiter), e) ==> P(w, prefix, e)
  }

  /** `P` passes from the entries of a nested array to the array holding it. */
  ghost predicate LiftHolds(P: (Value, string, Entry) -> bool, delimiter: string)
  {
    forall w: Value, i: nat, prefix: string, e: Entry {:trigger Lifted(P, w, i, prefix, delimiter, e)} |
      w.Arr? && i < |w.entries| && SafeDelimiter(delimiter) && SafeKeys(w, delimiter[0]) ::
      Lifted(P, w, i, prefix, delimiter, e)
  }

  /** Induction over the corrected flatten: a property that every leaf has, and that passes
      from a nested array to the array holding it, holds for every entry flatten produces. */
  lemma {:induction false} FlattenedAll(v: Value, n: nat, delimiter: string, prefix: string, P: (Value, string, Entry) -> bool)
    requires v.Arr? && n <= |v.entries|
    requires SafeDelimiter(delimiter) && SafeKeys(v, delimiter[0])
    requires LeafHolds(P, delimiter) && LiftHolds(P, delimiter)
    ensures All(Flattened(v, n, delimiter, prefix), Property(P, v, prefix))
    decreases v, n, 1
  {
    if n > 0 {
      FlattenedAll(v, n - 1, delimiter, prefix, P);
      if v.entries[n - 1].val.Arr? {
        FlattenedAllInner(v, n, delimiter, prefix, P);
      } else {
        assert P(v, prefix, LeafEntry(v, n - 1, prefix, delimiter));
        FlattenedLeafAll(v, n, delimiter, prefix, Property(P, v, prefix));
      }
    }
  }

  /** The step of FlattenedAll for an entry holding an array. */
  lemma {:induction false} FlattenedAllInner(v: Value, n: nat, delimiter: string, prefix: string, P: (Value, string, Entry) -> bool)
    requires v.Arr? && 0 < n <= |v.entries| && v.entries[n - 1].val.Arr?
    requires SafeDelimiter(delimiter) && SafeKeys(v, delimiter[0])
    requires LeafHolds(P, delimiter) && LiftHolds(P, delimiter)
    requires All(Flattened(v, n - 1, delimiter, prefix), Property(P, v, prefix))
    ensures All(Flattened(v, n, delimiter, prefix), Property(P, v, prefix))
    decreases v, n, 0
  {
    var e := v.entries[n - 1];
    assert SafeKeys(e.val, delimiter[0]) && e.val < v by {
      assert e in v.entries;
    }
    var newKey := LeafKey(prefix, e.key, delimiter);
    var inner := Flattened(e.val, |e.val.entries|, delimiter, newKey);
    FlattenedAll(e.val, |e.val.entries|, delimiter, newKey, P);
    forall j | 0 <= j < |inner| ensures Property(P, v, prefix)(At(inner, j)) {
      assert Property(P, e.val, newKey)(At(inner, j));
      assert Lifted(P, v, n - 1, prefix, delimiter, At(inner, j));
    }
    FlattenedInnerAll(v, n, delimiter, prefix, Property(P, v, prefix));
  }

  /** Reachability as a property of flattened entries. */
  function Reachability(delimiter: string): (Value, string, Entry) -> bool
  {
    (w: Value, prefix: string, e: Entry) => Reaches(w, prefix, delimiter, e)
  }

  lemma ReachabilityOfLeaves(delimiter: string)
    ensures LeafHolds(Reachability(delimiter), delimiter)
  {
    forall w: Value, i: nat, prefix: string |
      w.Arr? && i < |w.entries| && SafeDelimiter(delimiter) && SafeKeys(w, delimiter[0])
      ensures Reachability(delimiter)(w, prefix, LeafEntry(w, i, prefix, delimiter))
    {
      LeafReaches(w, i, prefix, delimiter);
    }
  }

  lemma ReachabilityLifts(delimiter: string)
    ensures LiftHolds(Reachability(delimiter), delimiter)
  {
    forall w: Value, i: nat, prefix: string, e: Entry |
      w.Arr? && i < |w.entries| && SafeDelimiter(delimiter) && SafeKeys(w, delimiter[0])
      ensures Lifted(Reachability(delimiter), w, i, prefix, delimiter, e)
    {
      if Reaches(w.entries[i].val, LeafKey(prefix, w.entries[i].key, delimiter), delimiter, e) {
        InnerReaches(w, i, prefix, delimiter, e);
      }
    }
  }

  /** Every entry the corrected flatten produces under `prefix` is found below `prefix` by
      following the rest of its key. */
  lemma FlattenedReaches(v: Value, n: nat, delimiter: string, prefix: string)
    requires v.Arr? && n <= |v.entries|
    requires SafeDelimiter(delimiter) && SafeKeys(v, delimiter[0])
    ensures All(Flattened(v, n, delimiter, prefix), Property(Reachability(delimiter), v, prefix))
  {
    ReachabilityOfLeaves(delimiter);
    ReachabilityLifts(delimiter);
    FlattenedAll(v, n, delimiter, prefix, Reachability(delimiter));
  }

  /** Round trip: for an array whose keys are safe for a one-character delimiter, getNested
      finds every value of the corrected flatten under the key flatten gave it, and every leaf
      getNested reaches is in the flatten under its path. */
  lemma FlattenGetNested(input: seq<Entry>, delimiter: string)
    requires SafeDelimiter(delimiter) && SafeKeys(Arr(input), delimiter[0])
    ensures var r := Flattened(Arr(input), |input|, delimiter, "");
      forall i | 0 <= i < |r| :: NestedValue(input, KeyString(r[i].key), delimiter) == r[i].val
    ensures var r := Flattened(Arr(input), |input|, delimiter, "");
      forall path | Follow(Arr(input), Split(path, delimiter)).Some? &&
        !Follow(Arr(input), Split(path, delimiter)).value.Arr? ::
        Lookup(r, CanonicalKey(path)) == Follow(Arr(input), Split(path, delimiter))
  {
    FlattenFindsLeaves(input, delimiter);
    var r := Flattened(Arr(input), |input|, delimiter, "");
    FlattenedReaches(Arr(input), |input|, delimiter, "");
    forall i | 0 <= i < |r| ensures NestedValue(input, KeyString(r[i].key), delimiter) == r[i].val {
      assert Property(Reachability(delimiter), Arr(input), "")(At(r, i));
    }
  }

  lemma {:induction false} MergedUnique(a: seq<Entry>, b: seq<Entry>)
    requires KeysUnique(a)
    ensures KeysUnique(Merged(a, b))
  {
    if b != [] {
      MergedUnique(a, b[..|b| - 1]);
      PutUnique(Merged(a, b[..|b| - 1]), b[|b| - 1].key, b[|b| - 1].val);
    }
  }

  /** The corrected flatten never produces the same key twice. */
  lemma {:induction false} FlattenedUnique(v: Value, n: nat, delimiter: string, prefix: string)
    requires v.Arr? && n <= |v.entries|
    ensures KeysUnique(Flattened(v, n, delimiter, prefix))
    decreases v, n
  {
    if n > 0 {
      FlattenedUnique(v, n - 1, delimiter, prefix);
      var result := Flattened(v, n - 1, delimiter, prefix);
      var e := v.entries[n - 1];
      var newKey := LeafKey(prefix, e.key, delimiter);
      if e.val.Arr? {
        var inner := Flattened(e.val, |e.val.entries|, delimiter, newKey);
        MergedUnique(result, inner);
        assert Flattened(v, n, delimiter, prefix) == Merged(result, inner);
      } else {
        PutUnique(result, CanonicalKey(newKey), e.val);
        assert Flattened(v, n, delimiter, prefix) == Put(result, CanonicalKey(newKey), e.val);
      }
    }
  }

  /** What the entry at `j` adds to the corrected flatten under `prefix`: the flattened entries
      of its nested array, or the leaf itself. */
  function Contribution(v: Value, j: nat, delimiter: string, prefix: string): seq<Entry>
    requires v.Arr? && j < |v.entries|
  {
    var e := v.entries[j];
    var newKey := LeafKey(prefix, e.key, delimiter);
    if e.val.Arr? then Flattened(e.val, |e.val.entries|, delimiter, newKey)
    else [Entry(CanonicalKey(newKey), e.val)]
  }

  /** Each entry's contribution is written into what the entries before it produced. */
  lemma FlattenedStep(v: Value, n: nat, delimiter: string, prefix: string)
    requires v.Arr? && 0 < n <= |v.entries|
    ensures Flattened(v, n, delimiter, prefix) ==
      Merged(Flattened(v, n - 1, delimiter, prefix), Contribution(v, n - 1, delimiter, prefix))
  {
    var c := Contribution(v, n - 1, delimiter, prefix);
    if !v.entries[n - 1].val.Arr? {
      assert c[..|c| - 1] == [];
    }
  }

  lemma ContributionUnique(v: Value, j: nat, delimiter: string, prefix: string)
    requires v.Arr? && j < |v.entries|
    ensures KeysUnique(Contribution(v, j, delimiter, prefix))
  {
    var e := v.entries[j];
    if e.val.Arr? {
      FlattenedUnique(e.val, |e.val.entries|, delimiter, LeafKey(prefix, e.key, delimiter));
    }
  }

  /** A key of `b` reads, once `b` is written into `a`, as it reads in `b`. */
  lemma {:induction false} MergedLookupIn(a: seq<Entry>, b: seq<Entry>, k: Key)
    requires KeysUnique(b) && HasKey(b, k)
    ensures Lookup(Merged(a, b), k) == Lookup(b, k)
    decreases |b|
  {
    var front := b[..|b| - 1];
    var last := b[|b| - 1];
    assert b == front + [last];
    if last.key == k {
      PutLookupSame(Merged(a, front), k, last.val);
      LookupAt(b, |b| - 1);
    } else {
      var i :| 0 <= i < |b| && b[i].key == k;
      assert front[i].key == k;
      MergedLookupIn(a, front, k);
      PutLookupOther(Merged(a, front), last.key, last.val, k);
      LookupAppend(front, [last], k);
    }
  }

  /** A key not in `b` reads, once `b` is written into `a`, as it reads in `a`. */
  lemma {:induction false} MergedLookupOut(a: seq<Entry>, b: seq<Entry>, k: Key)
    requires !HasKey(b, k)
    ensures Lookup(Merged(a, b), k) == Lookup(a, k)
    decreases |b|
  {
    if b != [] {
      var front := b[..|b| - 1];
      assert !HasKey(front, k) by {
        forall i | 0 <= i < |front| ensures front[i].key != k {
          assert front[i] == b[i];
        }
      }
      MergedLookupOut(a, front, k);
      PutLookupOther(Merged(a, front), b[|b| - 1].key, b[|b| - 1].val, k);
    }
  }

  /** The characters of `t` before the first `c`. */
  function Run(t: string, c: char): (r: string)
    ensures c !in r
  {
    if t == [] || t[0] == c then [] else [t[0]] + Run(t[1..], c)
  }

  /** A piece without `c` ended by `c` or by the end of the string is the run it starts. */
  lemma {:induction false} RunOfPiece(s: string, c: char, x: string)
    requires c !in s && (x == [] || x[0] == c)
    ensures Run(s + x, c) == s
    decreases |s|
  {
    if s != [] {
      assert (s + x)[0] == s[0] && (s + x)[1..] == s[1..] + x;
      assert s[0] in s;
      RunOfPiece(s[1..], c, x);
      assert s == [s[0]] + s[1..];
    } else {
      assert s + x == x;
    }
  }

  /** A string that starts with `lead + s`, followed by `c` or by nothing, has `s` as the run
      after `lead`. */
  lemma RunAfter(lead: string, s: string, c: char, t: string)
    requires c !in s && |t| >= |lead + s| && t[..|lead + s|] == lead + s
    requires |t| > |lead + s| ==> t[|lead + s|] == c
    ensures |t| >= |lead| && t[..|lead|] == lead && Run(t[|lead|..], c) == s
  {
    var x := t[|lead + s|..];
    assert t[|lead|..] == s + x;
    RunOfPiece(s, c, x);
  }

  /** A key below a non-empty key starts with it and the delimiter. */
  lemma BelowLeads(u: string, delimiter: string, t: string)
    requires |delimiter| == 1 && u != "" && Below(u, delimiter, t).Some?
    ensures |t| > |u| && t[..|u|] == u && t[|u|] == delimiter[0]
  {
    assert t[..|u + delimiter|] == u + delimiter;
    assert t[..|u|] == (u + delimiter)[..|u|];
  }

  /** Every key the entry at `j` contributes names that entry's key first, after the prefix. */
  lemma ContributionNames(v: Value, j: nat, delimiter: string, prefix: string, k: Key)
    requires SafeDelimiter(delimiter) && SafeKeys(v, delimiter[0])
    requires v.Arr? && j < |v.entries| && HasKey(Contribution(v, j, delimiter, prefix), k)
    ensures var lead := Under(prefix, delimiter, "");
      |KeyString(k)| >= |lead| && KeyString(k)[..|lead|] == lead &&
      Run(KeyString(k)[|lead|..], delimiter[0]) == KeyString(v.entries[j].key)
  {
    var e := v.entries[j];
    var s := KeyString(e.key);
    var lead := Under(prefix, delimiter, "");
    var newKey := LeafKey(prefix, e.key, delimiter);
    var c := Contribution(v, j, delimiter, prefix);
    var i :| 0 <= i < |c| && c[i].key == k;
    var t := KeyString(k);
    SafeKeyString(e.key, delimiter);
    assert newKey == lead + s;
    if e.val.Arr? {
      assert SafeKeys(e.val, delimiter[0]) by {
        assert SafeKeys(v, delimiter[0]);
      }
      FlattenedReaches(e.val, |e.val.entries|, delimiter, newKey);
      assert Property(Reachability(delimiter), e.val, newKey)(At(c, i));
      BelowLeads(newKey, delimiter, t);
    } else {
      KeyStringOfCanonical(newKey);
    }
    RunAfter(lead, s, delimiter[0], t);
  }

  /** Two entries of an array with safe keys contribute no key in common. */
  lemma ContributionsApart(v: Value, j: nat, m: nat, delimiter: string, prefix: string, k: Key)
    requires SafeDelimiter(delimiter) && SafeKeys(v, delimiter[0])
    requires v.Arr? && j < |v.entries| && m < |v.entries| && j != m
    requires HasKey(Contribution(v, j, delimiter, prefix), k)
    ensures !HasKey(Contribution(v, m, delimiter, prefix), k)
  {
    var c := Contribution(v, m, delimiter, prefix);
    SafeKeyString(v.entries[j].key, delimiter);
    SafeKeyString(v.entries[m].key, delimiter);
    assert KeyString(v.entries[j].key) != KeyString(v.entries[m].key);
    ContributionNames(v, j, delimiter, prefix, k);
    forall i | 0 <= i < |c| ensures c[i].key != k {
      assert HasKey(c, c[i].key);
      ContributionNames(v, m, delimiter, prefix, c[i].key);
    }
  }

  /** The key the entry at `j` contributes reads, right after it, as in the contribution. */
  lemma FlattenedKeepsAt(v: Value, j: nat, delimiter: string, prefix: string, k: Key)
    requires v.Arr? && j < |v.entries| && HasKey(Contribution(v, j, delimiter, prefix), k)
    ensures Lookup(Flattened(v, j + 1, delimiter, prefix), k) == Lookup(Contribution(v, j, delimiter, prefix), k)
  {
    FlattenedStep(v, j + 1, delimiter, prefix);
    ContributionUnique(v, j, delimiter, prefix);
    MergedLookupIn(Flattened(v, j, delimiter, prefix), Contribution(v, j, delimiter, prefix), k);
  }

  /** An entry that does not contribute `k` leaves it as the entries before it left it. */
  lemma FlattenedKeepsPast(v: Value, n: nat, delimiter: string, prefix: string, k: Key)
    requires v.Arr? && 0 < n <= |v.entries| && !HasKey(Contribution(v, n - 1, delimiter, prefix), k)
    ensures Lookup(Flattened(v, n, delimiter, prefix), k) == Lookup(Flattened(v, n - 1, delimiter, prefix), k)
  {
    FlattenedStep(v, n, delimiter, prefix);
    MergedLookupOut(Flattened(v, n - 1, delimiter, prefix), Contribution(v, n - 1, delimiter, prefix), k);
  }

  /** Flattening the entries from `i` up to `n` leaves `k` as the first `i` entries left it, when
      no one of them changes it. */
  lemma {:induction false} FlattenedSteady(v: Value, i: nat, n: nat, delimiter: string, prefix: string, k: Key)
    requires v.Arr? && i <= n <= |v.entries|
    requires forall m | i < m <= n ::
      Lookup(Flattened(v, m, delimiter, prefix), k) == Lookup(Flattened(v, m - 1, delimiter, prefix), k)
    ensures Lookup(Flattened(v, n, delimiter, prefix), k) == Lookup(Flattened(v, i, delimiter, prefix), k)
    decreases n
  {
    if n > i {
      FlattenedSteady(v, i, n - 1, delimiter, prefix, k);
    }
  }

  /** In an array with safe keys, no entry after the `j`th changes a key the `j`th contributes. */
  lemma LaterEntriesSteady(v: Value, j: nat, delimiter: string, prefix: string, k: Key)
    requires SafeDelimiter(delimiter) && SafeKeys(v, delimiter[0])
    requires v.Arr? && j < |v.entries| && HasKey(Contribution(v, j, delimiter, prefix), k)
    ensures forall m | j + 1 < m <= |v.entries| ::
      Lookup(Flattened(v, m, delimiter, prefix), k) == Lookup(Flattened(v, m - 1, delimiter, prefix), k)
  {
    forall m | j + 1 < m <= |v.entries|
      ensures Lookup(Flattened(v, m, delimiter, prefix), k) == Lookup(Flattened(v, m - 1, delimiter, prefix), k)
    {
      ContributionsApart(v, j, m - 1, delimiter, prefix, k);
      FlattenedKeepsPast(v, m, delimiter, prefix, k);
    }
  }

  /** In an array with safe keys, a key one entry contributes is in the whole flatten with the
      value the entry gave it. */
  lemma FlattenedKeepsEntry(v: Value, j: nat, delimiter: string, prefix: string, k: Key)
    requires SafeDelimiter(delimiter) && SafeKeys(v, delimiter[0])
    requires v.Arr? && j < |v.entries| && HasKey(Contribution(v, j, delimiter, prefix), k)
    ensures Lookup(Flattened(v, |v.entries|, delimiter, prefix), k) == Lookup(Contribution(v, j, delimiter, prefix), k)
  {
    LaterEntriesSteady(v, j, delimiter, prefix, k);
    FlattenedSteady(v, j + 1, |v.entries|, delimiter, prefix, k);
    FlattenedKeepsAt(v, j, delimiter, prefix, k);
  }

  /** The leaf held by the entry at `j` is in the flatten under that entry's flattened key. */
  lemma FlattenedFindsHere(v: Value, j: nat, delimiter: string, prefix: string)
    requires SafeDelimiter(delimiter) && SafeKeys(v, delimiter[0])
    requires v.Arr? && j < |v.entries| && !v.entries[j].val.Arr?
    ensures Lookup(Flattened(v, |v.entries|, delimiter, prefix),
      CanonicalKey(LeafKey(prefix, v.entries[j].key, delimiter))) == Some(v.entries[j].val)
  {
    var k := CanonicalKey(LeafKey(prefix, v.entries[j].key, delimiter));
    var c := Contribution(v, j, delimiter, prefix);
    assert c == [Entry(k, v.entries[j].val)] && c[0].key == k;
    FlattenedKeepsEntry(v, j, delimiter, prefix, k);
  }

  /** What the flatten of the array held by the entry at `j` has, the whole flatten has. */
  lemma FlattenedFindsBelow(v: Value, j: nat, delimiter: string, prefix: string, k: Key, x: Value)
    requires SafeDelimiter(delimiter) && SafeKeys(v, delimiter[0])
    requires v.Arr? && j < |v.entries| && v.entries[j].val.Arr?
    requires var w := v.entries[j].val;
      Lookup(Flattened(w, |w.entries|, delimiter, LeafKey(prefix, v.entries[j].key, delimiter)), k) == Some(x)
    ensures Lookup(Flattened(v, |v.entries|, delimiter, prefix), k) == Some(x)
  {
    FlattenedKeepsEntry(v, j, delimiter, prefix, k);
  }

  /** Joining the first piece under `prefix`, then the rest under that, joins all the pieces
      under `prefix`. */
  lemma UnderJoin(prefix: string, delimiter: string, pieces: seq<string>)
    requires |pieces| > 1 && pieces[0] != ""
    ensures Under(Under(prefix, delimiter, pieces[0]), delimiter, Join(pieces[1..], delimiter)) ==
      Under(prefix, delimiter, Join(pieces, delimiter))
  {
    var lead := Under(prefix, delimiter, "");
    var tail := Join(pieces[1..], delimiter);
    assert Join(pieces, delimiter) == pieces[0] + delimiter + tail;
    assert Under(prefix, delimiter, pieces[0]) == lead + pieces[0];
    assert Under(lead + pieces[0], delimiter, tail) == lead + pieces[0] + delimiter + tail;
  }

  /** A leaf that the pieces lead to from `v` is in the corrected flatten under `prefix`, under
      the pieces joined by the delimiter. */
  lemma {:induction false} FlattenedFindsLeaf(v: Value, pieces: seq<string>, delimiter: string, prefix: string)
    requires SafeDelimiter(delimiter) && SafeKeys(v, delimiter[0]) && v.Arr? && |pieces| >= 1
    requires Follow(v, pieces).Some? && !Follow(v, pieces).value.Arr?
    ensures Lookup(Flattened(v, |v.entries|, delimiter, prefix),
      CanonicalKey(Under(prefix, delimiter, Join(pieces, delimiter)))) == Follow(v, pieces)
    decreases |pieces|
  {
    var p := pieces[0];
    var j :| 0 <= j < |v.entries| && v.entries[j].key == CanonicalKey(p);
    LookupAt(v.entries, j);
    var e := v.entries[j];
    KeyStringOfCanonical(p);
    assert LeafKey(prefix, e.key, delimiter) == Under(prefix, delimiter, p);
    if |pieces| == 1 {
      assert Follow(v, pieces) == Some(e.val);
      FlattenedFindsHere(v, j, delimiter, prefix);
    } else {
      var rest := pieces[1..];
      assert Follow(v, pieces) == Follow(e.val, rest);
      assert SafeKeys(e.val, delimiter[0]) by {
        assert SafeKeys(v, delimiter[0]);
      }
      FlattenedFindsLeaf(e.val, rest, delimiter, Under(prefix, delimiter, p));
      SafeKeyString(e.key, delimiter);
      UnderJoin(prefix, delimiter, pieces);
      FlattenedFindsBelow(v, j, delimiter, prefix,
        CanonicalKey(Under(prefix, delimiter, Join(pieces, delimiter))), Follow(v, pieces).value);
    }
  }

  /** The converse round trip: every leaf of the input (a value other than an array, at the end
      of a path) is in the corrected flatten under that path, so no leaf is lost or overwritten. */
  lemma FlattenFindsLeaves(input: seq<Entry>, delimiter: string)
    requires SafeDelimiter(delimiter) && SafeKeys(Arr(input), delimiter[0])
    ensures forall path | Follow(Arr(input), Split(path, delimiter)).Some? &&
      !Follow(Arr(input), Split(path, delimiter)).value.Arr? ::
      Lookup(Flattened(Arr(input), |input|, delimiter, ""), CanonicalKey(path)) ==
      Follow(Arr(input), Split(path, delimiter))
  {
    forall path | Follow(Arr(input), Split(path, delimiter)).Some? &&
      !Follow(Arr(input), Split(path, delimiter)).value.Arr?
      ensures Lookup(Flattened(Arr(input), |input|, delimiter, ""), CanonicalKey(path)) ==
        Follow(Arr(input), Split(path, delimiter))
    {
      JoinSplit(path, delimiter);
      FlattenedFindsLeaf(Arr(input), Split(path, delimiter), delimiter, "");
      assert Under("", delimiter, path) == path;
    }
  }

  /** An entry whose key is a string key. */
  predicate HasStringKey(e: Entry)
  {
    e.key.SK?
  }

  /** Writing `e` and then the entries of `t` is writing the entries of `[e] + t`. */
  lemma {:induction false} MergedCons(acc: seq<Entry>, e: Entry, t: seq<Entry>)
    ensures Merged(Put(acc, e.key, e.val), t) == Merged(acc, [e] + t)
    decreases |t|
  {
    var et := [e] + t;
    if t == [] {
      assert et[..0] == [];
    } else {
      var front := t[..|t| - 1];
      MergedCons(acc, e, front);
      assert et[..|et| - 1] == [e] + front;
      assert et[|et| - 1] == t[|t| - 1];
    }
  }

  /** Writing `b + c` is writing `b`, then `c`. */
  lemma {:induction false} MergedAppend(a: seq<Entry>, b: seq<Entry>, c: seq<Entry>)
    ensures Merged(a, b + c) == Merged(Merged(a, b), c)
    decreases |c|
  {
    if c == [] {
      assert b + c == b;
    } else {
      MergedAppend(a, b, c[..|c| - 1]);
      var bc := b + c;
      assert bc[..|bc| - 1] == b + c[..|c| - 1];
      assert bc[|bc| - 1] == c[|c| - 1];
    }
  }

  /** Writing the entries of an array with distinct keys into an empty array rebuilds it. */
  lemma {:induction false} MergedIntoEmpty(a: seq<Entry>)
    requires KeysUnique(a)
    ensures Merged([], a) == a
    decreases |a|
  {
    if a != [] {
      var front := a[..|a| - 1];
      var last := a[|a| - 1];
      assert KeysUnique(front) by {
        forall p, q | 0 <= p < q < |front| ensures front[p].key != front[q].key {
          assert front[p] == a[p] && front[q] == a[q];
        }
      }
      MergedIntoEmpty(front);
      PrefixLacksKeyAt(a, |a| - 1);
      PutFacts(front, last.key, last.val);
      assert front + [last] == a;
    }
  }

  /** `array_merge` writes the entries of the second array in order when every key is a
      string key: it renumbers nothing, so it is `Merged`. */
  lemma {:induction false} MergeFromStrings(acc: seq<Entry>, rest: seq<Entry>, next: int)
    requires All(rest, HasStringKey)
    ensures MergeFrom(acc, rest, next) == Merged(acc, rest)
    decreases |rest|
  {
    if rest != [] {
      assert HasStringKey(At(rest, 0));
      var tail := rest[1..];
      assert All(tail, HasStringKey) by {
        forall i | 0 <= i < |tail| ensures HasStringKey(At(tail, i)) {
          assert At(tail, i) == At(rest, i + 1);
        }
      }
      MergeFromStrings(Put(acc, rest[0].key, rest[0].val), tail, next);
      MergedCons(acc, rest[0], tail);
      assert [rest[0]] + tail == rest;
    }
  }

  /** `array_merge` of two string-keyed arrays, the first with distinct keys, is `Merged`. */
  lemma ArrayMergeStrings(a: seq<Entry>, b: seq<Entry>)
    requires KeysUnique(a) && All(a, HasStringKey) && All(b, HasStringKey)
    ensures ArrayMerge(a, b) == Merged(a, b)
  {
    var ab := a + b;
    assert All(ab, HasStringKey) by {
      forall i | 0 <= i < |ab| ensures HasStringKey(At(ab, i)) {
        if i < |a| {
          assert At(ab, i) == At(a, i);
        } else {
          assert At(ab, i) == At(b, i - |a|);
        }
      }
    }
    MergeFromStrings([], ab, 0);
    MergedAppend([], a, b);
    MergedIntoEmpty(a);
  }

  /** A key string holding the (safe) delimiter is no integer literal. */
  lemma DelimiterNotIntLiteral(t: string, delimiter: string)
    requires SafeDelimiter(delimiter) && delimiter[0] in t
    ensures !IsIntLiteral(t)
  {
    var j :| 0 <= j < |t| && t[j] == delimiter[0];
    assert !IsDigit(t[j]);
  }

  /** The key flatten joins for the entry `e` under `prefix`: the same in both flattens when
      the prefix is not "0", and a string key when the prefix is not empty or `e`'s key is a
      string key. */
  lemma LeafKeyAgrees(prefix: string, e: Entry, delimiter: string)
    requires SafeDelimiter(delimiter) && SafeKey(e.key, delimiter[0])
    requires prefix != "0" && (prefix == "" ==> e.key.SK?)
    ensures LeafKeyAsWritten(prefix, e.key, delimiter) == LeafKey(prefix, e.key, delimiter)
    ensures var newKey := LeafKey(prefix, e.key, delimiter);
      newKey != "" && newKey != "0" && CanonicalKey(newKey).SK?
  {
    var newKey := LeafKey(prefix, e.key, delimiter);
    SafeKeyString(e.key, delimiter);
    if prefix == "" {
      assert newKey == e.key.s;
      assert IsIntLiteral("0");
    } else {
      assert newKey == prefix + delimiter + KeyString(e.key);
      assert newKey[|prefix|] == delimiter[0];
      DelimiterNotIntLiteral(newKey, delimiter);
    }
  }

  /** Merging string-keyed results: `array_merge` is `Merged`, and the keys stay string keys. */
  lemma MergeAgrees(result: seq<Entry>, inner: seq<Entry>)
    requires KeysUnique(result) && All(result, HasStringKey) && All(inner, HasStringKey)
    ensures ArrayMerge(result, inner) == Merged(result, inner)
    ensures All(Merged(result, inner), HasStringKey)
  {
    ArrayMergeStrings(result, inner);
    MergedAll(result, inner, HasStringKey);
  }

  /** One more entry holding an array, in the corrected flatten. */
  lemma FlattenedInner(v: Value, n: nat, delimiter: string, prefix: string)
    requires v.Arr? && 0 < n <= |v.entries| && v.entries[n - 1].val.Arr?
    ensures var e := v.entries[n - 1];
      Flattened(v, n, delimiter, prefix) ==
        Merged(Flattened(v, n - 1, delimiter, prefix), Flattened(e.val, |e.val.entries|, delimiter, LeafKey(prefix, e.key, delimiter)))
  {
  }

  /** Flatten as written agrees with the corrected flatten, and produces string keys only,
      under a prefix that is not "0" and, when it is empty, over an array without integer
      keys. */
  lemma {:induction false} FlattenedAsWrittenAgrees(v: Value, n: nat, delimiter: string, prefix: string)
    requires v.Arr? && n <= |v.entries|
    requires SafeDelimiter(delimiter) && SafeKeys(v, delimiter[0])
    requires prefix != "0"
    requires prefix == "" ==> forall i | 0 <= i < |v.entries| :: v.entries[i].key.SK?
    ensures FlattenedAsWritten(v, n, delimiter, prefix) == Flattened(v, n, delimiter, prefix)
    ensures All(Flattened(v, n, delimiter, prefix), HasStringKey)
    decreases v, 1
  {
    forall i | 0 <= i < |v.entries|
      ensures KeyAgreesAt(v, i, delimiter, prefix) && NestedAgreesAt(v, i, delimiter, prefix)
    {
      EntryAgrees(v, i, delimiter, prefix);
    }
    assert LevelReady(v, delimiter, prefix);
    LevelAgrees(v, n, delimiter, prefix);
  }

  /** Both flattens join the key of the entry at `i` to `prefix` alike, into a string key. */
  predicate KeyAgreesAt(v: Value, i: nat, delimiter: string, prefix: string)
    requires v.Arr? && i < |v.entries|
  {
    var k := v.entries[i].key;
    LeafKeyAsWritten(prefix, k, delimiter) == LeafKey(prefix, k, delimiter) &&
    CanonicalKey(LeafKey(prefix, k, delimiter)).SK?
  }

  /** Both flattens agree on the array the entry at `i` holds, if it holds one, and produce
      string keys only there. */
  predicate NestedAgreesAt(v: Value, i: nat, delimiter: string, prefix: string)
    requires v.Arr? && i < |v.entries|
  {
    var w := v.entries[i].val;
    var newKey := LeafKey(prefix, v.entries[i].key, delimiter);
    w.Arr? ==>
      FlattenedAsWritten(w, |w.entries|, delimiter, newKey) == Flattened(w, |w.entries|, delimiter, newKey) &&
      All(Flattened(w, |w.entries|, delimiter, newKey), HasStringKey)
  }

  /** Under the conditions of FlattenedAsWrittenAgrees, each entry's key and nested array
      agree. */
  lemma EntryAgrees(v: Value, i: nat, delimiter: string, prefix: string)
    requires v.Arr? && i < |v.entries|
    requires SafeDelimiter(delimiter) && SafeKeys(v, delimiter[0])
    requires prefix != "0"
    requires prefix == "" ==> forall m | 0 <= m < |v.entries| :: v.entries[m].key.SK?
    ensures KeyAgreesAt(v, i, delimiter, prefix) && NestedAgreesAt(v, i, delimiter, prefix)
    decreases v, 0
  {
    var e := v.entries[i];
    EntrySafe(v, i, delimiter[0]);
    LeafKeyAgrees(prefix, e, delimiter);
    if e.val.Arr? {
      NestedSmaller(v.entries, i);
      FlattenedAsWrittenAgrees(e.val, |e.val.entries|, delimiter, LeafKey(prefix, e.key, delimiter));
    }
  }

  /** Both flattens agree on the key and nested array of every entry of `v`. */
  predicate LevelReady(v: Value, delimiter: string, prefix: string)
    requires v.Arr?
  {
    (forall i | 0 <= i < |v.entries| :: KeyAgreesAt(v, i, delimiter, prefix)) &&
    (forall i | 0 <= i < |v.entries| :: NestedAgreesAt(v, i, delimiter, prefix))
  }

  /** The first `n` entries of `v` flatten alike both ways, into distinct string keys. */
  predicate FlattensAgree(v: Value, n: nat, delimiter: string, prefix: string)
    requires v.Arr? && n <= |v.entries|
  {
    var r := Flattened(v, n, delimiter, prefix);
    FlattenedAsWritten(v, n, delimiter, prefix) == r && All(r, HasStringKey) && KeysUnique(r)
  }

  /** The two flattens agree entry by entry over one array whose keys and nested arrays
      agree. */
  lemma {:induction false} LevelAgrees(v: Value, n: nat, delimiter: string, prefix: string)
    requires v.Arr? && n <= |v.entries| && LevelReady(v, delimiter, prefix)
    ensures FlattensAgree(v, n, delimiter, prefix)
    decreases n, 1
  {
    if n > 0 {
      if v.entries[n - 1].val.Arr? {
        LevelAgreesInner(v, n, delimiter, prefix);
      } else {
        LevelAgreesLeaf(v, n, delimiter, prefix);
      }
    }
  }

  /** The step of LevelAgrees for an entry holding an array. */
  lemma {:induction false} LevelAgreesInner(v: Value, n: nat, delimiter: string, prefix: string)
    requires v.Arr? && 0 < n <= |v.entries| && v.entries[n - 1].val.Arr? && LevelReady(v, delimiter, prefix)
    ensures FlattensAgree(v, n, delimiter, prefix)
    decreases n, 0
  {
    LevelAgrees(v, n - 1, delimiter, prefix);
    AgreeInnerStep(v, n, delimiter, prefix);
  }

  /** The step of LevelAgrees for a leaf entry. */
  lemma {:induction false} LevelAgreesLeaf(v: Value, n: nat, delimiter: string, prefix: string)
    requires v.Arr? && 0 < n <= |v.entries| && !v.entries[n - 1].val.Arr? && LevelReady(v, delimiter, prefix)
    ensures FlattensAgree(v, n, delimiter, prefix)
    decreases n, 0
  {
    LevelAgrees(v, n - 1, delimiter, prefix);
    AgreeLeafStep(v, n, delimiter, prefix);
  }

  /** One more entry holding an array, in flatten as written. */
  lemma FlattenedAsWrittenNested(v: Value, n: nat, delimiter: string, prefix: string)
    requires v.Arr? && 0 < n <= |v.entries| && v.entries[n - 1].val.Arr?
    ensures var e := v.entries[n - 1];
      FlattenedAsWritten(v, n, delimiter, prefix) ==
        ArrayMerge(FlattenedAsWritten(v, n - 1, delimiter, prefix),
          FlattenedAsWritten(e.val, |e.val.entries|, delimiter, LeafKeyAsWritten(prefix, e.key, delimiter)))
  {
  }

  /** The two flattens agree on one more entry holding an array when they agree before it
      and on the nested array. */
  lemma AgreeAfterMerge(written: seq<Entry>, corrected: seq<Entry>, beforeWritten: seq<Entry>, before: seq<Entry>,
                        innerWritten: seq<Entry>, inner: seq<Entry>)
    requires written == ArrayMerge(beforeWritten, innerWritten) && corrected == Merged(before, inner)
    requires beforeWritten == before && innerWritten == inner
    requires KeysUnique(before) && All(before, HasStringKey) && All(inner, HasStringKey)
    ensures written == corrected && All(corrected, HasStringKey)
  {
    MergeAgrees(before, inner);
  }

  /** Flatten as written and the corrected flatten agree on one more entry holding an array
      when they agree before it and on the nested array. */
  lemma AgreeInnerStep(v: Value, n: nat, delimiter: string, prefix: string)
    requires v.Arr? && 0 < n <= |v.entries| && v.entries[n - 1].val.Arr?
    requires FlattensAgree(v, n - 1, delimiter, prefix)
    requires KeyAgreesAt(v, n - 1, delimiter, prefix) && NestedAgreesAt(v, n - 1, delimiter, prefix)
    ensures FlattensAgree(v, n, delimiter, prefix)
  {
    var e := v.entries[n - 1];
    var newKey := LeafKey(prefix, e.key, delimiter);
    FlattenedAsWrittenNested(v, n, delimiter, prefix);
    FlattenedInner(v, n, delimiter, prefix);
    AgreeAfterMerge(FlattenedAsWritten(v, n, delimiter, prefix), Flattened(v, n, delimiter, prefix),
      FlattenedAsWritten(v, n - 1, delimiter, prefix), Flattened(v, n - 1, delimiter, prefix),
      FlattenedAsWritten(e.val, |e.val.entries|, delimiter, newKey),
      Flattened(e.val, |e.val.entries|, delimiter, newKey));
    MergedUnique(Flattened(v, n - 1, delimiter, prefix), Flattened(e.val, |e.val.entries|, delimiter, newKey));
  }

  /** Flatten as written and the corrected flatten agree on one more leaf entry when they
      agree before it and the leaf's key is a string key. */
  lemma AgreeLeafStep(v: Value, n: nat, delimiter: string, prefix: string)
    requires v.Arr? && 0 < n <= |v.entries| && !v.entries[n - 1].val.Arr?
    requires FlattensAgree(v, n - 1, delimiter, prefix)
    requires KeyAgreesAt(v, n - 1, delimiter, prefix)
    ensures FlattensAgree(v, n, delimiter, prefix)
  {
    var e := v.entries[n - 1];
    var result := Flattened(v, n - 1, delimiter, prefix);
    var key := CanonicalKey(LeafKey(prefix, e.key, delimiter));
    assert HasStringKey(Entry(key, e.val));
    PutAll(result, key, e.val, HasStringKey);
    PutUnique(result, key, e.val);
    assert Flattened(v, n, delimiter, prefix) == Put(result, key, e.val);
    assert FlattenedAsWritten(v, n, delimiter, prefix) == Put(result, key, e.val);
  }

  /** Where flatten as written is right (a safe one-character delimiter, safe keys, and no
      integer key in the outer array) it never repeats a key, and getNested finds every value
      it produces under the key it gave that value. */
  lemma FlattenAsWrittenGetNested(input: seq<Entry>, delimiter: string)
    requires SafeDelimiter(delimiter) && SafeKeys(Arr(input), delimiter[0])
    requires forall i | 0 <= i < |input| :: input[i].key.SK?
    ensures var r := FlattenedAsWritten(Arr(input), |input|, delimiter, "");
      r == Flattened(Arr(input), |input|, delimiter, "") && KeysUnique(r) &&
      forall i | 0 <= i < |r| :: NestedValue(input, KeyString(r[i].key), delimiter) == r[i].val
    ensures var r := FlattenedAsWritten(Arr(input), |input|, delimiter, "");
      forall path | Follow(Arr(input), Split(path, delimiter)).Some? &&
        !Follow(Arr(input), Split(path, delimiter)).value.Arr? ::
        Lookup(r, CanonicalKey(path)) == Follow(Arr(input), Split(path, delimiter))
  {
    FlattenedAsWrittenAgrees(Arr(input), |input|, delimiter, "");
    FlattenedUnique(Arr(input), |input|, delimiter, "");
    FlattenGetNested(input, delimiter);
  }
}
