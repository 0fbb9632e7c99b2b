/** `changeKeyCase` and its private helpers `underscoreKeys` and `camelCaseKeys`, on ASCII
    strings. */
module KeyCase {
  import opened PhpValues
  import opened PhpKeys

  const CaseLower: int := 1
  const CaseUpper: int := 2
  const CaseCamelCaps: int := 4
  const CaseUnderscore: int := 8

  /** `$mode & $flag` is non-zero, for a flag that is a power of two. Floor division by the
      flag is an arithmetic shift, so this also holds for negative modes in two's complement. */
  predicate HasFlag(mode: int, flag: int)
    requires flag > 0
  {
    (mode / flag) % 2 == 1
  }

  predicate IsLower(c: char) { 'a' <= c <= 'z' }
  predicate IsUpper(c: char) { 'A' <= c <= 'Z' }
  predicate IsAlnum(c: char) { IsLower(c) || IsUpper(c) || IsDigit(c) }

  function ToLower(c: char): (r: char)
    ensures !IsUpper(r) && (IsAlnum(c) <==> IsAlnum(r))
    ensures !IsUpper(c) ==> r == c
  {
    if IsUpper(c) then (c as int - 'A' as int + 'a' as int) as char else c
  }

  function ToUpper(c: char): (r: char)
    ensures !IsLower(r) && (IsAlnum(c) <==> IsAlnum(r))
    ensures !IsLower(c) ==> r == c
  {
    if IsLower(c) then (c as int - 'a' as int + 'A' as int) as char else c
  }

  /** `strtolower` */
  function Lower(s: string): (r: string)
    ensures |r| == |s| && forall i | 0 <= i < |s| :: r[i] == ToLower(s[i])
  {
    seq(|s|, i requires 0 <= i < |s| => ToLower(s[i]))
  }

  /** `strtoupper` */
  function Upper(s: string): (r: string)
    ensures |r| == |s| && forall i | 0 <= i < |s| :: r[i] == ToUpper(s[i])
  {
    seq(|s|, i requires 0 <= i < |s| => ToUpper(s[i]))
  }

  /** `preg_replace('/([a-z])([A-Z0-9])/', '$1_$2', $s)`: the matches are found from left to
      right and do not overlap. */
  function Underscore(s: string): string
    decreases |s|
  {
    if |s| >= 2 && IsLower(s[0]) && (IsUpper(s[1]) || IsDigit(s[1])) then [s[0], '_', s[1]] + Underscore(s[2..])
    else if s == [] then []
    else [s[0]] + Underscore(s[1..])
  }

  /** A lowercase letter directly followed by an uppercase letter or a digit. */
  predicate Joined(s: string, i: int)
    requires 0 <= i && i + 1 < |s|
  {
    IsLower(s[i]) && (IsUpper(s[i + 1]) || IsDigit(s[i + 1]))
  }

  /** The characters of `s` other than '_'. */
  function WithoutUnderscores(s: string): string
  {
    if s == [] then [] else (if s[0] == '_' then [] else [s[0]]) + WithoutUnderscores(s[1..])
  }

  /** Underscoring only inserts '_': with the underscores removed, the key is unchanged, and
      no lowercase letter is left directly before an uppercase letter or a digit. */
  lemma {:induction false} UnderscoreSeparates(s: string)
    ensures WithoutUnderscores(Underscore(s)) == WithoutUnderscores(s)
    ensures forall i | 0 <= i && i + 1 < |Underscore(s)| :: !Joined(Underscore(s), i)
    ensures |Underscore(s)| > 0 ==> |s| > 0 && Underscore(s)[0] == s[0]
    decreases |s|
  {
    if |s| >= 2 && IsLower(s[0]) && (IsUpper(s[1]) || IsDigit(s[1])) {
      UnderscoreSeparates(s[2..]);
      assert Underscore(s) == [s[0], '_', s[1]] + Underscore(s[2..]);
      assert s == [s[0], s[1]] + s[2..];
      InsertKeeps(s[0], s[1], Underscore(s[2..]), s[2..]);
      InsertSeparates(s[0], s[1], Underscore(s[2..]));
    } else if s != [] {
      UnderscoreSeparates(s[1..]);
      assert Underscore(s) == [s[0]] + Underscore(s[1..]);
      assert s == [s[0]] + s[1..];
      WithoutUnderscoresCons(s[0], Underscore(s[1..]));
      WithoutUnderscoresCons(s[0], s[1..]);
      CopySeparates(s[0], Underscore(s[1..]), s[1..]);
    }
  }

  lemma WithoutUnderscoresCons(c: char, t: string)
    ensures WithoutUnderscores([c] + t) == (if c == '_' then [] else [c]) + WithoutUnderscores(t)
  {
    assert ([c] + t)[1..] == t;
  }

  /** Inserting '_' between two other characters changes nothing once underscores are gone. */
  lemma InsertKeeps(c0: char, c1: char, rest: string, tail: string)
    requires c0 != '_' && c1 != '_' && WithoutUnderscores(rest) == WithoutUnderscores(tail)
    ensures WithoutUnderscores([c0, '_', c1] + rest) == WithoutUnderscores([c0, c1] + tail)
  {
    assert [c0, '_', c1] + rest == [c0] + (['_'] + ([c1] + rest));
    assert [c0, c1] + tail == [c0] + ([c1] + tail);
    WithoutUnderscoresCons(c0, ['_'] + ([c1] + rest));
    WithoutUnderscoresCons('_', [c1] + rest);
    WithoutUnderscoresCons(c1, rest);
    WithoutUnderscoresCons(c0, [c1] + tail);
    WithoutUnderscoresCons(c1, tail);
  }

  /** A matched pair with '_' inserted is no longer joined, nor joined to what follows. */
  lemma InsertSeparates(c0: char, c1: char, rest: string)
    requires IsUpper(c1) || IsDigit(c1)
    requires forall i | 0 <= i && i + 1 < |rest| :: !Joined(rest, i)
    ensures forall i | 0 <= i && i + 1 < |[c0, '_', c1] + rest| :: !Joined([c0, '_', c1] + rest, i)
  {
    var u := [c0, '_', c1] + rest;
    forall i | 0 <= i && i + 1 < |u| ensures !Joined(u, i) {
      if i >= 3 {
        assert u[i] == rest[i - 3] && u[i + 1] == rest[i - 2];
        assert !Joined(rest, i - 3);
      }
    }
  }

  /** A character that starts no match, put in front of a string with no joined pair whose
      first character is that of `tail`, leaves no joined pair. */
  lemma CopySeparates(c: char, rest: string, tail: string)
    requires forall i | 0 <= i && i + 1 < |rest| :: !Joined(rest, i)
    requires |rest| > 0 ==> |tail| > 0 && rest[0] == tail[0]
    requires !(|tail| >= 1 && IsLower(c) && (IsUpper(tail[0]) || IsDigit(tail[0])))
    ensures forall i | 0 <= i && i + 1 < |[c] + rest| :: !Joined([c] + rest, i)
  {
    var u := [c] + rest;
    forall i | 0 <= i && i + 1 < |u| ensures !Joined(u, i) {
      if i >= 1 {
        assert u[i] == rest[i - 1] && u[i + 1] == rest[i];
        assert !Joined(rest, i - 1);
      }
    }
  }

  /** `s` with '_' put after every position that starts a joined pair, each position tested
      on its own. */
  function Spread(s: string): string
    decreases |s|
  {
    if |s| <= 1 then s
    else [s[0]] + (if Joined(s, 0) then "_" else "") + Spread(s[1..])
  }

  /** A first character that is not a lowercase letter starts no joined pair. */
  lemma SpreadFromNonLower(s: string)
    requires |s| >= 1 && !IsLower(s[0])
    ensures Spread(s) == [s[0]] + Spread(s[1..])
  {
    if |s| == 1 {
      assert s[1..] == [] && s == [s[0]];
    }
  }

  /** Underscoring puts '_' exactly after each lowercase letter directly followed by an
      uppercase letter or a digit, and changes nothing else: matching left to right without
      overlap misses no pair, because the second character of a match is never lowercase. */
  lemma {:induction false} UnderscoreSpreads(s: string)
    ensures Underscore(s) == Spread(s)
    decreases |s|
  {
    if |s| >= 2 && IsLower(s[0]) && (IsUpper(s[1]) || IsDigit(s[1])) {
      UnderscoreSpreads(s[2..]);
      assert s[1..][0] == s[1] && s[1..][1..] == s[2..];
      SpreadFromNonLower(s[1..]);
      assert Spread(s) == [s[0]] + "_" + Spread(s[1..]);
    } else if s != [] {
      UnderscoreSpreads(s[1..]);
      if |s| == 1 {
        assert s[1..] == [] && s == [s[0]];
      }
    }
  }

  /** Underscoring leaves a key alone when it has no joined pair, such as "foo_bar" or "ab". */
  lemma {:induction false} UnderscoreUnjoined(s: string)
    requires forall i | 0 <= i && i + 1 < |s| :: !Joined(s, i)
    ensures Underscore(s) == s
    decreases |s|
  {
    UnderscoreSpreads(s);
    SpreadUnjoined(s);
  }

  lemma {:induction false} SpreadUnjoined(s: string)
    requires forall i | 0 <= i && i + 1 < |s| :: !Joined(s, i)
    ensures Spread(s) == s
    decreases |s|
  {
    if |s| > 1 {
      assert !Joined(s, 0);
      forall i | 0 <= i && i + 1 < |s[1..]| ensures !Joined(s[1..], i) {
        assert !Joined(s, i + 1);
      }
      SpreadUnjoined(s[1..]);
      assert s == [s[0]] + s[1..];
    }
  }

  /** A string with no lowercase letter, such as an integer's literal, is left as it is. */
  lemma {:induction false} UnderscoreNoLower(s: string)
    requires forall i | 0 <= i < |s| :: !IsLower(s[i])
    ensures Underscore(s) == s
    decreases |s|
  {
    if s != [] {
      UnderscoreNoLower(s[1..]);
      assert s == [s[0]] + s[1..];
    }
  }

  lemma UnderscoreExample()
    ensures Underscore("fooBar") == "foo_Bar"
  {
    assert "fooBar"[1..] == "ooBar" && "ooBar"[1..] == "oBar" && "oBar"[2..] == "ar";
    assert "ar"[1..] == "r" && "r"[1..] == [];
  }

  /** `preg_split('/[^a-z0-9]/i', $s)`: the pieces between the non-alphanumeric characters. */
  function Pieces(s: string): (r: seq<string>)
    ensures |r| >= 1
  {
    if s == [] then [""]
    else if !IsAlnum(s[0]) then [""] + Pieces(s[1..])
    else
      var rest := Pieces(s[1..]);
      [[s[0]] + rest[0]] + rest[1..]
  }

  /** `array_filter` on the pieces: drops every piece PHP reads as false, "" and "0". */
  function Kept(pieces: seq<string>): seq<string>
  {
    if pieces == [] then []
    else (if pieces[0] == "" || pieces[0] == "0" then [] else [pieces[0]]) + Kept(pieces[1..])
  }

  function UcFirst(s: string): string
  {
    if s == [] then [] else [ToUpper(s[0])] + s[1..]
  }

  function LcFirst(s: string): string
  {
    if s == [] then [] else [ToLower(s[0])] + s[1..]
  }

  /** The words lowered, capitalised and run together: `str_replace(' ', '',
      ucwords(strtolower(implode(' ', $words))))` for words without spaces. */
  function CamelWords(words: seq<string>): string
  {
    if words == [] then [] else UcFirst(Lower(words[0])) + CamelWords(words[1..])
  }

  /** The camel-cased form `camelCaseKeys` gives a key's string. */
  function Camel(s: string): string
  {
    LcFirst(CamelWords(Kept(Pieces(s))))
  }

  predicate AllAlnum(s: string)
  {
    forall i | 0 <= i < |s| :: IsAlnum(s[i])
  }

  lemma {:induction false} PiecesAlnum(s: string)
    ensures forall p | 0 <= p < |Pieces(s)| :: AllAlnum(Pieces(s)[p])
  {
    if s != [] {
      PiecesAlnum(s[1..]);
      var rest := Pieces(s[1..]);
      if IsAlnum(s[0]) {
        var r := Pieces(s);
        assert AllAlnum([s[0]] + rest[0]);
        forall p | 1 <= p < |r| ensures AllAlnum(r[p]) {
          assert r[p] == rest[p];
        }
      } else {
        forall p | 1 <= p < |Pieces(s)| ensures AllAlnum(Pieces(s)[p]) {
          assert Pieces(s)[p] == rest[p - 1];
        }
      }
    }
  }

  lemma {:induction false} KeptAlnum(pieces: seq<string>)
    requires forall p | 0 <= p < |pieces| :: AllAlnum(pieces[p])
    ensures forall p | 0 <= p < |Kept(pieces)| :: AllAlnum(Kept(pieces)[p])
  {
    if pieces != [] {
      assert forall p | 0 <= p < |pieces| - 1 :: pieces[1..][p] == pieces[p + 1];
      KeptAlnum(pieces[1..]);
    }
  }

  lemma {:induction false} CamelWordsAlnum(words: seq<string>)
    requires forall p | 0 <= p < |words| :: AllAlnum(words[p])
    ensures AllAlnum(CamelWords(words))
  {
    if words != [] {
      assert forall p | 0 <= p < |words| - 1 :: words[1..][p] == words[p + 1];
      CamelWordsAlnum(words[1..]);
      assert AllAlnum(Lower(words[0]));
      assert AllAlnum(UcFirst(Lower(words[0])));
    }
  }

  /** A camel-cased key consists of ASCII letters and digits only and does not start with an
      uppercase letter. */
  lemma CamelShape(s: string)
    ensures AllAlnum(Camel(s))
    ensures |Camel(s)| > 0 ==> !IsUpper(Camel(s)[0])
  {
    PiecesAlnum(s);
    KeptAlnum(Pieces(s));
    CamelWordsAlnum(Kept(Pieces(s)));
  }

  /** The words written one after another. */
  function RunTogether(words: seq<string>): string
  {
    if words == [] then [] else words[0] + RunTogether(words[1..])
  }

  lemma LowerAppend(a: string, b: string)
    ensures Lower(a + b) == Lower(a) + Lower(b)
  {
    assert forall i | 0 <= i < |a + b| :: Lower(a + b)[i] == (Lower(a) + Lower(b))[i];
  }

  /** Changing the case of the first character, or of all of them, leaves the lowercase
      form as it is. */
  lemma LowerOfCased(s: string)
    ensures Lower(UcFirst(s)) == Lower(s) && Lower(LcFirst(s)) == Lower(s) && Lower(Lower(s)) == Lower(s)
  {
    if s != [] {
      assert Lower(UcFirst(s))[0] == Lower(s)[0];
      assert forall i | 0 <= i < |s| :: Lower(UcFirst(s))[i] == Lower(s)[i];
      assert forall i | 0 <= i < |s| :: Lower(LcFirst(s))[i] == Lower(s)[i];
    }
  }

  lemma {:induction false} CamelWordsLetters(words: seq<string>)
    ensures Lower(CamelWords(words)) == Lower(RunTogether(words))
  {
    if words != [] {
      var w := words[0];
      CamelWordsLetters(words[1..]);
      LowerAppend(UcFirst(Lower(w)), CamelWords(words[1..]));
      LowerAppend(w, RunTogether(words[1..]));
      LowerOfCased(Lower(w));
      LowerOfCased(w);
    }
  }

  /** Camel-casing changes only the case of characters: the result holds the characters of the
      pieces `array_filter` keeps, in order. */
  lemma CamelKeepsLetters(s: string)
    ensures Lower(Camel(s)) == Lower(RunTogether(Kept(Pieces(s))))
  {
    CamelWordsLetters(Kept(Pieces(s)));
    LowerOfCased(CamelWords(Kept(Pieces(s))));
  }

  /** A string of letters and digits is a single piece. */
  lemma {:induction false} PiecesWhole(s: string)
    requires AllAlnum(s)
    ensures Pieces(s) == [s]
  {
    if s != [] {
      assert AllAlnum(s[1..]) by {
        assert forall i | 0 <= i < |s| - 1 :: s[1..][i] == s[i + 1];
      }
      PiecesWhole(s[1..]);
      assert [s[0]] + s[1..] == s;
    }
  }

  /** A key already written in lowercase letters and digits is its own camel-cased form,
      unless it is "0", which `array_filter` drops. */
  lemma CamelOfLowercase(s: string)
    requires s != "" && s != "0"
    requires forall i | 0 <= i < |s| :: IsLower(s[i]) || IsDigit(s[i])
    ensures Camel(s) == s
  {
    PiecesWhole(s);
    assert Kept([s]) == [s] by {
      assert [s][1..] == [];
    }
    assert CamelWords([s]) == UcFirst(Lower(s)) by {
      assert [s][1..] == [];
    }
    assert Lower(s) == s;
    assert ToLower(ToUpper(s[0])) == s[0];
    assert LcFirst(UcFirst(s)) == s;
  }

  lemma PiecesFooBar()
    ensures Pieces("foo_bar") == ["foo", "bar"]
  {
    assert "foo_bar"[1..] == "oo_bar" && "oo_bar"[1..] == "o_bar" && "o_bar"[1..] == "_bar";
    assert "_bar"[1..] == "bar" && "bar"[1..] == "ar" && "ar"[1..] == "r" && "r"[1..] == [];
    assert Pieces("r") == ["r"] by {
      assert Pieces([]) == [""] && ['r'] + "" == "r" && [""][1..] == [];
    }
    assert Pieces("ar") == ["ar"] by {
      assert ['a'] + "r" == "ar" && ["r"][1..] == [];
    }
    assert Pieces("bar") == ["bar"] by {
      assert ['b'] + "ar" == "bar" && ["ar"][1..] == [];
    }
    assert Pieces("_bar") == ["", "bar"];
    assert Pieces("o_bar") == ["o", "bar"] by {
      assert ['o'] + "" == "o" && ["", "bar"][1..] == ["bar"];
    }
    assert Pieces("oo_bar") == ["oo", "bar"] by {
      assert ['o'] + "o" == "oo" && ["o", "bar"][1..] == ["bar"];
    }
    assert ['f'] + "oo" == "foo" && ["oo", "bar"][1..] == ["bar"];
  }

  lemma CamelExample()
    ensures Camel("foo_bar") == "fooBar"
  {
    PiecesFooBar();
    KeptFooBar();
    CamelWordsFooBar();
    assert LcFirst("FooBar") == "fooBar";
  }

  lemma KeptFooBar()
    ensures Kept(["foo", "bar"]) == ["foo", "bar"]
  {
    assert ["foo", "bar"][1..] == ["bar"] && ["bar"][1..] == [];
    assert Kept(["bar"]) == ["bar"];
  }

  lemma CamelWordsFooBar()
    ensures CamelWords(["foo", "bar"]) == "FooBar"
  {
    assert ["foo", "bar"][1..] == ["bar"] && ["bar"][1..] == [];
    assert Lower("foo") == "foo" && Lower("bar") == "bar";
    assert UcFirst("foo") == "Foo" && UcFirst("bar") == "Bar";
    assert CamelWords(["bar"]) == "Bar";
  }

  /** The key `underscoreKeys` writes for `k`. */
  function UnderscoreKey(k: Key): Key
  {
    CanonicalKey(Underscore(KeyString(k)))
  }

  /** The key `camelCaseKeys` writes for `k`: integer keys are camel-cased as their
      literals too. */
  function CamelKey(k: Key): Key
  {
    CanonicalKey(Camel(KeyString(k)))
  }

  /** The key `camelCaseKeys` would write if it left integer keys as they are. */
  function CamelKeyKeepingInts(k: Key): Key
  {
    if k.IK? then k else CamelKey(k)
  }

  /** The key `array_change_key_case($a, CASE_UPPER)` writes for `k`. */
  function UpperKey(k: Key): Key
  {
    match k
    case IK(_) => k
    case SK(s) => SK(Upper(s))
  }

  /** The key `array_change_key_case($a, CASE_LOWER)` writes for `k`. */
  function LowerKey(k: Key): Key
  {
    match k
    case IK(_) => k
    case SK(s) => SK(Lower(s))
  }

  /** The copy built by writing every entry under its new key `f(key)`, in order: a later
      entry overwrites an earlier one that gets the same key. */
  function Rekeyed(es: seq<Entry>, f: Key -> Key): seq<Entry>
  {
    if es == [] then [] else Put(Rekeyed(es[..|es| - 1], f), f(es[|es| - 1].key), es[|es| - 1].val)
  }

  /** The index of the last entry whose new key is `k`, or -1. */
  function LastMappedTo(es: seq<Entry>, f: Key -> Key, k: Key): (i: int)
    ensures -1 <= i < |es|
    ensures i >= 0 ==> f(es[i].key) == k
    ensures forall j | i < j < |es| :: f(es[j].key) != k
  {
    if es == [] then -1
    else if f(es[|es| - 1].key) == k then |es| - 1
    else
      var i := LastMappedTo(es[..|es| - 1], f, k);
      assert forall j | i < j < |es| - 1 :: es[..|es| - 1][j] == es[j];
      i
  }

  /** When keys collide after the conversion, the later value wins; a key no entry maps to
      is absent. */
  lemma {:induction false} RekeyedLookup(es: seq<Entry>, f: Key -> Key, k: Key)
    ensures var i := LastMappedTo(es, f, k);
      Lookup(Rekeyed(es, f), k) == if i < 0 then None else Some(es[i].val)
  {
    if es != [] {
      RekeyedLookup(es[..|es| - 1], f, k);
      PutFacts(Rekeyed(es[..|es| - 1], f), f(es[|es| - 1].key), es[|es| - 1].val);
    }
  }

  lemma {:induction false} RekeyedUnique(es: seq<Entry>, f: Key -> Key)
    ensures KeysUnique(Rekeyed(es, f))
  {
    if es != [] {
      RekeyedUnique(es[..|es| - 1], f);
      PutUnique(Rekeyed(es[..|es| - 1], f), f(es[|es| - 1].key), es[|es| - 1].val);
    }
  }

  /** Every key of the copy is the new key of some entry. */
  lemma {:induction false} RekeyedKeys(es: seq<Entry>, f: Key -> Key, j: nat)
    requires j < |Rekeyed(es, f)|
    ensures exists i | 0 <= i < |es| :: f(es[i].key) == Rekeyed(es, f)[j].key
  {
    var r := Rekeyed(es, f);
    var k := r[j].key;
    assert HasKey(r, k);
    RekeyedLookup(es, f, k);
    var i := LastMappedTo(es, f, k);
    assert f(es[i].key) == k;
  }

  /** `underscoreKeys` */
  method UnderscoreKeys(input: seq<Entry>) returns (copy: seq<Entry>)
    ensures copy == Rekeyed(input, UnderscoreKey)
  {
    copy := [];
    for i := 0 to |input|
      invariant copy == Rekeyed(input[..i], UnderscoreKey)
    {
      assert input[..i + 1][..i] == input[..i];
      copy := Put(copy, CanonicalKey(Underscore(KeyString(input[i].key))), input[i].val);
    }
    assert input[..|input|] == input;
  }

  /** `camelCaseKeys` */
  method CamelCaseKeys(input: seq<Entry>) returns (copy: seq<Entry>)
    ensures copy == Rekeyed(input, CamelKey)
  {
    copy := [];
    for i := 0 to |input|
      invariant copy == Rekeyed(input[..i], CamelKey)
    {
      assert input[..i + 1][..i] == input[..i];
      copy := Put(copy, CanonicalKey(Camel(KeyString(input[i].key))), input[i].val);
    }
    assert input[..|input|] == input;
  }

  /** The four conversions in their fixed order, with `camel` as the camel-casing of keys. */
  function Converted(input: seq<Entry>, mode: int, camel: Key -> Key): seq<Entry>
  {
    var underscored := if HasFlag(mode, CaseUnderscore) then Rekeyed(input, UnderscoreKey) else input;
    var camelCased := if HasFlag(mode, CaseCamelCaps) then Rekeyed(underscored, camel) else underscored;
    var uppered := if HasFlag(mode, CaseUpper) then Rekeyed(camelCased, UpperKey) else camelCased;
    if HasFlag(mode, CaseLower) then Rekeyed(uppered, LowerKey) else uppered
  }

  /** `changeKeyCase` as written: it keeps keys distinct, the default CASE_LOWER only lowers
      string keys, and a mode with none of the four flags changes nothing. */
  function ChangeKeyCase(input: seq<Entry>, mode: int): (r: seq<Entry>)
    ensures KeysUnique(input) ==> KeysUnique(r)
    ensures mode == CaseLower ==> r == Rekeyed(input, LowerKey)
    ensures (!HasFlag(mode, CaseUnderscore) && !HasFlag(mode, CaseCamelCaps) &&
      !HasFlag(mode, CaseUpper) && !HasFlag(mode, CaseLower)) ==> r == input
  {
    ConvertedUnique(input, mode, CamelKey);
    ConvertedLowerOnly(input, mode, CamelKey);
    ConvertedNoFlags(input, mode, CamelKey);
    Converted(input, mode, CamelKey)
  }

  /** CASE_LOWER alone lowers the string keys and does nothing else. */
  lemma ConvertedLowerOnly(input: seq<Entry>, mode: int, camel: Key -> Key)
    ensures mode == CaseLower ==> Converted(input, mode, camel) == Rekeyed(input, LowerKey)
  {
    if mode == CaseLower {
      assert !HasFlag(mode, CaseUnderscore) && !HasFlag(mode, CaseCamelCaps);
      assert !HasFlag(mode, CaseUpper) && HasFlag(mode, CaseLower);
    }
  }

  /** A mode with none of the four flags leaves the array as it is. */
  lemma ConvertedNoFlags(input: seq<Entry>, mode: int, camel: Key -> Key)
    ensures (!HasFlag(mode, CaseUnderscore) && !HasFlag(mode, CaseCamelCaps) &&
      !HasFlag(mode, CaseUpper) && !HasFlag(mode, CaseLower)) ==> Converted(input, mode, camel) == input
  {
  }

  /** `changeKeyCase` leaving integer keys as they are, as its docblock states
      (src/Arrays.php:459). */
  function ChangeKeyCaseKeepingInts(input: seq<Entry>, mode: int): seq<Entry>
  {
    Converted(input, mode, CamelKeyKeepingInts)
  }

  /** As written, camel-casing turns the integer key 0 into the empty string key: the
      piece "0" is dropped. */
  lemma CamelKeyZeroAsWritten()
    ensures CamelKey(IK(0)) == SK("")
  {
    assert KeyString(IK(0)) == "0";
    assert Pieces("0") == ["0"] by {
      assert "0"[1..] == [] && Pieces([]) == [""] && ['0'] + "" == "0" && [""][1..] == [];
    }
    assert Kept(["0"]) == [] by {
      assert ["0"][1..] == [];
    }
  }

  /** As written, camel-casing turns the integer key -5 into 5: the minus sign separates. */
  lemma CamelKeyNegativeAsWritten()
    ensures CamelKey(IK(-5)) == IK(5)
  {
    assert KeyString(IK(-5)) == "-5" by {
      assert NatToString(5) == "5";
    }
    assert "-5"[1..] == "5" && "5"[1..] == [];
    assert Pieces("5") == ["5"] by {
      assert Pieces([]) == [""] && ['5'] + "" == "5" && [""][1..] == [];
    }
    assert Pieces("-5") == ["", "5"];
    assert Kept(["", "5"]) == ["5"] by {
      assert ["", "5"][1..] == ["5"] && ["5"][1..] == [];
    }
    assert CamelWords(["5"]) == "5" by {
      assert ["5"][1..] == [];
      assert Lower("5") == "5";
    }
    assert CanonicalKey("5") == IK(5) by {
      assert IsNatLiteral("5");
      assert ParseNat("5") == ParseNat("5"[..0]) * 10 + 5;
    }
  }

  /** So `changeKeyCase` with CASE_CAMEL_CAPS loses the integer key 0. */
  lemma ChangeKeyCaseLosesZeroAsWritten(v: Value)
    ensures ChangeKeyCase([Entry(IK(0), v)], CaseCamelCaps) == [Entry(SK(""), v)]
  {
    var es := [Entry(IK(0), v)];
    assert HasFlag(CaseCamelCaps, CaseCamelCaps) && !HasFlag(CaseCamelCaps, CaseUnderscore);
    assert !HasFlag(CaseCamelCaps, CaseUpper) && !HasFlag(CaseCamelCaps, CaseLower);
    assert ChangeKeyCase(es, CaseCamelCaps) == Rekeyed(es, CamelKey);
    assert es[..0] == [];
    assert Rekeyed(es, CamelKey) == Put([], CamelKey(IK(0)), v);
    CamelKeyZeroAsWritten();
  }

  /** Every conversion of the corrected variant maps an integer key to itself. */
  lemma IntKeyFixed(n: int, mode: int)
    ensures UnderscoreKey(IK(n)) == IK(n)
    ensures CamelKeyKeepingInts(IK(n)) == IK(n) && UpperKey(IK(n)) == IK(n) && LowerKey(IK(n)) == IK(n)
  {
    IntToStringChars(n);
    UnderscoreNoLower(IntToString(n));
    CanonicalOfKeyString(IK(n));
  }

  /** A key that the conversion maps to itself survives it. */
  lemma RekeyedKeeps(es: seq<Entry>, f: Key -> Key, k: Key)
    requires HasKey(es, k) && f(k) == k
    ensures HasKey(Rekeyed(es, f), k)
  {
    var i :| 0 <= i < |es| && es[i].key == k;
    RekeyedLookup(es, f, k);
    assert LastMappedTo(es, f, k) >= i;
  }

  /** With integer keys left alone, every integer key of the input is still a key of the
      result, whatever the flags. */
  lemma KeepingIntsKeepsIntKeys(input: seq<Entry>, mode: int, n: int)
    requires HasKey(input, IK(n))
    ensures HasKey(ChangeKeyCaseKeepingInts(input, mode), IK(n))
  {
    var k := IK(n);
    IntKeyFixed(n, mode);
    var a := if HasFlag(mode, CaseUnderscore) then Rekeyed(input, UnderscoreKey) else input;
    if HasFlag(mode, CaseUnderscore) { RekeyedKeeps(input, UnderscoreKey, k); }
    var b := if HasFlag(mode, CaseCamelCaps) then Rekeyed(a, CamelKeyKeepingInts) else a;
    if HasFlag(mode, CaseCamelCaps) { RekeyedKeeps(a, CamelKeyKeepingInts, k); }
    var c := if HasFlag(mode, CaseUpper) then Rekeyed(b, UpperKey) else b;
    if HasFlag(mode, CaseUpper) { RekeyedKeeps(b, UpperKey, k); }
    if HasFlag(mode, CaseLower) { RekeyedKeeps(c, LowerKey, k); }
  }

  /** After CASE_LOWER no string key contains an ASCII uppercase letter. */
  lemma LowerLeavesNoUpper(input: seq<Entry>, mode: int, camel: Key -> Key, j: nat)
    requires HasFlag(mode, CaseLower) && j < |Converted(input, mode, camel)|
    ensures var k := Converted(input, mode, camel)[j].key;
      k.SK? ==> forall p | 0 <= p < |k.s| :: !IsUpper(k.s[p])
  {
    var a := if HasFlag(mode, CaseUnderscore) then Rekeyed(input, UnderscoreKey) else input;
    var b := if HasFlag(mode, CaseCamelCaps) then Rekeyed(a, camel) else a;
    var c := if HasFlag(mode, CaseUpper) then Rekeyed(b, UpperKey) else b;
    RekeyedKeys(c, LowerKey, j);
  }

  /** Whatever the flags, no key of the result occurs twice. */
  lemma ConvertedUnique(input: seq<Entry>, mode: int, camel: Key -> Key)
    ensures KeysUnique(input) ==> KeysUnique(Converted(input, mode, camel))
  {
    if KeysUnique(input) {
      var a := if HasFlag(mode, CaseUnderscore) then Rekeyed(input, UnderscoreKey) else input;
      if HasFlag(mode, CaseUnderscore) { RekeyedUnique(input, UnderscoreKey); }
      var b := if HasFlag(mode, CaseCamelCaps) then Rekeyed(a, camel) else a;
      if HasFlag(mode, CaseCamelCaps) { RekeyedUnique(a, camel); }
      var c := if HasFlag(mode, CaseUpper) then Rekeyed(b, UpperKey) else b;
      if HasFlag(mode, CaseUpper) { RekeyedUnique(b, UpperKey); }
      if HasFlag(mode, CaseLower) { RekeyedUnique(c, LowerKey); }
    }
  }
}
