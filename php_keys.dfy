/** How PHP turns a string into an array key and a key back into a string.
    A string that is a decimal integer literal ("0", "42", "-7", but not "007", "-0" or "+1")
    becomes an integer key; every other string stays a string key. An integer key reads back
    as its decimal literal. */
module PhpKeys {
  import opened PhpValues

  predicate IsDigit(c: char)
  {
    '0' <= c <= '9'
  }

  function DigitChar(d: int): (c: char)
    requires 0 <= d < 10
    ensures IsDigit(c) && (c as int) - ('0' as int) == d
  {
    (('0' as int) + d) as char
  }

  function DigitValue(c: char): (d: int)
    requires IsDigit(c)
    ensures 0 <= d < 10 && DigitChar(d) == c
  {
    (c as int) - ('0' as int)
  }

  predicate AllDigits(s: string)
  {
    forall i | 0 <= i < |s| :: IsDigit(s[i])
  }

  /** A natural number written without sign and without leading zeros. */
  predicate IsNatLiteral(s: string)
  {
    |s| > 0 && AllDigits(s) && (s[0] == '0' ==> |s| == 1)
  }

  /** The strings PHP reads as integer array keys. */
  predicate IsIntLiteral(s: string)
  {
    IsNatLiteral(s) || (|s| > 1 && s[0] == '-' && s[1] != '0' && IsNatLiteral(s[1..]))
  }

  function NatToString(n: nat): string
  {
    if n < 10 then [DigitChar(n)] else NatToString(n / 10) + [DigitChar(n % 10)]
  }

  /** The decimal literal of `n`, as PHP's string conversion of an integer writes it. */
  function IntToString(n: int): string
  {
    if n < 0 then "-" + NatToString(-n) else NatToString(n)
  }

  function ParseNat(s: string): nat
    requires AllDigits(s)
  {
    if s == [] then 0 else ParseNat(s[..|s| - 1]) * 10 + DigitValue(s[|s| - 1])
  }

  function ParseInt(s: string): int
    requires IsIntLiteral(s)
  {
    if s[0] == '-' then -(ParseNat(s[1..]) as int) else ParseNat(s)
  }

  /** The key that `$array[$s]` addresses. */
  function CanonicalKey(s: string): (k: Key)
    ensures k.SK? ==> k.s == s
  {
    if IsIntLiteral(s) then IK(ParseInt(s)) else SK(s)
  }

  /** The string a key becomes when it is concatenated or passed where a string is expected. */
  function KeyString(k: Key): string
  {
    match k
    case IK(n) => IntToString(n)
    case SK(s) => s
  }

  /** A key in the form PHP stores it: string keys are never integer literals. */
  predicate ValidKey(k: Key)
  {
    k.IK? || !IsIntLiteral(k.s)
  }

  lemma {:induction false} NatToStringRoundTrip(n: nat)
    ensures IsNatLiteral(NatToString(n)) && ParseNat(NatToString(n)) == n
  {
    var s := NatToString(n);
    if n >= 10 {
      NatToStringRoundTrip(n / 10);
      var p := NatToString(n / 10);
      assert s[..|s| - 1] == p;
      assert s[0] == p[0];
    }
  }

  lemma {:induction false} ParseNatPositive(s: string)
    requires |s| > 0 && AllDigits(s) && s[0] != '0'
    ensures ParseNat(s) >= 1
  {
    if |s| > 1 {
      ParseNatPositive(s[..|s| - 1]);
    } else {
      assert s[..0] == [];
    }
  }

  lemma {:induction false} ParseNatRoundTrip(s: string)
    requires IsNatLiteral(s)
    ensures NatToString(ParseNat(s)) == s
  {
    var p := s[..|s| - 1];
    if |s| == 1 {
      assert p == [];
    } else {
      assert IsNatLiteral(p);
      ParseNatPositive(p);
      ParseNatRoundTrip(p);
      var n := ParseNat(s);
      assert n / 10 == ParseNat(p) && n % 10 == DigitValue(s[|s| - 1]);
      assert s == p + [s[|s| - 1]];
    }
  }

  /** Reading back the literal of an integer gives the integer. */
  lemma IntToStringRoundTrip(n: int)
    ensures IsIntLiteral(IntToString(n)) && ParseInt(IntToString(n)) == n
  {
    if n < 0 {
      NatToStringRoundTrip(-n);
      var s := IntToString(n);
      assert s[1..] == NatToString(-n);
      assert s[1] == NatToString(-n)[0];
    } else {
      NatToStringRoundTrip(n);
    }
  }

  /** Writing out the integer an integer literal denotes gives the literal back. */
  lemma ParseIntRoundTrip(s: string)
    requires IsIntLiteral(s)
    ensures IntToString(ParseInt(s)) == s
  {
    if s[0] == '-' {
      ParseNatPositive(s[1..]);
      ParseNatRoundTrip(s[1..]);
      assert s == "-" + s[1..];
    } else {
      ParseNatRoundTrip(s);
    }
  }

  /** Using a string as a key and reading the key back as a string loses nothing. */
  lemma KeyStringOfCanonical(s: string)
    ensures KeyString(CanonicalKey(s)) == s
  {
    if IsIntLiteral(s) {
      ParseIntRoundTrip(s);
    }
  }

  /** A stored key survives a trip through its string form. */
  lemma CanonicalOfKeyString(k: Key)
    requires ValidKey(k)
    ensures CanonicalKey(KeyString(k)) == k
  {
    if k.IK? {
      IntToStringRoundTrip(k.n);
    }
  }

  /** Every key PHP produces from a string is a valid stored key. */
  lemma CanonicalKeyValid(s: string)
    ensures ValidKey(CanonicalKey(s))
  {
  }

  /** Integer literals consist of digits and a leading minus sign only. */
  lemma IntToStringChars(n: int)
    ensures |IntToString(n)| > 0
    ensures forall i | 0 <= i < |IntToString(n)| ::
      IsDigit(IntToString(n)[i]) || (i == 0 && IntToString(n)[i] == '-')
  {
    IntToStringRoundTrip(n);
    var s := IntToString(n);
    if n < 0 {
      assert forall i | 1 <= i < |s| :: s[i] == s[1..][i - 1];
    }
  }

  /** The key a PHP value denotes when it is used as an array key: only integers and strings
      qualify (`is_string($key) || is_int($key)`). */
  function AsKey(v: Value): (r: Option<Key>)
    ensures r.Some? <==> v.Int? || v.Str?
    ensures v.Int? ==> r == Some(IK(v.i))
    ensures v.Str? ==> r.Some? && KeyString(r.value) == v.s
    ensures r.Some? ==> ValidKey(r.value)
  {
    match v
    case Int(n) => Some(IK(n))
    case Str(s) => KeyStringOfCanonical(s); CanonicalKeyValid(s); Some(CanonicalKey(s))
    case _ => None
  }
}
