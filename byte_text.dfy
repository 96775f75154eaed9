/**
  Go strings as the model sees them: sequences of bytes. A byte is written as a
  `char` below 256, so the literal "caller" is the byte string of that word and
  comparing two such chars compares the two bytes.
 */
module ByteText {

  type Byte = c: char | c as int < 256
  type Bytes = seq<Byte>

  /** Go's `<` on strings: byte-wise lexicographic, a proper prefix sorts first. */
  predicate Less(a: Bytes, b: Bytes)
  {
    if a == [] then b != []
    else if b == [] then false
    else if a[0] != b[0] then a[0] < b[0]
    else Less(a[1..], b[1..])
  }

  lemma {:induction false} LessIrreflexive(a: Bytes)
    ensures !Less(a, a)
  {
    if a != [] {
      LessIrreflexive(a[1..]);
    }
  }

  lemma {:induction false} LessAsymmetric(a: Bytes, b: Bytes)
    ensures Less(a, b) ==> !Less(b, a)
  {
    if a != [] && b != [] && a[0] == b[0] {
      LessAsymmetric(a[1..], b[1..]);
    }
  }

  lemma {:induction false} LessTransitive(a: Bytes, b: Bytes, c: Bytes)
    ensures Less(a, b) && Less(b, c) ==> Less(a, c)
  {
    if a != [] && b != [] && c != [] && a[0] == b[0] && b[0] == c[0] {
      LessTransitive(a[1..], b[1..], c[1..]);
    }
  }

  /** Two different byte strings are always ordered one way or the other. */
  lemma {:induction false} LessConnected(a: Bytes, b: Bytes)
    ensures a != b ==> Less(a, b) || Less(b, a)
  {
    if a != [] && b != [] && a[0] == b[0] {
      LessConnected(a[1..], b[1..]);
      if a[1..] == b[1..] {
        assert a == [a[0]] + a[1..] && b == [b[0]] + b[1..];
      }
    }
  }

  /** "Not less" is transitive: it is the reflexive closure of a strict total order. */
  lemma NotLessTransitive(a: Bytes, b: Bytes, c: Bytes)
    ensures !Less(b, a) && !Less(c, b) ==> !Less(c, a)
  {
    LessConnected(a, b);
    LessConnected(b, c);
    LessTransitive(a, b, c);
    LessAsymmetric(c, a);
  }

  /** strings.HasPrefix */
  predicate HasPrefix(s: Bytes, prefix: Bytes)
  {
    |prefix| <= |s| && s[..|prefix|] == prefix
  }

  /** strings.TrimPrefix: drops `prefix` when `s` starts with it, else returns `s` unchanged. */
  function TrimPrefix(s: Bytes, prefix: Bytes): (r: Bytes)
    ensures HasPrefix(s, prefix) ==> prefix + r == s
    ensures !HasPrefix(s, prefix) ==> r == s
  {
    if HasPrefix(s, prefix) then
      assert s == s[..|prefix|] + s[|prefix|..];
      s[|prefix|..]
    else s
  }

  /** strings.Repeat(" ", n) for a count that is not negative. */
  function Spaces(n: nat): (r: Bytes)
    ensures |r| == n && forall i :: 0 <= i < n ==> r[i] == ' '
  {
    if n == 0 then [] else Spaces(n - 1) + " "
  }

  predicate IsDigit(b: Byte)
  {
    '0' <= b <= '9'
  }

  function Digit(d: nat): (b: Byte)
    requires d < 10
    ensures IsDigit(b)
  {
    ((d + '0' as int) as char)
  }

  /** The decimal text of a natural number, most significant digit first, as strconv.Itoa writes it. */
  function Decimal(n: nat): (r: Bytes)
    ensures r != [] && forall i :: 0 <= i < |r| ==> IsDigit(r[i])
    ensures n < 10 <==> |r| == 1
  {
    if n < 10 then [Digit(n)] else Decimal(n / 10) + [Digit(n % 10)]
  }

  /** The value a string of decimal digits denotes. */
  function DigitsValue(s: Bytes): nat
    requires forall i :: 0 <= i < |s| ==> IsDigit(s[i])
  {
    if s == [] then 0
    else
      assert IsDigit(s[|s| - 1]);
      10 * DigitsValue(s[..|s| - 1]) + (s[|s| - 1] as int - '0' as int)
  }

  /** Decimal is read back by DigitsValue, and never writes a leading zero. */
  lemma {:induction false} DecimalRoundTrip(n: nat)
    ensures DigitsValue(Decimal(n)) == n
    ensures |Decimal(n)| > 1 ==> Decimal(n)[0] != '0'
  {
    if n >= 10 {
      DecimalRoundTrip(n / 10);
      var d := Decimal(n / 10);
      assert (d + [Digit(n % 10)])[..|d|] == d;
    }
  }

  /** strconv.Itoa of a signed integer: a minus sign before the magnitude, with no leading zero. */
  function Itoa(n: int): (r: Bytes)
    ensures n < 0 <==> (r != [] && r[0] == '-')
    ensures var digits := if n < 0 then r[1..] else r;
      && digits != [] && (forall i :: 0 <= i < |digits| ==> IsDigit(digits[i]))
      && DigitsValue(digits) == (if n < 0 then -n else n)
      && (|digits| > 1 ==> digits[0] != '0')
  {
    DecimalRoundTrip(if n < 0 then -n else n);
    if n < 0 then "-" + Decimal(-n) else Decimal(n)
  }

  /** A decimal numeral as strconv writes one: at least one digit, and no leading zero unless it is "0". */
  predicate Canonical(s: Bytes)
  {
    s != [] && (forall i :: 0 <= i < |s| ==> IsDigit(s[i])) && (|s| > 1 ==> s[0] != '0')
  }

  /** A numeral that does not start with '0' denotes at least 1. */
  lemma {:induction false} LeadingDigitPositive(s: Bytes)
    requires s != [] && (forall i :: 0 <= i < |s| ==> IsDigit(s[i])) && s[0] != '0'
    ensures DigitsValue(s) >= 1
  {
    if |s| > 1 {
      var prefix := s[..|s| - 1];
      assert prefix[0] == s[0];
      LeadingDigitPositive(prefix);
    } else {
      assert s[..0] == [];
    }
  }

  /** Two canonical numerals with the same value are the same text. */
  lemma {:induction false} CanonicalUnique(a: Bytes, b: Bytes)
    requires Canonical(a) && Canonical(b) && DigitsValue(a) == DigitsValue(b)
    ensures a == b
    decreases |a|
  {
    var pa, pb := a[..|a| - 1], b[..|b| - 1];
    var da, db := a[|a| - 1] as int - '0' as int, b[|b| - 1] as int - '0' as int;
    assert DigitsValue(a) == 10 * DigitsValue(pa) + da;
    assert DigitsValue(b) == 10 * DigitsValue(pb) + db;
    assert da == db && DigitsValue(pa) == DigitsValue(pb);
    if |a| > 1 {
      assert pa[0] == a[0];
      LeadingDigitPositive(pa);
    } else {
      assert pa == [];
    }
    if |b| > 1 {
      assert pb[0] == b[0];
      LeadingDigitPositive(pb);
    } else {
      assert pb == [];
    }
    if |a| > 1 && |b| > 1 {
      CanonicalUnique(pa, pb);
      assert a == pa + [a[|a| - 1]] && b == pb + [b[|b| - 1]];
    }
  }

  /**
    The contract of Itoa fixes its text: any text with the sign exactly for
    negative numbers, followed by a canonical numeral for the magnitude, is
    Itoa's.
   */
  lemma ItoaUnique(n: int, r: Bytes)
    requires n < 0 <==> (r != [] && r[0] == '-')
    requires var digits := if n < 0 then r[1..] else r;
      Canonical(digits) && DigitsValue(digits) == (if n < 0 then -n else n)
    ensures r == Itoa(n)
  {
    var s := Itoa(n);
    var digits := if n < 0 then r[1..] else r;
    var sdigits := if n < 0 then s[1..] else s;
    CanonicalUnique(digits, sdigits);
    if n < 0 {
      assert r == [r[0]] + r[1..] && s == [s[0]] + s[1..];
    }
  }

  /** True when `s` contains no ESC (0x1b) byte, the byte every terminal escape sequence starts with. */
  predicate EscFree(s: Bytes)
  {
    forall i :: 0 <= i < |s| ==> s[i] != '\U{1b}'
  }
}
