/**
 * C string helpers of the command-line client: `strlen30`, the client's own
 * `strncasecmp`, and the decimal text that `%d`-style conversions produce.
 *
 * A C string is a `seq<char>` that holds a NUL somewhere; the string proper
 * is everything before the first NUL. Elsewhere in the model strings are
 * plain `seq<char>` values without a terminator.
 */
module CStrings {

  const NUL: char := '\0'

  /** The number of characters before the first NUL (what `strlen` counts). */
  function CLength(z: seq<char>): (n: nat)
    requires NUL in z
    ensures n < |z| && z[n] == NUL
    ensures forall k :: 0 <= k < n ==> z[k] != NUL
  {
    if z[0] == NUL then 0 else 1 + CLength(z[1..])
  }

  /** A string without NUL, terminated: its C length is its length. */
  lemma {:induction false} CLengthOfTerminated(s: seq<char>)
    requires NUL !in s
    ensures NUL in s + [NUL] && CLength(s + [NUL]) == |s|
  {
    if s != [] {
      assert (s + [NUL])[1..] == s[1..] + [NUL];
      CLengthOfTerminated(s[1..]);
    }
  }

  /** The modulus of the low 30 bits `strlen30` keeps (its mask is `Pow30 - 1`). */
  const Pow30: int := 0x4000_0000

  /**
   * `strlen30`: walk a pointer to the terminator, then keep the low 30 bits
   * of the distance (the cast to `int` followed by `& 0x3fffffff`).
   */
  method StrLen30(z: seq<char>) returns (n: int)
    requires NUL in z
    ensures n == CLength(z) % Pow30
    ensures 0 <= n < Pow30
    ensures CLength(z) < Pow30 ==> n == CLength(z)
  {
    var k := 0;
    while z[k] != NUL
      invariant 0 <= k <= CLength(z)
      decreases CLength(z) - k
    {
      k := k + 1;
    }
    n := k % Pow30;
  }

  /**
   * What `snprintf` into a buffer of `n + 1` bytes leaves there: the whole
   * text when it fits, otherwise exactly its first `n` characters.
   */
  function Truncated(s: string, n: nat): (t: string)
    ensures |t| <= n && t <= s
    ensures |s| <= n ==> t == s
    ensures |s| > n ==> t == s[..n]
  {
    if |s| <= n then s else s[..n]
  }

  predicate IsUpper(c: char) { 'A' <= c <= 'Z' }
  predicate IsLower(c: char) { 'a' <= c <= 'z' }

  /** The distance between a lower-case letter and its upper-case form. */
  const CaseShift: int := 'a' as int - 'A' as int

  /**
   * The folding step of the client's `strncasecmp`: only when the two bytes
   * differ and one is an upper-case letter while the other is a lower-case
   * letter is the upper-case one moved to lower case.
   */
  function Folded(c1: char, c2: char): (r: (int, int))
    ensures r.0 == 0 <==> c1 == NUL
    ensures r.1 == 0 <==> c2 == NUL
    ensures r.0 == r.1 <==> SameIgnoringCase(c1, c2)
  {
    if c1 != c2 && IsUpper(c1) && IsLower(c2) then (c1 as int + CaseShift, c2 as int)
    else if c1 != c2 && IsLower(c1) && IsUpper(c2) then (c1 as int, c2 as int + CaseShift)
    else (c1 as int, c2 as int)
  }

  /** Two characters that are equal, or the same letter in the two cases. */
  predicate SameIgnoringCase(c1: char, c2: char)
  {
    c1 == c2
    || (IsUpper(c1) && c2 as int == c1 as int + CaseShift)
    || (IsLower(c1) && c1 as int == c2 as int + CaseShift)
  }

  /**
   * The value the client's `strncasecmp` returns for two C strings and a
   * byte limit `n`: the difference of the first pair of folded bytes that
   * differ, or 0 when the strings end together or `n` bytes agree.
   */
  function CaseCmp(s1: seq<char>, s2: seq<char>, n: nat): int
    requires NUL in s1 && NUL in s2
    decreases n
  {
    if n == 0 then 0
    else
      var (c1, c2) := Folded(s1[0], s2[0]);
      if c1 != c2 then c1 - c2
      else if c1 == 0 then 0
      else CaseCmp(s1[1..], s2[1..], n - 1)
  }

  /** `strncasecmp` as the client defines it: a pointer-stepping do-while loop. */
  method StrNCaseCmp(s1: seq<char>, s2: seq<char>, n: nat) returns (r: int)
    requires NUL in s1 && NUL in s2
    ensures r == CaseCmp(s1, s2, n)
  {
    if n == 0 {
      return 0;
    }
    var k, m := 0, n;
    while true
      invariant 0 <= k < |s1| && k < |s2| && 1 <= m && k + m == n
      invariant NUL in s1[k..] && NUL in s2[k..]
      invariant CaseCmp(s1[k..], s2[k..], m) == CaseCmp(s1, s2, n)
      decreases m
    {
      var c1 := s1[k] as int;
      var c2 := s2[k] as int;
      if c1 != c2 {
        if IsUpper(s1[k]) && IsLower(s2[k]) {
          c1 := c1 + CaseShift;
        } else if IsLower(s1[k]) && IsUpper(s2[k]) {
          c2 := c2 + CaseShift;
        }
        if c1 != c2 {
          return c1 - c2;
        }
      }
      if c1 == 0 {
        break;
      }
      assert s1[k..][1..] == s1[k + 1..] && s2[k..][1..] == s2[k + 1..];
      k, m := k + 1, m - 1;
      if m == 0 {
        break;
      }
    }
    return 0;
  }

  /** The length up to which `CaseCmp` looks: `n` bytes, or through the first NUL. */
  function Compared(s1: seq<char>, n: nat): nat
    requires NUL in s1
  {
    if n <= CLength(s1) then n else CLength(s1) + 1
  }

  /**
   * `CaseCmp` reports equality exactly when every compared pair of bytes is
   * the same up to letter case.
   */
  lemma {:induction false} CaseCmpZeroIff(s1: seq<char>, s2: seq<char>, n: nat)
    requires NUL in s1 && NUL in s2
    ensures Compared(s1, n) <= |s1|
    ensures CaseCmp(s1, s2, n) == 0 <==>
      (Compared(s1, n) <= |s2| &&
       forall k :: 0 <= k < Compared(s1, n) ==> SameIgnoringCase(s1[k], s2[k]))
  {
    if n == 0 {
    } else if Folded(s1[0], s2[0]).0 != Folded(s1[0], s2[0]).1 {
      assert !SameIgnoringCase(s1[0], s2[0]);
      assert Compared(s1, n) >= 1;
    } else if s1[0] == NUL {
      assert CLength(s1) == 0;
      assert Compared(s1, n) == 1;
    } else {
      assert s2[0] != NUL;
      CaseCmpZeroIff(s1[1..], s2[1..], n - 1);
      assert CLength(s1) == 1 + CLength(s1[1..]);
      assert Compared(s1, n) == 1 + Compared(s1[1..], n - 1);
      if CaseCmp(s1, s2, n) == 0 {
        forall k | 0 <= k < Compared(s1, n) ensures SameIgnoringCase(s1[k], s2[k]) {
          if k > 0 {
            assert s1[1..][k - 1] == s1[k] && s2[1..][k - 1] == s2[k];
          }
        }
      } else if Compared(s1, n) <= |s2| {
        var bad :| 0 <= bad < Compared(s1[1..], n - 1) && !SameIgnoringCase(s1[1..][bad], s2[1..][bad]);
        assert !SameIgnoringCase(s1[bad + 1], s2[bad + 1]);
      }
    }
  }

  /** Swapping the arguments negates the result. */
  lemma {:induction false} CaseCmpAntisymmetric(s1: seq<char>, s2: seq<char>, n: nat)
    requires NUL in s1 && NUL in s2
    ensures CaseCmp(s1, s2, n) == -CaseCmp(s2, s1, n)
  {
    if n > 0 && Folded(s1[0], s2[0]).0 == Folded(s1[0], s2[0]).1 && s1[0] != NUL {
      CaseCmpAntisymmetric(s1[1..], s2[1..], n - 1);
    }
  }

  /**
   * The folding differs from the C library's: a letter compared with a
   * non-letter is not folded, so "A" sorts before "_" here, while folding
   * both sides to lower case first would put it after.
   */
  lemma LetterAgainstNonLetter()
    ensures CaseCmp("A\0", "_\0", 1) < 0
    ensures ('A' as int + CaseShift) - '_' as int > 0
  {
    assert "A\0"[0] == 'A' && "_\0"[0] == '_';
  }

  /** A decimal digit character. */
  function Digit(d: nat): (c: char)
    requires d < 10
    ensures '0' <= c <= '9' && c as int - '0' as int == d
  {
    ('0' as int + d) as char
  }

  /** The digits of `m` in base ten, most significant first, no leading zeros. */
  function Digits(m: nat): (s: string)
    ensures |s| >= 1 && (m > 0 ==> s[0] != '0')
    ensures forall k :: 0 <= k < |s| ==> '0' <= s[k] <= '9'
  {
    if m < 10 then [Digit(m)] else Digits(m / 10) + [Digit(m % 10)]
  }

  /** The text of `%d` / `PRIi64` for an integer: an optional minus sign, then digits. */
  function DecimalString(v: int): (s: string)
  {
    if v < 0 then "-" + Digits(-v) else Digits(v)
  }

  /** The value of a string of decimal digits. */
  function DigitsValue(s: string): int
  {
    if s == [] then 0 else 10 * DigitsValue(s[..|s| - 1]) + (s[|s| - 1] as int - '0' as int)
  }

  /** The value written by `%d` text, read back. */
  function DecimalValue(s: string): int
  {
    if |s| > 0 && s[0] == '-' then -DigitsValue(s[1..]) else DigitsValue(s)
  }

  lemma {:induction false} DigitsRoundTrip(m: nat)
    ensures DigitsValue(Digits(m)) == m
  {
    if m >= 10 {
      DigitsRoundTrip(m / 10);
      var s := Digits(m);
      assert s[..|s| - 1] == Digits(m / 10) && s[|s| - 1] == Digit(m % 10);
      assert DigitsValue(s) == 10 * (m / 10) + m % 10;
    } else {
      assert Digits(m)[..0] == [];
    }
  }

  /** Reading back the `%d` text of `v` gives `v`; the text starts with '-' exactly when `v < 0`. */
  lemma DecimalRoundTrip(v: int)
    ensures DecimalValue(DecimalString(v)) == v
    ensures |DecimalString(v)| >= 1 && (DecimalString(v)[0] == '-' <==> v < 0)
  {
    if v < 0 {
      var d := Digits(-v);
      assert DecimalString(v) == "-" + d;
      assert DecimalString(v)[1..] == d;
      DigitsRoundTrip(-v);
    } else {
      DigitsRoundTrip(v);
      assert '0' <= Digits(v)[0] <= '9';
    }
  }
}
