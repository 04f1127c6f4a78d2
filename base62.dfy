/**
 * The base-N codec: a non-negative integer is written as a string over an
 * ordered alphabet (the digit of value d is the alphabet's d-th symbol), and
 * such a string is read back by positional summation.
 *
 * The recursive functions `Digits`, `Encoded` and `Decoded` are the
 * specification; the methods `Encode` and `Decode` are the loops the codec
 * actually runs, proved equal to them.
 */
module Base62 {
  import opened Wrappers

  /**
   * The service's fixed alphabet: digits, then lower-case, then upper-case
   * letters (one 62-character string, written here in its three runs).
   */
  const BASE62: string := "0123456789" + "abcdefghijklmnopqrstuvwxyz" + "ABCDEFGHIJKLMNOPQRSTUVWXYZ"

  /** Decoding fails on the first character that is not a symbol of the alphabet. */
  datatype DecodeError = InvalidCharacter(c: char)

  /** What the round trip needs of an alphabet: at least two symbols, all distinct. */
  predicate IsAlphabet(a: string) {
    |a| >= 2 && forall i, j :: 0 <= i < j < |a| ==> a[i] != a[j]
  }

  function Pow(b: nat, e: nat): nat {
    if e == 0 then 1 else b * Pow(b, e - 1)
  }

  /** The index of the first occurrence of `c` in `a`, as `str.index` gives it. */
  function IndexOf(a: string, c: char): (i: nat)
    requires c in a
    ensures i < |a| && a[i] == c
    ensures forall j :: 0 <= j < i ==> a[j] != c
  {
    if a[0] == c then 0 else 1 + IndexOf(a[1..], c)
  }

  function Reversed(s: string): (r: string)
    ensures |r| == |s|
  {
    if s == [] then [] else Reversed(s[1..]) + [s[0]]
  }

  lemma {:induction false} ReversedSnoc(s: string, x: char)
    ensures Reversed(s + [x]) == [x] + Reversed(s)
  {
    if s != [] {
      assert (s + [x])[1..] == s[1..] + [x];
      ReversedSnoc(s[1..], x);
    } else {
      assert s + [x] == [x];
    }
  }

  lemma DivisionShrinks(n: nat, b: nat)
    requires n > 0 && b >= 2
    ensures n / b < n
  {
  }

  /**
   * The digits of `n`, most significant first, each written as its alphabet
   * symbol; zero has no digits.
   */
  function Digits(n: nat, a: string): (r: string)
    requires |a| >= 2
    ensures forall i :: 0 <= i < |r| ==> r[i] in a
    ensures n == 0 <==> r == []
    decreases n
  {
    if n == 0 then [] else Digits(n / |a|, a) + [a[n % |a|]]
  }

  /** One division step: the quotient is smaller, and its digits are those of `n` without the last. */
  lemma DigitsStep(n: nat, a: string)
    requires n > 0 && |a| >= 2
    ensures 0 <= n / |a| < n && 0 <= n % |a| < |a|
    ensures Digits(n, a) == Digits(n / |a|, a) + [a[n % |a|]]
  {
    DivisionShrinks(n, |a|);
  }

  /** The short form of `n`: its digits, or the alphabet's first symbol when `n` is zero. */
  function Encoded(n: nat, a: string): (r: string)
    requires |a| >= 2
    ensures |r| >= 1
    ensures forall i :: 0 <= i < |r| ==> r[i] in a
  {
    if n == 0 then [a[0]] else Digits(n, a)
  }

  /**
   * Positional reading of `s`: the first character counts its alphabet index
   * times `|a|` to the number of characters after it. A character outside the
   * alphabet is an error, and the leftmost such character is the one reported.
   */
  function Decoded(s: string, a: string): Result<nat, DecodeError> {
    if s == [] then Ok(0)
    else if s[0] !in a then Err(InvalidCharacter(s[0]))
    else
      match Decoded(s[1..], a)
      case Err(e) => Err(e)
      case Ok(v) => Ok(IndexOf(a, s[0]) * Pow(|a|, |s| - 1) + v)
  }

  /** Adds `k` to a successful result and passes an error through. */
  function Shifted(k: nat, r: Result<nat, DecodeError>): Result<nat, DecodeError> {
    match r
    case Err(e) => Err(e)
    case Ok(v) => Ok(k + v)
  }

  /** One step of the positional reading: the leading symbol's weight is added to the rest. */
  lemma {:induction false} DecodedStep(t: string, a: string)
    requires t != [] && t[0] in a
    ensures Decoded(t, a) == Shifted(IndexOf(a, t[0]) * Pow(|a|, |t| - 1), Decoded(t[1..], a))
  {
    match Decoded(t[1..], a)
    case Err(e) =>
    case Ok(v) =>
  }

  /** A product of naturals is natural. */
  lemma ProductIsNatural(x: nat, y: nat)
    ensures x * y >= 0
  {
  }

  /** Two shifts add up. */
  lemma ShiftedTwice(j: nat, k: nat, r: Result<nat, DecodeError>)
    ensures Shifted(j, Shifted(k, r)) == Shifted(j + k, r)
  {
  }

  // ---------------------------------------------------------------------------
  // The loops the codec runs
  // ---------------------------------------------------------------------------

  /**
   * Repeated division by the base, collecting remainders least significant
   * first, then reversing them. A negative `num` is excluded by its type: the
   * division loop never reaches zero for it.
   */
  method Encode(num: nat, alphabet: string) returns (s: string)
    requires |alphabet| >= 2
    ensures s == Encoded(num, alphabet)
  {
    if num == 0 {
      return [alphabet[0]];
    }
    var arr: string := [];
    var base := |alphabet|;
    var n: nat := num;
    assert Digits(num, alphabet) + Reversed(arr) == Digits(num, alphabet);
    while n != 0
      invariant Digits(num, alphabet) == Digits(n, alphabet) + Reversed(arr)
      decreases n
    {
      ghost var collected := arr;
      DigitsStep(n, alphabet);
      var rem := n % base;
      n := n / base;
      arr := arr + [alphabet[rem]];
      ReversedSnoc(collected, alphabet[rem]);
      assert Digits(n, alphabet) + Reversed(arr)
          == (Digits(n, alphabet) + [alphabet[rem]]) + Reversed(collected);
    }
    s := Reversed(arr);
  }

  /**
   * Sums each character's alphabet index times the base raised to the number
   * of characters after it, stopping at the first character not in the alphabet.
   */
  method Decode(s: string, alphabet: string) returns (r: Result<nat, DecodeError>)
    ensures r == Decoded(s, alphabet)
  {
    var base := |alphabet|;
    var strlen := |s|;
    var num: nat := 0;
    var idx := 0;
    while idx < strlen
      invariant 0 <= idx <= strlen
      invariant Decoded(s, alphabet) == Shifted(num, Decoded(s[idx..], alphabet))
    {
      var c := s[idx];
      var power := strlen - (idx + 1);
      ghost var rest := s[idx..];
      assert rest[0] == c && rest[1..] == s[idx + 1..];
      if c !in alphabet {
        assert Decoded(rest, alphabet) == Err(InvalidCharacter(c));
        return Err(InvalidCharacter(c));
      }
      var charIndex := IndexOf(alphabet, c);
      var pow := Pow(base, power);
      ProductIsNatural(charIndex, pow);
      var weight: nat := charIndex * pow;
      DecodedStep(rest, alphabet);
      ShiftedTwice(num, weight, Decoded(s[idx + 1..], alphabet));
      num := num + weight;
      idx := idx + 1;
    }
    assert s[idx..] == [];
    r := Ok(num);
  }

  // ---------------------------------------------------------------------------
  // Properties of the codec
  // ---------------------------------------------------------------------------

  /** With distinct symbols, looking a symbol up gives back its own position. */
  lemma IndexOfDistinct(a: string, i: nat)
    requires IsAlphabet(a) && i < |a|
    ensures IndexOf(a, a[i]) == i
  {
  }

  /** Zero is written as exactly the alphabet's first symbol. */
  lemma EncodeZero(a: string)
    requires |a| >= 2
    ensures Encoded(0, a) == [a[0]] && Decoded([a[0]], a) == Ok(0)
  {
  }

  /** A number below the base is the single symbol at its position. */
  lemma EncodeSingleDigit(n: nat, a: string)
    requires |a| >= 2 && 0 < n < |a|
    ensures Encoded(n, a) == [a[n]]
  {
    assert n / |a| == 0 && n % |a| == n;
    assert Digits(n, a) == Digits(0, a) + [a[n]];
  }

  /** A positive number never starts with the zero symbol. */
  lemma {:induction false} NoLeadingZero(n: nat, a: string)
    requires IsAlphabet(a) && n > 0
    ensures Encoded(n, a)[0] != a[0]
  {
    var b, q, r := |a|, n / |a|, n % |a|;
    assert Digits(n, a) == Digits(q, a) + [a[r]];
    if q == 0 {
      DivMod(n, b);
      assert 0 < r < b && a[r] != a[0];
    } else {
      DivisionShrinks(n, b);
      NoLeadingZero(q, a);
      assert Digits(q, a) != [];
    }
  }

  /**
   * The encoding has minimal length: a positive `n` written with `k` symbols
   * lies in [|a|^(k-1), |a|^k).
   */
  lemma {:induction false} EncodedLength(n: nat, a: string)
    requires |a| >= 2 && n > 0
    ensures Pow(|a|, |Encoded(n, a)| - 1) <= n < Pow(|a|, |Encoded(n, a)|)
  {
    var b, q, r := |a|, n / |a|, n % |a|;
    DivMod(n, b);
    assert Digits(n, a) == Digits(q, a) + [a[r]];
    if q == 0 {
      assert |Encoded(n, a)| == 1;
    } else {
      DivisionShrinks(n, b);
      EncodedLength(q, a);
      var k := |Encoded(q, a)|;
      assert |Encoded(n, a)| == k + 1;
      LengthStep(b, q, r, k);
    }
  }

  /** The arithmetic step of `EncodedLength`: one more digit multiplies the range by the base. */
  lemma LengthStep(b: nat, q: nat, r: nat, k: nat)
    requires b >= 2 && r < b && k >= 1
    requires Pow(b, k - 1) <= q < Pow(b, k)
    ensures Pow(b, k) <= b * q + r < Pow(b, k + 1)
  {
    MultiplyMonotone(b, Pow(b, k - 1), q);
    MultiplyMonotone(b, q + 1, Pow(b, k));
  }

  lemma DivMod(n: nat, b: nat)
    requires b >= 1
    ensures n == b * (n / b) + n % b && n % b < b
  {
  }

  lemma MultiplyMonotone(b: nat, x: nat, y: nat)
    requires x <= y
    ensures b * x <= b * y
  {
  }

  /**
   * Decoding is positional: appending a symbol multiplies what came before by
   * the base and adds the symbol's index; an error earlier in the string, or
   * an unknown appended character, is what is reported.
   */
  lemma {:induction false} DecodedSnoc(s: string, c: char, a: string)
    ensures Decoded(s + [c], a) ==
      match Decoded(s, a)
      case Err(e) => Err(e)
      case Ok(v) => if c in a then Ok(v * |a| + IndexOf(a, c)) else Err(InvalidCharacter(c))
  {
    if s == [] {
      assert s + [c] == [c] && [c][1..] == [];
    } else {
      var t := s[1..];
      assert (s + [c])[0] == s[0] && (s + [c])[1..] == t + [c];
      if s[0] in a {
        DecodedSnoc(t, c, a);
        if Decoded(t, a).Ok? && c in a {
          HornerStep(IndexOf(a, s[0]), |a|, Pow(|a|, |s| - 1), Decoded(t, a).value, IndexOf(a, c));
        }
      }
    }
  }

  /** The arithmetic step of `DecodedSnoc`. */
  lemma HornerStep(hi: nat, b: nat, p: nat, v: nat, d: nat)
    ensures hi * (b * p) + (v * b + d) == (hi * p + v) * b + d
  {
  }

  /** The empty string is zero and decoding is the positional reading of its characters. */
  lemma DecodedEmpty(a: string)
    ensures Decoded([], a) == Ok(0)
  {
  }

  /**
   * Decoding fails exactly when some character lies outside the alphabet, and
   * the character it reports is the leftmost such one.
   */
  lemma {:induction false} DecodedFailsExactly(s: string, a: string)
    ensures Decoded(s, a).Err? <==> exists i :: 0 <= i < |s| && s[i] !in a
    ensures Decoded(s, a).Err? ==>
      exists i :: 0 <= i < |s| && s[i] !in a && Decoded(s, a).error == InvalidCharacter(s[i])
        && forall j :: 0 <= j < i ==> s[j] in a
  {
    if s != [] {
      DecodedFailsExactly(s[1..], a);
      if s[0] in a {
        assert forall i :: 1 <= i < |s| ==> s[i] == s[1..][i - 1];
        if Decoded(s[1..], a).Err? {
          var i :| 0 <= i < |s[1..]| && s[1..][i] !in a
            && Decoded(s[1..], a).error == InvalidCharacter(s[1..][i])
            && forall j :: 0 <= j < i ==> s[1..][j] in a;
          assert s[i + 1] !in a;
          assert forall j :: 0 <= j < i + 1 ==> s[j] in a by {
            forall j | 0 <= j < i + 1 ensures s[j] in a {
              if j > 0 { assert s[j] == s[1..][j - 1]; }
            }
          }
        } else {
          forall i | 0 <= i < |s| ensures s[i] in a {
            if i > 0 { assert s[i] == s[1..][i - 1]; }
          }
        }
      }
    }
  }

  /** Decoding the digits of `n` gives `n` back. */
  lemma {:induction false} DigitsRoundTrip(n: nat, a: string)
    requires IsAlphabet(a)
    ensures Decoded(Digits(n, a), a) == Ok(n)
    decreases n
  {
    if n > 0 {
      var b, q, r := |a|, n / |a|, n % |a|;
      DivMod(n, b);
      DivisionShrinks(n, b);
      assert Digits(n, a) == Digits(q, a) + [a[r]];
      DigitsRoundTrip(q, a);
      DecodedSnoc(Digits(q, a), a[r], a);
      IndexOfDistinct(a, r);
    }
  }

  /** Round trip: decoding the encoding of any natural number gives it back. */
  lemma RoundTrip(n: nat, a: string)
    requires IsAlphabet(a)
    ensures Decoded(Encoded(n, a), a) == Ok(n)
  {
    if n > 0 {
      DigitsRoundTrip(n, a);
    }
  }

  /** Distinct numbers have distinct encodings. */
  lemma EncodeInjective(m: nat, n: nat, a: string)
    requires IsAlphabet(a) && m != n
    ensures Encoded(m, a) != Encoded(n, a)
  {
    RoundTrip(m, a);
    RoundTrip(n, a);
  }

  /**
   * A leading zero symbol does not change the value, so several strings
   * decode to the same number.
   */
  lemma DecodedLeadingZero(s: string, a: string)
    requires |a| >= 1
    ensures Decoded([a[0]] + s, a) == Decoded(s, a)
  {
    assert ([a[0]] + s)[1..] == s;
  }

  /** The position of a symbol of the fixed alphabet, read off its character code. */
  function Base62Rank(c: char): int {
    if '0' <= c <= '9' then c as int - '0' as int
    else if 'a' <= c <= 'z' then c as int - 'a' as int + 10
    else c as int - 'A' as int + 36
  }

  lemma Base62RankAt(i: int)
    requires 0 <= i < |BASE62|
    ensures Base62Rank(BASE62[i]) == i && '0' <= BASE62[i] <= 'z'
  {
    if i < 10 {
      assert i == 0 || i == 1 || i == 2 || i == 3 || i == 4 || i == 5 || i == 6
          || i == 7 || i == 8 || i == 9;
    } else if i < 36 {
      assert i == 10 || i == 11 || i == 12 || i == 13 || i == 14 || i == 15
          || i == 16 || i == 17 || i == 18 || i == 19 || i == 20 || i == 21
          || i == 22 || i == 23 || i == 24 || i == 25 || i == 26 || i == 27
          || i == 28 || i == 29 || i == 30 || i == 31 || i == 32 || i == 33
          || i == 34 || i == 35;
    } else {
      assert i == 36 || i == 37 || i == 38 || i == 39 || i == 40 || i == 41
          || i == 42 || i == 43 || i == 44 || i == 45 || i == 46 || i == 47
          || i == 48 || i == 49 || i == 50 || i == 51 || i == 52 || i == 53
          || i == 54 || i == 55 || i == 56 || i == 57 || i == 58 || i == 59
          || i == 60 || i == 61;
    }
  }

  /** The first identifier the store issues has the one-symbol code "1". */
  lemma EncodeOne()
    ensures Encoded(1, BASE62) == "1"
  {
    EncodeSingleDigit(1, BASE62);
    assert BASE62[1] == '1';
  }

  /** The fixed alphabet has 62 distinct symbols. */
  lemma Base62IsAlphabet()
    ensures |BASE62| == 62 && IsAlphabet(BASE62)
  {
    forall i, j | 0 <= i < j < |BASE62| ensures BASE62[i] != BASE62[j] {
      Base62RankAt(i);
      Base62RankAt(j);
    }
  }
}
