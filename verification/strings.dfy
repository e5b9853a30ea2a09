/**
 * The string operations the viewer applies to file names and mesh
 * references: `split(sep).pop()` (through the last separator's index), `toLowerCase`,
 * `replace(/%20/g, " ")`, `startsWith` and `endsWith`.
 */
module Strings {

  predicate StartsWith(s: string, prefix: string)
  {
    |prefix| <= |s| && s[..|prefix|] == prefix
  }

  /** `s.endsWith(suffix)`, compared from the last character backwards. */
  predicate EndsWith(s: string, suffix: string)
    decreases |suffix|
  {
    |suffix| == 0
    || (0 < |s| && s[|s| - 1] == suffix[|suffix| - 1] && EndsWith(s[..|s| - 1], suffix[..|suffix| - 1]))
  }

  lemma {:induction false} EndsWithAppend(a: string, b: string)
    ensures EndsWith(a + b, b)
    decreases |b|
  {
    if |b| > 0 {
      var n := |b| - 1;
      assert (a + b)[..|a + b| - 1] == a + b[..n];
      EndsWithAppend(a, b[..n]);
    }
  }

  /** The suffix test holds exactly when `suffix` is the tail of `s`, character for character. */
  lemma {:induction false} EndsWithIsSuffix(s: string, suffix: string)
    ensures EndsWith(s, suffix) <==> |suffix| <= |s| && s[|s| - |suffix|..] == suffix
    decreases |suffix|
  {
    if |suffix| > 0 && 0 < |s| {
      var s', t' := s[..|s| - 1], suffix[..|suffix| - 1];
      EndsWithIsSuffix(s', t');
      if |suffix| <= |s| {
        assert s[|s| - |suffix|..] == s'[|s'| - |t'|..] + [s[|s| - 1]];
        assert suffix == t' + [suffix[|suffix| - 1]];
      }
    }
  }

  lemma {:induction false} EndsWithLength(s: string, suffix: string)
    requires EndsWith(s, suffix)
    ensures |suffix| <= |s|
    decreases |suffix|
  {
    if |suffix| > 0 {
      EndsWithLength(s[..|s| - 1], suffix[..|suffix| - 1]);
    }
  }

  /** The last position holding `c`, or -1: `split(c).pop()` is what follows it. */
  function LastIndexOf(s: string, c: char): (i: int)
    ensures -1 <= i < |s|
    ensures 0 <= i ==> s[i] == c
    ensures forall j :: i < j < |s| ==> s[j] != c
    decreases |s|
  {
    if |s| == 0 then -1
    else if s[|s| - 1] == c then |s| - 1
    else LastIndexOf(s[..|s| - 1], c)
  }

  /**
   * `s.split(c).pop()`: the text after the last `c`, or all of `s` when it
   * holds no `c`.
   */
  function AfterLast(s: string, c: char): (r: string)
    ensures c !in r
    decreases |s|
  {
    if |s| == 0 || s[|s| - 1] == c then []
    else AfterLast(s[..|s| - 1], c) + [s[|s| - 1]]
  }

  /** `AfterLast` is the slice past `LastIndexOf`. */
  lemma {:induction false} AfterLastIsSlice(s: string, c: char)
    ensures AfterLast(s, c) == s[LastIndexOf(s, c) + 1..]
    decreases |s|
  {
    if |s| > 0 && s[|s| - 1] != c {
      var init := s[..|s| - 1];
      var k := LastIndexOf(init, c);
      AfterLastIsSlice(init, c);
      assert LastIndexOf(s, c) == k;
      assert AfterLast(s, c) == AfterLast(init, c) + [s[|s| - 1]];
      assert s[k + 1..] == init[k + 1..] + [s[|s| - 1]];
    }
  }

  /** `AfterLast` is the longest suffix free of `c`. */
  lemma AfterLastIsLongestSuffix(s: string, c: char)
    ensures var r := AfterLast(s, c);
            |r| <= |s| && r == s[|s| - |r|..] && (|r| < |s| ==> s[|s| - |r| - 1] == c)
  {
    AfterLastIsSlice(s, c);
  }

  /** The three facts `LastIndexOf` ensures determine its result. */
  lemma LastIndexOfUnique(s: string, c: char, i: int)
    requires -1 <= i < |s|
    requires 0 <= i ==> s[i] == c
    requires forall j :: i < j < |s| ==> s[j] != c
    ensures i == LastIndexOf(s, c)
  {
  }

  /** Splitting `a + [c] + b` at its last `c` gives back `a` and `b` when `b` has none. */
  lemma SplitAtLast(a: string, c: char, b: string)
    requires c !in b
    ensures var s := a + [c] + b;
            LastIndexOf(s, c) == |a| && s[..|a|] == a && s[|a| + 1..] == b
  {
    var s := a + [c] + b;
    forall j | |a| < j < |s| ensures s[j] != c {
      assert s[j] == b[j - |a| - 1];
    }
    LastIndexOfUnique(s, c, |a|);
    assert s[..|a|] == a && s[|a| + 1..] == b;
  }

  /** Whatever precedes the last separator does not matter. */
  lemma {:induction false} AfterLastJoin(a: string, c: char, b: string)
    ensures AfterLast(a + [c] + b, c) == AfterLast(b, c)
  {
    var s := a + [c] + b;
    var k := LastIndexOf(b, c);
    AfterLastIsSlice(s, c);
    AfterLastIsSlice(b, c);
    if 0 <= k {
      LastIndexOfUnique(s, c, |a| + 1 + k);
      assert s[|a| + 1 + k + 1..] == b[k + 1..];
    } else {
      LastIndexOfUnique(s, c, |a|);
      assert s[|a| + 1..] == b;
    }
  }

  /** When `c` does not occur, `AfterLast` is the identity. */
  lemma AfterLastNoSeparator(s: string, c: char)
    requires c !in s
    ensures AfterLast(s, c) == s
  {
    LastIndexOfUnique(s, c, -1);
    AfterLastIsSlice(s, c);
  }

  /** ASCII `toLowerCase` for one character. */
  function LowerChar(ch: char): char
  {
    if 'A' <= ch <= 'Z' then (ch as int + 32) as char else ch
  }

  predicate IsUpper(ch: char)
  {
    'A' <= ch <= 'Z'
  }

  predicate IsLetter(ch: char)
  {
    IsUpper(ch) || 'a' <= ch <= 'z'
  }

  function ToLower(s: string): (r: string)
    ensures |r| == |s|
    ensures forall i :: 0 <= i < |s| ==> r[i] == LowerChar(s[i])
    ensures forall i :: 0 <= i < |r| ==> !IsUpper(r[i])
  {
    seq(|s|, i requires 0 <= i < |s| => LowerChar(s[i]))
  }

  lemma ToLowerIdempotent(s: string)
    ensures ToLower(ToLower(s)) == ToLower(s)
  {
  }

  /** Lower-casing creates and removes no separator that is not a letter. */
  lemma LastIndexOfToLower(s: string, c: char)
    requires !IsLetter(c)
    ensures LastIndexOf(ToLower(s), c) == LastIndexOf(s, c)
  {
    var t := ToLower(s);
    var k := LastIndexOf(s, c);
    forall j | k < j < |t|
      ensures t[j] != c
    {
      assert s[j] != c;
      if IsUpper(s[j]) {
        assert 'a' <= t[j] <= 'z';
      }
    }
    LastIndexOfUnique(t, c, k);
  }

  lemma AfterLastToLower(s: string, c: char)
    requires !IsLetter(c)
    ensures AfterLast(ToLower(s), c) == ToLower(AfterLast(s, c))
  {
    LastIndexOfToLower(s, c);
    AfterLastIsSlice(s, c);
    AfterLastIsSlice(ToLower(s), c);
  }

  /** The three characters `%20` start at position `i` of `s`. */
  predicate EncodedSpaceAt(s: string, i: int)
  {
    0 <= i && i + 3 <= |s| && s[i] == '%' && s[i + 1] == '2' && s[i + 2] == '0'
  }

  predicate HasEncodedSpace(s: string)
  {
    exists i :: 0 <= i < |s| && EncodedSpaceAt(s, i)
  }

  /** `s.replace(/%20/g, " ")`: replaces every `%20`, scanning left to right. */
  function DecodeSpaces(s: string): (r: string)
    ensures |r| <= |s|
    decreases |s|
  {
    if |s| < 3 then s
    else if EncodedSpaceAt(s, 0) then " " + DecodeSpaces(s[3..])
    else [s[0]] + DecodeSpaces(s[1..])
  }

  /** Text without `%20` is left as it is. */
  lemma {:induction false} DecodeSpacesNoop(s: string)
    requires !HasEncodedSpace(s)
    ensures DecodeSpaces(s) == s
    decreases |s|
  {
    if |s| >= 3 {
      assert !EncodedSpaceAt(s, 0);
      forall i | 0 <= i < |s[1..]| && EncodedSpaceAt(s[1..], i)
        ensures false
      {
        assert EncodedSpaceAt(s, i + 1);
      }
      DecodeSpacesNoop(s[1..]);
      assert s == [s[0]] + s[1..];
    }
  }

  /** After the replacement no `%20` is left over. */
  lemma {:induction false} DecodeSpacesLeavesNone(s: string)
    ensures !HasEncodedSpace(DecodeSpaces(s))
    decreases |s|
  {
    if |s| < 3 {
      assert forall i :: !EncodedSpaceAt(s, i);
    } else if EncodedSpaceAt(s, 0) {
      var t := DecodeSpaces(s[3..]);
      DecodeSpacesLeavesNone(s[3..]);
      var r := " " + t;
      forall i | EncodedSpaceAt(r, i)
        ensures false
      {
        if i == 0 {
        } else {
          assert EncodedSpaceAt(t, i - 1);
        }
      }
    } else {
      var t := DecodeSpaces(s[1..]);
      DecodeSpacesLeavesNone(s[1..]);
      var r := [s[0]] + t;
      forall i | EncodedSpaceAt(r, i)
        ensures false
      {
        if i == 0 {
          DecodeSpacesHead(s[1..]);
        } else {
          assert EncodedSpaceAt(t, i - 1);
        }
      }
    }
  }

  /**
   * A decoded text starts with `20` only when the original did: a space
   * never becomes a `2`.
   */
  lemma {:induction false} DecodeSpacesHead(s: string)
    ensures |DecodeSpaces(s)| >= 2 && DecodeSpaces(s)[0] == '2' && DecodeSpaces(s)[1] == '0'
            ==> |s| >= 2 && s[0] == '2' && s[1] == '0'
    decreases |s|
  {
    if |s| >= 3 && !EncodedSpaceAt(s, 0) {
      var t := DecodeSpaces(s[1..]);
      if |t| >= 1 && t[0] == '0' {
        DecodeSpacesFirst(s[1..]);
      }
    }
  }

  /** The first decoded character is a space or the first original one. */
  lemma DecodeSpacesFirst(s: string)
    requires |DecodeSpaces(s)| >= 1
    ensures DecodeSpaces(s)[0] == ' ' || (|s| >= 1 && DecodeSpaces(s)[0] == s[0])
  {
  }

  /** Every character of a decoded text is a space or comes from the original. */
  lemma {:induction false} DecodeSpacesChars(s: string)
    ensures forall ch :: ch in DecodeSpaces(s) ==> ch == ' ' || ch in s
    decreases |s|
  {
    if |s| >= 3 {
      if EncodedSpaceAt(s, 0) {
        DecodeSpacesChars(s[3..]);
      } else {
        DecodeSpacesChars(s[1..]);
      }
    }
  }

  /**
   * Each `%20` becomes exactly one space: decoding text that has its first
   * `%20` right after a prefix `a` keeps `a`, puts a single space for the
   * three characters, and goes on decoding the rest.
   */
  lemma {:induction false} DecodeSpacesSplice(a: string, b: string)
    requires !HasEncodedSpace(a)
    ensures DecodeSpaces(a + "%20" + b) == a + " " + DecodeSpaces(b)
    decreases |a|
  {
    var s := a + "%20" + b;
    if |a| == 0 {
      assert EncodedSpaceAt(s, 0);
      assert s[3..] == b;
    } else {
      if |a| >= 3 {
        assert !EncodedSpaceAt(a, 0);
      }
      assert !EncodedSpaceAt(s, 0);
      assert !HasEncodedSpace(a[1..]) by {
        forall i | 0 <= i < |a[1..]| && EncodedSpaceAt(a[1..], i) ensures false {
          assert EncodedSpaceAt(a, i + 1);
        }
      }
      DecodeSpacesSplice(a[1..], b);
      assert s[1..] == a[1..] + "%20" + b;
      assert a == [a[0]] + a[1..];
    }
  }

  lemma DecodeSpacesIdempotent(s: string)
    ensures DecodeSpaces(DecodeSpaces(s)) == DecodeSpaces(s)
  {
    DecodeSpacesLeavesNone(s);
    DecodeSpacesNoop(DecodeSpaces(s));
  }

  /** A decimal digit character. */
  predicate IsDigit(ch: char)
  {
    '0' <= ch <= '9'
  }

  predicate AllDigits(s: string)
  {
    forall i :: 0 <= i < |s| ==> IsDigit(s[i])
  }

  function DigitChar(d: nat): (ch: char)
    requires d < 10
    ensures IsDigit(ch)
  {
    ('0' as int + d) as char
  }

  function DigitValue(ch: char): (d: nat)
    requires IsDigit(ch)
    ensures d < 10
  {
    ch as int - '0' as int
  }

  /** JavaScript's `String(n)` for a non-negative integer. */
  function NatToDecimal(n: nat): (s: string)
    ensures 1 <= |s| && AllDigits(s)
    ensures 1 < |s| ==> s[0] != '0'
    decreases n
  {
    if n < 10 then [DigitChar(n)]
    else NatToDecimal(n / 10) + [DigitChar(n % 10)]
  }

  /** The number a string of decimal digits denotes. */
  function DecimalValue(s: string): nat
    requires AllDigits(s)
    decreases |s|
  {
    if |s| == 0 then 0
    else DecimalValue(s[..|s| - 1]) * 10 + DigitValue(s[|s| - 1])
  }

  function Pow10(k: nat): (p: nat)
    ensures 1 <= p
  {
    if k == 0 then 1 else 10 * Pow10(k - 1)
  }

  lemma {:induction false} DecimalRoundTrip(n: nat)
    ensures DecimalValue(NatToDecimal(n)) == n
    decreases n
  {
    if n >= 10 {
      var s := NatToDecimal(n);
      DecimalRoundTrip(n / 10);
      assert s[..|s| - 1] == NatToDecimal(n / 10);
    }
  }

  /** Reading `a + b` is reading `a`, shifting by `|b|` digits, adding `b`. */
  lemma {:induction false} DecimalValueAppend(a: string, b: string)
    requires AllDigits(a) && AllDigits(b)
    ensures DecimalValue(a + b) == DecimalValue(a) * Pow10(|b|) + DecimalValue(b)
    decreases |b|
  {
    if |b| == 0 {
      assert a + b == a;
    } else {
      var b' := b[..|b| - 1];
      DigitsPrefix(b);
      DigitsPrefix(a + b);
      assert (a + b)[..|a + b| - 1] == a + b';
      DecimalValueAppend(a, b');
      ShiftDigit(DecimalValue(a), Pow10(|b'|), DecimalValue(b'), DigitValue(b[|b| - 1]));
    }
  }

  lemma DigitsPrefix(s: string)
    requires 0 < |s| && AllDigits(s)
    ensures AllDigits(s[..|s| - 1])
  {
    assert forall i :: 0 <= i < |s| - 1 ==> s[..|s| - 1][i] == s[i];
  }

  lemma ShiftDigit(va: int, p: int, vb: int, d: int)
    ensures (va * p + vb) * 10 + d == va * (10 * p) + (vb * 10 + d)
  {
  }

  function Zeros(k: nat): (z: string)
    ensures |z| == k && AllDigits(z)
  {
    seq(k, _ => '0')
  }

  lemma {:induction false} ZerosValue(k: nat)
    ensures DecimalValue(Zeros(k)) == 0
  {
    if k > 0 {
      assert Zeros(k)[..k - 1] == Zeros(k - 1);
      ZerosValue(k - 1);
    }
  }

  /** `s` padded on the left with zeros to at least `width` characters. */
  function PadZeros(s: string, width: nat): (r: string)
    ensures |r| == if |s| < width then width else |s|
    ensures AllDigits(s) ==> AllDigits(r) && DecimalValue(r) == DecimalValue(s)
  {
    var z := if |s| < width then Zeros(width - |s|) else "";
    if AllDigits(s) then
      DecimalValueAppend(z, s);
      ZerosValue(|z|);
      z + s
    else z + s
  }
}
