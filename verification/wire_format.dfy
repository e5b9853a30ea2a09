/**
 * The line written to the serial device for a slider move,
 * `${name}:${val.toFixed(3)}\n` (Interface.jsx, `handleSliderChange`),
 * together with the reading a device performs on it.
 */
module WireFormat {
  import opened Optional
  import opened Strings

  function Abs(x: real): (a: real)
    ensures 0.0 <= a && (a == x || a == -x)
  {
    if x < 0.0 then -x else x
  }

  /** The integer nearest `y`, the larger one on a tie. */
  function RoundHalfUp(y: real): (n: int)
    ensures n as real - 0.5 <= y < n as real + 0.5
  {
    (y + 0.5).Floor
  }

  /** The magnitude, in thousandths, that `x.toFixed(3)` prints. */
  function Thousandths(x: real): nat
  {
    RoundHalfUp(Abs(x) * 1000.0)
  }

  /** The value the printed text denotes. */
  function Quantize(x: real): real
  {
    (if x < 0.0 then -1.0 else 1.0) * (Thousandths(x) as real) / 1000.0
  }

  /** The printed value is within half a thousandth of the real one. */
  lemma QuantizeIsClose(x: real)
    ensures -0.0005 <= Quantize(x) - x <= 0.0005
  {
    var t := Thousandths(x) as real;
    assert t - 0.5 <= Abs(x) * 1000.0 < t + 0.5;
  }

  /**
   * `x.toFixed(3)`: sign when negative, the rounded magnitude in decimal
   * with at least one integer digit, a point, exactly three fraction digits.
   */
  function ToFixed3(x: real): string
  {
    (if x < 0.0 then "-" else "") + Unsigned(x)
  }

  /** What `x.toFixed(3)` prints after the sign. */
  function Unsigned(x: real): string
  {
    var digits := PadZeros(NatToDecimal(Thousandths(x)), 4);
    var n := |digits| - 3;
    digits[..n] + "." + digits[n..]
  }

  /** Reads an optional `-`, decimal digits, a point and three digits. */
  function ParseFixed(s: string): Option<real>
  {
    if |s| > 0 && s[0] == '-' then
      match ParseMagnitude(s[1..])
      case None => None
      case Some(m) => Some(-m)
    else ParseMagnitude(s)
  }

  /** Reads decimal digits, a point and three digits. */
  function ParseMagnitude(t: string): Option<real>
  {
    var k := LastIndexOf(t, '.');
    if k < 1 || |t| - k - 1 != 3 then None
    else
      var whole, fraction := t[..k], t[k + 1..];
      if !AllDigits(whole) || !AllDigits(fraction) then None
      else Some(Magnitude(whole, fraction))
  }

  /** The value of `whole.fraction` with a three-digit fraction. */
  function Magnitude(whole: string, fraction: string): real
    requires AllDigits(whole) && AllDigits(fraction)
  {
    (DecimalValue(whole) * 1000 + DecimalValue(fraction)) as real / 1000.0
  }

  lemma ParseMagnitudeReads(whole: string, fraction: string)
    requires 1 <= |whole| && AllDigits(whole)
    requires |fraction| == 3 && AllDigits(fraction)
    ensures ParseMagnitude(whole + "." + fraction) == Some(Magnitude(whole, fraction))
  {
    SplitAtLast(whole, '.', fraction);
  }

  lemma ParseFixedReadsNegative(t: string, m: real)
    requires ParseMagnitude(t) == Some(m)
    ensures ParseFixed("-" + t) == Some(-m)
  {
    assert ("-" + t)[1..] == t;
  }

  lemma ParseFixedReadsNonNegative(t: string)
    requires 0 < |t| && IsDigit(t[0])
    ensures ParseFixed(t) == ParseMagnitude(t)
  {
  }

  /** The digits `x.toFixed(3)` prints read back as the rounded magnitude. */
  lemma MagnitudeOfDigits(x: real)
    ensures var digits := PadZeros(NatToDecimal(Thousandths(x)), 4);
            var n := |digits| - 3;
            Magnitude(digits[..n], digits[n..]) == Thousandths(x) as real / 1000.0
  {
    var digits := PadZeros(NatToDecimal(Thousandths(x)), 4);
    var n := |digits| - 3;
    var whole, fraction := digits[..n], digits[n..];
    assert whole + fraction == digits;
    DecimalValueAppend(whole, fraction);
    assert Pow10(3) == 1000;
    DecimalRoundTrip(Thousandths(x));
  }

  /** The unsigned part reads back as the rounded magnitude. */
  lemma UnsignedReads(x: real)
    ensures 0 < |Unsigned(x)| && IsDigit(Unsigned(x)[0])
    ensures ParseMagnitude(Unsigned(x)) == Some(Thousandths(x) as real / 1000.0)
  {
    var digits := PadZeros(NatToDecimal(Thousandths(x)), 4);
    var n := |digits| - 3;
    var whole, fraction := digits[..n], digits[n..];
    assert Unsigned(x) == whole + "." + fraction;
    assert AllDigits(whole) && AllDigits(fraction) by {
      assert forall i :: 0 <= i < |whole| ==> whole[i] == digits[i];
      assert forall i :: 0 <= i < |fraction| ==> fraction[i] == digits[n + i];
    }
    ParseMagnitudeReads(whole, fraction);
    MagnitudeOfDigits(x);
    assert Unsigned(x)[0] == whole[0];
  }

  /** What `toFixed(3)` prints reads back as the quantised value. */
  lemma ParseFixedRoundTrip(x: real)
    ensures ParseFixed(ToFixed3(x)) == Some(Quantize(x))
  {
    var t := Unsigned(x);
    var m := Thousandths(x) as real / 1000.0;
    UnsignedReads(x);
    if x < 0.0 {
      assert ToFixed3(x) == "-" + t;
      ParseFixedReadsNegative(t, m);
      assert Quantize(x) == -m;
    } else {
      assert ToFixed3(x) == t;
      ParseFixedReadsNonNegative(t);
      assert Quantize(x) == m;
    }
  }

  /** The line sent for a joint move. */
  function Line(name: string, x: real): string
  {
    name + ":" + ToFixed3(x) + "\n"
  }

  /** How a device reads a line: name up to the last `:`, then the value. */
  function ParseLine(line: string): Option<(string, real)>
  {
    if |line| == 0 || line[|line| - 1] != '\n' then None
    else
      var body := line[..|line| - 1];
      var k := LastIndexOf(body, ':');
      if k < 0 then None
      else
        match ParseFixed(body[k + 1..])
        case None => None
        case Some(v) => Some((body[..k], v))
  }

  /**
   * The printed number is an optional `-` (present exactly for negative
   * input), digits, a point, and three more digits.
   */
  lemma ToFixed3Shape(x: real)
    ensures var s := ToFixed3(x);
            && 5 <= |s| && s[|s| - 4] == '.'
            && (x < 0.0 <==> s[0] == '-')
            && forall i :: 0 <= i < |s| ==> IsDigit(s[i]) || s[i] == '.' || s[i] == '-'
  {
    UnsignedReads(x);
    var digits := PadZeros(NatToDecimal(Thousandths(x)), 4);
    var n := |digits| - 3;
    var s := ToFixed3(x);
    var sign := if x < 0.0 then "-" else "";
    assert s == sign + digits[..n] + "." + digits[n..];
    forall i | 0 <= i < |s| ensures IsDigit(s[i]) || s[i] == '.' || s[i] == '-' {
      if i >= |sign| && i - |sign| != n {
        assert s[i] in digits;
      }
    }
  }

  /**
   * A line is one frame of the stream: it ends in the only newline it
   * holds, as long as the joint name has none.
   */
  lemma LineFraming(name: string, x: real)
    requires '\n' !in name
    ensures var l := Line(name, x);
            && l[|l| - 1] == '\n' && '\n' !in l[..|l| - 1]
            && l[..|name| + 1] == name + ":"
  {
    ToFixed3Shape(x);
    var l := Line(name, x);
    var f := ToFixed3(x);
    assert l[..|l| - 1] == name + ":" + f;
    forall i | 0 <= i < |f| ensures f[i] != '\n' { }
  }

  lemma ToFixed3HasNoColon(x: real)
    ensures ':' !in ToFixed3(x)
  {
    var digits := PadZeros(NatToDecimal(Thousandths(x)), 4);
    var s := ToFixed3(x);
    forall i | 0 <= i < |s| ensures s[i] != ':' {
      var n := |digits| - 3;
      var sign := if x < 0.0 then "-" else "";
      if i >= |sign| && i - |sign| != n {
        assert s[i] in digits;
      }
    }
  }

  /**
   * Every line decodes to the joint name, whatever it contains, and the
   * value to three decimals.
   */
  lemma LineRoundTrip(name: string, x: real)
    ensures ParseLine(Line(name, x)) == Some((name, Quantize(x)))
  {
    var fixed := ToFixed3(x);
    var line := Line(name, x);
    var body := name + ":" + fixed;
    assert line[..|line| - 1] == body;
    ToFixed3HasNoColon(x);
    forall j | |name| < j < |body| ensures body[j] != ':' {
      assert body[j] == fixed[j - |name| - 1];
    }
    LastIndexOfUnique(body, ':', |name|);
    assert body[..|name|] == name && body[|name| + 1..] == fixed;
    ParseFixedRoundTrip(x);
  }
}
