/**
  The base-N digit-string decoder of solver.js (`convertToBigInt`).

  A digit string is lower-cased, then read most-significant digit first;
  every character is given its radix-36 weight ('0'-'9' are 0-9, 'a'-'z'
  are 10-35) and the value is accumulated as `result * base + weight`
  with unbounded integers. A weight that is not below the base, or a
  character that has no weight at all, makes the decoding fail.
 */
module Decoder {

  /** Why a decoding failed. `InvalidDigit` is the error the decoder throws
      itself, naming the (lower-cased) character and the base; `NotANumber`
      is the error raised when a character with no radix-36 weight reaches
      the BigInt conversion (its message names neither). */
  datatype DecodeError = InvalidDigit(ch: char, base: int) | NotANumber

  datatype Result<T> = Ok(value: T) | Err(error: DecodeError)

  datatype Option<T> = None | Some(value: T)

  /** KELVIN SIGN, the one non-ASCII character whose lower-case form is an
      ASCII letter on its own ('k'). */
  const KELVIN_SIGN: char := '\U{212A}'

  /** LATIN CAPITAL LETTER I WITH DOT ABOVE, whose lower-case form is the
      two characters 'i' and COMBINING DOT ABOVE. */
  const CAPITAL_I_DOT: char := '\U{0130}'
  const COMBINING_DOT: char := '\U{0307}'

  function Pow(b: int, e: nat): int
  {
    if e == 0 then 1 else b * Pow(b, e - 1)
  }

  /** ASCII lower-casing of one character. */
  function AsciiLower(c: char): char
  {
    if 'A' <= c <= 'Z' then (c as int - 'A' as int + 'a' as int) as char else c
  }

  /** ASCII upper-casing of one character. */
  function AsciiUpper(c: char): char
  {
    if 'a' <= c <= 'z' then (c as int - 'a' as int + 'A' as int) as char else c
  }

  /** The radix-36 digit of weight `d`: '0'-'9', then 'a'-'z'. */
  function DigitChar(d: nat): char
    requires d < 36
  {
    if d < 10 then ('0' as int + d) as char else ('a' as int + d - 10) as char
  }

  /** The weight radix-36 parsing gives one character, or nothing when it
      is not a digit. */
  function DigitValue(c: char): Option<nat>
  {
    if '0' <= c <= '9' then Some(c as int - '0' as int)
    else if 'a' <= c <= 'z' then Some(c as int - 'a' as int + 10)
    else if 'A' <= c <= 'Z' then Some(c as int - 'A' as int + 10)
    else None
  }

  /** A character has a weight exactly when it is an ASCII letter or digit;
      the weight is below 36 and names the digit that is the character's
      lower-case form. */
  lemma DigitValueMeaning(c: char)
    ensures DigitValue(c).None? <==> !('0' <= c <= '9' || 'a' <= c <= 'z' || 'A' <= c <= 'Z')
    ensures DigitValue(c).Some? ==> DigitValue(c).value < 36 && DigitChar(DigitValue(c).value) == AsciiLower(c)
  {
  }

  /** Every weight below 36 is the weight of exactly its own digit. */
  lemma DigitCharRoundTrip(d: nat)
    requires d < 36
    ensures DigitValue(DigitChar(d)) == Some(d)
  {
  }

  /** Whether `c` is a legal digit for `base` once the string is lower-cased. */
  predicate IsDigitFor(c: char, base: int)
  {
    DigitValue(c).Some? && DigitValue(c).value < base
  }

  /** The error the decoder reports for a character that is not a legal digit. */
  function DigitError(c: char, base: int): DecodeError
  {
    if DigitValue(c).None? then NotANumber else InvalidDigit(c, base)
  }

  /** Lower-casing of one character, as string lower-casing does it for the
      characters that matter to decoding. */
  function LowerChar(c: char): seq<char>
  {
    if 'A' <= c <= 'Z' then [AsciiLower(c)]
    else if c == KELVIN_SIGN then ['k']
    else if c == CAPITAL_I_DOT then ['i', COMBINING_DOT]
    else [c]
  }

  /** Lower-casing of a whole string, character by character. No ASCII
      upper-case letter survives it. */
  function ToLower(s: string): (r: string)
    ensures |r| >= |s|
    ensures forall i :: 0 <= i < |r| ==> !('A' <= r[i] <= 'Z')
  {
    if s == [] then [] else LowerChar(s[0]) + ToLower(s[1..])
  }

  /** ASCII upper-casing of a whole string. */
  function ToUpper(s: string): (r: string)
    ensures |r| == |s|
    ensures forall i :: 0 <= i < |r| ==> !('a' <= r[i] <= 'z')
  {
    if s == [] then [] else [AsciiUpper(s[0])] + ToUpper(s[1..])
  }

  /** The decoding loop over an already lower-cased string: the value
      accumulated over `t[..|t|-1]`, times the base, plus the weight of the
      last character; the first illegal character stops it. The value is
      never negative. */
  function Accumulate(t: string, base: int): (r: Result<int>)
    ensures r.Ok? ==> r.value >= 0
  {
    if t == [] then Ok(0)
    else
      match Accumulate(t[..|t| - 1], base)
      case Err(e) => Err(e)
      case Ok(v) =>
        var ch := t[|t| - 1];
        if IsDigitFor(ch, base) then
          var d := DigitValue(ch).value;
          StepNonNegative(v, base, d);
          Ok(v * base + d)
        else Err(DigitError(ch, base))
  }

  lemma StepNonNegative(v: int, base: int, d: int)
    requires v >= 0 && 0 <= d < base
    ensures v * base + d >= 0
  {
  }

  /** What `convertToBigInt(s, base)` produces. */
  function Decode(s: string, base: int): Result<int>
  {
    Accumulate(ToLower(s), base)
  }

  /** The decoder as the source writes it: lower-case, then one pass over
      the characters with an accumulator. */
  method ConvertToBigInt(s: string, base: int) returns (r: Result<int>)
    ensures r == Decode(s, base)
  {
    var t := ToLower(s);
    var result := 0;
    var i := 0;
    while i < |t|
      invariant 0 <= i <= |t|
      invariant Accumulate(t[..i], base) == Ok(result)
    {
      var ch := t[i];
      var digit := DigitValue(ch);
      assert t[..i + 1][..i] == t[..i];
      if digit.Some? && digit.value >= base {
        AccumulatePrefixError(t, base, i + 1);
        return Err(InvalidDigit(ch, base));
      }
      if digit.None? {
        AccumulatePrefixError(t, base, i + 1);
        return Err(NotANumber);
      }
      result := result * base + digit.value;
      i := i + 1;
    }
    assert t[..i] == t;
    r := Ok(result);
  }

  // ---------------------------------------------------------------------
  // The reference meaning: positional notation

  /** The weight of a character of the string as given, before lower-casing. */
  function RawWeight(c: char): Option<nat>
  {
    if c == KELVIN_SIGN then Some(20) else DigitValue(c)
  }

  /** Whether every character of `s` is a legal digit for `base`. */
  predicate ValidFor(s: string, base: int)
  {
    forall i :: 0 <= i < |s| ==> RawWeight(s[i]).Some? && RawWeight(s[i]).value < base
  }

  /** The weights of the characters of `s`, in order. */
  function Weights(s: string): (ws: seq<int>)
    requires forall i :: 0 <= i < |s| ==> RawWeight(s[i]).Some?
    ensures |ws| == |s|
    ensures forall i :: 0 <= i < |s| ==> ws[i] == RawWeight(s[i]).value
  {
    if s == [] then [] else [RawWeight(s[0]).value] + Weights(s[1..])
  }

  /** Positional notation: the sum of ws[i] * b^(|ws|-1-i). */
  function Value(ws: seq<int>, b: int): int
  {
    if ws == [] then 0 else ws[0] * Pow(b, |ws| - 1) + Value(ws[1..], b)
  }

  /** Whether every character of an already lower-cased string is a legal
      digit for `base`. */
  predicate AllDigits(t: string, base: int)
  {
    forall i :: 0 <= i < |t| ==> IsDigitFor(t[i], base)
  }

  // ---------------------------------------------------------------------
  // Lemmas about the accumulation loop

  /** Once a prefix has failed, the whole string fails with the same error. */
  lemma {:induction false} AccumulatePrefixError(t: string, base: int, i: nat)
    requires i <= |t|
    requires Accumulate(t[..i], base).Err?
    ensures Accumulate(t, base) == Accumulate(t[..i], base)
  {
    if i < |t| {
      var p := t[..|t| - 1];
      assert p[..i] == t[..i];
      AccumulatePrefixError(p, base, i);
    } else {
      assert t[..i] == t;
    }
  }

  /** Appending one legal digit multiplies the value by the base and adds
      the digit's weight. */
  lemma AccumulateSnoc(t: string, c: char, base: int)
    requires IsDigitFor(c, base)
    requires Accumulate(t, base).Ok?
    ensures Accumulate(t + [c], base) == Ok(Accumulate(t, base).value * base + DigitValue(c).value)
  {
    assert (t + [c])[..|t|] == t;
  }

  /** Decoding succeeds exactly when every character is a legal digit. */
  lemma {:induction false} AccumulateOkIff(t: string, base: int)
    ensures Accumulate(t, base).Ok? <==> AllDigits(t, base)
  {
    if t != [] {
      var p := t[..|t| - 1];
      AccumulateOkIff(p, base);
      assert forall i :: 0 <= i < |p| ==> p[i] == t[i];
    }
  }

  /** On failure, the error names the first character that is not a legal
      digit. */
  lemma {:induction false} AccumulateFirstError(t: string, base: int, i: nat)
    requires i < |t|
    requires forall j :: 0 <= j < i ==> IsDigitFor(t[j], base)
    requires !IsDigitFor(t[i], base)
    ensures Accumulate(t, base) == Err(DigitError(t[i], base))
  {
    var q := t[..i + 1];
    AccumulateOkIff(t[..i], base);
    assert q[..i] == t[..i];
    assert forall j :: 0 <= j < i ==> t[..i][j] == t[j];
    AccumulatePrefixError(t, base, i + 1);
  }

  lemma {:induction false} ValueSnoc(ws: seq<int>, d: int, b: int)
    ensures Value(ws + [d], b) == Value(ws, b) * b + d
  {
    if ws != [] {
      var rest := ws[1..];
      assert (ws + [d])[1..] == rest + [d];
      ValueSnoc(rest, d, b);
      var p := Pow(b, |rest|);
      calc {
        Value(ws + [d], b);
        ws[0] * Pow(b, |rest| + 1) + Value(rest + [d], b);
        ws[0] * (b * p) + Value(rest, b) * b + d;
        { assert ws[0] * (b * p) == (ws[0] * p) * b; }
        (ws[0] * p + Value(rest, b)) * b + d;
      }
    }
  }

  /** The accumulated value is the positional value of the weights. */
  lemma {:induction false} AccumulateValue(t: string, base: int)
    requires AllDigits(t, base)
    ensures Accumulate(t, base) == Ok(Value(Weights(t), base))
  {
    if t != [] {
      var p, c := t[..|t| - 1], t[|t| - 1];
      assert t == p + [c];
      AllDigitsSnoc(p, c, base);
      AccumulateValue(p, base);
      AccumulateSnoc(p, c, base);
      WeightsSnoc(p, c);
      ValueSnoc(Weights(p), DigitValue(c).value, base);
    }
  }

  lemma AllDigitsSnoc(p: string, c: char, base: int)
    requires AllDigits(p + [c], base)
    ensures AllDigits(p, base) && IsDigitFor(c, base)
  {
    assert forall i :: 0 <= i < |p| ==> (p + [c])[i] == p[i];
    assert (p + [c])[|p|] == c;
  }

  lemma {:induction false} WeightsSnoc(p: string, c: char)
    requires DigitValue(c).Some?
    requires forall i :: 0 <= i < |p| ==> RawWeight(p[i]).Some?
    ensures forall i :: 0 <= i < |p + [c]| ==> RawWeight((p + [c])[i]).Some?
    ensures Weights(p + [c]) == Weights(p) + [DigitValue(c).value]
  {
    assert RawWeight(c) == DigitValue(c);
    if p == [] {
      assert p + [c] == [c];
    } else {
      var s := p + [c];
      assert s[0] == p[0] && s[1..] == p[1..] + [c];
      WeightsSnoc(p[1..], c);
    }
  }

  // ---------------------------------------------------------------------
  // Lemmas about lower-casing

  lemma {:induction false} ToLowerAppend(a: string, b: string)
    ensures ToLower(a + b) == ToLower(a) + ToLower(b)
  {
    if a == [] {
      assert a + b == b;
    } else {
      assert (a + b)[0] == a[0];
      assert (a + b)[1..] == a[1..] + b;
      ToLowerAppend(a[1..], b);
      calc {
        ToLower(a + b);
        LowerChar(a[0]) + ToLower(a[1..] + b);
        LowerChar(a[0]) + (ToLower(a[1..]) + ToLower(b));
        (LowerChar(a[0]) + ToLower(a[1..])) + ToLower(b);
      }
    }
  }

  /** A raw character is a legal digit exactly when its lower-case form is
      all legal digits; then that form is one character of the same weight. */
  lemma LowerCharDigits(c: char, base: int)
    ensures (RawWeight(c).Some? && RawWeight(c).value < base) <==> AllDigits(LowerChar(c), base)
    ensures RawWeight(c).Some? ==> LowerChar(c) == [LowerChar(c)[0]] && DigitValue(LowerChar(c)[0]) == RawWeight(c)
  {
    if c == CAPITAL_I_DOT {
      assert !IsDigitFor(LowerChar(c)[1], base);
    } else {
      var l := LowerChar(c)[0];
      assert LowerChar(c) == [l];
      assert DigitValue(l) == RawWeight(c);
      assert AllDigits([l], base) <==> IsDigitFor(l, base) by {
        assert [l][0] == l;
      }
    }
  }

  lemma AllDigitsConcat(a: string, b: string, base: int)
    ensures AllDigits(a + b, base) <==> AllDigits(a, base) && AllDigits(b, base)
  {
    if AllDigits(a, base) && AllDigits(b, base) {
      forall i | 0 <= i < |a + b| ensures IsDigitFor((a + b)[i], base) {
        if i >= |a| {
          assert (a + b)[i] == b[i - |a|];
        }
      }
    }
    if AllDigits(a + b, base) {
      forall i | 0 <= i < |a| ensures IsDigitFor(a[i], base) {
        assert (a + b)[i] == a[i];
      }
      forall i | 0 <= i < |b| ensures IsDigitFor(b[i], base) {
        assert (a + b)[|a| + i] == b[i];
      }
    }
  }

  /** Lower-casing keeps exactly the legal strings legal. */
  lemma {:induction false} ToLowerValid(s: string, base: int)
    ensures ValidFor(s, base) <==> AllDigits(ToLower(s), base)
  {
    if s != [] {
      ToLowerValid(s[1..], base);
      LowerCharDigits(s[0], base);
      AllDigitsConcat(LowerChar(s[0]), ToLower(s[1..]), base);
      assert ValidFor(s, base) <==> RawWeight(s[0]).Some? && RawWeight(s[0]).value < base && ValidFor(s[1..], base) by {
        assert forall i :: 1 <= i < |s| ==> s[i] == s[1..][i - 1];
      }
    }
  }

  /** Lower-casing a legal string keeps its length and its weights. */
  lemma {:induction false} ToLowerWeights(s: string, base: int)
    requires ValidFor(s, base)
    ensures AllDigits(ToLower(s), base)
    ensures |ToLower(s)| == |s| && Weights(ToLower(s)) == Weights(s)
  {
    ToLowerValid(s, base);
    if s != [] {
      var rest := s[1..];
      assert ValidFor(rest, base) by {
        assert forall i :: 0 <= i < |rest| ==> rest[i] == s[i + 1];
      }
      ToLowerWeights(rest, base);
      LowerCharDigits(s[0], base);
      var t := ToLower(s);
      assert t == [LowerChar(s[0])[0]] + ToLower(rest);
      assert Weights(t) == [RawWeight(s[0]).value] + Weights(ToLower(rest));
    }
  }

  // ---------------------------------------------------------------------
  // Properties of the decoder as the source exposes it

  /** Decoding succeeds exactly when every character of the string is a
      digit ('0'-'9', 'a'-'z', 'A'-'Z' or the Kelvin sign) whose weight is
      below the base, and then yields the positional value of the weights,
      most-significant digit first. */
  lemma DecodeCorrect(s: string, base: int)
    ensures Decode(s, base).Ok? <==> ValidFor(s, base)
    ensures ValidFor(s, base) ==> Decode(s, base) == Ok(Value(Weights(s), base))
  {
    ToLowerValid(s, base);
    AccumulateOkIff(ToLower(s), base);
    if ValidFor(s, base) {
      ToLowerWeights(s, base);
      AccumulateValue(ToLower(s), base);
    }
  }

  /** The empty string decodes to 0 in every base. */
  lemma DecodeEmpty(base: int)
    ensures Decode("", base) == Ok(0)
  {
  }

  /** Appending one legal digit to a decodable string multiplies its value
      by the base and adds the digit's weight. */
  lemma DecodeAppendDigit(s: string, c: char, base: int)
    requires RawWeight(c).Some? && RawWeight(c).value < base
    requires Decode(s, base).Ok?
    ensures Decode(s + [c], base) == Ok(Decode(s, base).value * base + RawWeight(c).value)
  {
    var d := LowerDigit(c, base);
    var t := ToLower(s);
    calc {
      Decode(s + [c], base);
      Accumulate(ToLower(s + [c]), base);
      { ToLowerSingleton(c); ToLowerAppend(s, [c]); }
      Accumulate(t + [d], base);
      { AccumulateSnoc(t, d, base); }
      Ok(Accumulate(t, base).value * base + DigitValue(d).value);
    }
  }

  /** The lower-case form of a legal raw digit: one character, same weight. */
  lemma LowerDigit(c: char, base: int) returns (d: char)
    requires RawWeight(c).Some? && RawWeight(c).value < base
    ensures LowerChar(c) == [d] && IsDigitFor(d, base) && DigitValue(d) == RawWeight(c)
  {
    LowerCharDigits(c, base);
    d := LowerChar(c)[0];
    assert AllDigits([d], base);
    assert [d][0] == d;
  }

  lemma ToLowerSingleton(c: char)
    ensures ToLower([c]) == LowerChar(c)
  {
    assert [c][1..] == [];
  }

  lemma {:induction false} AccumulateLeadingZero(t: string, base: int)
    requires base >= 1
    ensures Accumulate("0" + t, base) == Accumulate(t, base)
  {
    if t != [] {
      var p := t[..|t| - 1];
      assert ("0" + t)[..|t|] == "0" + p;
      AccumulateLeadingZero(p, base);
    }
  }

  /** A leading zero changes neither the value nor the error. */
  lemma DecodeLeadingZero(s: string, base: int)
    requires base >= 1
    ensures Decode("0" + s, base) == Decode(s, base)
  {
    ToLowerAppend("0", s);
    assert ToLower("0") == "0";
    AccumulateLeadingZero(ToLower(s), base);
  }

  function Zeros(z: nat): (r: string)
    ensures |r| == z && forall i :: 0 <= i < z ==> r[i] == '0'
  {
    if z == 0 then "" else "0" + Zeros(z - 1)
  }

  /** Any number of leading zeros changes neither the value nor the error. */
  lemma {:induction false} DecodeLeadingZeros(z: nat, s: string, base: int)
    requires base >= 1
    ensures Decode(Zeros(z) + s, base) == Decode(s, base)
  {
    if z == 0 {
      assert Zeros(z) + s == s;
    } else {
      assert Zeros(z) + s == "0" + (Zeros(z - 1) + s);
      DecodeLeadingZero(Zeros(z - 1) + s, base);
      DecodeLeadingZeros(z - 1, s, base);
    }
  }

  lemma {:induction false} ToLowerOfUpper(s: string)
    ensures ToLower(ToUpper(s)) == ToLower(s)
  {
    if s != [] {
      ToLowerOfUpper(s[1..]);
      assert LowerChar(AsciiUpper(s[0])) == LowerChar(s[0]);
    }
  }

  /** Decoding ignores ASCII letter case: a string and its ASCII upper-cased
      form decode to the same value, or fail with the same error. Full
      Unicode upper-casing would not keep this (it maps `ß` to `SS`). */
  lemma DecodeCaseInsensitive(s: string, base: int)
    ensures Decode(ToUpper(s), base) == Decode(s, base)
  {
    ToLowerOfUpper(s);
  }

  lemma DigitStep(w: int, v: int, b: int, p: int)
    requires 0 <= w < b && 0 <= v < p
    ensures 0 <= w * p + v < b * p
  {
    assert w * p <= (b - 1) * p by {
      assert (b - 1) * p - w * p == (b - 1 - w) * p;
    }
  }

  lemma {:induction false} ValueBound(ws: seq<int>, b: int)
    requires forall i :: 0 <= i < |ws| ==> 0 <= ws[i] < b
    ensures 0 <= Value(ws, b) < Pow(b, |ws|)
  {
    if ws != [] {
      var rest := ws[1..];
      ValueBound(rest, b);
      DigitStep(ws[0], Value(rest, b), b, Pow(b, |rest|));
    }
  }

  /** A decoded value is non-negative and below base^|s|. */
  lemma DecodeBounds(s: string, base: int)
    requires Decode(s, base).Ok?
    ensures 0 <= Decode(s, base).value < Pow(base, |s|)
  {
    DecodeCorrect(s, base);
    ValueBound(Weights(s), base);
  }

  // ---------------------------------------------------------------------
  // Worked examples

  /** Decoding a one-character string followed by a digit. */
  lemma DigitString(s: string, c: char, base: int)
    requires |s| == 1 && ('a' <= s[0] <= 'z' || '0' <= s[0] <= '9')
    requires '0' <= c <= '9' || 'a' <= c <= 'z'
    requires IsDigitFor(s[0], base) && IsDigitFor(c, base)
    ensures Decode(s + [c], base) == Ok(DigitValue(s[0]).value * base + DigitValue(c).value)
  {
    assert s[1..] == [] && s[..0] == [];
    assert ToLower(s) == s;
    assert Accumulate(s, base) == Ok(0 * base + DigitValue(s[0]).value);
    DecodeAppendDigit(s, c, base);
  }

  /** "ff" and "FF" both decode to 255 in base 16. */
  lemma ExampleHexCase()
    ensures Decode("ff", 16) == Ok(255) && Decode("FF", 16) == Ok(255)
  {
    DigitString("f", 'f', 16);
    assert "f" + ['f'] == "ff";
    assert ToUpper("ff") == "FF";
    DecodeCaseInsensitive("ff", 16);
  }

  /** A single zero digit decodes to 0 in every base from 1 up. */
  lemma ExampleZero(base: int)
    requires base >= 1
    ensures Decode("0", base) == Ok(0)
  {
    assert "0"[1..] == [] && "0"[..0] == [];
    assert ToLower("0") == "0";
    assert Accumulate("0", base) == Ok(0 * base + 0);
  }
}
