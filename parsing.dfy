/** The configuration-name parser: the anchored grammar

      (SR|LR) "_DE_N=" digits "_J=" ["-"] digits "." digits
      "_h=" digits "." digits "_" ["alpha=" digits "." digits "_"]
      "theta=" digits "_axis=" (X|Y|Z)

    as a scanner over `seq<char>`, the syntax it accepts as a datatype with a
    renderer, and the conversion of the captured groups into a `FileKey`.
    Digits are ASCII and the name must end right after the axis letter. */
module Parsing {
  import opened Wrappers

  /** The frozen `FileKey` dataclass; numeric fields hold exact values. */
  datatype FileKey = FileKey(
    model: string, N: int, J: real, h: real, alpha: Option<real>, theta: int, axis: string)

  /** The `ValueError` of `parse_base_name`. */
  datatype ParseError = Unrecognized(name: string)

  // ---------------------------------------------------------------------
  // The syntax

  /** `-?\d+\.\d+`: an optional minus sign, the integer digits and the
      fraction digits, as written. */
  datatype Decimal = Decimal(neg: bool, whole: string, frac: string)

  /** The captured groups of a matching name. */
  datatype Fields = Fields(
    model: string, n: string, j: Decimal, h: Decimal, alpha: Option<Decimal>, theta: string, axis: char)

  predicate IsDigit(c: char)
  {
    '0' <= c <= '9'
  }

  /** `\d+` */
  predicate IsDigits(s: string)
  {
    |s| > 0 && forall i :: 0 <= i < |s| ==> IsDigit(s[i])
  }

  /** A decimal field with at least one digit on each side of the point;
      only a signed field may carry the minus sign. */
  predicate DecimalOk(d: Decimal, signed: bool)
  {
    IsDigits(d.whole) && IsDigits(d.frac) && (d.neg ==> signed)
  }

  predicate WellFormed(f: Fields)
  {
    (f.model == "SR" || f.model == "LR") &&
    IsDigits(f.n) &&
    DecimalOk(f.j, true) &&
    DecimalOk(f.h, false) &&
    (f.alpha.Some? ==> DecimalOk(f.alpha.value, false)) &&
    IsDigits(f.theta) &&
    f.axis in "XYZ"
  }

  /** A decimal field followed by the text `rest`. */
  function DecimalThen(d: Decimal, rest: string): string
  {
    (if d.neg then "-" else "") + (d.whole + ("." + (d.frac + rest)))
  }

  /** The optional alpha segment followed by the text `rest`. */
  function AlphaThen(a: Option<Decimal>, rest: string): string
  {
    if a.Some? then "alpha=" + DecimalThen(a.value, "_" + rest) else rest
  }

  /** "theta=" digits "_axis=" letter: the end of every name. */
  function AxisTail(theta: string, axis: char): string
  {
    "theta=" + (theta + ("_axis=" + [axis]))
  }

  /** Everything from "_h=" on. */
  function HTail(h: Decimal, alpha: Option<Decimal>, theta: string, axis: char): string
  {
    "_h=" + DecimalThen(h, "_" + AlphaThen(alpha, AxisTail(theta, axis)))
  }

  /** The name a set of groups spells. */
  function Render(f: Fields): string
  {
    f.model + ("_DE_N=" + (f.n + ("_J=" + DecimalThen(f.j, HTail(f.h, f.alpha, f.theta, f.axis)))))
  }

  // ---------------------------------------------------------------------
  // The scanner

  /** Consume the literal `lit` at the front of s. */
  function Lit(s: string, lit: string): (r: Option<string>)
    ensures r.Some? <==> lit <= s
    ensures r.Some? ==> s == lit + r.value
  {
    if lit <= s then Some(s[|lit|..]) else None
  }

  lemma {:induction false} LitConcat(lit: string, rest: string)
    ensures Lit(lit + rest, lit) == Some(rest)
  {
    assert lit <= lit + rest;
    assert (lit + rest)[|lit|..] == rest;
  }

  /** Length of the longest run of digits at the front of s (greedy `\d+`). */
  function SpanDigits(s: string): (k: nat)
    ensures k <= |s|
    ensures forall i :: 0 <= i < k ==> IsDigit(s[i])
    ensures k < |s| ==> !IsDigit(s[k])
  {
    if |s| > 0 && IsDigit(s[0]) then 1 + SpanDigits(s[1..]) else 0
  }

  /** `\d+`: the digits and what follows them. */
  function Digits(s: string): (r: Option<(string, string)>)
    ensures r.Some? ==> IsDigits(r.value.0) && s == r.value.0 + r.value.1
    ensures r.Some? ==> |r.value.1| == 0 || !IsDigit(r.value.1[0])
  {
    var k := SpanDigits(s);
    if k == 0 then None
    else
      assert s == s[..k] + s[k..];
      Some((s[..k], s[k..]))
  }

  lemma {:induction false} SpanDigitsConcat(ds: string, rest: string)
    requires forall i :: 0 <= i < |ds| ==> IsDigit(ds[i])
    requires |rest| == 0 || !IsDigit(rest[0])
    ensures SpanDigits(ds + rest) == |ds|
    decreases |ds|
  {
    if |ds| > 0 {
      assert (ds + rest)[1..] == ds[1..] + rest;
      SpanDigitsConcat(ds[1..], rest);
    }
  }

  lemma {:induction false} DigitsConcat(ds: string, rest: string)
    requires IsDigits(ds)
    requires |rest| == 0 || !IsDigit(rest[0])
    ensures Digits(ds + rest) == Some((ds, rest))
  {
    SpanDigitsConcat(ds, rest);
    assert (ds + rest)[..|ds|] == ds;
    assert (ds + rest)[|ds|..] == rest;
  }

  /** `-?\d+\.\d+` when `signed`, `\d+\.\d+` otherwise. */
  function ParseDecimal(s: string, signed: bool): (r: Option<(Decimal, string)>)
    ensures r.Some? ==> DecimalOk(r.value.0, signed) && s == DecimalThen(r.value.0, r.value.1)
    ensures r.Some? ==> |r.value.1| == 0 || !IsDigit(r.value.1[0])
  {
    var neg := signed && |s| > 0 && s[0] == '-';
    var s1 := if neg then s[1..] else s;
    var w :- Digits(s1);
    var s2 :- Lit(w.1, ".");
    var fr :- Digits(s2);
    var d := Decimal(neg, w.0, fr.0);
    assert s1 == d.whole + ("." + (d.frac + fr.1));
    assert s == (if neg then "-" else "") + s1 by {
      if neg { assert s == [s[0]] + s[1..]; }
    }
    Some((d, fr.1))
  }

  lemma {:induction false} DecimalConcat(d: Decimal, signed: bool, rest: string)
    requires DecimalOk(d, signed)
    requires |rest| == 0 || !IsDigit(rest[0])
    ensures ParseDecimal(DecimalThen(d, rest), signed) == Some((d, rest))
  {
    var s := DecimalThen(d, rest);
    var s1 := d.whole + ("." + (d.frac + rest));
    if d.neg {
      assert s == "-" + s1;
      assert s[1..] == s1;
    } else {
      assert s == s1;
      assert s[0] == d.whole[0];
    }
    DigitsConcat(d.whole, "." + (d.frac + rest));
    LitConcat(".", d.frac + rest);
    DigitsConcat(d.frac, rest);
  }

  /** `SR|LR` */
  function ParseModel(s: string): (r: Option<(string, string)>)
    ensures r.Some? ==> (r.value.0 == "SR" || r.value.0 == "LR") && s == r.value.0 + r.value.1
  {
    if "SR" <= s then Some(("SR", s[2..]))
    else if "LR" <= s then Some(("LR", s[2..]))
    else None
  }

  lemma {:induction false} ModelConcat(model: string, rest: string)
    requires model == "SR" || model == "LR"
    ensures ParseModel(model + rest) == Some((model, rest))
  {
    assert model <= model + rest;
    assert (model + rest)[2..] == rest;
  }

  /** `theta=(\d+)_axis=([XYZ])$` */
  function ParseAxisTail(s: string): (r: Option<(string, char)>)
    ensures r.Some? ==> IsDigits(r.value.0) && r.value.1 in "XYZ" && s == AxisTail(r.value.0, r.value.1)
  {
    var s1 :- Lit(s, "theta=");
    var t :- Digits(s1);
    var s2 :- Lit(t.1, "_axis=");
    if |s2| == 1 && s2[0] in "XYZ" then
      assert s2 == [s2[0]];
      Some((t.0, s2[0]))
    else None
  }

  lemma {:induction false} AxisTailConcat(theta: string, axis: char)
    requires IsDigits(theta) && axis in "XYZ"
    ensures ParseAxisTail(AxisTail(theta, axis)) == Some((theta, axis))
  {
    LitConcat("theta=", theta + ("_axis=" + [axis]));
    DigitsConcat(theta, "_axis=" + [axis]);
    LitConcat("_axis=", [axis]);
  }

  /** `(?:alpha=(\d+\.\d+)_)?theta=...`: when the text continues with
      "alpha=" only the alpha branch can match, since "theta=" cannot match
      there; otherwise the optional group matches nothing. */
  function ParseAlphaTail(s: string): (r: Option<(Option<Decimal>, string, char)>)
    ensures r.Some? ==> (r.value.0.Some? ==> DecimalOk(r.value.0.value, false))
    ensures r.Some? ==> IsDigits(r.value.1) && r.value.2 in "XYZ"
    ensures r.Some? ==> s == AlphaThen(r.value.0, AxisTail(r.value.1, r.value.2))
  {
    if "alpha=" <= s then
      var a :- ParseDecimal(s[6..], false);
      var rest :- Lit(a.1, "_");
      var tail :- ParseAxisTail(rest);
      assert s == "alpha=" + s[6..];
      Some((Some(a.0), tail.0, tail.1))
    else
      var tail :- ParseAxisTail(s);
      Some((None, tail.0, tail.1))
  }

  lemma {:induction false} AlphaTailConcat(a: Option<Decimal>, theta: string, axis: char)
    requires a.Some? ==> DecimalOk(a.value, false)
    requires IsDigits(theta) && axis in "XYZ"
    ensures ParseAlphaTail(AlphaThen(a, AxisTail(theta, axis))) == Some((a, theta, axis))
  {
    var rest := AxisTail(theta, axis);
    AxisTailConcat(theta, axis);
    if a.Some? {
      var s := AlphaThen(a, rest);
      assert "alpha=" <= s;
      assert s[6..] == DecimalThen(a.value, "_" + rest);
      DecimalConcat(a.value, false, "_" + rest);
      LitConcat("_", rest);
    } else {
      assert rest[0] == 't';
      assert !("alpha=" <= rest);
    }
  }

  /** `_h=(\d+\.\d+)_` and the rest of the name. */
  function ParseHTail(s: string): (r: Option<(Decimal, Option<Decimal>, string, char)>)
    ensures r.Some? ==> DecimalOk(r.value.0, false) && (r.value.1.Some? ==> DecimalOk(r.value.1.value, false))
    ensures r.Some? ==> IsDigits(r.value.2) && r.value.3 in "XYZ"
    ensures r.Some? ==> s == HTail(r.value.0, r.value.1, r.value.2, r.value.3)
  {
    var s1 :- Lit(s, "_h=");
    var h :- ParseDecimal(s1, false);
    var s2 :- Lit(h.1, "_");
    var tail :- ParseAlphaTail(s2);
    Some((h.0, tail.0, tail.1, tail.2))
  }

  lemma {:induction false} HTailConcat(h: Decimal, a: Option<Decimal>, theta: string, axis: char)
    requires DecimalOk(h, false) && (a.Some? ==> DecimalOk(a.value, false))
    requires IsDigits(theta) && axis in "XYZ"
    ensures ParseHTail(HTail(h, a, theta, axis)) == Some((h, a, theta, axis))
  {
    var rest := "_" + AlphaThen(a, AxisTail(theta, axis));
    LitConcat("_h=", DecimalThen(h, rest));
    DecimalConcat(h, false, rest);
    LitConcat("_", AlphaThen(a, AxisTail(theta, axis)));
    AlphaTailConcat(a, theta, axis);
  }

  /** The whole anchored match: the groups, or None when the name is not in
      the grammar. */
  function ParseFields(s: string): Option<Fields>
  {
    var m :- ParseModel(s);
    var s1 :- Lit(m.1, "_DE_N=");
    var n :- Digits(s1);
    var s2 :- Lit(n.1, "_J=");
    var j :- ParseDecimal(s2, true);
    var tail :- ParseHTail(j.1);
    Some(Fields(m.0, n.0, j.0, tail.0, tail.1, tail.2, tail.3))
  }

  /** Soundness: whatever the scanner accepts is in the grammar, and spells
      exactly the input. */
  lemma {:induction false} ParseSound(s: string)
    requires ParseFields(s).Some?
    ensures WellFormed(ParseFields(s).value) && Render(ParseFields(s).value) == s
  {
    var m := ParseModel(s).value;
    var s1 := Lit(m.1, "_DE_N=").value;
    var n := Digits(s1).value;
    var s2 := Lit(n.1, "_J=").value;
    var j := ParseDecimal(s2, true).value;
    var tail := ParseHTail(j.1).value;
  }

  /** Completeness: every name in the grammar is accepted, with its own
      groups. */
  lemma {:induction false} ParseComplete(f: Fields)
    requires WellFormed(f)
    ensures ParseFields(Render(f)) == Some(f)
  {
    var tail := HTail(f.h, f.alpha, f.theta, f.axis);
    var jrest := "_J=" + DecimalThen(f.j, tail);
    ModelConcat(f.model, "_DE_N=" + (f.n + jrest));
    LitConcat("_DE_N=", f.n + jrest);
    DigitsConcat(f.n, jrest);
    LitConcat("_J=", DecimalThen(f.j, tail));
    DecimalConcat(f.j, true, tail);
    HTailConcat(f.h, f.alpha, f.theta, f.axis);
  }

  // ---------------------------------------------------------------------
  // Field conversions

  function DigitValue(c: char): nat
    requires IsDigit(c)
  {
    (c as int) - ('0' as int)
  }

  /** `int(...)` of a digit string. */
  function DigitsValue(s: string): nat
    requires forall i :: 0 <= i < |s| ==> IsDigit(s[i])
    decreases |s|
  {
    if |s| == 0 then 0 else 10 * DigitsValue(s[..|s| - 1]) + DigitValue(s[|s| - 1])
  }

  function Pow10(k: nat): (r: nat)
    ensures r >= 1
  {
    if k == 0 then 1 else 10 * Pow10(k - 1)
  }

  /** `float(...)` of a decimal field, as the exact rational it spells. */
  function DecimalValue(d: Decimal): (x: real)
    requires DecimalOk(d, true)
    ensures !d.neg ==> x >= 0.0
    ensures d.neg ==> x <= 0.0
  {
    var magnitude := DigitsValue(d.whole) as real + (DigitsValue(d.frac) as real) / (Pow10(|d.frac|) as real);
    if d.neg then -magnitude else magnitude
  }

  function ToKey(f: Fields): FileKey
    requires WellFormed(f)
  {
    FileKey(
      f.model,
      DigitsValue(f.n),
      DecimalValue(f.j),
      DecimalValue(f.h),
      if f.alpha.Some? then Some(DecimalValue(f.alpha.value)) else None,
      DigitsValue(f.theta),
      [f.axis])
  }

  /** `parse_base_name`: the key of a matching name, or the error. */
  function ParseBaseName(s: string): (r: Result<FileKey, ParseError>)
    ensures r.Failure? <==> ParseFields(s).None?
    ensures r.Failure? ==> r.error == Unrecognized(s)
    ensures r.Success? ==>
      (r.value.model == "SR" || r.value.model == "LR") &&
      (r.value.axis == "X" || r.value.axis == "Y" || r.value.axis == "Z") &&
      r.value.N >= 0 && r.value.theta >= 0 && r.value.h >= 0.0 &&
      (r.value.alpha.Some? ==> r.value.alpha.value >= 0.0)
  {
    match ParseFields(s)
    case None => Failure(Unrecognized(s))
    case Some(f) =>
      ParseSound(s);
      Success(ToKey(f))
  }

  /** A name parses exactly when it spells some well-formed set of groups,
      and then it yields the key of those groups. */
  lemma {:induction false} ParseBaseNameIff(s: string)
    ensures ParseBaseName(s).Success? <==> exists f :: WellFormed(f) && Render(f) == s
    ensures forall f :: WellFormed(f) && Render(f) == s ==> ParseBaseName(s) == Success(ToKey(f))
  {
    forall f | WellFormed(f) && Render(f) == s
      ensures ParseBaseName(s) == Success(ToKey(f))
    {
      ParseComplete(f);
    }
    if ParseFields(s).Some? {
      ParseSound(s);
    }
  }

  /** Every well-formed set of groups comes back from its own name. */
  lemma {:induction false} ParseOfRender(f: Fields)
    requires WellFormed(f)
    ensures ParseBaseName(Render(f)) == Success(ToKey(f))
  {
    ParseComplete(f);
  }

  /** alpha is present exactly when the name has the "alpha=" segment,
      whatever the model. */
  lemma {:induction false} AlphaIffSegment(f: Fields)
    requires WellFormed(f)
    ensures ParseBaseName(Render(f)).Success?
    ensures ParseBaseName(Render(f)).value.alpha.Some? <==> f.alpha.Some?
  {
    ParseComplete(f);
  }

  // ---------------------------------------------------------------------
  // The worked names

  lemma {:induction false} DecimalExamples()
    ensures DecimalValue(Decimal(true, "1", "00")) == -1.0
    ensures DecimalValue(Decimal(false, "0", "20")) == 0.2
    ensures DecimalValue(Decimal(false, "1", "20")) == 1.2
    ensures DecimalValue(Decimal(false, "1", "60")) == 1.6
  {
    assert DigitsValue("1") == 1 && DigitsValue("0") == 0;
    assert DigitsValue("00") == 0 && DigitsValue("20") == 20 && DigitsValue("60") == 60;
    assert Pow10(2) == 100;
  }

  /** The groups of the two worked names, for either model. */
  function WithAlpha(model: string): Fields
  {
    Fields(model, "14", Decimal(true, "1", "00"), Decimal(false, "0", "20"),
      Some(Decimal(false, "1", "60")), "3", 'Z')
  }

  function WithoutAlpha(model: string): Fields
  {
    Fields(model, "14", Decimal(true, "1", "00"), Decimal(false, "1", "20"), None, "0", 'X')
  }

  lemma {:induction false} SpellWithAlpha(model: string)
    ensures Render(WithAlpha(model))
      == (model + "_DE_N=14_J=") + ("-1.00_h=0.20_" + ("alpha=1.60_" + AxisTail("3", 'Z')))
  {
  }

  lemma {:induction false} SpellWithoutAlpha(model: string)
    ensures Render(WithoutAlpha(model)) == (model + "_DE_N=14_J=") + ("-1.00_h=1.20_" + AxisTail("0", 'X'))
  {
  }

  /** Joining the spelled pieces of the worked names into single literals. */
  lemma {:induction false} TailWithAlpha()
    ensures "-1.00_h=0.20_" + ("alpha=1.60_" + AxisTail("3", 'Z')) == "-1.00_h=0.20_alpha=1.60_theta=3_axis=Z"
  {
    assert AxisTail("3", 'Z') == "theta=3_axis=Z";
  }

  lemma {:induction false} TailWithoutAlpha()
    ensures "-1.00_h=1.20_" + AxisTail("0", 'X') == "-1.00_h=1.20_theta=0_axis=X"
  {
    assert AxisTail("0", 'X') == "theta=0_axis=X";
  }

  lemma {:induction false} JoinLongRange()
    ensures ("LR" + "_DE_N=14_J=") + "-1.00_h=0.20_alpha=1.60_theta=3_axis=Z"
      == "LR_DE_N=14_J=-1.00_h=0.20_alpha=1.60_theta=3_axis=Z"
  {
    assert "LR" + "_DE_N=14_J=" == "LR_DE_N=14_J=";
  }

  lemma {:induction false} JoinShortRangeWithAlpha()
    ensures ("SR" + "_DE_N=14_J=") + "-1.00_h=0.20_alpha=1.60_theta=3_axis=Z"
      == "SR_DE_N=14_J=-1.00_h=0.20_alpha=1.60_theta=3_axis=Z"
  {
    assert "SR" + "_DE_N=14_J=" == "SR_DE_N=14_J=";
  }

  lemma {:induction false} JoinShortRange()
    ensures ("SR" + "_DE_N=14_J=") + "-1.00_h=1.20_theta=0_axis=X" == "SR_DE_N=14_J=-1.00_h=1.20_theta=0_axis=X"
  {
    assert "SR" + "_DE_N=14_J=" == "SR_DE_N=14_J=";
  }

  lemma {:induction false} JoinLongRangeWithoutAlpha()
    ensures ("LR" + "_DE_N=14_J=") + "-1.00_h=1.20_theta=0_axis=X" == "LR_DE_N=14_J=-1.00_h=1.20_theta=0_axis=X"
  {
    assert "LR" + "_DE_N=14_J=" == "LR_DE_N=14_J=";
  }

  lemma {:induction false} KeyWithAlpha(model: string)
    requires model == "SR" || model == "LR"
    ensures WellFormed(WithAlpha(model))
    ensures ToKey(WithAlpha(model)) == FileKey(model, 14, -1.0, 0.2, Some(1.6), 3, "Z")
  {
    DecimalExamples();
    assert DigitsValue("14") == 14 && DigitsValue("3") == 3;
  }

  lemma {:induction false} KeyWithoutAlpha(model: string)
    requires model == "SR" || model == "LR"
    ensures WellFormed(WithoutAlpha(model))
    ensures ToKey(WithoutAlpha(model)) == FileKey(model, 14, -1.0, 1.2, None, 0, "X")
  {
    DecimalExamples();
    assert DigitsValue("14") == 14 && DigitsValue("0") == 0;
  }

  /** The long-range name with alpha from the parser's tests. */
  lemma {:induction false} ExampleLongRange()
    ensures ParseBaseName("LR_DE_N=14_J=-1.00_h=0.20_alpha=1.60_theta=3_axis=Z")
      == Success(FileKey("LR", 14, -1.0, 0.2, Some(1.6), 3, "Z"))
  {
    SpellWithAlpha("LR");
    TailWithAlpha();
    JoinLongRange();
    KeyWithAlpha("LR");
    ParseOfRender(WithAlpha("LR"));
  }

  /** The short-range name without alpha from the parser's tests. */
  lemma {:induction false} ExampleShortRange()
    ensures ParseBaseName("SR_DE_N=14_J=-1.00_h=1.20_theta=0_axis=X")
      == Success(FileKey("SR", 14, -1.0, 1.2, None, 0, "X"))
  {
    SpellWithoutAlpha("SR");
    TailWithoutAlpha();
    JoinShortRange();
    KeyWithoutAlpha("SR");
    ParseOfRender(WithoutAlpha("SR"));
  }

  /** The grammar does not tie alpha to the model: the same names with the
      models swapped parse too, a short-range name with alpha and a
      long-range name without it. */
  lemma {:induction false} ExampleShortRangeWithAlpha()
    ensures ParseBaseName("SR_DE_N=14_J=-1.00_h=0.20_alpha=1.60_theta=3_axis=Z")
      == Success(FileKey("SR", 14, -1.0, 0.2, Some(1.6), 3, "Z"))
  {
    SpellWithAlpha("SR");
    TailWithAlpha();
    JoinShortRangeWithAlpha();
    KeyWithAlpha("SR");
    ParseOfRender(WithAlpha("SR"));
  }

  lemma {:induction false} ExampleLongRangeWithoutAlpha()
    ensures ParseBaseName("LR_DE_N=14_J=-1.00_h=1.20_theta=0_axis=X")
      == Success(FileKey("LR", 14, -1.0, 1.2, None, 0, "X"))
  {
    SpellWithoutAlpha("LR");
    TailWithoutAlpha();
    JoinLongRangeWithoutAlpha();
    KeyWithoutAlpha("LR");
    ParseOfRender(WithoutAlpha("LR"));
  }

  /** Every name in the grammar ends with its axis letter. */
  lemma {:induction false} RenderEndsWithAxis(f: Fields)
    ensures |Render(f)| > 0 && Render(f)[|Render(f)| - 1] == f.axis
  {
    var t := AxisTail(f.theta, f.axis);
    assert t[|t| - 1] == f.axis;
    var a := AlphaThen(f.alpha, t);
    assert a[|a| - 1] == f.axis;
    var h := HTail(f.h, f.alpha, f.theta, f.axis);
    assert h[|h| - 1] == f.axis;
  }

  /** A name missing the axis field is refused. */
  lemma {:induction false} ExampleMissingAxis()
    ensures ParseBaseName("SR_DE_N=14_J=-1.00_h=1.20_theta=0").Failure?
  {
    var s := "SR_DE_N=14_J=-1.00_h=1.20_theta=0";
    assert s[|s| - 1] == '0';
    if ParseFields(s).Some? {
      ParseSound(s);
      RenderEndsWithAxis(ParseFields(s).value);
      assert false;
    }
  }
}
