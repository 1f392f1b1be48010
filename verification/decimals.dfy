/** Which texts `Double.parseDouble` accepts as a temperature, and with what
    value: signed decimals with or without a point and a type letter are read
    as tenths; any other character refuses the text. */
module Decimals {
  import opened Wrappers
  import opened Text
  import opened Numbers

  /** A text ending in neither padding nor a type letter, with a type suffix
      of at most one letter after it, parses as the text alone. */
  lemma {:induction false} ParseTenthsSuffix(body: string, suffix: string)
    requires |body| >= 1 && !Blank(body[0]) && !Blank(body[|body| - 1])
    requires body[|body| - 1] !in "dDfF"
    requires suffix == "" || (|suffix| == 1 && suffix[0] in "dDfF")
    ensures ParseTenths(body + suffix) == ParseDecimal(body)
  {
    var s := body + suffix;
    assert s[0] == body[0];
    assert !Blank(s[|s| - 1]);
    TrimUnpadded(s);
    if suffix != "" {
      assert s[..|s| - 1] == body;
    } else {
      assert s == body;
    }
  }

  /** An optional sign in front of a text that starts with a digit or '.'. */
  lemma {:induction false} SignedCore(sign: string, core: string)
    requires sign == "" || sign == "+" || sign == "-"
    requires |core| >= 1 && (IsDigit(core[0]) || core[0] == '.')
    ensures var s := sign + core;
            && |s| >= 1 && Unsigned(s) == core && (s[0] == '-' <==> sign == "-")
            && !Blank(s[0]) && s[|s| - 1] == core[|core| - 1]
  {
    var s := sign + core;
    if sign == "" {
      assert s == core;
    } else {
      assert s[0] == sign[0] && s[1..] == core;
    }
  }

  /** A digit or '.' is neither padding nor a type letter. */
  lemma EndOfCore(c: char)
    requires IsDigit(c) || c == '.'
    ensures !Blank(c) && c !in "dDfF"
  {
  }

  lemma {:induction false} FieldsAroundPoint(w: string, f: string)
    requires AllDigits(w) && AllDigits(f)
    ensures Fields(w + "." + f, '.') == [w, f]
  {
    NotInDigits(w, '.');
    NotInDigits(f, '.');
    FieldsConcat(w, f, '.');
    FieldsOfPiece(w, '.');
    FieldsOfPiece(f, '.');
  }

  /** A sign-free decimal's tenths, read through its sign. */
  lemma {:induction false} DecimalOfCore(body: string, core: string, neg: bool)
    requires |body| >= 1 && Unsigned(body) == core && (body[0] == '-' <==> neg)
    ensures ParseDecimal(body) == match TenthsOf(Fields(core, '.'))
                                 case None => None
                                 case Some(v) => Some(if neg then -(v as int) else v as int)
  {
  }

  /** A signed core followed by a type letter or none parses as the signed
      core alone. */
  lemma {:induction false} SuffixedParse(sign: string, core: string, suffix: string, body: string, text: string)
    requires sign == "" || sign == "+" || sign == "-"
    requires |core| >= 1 && (IsDigit(core[0]) || core[0] == '.')
    requires IsDigit(core[|core| - 1]) || core[|core| - 1] == '.'
    requires suffix == "" || (|suffix| == 1 && suffix[0] in "dDfF")
    requires body == sign + core
    requires text == body + suffix
    ensures ParseTenths(text) == ParseDecimal(body)
  {
    SignedCore(sign, core);
    EndOfCore(core[|core| - 1]);
    ParseTenthsSuffix(body, suffix);
  }

  /** The signed core's value is the core's tenths, negated under '-'. */
  lemma {:induction false} SignedDecimal(sign: string, core: string, body: string, r: Option<nat>)
    requires sign == "" || sign == "+" || sign == "-"
    requires |core| >= 1 && (IsDigit(core[0]) || core[0] == '.')
    requires body == sign + core
    requires TenthsOf(Fields(core, '.')) == r
    ensures r.None? ==> ParseDecimal(body) == None
    ensures r.Some? ==> ParseDecimal(body) == Some(if sign == "-" then -(r.value as int) else r.value as int)
  {
    SignedCore(sign, core);
    DecimalOfCore(body, core, sign == "-");
  }

  /** `parseDouble` of a signed core of digits and '.' with a type letter or
      none: the core's tenths, negated under '-'. */
  lemma {:induction false} SignedParse(sign: string, core: string, suffix: string, text: string, r: Option<nat>)
    requires sign == "" || sign == "+" || sign == "-"
    requires |core| >= 1 && (IsDigit(core[0]) || core[0] == '.')
    requires IsDigit(core[|core| - 1]) || core[|core| - 1] == '.'
    requires suffix == "" || (|suffix| == 1 && suffix[0] in "dDfF")
    requires text == sign + core + suffix
    requires TenthsOf(Fields(core, '.')) == r
    ensures r.None? ==> ParseTenths(text) == None
    ensures r.Some? ==> ParseTenths(text) == Some(if sign == "-" then -(r.value as int) else r.value as int)
  {
    var body := sign + core;
    SuffixedParse(sign, core, suffix, body, text);
    SignedDecimal(sign, core, body, r);
  }

  lemma {:induction false} TenthsOfPoint(w: string, f: string)
    requires AllDigits(w) && AllDigits(f) && |w| + |f| >= 1
    ensures |f| > 0 && !AllZeros(f[1..]) ==> TenthsOf([w, f]) == None
    ensures f == [] ==> TenthsOf([w, f]) == Some(10 * DigitsValue(w))
    ensures |f| > 0 && AllZeros(f[1..]) ==> TenthsOf([w, f]) == Some(10 * DigitsValue(w) + DigitsValue(f[..1]))
  {
    if |f| > 0 && !AllZeros(f[1..]) {
      PointAccepted(w, f);
    } else if |f| == 0 {
      PointWithoutDecimals(w, f);
    } else {
      PointFirstDecimal(w, f);
    }
  }

  lemma PointAccepted(w: string, f: string)
    requires AllDigits(w) && AllDigits(f) && |w| + |f| >= 1
    ensures TenthsOf([w, f]).Some? <==> !(|f| > 0 && !AllZeros(f[1..]))
  {
  }

  lemma PointWithoutDecimals(w: string, f: string)
    requires AllDigits(w) && |w| >= 1 && f == ""
    ensures TenthsOf([w, f]) == Some(10 * DigitsValue(w))
  {
  }

  lemma PointFirstDecimal(w: string, f: string)
    requires AllDigits(w) && AllDigits(f) && |f| > 0 && AllZeros(f[1..])
    ensures TenthsOf([w, f]) == Some(10 * DigitsValue(w) + DigitsValue(f[..1]))
  {
  }

  /** Digits around a point start and end with a digit or the point. */
  lemma {:induction false} PointCore(w: string, f: string, core: string)
    requires AllDigits(w) && AllDigits(f) && core == w + "." + f
    ensures |core| >= 1 && (IsDigit(core[0]) || core[0] == '.')
    ensures IsDigit(core[|core| - 1]) || core[|core| - 1] == '.'
  {
    assert core[0] == (if |w| > 0 then w[0] else '.');
    assert core[|core| - 1] == (if |f| > 0 then f[|f| - 1] else '.');
  }

  lemma {:induction false} Regroup(sign: string, w: string, f: string, suffix: string)
    ensures sign + w + "." + f + suffix == sign + (w + "." + f) + suffix
  {
  }

  /** The tenths of digits around a point, with the point's text parsed
      through its sign and type letter. */
  lemma {:induction false} PointParse(sign: string, w: string, f: string, suffix: string, text: string, r: Option<nat>)
    requires sign == "" || sign == "+" || sign == "-"
    requires AllDigits(w) && AllDigits(f)
    requires suffix == "" || (|suffix| == 1 && suffix[0] in "dDfF")
    requires text == sign + w + "." + f + suffix
    requires TenthsOf([w, f]) == r
    ensures r.None? ==> ParseTenths(text) == None
    ensures r.Some? ==> ParseTenths(text) == Some(if sign == "-" then -(r.value as int) else r.value as int)
  {
    var core := w + "." + f;
    PointCore(w, f, core);
    Regroup(sign, w, f, suffix);
    FieldsAroundPoint(w, f);
    SignedParse(sign, core, suffix, text, r);
  }

  /** The parse of a point's text, in terms of its digits. */
  lemma {:induction false} PointValue(sign: string, w: string, f: string, text: string)
    requires AllDigits(w) && AllDigits(f) && |w| + |f| >= 1
    requires TenthsOf([w, f]).None? ==> ParseTenths(text) == None
    requires TenthsOf([w, f]).Some? ==>
               ParseTenths(text) == Some(if sign == "-" then -(TenthsOf([w, f]).value as int) else TenthsOf([w, f]).value as int)
    ensures |f| > 0 && !AllZeros(f[1..]) ==> ParseTenths(text) == None
    ensures var v: int := 10 * DigitsValue(w) + (if |f| > 0 then DigitsValue(f[..1]) else 0);
            !(|f| > 0 && !AllZeros(f[1..])) ==> ParseTenths(text) == Some(if sign == "-" then -v else v)
  {
    TenthsOfPoint(w, f);
  }

  /** `parseDouble` of a signed decimal `text` with a point: digits on at
      least one side, and an optional type letter. It is refused exactly when
      a digit after the first decimal is not zero; otherwise it is the tenths
      its digits denote, negated under '-'. "36.6", "+36.60d" and "37." are
      accepted; "36.65" is refused. */
  lemma {:induction false} ParseTenthsAccepts(sign: string, w: string, f: string, suffix: string, text: string)
    requires sign == "" || sign == "+" || sign == "-"
    requires AllDigits(w) && AllDigits(f) && |w| + |f| >= 1
    requires suffix == "" || (|suffix| == 1 && suffix[0] in "dDfF")
    requires text == sign + w + "." + f + suffix
    ensures |f| > 0 && !AllZeros(f[1..]) ==> ParseTenths(text) == None
    ensures var v: int := 10 * DigitsValue(w) + (if |f| > 0 then DigitsValue(f[..1]) else 0);
            !(|f| > 0 && !AllZeros(f[1..])) ==> ParseTenths(text) == Some(if sign == "-" then -v else v)
  {
    PointParse(sign, w, f, suffix, text, TenthsOf([w, f]));
    PointValue(sign, w, f, text);
  }

  /** `parseDouble` of a signed whole number `text`, with an optional type
      letter: ten tenths per unit. "37" and "-5d" are accepted. */
  lemma {:induction false} ParseTenthsWhole(sign: string, w: string, suffix: string, text: string)
    requires sign == "" || sign == "+" || sign == "-"
    requires |w| >= 1 && AllDigits(w)
    requires suffix == "" || (|suffix| == 1 && suffix[0] in "dDfF")
    requires text == sign + w + suffix
    ensures var v: int := 10 * DigitsValue(w);
            ParseTenths(text) == Some(if sign == "-" then -v else v)
  {
    WholeTenths(w);
    SignedParse(sign, w, suffix, text, TenthsOf(Fields(w, '.')));
  }

  lemma {:induction false} WholeTenths(w: string)
    requires |w| >= 1 && AllDigits(w)
    ensures TenthsOf(Fields(w, '.')) == Some(10 * DigitsValue(w))
  {
    NotInDigits(w, '.');
    FieldsOfPiece(w, '.');
    assert TenthsOf([w]) == Some(10 * DigitsValue(w));
  }

  /** Whatever `parseDouble` accepts here is, once trimmed and without its
      sign and type letter, made of digits and '.' only: exponents, letters,
      "NaN" and "Infinity" are all refused. */
  lemma ParseTenthsShape(s: string)
    requires ParseTenths(s).Some?
    ensures forall c :: c in Unsigned(DropTypeSuffix(Trim(s))) ==> IsDigit(c) || c == '.'
  {
    var u := Unsigned(DropTypeSuffix(Trim(s)));
    var ps := Fields(u, '.');
    assert TenthsOf(ps).Some?;
    JoinFields(u, '.');
    if |ps| == 2 {
      assert ps[1..] == [ps[1]];
      assert u == ps[0] + "." + ps[1];
    } else {
      assert u == ps[0];
    }
  }
}
