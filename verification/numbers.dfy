/** Decimal text for Java `int`s and for temperatures held in tenths of a
    degree: `Integer.toString`/`%d`, `Integer.parseInt`, `%.1f` and the part of
    `Double.parseDouble` that the wire format exercises. */
module Numbers {
  import opened Wrappers
  import opened Text

  const MinInt: int := -0x8000_0000
  const MaxInt: int := 0x7fff_ffff

  /** Java's 32-bit `int`. */
  type Int32 = x: int | MinInt <= x <= MaxInt

  predicate IsDigit(c: char) {
    '0' <= c <= '9'
  }

  predicate AllDigits(s: string) {
    forall i :: 0 <= i < |s| ==> IsDigit(s[i])
  }

  function DigitChar(d: int): (c: char)
    requires 0 <= d < 10
    ensures IsDigit(c)
  {
    ('0' as int + d) as char
  }

  /** The number a run of decimal digits denotes (leading zeros allowed). */
  function DigitsValue(s: string): nat
    requires AllDigits(s)
    decreases |s|
  {
    if |s| == 0 then 0 else 10 * DigitsValue(s[..|s| - 1]) + (s[|s| - 1] as int - '0' as int)
  }

  /** The decimal digits of `n`, most significant first, without leading zeros;
      reading them back gives `n`. */
  function NatText(n: nat): (r: string)
    ensures |r| >= 1 && AllDigits(r)
    ensures r[0] == '0' ==> n == 0
    ensures DigitsValue(r) == n
    decreases n
  {
    if n < 10 then [DigitChar(n)]
    else
      var r := NatText(n / 10) + [DigitChar(n % 10)];
      assert r[..|r| - 1] == NatText(n / 10);
      r
  }

  /** `Integer.toString(n)`, which is also what `%d` prints. */
  function IntText(n: int): (r: string)
    ensures |r| >= 1
    ensures forall i :: 0 <= i < |r| ==> IsDigit(r[i]) || (i == 0 && r[i] == '-')
    ensures r[|r| - 1] != '-'
  {
    if n < 0 then "-" + NatText(-n) else NatText(n)
  }

  /** The digits `Integer.parseInt` reads: `s` without its one optional sign. */
  function Unsigned(s: string): string
  {
    if |s| > 0 && (s[0] == '-' || s[0] == '+') then s[1..] else s
  }

  /** `Integer.parseInt(s)`: an optional sign and at least one ASCII digit, the
      value within the 32-bit range; `None` where Java throws
      `NumberFormatException`. */
  function ParseInt(s: string): (r: Option<Int32>)
    ensures r.Some? ==> |Unsigned(s)| >= 1 && AllDigits(Unsigned(s))
    ensures r.Some? ==> (r.value < 0 ==> s[0] == '-')
    ensures r.Some? && s[0] == '-' ==> r.value <= 0
  {
    var digits := Unsigned(s);
    if |digits| == 0 || !AllDigits(digits) then None
    else
      var n: int := DigitsValue(digits);
      var v := if s[0] == '-' then -n else n;
      if MinInt <= v <= MaxInt then Some(v) else None
  }

  /** `parseInt` reads back exactly the numbers `toString` writes, and refuses
      those outside the 32-bit range. */
  lemma ParseIntText(n: int)
    ensures ParseInt(IntText(n)) == if MinInt <= n <= MaxInt then Some(n) else None
  {
    var s := IntText(n);
    if n < 0 {
      assert s[1..] == NatText(-n);
    } else {
      assert Unsigned(s) == s;
    }
  }

  /** A run of digits with a non-zero first digit denotes a positive number. */
  lemma {:induction false} DigitsValuePositive(d: string)
    requires |d| >= 1 && AllDigits(d) && d[0] != '0'
    ensures DigitsValue(d) > 0
    decreases |d|
  {
    if |d| > 1 {
      DigitsValuePositive(d[..|d| - 1]);
    }
  }

  /** `toString` writes back a run of digits that has no leading zero. */
  lemma {:induction false} NatTextOfDigits(d: string)
    requires |d| >= 1 && AllDigits(d) && (d[0] == '0' ==> |d| == 1)
    ensures NatText(DigitsValue(d)) == d
    decreases |d|
  {
    var k := |d| - 1;
    if k == 0 {
      assert DigitsValue(d) == d[0] as int - '0' as int;
    } else {
      var p := d[..k];
      DigitsValuePositive(p);
      NatTextOfDigits(p);
      var n := DigitsValue(d);
      assert n / 10 == DigitsValue(p) && n % 10 == d[k] as int - '0' as int;
      assert d == p + [d[k]];
    }
  }

  /** `parseInt` takes every optionally signed run of digits, whatever its
      leading zeros, and refuses it only when the value leaves the 32-bit
      range. */
  lemma ParseIntAccepts(sign: string, digits: string)
    requires sign == "" || sign == "+" || sign == "-"
    requires |digits| >= 1 && AllDigits(digits)
    ensures var v: int := if sign == "-" then -(DigitsValue(digits) as int) else DigitsValue(digits);
            && (MinInt <= v <= MaxInt ==> ParseInt(sign + digits).Some? && ParseInt(sign + digits).value == v)
            && (v < MinInt || MaxInt < v ==> ParseInt(sign + digits).None?)
  {
    var s := sign + digits;
    if sign == "" {
      assert s == digits && Unsigned(s) == digits;
      assert s[0] != '-';
    } else {
      assert s[0] == sign[0] && s[1..] == digits;
    }
  }

  /** The converse of `ParseIntText`: a text `parseInt` accepts is exactly
      what `toString` writes for its value, unless it carries a '+', a
      leading zero, or is "-0". */
  lemma ParseIntCanonical(s: string)
    requires ParseInt(s).Some?
    requires s[0] != '+' && s != "-0"
    requires Unsigned(s)[0] == '0' ==> |Unsigned(s)| == 1
    ensures IntText(ParseInt(s).value) == s
  {
    var d := Unsigned(s);
    NatTextOfDigits(d);
    if s[0] == '-' {
      assert s == "-" + d;
      if d[0] != '0' {
        DigitsValuePositive(d);
      }
    }
  }

  /* ---------------------------------------------------------------------- */
  /* Temperatures in tenths of a degree                                      */
  /* ---------------------------------------------------------------------- */

  /** `String.format("%.1f", t / 10.0)` with '.' as decimal separator: the
      temperature `t`, counted in tenths, printed with one decimal. */
  function TenthsText(t: int): (r: string)
    ensures |r| >= 3 && IsDigit(r[|r| - 1]) && r[|r| - 2] == '.'
    ensures IsDigit(r[0]) || r[0] == '-'
    ensures forall i :: 0 <= i < |r| ==> IsDigit(r[i]) || r[i] == '.' || r[i] == '-'
    ensures forall i :: 0 <= i < |r| ==> (r[i] == '.' <==> i == |r| - 2)
    ensures forall i :: 0 < i < |r| ==> r[i] != '-'
  {
    var a := if t < 0 then -t else t;
    (if t < 0 then "-" else "") + NatText(a / 10) + "." + [DigitChar(a % 10)]
  }

  predicate AllZeros(s: string) {
    forall i :: 0 <= i < |s| ==> s[i] == '0'
  }

  /** `s` without a final Java float type suffix `d`, `D`, `f` or `F`. */
  function DropTypeSuffix(s: string): string
  {
    if |s| > 0 && s[|s| - 1] in "dDfF" then s[..|s| - 1] else s
  }

  /** The tenths that the unsigned pieces of a decimal text around '.' denote:
      digits on at least one side, at most one '.', and no non-zero digit after
      the first decimal. */
  function TenthsOf(pieces: seq<string>): (r: Option<nat>)
    requires |pieces| >= 1
    ensures r.Some? ==> |pieces| <= 2 && AllDigits(pieces[0])
    ensures r.Some? && |pieces| == 2 ==> AllDigits(pieces[1])
  {
    var whole := pieces[0];
    var frac := if |pieces| == 2 then pieces[1] else "";
    if |pieces| > 2 || !AllDigits(whole) || !AllDigits(frac) || |whole| + |frac| == 0
       || (|frac| > 0 && !AllZeros(frac[1..]))
    then None
    else Some(10 * DigitsValue(whole) + (if |frac| > 0 then DigitsValue(frac[..1]) else 0))
  }

  /** A trimmed decimal text without type suffix, with its optional sign. */
  function ParseDecimal(t: string): (r: Option<int>)
    ensures r.Some? ==> t != []
  {
    if |t| == 0 then None
    else match TenthsOf(Fields(Unsigned(t), '.'))
      case None => None
      case Some(v) => var n: int := v; Some(if t[0] == '-' then -n else n)
  }

  /** `Double.parseDouble(s)` for decimal texts whose value is a whole number
      of tenths: the text is trimmed, may carry a sign and a type suffix, and
      has digits on at least one side of an optional '.'; further fractional
      digits must be zeros. Every other text gives `None`. */
  function ParseTenths(s: string): (r: Option<int>)
    ensures r.Some? ==> Trim(s) != []
  {
    ParseDecimal(DropTypeSuffix(Trim(s)))
  }

  /** `parseDouble` trims its argument first, so padding never matters. */
  lemma ParseTenthsTrims(s: string)
    ensures ParseTenths(Trim(s)) == ParseTenths(s)
  {
    TrimIdempotent(s);
  }

  /** A whole part, '.', and one decimal digit. */
  lemma TenthsOfDigits(w: string, c: char)
    requires AllDigits(w) && IsDigit(c)
    ensures TenthsOf([w, [c]]) == Some(10 * DigitsValue(w) + (c as int - '0' as int))
  {
    assert [c][..1] == [c];
    assert [c][..0] == [];
    assert [c][1..] == [];
  }

  /** A character that is not a digit does not occur in a run of digits. */
  lemma NotInDigits(w: string, x: char)
    requires AllDigits(w) && !IsDigit(x)
    ensures x !in w
  {
    assert forall i :: 0 <= i < |w| ==> w[i] != x;
  }

  lemma DecimalFields(w: string, c: char)
    requires AllDigits(w) && IsDigit(c)
    ensures Fields(w + "." + [c], '.') == [w, [c]]
  {
    NotInDigits(w, '.');
    FieldsConcat(w, [c], '.');
    FieldsOfPiece(w, '.');
    FieldsOfPiece([c], '.');
  }

  /** A text with no padding and no type suffix parses as its digits around
      '.' denote, negated when it starts with '-'. */
  lemma ParseTenthsBare(s: string, v: nat)
    requires |s| >= 1
    requires !Blank(s[0])
    requires !Blank(s[|s| - 1])
    requires s[|s| - 1] !in "dDfF"
    requires TenthsOf(Fields(Unsigned(s), '.')) == Some(v)
    ensures ParseTenths(s) == Some(if s[0] == '-' then -(v as int) else v as int)
  {
    TrimUnpadded(s);
  }

  /** The digits of a text as `%.1f` prints it, cut at the '.', denote its tenths. */
  lemma DecimalTenths(w: string, c: char, body: string)
    requires |w| >= 1 && AllDigits(w) && IsDigit(c)
    requires body == w + "." + [c]
    ensures TenthsOf(Fields(body, '.')) == Some(10 * DigitsValue(w) + (c as int - '0' as int))
  {
    DecimalFields(w, c);
    TenthsOfDigits(w, c);
  }

  /** `TenthsText` as a sign in front of the unsigned text of `|t|`. */
  lemma TenthsTextSplit(t: int, body: string)
    requires var a := if t < 0 then -t else t;
             body == NatText(a / 10) + "." + [DigitChar(a % 10)]
    ensures TenthsText(t) == if t < 0 then "-" + body else body
    ensures |body| >= 1 && IsDigit(body[0])
  {
    var a := if t < 0 then -t else t;
    assert body[0] == NatText(a / 10)[0];
  }

  /** A sign in front of a text that starts with a digit is what `Unsigned`
      removes. */
  lemma UnsignedSigned(neg: bool, body: string, s: string)
    requires |body| >= 1 && IsDigit(body[0])
    requires s == if neg then "-" + body else body
    ensures Unsigned(s) == body && (s[0] == '-' <==> neg)
  {
    if neg {
      assert s[1..] == body;
    }
  }

  lemma TenthsTextPieces(t: int)
    ensures var s := TenthsText(t);
            (s[0] == '-' <==> t < 0)
            && TenthsOf(Fields(Unsigned(s), '.')) == Some(if t < 0 then -t else t)
  {
    var a := if t < 0 then -t else t;
    var w := NatText(a / 10);
    var c := DigitChar(a % 10);
    var body := w + "." + [c];
    DecimalTenths(w, c, body);
    TenthsTextSplit(t, body);
    UnsignedSigned(t < 0, body, TenthsText(t));
  }

  /** The one-decimal text of a temperature parses back to that temperature. */
  lemma ParseTenthsText(t: int)
    ensures ParseTenths(TenthsText(t)) == Some(t)
  {
    var s := TenthsText(t);
    TenthsTextPieces(t);
    ParseTenthsBare(s, if t < 0 then -t else t);
  }
}
