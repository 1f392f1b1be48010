/** The few `java.lang.String` operations the codec and the command parser rely
    on, over `string` = `seq<char>` (one `char` per UTF-16 code unit of the
    texts involved). */
module Text {

  /** Java's `s.startsWith(p)`: `p` agrees with `s` character by character
      over its whole length. */
  function StartsWith(s: string, p: string): (b: bool)
    ensures b ==> |p| <= |s| && forall i :: 0 <= i < |p| ==> s[i] == p[i]
  {
    |p| <= |s| && s[..|p|] == p
  }

  /* ---------------------------------------------------------------------- */
  /* replace(p, "")                                                          */
  /* ---------------------------------------------------------------------- */

  /** Java's `s.replace(p, "")` for a non-empty `p`: the occurrences of `p`
      found scanning from left to right, without overlap, are deleted. */
  function RemoveAll(s: string, p: string): (r: string)
    requires p != []
    ensures |r| <= |s|
    ensures forall c :: c in r ==> c in s
    decreases |s|
  {
    if |s| == 0 then []
    else if StartsWith(s, p) then RemoveAll(s[|p|..], p)
    else [s[0]] + RemoveAll(s[1..], p)
  }

  /** A prefix that cannot start an occurrence of `p` passes through untouched. */
  lemma {:induction false} RemoveAllKeepsPrefix(a: string, t: string, p: string)
    requires p != [] && p[0] !in a
    ensures RemoveAll(a + t, p) == a + RemoveAll(t, p)
    decreases |a|
  {
    if a == [] {
      assert a + t == t;
    } else {
      assert (a + t)[0] == a[0];
      assert (a + t)[1..] == a[1..] + t;
      RemoveAllKeepsPrefix(a[1..], t, p);
      assert a == [a[0]] + a[1..];
    }
  }

  /** A text that never contains the first character of `p` is unchanged. */
  lemma RemoveAllNoOccurrence(a: string, p: string)
    requires p != [] && p[0] !in a
    ensures RemoveAll(a, p) == a
  {
    RemoveAllKeepsPrefix(a, [], p);
    assert a + [] == a;
  }

  /** An occurrence of `p` glued between two texts that cannot start one is
      cut out wherever it sits: `"7bpm2".replace("bpm", "") == "72"`. */
  lemma RemoveAllCutsUnit(a: string, b: string, p: string)
    requires p != [] && p[0] !in a && p[0] !in b
    ensures RemoveAll(a + p + b, p) == a + b
  {
    assert a + p + b == a + (p + b);
    RemoveAllKeepsPrefix(a, p + b, p);
    assert (p + b)[..|p|] == p;
    assert (p + b)[|p|..] == b;
    RemoveAllNoOccurrence(b, p);
  }

  /** Every occurrence of `p` is cut, however many there are: removing `p`
      from the join of pieces that cannot start one leaves the pieces
      glued together. */
  lemma {:induction false} RemoveAllJoin(pieces: seq<string>, p: string)
    requires p != []
    requires forall i :: 0 <= i < |pieces| ==> p[0] !in pieces[i]
    ensures RemoveAll(Join(pieces, p), p) == Join(pieces, "")
    decreases |pieces|
  {
    if |pieces| == 0 {
    } else if |pieces| == 1 {
      RemoveAllNoOccurrence(pieces[0], p);
    } else {
      var rest := Join(pieces[1..], p);
      RemoveAllJoin(pieces[1..], p);
      assert Join(pieces, p) == pieces[0] + (p + rest);
      RemoveAllKeepsPrefix(pieces[0], p + rest, p);
      assert (p + rest)[..|p|] == p && (p + rest)[|p|..] == rest;
      assert Join(pieces, "") == pieces[0] + Join(pieces[1..], "");
    }
  }

  /** A character that neither the pieces nor the separator hold is not in
      their join. */
  lemma {:induction false} NotInJoin(pieces: seq<string>, sep: string, c: char)
    requires c !in sep
    requires forall i :: 0 <= i < |pieces| ==> c !in pieces[i]
    ensures c !in Join(pieces, sep)
    decreases |pieces|
  {
    if |pieces| > 1 {
      NotInJoin(pieces[1..], sep, c);
    }
  }

  /* ---------------------------------------------------------------------- */
  /* split and join                                                          */
  /* ---------------------------------------------------------------------- */

  /** Every piece of `s` between two occurrences of `sep`, empty pieces
      included; `JoinFields` shows that nothing is lost. */
  function Fields(s: string, sep: char): (r: seq<string>)
    ensures |r| >= 1
    ensures forall i :: 0 <= i < |r| ==> sep !in r[i]
    decreases |s|
  {
    if |s| == 0 then [""]
    else
      var rest := Fields(s[1..], sep);
      if s[0] == sep then [""] + rest else [[s[0]] + rest[0]] + rest[1..]
  }

  /** Java's `String.join(sep, parts)`: the first part opens the result, the
      last part closes it, and a separator stands between each pair. */
  function Join(parts: seq<string>, sep: string): (r: string)
    ensures |parts| >= 1 ==> StartsWith(r, parts[0])
  {
    if |parts| == 0 then ""
    else if |parts| == 1 then parts[0]
    else parts[0] + sep + Join(parts[1..], sep)
  }

  lemma JoinCons(parts: seq<string>, sep: string)
    requires |parts| >= 2
    ensures Join(parts, sep) == parts[0] + sep + Join(parts[1..], sep)
  {
  }

  /** The trailing empty strings of `parts` removed. */
  function DropTrailingEmpty(parts: seq<string>): (r: seq<string>)
    ensures |r| <= |parts| && r == parts[..|r|]
    ensures r == [] || r[|r| - 1] != ""
    ensures forall i :: |r| <= i < |parts| ==> parts[i] == ""
  {
    if |parts| > 0 && parts[|parts| - 1] == "" then DropTrailingEmpty(parts[..|parts| - 1])
    else parts
  }

  /** Java's `s.split(sep)` for a one-character separator that is not a regular
      expression metacharacter: the pieces between separators with the trailing
      empty ones discarded, or `[s]` itself when `sep` does not occur. */
  function Split(s: string, sep: char): (r: seq<string>)
    ensures forall i :: 0 <= i < |r| ==> sep !in r[i]
    ensures sep !in s ==> r == [s]
    ensures sep in s ==> r == [] || r[|r| - 1] != ""
  {
    if sep !in s then [s] else DropTrailingEmpty(Fields(s, sep))
  }

  lemma {:induction false} FieldsOfPiece(a: string, sep: char)
    requires sep !in a
    ensures Fields(a, sep) == [a]
    decreases |a|
  {
    if a != [] {
      FieldsOfPiece(a[1..], sep);
      assert a == [a[0]] + a[1..];
    }
  }

  /** A separator splits the fields of its two sides apart. */
  lemma {:induction false} FieldsConcat(a: string, b: string, sep: char)
    ensures Fields(a + [sep] + b, sep) == Fields(a, sep) + Fields(b, sep)
    decreases |a|
  {
    var s := a + [sep] + b;
    if a == [] {
      assert s[0] == sep && s[1..] == b;
    } else {
      assert s[0] == a[0];
      assert s[1..] == a[1..] + [sep] + b;
      FieldsConcat(a[1..], b, sep);
    }
  }

  /** Splitting a join gives the parts back when no part holds the separator. */
  lemma {:induction false} FieldsJoin(parts: seq<string>, sep: char)
    requires |parts| >= 1
    requires forall i :: 0 <= i < |parts| ==> sep !in parts[i]
    ensures Fields(Join(parts, [sep]), sep) == parts
    decreases |parts|
  {
    if |parts| == 1 {
      FieldsOfPiece(parts[0], sep);
    } else {
      FieldsJoin(parts[1..], sep);
      FieldsOfPiece(parts[0], sep);
      FieldsConcat(parts[0], Join(parts[1..], [sep]), sep);
      assert parts == [parts[0]] + parts[1..];
    }
  }

  lemma JoinConsHead(x: string, y: string, tail: seq<string>, sep: string)
    ensures Join([x + y] + tail, sep) == x + Join([y] + tail, sep)
  {
    var l := [x + y] + tail;
    var m := [y] + tail;
    assert l[1..] == tail && m[1..] == tail;
  }

  /** Joining the fields of `s` with the separator gives `s` back. */
  lemma {:induction false} JoinFields(s: string, sep: char)
    ensures Join(Fields(s, sep), [sep]) == s
    decreases |s|
  {
    if |s| > 0 {
      var rest := Fields(s[1..], sep);
      JoinFields(s[1..], sep);
      if s[0] == sep {
        if |rest| == 1 {
          assert Join(rest, [sep]) == rest[0];
        }
        assert ([""] + rest)[1..] == rest;
      } else {
        assert rest == [rest[0]] + rest[1..];
        JoinConsHead([s[0]], rest[0], rest[1..], [sep]);
      }
      assert s == [s[0]] + s[1..];
    }
  }

  /** `s.split(sep)` undoes the join of parts that do not hold the separator,
      provided the last part is not empty (Java would drop it). */
  lemma SplitJoin(parts: seq<string>, sep: char)
    requires |parts| >= 1 && parts[|parts| - 1] != ""
    requires forall i :: 0 <= i < |parts| ==> sep !in parts[i]
    ensures Split(Join(parts, [sep]), sep) == parts
  {
    FieldsJoin(parts, sep);
    var s := Join(parts, [sep]);
    if sep !in s {
      FieldsOfPiece(s, sep);
    }
  }

  /* ---------------------------------------------------------------------- */
  /* trim and toLowerCase                                                    */
  /* ---------------------------------------------------------------------- */

  /** The characters `String.trim` strips: code point at most U+0020. */
  predicate Blank(c: char) {
    c <= ' '
  }

  /** The number of blank characters `s` starts with. */
  function LeadingBlanks(s: string): (n: nat)
    ensures n <= |s|
    decreases |s|
  {
    if |s| == 0 || !Blank(s[0]) then 0 else 1 + LeadingBlanks(s[1..])
  }

  /** The number of blank characters `s` ends with. */
  function TrailingBlanks(s: string): (n: nat)
    ensures n <= |s|
    decreases |s|
  {
    if |s| == 0 || !Blank(s[|s| - 1]) then 0 else 1 + TrailingBlanks(s[..|s| - 1])
  }

  lemma {:induction false} LeadingBlanksSpec(s: string)
    ensures forall k :: 0 <= k < LeadingBlanks(s) ==> Blank(s[k])
    ensures LeadingBlanks(s) < |s| ==> !Blank(s[LeadingBlanks(s)])
    decreases |s|
  {
    if |s| > 0 && Blank(s[0]) {
      LeadingBlanksSpec(s[1..]);
    }
  }

  lemma {:induction false} TrailingBlanksSpec(s: string)
    ensures forall k :: |s| - TrailingBlanks(s) <= k < |s| ==> Blank(s[k])
    ensures TrailingBlanks(s) < |s| ==> !Blank(s[|s| - 1 - TrailingBlanks(s)])
    decreases |s|
  {
    if |s| > 0 && Blank(s[|s| - 1]) {
      TrailingBlanksSpec(s[..|s| - 1]);
    }
  }

  /** `r` is `s` from index `i` on, with only blank characters cut off on
      either side. */
  predicate PaddedBy(s: string, r: string, i: int) {
    && 0 <= i <= |s| - |r|
    && r == s[i..i + |r|]
    && (forall k :: 0 <= k < i ==> Blank(s[k]))
    && (forall k :: i + |r| <= k < |s| ==> Blank(s[k]))
  }

  /** Java's `s.trim()`. */
  function Trim(s: string): (r: string)
    ensures |r| <= |s|
    ensures r == [] || (!Blank(r[0]) && !Blank(r[|r| - 1]))
  {
    var i := LeadingBlanks(s);
    var u := s[i..];
    LeadingBlanksSpec(s);
    TrailingBlanksSpec(u);
    assert |u| - TrailingBlanks(u) > 0 ==> s[|s| - TrailingBlanks(u) - 1] == u[|u| - 1 - TrailingBlanks(u)];
    s[i..|s| - TrailingBlanks(s[i..])]
  }

  /** `trim` cuts only blanks, from both ends, and stops at the first
      character that is not blank on each side. */
  lemma TrimSpec(s: string)
    ensures var r := Trim(s);
            && (r == [] || (!Blank(r[0]) && !Blank(r[|r| - 1])))
            && exists i :: PaddedBy(s, r, i)
  {
    var i := LeadingBlanks(s);
    var u := s[i..];
    var j := |s| - TrailingBlanks(u);
    LeadingBlanksSpec(s);
    TrailingBlanksSpec(u);
    var r := s[i..j];
    assert r == Trim(s);
    assert forall k :: j <= k < |s| ==> Blank(s[k]) by {
      forall k | j <= k < |s| ensures Blank(s[k]) {
        assert s[k] == u[k - i];
      }
    }
    assert r != [] ==> !Blank(r[0]) && !Blank(r[|r| - 1]) by {
      if r != [] {
        assert r[0] == s[i];
        assert r[|r| - 1] == u[|u| - 1 - TrailingBlanks(u)];
      }
    }
    assert PaddedBy(s, r, i);
  }

  /** A text with no blank character at either end is its own trim. */
  lemma TrimUnpadded(s: string)
    requires s == [] || (!Blank(s[0]) && !Blank(s[|s| - 1]))
    ensures Trim(s) == s
  {
    assert LeadingBlanks(s) == 0;
    assert s[0..] == s;
    assert TrailingBlanks(s) == 0;
  }

  lemma TrimIdempotent(s: string)
    ensures Trim(Trim(s)) == Trim(s)
  {
    TrimSpec(s);
    TrimUnpadded(Trim(s));
  }

  predicate IsUpper(c: char) {
    'A' <= c <= 'Z'
  }

  /** ASCII lower case; every other character is left alone. */
  function Lower(c: char): char {
    if IsUpper(c) then (c as int + 32) as char else c
  }

  /** `s.toLowerCase()` restricted to ASCII letters: no capital is left, a
      capital becomes the letter 32 code points above it ('A' to 'a'), and
      every other character stays where and what it was. */
  function ToLower(s: string): (r: string)
    ensures |r| == |s|
    ensures forall i :: 0 <= i < |r| ==> !IsUpper(r[i])
    ensures forall i :: 0 <= i < |s| && !IsUpper(s[i]) ==> r[i] == s[i]
    ensures forall i :: 0 <= i < |s| && IsUpper(s[i]) ==> r[i] as int == s[i] as int + ('a' as int - 'A' as int)
  {
    seq(|s|, i requires 0 <= i < |s| => Lower(s[i]))
  }

  /** Lower-casing an already lower-cased text changes nothing. */
  lemma ToLowerIdempotent(s: string)
    ensures ToLower(ToLower(s)) == ToLower(s)
  {
  }

  /** Lower-casing commutes with cutting a text in two. */
  lemma ToLowerConcat(a: string, b: string)
    ensures ToLower(a + b) == ToLower(a) + ToLower(b)
  {
  }
}
