/**
 * The string operations of JavaScript (and one of Python) that the rest of
 * the model is written with: decimal rendering of integers, `padStart`,
 * `Array.prototype.join`, `substring`, `startsWith` and `includes`.
 */
module Text {

  predicate IsDigit(c: char) {
    '0' <= c <= '9'
  }

  predicate AllDigits(s: string) {
    forall i :: 0 <= i < |s| ==> IsDigit(s[i])
  }

  function DigitChar(d: int): (c: char)
    requires 0 <= d < 10
    ensures IsDigit(c) && c as int - '0' as int == d
  {
    ('0' as int + d) as char
  }

  /** `String(n)` for a non-negative integer below 10^21. */
  function NatToString(n: nat): (s: string)
    ensures 1 <= |s| && AllDigits(s)
    ensures s[0] == '0' ==> n == 0 && s == "0"
  {
    if n < 10 then [DigitChar(n)] else NatToString(n / 10) + [DigitChar(n % 10)]
  }

  /** `Number(s)` for a string of decimal digits. */
  function DigitsValue(s: string): nat
    requires AllDigits(s)
  {
    if s == [] then 0 else DigitsValue(s[..|s| - 1]) * 10 + (s[|s| - 1] as int - '0' as int)
  }

  /** Reading back a rendered integer gives the integer. */
  lemma {:induction false} DigitsValueOfNatToString(n: nat)
    ensures DigitsValue(NatToString(n)) == n
  {
    if n >= 10 {
      var s := NatToString(n);
      assert s[..|s| - 1] == NatToString(n / 10);
      DigitsValueOfNatToString(n / 10);
    }
  }

  lemma NatToStringInjective(a: nat, b: nat)
    requires NatToString(a) == NatToString(b)
    ensures a == b
  {
    DigitsValueOfNatToString(a);
    DigitsValueOfNatToString(b);
  }

  /** `String(i)` for an integer of magnitude below 10^21. */
  function IntToString(i: int): (s: string)
    ensures 1 <= |s|
    ensures i >= 0 ==> AllDigits(s)
    ensures i < 0 ==> s[0] == '-' && AllDigits(s[1..])
  {
    if i < 0 then "-" + NatToString(-i) else NatToString(i)
  }

  /** `s.padStart(width, fill)` with a one-character fill. */
  function PadStart(s: string, width: nat, fill: char): (r: string)
    ensures |r| == if |s| >= width then |s| else width
    ensures r[|r| - |s|..] == s
    ensures forall i :: 0 <= i < |r| - |s| ==> r[i] == fill
  {
    if |s| >= width then s else seq(width - |s|, _ => fill) + s
  }

  /** The number of decimal digits of n is bounded by its magnitude. */
  lemma {:induction false} NatToStringLength(n: nat)
    ensures n < 10 ==> |NatToString(n)| == 1
    ensures n < 100 ==> |NatToString(n)| <= 2
    ensures n < 1000 ==> |NatToString(n)| <= 3
    ensures n < 10000 ==> |NatToString(n)| <= 4
  {
    if n >= 10 {
      NatToStringLength(n / 10);
    }
  }

  /** Leading zeros do not change the value of a digit string. */
  lemma {:induction false} DigitsValueLeadingZeros(k: nat, s: string)
    requires AllDigits(s)
    ensures AllDigits(seq(k, _ => '0') + s)
    ensures DigitsValue(seq(k, _ => '0') + s) == DigitsValue(s)
    decreases |s|, k
  {
    var t := seq(k, _ => '0') + s;
    if s == [] {
      assert t == seq(k, _ => '0');
      if k > 0 {
        assert t[..|t| - 1] == seq(k - 1, _ => '0') + [];
        DigitsValueLeadingZeros(k - 1, []);
      }
    } else {
      var init := s[..|s| - 1];
      assert t[..|t| - 1] == seq(k, _ => '0') + init;
      DigitsValueLeadingZeros(k, init);
    }
  }

  /** `String(n).padStart(4, "0")`, the four-digit year of a timestamp. */
  function Pad4(n: nat): (s: string)
    ensures n < 10000 ==> |s| == 4 && AllDigits(s) && DigitsValue(s) == n
  {
    NatToStringLength(n);
    DigitsValueOfNatToString(n);
    var d := NatToString(n);
    if |d| >= 4 then d
    else
      DigitsValueLeadingZeros(4 - |d|, d);
      PadStart(d, 4, '0')
  }

  /** `String(n).padStart(2, "0")`. */
  function Pad2(n: nat): (s: string)
    ensures n < 100 ==> |s| == 2 && AllDigits(s) && DigitsValue(s) == n
  {
    var r := PadStart(NatToString(n), 2, '0');
    if n < 100 then
      if n < 10 then
        assert r == ['0', DigitChar(n)];
        assert r[..1] == ['0'] && r[..1][..0] == [];
        assert DigitsValue(r[..1]) == 0;
        r
      else
        assert NatToString(n) == [DigitChar(n / 10), DigitChar(n % 10)];
        assert r[..1] == [DigitChar(n / 10)];
        r
    else r
  }

  /** `parts.join(sep)`. */
  function Join(parts: seq<string>, sep: string): string {
    if |parts| == 0 then ""
    else if |parts| == 1 then parts[0]
    else parts[0] + sep + Join(parts[1..], sep)
  }

  /** Joining a concatenation of two non-empty lists joins the two joins. */
  lemma {:induction false} JoinAppend(a: seq<string>, b: seq<string>, sep: string)
    requires |a| > 0 && |b| > 0
    ensures Join(a + b, sep) == Join(a, sep) + sep + Join(b, sep)
  {
    if |a| == 1 {
      assert (a + b)[1..] == b;
    } else {
      assert (a + b)[1..] == a[1..] + b;
      JoinAppend(a[1..], b, sep);
    }
  }

  /** `rows.flat()`: the rows concatenated in order. */
  function Flatten<T>(rows: seq<seq<T>>): seq<T> {
    if |rows| == 0 then [] else rows[0] + Flatten(rows[1..])
  }

  /** Every row has w elements. */
  predicate Uniform<T>(rows: seq<seq<T>>, w: nat) {
    forall i :: 0 <= i < |rows| ==> |rows[i]| == w
  }

  lemma {:induction false} FlattenLength<T>(rows: seq<seq<T>>, w: nat)
    requires Uniform(rows, w)
    ensures |Flatten(rows)| == w * |rows|
  {
    if |rows| > 0 {
      var tail := rows[1..];
      FlattenLength(tail, w);
      assert w * |rows| == w * |tail| + w;
    }
  }

  lemma {:induction false} FlattenAt<T>(rows: seq<seq<T>>, w: nat, i: nat, j: nat)
    requires Uniform(rows, w) && i < |rows| && j < w
    ensures w * i + j < |Flatten(rows)| && Flatten(rows)[w * i + j] == rows[i][j]
  {
    FlattenLength(rows, w);
    var tail := rows[1..];
    if i > 0 {
      FlattenAt(tail, w, i - 1, j);
      assert w * i + j == w + (w * (i - 1) + j);
      assert rows[i] == tail[i - 1];
    }
  }

  /** Flattening rows of width w puts element j of row i at index w * i + j. */
  lemma FlattenUniform<T>(rows: seq<seq<T>>, w: nat)
    requires Uniform(rows, w)
    ensures |Flatten(rows)| == w * |rows|
    ensures forall i, j :: 0 <= i < |rows| && 0 <= j < w ==>
      w * i + j < |Flatten(rows)| && Flatten(rows)[w * i + j] == rows[i][j]
  {
    var flat := Flatten(rows);
    forall i, j | 0 <= i < |rows| && 0 <= j < w
      ensures w * i + j < |flat| && flat[w * i + j] == rows[i][j]
    {
      FlattenAt(rows, w, i, j);
    }
    FlattenLength(rows, w);
  }

  /** `s.substring(start, end)` for 0 <= start <= end: both bounds clamped to the length. */
  function Substring(s: string, start: nat, end: nat): (r: string)
    requires start <= end
    ensures |r| <= end - start
    ensures end <= |s| ==> r == s[start..end]
  {
    var e := if end <= |s| then end else |s|;
    var b := if start <= e then start else e;
    s[b..e]
  }

  predicate StartsWith(s: string, prefix: string) {
    |prefix| <= |s| && s[..|prefix|] == prefix
  }

  /** True when t occurs as a contiguous part of s. */
  predicate Contains(s: string, t: string) {
    exists i, j :: 0 <= i <= j <= |s| && s[i..j] == t
  }

  /** Two fields around a one-character separator, as in "MM/DD" or "HH:mm". */
  function Fields(a: string, sep: char, b: string): string {
    a + [sep] + b
  }

  lemma FieldsSlices(a: string, sep: char, b: string)
    requires |a| == 2 && |b| == 2
    ensures var s := Fields(a, sep, b);
      |s| == 5 && s[..2] == a && s[2] == sep && s[3..] == b
  {
    var s := Fields(a, sep, b);
    assert s[..2] == a;
    assert s[3..] == b;
  }

  /** Ordinal (code unit) comparison: a sorts strictly before b. */
  predicate LexLess(a: string, b: string)
    decreases |a|
  {
    if |a| == 0 then |b| > 0
    else if |b| == 0 then false
    else if a[0] != b[0] then a[0] < b[0]
    else LexLess(a[1..], b[1..])
  }

  lemma {:induction false} LexLessTotal(a: string, b: string)
    ensures a == b || LexLess(a, b) || LexLess(b, a)
    ensures !(LexLess(a, b) && LexLess(b, a)) && !LexLess(a, a)
    decreases |a|
  {
    if |a| > 0 && |b| > 0 && a[0] == b[0] {
      LexLessTotal(a[1..], b[1..]);
      if a[1..] == b[1..] {
        assert a == [a[0]] + a[1..] && b == [b[0]] + b[1..];
      }
    }
    if |a| > 0 {
      LexLessTotal(a[1..], a[1..]);
    }
  }

  lemma {:induction false} LexLessTransitive(a: string, b: string, c: string)
    requires LexLess(a, b) && LexLess(b, c)
    ensures LexLess(a, c)
    decreases |a|
  {
    if |a| > 0 && a[0] == b[0] && b[0] == c[0] {
      LexLessTransitive(a[1..], b[1..], c[1..]);
    }
  }

  /** With equal-length prefixes, the prefixes are compared first. */
  lemma {:induction false} LexLessAppend(p: string, q: string, p2: string, q2: string)
    requires |p| == |p2|
    ensures LexLess(p + q, p2 + q2) <==> LexLess(p, p2) || (p == p2 && LexLess(q, q2))
    decreases |p|
  {
    if |p| > 0 {
      assert (p + q)[1..] == p[1..] + q;
      assert (p2 + q2)[1..] == p2[1..] + q2;
      LexLessAppend(p[1..], q, p2[1..], q2);
      if p[0] == p2[0] && p[1..] == p2[1..] {
        assert p == [p[0]] + p[1..] && p2 == [p2[0]] + p2[1..];
      }
    } else {
      assert p + q == q && p2 + q2 == q2;
    }
  }

  lemma TwoDigitValue(s: string)
    requires |s| == 2 && AllDigits(s)
    ensures DigitsValue(s) == (s[0] as int - '0' as int) * 10 + (s[1] as int - '0' as int)
  {
    var init := s[..1];
    assert init[..0] == [];
    assert DigitsValue(init) == s[0] as int - '0' as int;
  }

  /** The only two-digit text of value zero is "00". */
  lemma TwoDigitZero(s: string)
    requires |s| == 2 && AllDigits(s) && DigitsValue(s) == 0
    ensures s == "00"
  {
    TwoDigitValue(s);
  }

  /** On two-digit strings, ordinal order is numeric order and equality is equal value. */
  lemma TwoDigitOrder(s: string, t: string)
    requires |s| == 2 && |t| == 2 && AllDigits(s) && AllDigits(t)
    ensures LexLess(s, t) <==> DigitsValue(s) < DigitsValue(t)
    ensures s == t <==> DigitsValue(s) == DigitsValue(t)
  {
    TwoDigitValue(s);
    TwoDigitValue(t);
    assert s[1..][0] == s[1] && t[1..][0] == t[1];
    assert s[1..][1..] == [] && t[1..][1..] == [];
    assert LexLess(s[1..], t[1..]) == (s[1] < t[1]);
    assert LexLess(s, t) == (s[0] < t[0] || (s[0] == t[0] && s[1] < t[1]));
    assert s == [s[0], s[1]] && t == [t[0], t[1]];
  }

  /**
   * Two-character fields around a separator compare first field first, and
   * are equal exactly when both fields are.
   */
  lemma FieldsOrder(p: string, q: string, p2: string, q2: string, sep: char)
    requires |p| == 2 && |q| == 2 && |p2| == 2 && |q2| == 2
    ensures LexLess(Fields(p, sep, q), Fields(p2, sep, q2)) <==> LexLess(p, p2) || (p == p2 && LexLess(q, q2))
    ensures Fields(p, sep, q) == Fields(p2, sep, q2) <==> p == p2 && q == q2
  {
    assert Fields(p, sep, q) == p + ([sep] + q);
    assert Fields(p2, sep, q2) == p2 + ([sep] + q2);
    LexLessAppend(p, [sep] + q, p2, [sep] + q2);
    assert ([sep] + q)[1..] == q && ([sep] + q2)[1..] == q2;
    FieldsSlices(p, sep, q);
    FieldsSlices(p2, sep, q2);
  }

  /** `s.split(c)` for a one-character separator: the pieces between the separators, always at least one. */
  function Split(s: string, c: char): (parts: seq<string>)
    ensures |parts| > 0
    decreases |s|
  {
    if |s| == 0 then [""]
    else
      var rest := Split(s[1..], c);
      if s[0] == c then [""] + rest else [[s[0]] + rest[0]] + rest[1..]
  }

  /** The pieces hold no separator, and joining them with it gives the string back. */
  lemma {:induction false} SplitJoin(s: string, c: char)
    ensures Join(Split(s, c), [c]) == s
    ensures forall i :: 0 <= i < |Split(s, c)| ==> c !in Split(s, c)[i]
    decreases |s|
  {
    if |s| > 0 {
      var rest := Split(s[1..], c);
      SplitJoin(s[1..], c);
      var parts := Split(s, c);
      assert s == [s[0]] + s[1..];
      if s[0] == c {
        assert parts[1..] == rest;
      } else if |rest| == 1 {
        assert parts == [[s[0]] + rest[0]];
      } else {
        assert parts[1..] == rest[1..];
        assert Join(rest, [c]) == rest[0] + [c] + Join(rest[1..], [c]);
      }
    }
  }

  /** Splitting a join of separator-free pieces gives the pieces back. */
  lemma {:induction false} JoinSplit(parts: seq<string>, c: char)
    requires |parts| > 0 && forall i :: 0 <= i < |parts| ==> c !in parts[i]
    ensures Split(Join(parts, [c]), c) == parts
    decreases |Join(parts, [c])|
  {
    var s := Join(parts, [c]);
    if parts[0] == "" {
      if |parts| > 1 {
        assert s == [c] + Join(parts[1..], [c]);
        assert s[1..] == Join(parts[1..], [c]);
        JoinSplit(parts[1..], c);
        assert parts == [""] + parts[1..];
      }
    } else {
      var a := parts[0][0];
      var tail := [parts[0][1..]] + parts[1..];
      assert parts[0] == [a] + parts[0][1..];
      if |parts| == 1 {
        assert s[1..] == Join(tail, [c]);
      } else {
        assert tail[1..] == parts[1..];
        assert s[1..] == Join(tail, [c]);
      }
      assert c !in tail[0];
      assert forall i :: 1 <= i < |tail| ==> tail[i] == parts[i];
      JoinSplit(tail, c);
      assert parts == [[a] + tail[0]] + tail[1..];
    }
  }
}
