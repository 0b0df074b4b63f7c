/**
 * The Python `str` operations the tool relies on, over `seq<char>`:
 * `split` on one character, `' '.join`, `strip`, `replace`, `upper`,
 * `rfind`, prefix slicing `s[:k]`, `startswith`/`endswith`, `in`, and
 * the decimal conversions `int(s)` and `str(n)`.
 */
module PyStr {
  import opened Wrappers

  /** `c.isspace()`; Python's `re` class `\s` matches exactly these characters too. */
  predicate IsSpace(c: char) {
    c == ' ' || ('\t' <= c <= '\r') || ('\U{1c}' <= c <= '\U{1f}')
    || c == '\U{85}' || c == '\U{a0}' || c == '\U{1680}' || ('\U{2000}' <= c <= '\U{200a}')
    || c == '\U{2028}' || c == '\U{2029}' || c == '\U{202f}' || c == '\U{205f}' || c == '\U{3000}'
  }

  /** `s.count(c)` for a single character. */
  function CountChar(s: string, c: char): nat {
    if s == [] then 0 else (if s[0] == c then 1 else 0) + CountChar(s[1..], c)
  }

  lemma CountCharZero(s: string, c: char)
    ensures CountChar(s, c) == 0 <==> c !in s
  {
    if s != [] {
      CountCharZero(s[1..], c);
      assert s == [s[0]] + s[1..];
    }
  }

  /** Counting distributes over concatenation. */
  lemma {:induction false} CountCharAppend(a: string, b: string, c: char)
    ensures CountChar(a + b, c) == CountChar(a, c) + CountChar(b, c)
    decreases |a|
  {
    if a != [] {
      assert (a + b)[1..] == a[1..] + b;
      CountCharAppend(a[1..], b, c);
    } else {
      assert a + b == b;
    }
  }

  predicate StartsWith(s: string, prefix: string) {
    |prefix| <= |s| && s[..|prefix|] == prefix
  }

  predicate EndsWith(s: string, suffix: string) {
    |suffix| <= |s| && s[|s| - |suffix|..] == suffix
  }

  /** `sub in s`: `sub` occurs in `s` as a contiguous piece (the empty string occurs everywhere). */
  predicate Contains(s: string, sub: string)
    decreases |s|
  {
    StartsWith(s, sub) || (|s| > 0 && Contains(s[1..], sub))
  }

  /** `s.split(sep)` for a one-character separator: never empty, one more piece than separators. */
  function Split(s: string, sep: char): (parts: seq<string>)
    ensures |parts| == CountChar(s, sep) + 1
    ensures forall i :: 0 <= i < |parts| ==> sep !in parts[i]
  {
    if s == [] then [""]
    else
      var rest := Split(s[1..], sep);
      if s[0] == sep then [""] + rest
      else [[s[0]] + rest[0]] + rest[1..]
  }

  /** `sep.join(parts)` for a one-character separator. */
  function Join(parts: seq<string>, sep: char): (s: string)
    ensures |parts| > 0 ==> StartsWith(s, parts[0]) && |s| >= |parts| - 1
    ensures |parts| > 0 ==> CountChar(s, sep) >= |parts| - 1
    ensures (forall i :: 0 <= i < |parts| ==> sep !in parts[i]) ==> CountChar(s, sep) == if |parts| == 0 then 0 else |parts| - 1
  {
    if |parts| == 0 then ""
    else if |parts| == 1 then
      CountCharZero(parts[0], sep);
      parts[0]
    else
      var rest := Join(parts[1..], sep);
      CountCharAppend(parts[0] + [sep], rest, sep);
      CountCharAppend(parts[0], [sep], sep);
      CountCharZero(parts[0], sep);
      parts[0] + [sep] + rest
  }

  /** Joining the pieces of a split gives back the original text. */
  lemma {:induction false} JoinSplit(s: string, sep: char)
    ensures Join(Split(s, sep), sep) == s
  {
    if s != [] {
      var rest := Split(s[1..], sep);
      JoinSplit(s[1..], sep);
      if s[0] == sep {
        assert ([""] + rest)[1..] == rest;
      } else if |rest| == 1 {
      } else {
        var parts := [[s[0]] + rest[0]] + rest[1..];
        assert parts[1..] == rest[1..];
        assert Join(rest, sep) == rest[0] + [sep] + Join(rest[1..], sep);
      }
    }
  }

  lemma {:induction false} SplitWithoutSep(s: string, sep: char)
    requires sep !in s
    ensures Split(s, sep) == [s]
  {
    if s != [] {
      SplitWithoutSep(s[1..], sep);
      assert [s[0]] + s[1..] == s;
    }
  }

  /** A separator-free prefix glues onto the first piece of what follows it. */
  lemma {:induction false} SplitPrefix(a: string, t: string, sep: char)
    requires sep !in a
    ensures Split(a + t, sep) == [a + Split(t, sep)[0]] + Split(t, sep)[1..]
  {
    if a != [] {
      SplitPrefix(a[1..], t, sep);
      assert (a + t)[1..] == a[1..] + t;
      assert (a + t)[0] == a[0];
      assert [a[0]] + (a[1..] + Split(t, sep)[0]) == a + Split(t, sep)[0];
    } else {
      var parts := Split(t, sep);
      assert a + t == t;
      assert a + parts[0] == parts[0];
      assert parts == [parts[0]] + parts[1..];
    }
  }

  /** A separator-free piece followed by the separator splits off as one field. */
  lemma SplitField(a: string, rest: string, sep: char)
    requires sep !in a
    ensures Split(a + [sep] + rest, sep) == [a] + Split(rest, sep)
  {
    SplitPrefix(a, [sep] + rest, sep);
    assert ([sep] + rest)[1..] == rest;
    assert a + [sep] + rest == a + ([sep] + rest);
    assert a + "" == a;
  }

  /** A character that is not the separator and occurs in no piece does not occur in the join. */
  lemma {:induction false} JoinExcludes(parts: seq<string>, sep: char, c: char)
    requires c != sep && forall i :: 0 <= i < |parts| ==> c !in parts[i]
    ensures c !in Join(parts, sep)
    decreases |parts|
  {
    if |parts| > 1 {
      assert forall i :: 0 <= i < |parts[1..]| ==> parts[1..][i] == parts[i + 1];
      JoinExcludes(parts[1..], sep, c);
    }
  }

  /** Splitting a join gives back the pieces when no piece contains the separator. */
  lemma {:induction false} SplitJoin(parts: seq<string>, sep: char)
    requires |parts| > 0
    requires forall i :: 0 <= i < |parts| ==> sep !in parts[i]
    ensures Split(Join(parts, sep), sep) == parts
  {
    if |parts| == 1 {
      SplitWithoutSep(parts[0], sep);
    } else {
      var tail := Join(parts[1..], sep);
      SplitJoin(parts[1..], sep);
      assert Join(parts, sep) == parts[0] + ([sep] + tail);
      SplitPrefix(parts[0], [sep] + tail, sep);
      assert ([sep] + tail)[1..] == tail;
      assert Split([sep] + tail, sep) == [""] + parts[1..];
      assert parts[0] + "" == parts[0];
      assert parts == [parts[0]] + parts[1..];
    }
  }

  /** The last piece of a split is a suffix of the text. */
  lemma {:induction false} SplitLastIsSuffix(s: string, sep: char)
    ensures EndsWith(s, Split(s, sep)[|Split(s, sep)| - 1])
  {
    if s != [] {
      var rest := Split(s[1..], sep);
      SplitLastIsSuffix(s[1..], sep);
      if s[0] != sep && |rest| == 1 {
        JoinSplit(s[1..], sep);
        assert [s[0]] + s[1..] == s;
      }
    }
  }

  /** Whatever precedes the last separator, the last piece is what follows it. */
  lemma {:induction false} SplitLastAfterSep(s: string, t: string, sep: char)
    requires sep !in t
    ensures var parts := Split(s + [sep] + t, sep); parts[|parts| - 1] == t
    decreases |s|
  {
    SplitWithoutSep(t, sep);
    if s == [] {
      assert s + [sep] + t == [sep] + t;
      assert ([sep] + t)[1..] == t;
    } else {
      var u := s[1..] + [sep] + t;
      assert s + [sep] + t == [s[0]] + u;
      assert ([s[0]] + u)[1..] == u;
      SplitLastAfterSep(s[1..], t, sep);
      assert sep in u by {
        assert u[|s| - 1] == sep;
      }
      CountCharZero(u, sep);
      assert |Split(u, sep)| >= 2;
    }
  }

  /** `s.lstrip()`. */
  function LStrip(s: string): (r: string)
    ensures EndsWith(s, r)
    ensures r == [] || !IsSpace(r[0])
    ensures forall i :: 0 <= i < |s| - |r| ==> IsSpace(s[i])
  {
    if |s| > 0 && IsSpace(s[0]) then LStrip(s[1..]) else s
  }

  /** `s.rstrip()`. */
  function RStrip(s: string): (r: string)
    ensures StartsWith(s, r)
    ensures r == [] || !IsSpace(r[|r| - 1])
    ensures forall i :: |r| <= i < |s| ==> IsSpace(s[i])
  {
    if |s| > 0 && IsSpace(s[|s| - 1]) then RStrip(s[..|s| - 1]) else s
  }

  /** `r` sits in `s` at offset `k` with nothing but white space around it. */
  predicate SpaceFramed(s: string, r: string, k: int) {
    0 <= k <= |s| - |r| && s[k..k + |r|] == r
    && (forall i :: 0 <= i < k ==> IsSpace(s[i]))
    && (forall i :: k + |r| <= i < |s| ==> IsSpace(s[i]))
  }

  /** `s.strip()`: the text between the leading and the trailing white space. */
  function Strip(s: string): (r: string)
    ensures r == [] || (!IsSpace(r[0]) && !IsSpace(r[|r| - 1]))
    ensures exists k :: SpaceFramed(s, r, k)
  {
    var l := LStrip(s);
    var r := RStrip(l);
    var k := |s| - |l|;
    assert s[k..] == l;
    assert s[k..k + |r|] == l[..|r|];
    assert SpaceFramed(s, r, k);
    r
  }

  /** `s.replace(pat, repl)` for a non-empty pattern: non-overlapping, left to right. */
  function Replace(s: string, pat: string, repl: string): (r: string)
    requires pat != []
    ensures !Contains(s, pat) ==> r == s
    decreases |s|
  {
    if |s| < |pat| then s
    else if s[..|pat|] == pat then repl + Replace(s[|pat|..], pat, repl)
    else [s[0]] + Replace(s[1..], pat, repl)
  }

  /** A prefix that cannot start the pattern is copied unchanged. */
  lemma {:induction false} ReplaceSkips(a: string, t: string, pat: string, repl: string)
    requires pat != [] && pat[0] !in a
    ensures Replace(a + t, pat, repl) == a + Replace(t, pat, repl)
    decreases |a|
  {
    if a != [] {
      assert (a + t)[1..] == a[1..] + t;
      assert (a + t)[0] == a[0];
      ReplaceSkips(a[1..], t, pat, repl);
      if |a + t| >= |pat| {
        assert (a + t)[..|pat|][0] == a[0];
      } else {
        assert Replace(a[1..] + t, pat, repl) == a[1..] + t;
        assert Replace(t, pat, repl) == t;
      }
    } else {
      assert a + t == t;
    }
  }

  /** An occurrence at the front becomes `repl`, and the scan resumes after it, so occurrences never overlap. */
  lemma ReplaceAtMatch(t: string, pat: string, repl: string)
    requires pat != []
    ensures Replace(pat + t, pat, repl) == repl + Replace(t, pat, repl)
  {
    assert (pat + t)[..|pat|] == pat;
    assert (pat + t)[|pat|..] == t;
  }

  /** Replacing a one-character pattern by nothing removes every occurrence of it. */
  lemma {:induction false} ReplaceRemovesChar(s: string, c: char)
    ensures c !in Replace(s, [c], "")
    decreases |s|
  {
    if |s| >= 1 {
      ReplaceRemovesChar(s[1..], c);
    }
  }

  /** Python's upper-case mapping, restricted to ASCII letters. */
  function UpperChar(c: char): char {
    if 'a' <= c <= 'z' then (c as int - 32) as char else c
  }

  /** `s.upper()` (ASCII letters only). */
  function Upper(s: string): (r: string)
    ensures |r| == |s|
    ensures forall i :: 0 <= i < |s| ==> r[i] == UpperChar(s[i])
  {
    if s == [] then [] else [UpperChar(s[0])] + Upper(s[1..])
  }

  /** `upper()` leaves no lower-case ASCII letter, and adds no character that is not a letter. */
  lemma UpperKeepsOut(s: string, c: char)
    requires c !in s && !('A' <= c <= 'Z')
    ensures c !in Upper(s)
    ensures forall i :: 0 <= i < |Upper(s)| ==> !('a' <= Upper(s)[i] <= 'z')
  {
    var r := Upper(s);
    forall i | 0 <= i < |r|
      ensures r[i] != c && !('a' <= r[i] <= 'z')
    {
      assert r[i] == UpperChar(s[i]);
    }
  }

  /** `s.rfind(c)`: the last index holding `c`, or -1. */
  function RFind(s: string, c: char): (k: int)
    ensures -1 <= k < |s|
    ensures k == -1 <==> c !in s
    ensures k >= 0 ==> s[k] == c && c !in s[k + 1..]
  {
    if s == [] then -1
    else if s[|s| - 1] == c then |s| - 1
    else
      var init := s[..|s| - 1];
      var k := RFind(init, c);
      assert s == init + [s[|s| - 1]];
      assert k >= 0 ==> s[k + 1..] == init[k + 1..] + [s[|s| - 1]];
      k
  }

  /** `s[:k]`: Python slicing of a prefix, where a negative bound counts from the end. */
  function SliceTo(s: string, k: int): (r: string)
    ensures StartsWith(s, r)
    ensures 0 <= k <= |s| ==> |r| == k
    ensures -|s| <= k < 0 ==> |r| == |s| + k
    ensures k > |s| ==> r == s
    ensures k < -|s| ==> r == ""
  {
    if k >= 0 then s[..if k <= |s| then k else |s|]
    else if -k <= |s| then s[..|s| + k]
    else ""
  }

  predicate IsDigit(c: char) {
    '0' <= c <= '9'
  }

  predicate AllDigits(s: string) {
    forall i :: 0 <= i < |s| ==> IsDigit(s[i])
  }

  /** The value of a string of decimal digits. */
  function DigitsValue(s: string): nat
    requires AllDigits(s)
  {
    if s == [] then 0 else DigitsValue(s[..|s| - 1]) * 10 + (s[|s| - 1] as int - '0' as int)
  }

  lemma DigitsValueSnoc(s: string, d: char)
    requires AllDigits(s) && IsDigit(d)
    ensures AllDigits(s + [d]) && DigitsValue(s + [d]) == DigitsValue(s) * 10 + (d as int - '0' as int)
  {
    assert (s + [d])[..|s|] == s;
  }

  /** `str(n)` for a natural number: decimal digits, no leading zero except for 0 itself. */
  function NatToDecimal(n: nat): (s: string)
    ensures |s| > 0 && AllDigits(s)
    ensures |s| > 1 ==> s[0] != '0'
    decreases n
  {
    var d := ['0' + (n % 10) as char];
    if n < 10 then d else NatToDecimal(n / 10) + d
  }

  /** `str(n)` for any integer. */
  function IntToDecimal(n: int): string {
    if n < 0 then "-" + NatToDecimal(-n) else NatToDecimal(n)
  }

  /** Reading back the decimal form of `n` gives `n`. */
  lemma {:induction false} DecimalRoundTrip(n: nat)
    ensures DigitsValue(NatToDecimal(n)) == n
    decreases n
  {
    var s := NatToDecimal(n);
    if n >= 10 {
      DecimalRoundTrip(n / 10);
      assert s[..|s| - 1] == NatToDecimal(n / 10);
    }
  }

  /** A non-empty run of ASCII digits and its value. */
  function ParseDigits(d: string): (r: Option<nat>)
    ensures r.Some? <==> |d| > 0 && AllDigits(d)
  {
    if |d| > 0 && AllDigits(d) then Some(DigitsValue(d)) else None
  }

  /** Digits after one optional sign. */
  function ParseSigned(t: string): Option<int> {
    if |t| > 0 && t[0] == '-' then
      match ParseDigits(t[1..])
      case None => None
      case Some(v) => var n: int := v; Some(-n)
    else if |t| > 0 && t[0] == '+' then
      match ParseDigits(t[1..])
      case None => None
      case Some(v) => Some(v)
    else
      match ParseDigits(t)
      case None => None
      case Some(v) => Some(v)
  }

  /**
   * `int(s)` on text: surrounding white space and one optional sign are
   * accepted around a non-empty run of ASCII digits; anything else is the
   * `ValueError` Python raises, here `None`.
   */
  function ParseInt(s: string): (r: Option<int>)
    ensures r.Some? ==> Strip(s) != ""
  {
    ParseSigned(Strip(s))
  }

  /** A plain run of digits parses to its value. */
  lemma ParseIntDigits(d: string)
    requires |d| > 0 && AllDigits(d)
    ensures ParseInt(d) == Some(DigitsValue(d))
  {
    assert IsDigit(d[0]) && IsDigit(d[|d| - 1]);
    assert [] + d == d;
    StripLeading([], d);
    assert d[0] != '-' && d[0] != '+';
  }

  /** Leading white space before a text that does not start with white space is stripped away. */
  lemma {:induction false} LStripSpaces(w: string, m: string)
    requires forall i :: 0 <= i < |w| ==> IsSpace(w[i])
    requires |m| > 0 && !IsSpace(m[0])
    ensures LStrip(w + m) == m
    decreases |w|
  {
    if w == [] {
      assert w + m == m;
    } else {
      assert (w + m)[1..] == w[1..] + m;
      LStripSpaces(w[1..], m);
    }
  }

  /** `strip()` removes white space before a text whose ends are not white space. */
  lemma StripLeading(w: string, m: string)
    requires forall i :: 0 <= i < |w| ==> IsSpace(w[i])
    requires |m| > 0 && !IsSpace(m[0]) && !IsSpace(m[|m| - 1])
    ensures Strip(w + m) == m
  {
    LStripSpaces(w, m);
    assert RStrip(m) == m;
  }

  /** The ASCII lower-case mapping `float()` applies to `inf` and `nan`. */
  function LowerChar(c: char): char {
    if 'A' <= c <= 'Z' then (c as int + 32) as char else c
  }

  predicate SameIgnoringCase(t: string, word: string) {
    |t| == |word| && forall i :: 0 <= i < |t| ==> LowerChar(t[i]) == word[i]
  }

  /** Where the exponent marker `e` or `E` sits, or the length when there is none. */
  function ExponentAt(t: string): (k: nat)
    ensures k <= |t|
    ensures k == |t| <==> 'e' !in t && 'E' !in t
  {
    var e := if RFind(t, 'e') > RFind(t, 'E') then RFind(t, 'e') else RFind(t, 'E');
    if e < 0 then |t| else e
  }

  /** Digits with at most one point and at least one digit. */
  predicate IsMantissa(m: string) {
    var d := RFind(m, '.');
    if d < 0 then |m| > 0 && AllDigits(m)
    else AllDigits(m[..d]) && AllDigits(m[d + 1..]) && (d > 0 || d + 1 < |m|)
  }

  /** An exponent after the marker: one optional sign and at least one digit. */
  predicate IsExponent(u: string) {
    var v := if |u| > 0 && (u[0] == '+' || u[0] == '-') then u[1..] else u;
    |v| > 0 && AllDigits(v)
  }

  predicate IsDecimalFloat(t: string) {
    var k := ExponentAt(t);
    IsMantissa(t[..k]) && (k == |t| || IsExponent(t[k + 1..]))
  }

  /**
   * The texts `float()` accepts: surrounding white space, one optional
   * sign, then `inf`, `infinity` or `nan` in any case, or a decimal
   * mantissa with an optional exponent.
   */
  predicate IsFloatText(s: string) {
    var t := Strip(s);
    var body := if |t| > 0 && (t[0] == '+' || t[0] == '-') then t[1..] else t;
    SameIgnoringCase(body, "inf") || SameIgnoringCase(body, "infinity") || SameIgnoringCase(body, "nan")
    || IsDecimalFloat(body)
  }

  /** `float('')` raises ValueError. */
  lemma EmptyNotFloat()
    ensures !IsFloatText("")
  {
    var t := Strip("");
    assert t == "";
    assert !SameIgnoringCase(t, "inf") && !SameIgnoringCase(t, "infinity") && !SameIgnoringCase(t, "nan");
    assert ExponentAt(t) == 0;
    assert !IsMantissa(t[..0]);
  }

  /** Digits, a point and digits form a decimal mantissa without exponent. */
  lemma DecimalMantissa(a: string, b: string)
    requires |a| > 0 && AllDigits(a) && AllDigits(b)
    ensures IsDecimalFloat(a + ['.'] + b)
  {
    var m := a + ['.'] + b;
    assert 'e' !in m && 'E' !in m by {
      forall i | 0 <= i < |m|
        ensures m[i] != 'e' && m[i] != 'E'
      {
        if i < |a| { assert m[i] == a[i]; } else if i > |a| { assert m[i] == b[i - |a| - 1]; }
      }
    }
    var d := RFind(m, '.');
    assert m[|a|] == '.';
    assert d == |a|;
    assert m[..d] == a && m[d + 1..] == b;
    assert m[..ExponentAt(m)] == m;
  }

  /** White space, digits, a point and digits: the form of a percentage, which `float()` accepts. */
  lemma DecimalIsFloat(w: string, a: string, b: string)
    requires forall i :: 0 <= i < |w| ==> IsSpace(w[i])
    requires |a| > 0 && AllDigits(a) && AllDigits(b)
    ensures IsFloatText(w + a + ['.'] + b)
  {
    var m := a + ['.'] + b;
    assert m[0] == a[0] && m[|m| - 1] != ' ';
    assert w + a + ['.'] + b == w + m;
    StripLeading(w, m);
    DecimalMantissa(a, b);
  }
}
