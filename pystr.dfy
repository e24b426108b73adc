/**
 * The few Python `str` operations the proxy's parsing and filtering rely on,
 * written out with their Python meaning: `find`, `split` with a one-character
 * separator, `strip()` over a given whitespace set, `startswith`, `endswith`, ASCII
 * `lower`, and `int(s)` in base 10.
 */
module PyStr {
  import opened Wrappers

  /** `c.isspace()`: the characters `str.strip()` removes. */
  predicate IsSpace(c: char): (b: bool)
    ensures c == ' ' || c == '\t' || c == '\n' || c == '\r' ==> b
    ensures b ==> !IsDigit(c) && c != '-' && c != '+' && c != ':' && c != '/'
  {
    || ('\t' <= c <= '\r')
    || ('\U{1C}' <= c <= ' ')
    || c == '\U{85}' || c == '\U{A0}' || c == '\U{1680}'
    || ('\U{2000}' <= c <= '\U{200A}')
    || c == '\U{2028}' || c == '\U{2029}' || c == '\U{202F}'
    || c == '\U{205F}' || c == '\U{3000}'
  }

  /**
   * The whitespace `int()` skips around a number: what `isspace()` accepts,
   * except the ASCII separators U+001C to U+001F, which `int()` rejects.
   */
  predicate IntSpace(c: char): (b: bool)
    ensures b ==> IsSpace(c)
    ensures c == ' ' || c == '\t' || c == '\n' || c == '\r' ==> b
    ensures '\U{1C}' <= c <= '\U{1F}' ==> IsSpace(c) && !b
  {
    IsSpace(c) && !('\U{1C}' <= c <= '\U{1F}')
  }

  predicate IsDigit(c: char) {
    '0' <= c <= '9'
  }

  /** `pat` occurs in `s` starting at index `i`. */
  predicate OccursAt(s: string, pat: string, i: int) {
    0 <= i && i + |pat| <= |s| && s[i..i + |pat|] == pat
  }

  /** `s.find(pat)`: the lowest index where `pat` occurs, or -1. */
  function Find(s: string, pat: string): (r: int)
    ensures -1 <= r <= |s|
    ensures r >= 0 ==> OccursAt(s, pat, r)
    ensures forall j :: 0 <= j && (r == -1 || j < r) ==> !OccursAt(s, pat, j)
    decreases |s|
  {
    if |s| < |pat| then -1
    else if s[..|pat|] == pat then 0
    else
      var k := Find(s[1..], pat);
      OccursShift(s, pat);
      if k == -1 then -1 else k + 1
  }

  /** An occurrence after the first character is an occurrence in the rest, one index lower. */
  lemma OccursShift(s: string, pat: string)
    requires |s| > 0
    ensures forall j :: 1 <= j ==> (OccursAt(s, pat, j) <==> OccursAt(s[1..], pat, j - 1))
  {
    forall j | 1 <= j ensures OccursAt(s, pat, j) <==> OccursAt(s[1..], pat, j - 1) {
      if j + |pat| <= |s| {
        assert s[1..][j - 1..j - 1 + |pat|] == s[j..j + |pat|];
      }
    }
  }

  /** For a one-character pattern, `find` is the first index holding that character. */
  lemma FindChar(s: string, c: char)
    ensures Find(s, [c]) == -1 <==> c !in s
    ensures Find(s, [c]) >= 0 ==> s[Find(s, [c])] == c && c !in s[..Find(s, [c])]
  {
    var r := Find(s, [c]);
    forall j | 0 <= j < |s| ensures OccursAt(s, [c], j) <==> s[j] == c {
      assert s[j..j + 1] == [s[j]];
    }
    if r >= 0 {
      assert c !in s[..r] by {
        forall j | 0 <= j < r ensures s[..r][j] != c {
          assert !OccursAt(s, [c], j);
        }
      }
    }
  }

  /** The first index of `c` in `a + [c] + b` is `|a|` when `a` lacks `c`. */
  lemma FindCharAfter(a: string, c: char, b: string)
    requires c !in a
    ensures Find(a + [c] + b, [c]) == |a|
  {
    var s := a + [c] + b;
    FindChar(s, c);
    assert s[|a|] == c;
    assert s[..|a|] == a;
  }

  /** `s.split(sep)` for a one-character separator. */
  function Split(s: string, sep: char): (parts: seq<string>)
    ensures |parts| >= 1
    ensures forall i :: 0 <= i < |parts| ==> sep !in parts[i]
    decreases |s|
  {
    var k := Find(s, [sep]);
    FindChar(s, sep);
    if k == -1 then [s] else [s[..k]] + Split(s[k + 1..], sep)
  }

  /** `sep.join(parts)`, the inverse of `Split`. */
  function Join(parts: seq<string>, sep: char): string {
    if |parts| == 0 then ""
    else if |parts| == 1 then parts[0]
    else parts[0] + [sep] + Join(parts[1..], sep)
  }

  /** Splitting and re-joining on the same separator gives back the text. */
  lemma {:induction false} JoinSplit(s: string, sep: char)
    ensures Join(Split(s, sep), sep) == s
    decreases |s|
  {
    var k := Find(s, [sep]);
    if k != -1 {
      assert s[k..k + 1] == [sep];
      var tail := s[k + 1..];
      assert s == s[..k] + [sep] + tail;
      JoinCons(s[..k], Split(tail, sep), sep);
      JoinSplit(tail, sep);
    }
  }

  /** Joining a part in front of at least one more puts one separator between them. */
  lemma JoinCons(part: string, rest: seq<string>, sep: char)
    requires |rest| >= 1
    ensures Join([part] + rest, sep) == part + [sep] + Join(rest, sep)
  {
    assert ([part] + rest)[1..] == rest;
  }

  /** The first part ends at the first separator; there is a second part exactly when there is a separator. */
  lemma SplitFirstPart(s: string, sep: char)
    ensures var k := Find(s, [sep]);
      && (|Split(s, sep)| >= 2 <==> k != -1)
      && Split(s, sep)[0] == (if k == -1 then s else s[..k])
  {
  }

  /** Text without the separator splits into itself alone. */
  lemma SplitNone(s: string, sep: char)
    requires sep !in s
    ensures Split(s, sep) == [s]
  {
    FindChar(s, sep);
  }

  /** The first part is everything before the first separator. */
  lemma SplitFirst(a: string, sep: char, b: string)
    requires sep !in a
    ensures Split(a + [sep] + b, sep) == [a] + Split(b, sep)
  {
    var s := a + [sep] + b;
    FindCharAfter(a, sep, b);
    assert s[..|a|] == a;
    assert s[|a| + 1..] == b;
  }

  /** `a + b` splits into `a` first when `b` is empty or starts with the separator. */
  lemma SplitHead(a: string, sep: char, b: string)
    requires sep !in a
    requires b == [] || b[0] == sep
    ensures Split(a + b, sep)[0] == a
  {
    if b == [] {
      assert a + b == a;
      SplitNone(a, sep);
    } else {
      assert a + b == a + [sep] + b[1..];
      SplitFirst(a, sep, b[1..]);
    }
  }

  /** `s.lstrip()` for the whitespace `ws`: `s` from its first character outside `ws`. */
  function TrimStart(s: string, ws: char -> bool): (r: string)
    ensures |r| <= |s| && r == s[|s| - |r|..]
    ensures r == [] || !ws(r[0])
    ensures forall i :: 0 <= i < |s| - |r| ==> ws(s[i])
  {
    if |s| > 0 && ws(s[0]) then
      var r := TrimStart(s[1..], ws);
      assert forall i :: 1 <= i < |s| ==> s[i] == s[1..][i - 1];
      r
    else s
  }

  /** `s.rstrip()` for the whitespace `ws`: `s` up to its last character outside `ws`. */
  function TrimEnd(s: string, ws: char -> bool): (r: string)
    ensures |r| <= |s| && r == s[..|r|]
    ensures r == [] || !ws(r[|r| - 1])
    ensures forall i :: |r| <= i < |s| ==> ws(s[i])
  {
    if |s| > 0 && ws(s[|s| - 1]) then
      var r := TrimEnd(s[..|s| - 1], ws);
      assert forall i :: 0 <= i < |s| - 1 ==> s[i] == s[..|s| - 1][i];
      r
    else s
  }

  /**
   * `s.strip()` for the whitespace `ws`: `lstrip()`, then `rstrip()`. The
   * result neither starts nor ends in `ws`; `StripPadded` and
   * `StripAllSpace` show that it is exactly the text between the padding.
   */
  function Strip(s: string, ws: char -> bool): (r: string)
    ensures |r| <= |s|
    ensures r == [] || (!ws(r[0]) && !ws(r[|r| - 1]))
  {
    var t := TrimStart(s, ws);
    var r := TrimEnd(t, ws);
    assert r == [] || r[0] == t[0];
    r
  }

  /** `lstrip()` removes exactly a whitespace prefix in front of a non-whitespace character. */
  lemma {:induction false} TrimStartPadded(pre: string, x: string, ws: char -> bool)
    requires forall i :: 0 <= i < |pre| ==> ws(pre[i])
    requires |x| > 0 && !ws(x[0])
    ensures TrimStart(pre + x, ws) == x
    decreases |pre|
  {
    if pre == [] {
      assert pre + x == x;
    } else {
      assert (pre + x)[0] == pre[0];
      assert (pre + x)[1..] == pre[1..] + x;
      TrimStartPadded(pre[1..], x, ws);
    }
  }

  /** `rstrip()` removes exactly a whitespace suffix after a non-whitespace character. */
  lemma {:induction false} TrimEndPadded(x: string, post: string, ws: char -> bool)
    requires forall i :: 0 <= i < |post| ==> ws(post[i])
    requires |x| > 0 && !ws(x[|x| - 1])
    ensures TrimEnd(x + post, ws) == x
    decreases |post|
  {
    if post == [] {
      assert x + post == x;
    } else {
      var y := x + post;
      assert y[|y| - 1] == post[|post| - 1];
      assert y[..|y| - 1] == x + post[..|post| - 1];
      TrimEndPadded(x, post[..|post| - 1], ws);
    }
  }

  /** Text made only of whitespace strips to nothing. */
  lemma StripAllSpace(s: string, ws: char -> bool)
    requires forall i :: 0 <= i < |s| ==> ws(s[i])
    ensures Strip(s, ws) == []
  {
  }

  /** A character of `ws` appended to the text is dropped by `lstrip()` exactly when nothing else is left. */
  lemma {:induction false} TrimStartAppend(s: string, c: char, ws: char -> bool)
    ensures TrimStart(s + [c], ws) ==
      if TrimStart(s, ws) == [] && ws(c) then [] else TrimStart(s, ws) + [c]
    decreases |s|
  {
    if |s| > 0 && ws(s[0]) {
      assert (s + [c])[1..] == s[1..] + [c];
      TrimStartAppend(s[1..], c, ws);
    }
  }

  /** A trailing whitespace character is removed by `strip()`, whatever precedes it. */
  lemma StripTrailingSpace(s: string, c: char, ws: char -> bool)
    requires ws(c)
    ensures Strip(s + [c], ws) == Strip(s, ws)
  {
    TrimStartAppend(s, c, ws);
    var t := TrimStart(s, ws);
    if t != [] {
      assert (t + [c])[..|t|] == t;
    }
  }

  /** Text with no whitespace at either end is left alone by `strip()`. */
  lemma StripNoop(s: string, ws: char -> bool)
    requires s == [] || (!ws(s[0]) && !ws(s[|s| - 1]))
    ensures Strip(s, ws) == s
  {
  }

  /** `strip()` removes exactly the whitespace padding around a text that does not itself start or end with whitespace. */
  lemma StripPadded(pre: string, s: string, post: string, ws: char -> bool)
    requires forall i :: 0 <= i < |pre| ==> ws(pre[i])
    requires forall i :: 0 <= i < |post| ==> ws(post[i])
    requires |s| > 0 && !ws(s[0]) && !ws(s[|s| - 1])
    ensures Strip(pre + s + post, ws) == s
  {
    assert pre + s + post == pre + (s + post);
    assert (s + post)[0] == s[0];
    TrimStartPadded(pre, s + post, ws);
    TrimEndPadded(s, post, ws);
  }

  /** `s.startswith(prefix)`: `s` is `prefix` followed by some text. */
  function StartsWith(s: string, prefix: string): (b: bool)
    ensures b <==> exists t :: s == prefix + t
  {
    if |prefix| <= |s| && s[..|prefix|] == prefix then
      assert s == prefix + s[|prefix|..];
      true
    else
      false
  }

  /** `s.endswith(suffix)`: `s` is some text followed by `suffix`. */
  function EndsWith(s: string, suffix: string): (b: bool)
    ensures b <==> exists t :: s == t + suffix
  {
    if |suffix| <= |s| && s[|s| - |suffix|..] == suffix then
      assert s == s[..|s| - |suffix|] + suffix;
      true
    else
      false
  }

  function LowerChar(c: char): char {
    if 'A' <= c <= 'Z' then (c as int + 32) as char else c
  }

  /** `s.lower()`, restricted to ASCII letters. */
  function Lower(s: string): (r: string)
    ensures |r| == |s|
    ensures forall i :: 0 <= i < |s| ==> r[i] == LowerChar(s[i])
  {
    seq(|s|, i requires 0 <= i < |s| => LowerChar(s[i]))
  }

  /** Lower-casing twice is lower-casing once. */
  lemma LowerIdempotent(s: string)
    ensures Lower(Lower(s)) == Lower(s)
  {
  }

  /**
   * The digits `int()` accepts in base 10: ASCII digits, with single
   * underscores allowed between two digits.
   */
  predicate ValidDigits(s: string) {
    && |s| > 0 && IsDigit(s[0]) && IsDigit(s[|s| - 1])
    && (forall i :: 0 <= i < |s| ==> IsDigit(s[i]) || s[i] == '_')
    && (forall i :: 0 <= i < |s| - 1 ==> s[i] == '_' ==> s[i + 1] != '_')
  }

  function DigitValue(c: char): (d: nat)
    requires IsDigit(c)
    ensures d < 10
  {
    c as int - '0' as int
  }

  /** The value of a digit string, underscores skipped. */
  function DigitsValue(s: string): (n: nat)
    requires forall i :: 0 <= i < |s| ==> IsDigit(s[i]) || s[i] == '_'
  {
    if |s| == 0 then 0
    else if s[|s| - 1] == '_' then DigitsValue(s[..|s| - 1])
    else 10 * DigitsValue(s[..|s| - 1]) + DigitValue(s[|s| - 1])
  }

  /** An unsigned digit string: its value, or `None` when it is malformed. */
  function ParseDigits(d: string): (r: Option<int>)
    ensures r.Some? ==> |d| > 0 && IsDigit(d[0]) && r.value >= 0
  {
    if ValidDigits(d) then Some(DigitsValue(d)) else None
  }

  /** Text without surrounding whitespace: an optional sign, then the digits. */
  function ParseSigned(t: string): (r: Option<int>)
    ensures r.Some? ==>
      || (|t| > 0 && IsDigit(t[0]))
      || (|t| > 1 && (t[0] == '-' || t[0] == '+') && IsDigit(t[1]))
  {
    if |t| > 0 && t[0] == '-' then
      match ParseDigits(t[1..])
      case None => None
      case Some(n) => Some(-n)
    else if |t| > 0 && t[0] == '+' then ParseDigits(t[1..])
    else ParseDigits(t)
  }

  /**
   * `int(s)`: surrounding `IntSpace` whitespace is skipped, then an optional
   * sign and the digits; anything else raises `ValueError`, modelled as
   * `None`. A number is only ever read from text holding a digit.
   */
  function ParseInt(s: string): (r: Option<int>)
    ensures r.Some? ==> exists i :: 0 <= i < |s| && IsDigit(s[i])
  {
    var t := Strip(s, IntSpace);
    var r := ParseSigned(t);
    if r.Some? then
      var u := TrimStart(s, IntSpace);
      var k := if IsDigit(t[0]) then 0 else 1;
      assert t[k] == u[k] == s[|s| - |u| + k];
      r
    else r
  }

  function DigitChar(d: nat): char
    requires d < 10
  {
    ('0' as int + d) as char
  }

  /** `str(n)` for a natural number. */
  function Decimal(n: nat): (s: string)
    ensures |s| > 0
    ensures forall i :: 0 <= i < |s| ==> IsDigit(s[i])
  {
    if n < 10 then [DigitChar(n)] else Decimal(n / 10) + [DigitChar(n % 10)]
  }

  /** Text without a single ASCII digit, the empty text included, is not a number. */
  lemma NoDigitNoNumber(s: string)
    requires forall k :: 0 <= k < |s| ==> !IsDigit(s[k])
    ensures ParseInt(s) == None
  {
  }

  /** Every decimal numeral reads back as its value. */
  lemma {:induction false} DecimalValue(n: nat)
    ensures DigitsValue(Decimal(n)) == n
  {
    var s := Decimal(n);
    if n >= 10 {
      DecimalValue(n / 10);
      assert s[..|s| - 1] == Decimal(n / 10);
    }
  }

  /** A decimal numeral is a well-formed digit string. */
  lemma DecimalValid(n: nat)
    ensures ValidDigits(Decimal(n))
  {
  }

  /** `int(str(n)) == n`. */
  lemma ParseIntDecimal(n: nat)
    ensures ParseInt(Decimal(n)) == Some(n)
  {
    DecimalValid(n);
    ParseIntUnsigned(Decimal(n));
    DecimalValue(n);
  }

  /** Unsigned digits with nothing around them read as their value. */
  lemma ParseIntUnsigned(s: string)
    requires ValidDigits(s)
    ensures ParseInt(s) == Some(DigitsValue(s))
  {
    DigitNotSpace(s[0]);
    DigitNotSpace(s[|s| - 1]);
    StripNoop(s, IntSpace);
    assert Strip(s, IntSpace) == s;
    ParseSignedUnsigned(s);
  }

  /** Whitespace that `int()` skips may pad the digits on either side. */
  lemma ParseIntPadded(pre: string, d: string, post: string)
    requires forall i :: 0 <= i < |pre| ==> IntSpace(pre[i])
    requires forall i :: 0 <= i < |post| ==> IntSpace(post[i])
    requires ValidDigits(d)
    ensures ParseInt(pre + d + post) == Some(DigitsValue(d))
  {
    DigitNotSpace(d[0]);
    DigitNotSpace(d[|d| - 1]);
    StripPadded(pre, d, post, IntSpace);
    ParseSignedUnsigned(d);
  }

  /**
   * U+001C before the digits is whitespace to `strip()` but not to `int()`:
   * `strip()` removes it, while `int()` rejects the text.
   */
  lemma SeparatorRejected(d: string)
    requires ValidDigits(d)
    ensures Strip(['\U{1C}'] + d, IsSpace) == d
    ensures ParseInt(['\U{1C}'] + d) == None
  {
    var s := ['\U{1C}'] + d;
    DigitNotSpace(d[|d| - 1]);
    assert s[|s| - 1] == d[|d| - 1];
    assert s == ['\U{1C}'] + d + [];
    StripPadded(['\U{1C}'], d, [], IsSpace);
    StripNoop(s, IntSpace);
    ParseSignedUnsigned(s);
  }

  /** A digit is neither whitespace nor a sign. */
  lemma DigitNotSpace(c: char)
    requires IsDigit(c)
    ensures !IsSpace(c) && !IntSpace(c) && c != '-' && c != '+'
  {
  }

  /** The sign step alone: text that starts with neither sign is read as unsigned digits. */
  lemma ParseSignedUnsigned(t: string)
    requires t == [] || (t[0] != '-' && t[0] != '+')
    ensures ParseSigned(t) == ParseDigits(t)
  {
  }

  /** `int()` takes a sign: `int("-" + str(n)) == -n`, so a port is never range-checked. */
  lemma ParseIntNegative(n: nat)
    ensures ParseInt("-" + Decimal(n)) == Some(-(n as int))
  {
    DecimalValid(n);
    DecimalValue(n);
    ParseIntMinus(Decimal(n), n);
  }

  /** A minus sign directly before valid digits negates their value. */
  lemma ParseIntMinus(d: string, n: nat)
    requires ValidDigits(d) && DigitsValue(d) == n
    ensures ParseInt("-" + d) == Some(-(n as int))
  {
    var s := "-" + d;
    assert s[0] == '-' && s[1..] == d && s[|s| - 1] == d[|d| - 1];
    DigitNotSpace(d[|d| - 1]);
    StripNoop(s, IntSpace);
    ParseSignedMinus(s);
  }

  /** The sign step alone: a leading minus negates the value of the digits after it. */
  lemma ParseSignedMinus(t: string)
    requires |t| > 0 && t[0] == '-' && ValidDigits(t[1..])
    ensures ParseSigned(t) == Some(-(DigitsValue(t[1..]) as int))
  {
  }

  /** The sign step alone: a leading plus keeps the value of the digits after it. */
  lemma ParseSignedPlus(t: string)
    requires |t| > 0 && t[0] == '+' && ValidDigits(t[1..])
    ensures ParseSigned(t) == Some(DigitsValue(t[1..]))
  {
  }

  /**
   * `s` is text `int()` reads as `n`: `s[a..b]` holds well-formed digits,
   * optionally after one sign, and only `IntSpace` whitespace surrounds it.
   */
  predicate IntLiteral(s: string, a: int, b: int, n: int) {
    && 0 <= a < b <= |s|
    && (forall i :: 0 <= i < a ==> IntSpace(s[i]))
    && (forall i :: b <= i < |s| ==> IntSpace(s[i]))
    && (|| (ValidDigits(s[a..b]) && n == DigitsValue(s[a..b]))
        || (s[a] == '+' && ValidDigits(s[a + 1..b]) && n == DigitsValue(s[a + 1..b]))
        || (s[a] == '-' && ValidDigits(s[a + 1..b]) && n == -(DigitsValue(s[a + 1..b]) as int)))
  }

  /** `int("+" + d)` is the value of `d`: a plus sign is accepted and changes nothing. */
  lemma ParseIntPlus(d: string)
    requires ValidDigits(d)
    ensures ParseInt("+" + d) == Some(DigitsValue(d))
  {
    var s := "+" + d;
    assert s[0] == '+' && s[1..] == d && s[|s| - 1] == d[|d| - 1];
    DigitNotSpace(d[|d| - 1]);
    StripNoop(s, IntSpace);
    ParseSignedPlus(s);
  }

  /** Every well-formed literal, padded and signed or not, reads as its value. */
  lemma ParseIntWellFormed(s: string, a: int, b: int, n: int)
    requires IntLiteral(s, a, b, n)
    ensures ParseInt(s) == Some(n)
  {
    LiteralStripped(s, a, b, n);
    LiteralSigned(s[a..b], s[a + 1..b], n);
  }

  /** `strip` over `int()`'s whitespace leaves exactly the literal's core. */
  lemma LiteralStripped(s: string, a: int, b: int, n: int)
    requires IntLiteral(s, a, b, n)
    ensures Strip(s, IntSpace) == s[a..b]
  {
    var core := s[a..b];
    assert s == s[..a] + core + s[b..];
    assert core[0] == s[a] && core[|core| - 1] == s[b - 1];
    DigitNotSpace(s[b - 1]);
    if IsDigit(s[a]) {
      DigitNotSpace(s[a]);
    }
    StripPadded(s[..a], core, s[b..], IntSpace);
  }

  /** The sign step on a literal's core gives the literal's value. */
  lemma LiteralSigned(core: string, digits: string, n: int)
    requires |core| > 0 && digits == core[1..]
    requires || (ValidDigits(core) && n == DigitsValue(core))
             || (core[0] == '+' && ValidDigits(digits) && n == DigitsValue(digits))
             || (core[0] == '-' && ValidDigits(digits) && n == -(DigitsValue(digits) as int))
    ensures ParseSigned(core) == Some(n)
  {
    if core[0] == '-' {
      ParseSignedMinus(core);
    } else if core[0] == '+' {
      ParseSignedPlus(core);
    } else {
      ParseSignedUnsigned(core);
    }
  }

  /**
   * Only well-formed literals are read: whenever `int(s)` succeeds, `s` is
   * padding, an optional sign and well-formed digits, so text such as `80a`,
   * `8 0`, `1__0`, `_1` or `+-1` raises.
   */
  lemma ParseIntOnlyWellFormed(s: string)
    requires ParseInt(s).Some?
    ensures exists a, b :: IntLiteral(s, a, b, ParseInt(s).value)
  {
    var u := TrimStart(s, IntSpace);
    var t := TrimEnd(u, IntSpace);
    assert t == Strip(s, IntSpace);
    var a := |s| - |u|;
    var b := a + |t|;
    assert s[a..b] == t;
    forall i | b <= i < |s|
      ensures IntSpace(s[i])
    {
      assert s[i] == u[i - a];
    }
    if |t| > 0 && (t[0] == '-' || t[0] == '+') {
      assert s[a + 1..b] == t[1..];
    }
    assert IntLiteral(s, a, b, ParseInt(s).value);
  }

  /** A letter after the digits makes `int()` fail: `int("80a")` raises. */
  lemma TrailingLetterRejected()
    ensures ParseInt("80a") == None
  {
    RejectedUnpadded("80a");
  }

  /** A space inside the digits makes `int()` fail: `int("8 0")` raises. */
  lemma InnerSpaceRejected()
    ensures ParseInt("8 0") == None
  {
    assert "8 0"[1] == ' ';
    RejectedUnpadded("8 0");
  }

  /** Doubled or leading underscores make `int()` fail. */
  lemma UnderscoresRejected()
    ensures ParseInt("1__0") == None
    ensures ParseInt("_1") == None
  {
    assert "1__0"[1] == '_' && "1__0"[2] == '_';
    RejectedUnpadded("1__0");
    RejectedUnpadded("_1");
  }

  /** Two signs make `int()` fail: `int("+-1")` raises. */
  lemma DoubleSignRejected()
    ensures ParseInt("+-1") == None
  {
    RejectedUnpadded("+-1");
  }

  /** Text that starts and ends with a character `int()` does not skip is read as it stands. */
  lemma RejectedUnpadded(s: string)
    requires |s| > 0 && !IntSpace(s[0]) && !IntSpace(s[|s| - 1])
    requires !ValidDigits(s) && !(s[0] in "+-" && ValidDigits(s[1..]))
    ensures ParseInt(s) == None
  {
    StripNoop(s, IntSpace);
  }
}
