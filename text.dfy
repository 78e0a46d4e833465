/**
 The Python string operations the rating store is built from: `str.strip()`,
 `str.split(",")`, `",".join(...)`, `str(n)` for an integer `n`, and the part
 of `float(s)` that the store relies on (plain signed decimals).
 */
module Text {
  import opened Options

  // ---------------------------------------------------------------------------
  // Whitespace and str.strip()
  // ---------------------------------------------------------------------------

  /** The characters for which Python's `str.isspace()` holds. */
  predicate IsSpace(c: char) {
    || c == ' ' || '\t' <= c <= '\r' || '\U{1C}' <= c <= '\U{1F}'
    || c == '\U{85}' || c == '\U{A0}' || c == '\U{1680}'
    || '\U{2000}' <= c <= '\U{200A}' || c == '\U{2028}' || c == '\U{2029}'
    || c == '\U{202F}' || c == '\U{205F}' || c == '\U{3000}'
  }

  predicate AllSpace(s: string) {
    forall i :: 0 <= i < |s| ==> IsSpace(s[i])
  }

  /** `s.lstrip()`: the suffix of `s` left after its leading whitespace. */
  function TrimLeft(s: string): string {
    if s != [] && IsSpace(s[0]) then TrimLeft(s[1..]) else s
  }

  /** `lstrip` removes exactly the leading whitespace: what it drops is whitespace
      and what it keeps does not start with whitespace. */
  lemma {:induction false} TrimLeftSpec(s: string)
    ensures |TrimLeft(s)| <= |s| && TrimLeft(s) == s[|s| - |TrimLeft(s)|..]
    ensures AllSpace(s[..|s| - |TrimLeft(s)|])
    ensures TrimLeft(s) == [] || !IsSpace(TrimLeft(s)[0])
  {
    if s != [] && IsSpace(s[0]) {
      TrimLeftSpec(s[1..]);
      var k := |s| - |TrimLeft(s)|;
      assert s[..k] == [s[0]] + s[1..][..k - 1];
    }
  }

  /** `s.rstrip()`: the prefix of `s` left before its trailing whitespace. */
  function TrimRight(s: string): string {
    if s != [] && IsSpace(s[|s| - 1]) then TrimRight(s[..|s| - 1]) else s
  }

  /** `rstrip` removes exactly the trailing whitespace. */
  lemma {:induction false} TrimRightSpec(s: string)
    ensures |TrimRight(s)| <= |s| && TrimRight(s) == s[..|TrimRight(s)|]
    ensures AllSpace(s[|TrimRight(s)|..])
    ensures TrimRight(s) == [] || !IsSpace(TrimRight(s)[|TrimRight(s)| - 1])
  {
    if s != [] && IsSpace(s[|s| - 1]) {
      var p := s[..|s| - 1];
      TrimRightSpec(p);
      var k := |TrimRight(s)|;
      assert s[k..] == p[k..] + [s[|s| - 1]];
    }
  }

  /** `s.strip()`: no longer than `s`, and with no whitespace left at either end. */
  function Strip(s: string): (t: string)
    ensures |t| <= |s|
    ensures t == [] || (!IsSpace(t[0]) && !IsSpace(t[|t| - 1]))
  {
    TrimLeftSpec(s);
    TrimRightSpec(TrimLeft(s));
    TrimRight(TrimLeft(s))
  }

  lemma {:induction false} TrimLeftSkips(w: string, x: string)
    requires AllSpace(w)
    ensures TrimLeft(w + x) == TrimLeft(x)
  {
    if w == [] {
      assert w + x == x;
    } else {
      assert (w + x)[1..] == w[1..] + x;
      TrimLeftSkips(w[1..], x);
    }
  }

  lemma {:induction false} TrimRightSkips(x: string, w: string)
    requires AllSpace(w)
    ensures TrimRight(x + w) == TrimRight(x)
  {
    if w == [] {
      assert x + w == x;
    } else {
      assert (x + w)[..|x + w| - 1] == x + w[..|w| - 1];
      TrimRightSkips(x, w[..|w| - 1]);
    }
  }

  lemma {:induction false} TrimLeftKeeps(x: string, y: string)
    requires TrimLeft(x) != []
    ensures TrimLeft(x + y) == TrimLeft(x) + y
  {
    if IsSpace(x[0]) {
      assert (x + y)[1..] == x[1..] + y;
      TrimLeftKeeps(x[1..], y);
    }
  }

  /** Whitespace appended to a string (a line terminator, say) does not change its strip. */
  lemma StripIgnoresTrailingSpace(c: string, w: string)
    requires AllSpace(w)
    ensures Strip(c + w) == Strip(c)
  {
    TrimLeftSpec(c);
    if TrimLeft(c) == [] {
      assert AllSpace(c + w) by {
        assert c == c[..|c| - |TrimLeft(c)|];
      }
      assert c + w == (c + w) + [];
      TrimLeftSkips(c + w, []);
      assert TrimLeft(c + w) == [];
    } else {
      TrimLeftKeeps(c, w);
      TrimRightSkips(TrimLeft(c), w);
    }
  }

  /** A string that neither starts nor ends with whitespace is its own strip. */
  lemma StripKeeps(s: string)
    requires s != [] && !IsSpace(s[0]) && !IsSpace(s[|s| - 1])
    ensures Strip(s) == s
  {
  }

  /** Strip splits `s` into leading whitespace, the result, and trailing whitespace. */
  lemma StripParts(s: string) returns (lead: nat)
    ensures lead + |Strip(s)| <= |s|
    ensures Strip(s) == s[lead..lead + |Strip(s)|]
    ensures AllSpace(s[..lead]) && AllSpace(s[lead + |Strip(s)|..])
    ensures Strip(s) == [] || (!IsSpace(Strip(s)[0]) && !IsSpace(Strip(s)[|Strip(s)| - 1]))
  {
    TrimLeftSpec(s);
    TrimRightSpec(TrimLeft(s));
    var l := TrimLeft(s);
    lead := |s| - |l|;
    var r := TrimRight(l);
    assert l == s[lead..];
    assert r == s[lead..][..|r|] == s[lead..lead + |r|];
    assert s[lead + |r|..] == l[|r|..];
  }

  /** A comma anywhere in a line survives `strip()`, since a comma is not whitespace. */
  lemma CommaSurvivesStrip(s: string)
    requires ',' in s
    ensures ',' in Strip(s)
  {
    var lead := StripParts(s);
    var t := Strip(s);
    var i :| 0 <= i < |s| && s[i] == ',';
    assert forall k :: 0 <= k < lead ==> IsSpace(s[k]) by {
      forall k | 0 <= k < lead ensures IsSpace(s[k]) { assert s[..lead][k] == s[k]; }
    }
    assert forall k :: lead + |t| <= k < |s| ==> IsSpace(s[k]) by {
      forall k | lead + |t| <= k < |s| ensures IsSpace(s[k]) {
        assert s[lead + |t|..][k - lead - |t|] == s[k];
      }
    }
    assert !IsSpace(s[i]);
    assert lead <= i < lead + |t|;
    assert t[i - lead] == ',';
  }

  /** A string without a line break. `readlines()` ends a line at `\n`, and reading in text
      mode turns a `\r` into one, so text meant to stay on one line holds neither. */
  predicate NoBreak(s: string) {
    '\n' !in s && '\r' !in s
  }

  /** `strip()` introduces no line break. */
  lemma StripNoBreak(s: string)
    requires NoBreak(s)
    ensures NoBreak(Strip(s))
  {
    var lead := StripParts(s);
    var t := Strip(s);
    forall k | 0 <= k < |t| ensures t[k] != '\n' && t[k] != '\r' {
      assert t[k] == s[lead + k];
    }
  }

  // ---------------------------------------------------------------------------
  // str.split(",") and ",".join(...)
  // ---------------------------------------------------------------------------

  /** The longest prefix of `s` that does not contain `sep`. */
  function Before(s: string, sep: char): (f: string)
    ensures |f| <= |s|
  {
    if s == [] || s[0] == sep then [] else [s[0]] + Before(s[1..], sep)
  }

  /** `Before` stops exactly at the first separator, or at the end. */
  lemma {:induction false} BeforeSpec(s: string, sep: char)
    ensures Before(s, sep) == s[..|Before(s, sep)|] && sep !in Before(s, sep)
    ensures |Before(s, sep)| < |s| ==> s[|Before(s, sep)|] == sep
  {
    if s != [] && s[0] != sep {
      BeforeSpec(s[1..], sep);
    }
  }

  lemma BeforeWhole(s: string, sep: char)
    requires sep !in s
    ensures Before(s, sep) == s
  {
    var f := Before(s, sep);
    BeforeSpec(s, sep);
    assert f == s[..|s|];
  }

  lemma BeforeAppend(u: string, v: string, sep: char)
    ensures sep in u ==> Before(u + v, sep) == Before(u, sep)
    ensures sep !in u ==> Before(u + v, sep) == u + Before(v, sep)
  {
    if u != [] {
      assert (u + v)[1..] == u[1..] + v;
      BeforeAppend(u[1..], v, sep);
      if u[0] != sep && sep in u {
        assert sep in u[1..];
      }
    } else {
      assert u + v == v;
    }
  }

  /** Python's `s.split(",")`: the comma-free fields between the commas of `s`. */
  function Split(s: string): (fields: seq<string>)
    ensures |fields| >= 1
    decreases |s|
  {
    var f := Before(s, ',');
    if |f| == |s| then [s] else [f] + Split(s[|f| + 1..])
  }

  /** The fields of a split hold no comma, and there are several exactly when `s` has a comma. */
  lemma {:induction false} SplitSpec(s: string)
    ensures Split(s)[0] == Before(s, ',')
    ensures forall i :: 0 <= i < |Split(s)| ==> ',' !in Split(s)[i]
    ensures |Split(s)| >= 2 <==> ',' in s
    decreases |s|
  {
    var f := Before(s, ',');
    BeforeSpec(s, ',');
    if |f| < |s| {
      SplitSpec(s[|f| + 1..]);
      assert s[|f|] == ',';
    } else {
      assert f == s;
    }
  }

  /** Python's `",".join(fields)`: it starts with the first field, followed by a comma
      exactly when there are more fields. */
  function Join(fields: seq<string>): (s: string)
    requires |fields| >= 1
    ensures |s| >= |fields[0]| && s[..|fields[0]|] == fields[0]
    ensures |fields| >= 2 <==> |s| > |fields[0]|
    ensures |fields| >= 2 ==> s[|fields[0]|] == ','
  {
    if |fields| == 1 then fields[0] else fields[0] + "," + Join(fields[1..])
  }

  lemma {:induction false} JoinSnoc(fields: seq<string>, last: string)
    requires |fields| >= 1
    ensures Join(fields + [last]) == Join(fields) + "," + last
  {
    if |fields| == 1 {
      assert fields + [last] == [fields[0], last];
      assert Join([last]) == last;
    } else {
      assert (fields + [last])[1..] == fields[1..] + [last];
      JoinSnoc(fields[1..], last);
    }
  }

  /** Splitting undoes joining when no field holds a comma. */
  lemma {:induction false} SplitJoin(fields: seq<string>)
    requires |fields| >= 1
    requires forall i :: 0 <= i < |fields| ==> ',' !in fields[i]
    ensures Split(Join(fields)) == fields
  {
    if |fields| == 1 {
      BeforeWhole(fields[0], ',');
    } else {
      var head, rest := fields[0], Join(fields[1..]);
      var s := head + "," + rest;
      assert s == head + ("," + rest);
      BeforeAppend(head, "," + rest, ',');
      assert Before("," + rest, ',') == [];
      var f := Before(s, ',');
      assert f == head && |f| < |s|;
      assert s[|f| + 1..] == rest;
      assert Split(s) == [f] + Split(rest);
      SplitJoin(fields[1..]);
      assert fields == [head] + fields[1..];
    }
  }

  /** The fields of a string without a line break have none either. */
  lemma {:induction false} SplitNoBreak(s: string)
    requires NoBreak(s)
    ensures forall i :: 0 <= i < |Split(s)| ==> NoBreak(Split(s)[i])
    decreases |s|
  {
    var f := Before(s, ',');
    BeforeSpec(s, ',');
    assert NoBreak(f) by {
      forall k | 0 <= k < |f| ensures f[k] != '\n' && f[k] != '\r' {
        assert f[k] == s[k];
      }
    }
    if |f| < |s| {
      var rest := s[|f| + 1..];
      assert NoBreak(rest) by {
        forall k | 0 <= k < |rest| ensures rest[k] != '\n' && rest[k] != '\r' {
          assert rest[k] == s[|f| + 1 + k];
        }
      }
      SplitNoBreak(rest);
    }
  }

  /** Joining fields without a line break gives a string without one. */
  lemma {:induction false} JoinNoBreak(fields: seq<string>)
    requires |fields| >= 1
    requires forall i :: 0 <= i < |fields| ==> NoBreak(fields[i])
    ensures NoBreak(Join(fields))
  {
    if |fields| > 1 {
      JoinNoBreak(fields[1..]);
    }
  }

  /** Joining the fields of a split gives the string back. */
  lemma {:induction false} JoinSplit(s: string)
    ensures Join(Split(s)) == s
    decreases |s|
  {
    var f := Before(s, ',');
    if |f| < |s| {
      var rest := s[|f| + 1..];
      BeforeSplits(s, ',');
      JoinSplit(rest);
      assert Split(s)[1..] == Split(rest);
    }
  }

  /** A joined row whose first field is non-empty starts with that field's first character. */
  lemma JoinStart(fields: seq<string>)
    requires |fields| >= 1 && fields[0] != []
    ensures Join(fields) != [] && Join(fields)[0] == fields[0][0]
  {
  }

  /** Stripping twice is stripping once. */
  lemma StripIdempotent(s: string)
    ensures Strip(Strip(s)) == Strip(s)
  {
    var lead := StripParts(s);
    if Strip(s) != [] {
      StripKeeps(Strip(s));
    }
  }

  /** Whitespace holds no comma. */
  lemma SpaceHasNoComma(w: string)
    requires AllSpace(w)
    ensures ',' !in w
  {
    forall i | 0 <= i < |w| ensures w[i] != ',' {
      assert IsSpace(w[i]);
    }
  }

  /** The first field of `s.strip()`, stripped, is the first field of `s`, stripped: the
      writer's `line.strip().split(",")[0].strip()` names the same player as the reader's. */
  lemma FirstFieldAfterStrip(s: string)
    ensures Strip(Before(Strip(s), ',')) == Strip(Before(s, ','))
  {
    var lead := StripParts(s);
    var t := Strip(s);
    var a, b := s[..lead], s[lead + |t|..];
    assert s == a + (t + b);
    SpaceHasNoComma(a);
    SpaceHasNoComma(b);
    BeforeAppend(a, t + b, ',');
    BeforeAppend(t, b, ',');
    TrimLeftSkips(a, Before(t + b, ','));
    if ',' !in t {
      BeforeWhole(t, ',');
      BeforeWhole(b, ',');
      StripIgnoresTrailingSpace(t, b);
    }
  }

  // ---------------------------------------------------------------------------
  // str(n) for an integer n
  // ---------------------------------------------------------------------------

  predicate IsDigit(c: char) {
    '0' <= c <= '9'
  }

  predicate AllDigits(s: string) {
    forall i :: 0 <= i < |s| ==> IsDigit(s[i])
  }

  /** The number a string of decimal digits denotes, most significant digit first. */
  function DigitsValue(s: string): int {
    if s == [] then 0 else 10 * DigitsValue(s[..|s| - 1]) + (s[|s| - 1] as int - '0' as int)
  }

  function Pow10(n: nat): (p: nat)
    ensures p >= 1
  {
    if n == 0 then 1 else 10 * Pow10(n - 1)
  }

  function Digit(d: nat): (c: char)
    requires d < 10
    ensures IsDigit(c) && c as int - '0' as int == d
  {
    ('0' as int + d) as char
  }

  /** Python's `str(n)` for a natural number: its decimal digits, without leading zeros. */
  function NatToString(n: nat): (s: string)
    ensures s != [] && AllDigits(s) && DigitsValue(s) == n
    ensures s[0] == '0' ==> s == "0"
  {
    if n < 10 then [Digit(n)]
    else
      var s := NatToString(n / 10) + [Digit(n % 10)];
      assert s[..|s| - 1] == NatToString(n / 10);
      s
  }

  /** Python's `str(v)` for an integer: a minus sign for negatives, then the digits of the
      magnitude without leading zeros. */
  function IntToString(v: int): (s: string)
    ensures s != [] && (s[0] == '-' <==> v < 0)
    ensures v >= 0 ==> AllDigits(s) && DigitsValue(s) == v && (s[0] == '0' ==> s == "0")
    ensures v < 0 ==> |s| >= 2 && AllDigits(s[1..]) && DigitsValue(s[1..]) == -v && s[1] != '0'
  {
    if v < 0 then
      var s := "-" + NatToString(-v);
      assert s[1..] == NatToString(-v);
      s
    else
      NatToString(v)
  }

  /** `str(v)` reads back as `v` with `float`. */
  lemma IntToStringParses(v: int)
    ensures ParseNumber(IntToString(v)) == Some(IntNumeral(v))
  {
    var digits := NatToString(if v < 0 then -v else v);
    if v < 0 {
      ParseNegative(digits);
    } else {
      ParseDigits(digits);
    }
  }

  /** The numeral `str(v)` spells. */
  function IntNumeral(v: int): Numeral {
    Numeral(v < 0, NatToString(if v < 0 then -v else v), "")
  }

  /** ... and it denotes `v`. */
  lemma IntNumeralValue(v: int)
    ensures Value(IntNumeral(v)) == v as real
  {
    assert DigitsValue("") == 0;
  }

  /** An optional minus sign followed by digits has no comma, no line break, and does not
      start with whitespace. */
  lemma SignedDigitsShape(sign: string, digits: string)
    requires sign == "" || sign == "-"
    requires digits != [] && AllDigits(digits)
    ensures ',' !in sign + digits && NoBreak(sign + digits) && !IsSpace((sign + digits)[0])
  {
    var s := sign + digits;
    forall i | 0 <= i < |s| ensures s[i] == '-' || IsDigit(s[i]) {
      if i >= |sign| {
        assert s[i] == digits[i - |sign|];
      }
    }
  }

  /** `str(v)` has no comma, no line break, and does not start with whitespace. */
  lemma IntToStringShape(v: int)
    ensures ',' !in IntToString(v) && NoBreak(IntToString(v)) && !IsSpace(IntToString(v)[0])
  {
    SignedDigitsShape(if v < 0 then "-" else "", NatToString(if v < 0 then -v else v));
  }

  // ---------------------------------------------------------------------------
  // float(s), restricted to plain signed decimals
  // ---------------------------------------------------------------------------

  /** The grammar `[digits] ["." digits]` with at least one digit. */
  predicate IsUnsignedNumeral(b: string) {
    && (exists i :: 0 <= i < |b| && IsDigit(b[i]))
    && (forall i :: 0 <= i < |b| ==> IsDigit(b[i]) || b[i] == '.')
    && (forall i, j :: 0 <= i < j < |b| && b[i] == '.' ==> b[j] != '.')
  }

  /** The string without its leading sign, if it has one. */
  function Magnitude(s: string): string {
    if s != [] && (s[0] == '-' || s[0] == '+') then s[1..] else s
  }

  /** An optional sign followed by an unsigned decimal numeral. */
  predicate IsNumeral(s: string) {
    IsUnsignedNumeral(Magnitude(s))
  }

  lemma UnsignedShape(b: string, whole: string, frac: string)
    requires whole == Before(b, '.')
    requires frac == if |whole| < |b| then b[|whole| + 1..] else []
    ensures (|whole| + |frac| > 0 && AllDigits(whole) && AllDigits(frac)) <==> IsUnsignedNumeral(b)
  {
    BeforeSpec(b, '.');
    if |whole| == |b| {
      assert whole == b && frac == [];
      NumeralWithoutDot(b);
    } else {
      BeforeSplits(b, '.');
      assert b == whole + "." + frac;
      NumeralParts(b, whole, frac);
    }
  }

  /** A string with a separator is the part before it, the separator and the rest. */
  lemma BeforeSplits(s: string, sep: char)
    requires |Before(s, sep)| < |s|
    ensures s == Before(s, sep) + [sep] + s[|Before(s, sep)| + 1..]
  {
    var f := Before(s, sep);
    BeforeSpec(s, sep);
    assert s == s[..|f|] + [s[|f|]] + s[|f| + 1..];
  }

  lemma NumeralParts(b: string, whole: string, frac: string)
    requires '.' !in whole && b == whole + "." + frac
    ensures (|whole| + |frac| > 0 && AllDigits(whole) && AllDigits(frac)) <==> IsUnsignedNumeral(b)
  {
    if |whole| + |frac| > 0 && AllDigits(whole) && AllDigits(frac) {
      NumeralFromParts(whole, frac);
    }
    if IsUnsignedNumeral(b) {
      PartsFromNumeral(whole, frac);
    }
  }

  lemma NumeralWithoutDot(b: string)
    requires '.' !in b
    ensures (|b| > 0 && AllDigits(b)) <==> IsUnsignedNumeral(b)
  {
    if |b| > 0 && AllDigits(b) {
      assert IsDigit(b[0]);
    }
    if IsUnsignedNumeral(b) {
      forall i | 0 <= i < |b| ensures IsDigit(b[i]) {
        assert b[i] in b;
      }
    }
  }

  lemma NumeralFromParts(whole: string, frac: string)
    requires |whole| + |frac| > 0 && AllDigits(whole) && AllDigits(frac)
    ensures IsUnsignedNumeral(whole + "." + frac)
  {
    var b, d := whole + "." + frac, |whole|;
    assert forall k :: 0 <= k < |b| && k != d ==> IsDigit(b[k]) by {
      forall k | 0 <= k < |b| && k != d ensures IsDigit(b[k]) {
        if k < d { assert b[k] == whole[k]; } else { assert b[k] == frac[k - d - 1]; }
      }
    }
    if |whole| > 0 { assert IsDigit(b[0]); } else { assert IsDigit(b[d + 1]); }
  }

  lemma PartsFromNumeral(whole: string, frac: string)
    requires '.' !in whole
    requires IsUnsignedNumeral(whole + "." + frac)
    ensures |whole| + |frac| > 0 && AllDigits(whole) && AllDigits(frac)
  {
    var b, d := whole + "." + frac, |whole|;
    assert b[d] == '.';
    forall i | 0 <= i < |whole| ensures IsDigit(whole[i]) {
      assert whole[i] == b[i];
    }
    forall i | 0 <= i < |frac| ensures IsDigit(frac[i]) {
      assert frac[i] == b[d + 1 + i];
      assert b[d] == '.' && d < d + 1 + i;
    }
    var k :| 0 <= k < |b| && IsDigit(b[k]);
    assert k != d;
  }

  /** A decimal numeral as `float` reads it: its sign, integer digits and fraction digits. */
  datatype Numeral = Numeral(negative: bool, whole: string, frac: string)

  /** The number a numeral denotes. */
  function Value(n: Numeral): real {
    var m := DigitsValue(n.whole) as real + DigitsValue(n.frac) as real / Pow10(|n.frac|) as real;
    if n.negative then -m else m
  }

  /** The whitespace `float()` skips around a number. It is every `str.isspace()` character
      except the ASCII separators `\x1c` to `\x1f`: `float()` trims only ASCII space, tab,
      newline, vertical tab, form feed and carriage return, after turning every non-ASCII
      whitespace character into a space. */
  predicate IsFloatSpace(c: char) {
    IsSpace(c) && !('\U{1C}' <= c <= '\U{1F}')
  }

  function FloatTrimLeft(s: string): (t: string)
    ensures |t| <= |s|
  {
    if s != [] && IsFloatSpace(s[0]) then FloatTrimLeft(s[1..]) else s
  }

  function FloatTrimRight(s: string): (t: string)
    ensures |t| <= |s|
  {
    if s != [] && IsFloatSpace(s[|s| - 1]) then FloatTrimRight(s[..|s| - 1]) else s
  }

  /** The text `float(s)` reads a number from: `s` without the whitespace it skips. */
  function FloatStrip(s: string): (t: string)
    ensures |t| <= |s|
  {
    FloatTrimRight(FloatTrimLeft(s))
  }

  /** A string that neither starts nor ends with such whitespace is read whole. */
  lemma FloatStripKeeps(s: string)
    requires s != [] && !IsFloatSpace(s[0]) && !IsFloatSpace(s[|s| - 1])
    ensures FloatStrip(s) == s
  {
  }

  /** Python's `float(s)` on plain decimals: the numeral `s` spells, or `None` where
      Python raises `ValueError`. A numeral has a digit, its sign is the minus sign that
      leads the trimmed text, and its digits are those of the unsigned rest: all of it, or
      the parts before and after its one decimal point. */
  function ParseNumber(s: string): (r: Option<Numeral>)
    ensures r.Some? ==> r.value.whole != [] || r.value.frac != []
    ensures r.Some? ==> FloatStrip(s) != [] && (r.value.negative <==> FloatStrip(s)[0] == '-')
    ensures r.Some? ==> AllDigits(r.value.whole) && AllDigits(r.value.frac)
    ensures r.Some? ==>
      || (Magnitude(FloatStrip(s)) == r.value.whole && r.value.frac == [])
      || Magnitude(FloatStrip(s)) == r.value.whole + "." + r.value.frac
  {
    var t := FloatStrip(s);
    var b := Magnitude(t);
    var whole := Before(b, '.');
    var frac := if |whole| < |b| then b[|whole| + 1..] else [];
    if |whole| + |frac| > 0 && AllDigits(whole) && AllDigits(frac) then
      assert b == whole || b == whole + "." + frac by {
        BeforeSpec(b, '.');
        if |whole| < |b| {
          BeforeSplits(b, '.');
        }
      }
      Some(Numeral(t != [] && t[0] == '-', whole, frac))
    else
      None
  }

  /** `float(s)` succeeds exactly on the numerals of the grammar, surrounded by the
      whitespace it skips. */
  lemma ParseNumberAccepts(s: string)
    ensures ParseNumber(s).Some? <==> IsNumeral(FloatStrip(s))
  {
    var b := Magnitude(FloatStrip(s));
    var whole := Before(b, '.');
    UnsignedShape(b, whole, if |whole| < |b| then b[|whole| + 1..] else []);
  }

  /** A minus sign followed by digits reads back as the negative numeral. */
  lemma ParseNegative(digits: string)
    requires digits != [] && AllDigits(digits)
    ensures ParseNumber("-" + digits) == Some(Numeral(true, digits, ""))
  {
    var s := "-" + digits;
    assert s[1..] == digits;
    assert FloatStrip(s) == s by {
      assert s[|s| - 1] == digits[|digits| - 1] && IsDigit(digits[|digits| - 1]);
      FloatStripKeeps(s);
    }
    assert '.' !in digits by {
      forall i | 0 <= i < |digits| ensures digits[i] != '.' { assert IsDigit(digits[i]); }
    }
    BeforeWhole(digits, '.');
  }

  /** The digits `str` writes for a natural number read back as that numeral, without a fraction. */
  lemma ParseDigits(digits: string)
    requires digits != [] && AllDigits(digits)
    ensures ParseNumber(digits) == Some(Numeral(false, digits, ""))
  {
    assert IsDigit(digits[0]);
    assert FloatStrip(digits) == digits by {
      assert IsDigit(digits[|digits| - 1]);
      FloatStripKeeps(digits);
    }
    assert !(digits[0] == '-' || digits[0] == '+');
    assert '.' !in digits by {
      forall i | 0 <= i < |digits| ensures digits[i] != '.' { assert IsDigit(digits[i]); }
    }
    BeforeWhole(digits, '.');
  }

}
