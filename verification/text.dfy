/**
 * Character-level helpers used by the calendar: decimal rendering as done by
 * JavaScript template literals, `padStart`, the JavaScript `Number` and
 * `parseInt` conversions, `trim`, splitting on a separator and the
 * UTF-16 code-unit order behind `<` and `>=` on strings.
 */
module Text {
  import opened Wrappers

  predicate IsDigit(c: char) {
    '0' <= c <= '9'
  }

  predicate AllDigits(s: string) {
    forall i :: 0 <= i < |s| ==> IsDigit(s[i])
  }

  function DigitChar(n: nat): (c: char)
    requires n < 10
    ensures IsDigit(c)
  {
    ('0' as int + n) as char
  }

  function DigitValue(c: char): (n: nat)
    requires IsDigit(c)
    ensures n < 10
  {
    (c as int - '0' as int) as nat
  }

  lemma DigitRoundTrip(n: nat)
    requires n < 10
    ensures DigitValue(DigitChar(n)) == n
  {
  }

  /** Decimal text of a natural number, without leading zeros (`String(n)`). */
  function NatText(n: nat): (s: string)
    ensures |s| >= 1 && AllDigits(s)
    ensures n < 10 ==> |s| == 1
    decreases n
  {
    if n < 10 then [DigitChar(n)] else NatText(n / 10) + [DigitChar(n % 10)]
  }

  /** Two-digit numbers take two characters, four-digit numbers four, larger ones more. */
  lemma {:induction false} NatTextLength(n: nat)
    ensures n >= 10 ==> |NatText(n)| >= 2
    ensures n >= 100 ==> |NatText(n)| >= 3
    ensures n >= 1000 ==> |NatText(n)| >= 4
    ensures n < 100 ==> |NatText(n)| <= 2
    ensures n < 1000 ==> |NatText(n)| <= 3
    ensures n < 10000 ==> |NatText(n)| <= 4
    decreases n
  {
    if n >= 10 {
      var q := n / 10;
      assert |NatText(n)| == |NatText(q)| + 1;
      NatTextLength(q);
      assert n >= 100 ==> q >= 10;
      assert n >= 1000 ==> q >= 100;
      assert n < 100 ==> q < 10;
      assert n < 1000 ==> q < 100;
      assert n < 10000 ==> q < 1000;
    }
  }

  /** Decimal text of an integer, with a leading '-' when negative (`String(i)`). */
  function IntText(i: int): (s: string)
    ensures |s| >= 1
    ensures i >= 0 ==> s == NatText(i)
    ensures i < 0 ==> s[0] == '-' && s[1..] == NatText(-i)
  {
    if i < 0 then "-" + NatText(-i) else NatText(i)
  }

  /** The value of a non-empty string of decimal digits. */
  function DigitsValue(s: string): nat
    requires |s| >= 1 && AllDigits(s)
    decreases |s|
  {
    if |s| == 1 then DigitValue(s[0])
    else DigitsValue(s[..|s| - 1]) * 10 + DigitValue(s[|s| - 1])
  }

  lemma {:induction false} NatTextRoundTrip(n: nat)
    ensures DigitsValue(NatText(n)) == n
    decreases n
  {
    if n < 10 {
      DigitRoundTrip(n);
    } else {
      var s := NatText(n);
      assert s[..|s| - 1] == NatText(n / 10);
      NatTextRoundTrip(n / 10);
      DigitRoundTrip(n % 10);
    }
  }

  lemma NatTextInjective(a: nat, b: nat)
    ensures NatText(a) == NatText(b) <==> a == b
  {
    if NatText(a) == NatText(b) {
      NatTextRoundTrip(a);
      NatTextRoundTrip(b);
    }
  }

  /** `s.padStart(width, fill)`: prefix copies of `fill` up to `width` characters. */
  function PadStart(s: string, width: nat, fill: char): (r: string)
    ensures |r| == if |s| >= width then |s| else width
    ensures r[|r| - |s|..] == s
    ensures forall i :: 0 <= i < |r| - |s| ==> r[i] == fill
  {
    if |s| >= width then s else seq(width - |s|, _ => fill) + s
  }

  /** `String(n).padStart(2, '0')`. */
  function Pad2(n: nat): string {
    PadStart(NatText(n), 2, '0')
  }

  /** Two-digit rendering of a number below 100, digit by digit. */
  lemma Pad2Digits(n: nat)
    requires n < 100
    ensures Pad2(n) == [DigitChar(n / 10), DigitChar(n % 10)]
  {
    if n < 10 {
      assert NatText(n) == [DigitChar(n)];
      assert DigitChar(0) == '0';
    } else {
      assert NatText(n / 10) == [DigitChar(n / 10)];
    }
  }

  lemma Pad2RoundTrip(n: nat)
    requires n < 100
    ensures |Pad2(n)| == 2 && AllDigits(Pad2(n))
    ensures DigitsValue(Pad2(n)) == n
  {
    Pad2Digits(n);
    var a, b := DigitChar(n / 10), DigitChar(n % 10);
    var s := [a, b];
    assert s[..1] == [a];
    DigitRoundTrip(n / 10);
    DigitRoundTrip(n % 10);
    assert DigitsValue([a]) == n / 10;
    assert DigitsValue(s) == n / 10 * 10 + n % 10;
  }

  /**
   * JavaScript `Number(s)` on the strings the calendar feeds it: the empty
   * string is 0, a string of decimal digits is its value, anything else is
   * NaN (`None`).
   */
  function JsNumber(s: string): (r: Option<nat>)
    ensures s == [] ==> r == Some(0)
    ensures s != [] ==> (r.Some? <==> AllDigits(s))
  {
    if s == [] then Some(0)
    else if AllDigits(s) then Some(DigitsValue(s))
    else None
  }

  /**
   * Characters `trim` and `parseInt` skip: ECMAScript's WhiteSpace (tab,
   * vertical tab, form feed, U+FEFF and the space separators of Unicode,
   * category Zs) and LineTerminator (line feed, carriage return, U+2028,
   * U+2029).
   */
  predicate IsSpace(c: char) {
    || c == '\t' || c == '\U{000B}' || c == '\U{000C}' || c == '\U{FEFF}'
    || c == ' ' || c == '\U{00A0}' || c == '\U{1680}' || ('\U{2000}' <= c <= '\U{200A}')
    || c == '\U{202F}' || c == '\U{205F}' || c == '\U{3000}'
    || c == '\n' || c == '\r' || c == '\U{2028}' || c == '\U{2029}'
  }

  /** A no-break space is white space to `trim`: a title of one U+00A0 trims to nothing. */
  lemma NoBreakSpaceTrims()
    ensures Trim("\U{00A0}") == []
  {
    TrimEmptyIffBlank("\U{00A0}");
  }

  /** Drops leading white space. */
  function TrimStart(s: string): (r: string)
    ensures |r| <= |s| && r == s[|s| - |r|..]
    ensures r == [] || !IsSpace(r[0])
    ensures forall i :: 0 <= i < |s| - |r| ==> IsSpace(s[i])
  {
    if s != [] && IsSpace(s[0]) then
      var r := TrimStart(s[1..]);
      assert forall i :: 1 <= i < |s| - |r| ==> s[i] == s[1..][i - 1];
      r
    else s
  }

  /** Drops trailing white space. */
  function TrimEnd(s: string): (r: string)
    ensures |r| <= |s| && r == s[..|r|]
    ensures r == [] || !IsSpace(r[|r| - 1])
    ensures forall i :: |r| <= i < |s| ==> IsSpace(s[i])
  {
    if s != [] && IsSpace(s[|s| - 1]) then TrimEnd(s[..|s| - 1]) else s
  }

  /** `s.trim()`. */
  function Trim(s: string): string {
    TrimEnd(TrimStart(s))
  }

  /** A string trims to nothing exactly when every character is white space. */
  lemma TrimEmptyIffBlank(s: string)
    ensures Trim(s) == [] <==> forall i :: 0 <= i < |s| ==> IsSpace(s[i])
  {
    var t := TrimStart(s);
    assert |t| > 0 ==> TrimEnd(t) != [];
    assert |t| > 0 ==> t[0] == s[|s| - |t|];
  }

  /** The longest prefix of `s` made of decimal digits. */
  function DigitPrefix(s: string): (r: string)
    ensures |r| <= |s| && r == s[..|r|] && AllDigits(r)
    ensures |r| == |s| || !IsDigit(s[|r|])
  {
    if s != [] && IsDigit(s[0]) then [s[0]] + DigitPrefix(s[1..]) else []
  }

  lemma DigitPrefixOfDigits(s: string)
    requires AllDigits(s)
    ensures DigitPrefix(s) == s
  {
    if s != [] {
      DigitPrefixOfDigits(s[1..]);
    }
  }

  /**
   * JavaScript `parseInt(s)` in base ten: leading white space is skipped, an
   * optional sign is read, then the longest run of digits; no digits is NaN
   * (`None`). Trailing characters are ignored.
   */
  function JsParseInt(s: string): (r: Option<int>)
    ensures r.Some? ==> exists k :: 0 <= k < |s| && IsDigit(s[k])
  {
    var t := TrimStart(s);
    var neg := t != [] && t[0] == '-';
    var body := if t != [] && (t[0] == '-' || t[0] == '+') then t[1..] else t;
    var digits := DigitPrefix(body);
    if digits == [] then None
    else
      assert IsDigit(s[|s| - |t| + (|t| - |body|)]) by {
        assert body[0] == t[|t| - |body|];
      }
      Some(if neg then -(DigitsValue(digits) as int) else DigitsValue(digits))
  }

  /** `parseInt(String(i)) === i` for every integer. */
  lemma JsParseIntRoundTrip(i: int)
    ensures JsParseInt(IntText(i)) == Some(i)
  {
    var s := IntText(i);
    var n: nat := if i < 0 then -i else i;
    var digits := NatText(n);
    assert s[0] == '-' || IsDigit(s[0]);
    assert TrimStart(s) == s;
    assert (s[0] == '-' || s[0] == '+') <==> i < 0;
    if i < 0 {
      assert s[1..] == digits;
    } else {
      assert s == digits;
    }
    DigitPrefixOfDigits(digits);
    NatTextRoundTrip(n);
  }

  /** `parseInt` of a plain numeral is its value, leading zeros and all. */
  lemma JsParseIntDigits(s: string)
    requires |s| >= 1 && AllDigits(s)
    ensures JsParseInt(s) == Some(DigitsValue(s) as int)
  {
    var t := TrimStart(s);
    assert IsDigit(s[0]);
    assert t == s;
    var neg := t != [] && t[0] == '-';
    assert !neg;
    assert !(t[0] == '-' || t[0] == '+');
    DigitPrefixOfDigits(s);
  }

  /** Taking a prefix no longer than the first part of a concatenation stays within that part. */
  lemma TakeOfConcat(x: string, y: string, k: nat)
    requires k <= |x|
    ensures (x + y)[..k] == x[..k]
  {
  }

  /** Position of the first `sep` in `s`, if any. */
  function IndexOf(s: string, sep: char): (r: Option<nat>)
    ensures r.Some? ==> r.value < |s| && s[r.value] == sep
    ensures r.Some? ==> forall i :: 0 <= i < r.value ==> s[i] != sep
    ensures r.None? ==> forall i :: 0 <= i < |s| ==> s[i] != sep
  {
    if s == [] then None
    else if s[0] == sep then Some(0)
    else match IndexOf(s[1..], sep)
      case None => None
      case Some(k) => Some(k + 1)
  }

  /**
   * `s.split(sep)[k]`: the k-th piece of `s` cut at every `sep`, or `None`
   * (JavaScript `undefined`) when there are not that many pieces.
   */
  function Field(s: string, sep: char, k: nat): (r: Option<string>)
    ensures r.Some? ==> forall i :: 0 <= i < |r.value| ==> r.value[i] != sep
    decreases k
  {
    match IndexOf(s, sep)
    case None => if k == 0 then Some(s) else None
    case Some(p) => if k == 0 then Some(s[..p]) else Field(s[p + 1..], sep, k - 1)
  }

  /** Splitting a joined string recovers its first piece, and the rest follows. */
  lemma FieldOfJoin(a: string, sep: char, rest: string)
    requires forall i :: 0 <= i < |a| ==> a[i] != sep
    ensures Field(a + [sep] + rest, sep, 0) == Some(a)
    ensures Field(a + [sep] + rest, sep, 1) == Field(rest, sep, 0)
  {
    var s := a + [sep] + rest;
    IndexOfJoin(a, sep, rest);
    assert s[..|a|] == a;
    assert s[|a| + 1..] == rest;
  }

  lemma IndexOfJoin(a: string, sep: char, rest: string)
    requires forall i :: 0 <= i < |a| ==> a[i] != sep
    ensures IndexOf(a + [sep] + rest, sep) == Some(|a|)
  {
    if a != [] {
      assert (a + [sep] + rest)[1..] == a[1..] + [sep] + rest;
      IndexOfJoin(a[1..], sep, rest);
    }
  }

  /** A string without the separator is a single piece. */
  lemma FieldOfPlain(a: string, sep: char)
    requires forall i :: 0 <= i < |a| ==> a[i] != sep
    ensures Field(a, sep, 0) == Some(a)
    ensures Field(a, sep, 1) == None
  {
  }

  /**
   * A character's place in UTF-16 code-unit order. Characters below U+D800
   * keep their value; the ones past U+FFFF, whose first unit is a lead
   * surrogate (U+D800 to U+DBFF), come next in their own order; the ones from
   * U+E000 to U+FFFF come last. Dafny characters are Unicode scalar values,
   * so no character is itself a surrogate.
   */
  function UnitRank(c: char): (r: int)
    ensures (c as int) < 0xD800 ==> r == c as int
  {
    if (c as int) < 0xD800 then c as int
    else if (c as int) >= 0x1_0000 then c as int - 0x1_0000 + 0xD800
    else c as int + 0x10_0000
  }

  /**
   * `a < b` on JavaScript strings: lexicographic by UTF-16 code unit, a
   * proper prefix coming first.
   */
  predicate StrLess(a: string, b: string)
    decreases |a|
  {
    if a == [] then b != []
    else if b == [] then false
    else if a[0] != b[0] then UnitRank(a[0]) < UnitRank(b[0])
    else StrLess(a[1..], b[1..])
  }

  /** The UTF-16 code units of a character: one, or a lead and a trail surrogate. */
  function CharUnits(c: char): (r: seq<int>)
    ensures 1 <= |r| <= 2
  {
    if (c as int) < 0x1_0000 then [c as int]
    else
      var v := c as int - 0x1_0000;
      [0xD800 + v / 0x400, 0xDC00 + v % 0x400]
  }

  /** The UTF-16 encoding of a string, as JavaScript holds it. */
  function Utf16(s: string): (r: seq<int>)
    ensures |r| >= |s|
  {
    if s == [] then [] else CharUnits(s[0]) + Utf16(s[1..])
  }

  /** Lexicographic order on code-unit sequences, a proper prefix coming first. */
  predicate UnitsLess(a: seq<int>, b: seq<int>)
    decreases |a|
  {
    if a == [] then b != []
    else if b == [] then false
    else if a[0] != b[0] then a[0] < b[0]
    else UnitsLess(a[1..], b[1..])
  }

  /** A common prefix does not decide the code-unit order. */
  lemma {:induction false} UnitsLessCommonPrefix(u: seq<int>, x: seq<int>, y: seq<int>)
    ensures UnitsLess(u + x, u + y) == UnitsLess(x, y)
    decreases |u|
  {
    if u != [] {
      assert (u + x)[1..] == u[1..] + x && (u + y)[1..] == u[1..] + y;
      UnitsLessCommonPrefix(u[1..], x, y);
    } else {
      assert u + x == x && u + y == y;
    }
  }

  /** Two different characters: their first differing unit decides, in the order of their ranks. */
  lemma CharUnitsDecide(a: char, b: char, x: seq<int>, y: seq<int>)
    requires a != b
    ensures UnitsLess(CharUnits(a) + x, CharUnits(b) + y) <==> UnitRank(a) < UnitRank(b)
  {
    var ua, ub := CharUnits(a) + x, CharUnits(b) + y;
    assert ua[0] == CharUnits(a)[0] && ub[0] == CharUnits(b)[0];
    var p, q := a as int, b as int;
    if p >= 0x1_0000 && q >= 0x1_0000 {
      var v, w := p - 0x1_0000, q - 0x1_0000;
      assert v == 0x400 * (v / 0x400) + v % 0x400;
      assert w == 0x400 * (w / 0x400) + w % 0x400;
      if v / 0x400 == w / 0x400 {
        assert ua[1] == CharUnits(a)[1] && ub[1] == CharUnits(b)[1];
        assert ua[1..][0] == ua[1] && ub[1..][0] == ub[1];
        assert v % 0x400 != w % 0x400;
      } else {
        LeadOrder(v, w);
      }
    }
  }

  /** Different lead surrogates: the lead decides, as the code points do. */
  lemma LeadOrder(v: int, w: int)
    requires 0 <= v && 0 <= w && v / 0x400 != w / 0x400
    ensures v / 0x400 < w / 0x400 <==> v < w
  {
  }

  /** `StrLess` is exactly the order of the strings' UTF-16 encodings. */
  lemma {:induction false} StrLessIsUnitOrder(a: string, b: string)
    ensures StrLess(a, b) <==> UnitsLess(Utf16(a), Utf16(b))
    decreases |a|
  {
    if a != [] && b != [] {
      if a[0] == b[0] {
        StrLessIsUnitOrder(a[1..], b[1..]);
        UnitsLessCommonPrefix(CharUnits(a[0]), Utf16(a[1..]), Utf16(b[1..]));
      } else {
        CharUnitsDecide(a[0], b[0], Utf16(a[1..]), Utf16(b[1..]));
      }
    }
  }

  /**
   * Code-unit order is not code-point order: U+1F600 (an emoji, lead unit
   * U+D83D) sorts before U+FF01.
   */
  lemma AstralBeforeHighPlane()
    ensures StrLess("\U{1F600}", "\U{FF01}") && '\U{1F600}' > '\U{FF01}'
  {
  }

  /** `StrLess` is a strict total order: irreflexive, and trichotomous. */
  lemma {:induction false} StrLessTrichotomy(a: string, b: string)
    ensures !StrLess(a, a)
    ensures a != b ==> StrLess(a, b) != StrLess(b, a)
    decreases |a|
  {
    if a != [] {
      StrLessTrichotomy(a[1..], a[1..]);
      if b != [] && a[0] == b[0] {
        StrLessTrichotomy(a[1..], b[1..]);
        if a[1..] == b[1..] {
          assert a == [a[0]] + a[1..] && b == [b[0]] + b[1..];
        }
      }
    }
  }

  /** Reads back exactly what `IntText` writes: an optional '-' and at least one digit. */
  function ParseIntText(s: string): (r: Option<int>)
    ensures r.Some? ==> |s| >= 1
  {
    if |s| >= 2 && s[0] == '-' && AllDigits(s[1..]) then Some(-(DigitsValue(s[1..]) as int))
    else if |s| >= 1 && AllDigits(s) then Some(DigitsValue(s))
    else None
  }

  lemma ParseIntTextRoundTrip(i: int)
    ensures ParseIntText(IntText(i)) == Some(i)
  {
    var t := IntText(i);
    if i < 0 {
      var u := NatText(-i);
      assert t[0] == '-' && t[1..] == u && |t| >= 2;
      NatTextRoundTrip(-i);
    } else {
      assert t == NatText(i) && IsDigit(t[0]);
      NatTextRoundTrip(i);
    }
  }

  /** Comparing from position `k` on: the first differing character decides. */
  lemma StrLessFrom(a: string, b: string, k: nat)
    requires k < |a| && k < |b|
    ensures StrLess(a[k..], b[k..]) == if a[k] != b[k] then UnitRank(a[k]) < UnitRank(b[k]) else StrLess(a[k + 1..], b[k + 1..])
  {
    assert a[k..][1..] == a[k + 1..] && b[k..][1..] == b[k + 1..];
  }

  /** Between equally long heads, the heads decide unless they are equal. */
  lemma {:induction false} StrLessConcat(x1: string, y1: string, x2: string, y2: string)
    requires |x1| == |x2|
    ensures StrLess(x1 + y1, x2 + y2) <==> StrLess(x1, x2) || (x1 == x2 && StrLess(y1, y2))
    decreases |x1|
  {
    if x1 == [] {
      assert x1 + y1 == y1 && x2 + y2 == y2;
    } else {
      assert (x1 + y1)[1..] == x1[1..] + y1 && (x2 + y2)[1..] == x2[1..] + y2;
      StrLessConcat(x1[1..], y1, x2[1..], y2);
      if x1[0] == x2[0] && x1[1..] == x2[1..] {
        assert x1 == [x1[0]] + x1[1..] && x2 == [x2[0]] + x2[1..];
      }
    }
  }

  /** Two-character strings compare by the first character, then the second. */
  lemma StrLessTwo(a: string, b: string)
    requires |a| == 2 && |b| == 2
    ensures StrLess(a, b) <==> UnitRank(a[0]) < UnitRank(b[0]) || (a[0] == b[0] && UnitRank(a[1]) < UnitRank(b[1]))
  {
    StrLessFrom(a, b, 0);
    StrLessFrom(a, b, 1);
    assert a[0..] == a && b[0..] == b;
    assert a[2..] == [] && b[2..] == [];
  }

  /** Digit characters are ordered as their values. */
  lemma DigitCharOrder(x: nat, y: nat)
    requires x < 10 && y < 10
    ensures DigitChar(x) < DigitChar(y) <==> x < y
    ensures DigitChar(x) == DigitChar(y) <==> x == y
  {
  }

  /** Zero-padded two-digit texts compare as strings exactly as the numbers do. */
  lemma Pad2Order(x: nat, y: nat)
    requires x < 100 && y < 100
    ensures StrLess(Pad2(x), Pad2(y)) <==> x < y
    ensures Pad2(x) == Pad2(y) <==> x == y
  {
    Pad2Digits(x);
    Pad2Digits(y);
    DigitPairOrder(x, y);
  }

  /** Two-digit numerals, tens then units, compare as the numbers do. */
  lemma DigitPairOrder(x: nat, y: nat)
    requires x < 100 && y < 100
    ensures var a, b := [DigitChar(x / 10), DigitChar(x % 10)], [DigitChar(y / 10), DigitChar(y % 10)];
      && (StrLess(a, b) <==> x < y)
      && (a == b <==> x == y)
  {
    var a, b := [DigitChar(x / 10), DigitChar(x % 10)], [DigitChar(y / 10), DigitChar(y % 10)];
    StrLessTwo(a, b);
    DigitCharOrder(x / 10, y / 10);
    DigitCharOrder(x % 10, y % 10);
    TensUnitsOrder(x, y);
  }

  /** A two-digit number's order is the order of its tens, then its units. */
  lemma TensUnitsOrder(x: nat, y: nat)
    requires x < 100 && y < 100
    ensures x < y <==> x / 10 < y / 10 || (x / 10 == y / 10 && x % 10 < y % 10)
    ensures x == y <==> x / 10 == y / 10 && x % 10 == y % 10
  {
  }

  /** Equally long heads: the joined strings are equal exactly when both parts are. */
  lemma ConcatEqual(x1: string, y1: string, x2: string, y2: string)
    requires |x1| == |x2|
    ensures x1 + y1 == x2 + y2 <==> x1 == x2 && y1 == y2
  {
    if x1 + y1 == x2 + y2 {
      assert (x1 + y1)[..|x1|] == x1 && (x2 + y2)[..|x2|] == x2;
      assert (x1 + y1)[|x1|..] == y1 && (x2 + y2)[|x2|..] == y2;
    }
  }

  /** `x:y` texts with equally long heads compare by the heads, then the tails. */
  lemma SeparatedOrder(x1: string, y1: string, x2: string, y2: string, sep: char)
    requires |x1| == |x2|
    ensures StrLess(x1 + [sep] + y1, x2 + [sep] + y2) <==> StrLess(x1, x2) || (x1 == x2 && StrLess(y1, y2))
  {
    StrLessConcat(x1, [sep], x2, [sep]);
    StrLessTrichotomy([sep], [sep]);
    StrLessConcat(x1 + [sep], y1, x2 + [sep], y2);
    ConcatEqual(x1, [sep], x2, [sep]);
  }

  /** Both pieces of `a:b` read back when neither holds the separator. */
  lemma FieldsOfPair(a: string, sep: char, b: string)
    requires forall i :: 0 <= i < |a| ==> a[i] != sep
    requires forall i :: 0 <= i < |b| ==> b[i] != sep
    ensures Field(a + [sep] + b, sep, 0) == Some(a)
    ensures Field(a + [sep] + b, sep, 1) == Some(b)
  {
    FieldOfJoin(a, sep, b);
    FieldOfPlain(b, sep);
  }

  /** The first two pieces of `a:b:c` read back when neither holds the separator. */
  lemma FieldsOfTriple(a: string, sep: char, b: string, c: string)
    requires forall i :: 0 <= i < |a| ==> a[i] != sep
    requires forall i :: 0 <= i < |b| ==> b[i] != sep
    ensures Field(a + [sep] + b + [sep] + c, sep, 0) == Some(a)
    ensures Field(a + [sep] + b + [sep] + c, sep, 1) == Some(b)
  {
    assert a + [sep] + b + [sep] + c == a + [sep] + (b + [sep] + c);
    FieldOfJoin(a, sep, b + [sep] + c);
    FieldOfJoin(b, sep, c);
  }
}
