/** The size literals accepted for the write buffer: "64KB", "1mb",
    " 2 GB ", "4096" (parse_buffer_size). */
module BufferSize {
  import opened Common

  /** The exception Python's int() raises on a text that is not an integer. */
  datatype ValueError = InvalidLiteral(text: string)

  /** The characters Python's str.isspace() holds true of. */
  predicate IsSpace(c: char)
  {
    || c == ' '
    || '\t' <= c <= '\r'
    || '\U{1c}' <= c <= '\U{1f}'
    || c == '\U{85}' || c == '\U{a0}' || c == '\U{1680}'
    || '\U{2000}' <= c <= '\U{200a}'
    || c == '\U{2028}' || c == '\U{2029}' || c == '\U{202f}' || c == '\U{205f}'
    || c == '\U{3000}'
  }

  /** Which white space a strip drops: str.strip() drops every character
      str.isspace() holds of; int() skips the same ones around its digits
      except the separators U+001C to U+001F, which it refuses. */
  datatype Blanks = StrBlanks | IntBlanks

  predicate IsBlank(b: Blanks, c: char)
  {
    IsSpace(c) && (b == IntBlanks ==> !('\U{1c}' <= c <= '\U{1f}'))
  }

  predicate AllBlank(b: Blanks, s: string)
  {
    forall i :: 0 <= i < |s| ==> IsBlank(b, s[i])
  }

  function UpperChar(c: char): char
  {
    if 'a' <= c <= 'z' then (c as int - 32) as char else c
  }

  function LowerChar(c: char): char
  {
    if 'A' <= c <= 'Z' then (c as int + 32) as char else c
  }

  /** str.upper(), on the ASCII letters. */
  function Upper(s: string): (r: string)
    ensures |r| == |s| && NoLower(r)
    // a lower-case letter becomes its capital, 32 code points below it
    ensures forall i :: 0 <= i < |s| && 'a' <= s[i] <= 'z' ==> 'A' <= r[i] <= 'Z' && r[i] as int == s[i] as int - 32
    ensures forall i :: 0 <= i < |s| && !('a' <= s[i] <= 'z') ==> r[i] == s[i]
  {
    seq(|s|, i requires 0 <= i < |s| => UpperChar(s[i]))
  }

  /** str.lower(), on the ASCII letters. */
  function Lower(s: string): string
  {
    seq(|s|, i requires 0 <= i < |s| => LowerChar(s[i]))
  }

  function StripLeft(b: Blanks, s: string): string
  {
    if s != [] && IsBlank(b, s[0]) then StripLeft(b, s[1..]) else s
  }

  function StripRight(b: Blanks, s: string): string
  {
    if s != [] && IsBlank(b, s[|s| - 1]) then StripRight(b, s[..|s| - 1]) else s
  }

  /** str.strip() with no argument (StrBlanks), or the white space int()
      skips before and after its digits (IntBlanks). */
  function Strip(b: Blanks, s: string): string
  {
    StripRight(b, StripLeft(b, s))
  }

  predicate EndsWith(s: string, suffix: string)
  {
    |suffix| <= |s| && s[|s| - |suffix|..] == suffix
  }

  predicate IsDigit(c: char)
  {
    '0' <= c <= '9'
  }

  predicate AllDigits(s: string)
  {
    forall i :: 0 <= i < |s| ==> IsDigit(s[i])
  }

  /** The number a string of decimal digits denotes. */
  function DigitsValue(ds: string): nat
    requires AllDigits(ds)
  {
    if ds == [] then 0
    else DigitsValue(ds[..|ds| - 1]) * 10 + (ds[|ds| - 1] as int - '0' as int)
  }

  /** Python's int(text) for texts made of an optional sign and decimal
      digits, with the white space int() skips allowed around them. */
  function ParseInt(text: string): (r: Result<int, ValueError>)
    ensures r.Ok? <==> IntegerLiteral(Strip(IntBlanks, text))
    ensures r.Err? ==> r == Err(InvalidLiteral(text))
  {
    var t := Strip(IntBlanks, text);
    var signed := |t| > 0 && (t[0] == '-' || t[0] == '+');
    var digits := if signed then t[1..] else t;
    IntegerLiteralDigits(t);
    if digits != [] && AllDigits(digits) then
      var v: int := DigitsValue(digits);
      Ok(if signed && t[0] == '-' then -v else v)
    else
      Err(InvalidLiteral(text))
  }

  /** The texts int() accepts once stripped: at least one character, each
      a decimal digit, except that the first may be a sign when more
      follow. */
  predicate IntegerLiteral(t: string)
  {
    && |t| > 0
    && forall i :: 0 <= i < |t| ==> IsDigit(t[i]) || (i == 0 && |t| > 1 && (t[0] == '-' || t[0] == '+'))
  }

  lemma IntegerLiteralDigits(t: string)
    ensures var signed := |t| > 0 && (t[0] == '-' || t[0] == '+');
            var digits := if signed then t[1..] else t;
            IntegerLiteral(t) <==> digits != [] && AllDigits(digits)
  {
    var signed := |t| > 0 && (t[0] == '-' || t[0] == '+');
    if signed {
      assert forall i :: 1 <= i < |t| ==> t[i] == t[1..][i - 1];
      assert !IsDigit(t[0]);
    }
  }

  function Scale(r: Result<int, ValueError>, factor: int): Result<int, ValueError>
  {
    match r
    case Ok(n) => Ok(n * factor)
    case Err(e) => Err(e)
  }

  /** parse_buffer_size: upper-case, strip, then read a KB, MB or GB
      suffix as a power of 1024; anything else must be a plain integer. */
  function ParseBufferSize(sizeStr: string): (r: Result<int, ValueError>)
    ensures r.Err? ==> r == Err(InvalidLiteral(Body(Strip(StrBlanks, Upper(sizeStr)))))
  {
    ParseNormalized(Strip(StrBlanks, Upper(sizeStr)))
  }

  /** parse_buffer_size accepts exactly the texts whose upper-cased,
      stripped body is an integer literal once int() has skipped the white
      space around it. */
  lemma ParseBufferSizeAccepts(sizeStr: string)
    ensures ParseBufferSize(sizeStr).Ok? <==>
            IntegerLiteral(Strip(IntBlanks, Body(Strip(StrBlanks, Upper(sizeStr)))))
  {
    var s := Strip(StrBlanks, Upper(sizeStr));
    assert ParseNormalized(s).Ok? <==> ParseInt(Body(s)).Ok?;
  }

  /** The suffix dispatch of parse_buffer_size, on the upper-cased and
      stripped text. */
  function ParseNormalized(s: string): (r: Result<int, ValueError>)
    // a refusal quotes the body int() was given
    ensures r.Err? ==> r == Err(InvalidLiteral(Body(s)))
  {
    if EndsWith(s, "KB") then Scale(ParseInt(s[..|s| - 2]), 1024)
    else if EndsWith(s, "MB") then Scale(ParseInt(s[..|s| - 2]), 1024 * 1024)
    else if EndsWith(s, "GB") then Scale(ParseInt(s[..|s| - 2]), 1024 * 1024 * 1024)
    else ParseInt(s)
  }

  // ---------------------------------------------------------------------
  // Writing sizes down: the literals the parser is meant to accept

  /** The text int() is given: s without its KB, MB or GB suffix. */
  function Body(s: string): (body: string)
    ensures body <= s
    ensures |body| == if EndsWith(s, "KB") || EndsWith(s, "MB") || EndsWith(s, "GB") then |s| - 2 else |s|
  {
    if EndsWith(s, "KB") || EndsWith(s, "MB") || EndsWith(s, "GB") then s[..|s| - 2] else s
  }

  datatype Unit = Bytes | KB | MB | GB

  function Suffix(u: Unit): string
  {
    match u
    case Bytes => ""
    case KB => "KB"
    case MB => "MB"
    case GB => "GB"
  }

  function Factor(u: Unit): int
  {
    match u
    case Bytes => 1
    case KB => 1024
    case MB => 1024 * 1024
    case GB => 1024 * 1024 * 1024
  }

  function DigitChar(d: nat): char
    requires d < 10
  {
    ('0' as int + d) as char
  }

  /** The shortest decimal spelling of k. */
  function Decimal(k: nat): string
  {
    if k < 10 then [DigitChar(k)] else Decimal(k / 10) + [DigitChar(k % 10)]
  }

  /** n written in decimal, with a leading '-' when it is negative. */
  function Literal(n: int): string
  {
    if n < 0 then "-" + Decimal(-n) else Decimal(n)
  }

  lemma {:induction false} DecimalValue(k: nat)
    ensures |Decimal(k)| > 0 && AllDigits(Decimal(k))
    ensures DigitsValue(Decimal(k)) == k
  {
    if k >= 10 {
      DecimalValue(k / 10);
      var d := Decimal(k);
      assert d[..|d| - 1] == Decimal(k / 10);
    }
  }

  /** StripLeft removes a prefix of white space and stops at the first
      character that is not. */
  lemma {:induction false} StripLeftShape(b: Blanks, s: string)
    ensures |StripLeft(b, s)| <= |s| && StripLeft(b, s) == s[|s| - |StripLeft(b, s)|..]
    ensures forall i :: 0 <= i < |s| - |StripLeft(b, s)| ==> IsBlank(b, s[i])
    ensures StripLeft(b, s) == [] || !IsBlank(b, StripLeft(b, s)[0])
  {
    if s != [] && IsBlank(b, s[0]) {
      StripLeftShape(b, s[1..]);
      assert forall i :: 1 <= i < |s| - |StripLeft(b, s)| ==> s[i] == s[1..][i - 1];
    }
  }

  /** StripRight removes a suffix of white space and stops at the last
      character that is not. */
  lemma {:induction false} StripRightShape(b: Blanks, s: string)
    ensures |StripRight(b, s)| <= |s| && StripRight(b, s) == s[..|StripRight(b, s)|]
    ensures forall i :: |StripRight(b, s)| <= i < |s| ==> IsBlank(b, s[i])
    ensures StripRight(b, s) == [] || !IsBlank(b, StripRight(b, s)[|StripRight(b, s)| - 1])
  {
    if s != [] && IsBlank(b, s[|s| - 1]) {
      StripRightShape(b, s[..|s| - 1]);
    }
  }

  /** strip() keeps one slice s[a..b] of its argument: everything outside it
      is white space, and neither end of the slice is. */
  lemma StripShape(b: Blanks, s: string)
    ensures var a := |s| - |StripLeft(b, s)|;
      && 0 <= a <= a + |Strip(b, s)| <= |s| && Strip(b, s) == s[a..a + |Strip(b, s)|]
      && (forall i :: 0 <= i < a ==> IsBlank(b, s[i]))
      && (forall i :: a + |Strip(b, s)| <= i < |s| ==> IsBlank(b, s[i]))
    ensures Strip(b, s) == [] || (!IsBlank(b, Strip(b, s)[0]) && !IsBlank(b, Strip(b, s)[|Strip(b, s)| - 1]))
  {
    var left := StripLeft(b, s);
    StripLeftShape(b, s);
    StripRightShape(b, left);
    var a := |s| - |left|;
    var r := StripRight(b, left);
    assert left == s[a..];
    assert r == left[..|r|];
    assert r == s[a..a + |r|];
    forall i | a + |r| <= i < |s|
      ensures IsBlank(b, s[i])
    {
      assert s[i] == left[i - a];
    }
    assert r != [] ==> r[0] == left[0];
  }

  lemma StripNoSpaceEnds(b: Blanks, s: string)
    requires s != [] && !IsBlank(b, s[0]) && !IsBlank(b, s[|s| - 1])
    ensures Strip(b, s) == s
  {
  }

  /** int() of a text that is digits once int() has skipped the white
      space around them, with no sign, a minus or a plus before them, is the
      number they denote, negated after a minus. */
  lemma ParseIntDigits(text: string, sign: string, ds: string)
    requires sign == "" || sign == "-" || sign == "+"
    requires ds != [] && AllDigits(ds)
    requires Strip(IntBlanks, text) == sign + ds
    ensures ParseInt(text) == Ok(if sign == "-" then -(DigitsValue(ds) as int) else DigitsValue(ds) as int)
  {
    var t := Strip(IntBlanks, text);
    if sign == "" {
      assert t == ds && IsDigit(t[0]) && !(t[0] == '-' || t[0] == '+');
    } else {
      assert t[0] == sign[0] && t[1..] == ds;
    }
  }

  /** A body followed by the suffix of u is read as body scaled by the
      factor of u; for a bare number the body must not itself end in B. */
  lemma DispatchUnit(s: string, body: string, u: Unit)
    requires s == body + Suffix(u)
    requires u == Bytes ==> body != [] && body[|body| - 1] != 'B'
    ensures ParseNormalized(s) == Scale(ParseInt(body), Factor(u))
  {
    match u
    case Bytes =>
      assert s == body;
      assert !EndsWith(s, "KB") && !EndsWith(s, "MB") && !EndsWith(s, "GB") by {
        assert s[|s| - 1] == body[|body| - 1];
      }
    case KB =>
      assert s[..|s| - 2] == body && s[|s| - 2..] == "KB";
    case MB =>
      assert s[..|s| - 2] == body && s[|s| - 2..] == "MB";
    case GB =>
      assert s[..|s| - 2] == body && s[|s| - 2..] == "GB";
  }

  /** No lower-case ASCII letter, so upper-casing changes nothing. */
  predicate NoLower(s: string)
  {
    forall i :: 0 <= i < |s| ==> !('a' <= s[i] <= 'z')
  }

  lemma UpperNoLower(s: string)
    requires NoLower(s)
    ensures Upper(s) == s
  {
  }

  lemma NoLowerAppend(a: string, b: string)
    requires NoLower(a) && NoLower(b)
    ensures NoLower(a + b)
  {
    forall i | 0 <= i < |a + b|
      ensures !('a' <= (a + b)[i] <= 'z')
    {
      if i < |a| {
        assert (a + b)[i] == a[i];
      } else {
        assert (a + b)[i] == b[i - |a|];
      }
    }
  }

  lemma NoLowerSuffix(u: Unit)
    ensures NoLower(Suffix(u))
  {
  }

  /** A literal is its digits with a minus sign before them when negative;
      it begins and ends with neither white space nor a lower-case letter. */
  lemma LiteralShape(n: int)
    ensures var lit := Literal(n);
            var d := Decimal(if n < 0 then -n else n);
            && d != [] && AllDigits(d)
            && lit == (if n < 0 then "-" + d else d)
            && IsDigit(lit[|lit| - 1]) && !IsSpace(lit[0]) && lit[0] != '+'
            && NoLower(lit)
  {
    var k := if n < 0 then -n else n;
    DecimalValue(k);
    var d := Decimal(k);
    var lit := Literal(n);
    assert IsDigit(d[0]) && IsDigit(d[|d| - 1]);
    assert lit[|lit| - 1] == d[|d| - 1];
    forall i | 0 <= i < |lit|
      ensures !('a' <= lit[i] <= 'z')
    {
      if n < 0 && i > 0 {
        assert lit[i] == d[i - 1];
      }
    }
  }

  /** int() reads back every decimal literal. */
  lemma ParseIntLiteral(n: int)
    ensures ParseInt(Literal(n)) == Ok(n)
  {
    var d := Decimal(if n < 0 then -n else n);
    LiteralShape(n);
    DecimalValue(if n < 0 then -n else n);
    StripNoSpaceEnds(IntBlanks, Literal(n));
    ParseIntDigits(Literal(n), if n < 0 then "-" else "", d);
  }

  /** A decimal literal followed by one of the unit suffixes parses to that
      many units of 1, 1024, 1024^2 or 1024^3 bytes. */
  lemma ParseLiteralWithUnit(n: int, u: Unit)
    ensures ParseBufferSize(Literal(n) + Suffix(u)) == Ok(n * Factor(u))
  {
    var lit := Literal(n);
    var t := lit + Suffix(u);
    LiteralShape(n);
    NoLowerSuffix(u);
    NoLowerAppend(lit, Suffix(u));
    UpperNoLower(t);
    assert t[0] == lit[0] && (IsDigit(t[|t| - 1]) || t[|t| - 1] == 'B');
    StripNoSpaceEnds(StrBlanks, t);
    DispatchUnit(t, lit, u);
    ParseIntLiteral(n);
  }

  /** A plus sign before the digits is accepted and changes nothing. */
  lemma PlusLiteralWithUnit(n: nat, u: Unit)
    ensures ParseBufferSize("+" + Literal(n) + Suffix(u)) == Ok(n * Factor(u))
  {
    PlusIntLiteral(n);
    UnitText("+" + Literal(n), u);
  }

  /** int() reads "+" followed by the digits of n as n. */
  lemma PlusIntLiteral(n: nat)
    ensures var lit := "+" + Literal(n);
            && ParseInt(lit) == Ok(n)
            && NoLower(lit) && IsDigit(lit[|lit| - 1])
  {
    var d := Literal(n);
    var lit := "+" + d;
    LiteralShape(n);
    DecimalValue(n);
    NoLowerAppend("+", d);
    assert lit[|lit| - 1] == d[|d| - 1];
    StripNoSpaceEnds(IntBlanks, lit);
    ParseIntDigits(lit, "+", d);
  }

  // ---------------------------------------------------------------------
  // Case and surrounding white space do not matter

  lemma UpperOfLower(s: string)
    ensures Upper(Lower(s)) == Upper(s)
    ensures Upper(Upper(s)) == Upper(s)
  {
  }

  /** The parser does not see the case of the letters it is given. */
  lemma CaseInsensitive(s: string)
    ensures ParseBufferSize(Lower(s)) == ParseBufferSize(s)
    ensures ParseBufferSize(Upper(s)) == ParseBufferSize(s)
  {
    UpperOfLower(s);
  }

  lemma {:induction false} StripLeftSpaces(b: Blanks, w: string, s: string)
    requires AllBlank(b, w)
    ensures StripLeft(b, w + s) == StripLeft(b, s)
  {
    if w != [] {
      assert (w + s)[0] == w[0];
      assert (w + s)[1..] == w[1..] + s;
      StripLeftSpaces(b, w[1..], s);
    } else {
      assert w + s == s;
    }
  }

  lemma {:induction false} StripRightSpaces(b: Blanks, s: string, w: string)
    requires AllBlank(b, w)
    ensures StripRight(b, s + w) == StripRight(b, s)
  {
    if w != [] {
      assert (s + w)[|s + w| - 1] == w[|w| - 1];
      assert (s + w)[..|s + w| - 1] == s + w[..|w| - 1];
      StripRightSpaces(b, s, w[..|w| - 1]);
    } else {
      assert s + w == s;
    }
  }

  lemma {:induction false} StripLeftAppend(b: Blanks, s: string, w: string)
    requires AllBlank(b, w)
    ensures StripLeft(b, s + w) == StripLeft(b, s) + w
            || (StripLeft(b, s) == [] && AllBlank(b, StripLeft(b, s + w)))
  {
    if s == [] {
      assert s + w == w;
      AllSpaceStripLeft(b, w);
    } else if IsBlank(b, s[0]) {
      assert (s + w)[1..] == s[1..] + w;
      StripLeftAppend(b, s[1..], w);
    }
  }

  lemma {:induction false} AllSpaceStripLeft(b: Blanks, w: string)
    requires AllBlank(b, w)
    ensures StripLeft(b, w) == []
  {
    if w != [] {
      AllSpaceStripLeft(b, w[1..]);
    }
  }

  lemma {:induction false} AllSpaceStripRight(b: Blanks, w: string)
    requires AllBlank(b, w)
    ensures StripRight(b, w) == []
  {
    if w != [] {
      AllSpaceStripRight(b, w[..|w| - 1]);
    }
  }

  /** Surrounding white space is dropped before anything else is read. */
  lemma {:induction false} StripIgnoresSpaces(b: Blanks, w1: string, s: string, w2: string)
    requires AllBlank(b, w1) && AllBlank(b, w2)
    ensures Strip(b, w1 + s + w2) == Strip(b, s)
  {
    assert w1 + s + w2 == w1 + (s + w2);
    StripLeftSpaces(b, w1, s + w2);
    StripLeftAppend(b, s, w2);
    if StripLeft(b, s + w2) == StripLeft(b, s) + w2 {
      StripRightSpaces(b, StripLeft(b, s), w2);
    } else {
      AllSpaceStripRight(b, StripLeft(b, s + w2));
    }
  }

  lemma UpperOfSpaces(b: Blanks, w: string)
    requires AllBlank(b, w)
    ensures Upper(w) == w
  {
  }

  /** White space around the literal does not change the result. */
  lemma SurroundingSpaceIgnored(w1: string, s: string, w2: string)
    requires AllBlank(StrBlanks, w1) && AllBlank(StrBlanks, w2)
    ensures ParseBufferSize(w1 + s + w2) == ParseBufferSize(s)
  {
    UpperOfSpaces(StrBlanks, w1);
    UpperOfSpaces(StrBlanks, w2);
    assert Upper(w1 + s + w2) == w1 + Upper(s) + w2;
    StripIgnoresSpaces(StrBlanks, w1, Upper(s), w2);
  }

  /** int() reads back a decimal literal followed by white space it skips. */
  lemma ParseIntLiteralSpaced(n: int, w: string)
    requires AllBlank(IntBlanks, w)
    ensures ParseInt(Literal(n) + w) == Ok(n)
  {
    var lit := Literal(n);
    LiteralShape(n);
    DecimalValue(if n < 0 then -n else n);
    StripIgnoresSpaces(IntBlanks, "", lit, w);
    assert "" + lit + w == lit + w;
    StripNoSpaceEnds(IntBlanks, lit);
    ParseIntDigits(lit + w, if n < 0 then "-" else "", Decimal(if n < 0 then -n else n));
  }

  lemma NoLowerSpaces(b: Blanks, w: string)
    requires AllBlank(b, w)
    ensures NoLower(w)
  {
    forall i | 0 <= i < |w|
      ensures !('a' <= w[i] <= 'z')
    {
      assert IsBlank(b, w[i]);
    }
  }

  /** A body with no lower-case letter and no white space in front, given
      a unit suffix (or none, after a final digit), is read as int() of the
      body scaled by the unit. */
  lemma UnitText(body: string, u: Unit)
    requires body != [] && NoLower(body) && !IsSpace(body[0])
    requires u == Bytes ==> IsDigit(body[|body| - 1])
    ensures ParseBufferSize(body + Suffix(u)) == Scale(ParseInt(body), Factor(u))
  {
    var t := body + Suffix(u);
    NoLowerSuffix(u);
    NoLowerAppend(body, Suffix(u));
    UpperNoLower(t);
    assert t[0] == body[0] && (t[|t| - 1] == 'B' || t[|t| - 1] == body[|body| - 1]);
    StripNoSpaceEnds(StrBlanks, t);
    DispatchUnit(t, body, u);
  }

  /** White space between the number and its unit is dropped by int(),
      when it is white space int() skips. */
  lemma SpaceBeforeUnit(n: int, w: string, u: Unit)
    requires AllBlank(IntBlanks, w) && u != Bytes
    ensures ParseBufferSize(Literal(n) + w + Suffix(u)) == Ok(n * Factor(u))
  {
    var lit := Literal(n);
    LiteralShape(n);
    NoLowerSpaces(IntBlanks, w);
    NoLowerAppend(lit, w);
    assert (lit + w)[0] == lit[0];
    UnitText(lit + w, u);
    ParseIntLiteralSpaced(n, w);
  }

  /** int() refuses a text whose last character is neither a digit nor
      white space it skips. */
  lemma TrailingNonDigitRefused(text: string)
    requires text != [] && !IsBlank(IntBlanks, text[0]) && !IsBlank(IntBlanks, text[|text| - 1])
    requires !IsDigit(text[|text| - 1])
    ensures ParseInt(text) == Err(InvalidLiteral(text))
  {
    StripNoSpaceEnds(IntBlanks, text);
  }

  /** A separator U+001C to U+001F just before the unit survives strip(),
      which leaves inner white space alone, and int() refuses it. */
  lemma SeparatorBeforeUnitRefused(n: int, w: string, u: Unit)
    requires AllBlank(StrBlanks, w) && w != [] && '\U{1c}' <= w[|w| - 1] <= '\U{1f}' && u != Bytes
    ensures ParseBufferSize(Literal(n) + w + Suffix(u)) == Err(InvalidLiteral(Literal(n) + w))
  {
    var lit := Literal(n);
    var body := lit + w;
    LiteralShape(n);
    NoLowerSpaces(StrBlanks, w);
    NoLowerAppend(lit, w);
    assert body[0] == lit[0] && body[|body| - 1] == w[|w| - 1];
    UnitText(body, u);
    TrailingNonDigitRefused(body);
  }

  /** A size is refused, with the int() error on its body, exactly when
      the body, once int() has skipped the white space around it, is not an
      integer literal: a character that is neither a digit nor a leading
      sign, an empty body, or a sign alone. */
  lemma NonIntegerBodyRefused(s: string, body: string, u: Unit)
    requires Strip(StrBlanks, Upper(s)) == body + Suffix(u)
    requires u == Bytes ==> body != [] && body[|body| - 1] != 'B'
    ensures ParseBufferSize(s).Err? <==> !IntegerLiteral(Strip(IntBlanks, body))
    ensures ParseBufferSize(s).Err? ==> ParseBufferSize(s) == Err(InvalidLiteral(body))
  {
    DispatchUnit(Strip(StrBlanks, Upper(s)), body, u);
  }

  // ---------------------------------------------------------------------
  // A few literals

  lemma TwoDigits(a: nat, b: nat)
    requires 1 <= a < 10 && b < 10
    ensures Literal(10 * a + b) == [DigitChar(a), DigitChar(b)]
  {
    assert (10 * a + b) / 10 == a && (10 * a + b) % 10 == b;
    assert Decimal(10 * a + b) == Decimal(a) + [DigitChar(b)];
  }

  lemma KilobyteExample()
    ensures ParseBufferSize("64KB") == Ok(65536)
  {
    var t := Literal(64) + Suffix(KB);
    TwoDigits(6, 4);
    assert t == "64KB";
    ParseLiteralWithUnit(64, KB);
  }

  /** "0KB" is accepted and gives a write unit of zero bytes. */
  lemma ZeroExample()
    ensures ParseBufferSize("0KB") == Ok(0)
  {
    ParseLiteralWithUnit(0, KB);
    assert Literal(0) + Suffix(KB) == "0KB";
  }

  /** A sign is accepted, so a negative size comes back as a value. */
  lemma NegativeExample()
    ensures ParseBufferSize("-2KB") == Ok(-2048)
  {
    ParseLiteralWithUnit(-2, KB);
    assert Decimal(2) == [DigitChar(2)];
    assert Literal(-2) + Suffix(KB) == "-2KB";
  }

  /** A fraction is not an integer. */
  lemma FractionRefused()
    ensures ParseBufferSize("1.5MB").Err?
  {
    assert Upper("1.5MB") == "1.5MB";
    StripNoSpaceEnds(StrBlanks, "1.5MB");
    StripNoSpaceEnds(IntBlanks, "1.5");
    assert !IsDigit("1.5"[1]);
    NonIntegerBodyRefused("1.5MB", "1.5", MB);
  }

  /** A unit with no number before it is refused. */
  lemma UnitAloneRefused()
    ensures ParseBufferSize("KB").Err?
  {
    assert Upper("KB") == "KB";
    StripNoSpaceEnds(StrBlanks, "KB");
    DispatchUnit("KB", "", KB);
  }

  /** A sign with no digits after it is refused. */
  lemma SignAloneRefused()
    ensures ParseBufferSize("-KB").Err?
  {
    assert Upper("-KB") == "-KB";
    StripNoSpaceEnds(StrBlanks, "-KB");
    StripNoSpaceEnds(IntBlanks, "-");
    NonIntegerBodyRefused("-KB", "-", KB);
  }

  /** "+5KB" gives 5120: a plus sign changes nothing. */
  lemma PlusExample()
    ensures ParseBufferSize("+5KB") == Ok(5120)
  {
    var t := "+" + Literal(5) + Suffix(KB);
    assert Literal(5) == [DigitChar(5)];
    assert t == "+5KB";
    PlusLiteralWithUnit(5, KB);
  }

  /** strip() keeps the information separator U+001C before the unit, and
      int() refuses it. */
  lemma SeparatorExample()
    ensures ParseBufferSize("64\U{1c}KB") == Err(InvalidLiteral("64\U{1c}"))
  {
    var w := "\U{1c}";
    TwoDigits(6, 4);
    assert Literal(64) + w + Suffix(KB) == "64\U{1c}KB";
    assert Literal(64) + w == "64\U{1c}";
    SeparatorBeforeUnitRefused(64, w, KB);
  }

  /** "B" alone is not a unit. */
  lemma BareByteSuffixRefused()
    ensures ParseBufferSize("64B").Err?
  {
    assert Upper("64B") == "64B";
    StripNoSpaceEnds(StrBlanks, "64B");
    StripNoSpaceEnds(IntBlanks, "64B");
    assert !IsDigit("64B"[2]);
  }
}
