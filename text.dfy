/**
 * The few pieces of Python string behaviour the driver relies on:
 * `str.split`, `str.join`, `str.strip`, `str(int)`, `int(str)`,
 * and ASCII readings of `str.isalpha` / `str.isdigit`.
 */
module Text {

  import opened Wrappers

  predicate IsDigit(c: char) {
    '0' <= c <= '9'
  }

  /** `c.isalpha()`, restricted to ASCII letters. */
  predicate IsAsciiLetter(c: char) {
    ('a' <= c <= 'z') || ('A' <= c <= 'Z')
  }

  /** `s.isdigit()`: false on the empty string, as in Python. */
  predicate IsDigits(s: string) {
    |s| > 0 && forall i :: 0 <= i < |s| ==> IsDigit(s[i])
  }

  function DigitChar(d: nat): (c: char)
    requires d < 10
    ensures IsDigit(c)
  {
    (('0' as int) + d) as char
  }

  /** `str(n)` for a non-negative integer. */
  function NatToString(n: nat): (s: string)
    ensures IsDigits(s)
    ensures |s| == 1 || s[0] != '0'
    decreases n
  {
    if n < 10 then [DigitChar(n)] else NatToString(n / 10) + [DigitChar(n % 10)]
  }

  /** The value of a string of decimal digits (leading zeros allowed, as `int()` allows them). */
  function DecimalValue(s: string): nat
    requires forall i :: 0 <= i < |s| ==> IsDigit(s[i])
    decreases |s|
  {
    if |s| == 0 then 0
    else 10 * DecimalValue(s[..|s| - 1]) + DigitValue(s[|s| - 1])
  }

  function DigitValue(c: char): (d: nat)
    requires IsDigit(c)
    ensures d < 10
  {
    (c as int) - ('0' as int)
  }

  /* ---------------- `int(s)` ---------------- */

  /** The ASCII characters for which `c.isspace()` holds: tab to carriage return, and 0x1c to the space. */
  predicate IsSpace(c: char) {
    9 <= c as int <= 13 || 28 <= c as int <= 32
  }

  /** `s.lstrip()`: the leading whitespace removed. */
  function StripStart(s: string): string
    decreases |s|
  {
    if |s| > 0 && IsSpace(s[0]) then StripStart(s[1..]) else s
  }

  /** `s.rstrip()`: the trailing whitespace removed. */
  function StripEnd(s: string): string
    decreases |s|
  {
    if |s| > 0 && IsSpace(s[|s| - 1]) then StripEnd(s[..|s| - 1]) else s
  }

  /** `s.strip()`, which `int()` applies before reading the number. */
  function Strip(s: string): string {
    StripEnd(StripStart(s))
  }

  /**
   * Decimal digits with single underscores between them, what `int()` reads
   * after the sign: a digit, or a numeral followed by a digit, or a numeral
   * followed by `_` and a digit.
   */
  predicate IsNumeral(s: string)
    decreases |s|
  {
    && |s| > 0 && IsDigit(s[|s| - 1])
    && (|s| == 1 || IsNumeral(s[..|s| - 1]) || (|s| >= 3 && s[|s| - 2] == '_' && IsNumeral(s[..|s| - 2])))
  }

  /** The value of a numeral; underscores do not count. */
  function NumeralValue(s: string): nat
    requires IsNumeral(s)
    decreases |s|
  {
    if |s| == 1 then DigitValue(s[0])
    else if IsNumeral(s[..|s| - 1]) then 10 * NumeralValue(s[..|s| - 1]) + DigitValue(s[|s| - 1])
    else 10 * NumeralValue(s[..|s| - 2]) + DigitValue(s[|s| - 1])
  }

  /** The number a stripped text denotes: an optional `+` or `-`, then a numeral. */
  function ReadInt(t: string): Option<int> {
    var signed := |t| > 0 && (t[0] == '+' || t[0] == '-');
    var body := if signed then t[1..] else t;
    if !IsNumeral(body) then None
    else if signed && t[0] == '-' then Some(-(NumeralValue(body) as int))
    else Some(NumeralValue(body))
  }

  /**
   * `int(s)`: surrounding whitespace is ignored, then come an optional `+` or
   * `-` and a numeral; any other text raises `ValueError`, here `None`.
   */
  function ParseInt(s: string): Option<int> {
    ReadInt(Strip(s))
  }

  /** A plain digit string is read as its decimal value. */
  lemma ParseIntDigits(s: string)
    requires IsDigits(s)
    ensures ParseInt(s) == Some(DecimalValue(s))
  {
    DigitsUnpadded(s);
    DigitsAreNumeral(s);
  }

  /** Text that neither starts nor ends with whitespace is its own `strip()`. */
  lemma Unpadded(s: string)
    requires |s| == 0 || (!IsSpace(s[0]) && !IsSpace(s[|s| - 1]))
    ensures Strip(s) == s
  {
  }

  lemma DigitsUnpadded(s: string)
    ensures IsDigits(s) ==> Strip(s) == s
  {
    if IsDigits(s) {
      Unpadded(s);
    }
  }

  lemma {:induction false} DigitsNumeral(s: string)
    requires IsDigits(s)
    ensures IsNumeral(s) && NumeralValue(s) == DecimalValue(s)
    decreases |s|
  {
    if |s| > 1 {
      DigitsNumeral(s[..|s| - 1]);
    }
  }

  lemma DigitsAreNumeral(s: string)
    ensures IsDigits(s) ==> IsNumeral(s) && NumeralValue(s) == DecimalValue(s)
  {
    if IsDigits(s) {
      DigitsNumeral(s);
    }
  }

  /** A numeral starts with a digit. */
  lemma {:induction false} NumeralStartsWithDigit(s: string)
    requires IsNumeral(s)
    ensures IsDigit(s[0])
    decreases |s|
  {
    if |s| > 1 {
      if IsNumeral(s[..|s| - 1]) {
        NumeralStartsWithDigit(s[..|s| - 1]);
      } else {
        NumeralStartsWithDigit(s[..|s| - 2]);
      }
    }
  }

  lemma {:induction false} DecimalValueOfString(n: nat)
    ensures DecimalValue(NatToString(n)) == n
    decreases n
  {
    var s := NatToString(n);
    if n >= 10 {
      DecimalValueOfString(n / 10);
      assert s[..|s| - 1] == NatToString(n / 10);
      assert DigitValue(s[|s| - 1]) == n % 10;
      assert DecimalValue(s) == 10 * (n / 10) + n % 10;
    }
  }

  /** `int(str(n)) == n`. */
  lemma ParseIntToString(n: nat)
    ensures ParseInt(NatToString(n)) == Some(n)
  {
    DecimalValueOfString(n);
    ParseIntDigits(NatToString(n));
  }

  /** Different numbers print differently. */
  lemma NatToStringInjective(a: nat, b: nat)
    ensures NatToString(a) == NatToString(b) <==> a == b
  {
    ParseIntToString(a);
    ParseIntToString(b);
  }

  lemma {:induction false} StripStartSpaces(w: string, s: string)
    requires forall i :: 0 <= i < |w| ==> IsSpace(w[i])
    ensures StripStart(w + s) == StripStart(s)
    decreases |w|
  {
    if |w| == 0 {
      assert w + s == s;
    } else {
      assert (w + s)[0] == w[0] && (w + s)[1..] == w[1..] + s;
      StripStartSpaces(w[1..], s);
    }
  }

  lemma {:induction false} StripEndSpaces(s: string, w: string)
    requires forall i :: 0 <= i < |w| ==> IsSpace(w[i])
    ensures StripEnd(s + w) == StripEnd(s)
    decreases |w|
  {
    if |w| == 0 {
      assert s + w == s;
    } else {
      assert (s + w)[|s + w| - 1] == w[|w| - 1] && (s + w)[..|s + w| - 1] == s + w[..|w| - 1];
      StripEndSpaces(s, w[..|w| - 1]);
    }
  }

  /** Text after a string survives its `lstrip()`, unless the string is all whitespace. */
  lemma {:induction false} StripStartAppend(s: string, w: string)
    ensures StripStart(s + w) == if |StripStart(s)| == 0 then StripStart(w) else StripStart(s) + w
    decreases |s|
  {
    if |s| == 0 {
      assert s + w == w;
    } else {
      assert (s + w)[0] == s[0];
      if IsSpace(s[0]) {
        assert (s + w)[1..] == s[1..] + w;
        StripStartAppend(s[1..], w);
      }
    }
  }

  /** `int()` ignores whitespace on either side of its argument. */
  lemma ParseIntPadded(w1: string, s: string, w2: string)
    requires forall i :: 0 <= i < |w1| ==> IsSpace(w1[i])
    requires forall i :: 0 <= i < |w2| ==> IsSpace(w2[i])
    ensures ParseInt(w1 + s + w2) == ParseInt(s)
  {
    assert Strip(w1 + s + w2) == Strip(s) by {
      assert w1 + s + w2 == w1 + (s + w2);
      StripStartSpaces(w1, s + w2);
      StripStartAppend(s, w2);
      if |StripStart(s)| == 0 {
        StripStartSpaces(w2, "");
        assert w2 + "" == w2;
      } else {
        StripEndSpaces(StripStart(s), w2);
      }
    }
  }

  /** A `+` in front of a numeral changes nothing, a `-` negates it. */
  lemma ParseIntSigned(s: string)
    requires IsNumeral(s)
    ensures ParseInt(s) == ParseInt("+" + s) == Some(NumeralValue(s))
    ensures ParseInt("-" + s) == Some(-(NumeralValue(s) as int))
  {
    NumeralStartsWithDigit(s);
    Unpadded(s);
    Unpadded("+" + s);
    Unpadded("-" + s);
    assert ("+" + s)[1..] == s && ("-" + s)[1..] == s;
  }

  /** A numeral followed by a digit. */
  lemma NumeralDigit(p: string, d: char)
    requires IsNumeral(p) && IsDigit(d)
    ensures IsNumeral(p + [d]) && NumeralValue(p + [d]) == 10 * NumeralValue(p) + DigitValue(d)
  {
    assert (p + [d])[..|p|] == p;
  }

  /** A numeral followed by `_` and a digit. */
  lemma NumeralUnderscoreDigit(p: string, d: char)
    requires IsNumeral(p) && IsDigit(d)
    ensures IsNumeral(p + ['_', d]) && NumeralValue(p + ['_', d]) == 10 * NumeralValue(p) + DigitValue(d)
  {
    var s := p + ['_', d];
    assert s[..|s| - 2] == p && s[..|s| - 1] == p + ['_'];
  }

  /** Two numerals of equal value stay equal when the same digit, or `_` and a digit, follows. */
  lemma NumeralsExtend(x: string, y: string, t: string)
    requires IsNumeral(x) && IsNumeral(y) && NumeralValue(x) == NumeralValue(y)
    requires (|t| == 1 && IsDigit(t[0])) || (|t| == 2 && t[0] == '_' && IsDigit(t[1]))
    ensures IsNumeral(x + t) && IsNumeral(y + t) && NumeralValue(x + t) == NumeralValue(y + t)
  {
    if |t| == 1 {
      NumeralDigit(x, t[0]);
      NumeralDigit(y, t[0]);
      assert [t[0]] == t;
    } else {
      NumeralUnderscoreDigit(x, t[1]);
      NumeralUnderscoreDigit(y, t[1]);
      assert ['_', t[1]] == t;
    }
  }

  /** The last digit of a numeral, or `_` and its last digit, split off. */
  lemma NumeralLast(b: string) returns (p: string, t: string)
    requires IsNumeral(b) && |b| > 1
    ensures b == p + t && IsNumeral(p) && |p| < |b|
    ensures (|t| == 1 && IsDigit(t[0])) || (|t| == 2 && t[0] == '_' && IsDigit(t[1]))
  {
    var n := if IsNumeral(b[..|b| - 1]) then |b| - 1 else |b| - 2;
    p, t := b[..n], b[n..];
  }

  lemma UnderscoreMoved(a: string, p: string, t: string)
    ensures a + "_" + (p + t) == (a + "_" + p) + t && a + (p + t) == (a + p) + t
  {
  }

  /** An underscore between two numerals is ignored. */
  lemma {:induction false} NumeralUnderscore(a: string, b: string)
    requires IsNumeral(a) && IsNumeral(b)
    ensures IsNumeral(a + "_" + b) && IsNumeral(a + b)
    ensures NumeralValue(a + "_" + b) == NumeralValue(a + b)
    decreases |b|
  {
    if |b| == 1 {
      NumeralUnderscoreDigit(a, b[0]);
      NumeralDigit(a, b[0]);
      assert a + "_" + b == a + ['_', b[0]] && a + b == a + [b[0]];
    } else {
      var p, t := NumeralLast(b);
      NumeralUnderscore(a, p);
      NumeralsExtend(a + "_" + p, a + p, t);
      UnderscoreMoved(a, p, t);
    }
  }

  /** `int()` ignores an underscore between two numerals. */
  lemma ParseIntUnderscore(a: string, b: string)
    requires IsNumeral(a) && IsNumeral(b)
    ensures ParseInt(a + "_" + b) == ParseInt(a + b) != None
  {
    NumeralUnderscore(a, b);
    ParseIntSigned(a + "_" + b);
    ParseIntSigned(a + b);
  }

  lemma StripSamples()
    ensures Strip(" 5") == Strip("5\n") == "5"
  {
    assert StripStart(" 5") == "5" by {
      assert IsSpace(" 5"[0]) && " 5"[1..] == "5";
    }
    assert StripEnd("5\n") == "5" by {
      assert IsSpace("5\n"[1]) && "5\n"[..1] == "5";
    }
  }

  /** `int()` reads texts that are not plain digit strings: padded ones, */
  lemma ParseIntAcceptsPadded()
    ensures ParseInt(" 5") == ParseInt("5\n") == Some(5)
  {
    ParseIntDigits("5");
    StripSamples();
  }

  lemma SignedUnpadded()
    ensures Strip("+5") == "+5" && Strip("-3") == "-3"
  {
    Unpadded("+5");
    Unpadded("-3");
  }

  /** signed ones, */
  lemma ParseIntAcceptsSigned()
    ensures ParseInt("+5") == Some(5) && ParseInt("-3") == Some(-3)
  {
    DigitsAreNumeral("5");
    DigitsAreNumeral("3");
    assert DecimalValue("5") == 5 && DecimalValue("3") == 3;
    SignedUnpadded();
    assert "+5"[0] == '+' && "+5"[1..] == "5";
    assert "-3"[0] == '-' && "-3"[1..] == "3";
  }

  /** and ones with underscores between digits. */
  lemma ParseIntAcceptsUnderscore()
    ensures ParseInt("1_0") == Some(10)
  {
    assert IsDigits("1") && IsDigits("0");
    DigitsNumeral("1");
    DigitsNumeral("0");
    ParseIntUnderscore("1", "0");
    assert "1" + "_" + "0" == "1_0" && "1" + "0" == NatToString(10);
    ParseIntToString(10);
  }

  /** Texts `int()` refuses. */
  lemma ParseIntRejects()
    ensures ParseInt("") == ParseInt(" ") == ParseInt("_1") == None
    ensures ParseInt("1__0") == ParseInt("5 5") == ParseInt("+-1") == None
  {
    assert Strip(" ") == "" by {
      assert StripStart(" ") == StripStart("");
    }
    assert Strip("_1") == "_1" by { Unpadded("_1"); }
    assert !IsNumeral("_1") by { assert "_1"[..1] == "_"; }
    assert Strip("1__0") == "1__0" by { Unpadded("1__0"); }
    assert !IsNumeral("1__0") by { assert "1__0"[..3] == "1__" && "1__0"[..2] == "1_"; }
    assert Strip("5 5") == "5 5" by { Unpadded("5 5"); }
    assert !IsNumeral("5 5") by { assert "5 5"[..2] == "5 "; }
    assert Strip("+-1") == "+-1" by { Unpadded("+-1"); }
    assert "+-1"[1..] == "-1" && !IsNumeral("-1") by { assert "-1"[..1] == "-"; }
  }

  /** `s.split(sep)` for a non-empty separator: split at the leftmost occurrences. */
  function Split(s: string, sep: string): (parts: seq<string>)
    requires |sep| > 0
    ensures |parts| >= 1
    decreases |s|
  {
    if |s| < |sep| then [s]
    else if s[..|sep|] == sep then [""] + Split(s[|sep|..], sep)
    else
      var rest := Split(s[1..], sep);
      [[s[0]] + rest[0]] + rest[1..]
  }

  /** `sep.join(parts)`. */
  function Join(parts: seq<string>, sep: string): string
    decreases |parts|
  {
    if |parts| == 0 then ""
    else if |parts| == 1 then parts[0]
    else parts[0] + sep + Join(parts[1..], sep)
  }

  /** Joining two non-empty lists is joining each and putting the separator between. */
  lemma {:induction false} JoinConcat(a: seq<string>, b: seq<string>, sep: string)
    requires |a| > 0 && |b| > 0
    ensures Join(a + b, sep) == Join(a, sep) + sep + Join(b, sep)
    decreases |a|
  {
    if |a| == 1 {
      assert (a + b)[1..] == b;
    } else {
      JoinConcat(a[1..], b, sep);
      assert (a + b)[1..] == a[1..] + b;
    }
  }

  /** Joining the pieces of a split gives the string back. */
  lemma {:induction false} JoinSplit(s: string, sep: string)
    requires |sep| > 0
    ensures Join(Split(s, sep), sep) == s
    decreases |s|
  {
    if |s| < |sep| {
    } else if s[..|sep|] == sep {
      var rest := s[|sep|..];
      JoinSplit(rest, sep);
      SplitAtSeparator(s, sep);
      JoinCons("", Split(rest, sep), sep);
      assert s == sep + rest;
    } else {
      var rest := Split(s[1..], sep);
      JoinSplit(s[1..], sep);
      SplitPastFirst(s, sep);
      assert rest == [rest[0]] + rest[1..];
      JoinHeadExtend(s[0], rest[0], rest[1..], sep);
      assert s == [s[0]] + s[1..];
    }
  }

  /** `Split` where the string starts with the separator. */
  lemma SplitAtSeparator(s: string, sep: string)
    requires 0 < |sep| <= |s| && s[..|sep|] == sep
    ensures Split(s, sep) == [""] + Split(s[|sep|..], sep)
  {
  }

  /** `Split` where the string does not start with the separator: its first character joins the first piece. */
  lemma SplitPastFirst(s: string, sep: string)
    requires 0 < |sep| <= |s| && s[..|sep|] != sep
    ensures Split(s, sep) == [[s[0]] + Split(s[1..], sep)[0]] + Split(s[1..], sep)[1..]
  {
  }

  /** Joining a piece in front of a non-empty list. */
  lemma JoinCons(x: string, ps: seq<string>, sep: string)
    requires |ps| > 0
    ensures Join([x] + ps, sep) == x + sep + Join(ps, sep)
  {
    assert ([x] + ps)[1..] == ps;
  }

  /** A character put in front of the first piece comes out in front of the join. */
  lemma JoinHeadExtend(c: char, r0: string, rs: seq<string>, sep: string)
    ensures Join([[c] + r0] + rs, sep) == [c] + Join([r0] + rs, sep)
  {
    if |rs| > 0 {
      JoinCons([c] + r0, rs, sep);
      JoinCons(r0, rs, sep);
    }
  }

  /** No piece of a split on one character holds that character. */
  lemma {:induction false} SplitPiecesFree(s: string, c: char)
    ensures forall i :: 0 <= i < |Split(s, [c])| ==> c !in Split(s, [c])[i]
    decreases |s|
  {
    if |s| >= 1 {
      SplitPiecesFree(s[1..], c);
      if s[0] != c {
        var rest := Split(s[1..], [c]);
        assert s[..1] == [s[0]];
        assert Split(s, [c]) == [[s[0]] + rest[0]] + rest[1..];
      }
    }
  }

  /** A string without the separator splits into itself. */
  lemma {:induction false} SplitWithoutSeparator(s: string, c: char)
    requires c !in s
    ensures Split(s, [c]) == [s]
    decreases |s|
  {
    if |s| >= 1 {
      assert s[..1] == [s[0]];
      SplitWithoutSeparator(s[1..], c);
      assert s == [s[0]] + s[1..];
    }
  }

  /** Splitting on one character distributes over an occurrence of it. */
  lemma {:induction false} SplitAround(a: string, c: char, b: string)
    ensures Split(a + [c] + b, [c]) == Split(a, [c]) + Split(b, [c])
    decreases |a|
  {
    var s := a + [c] + b;
    if |a| == 0 {
      assert s[..1] == [c] && s[1..] == b;
      SplitAtSeparator(s, [c]);
    } else {
      assert s[..1] == [a[0]] && a[..1] == [a[0]];
      assert s[1..] == a[1..] + [c] + b;
      SplitAround(a[1..], c, b);
      var pa, pb := Split(a[1..], [c]), Split(b, [c]);
      if a[0] == c {
        SplitAtSeparator(s, [c]);
        SplitAtSeparator(a, [c]);
        assert [""] + (pa + pb) == ([""] + pa) + pb;
      } else {
        SplitPastFirst(s, [c]);
        SplitPastFirst(a, [c]);
        HeadMerge([a[0]], pa, pb);
      }
    }
  }

  /** Extending the first piece commutes with appending more pieces. */
  lemma HeadMerge(h: string, pa: seq<string>, pb: seq<string>)
    requires |pa| > 0
    ensures [h + (pa + pb)[0]] + (pa + pb)[1..] == ([h + pa[0]] + pa[1..]) + pb
  {
    assert (pa + pb)[0] == pa[0] && (pa + pb)[1..] == pa[1..] + pb;
  }

  /** Splitting a join on a character no piece holds gives the pieces back. */
  lemma {:induction false} SplitJoin(parts: seq<string>, c: char)
    requires |parts| >= 1
    requires forall i :: 0 <= i < |parts| ==> c !in parts[i]
    ensures Split(Join(parts, [c]), [c]) == parts
    decreases |parts|
  {
    SplitWithoutSeparator(parts[0], c);
    if |parts| > 1 {
      SplitJoin(parts[1..], c);
      SplitAround(parts[0], c, Join(parts[1..], [c]));
      assert [parts[0]] + parts[1..] == parts;
    }
  }

  /** Number of occurrences of a character. */
  function CountChar(s: string, c: char): nat
    decreases |s|
  {
    if |s| == 0 then 0 else (if s[0] == c then 1 else 0) + CountChar(s[1..], c)
  }

  /** `len(s.split(c))` is one more than the number of separators. */
  lemma {:induction false} SplitLength(s: string, c: char)
    ensures |Split(s, [c])| == CountChar(s, c) + 1
    decreases |s|
  {
    if |s| >= 1 {
      assert s[..1] == [s[0]];
      SplitLength(s[1..], c);
    }
  }

  /** `s[:-1]`. */
  function DropLast(s: string): string {
    if |s| == 0 then s else s[..|s| - 1]
  }
}
