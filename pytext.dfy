/**
 * The few pieces of Python's built-in `str` and `int` behaviour that the
 * flight-search helpers in App.py lean on: `str.strip()`, `int(text)`,
 * `str(n)`, `str.split(sep)`, `str.replace(a, b)` for one character, and
 * `<` on strings. Strings are sequences of Unicode scalar values. A
 * Python `str` is a sequence of code points and can also hold lone
 * surrogates (from the JSON escape "\ud800", say), which a Dafny `char`
 * cannot; such strings are not modelled.
 */
module PyText {

  datatype Option<+T> = None | Some(value: T)

  // ---------------------------------------------------------------------
  // Whitespace, str.strip() and the whitespace int() skips
  // ---------------------------------------------------------------------

  /** Python's `str.isspace()` for a single character. */
  predicate IsSpace(c: char)
  {
    ('\t' <= c <= '\r') || ('\U{1C}' <= c <= '\U{1F}') || c == ' '
    || c == '\U{85}' || c == '\U{A0}' || c == '\U{1680}'
    || ('\U{2000}' <= c <= '\U{200A}') || c == '\U{2028}' || c == '\U{2029}'
    || c == '\U{202F}' || c == '\U{205F}' || c == '\U{3000}'
  }

  /**
   * Which characters count as surrounding whitespace: `str.strip()` drops
   * every `str.isspace()` character; `int()` skips the ASCII characters
   * " \t\n\v\f\r" and the non-ASCII whitespace, but not the ASCII
   * separators U+001C to U+001F.
   */
  datatype Blanks = StrBlanks | IntBlanks

  predicate IsBlank(c: char, ws: Blanks)
  {
    IsSpace(c) && (ws == IntBlanks ==> !('\U{1C}' <= c <= '\U{1F}'))
  }

  /** `s` neither starts nor ends with whitespace. */
  predicate Trimmed(s: string, ws: Blanks := StrBlanks)
  {
    s == [] || (!IsBlank(s[0], ws) && !IsBlank(s[|s| - 1], ws))
  }

  /** `s.lstrip()`: drops the leading whitespace and nothing else. */
  function TrimStart(s: string, ws: Blanks := StrBlanks): (r: string)
    ensures |r| <= |s| && r == s[|s| - |r|..]
    ensures r == [] || !IsBlank(r[0], ws)
    ensures forall i :: 0 <= i < |s| - |r| ==> IsBlank(s[i], ws)
  {
    if s != [] && IsBlank(s[0], ws) then
      var r := TrimStart(s[1..], ws);
      assert s[1..][|s| - 1 - |r|..] == s[|s| - |r|..];
      assert forall i :: 1 <= i < |s| ==> s[i] == s[1..][i - 1];
      r
    else s
  }

  /** `s.rstrip()`: drops the trailing whitespace and nothing else. */
  function TrimEnd(s: string, ws: Blanks := StrBlanks): (r: string)
    ensures |r| <= |s| && r == s[..|r|]
    ensures r == [] || !IsBlank(r[|r| - 1], ws)
    ensures forall i :: |r| <= i < |s| ==> IsBlank(s[i], ws)
  {
    if s != [] && IsBlank(s[|s| - 1], ws) then
      var r := TrimEnd(s[..|s| - 1], ws);
      assert s[..|s| - 1][..|r|] == s[..|r|];
      assert forall i :: 0 <= i < |s| - 1 ==> s[i] == s[..|s| - 1][i];
      r
    else s
  }

  /**
   * `r` is `s` without its surrounding whitespace: the infix of `s` that
   * starts at the first character that is not whitespace, with nothing but
   * whitespace after it.
   */
  predicate Stripped(s: string, r: string, ws: Blanks)
  {
    var k := LeadingBlanks(s, ws);
    k + |r| <= |s| && r == s[k..k + |r|]
    && (forall i :: 0 <= i < k ==> IsBlank(s[i], ws))
    && (forall i :: k + |r| <= i < |s| ==> IsBlank(s[i], ws))
  }

  /**
   * `s.strip()`: `s` without its surrounding whitespace (`StripIsStripped`).
   * The result is trimmed, and is `s` itself when `s` is already trimmed.
   */
  function Strip(s: string, ws: Blanks := StrBlanks): (r: string)
    ensures Trimmed(r, ws)
    ensures Trimmed(s, ws) ==> r == s
  {
    TrimBothTrimmed(s, ws);
    TrimBothOfTrimmed(s, ws);
    TrimStart(TrimEnd(s, ws), ws)
  }

  /** `Strip` drops exactly the surrounding whitespace. */
  lemma StripIsStripped(s: string, ws: Blanks)
    ensures Stripped(s, Strip(s, ws), ws)
  {
    TrimBothInfix(s, ws);
  }

  /** Stripping keeps every character that is not whitespace. */
  lemma StripKeeps(s: string, ws: Blanks, i: nat)
    requires i < |s| && !IsBlank(s[i], ws)
    ensures s[i] in Strip(s, ws)
  {
    StripIsStripped(s, ws);
    StrippedKeeps(s, Strip(s, ws), ws, i);
  }

  lemma StrippedKeeps(s: string, r: string, ws: Blanks, i: nat)
    requires Stripped(s, r, ws)
    requires i < |s| && !IsBlank(s[i], ws)
    ensures s[i] in r
  {
    var k := LeadingBlanks(s, ws);
    assert k <= i < k + |r|;
    assert r[i - k] == s[i];
  }

  /** Stripping a trimmed text followed by a space gives the text back. */
  lemma StripTrailingSpace(s: string)
    requires Trimmed(s)
    ensures Strip(s + " ") == s
  {
    assert TrimEnd(s + " ") == TrimEnd(s) by {
      assert (s + " ")[..|s|] == s;
    }
    TrimBothOfTrimmed(s, StrBlanks);
  }

  lemma TrimBothTrimmed(s: string, ws: Blanks)
    ensures Trimmed(TrimStart(TrimEnd(s, ws), ws), ws)
  {
    var t := TrimEnd(s, ws);
    var r := TrimStart(t, ws);
    if r != [] {
      assert r[|r| - 1] == t[|t| - 1];
    }
  }

  lemma TrimBothOfTrimmed(s: string, ws: Blanks)
    ensures Trimmed(s, ws) ==> TrimStart(TrimEnd(s, ws), ws) == s
  {
    if Trimmed(s, ws) && s != [] {
      assert TrimEnd(s, ws) == s;
    }
  }

  /** The number of whitespace characters `s` starts with. */
  function LeadingBlanks(s: string, ws: Blanks): (n: nat)
    ensures n <= |s|
    ensures forall i :: 0 <= i < n ==> IsBlank(s[i], ws)
    ensures n < |s| ==> !IsBlank(s[n], ws)
  {
    |s| - |TrimStart(s, ws)|
  }

  /** A text that strips to nothing is whitespace to its end. */
  lemma AllBlankWhenStrippedEmpty(s: string, ws: Blanks)
    requires TrimStart(TrimEnd(s, ws), ws) == []
    ensures LeadingBlanks(s, ws) == |s|
  {
  }

  /** Both trims together leave the infix between the leading and the trailing whitespace. */
  lemma TrimBothInfix(s: string, ws: Blanks)
    ensures Stripped(s, TrimStart(TrimEnd(s, ws), ws), ws)
  {
    if TrimStart(TrimEnd(s, ws), ws) == [] {
      EmptyInfix(s, ws);
    } else {
      NonEmptyInfix(s, ws);
    }
  }

  lemma EmptyInfix(s: string, ws: Blanks)
    requires TrimStart(TrimEnd(s, ws), ws) == []
    ensures var r, k := TrimStart(TrimEnd(s, ws), ws), LeadingBlanks(s, ws);
      k + |r| <= |s| && r == s[k..k + |r|] && forall i :: k + |r| <= i < |s| ==> IsBlank(s[i], ws)
  {
    AllBlankWhenStrippedEmpty(s, ws);
  }

  lemma NonEmptyInfix(s: string, ws: Blanks)
    requires TrimStart(TrimEnd(s, ws), ws) != []
    ensures var r, k := TrimStart(TrimEnd(s, ws), ws), LeadingBlanks(s, ws);
      k + |r| <= |s| && r == s[k..k + |r|] && forall i :: k + |r| <= i < |s| ==> IsBlank(s[i], ws)
  {
    var t := TrimEnd(s, ws);
    var r := TrimStart(t, ws);
    var j := |t| - |r|;
    forall i | 0 <= i < |t| ensures t[i] == s[i] {
      assert t == s[..|t|];
    }
    forall i | 0 <= i < j ensures IsBlank(s[i], ws) {
      assert s[i] == t[i];
    }
    assert s[j] == r[0];
    LeadingBlanksAt(s, ws, j);
    assert r == s[j..|t|];
  }

  /** The leading whitespace ends at the first character that is not whitespace. */
  lemma LeadingBlanksAt(s: string, ws: Blanks, j: nat)
    requires j < |s| && !IsBlank(s[j], ws)
    requires forall i :: 0 <= i < j ==> IsBlank(s[i], ws)
    ensures LeadingBlanks(s, ws) == j
  {
  }

  // ---------------------------------------------------------------------
  // Decimal digits, str(n) and int(text)
  // ---------------------------------------------------------------------

  predicate IsDigit(c: char)
  {
    '0' <= c <= '9'
  }

  predicate AllDigits(s: string)
  {
    forall i :: 0 <= i < |s| ==> IsDigit(s[i])
  }

  function DigitChar(d: nat): (c: char)
    requires d < 10
    ensures IsDigit(c)
  {
    "0123456789"[d]
  }

  function DigitValue(c: char): nat
    requires IsDigit(c)
  {
    (c as int - '0' as int) as nat
  }

  /** The number a run of decimal digits denotes. */
  function DigitsValue(s: string): nat
    requires AllDigits(s)
  {
    if s == [] then 0 else 10 * DigitsValue(s[..|s| - 1]) + DigitValue(s[|s| - 1])
  }

  /** `str(n)` for n >= 0: the shortest decimal numeral. */
  function NatDec(n: nat): (s: string)
    ensures 1 <= |s| && AllDigits(s)
    ensures n >= 10 ==> |s| >= 2
    ensures s[0] == '0' ==> n == 0
  {
    if n < 10 then [DigitChar(n)] else NatDec(n / 10) + [DigitChar(n % 10)]
  }

  /** `str(n)`: a minus sign for negative numbers, then the decimal numeral. */
  function Dec(n: int): (s: string)
    ensures s != [] && IsDigit(s[|s| - 1])
    ensures forall c :: c in s ==> IsDigit(c) || c == '-'
    ensures (s[0] == '-') == (n < 0)
    ensures s[if n < 0 then 1 else 0] == '0' ==> n == 0
  {
    if n < 0 then "-" + NatDec(-n) else NatDec(n)
  }

  /**
   * The digit part `int()` accepts: ASCII digits, where a single underscore
   * may stand between two digits.
   */
  predicate IsDigitRun(t: string)
    decreases |t|
  {
    t != [] && IsDigit(t[0])
    && (|t| == 1 || (if t[1] == '_' then IsDigitRun(t[2..]) else IsDigitRun(t[1..])))
  }

  /** The digits of a digit run, its underscores dropped. */
  function RunDigits(t: string): (d: string)
    requires IsDigitRun(t)
    ensures d != [] && AllDigits(d)
    decreases |t|
  {
    [t[0]] + (if |t| == 1 then [] else if t[1] == '_' then RunDigits(t[2..]) else RunDigits(t[1..]))
  }

  function RunValue(t: string): nat
    requires IsDigitRun(t)
  {
    DigitsValue(RunDigits(t))
  }

  /** A digit run holds only digits and underscores and ends in a digit. */
  lemma {:induction false} DigitRunChars(t: string)
    requires IsDigitRun(t)
    ensures forall i :: 0 <= i < |t| ==> IsDigit(t[i]) || t[i] == '_'
    ensures IsDigit(t[|t| - 1])
    decreases |t|
  {
    if |t| > 1 {
      var rest := if t[1] == '_' then t[2..] else t[1..];
      DigitRunChars(rest);
      assert t == (if t[1] == '_' then t[..2] else t[..1]) + rest;
    }
  }

  /** A plain numeral is a digit run that stands for itself. */
  lemma {:induction false} AllDigitsIsRun(t: string)
    requires t != [] && AllDigits(t)
    ensures IsDigitRun(t) && RunDigits(t) == t
    decreases |t|
  {
    if |t| > 1 {
      assert AllDigits(t[1..]) by {
        assert forall i :: 0 <= i < |t| - 1 ==> t[1..][i] == t[i + 1];
      }
      AllDigitsIsRun(t[1..]);
      assert t[1] != '_' by {
        assert IsDigit(t[1]);
      }
      assert IsDigitRun(t);
      assert RunDigits(t) == [t[0]] + RunDigits(t[1..]);
      assert t == [t[0]] + t[1..];
    }
  }

  /**
   * `int(text)` with base 10: the surrounding whitespace `int()` skips is
   * ignored, an optional sign is followed by a digit run; anything else
   * raises ValueError (None).
   */
  function PyInt(text: string): Option<int>
  {
    ParseSigned(Strip(text, IntBlanks))
  }

  /** `int()` on text already stripped of surrounding whitespace. */
  function ParseSigned(t: string): Option<int>
  {
    var signed := t != [] && (t[0] == '+' || t[0] == '-');
    var digits := if signed then t[1..] else t;
    if IsDigitRun(digits) then
      var v: int := RunValue(digits);
      Some(if signed && t[0] == '-' then -v else v)
    else None
  }

  lemma {:induction false} DigitsValueOfNatDec(n: nat)
    ensures DigitsValue(NatDec(n)) == n
  {
    if n >= 10 {
      var s := NatDec(n);
      assert s[..|s| - 1] == NatDec(n / 10);
      DigitsValueOfNatDec(n / 10);
    }
  }

  /** A digit run, with or without a leading sign, has no surrounding whitespace. */
  lemma DigitRunTrimmed(t: string, sign: string)
    requires IsDigitRun(t) && (sign == [] || sign == "-")
    ensures Trimmed(sign + t, IntBlanks)
  {
    DigitRunChars(t);
    var s := sign + t;
    assert s[|s| - 1] == t[|t| - 1];
    assert s[0] == '-' || s[0] == t[0];
  }

  lemma PyIntOfRun(t: string)
    requires IsDigitRun(t)
    ensures PyInt(t) == Some(RunValue(t))
  {
    DigitRunTrimmed(t, []);
    assert [] + t == t;
    assert ParseSigned(t) == Some(RunValue(t));
  }

  lemma PyIntOfNegativeRun(t: string)
    requires IsDigitRun(t)
    ensures PyInt("-" + t) == Some(-(RunValue(t) as int))
  {
    DigitRunTrimmed(t, "-");
    var s := "-" + t;
    assert ParseSigned(s) == Some(-(RunValue(t) as int)) by {
      assert s[0] == '-' && s[1..] == t;
    }
  }

  /** `int(str(n)) == n`. */
  lemma PyIntOfDec(n: int)
    ensures PyInt(Dec(n)) == Some(n)
  {
    var m := if n < 0 then -n else n;
    AllDigitsIsRun(NatDec(m));
    DigitsValueOfNatDec(m);
    if n < 0 {
      PyIntOfNegativeRun(NatDec(m));
    } else {
      PyIntOfRun(NatDec(m));
    }
  }

  /**
   * `int()` refuses a text that holds a character that is no digit, sign,
   * underscore or whitespace.
   */
  lemma PyIntRejectsStrayCharacter(text: string, i: nat)
    requires i < |text|
    requires !IsDigit(text[i]) && !IsBlank(text[i], IntBlanks) && text[i] !in "+-_"
    ensures PyInt(text) == None
  {
    var c := text[i];
    assert c != '+' && c != '-' && c != '_';
    StripKeeps(text, IntBlanks, i);
    ParseSignedRejects(Strip(text, IntBlanks), c);
  }

  /** Text without surrounding whitespace that holds such a character is no number. */
  lemma ParseSignedRejects(t: string, c: char)
    requires c in t && !IsDigit(c) && c != '+' && c != '-' && c != '_'
    ensures ParseSigned(t) == None
  {
    var digits := if t != [] && (t[0] == '+' || t[0] == '-') then t[1..] else t;
    assert c in digits by {
      if digits != t {
        assert t == [t[0]] + digits;
      }
    }
    if IsDigitRun(digits) {
      DigitRunExcludes(digits, c);
    }
  }

  /**
   * The ASCII separators U+001C to U+001F are whitespace to `str.strip()`
   * but not to `int()`: "\x1c5" strips to "5", yet `int()` refuses it,
   * and so does `fmt_duration("PT\x1c5M")`.
   */
  lemma PyIntRefusesSeparator(c: char, d: char)
    requires '\U{1C}' <= c <= '\U{1F}' && IsDigit(d)
    ensures Strip([c, d]) == [d]
    ensures PyInt([c, d]) == None
  {
    StripSeparatorDigit(c, d);
    PyIntSeparatorDigit(c, d);
  }

  lemma StripSeparatorDigit(c: char, d: char)
    requires '\U{1C}' <= c <= '\U{1F}' && IsDigit(d)
    ensures Strip([c, d]) == [d]
  {
    StripIsStripped([c, d], StrBlanks);
    StrippedOneLeading([c, d], Strip([c, d]), StrBlanks);
  }

  lemma PyIntSeparatorDigit(c: char, d: char)
    requires '\U{1C}' <= c <= '\U{1F}'
    ensures PyInt([c, d]) == None
  {
    assert [c, d][0] == c && c !in "+-_";
    PyIntRejectsStrayCharacter([c, d], 0);
  }

  /** Stripping two characters of which only the first is whitespace leaves the second. */
  lemma StrippedOneLeading(s: string, r: string, ws: Blanks)
    requires Stripped(s, r, ws)
    requires |s| == 2 && IsBlank(s[0], ws) && !IsBlank(s[1], ws)
    ensures r == s[1..]
  {
    LeadingBlanksAt(s, ws, 1);
    assert |r| == 1;
  }

  /** A digit run holds no character other than digits and underscores. */
  lemma DigitRunExcludes(t: string, c: char)
    requires IsDigitRun(t) && !IsDigit(c) && c != '_'
    ensures c !in t
  {
    DigitRunChars(t);
  }

  // ---------------------------------------------------------------------
  // str.split(sep) for a one-character separator
  // ---------------------------------------------------------------------

  /** The index of the first `c` in `s`. */
  function IndexOf(s: string, c: char): (k: nat)
    requires c in s
    ensures k < |s| && s[k] == c && c !in s[..k]
  {
    if s[0] == c then 0 else 1 + IndexOf(s[1..], c)
  }

  /** `s.split(sep)`: the pieces between the occurrences of `sep`. */
  function Split(s: string, sep: char): (parts: seq<string>)
    ensures |parts| >= 1
    ensures |parts| == 1 <==> sep !in s
    ensures forall i :: 0 <= i < |parts| ==> sep !in parts[i]
    decreases |s|
  {
    if sep !in s then [s]
    else
      var k := IndexOf(s, sep);
      [s[..k]] + Split(s[k + 1..], sep)
  }

  /** `sep.join(parts)`. */
  function Join(parts: seq<string>, sep: char): string
  {
    if parts == [] then ""
    else if |parts| == 1 then parts[0]
    else parts[0] + [sep] + Join(parts[1..], sep)
  }

  /** Joining a first piece in front of at least one more. */
  lemma JoinCons(first: string, rest: seq<string>, sep: char)
    requires rest != []
    ensures Join([first] + rest, sep) == first + [sep] + Join(rest, sep)
  {
    var parts := [first] + rest;
    assert |parts| >= 2 && parts[0] == first && parts[1..] == rest;
  }

  /** `sep.join(s.split(sep)) == s`: splitting loses nothing. */
  lemma {:induction false} JoinSplit(s: string, sep: char)
    ensures Join(Split(s, sep), sep) == s
    decreases |s|
  {
    if sep in s {
      var k := IndexOf(s, sep);
      var head, tail := s[..k], s[k + 1..];
      assert s == head + [sep] + tail;
      calc {
        Join(Split(s, sep), sep);
        { SplitAt(head, sep, tail); }
        Join([head] + Split(tail, sep), sep);
        { JoinCons(head, Split(tail, sep), sep); }
        head + [sep] + Join(Split(tail, sep), sep);
        { JoinSplit(tail, sep); }
        head + [sep] + tail;
      }
    }
  }

  lemma {:induction false} IndexOfAppend(a: string, b: string, c: char)
    requires c !in a && c in b
    ensures IndexOf(a + b, c) == |a| + IndexOf(b, c)
    decreases |a|
  {
    if a != [] {
      assert (a + b)[1..] == a[1..] + b;
      IndexOfAppend(a[1..], b, c);
    } else {
      assert a + b == b;
    }
  }

  /** Splitting `a + [sep] + b` where `a` holds no `sep`: `a` is the first piece. */
  lemma SplitAt(a: string, sep: char, b: string)
    requires sep !in a
    ensures Split(a + [sep] + b, sep) == [a] + Split(b, sep)
  {
    var s := a + [sep] + b;
    assert s == a + ([sep] + b);
    IndexOfAppend(a, [sep] + b, sep);
    assert s[..|a|] == a;
    assert s[|a| + 1..] == b;
  }

  /** Splitting what was joined from pieces free of `sep` gives the pieces back. */
  lemma {:induction false} SplitJoin(parts: seq<string>, sep: char)
    requires parts != []
    requires forall i :: 0 <= i < |parts| ==> sep !in parts[i]
    ensures Split(Join(parts, sep), sep) == parts
  {
    if |parts| > 1 {
      SplitJoin(parts[1..], sep);
      SplitAt(parts[0], sep, Join(parts[1..], sep));
      assert parts == [parts[0]] + parts[1..];
    }
  }

  /** The first piece of `a + b`, where `a` holds no `sep`, begins with `a`. */
  lemma SplitFirstPiece(a: string, b: string, sep: char)
    requires sep !in a
    ensures Split(a + b, sep)[0] == a + Split(b, sep)[0]
  {
    if sep in b {
      IndexOfAppend(a, b, sep);
      var k := IndexOf(b, sep);
      assert (a + b)[..|a| + k] == a + b[..k];
    } else {
      assert sep !in a + b;
    }
  }

  // ---------------------------------------------------------------------
  // str.replace(a, b) for one-character a and b
  // ---------------------------------------------------------------------

  /** `s.replace(from, to)`: every `from` becomes `to`, all else stays. */
  function Replace(s: string, from: char, to: char): (r: string)
    ensures |r| == |s|
    ensures forall i :: 0 <= i < |s| ==> r[i] == if s[i] == from then to else s[i]
  {
    if s == [] then [] else [if s[0] == from then to else s[0]] + Replace(s[1..], from, to)
  }

  /** `replace` works character by character, so it distributes over concatenation. */
  lemma ReplaceAppend(a: string, b: string, from: char, to: char)
    ensures Replace(a + b, from, to) == Replace(a, from, to) + Replace(b, from, to)
  {
    var l := Replace(a + b, from, to);
    var ra, rb := Replace(a, from, to), Replace(b, from, to);
    var r := ra + rb;
    assert |l| == |r|;
    forall i | 0 <= i < |l| ensures l[i] == r[i] {
      if i < |a| {
        assert (a + b)[i] == a[i] && r[i] == ra[i];
      } else {
        assert (a + b)[i] == b[i - |a|] && r[i] == rb[i - |a|];
      }
    }
  }

  // ---------------------------------------------------------------------
  // str.startswith and `<` on str
  // ---------------------------------------------------------------------

  predicate StartsWith(s: string, prefix: string)
  {
    |prefix| <= |s| && s[..|prefix|] == prefix
  }

  /** A text starts with `prefix` exactly when it is `prefix` followed by the rest. */
  lemma StartsWithAppend(s: string, prefix: string)
    ensures StartsWith(s, prefix) <==> |prefix| <= |s| && s == prefix + s[|prefix|..]
  {
    if |prefix| <= |s| && s == prefix + s[|prefix|..] {
      assert s[..|prefix|] == prefix;
    }
  }

  /**
   * Python's `a < b` on strings: lexicographic by code point, a proper
   * prefix coming first.
   */
  predicate StrLess(a: string, b: string)
  {
    b != [] && (a == [] || a[0] < b[0] || (a[0] == b[0] && StrLess(a[1..], b[1..])))
  }

  lemma {:induction false} StrLessIrreflexive(a: string)
    ensures !StrLess(a, a)
  {
    if a != [] {
      StrLessIrreflexive(a[1..]);
    }
  }

  lemma {:induction false} StrLessTransitive(a: string, b: string, c: string)
    requires StrLess(a, b) && StrLess(b, c)
    ensures StrLess(a, c)
  {
    if a != [] && a[0] == b[0] && b[0] == c[0] {
      StrLessTransitive(a[1..], b[1..], c[1..]);
    }
  }

  /** Any two different strings are ordered one way round. */
  lemma {:induction false} StrLessTotal(a: string, b: string)
    ensures a == b || StrLess(a, b) || StrLess(b, a)
  {
    if a != [] && b != [] && a[0] == b[0] {
      StrLessTotal(a[1..], b[1..]);
      if a[1..] == b[1..] {
        assert a == [a[0]] + a[1..] && b == [b[0]] + b[1..];
      }
    }
  }

  lemma StrLessAsymmetric(a: string, b: string)
    requires StrLess(a, b)
    ensures !StrLess(b, a)
  {
    if StrLess(b, a) {
      StrLessTransitive(a, b, a);
      StrLessIrreflexive(a);
    }
  }
}
