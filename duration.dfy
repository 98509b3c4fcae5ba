/**
 * `fmt_duration` (App.py): turns the time part of an ISO 8601 duration,
 * `PT<h>H<m>M`, into the display text `<h>h<mm>`. Only the designators
 * `H` and `M` are looked at; seconds are ignored, minutes are not carried
 * into hours, and a field that `int()` refuses raises ValueError.
 */
module Duration {
  import opened PyText

  /** The ValueError `int()` raises, with the literal it refused. */
  datatype ValueError = ValueError(literal: string)

  datatype Result<+T> = Ok(value: T) | Err(error: ValueError)

  /** `format(n, "02d")`: zero-padded to at least two characters, sign included. */
  function Pad2(n: int): (s: string)
    ensures |s| >= 2
    ensures s == Dec(n) || s == "0" + Dec(n)
    ensures |s| == if |Dec(n)| < 2 then 2 else |Dec(n)|
  {
    if 0 <= n < 10 then "0" + Dec(n) else Dec(n)
  }

  /** `int(p) if p else 0`: an empty field counts as zero. */
  function Field(p: string): (r: Result<int>)
    ensures r.Err? ==> r.error == ValueError(p)
    ensures p == [] ==> r == Ok(0)
  {
    if p == [] then Ok(0)
    else match PyInt(p)
      case Some(n) => Ok(n)
      case None => Err(ValueError(p))
  }

  /** The hours field and the text `fmt_duration` goes on to search for minutes. */
  function HoursAndRest(time: string): Result<(int, string)>
  {
    if 'H' !in time then Ok((0, time))
    else
      var parts := Split(time, 'H');
      match Field(parts[0])
      case Err(e) => Err(e)
      case Ok(h) => Ok((h, if |parts| > 1 then parts[1] else ""))
  }

  function Minutes(rest: string): Result<int>
  {
    if 'M' !in rest then Ok(0) else Field(Split(rest, 'M')[0])
  }

  /** What `fmt_duration` does with the text after "PT". */
  function FormatTime(time: string): Result<string>
  {
    match HoursAndRest(time)
    case Err(e) => Err(e)
    case Ok((h, rest)) =>
      match Minutes(rest)
      case Err(e) => Err(e)
      case Ok(m) => Ok(Dec(h) + "h" + Pad2(m))
  }

  /**
   * `fmt_duration(iso)`. The empty text is the answer exactly for an input
   * that does not start with "PT"; any other input yields a non-empty text
   * or a ValueError.
   */
  function FmtDuration(iso: string): (r: Result<string>)
    ensures r == Ok("") <==> !StartsWith(iso, "PT")
  {
    if iso == [] || !StartsWith(iso, "PT") then Ok("") else FormatTime(iso[2..])
  }

  /** Zero padding keeps the number: `int(format(n, "02d")) == n`. */
  lemma Pad2Value(n: int)
    ensures PyInt(Pad2(n)) == Some(n)
  {
    if 0 <= n < 10 {
      var s := ['0', DigitChar(n)];
      assert Pad2(n) == s;
      assert AllDigits(s);
      AllDigitsIsRun(s);
      assert s[..1] == ['0'] && ['0'][..0] == [];
      assert DigitsValue(s) == n;
      PyIntOfRun(s);
    } else {
      assert Pad2(n) == Dec(n);
      PyIntOfDec(n);
    }
  }

  lemma FieldOfDec(n: int)
    ensures Field(Dec(n)) == Ok(n)
  {
    PyIntOfDec(n);
  }

  /** A zero-padded field is read as its number. */
  lemma FieldOfPad2(n: int)
    ensures 'H' !in Pad2(n) && 'M' !in Pad2(n) && Field(Pad2(n)) == Ok(n)
  {
    DecHasNoDesignator(n);
    Pad2Value(n);
  }

  /** `Dec(n)` holds neither designator. */
  lemma DecHasNoDesignator(n: int)
    ensures 'H' !in Dec(n) && 'M' !in Dec(n)
  {
  }

  lemma FmtDurationOf(time: string)
    ensures FmtDuration("PT" + time) == FormatTime(time)
  {
    assert ("PT" + time)[..2] == "PT" && ("PT" + time)[2..] == time;
  }

  /** An hours field `<p>H` read as `h`: the minutes are searched for up to the next `H`. */
  lemma HoursOf(p: string, h: int, after: string)
    requires 'H' !in p && Field(p) == Ok(h)
    ensures HoursAndRest(p + ['H'] + after) == Ok((h, Split(after, 'H')[0]))
  {
    SplitAt(p, 'H', after);
  }

  /** A minutes field `<q>M` read as `m`: whatever follows the `M` is not read. */
  lemma MinutesOf(q: string, m: int, tail: string)
    requires 'M' !in q && Field(q) == Ok(m)
    ensures Minutes(q + ['M'] + tail) == Ok(m)
  {
    SplitAt(q, 'M', tail);
  }

  lemma ZeroText()
    ensures Dec(0) == "0" && Pad2(0) == "00"
  {
    assert NatDec(0) == [DigitChar(0)];
  }

  /** The input text of `fmt_duration`, regrouped as the prefix and the time part. */
  lemma Nested(pt: string, a: string, b: string, c: string, d: string, e: string)
    ensures pt + a + b + c + d + e == pt + (a + b + (c + d + e))
  {
  }

  lemma Nested3(pt: string, a: string, b: string, c: string)
    ensures pt + a + b + c == pt + (a + b + c)
  {
  }

  /** Joining two known pieces of text at the end or the start of a concatenation. */
  lemma JoinedTail(a: string, b: string, c: string, bc: string)
    requires b + c == bc
    ensures a + b + c == a + bc
  {
  }

  lemma JoinedHead(b: string, c: string, bc: string, d: string)
    requires b + c == bc
    ensures b + c + d == bc + d
  {
  }

  /** Zero hours show as "0h". */
  lemma ZeroHoursText(m: int)
    ensures Dec(0) + "h" + Pad2(m) == "0h" + Pad2(m)
  {
    ZeroText();
    JoinedHead("0", "h", "0h", Pad2(m));
  }

  /** Zero minutes show as "00". */
  lemma ZeroMinutesText(h: int)
    ensures Dec(h) + "h" + Pad2(0) == Dec(h) + "h00"
  {
    ZeroText();
    JoinedTail(Dec(h), "h", "00", "h00");
  }

  lemma FormatTimeOf(time: string, h: int, rest: string, m: int)
    requires HoursAndRest(time) == Ok((h, rest)) && Minutes(rest) == Ok(m)
    ensures FormatTime(time) == Ok(Dec(h) + "h" + Pad2(m))
  {
  }

  /**
   * `PT<p>H<q>M` followed by anything, where `int()` reads the fields `p`
   * and `q` (an empty field counting as 0) as `h` and `m`: the text after
   * the first `M`, such as a seconds field, is ignored, and the minutes are
   * shown as they are.
   */
  lemma FmtDurationHoursMinutes(p: string, h: int, q: string, m: int, rest: string)
    requires 'H' !in p && Field(p) == Ok(h)
    requires 'H' !in q && 'M' !in q && Field(q) == Ok(m)
    ensures FmtDuration("PT" + p + "H" + q + "M" + rest) == Ok(Dec(h) + "h" + Pad2(m))
  {
    var after := q + ['M'] + rest;
    var time := p + ['H'] + after;
    var next := Split(rest, 'H')[0];
    assert HoursAndRest(time) == Ok((h, q + ['M'] + next)) by {
      HoursOf(p, h, after);
      assert after == (q + ['M']) + rest;
      SplitFirstPiece(q + ['M'], rest, 'H');
    }
    assert Minutes(q + ['M'] + next) == Ok(m) by {
      MinutesOf(q, m, next);
    }
    calc {
      FmtDuration("PT" + p + "H" + q + "M" + rest);
      { Nested("PT", p, "H", q, "M", rest); }
      FmtDuration("PT" + time);
      { FmtDurationOf(time); }
      FormatTime(time);
      { FormatTimeOf(time, h, q + ['M'] + next, m); }
      Ok(Dec(h) + "h" + Pad2(m));
    }
  }

  /** `PT<q>M` with no hours: the hours show as 0. */
  lemma FmtDurationMinutesOnly(q: string, m: int, rest: string)
    requires 'H' !in q && 'M' !in q && Field(q) == Ok(m) && 'H' !in rest
    ensures FmtDuration("PT" + q + "M" + rest) == Ok("0h" + Pad2(m))
  {
    var time := q + ['M'] + rest;
    assert HoursAndRest(time) == Ok((0, time)) by {
      assert 'H' !in time;
    }
    assert Minutes(time) == Ok(m) by {
      MinutesOf(q, m, rest);
    }
    calc {
      FmtDuration("PT" + q + "M" + rest);
      { Nested3("PT", q, "M", rest); }
      FmtDuration("PT" + time);
      { FmtDurationOf(time); }
      FormatTime(time);
      { FormatTimeOf(time, 0, time, m); }
      Ok(Dec(0) + "h" + Pad2(m));
      { ZeroHoursText(m); }
      Ok("0h" + Pad2(m));
    }
  }

  /** No minutes field: the minutes count as zero. */
  lemma MinutesAbsent(rest: string)
    requires 'M' !in rest
    ensures 'M' !in Split(rest, 'H')[0]
    ensures Minutes(Split(rest, 'H')[0]) == Ok(0)
  {
    var next := Split(rest, 'H')[0];
    if 'H' in rest {
      assert next == rest[..IndexOf(rest, 'H')];
    }
    assert 'M' !in next;
  }

  /**
   * `PT<p>H` with no `M` before the next `H`: the minutes show as 00, even
   * when a later piece holds one.
   */
  lemma FmtDurationHoursOnly(p: string, h: int, rest: string)
    requires 'H' !in p && Field(p) == Ok(h) && 'M' !in Split(rest, 'H')[0]
    ensures FmtDuration("PT" + p + "H" + rest) == Ok(Dec(h) + "h00")
  {
    var time := p + ['H'] + rest;
    var next := Split(rest, 'H')[0];
    assert HoursAndRest(time) == Ok((h, next)) by {
      HoursOf(p, h, rest);
    }
    assert Minutes(next) == Ok(0);
    calc {
      FmtDuration("PT" + p + "H" + rest);
      { Nested3("PT", p, "H", rest); }
      FmtDuration("PT" + time);
      { FmtDurationOf(time); }
      FormatTime(time);
      { FormatTimeOf(time, h, next, 0); }
      Ok(Dec(h) + "h" + Pad2(0));
      { ZeroMinutesText(h); }
      Ok(Dec(h) + "h00");
    }
  }

  /** A non-numeric hours field raises ValueError naming that field. */
  lemma FmtDurationBadHours(p: string, rest: string)
    requires p != [] && 'H' !in p && PyInt(p) == None
    ensures FmtDuration("PT" + p + "H" + rest) == Err(ValueError(p))
  {
    var time := p + ['H'] + rest;
    assert HoursAndRest(time) == Err(ValueError(p)) by {
      SplitAt(p, 'H', rest);
      assert Field(p) == Err(ValueError(p));
    }
    calc {
      FmtDuration("PT" + p + "H" + rest);
      { Nested3("PT", p, "H", rest); }
      FmtDuration("PT" + time);
      { FmtDurationOf(time); }
      FormatTime(time);
      Err(ValueError(p));
    }
  }

  /** A non-numeric minutes field raises ValueError naming that field. */
  lemma FmtDurationBadMinutes(p: string, rest: string)
    requires p != [] && 'H' !in p && 'M' !in p && 'H' !in rest && PyInt(p) == None
    ensures FmtDuration("PT" + p + "M" + rest) == Err(ValueError(p))
  {
    var time := p + ['M'] + rest;
    assert HoursAndRest(time) == Ok((0, time)) by {
      assert 'H' !in time;
    }
    assert Minutes(time) == Err(ValueError(p)) by {
      SplitAt(p, 'M', rest);
      assert Field(p) == Err(ValueError(p));
    }
    calc {
      FmtDuration("PT" + p + "M" + rest);
      { Nested3("PT", p, "M", rest); }
      FmtDuration("PT" + time);
      { FmtDurationOf(time); }
      FormatTime(time);
      Err(ValueError(p));
    }
  }

  /**
   * `PT<p>H<q>M` where the hours field is read but the minutes field is
   * refused: ValueError naming the minutes field.
   */
  lemma FmtDurationBadMinutesAfterHours(p: string, h: int, q: string, rest: string)
    requires 'H' !in p && Field(p) == Ok(h)
    requires q != [] && 'H' !in q && 'M' !in q && PyInt(q) == None
    ensures FmtDuration("PT" + p + "H" + q + "M" + rest) == Err(ValueError(q))
  {
    var after := q + ['M'] + rest;
    var time := p + ['H'] + after;
    var next := Split(rest, 'H')[0];
    assert HoursAndRest(time) == Ok((h, q + ['M'] + next)) by {
      HoursOf(p, h, after);
      assert after == (q + ['M']) + rest;
      SplitFirstPiece(q + ['M'], rest, 'H');
    }
    assert Minutes(q + ['M'] + next) == Err(ValueError(q)) by {
      SplitAt(q, 'M', next);
      assert Field(q) == Err(ValueError(q));
    }
    calc {
      FmtDuration("PT" + p + "H" + q + "M" + rest);
      { Nested("PT", p, "H", q, "M", rest); }
      FmtDuration("PT" + time);
      { FmtDurationOf(time); }
      FormatTime(time);
      Err(ValueError(q));
    }
  }

  /** A time part with neither designator, such as "30S", shows as "0h00". */
  lemma FmtDurationNoDesignator(t: string)
    requires 'H' !in t && 'M' !in t
    ensures FmtDuration("PT" + t) == Ok("0h00")
  {
    FmtDurationOf(t);
    ZeroText();
    FormatTimeOf(t, 0, t, 0);
    assert Dec(0) + "h" + Pad2(0) == "0h00";
  }

  lemma SmallNumerals()
    ensures Dec(1) == "1" && Dec(2) == "2" && Dec(5) == "5"
    ensures Pad2(2) == "02" && Pad2(5) == "05"
    ensures Dec(30) == "30" && Dec(45) == "45" && Dec(90) == "90"
    ensures Pad2(30) == "30" && Pad2(45) == "45" && Pad2(90) == "90"
  {
    assert NatDec(30) == NatDec(3) + "0";
    assert NatDec(45) == NatDec(4) + "5";
    assert NatDec(90) == NatDec(9) + "0";
  }

  /** "PT2H30M" shows as "2h30". */
  lemma FmtDurationExampleHoursMinutes()
    ensures FmtDuration("PT2H30M") == Ok("2h30")
  {
    var iso := "PT" + Dec(2) + "H" + Dec(30) + "M" + "";
    assert "PT2H30M" == iso && Dec(2) + "h" + Pad2(30) == "2h30" by { SmallNumerals(); }
    assert FmtDuration(iso) == Ok(Dec(2) + "h" + Pad2(30)) by {
      FieldOfDec(2);
      FieldOfDec(30);
      DecHasNoDesignator(2);
      DecHasNoDesignator(30);
      FmtDurationHoursMinutes(Dec(2), 2, Dec(30), 30, "");
    }
  }

  /** "PT1H30M15S" shows as "1h30": the seconds are dropped. */
  lemma FmtDurationExampleSecondsDropped()
    ensures FmtDuration("PT1H30M15S") == Ok("1h30")
  {
    var iso := "PT" + Dec(1) + "H" + Dec(30) + "M" + "15S";
    assert "PT1H30M15S" == iso && Dec(1) + "h" + Pad2(30) == "1h30" by { SmallNumerals(); }
    assert FmtDuration(iso) == Ok(Dec(1) + "h" + Pad2(30)) by {
      FieldOfDec(1);
      FieldOfDec(30);
      DecHasNoDesignator(1);
      DecHasNoDesignator(30);
      FmtDurationHoursMinutes(Dec(1), 1, Dec(30), 30, "15S");
    }
  }

  /** "PT45M" shows as "0h45". */
  lemma FmtDurationExampleMinutes()
    ensures FmtDuration("PT45M") == Ok("0h45")
  {
    var iso := "PT" + Dec(45) + "M" + "";
    assert "PT45M" == iso && "0h" + Pad2(45) == "0h45" by { SmallNumerals(); }
    assert FmtDuration(iso) == Ok("0h" + Pad2(45)) by {
      FieldOfDec(45);
      DecHasNoDesignator(45);
      FmtDurationMinutesOnly(Dec(45), 45, "");
    }
  }

  /** "PT90M" shows as "0h90": minutes are not carried into hours. */
  lemma FmtDurationExampleNoCarry()
    ensures FmtDuration("PT90M") == Ok("0h90")
  {
    var iso := "PT" + Dec(90) + "M" + "";
    assert "PT90M" == iso && "0h" + Pad2(90) == "0h90" by { SmallNumerals(); }
    assert FmtDuration(iso) == Ok("0h" + Pad2(90)) by {
      FieldOfDec(90);
      DecHasNoDesignator(90);
      FmtDurationMinutesOnly(Dec(90), 90, "");
    }
  }

  /** "PT1H" shows as "1h00". */
  lemma FmtDurationExampleHours()
    ensures FmtDuration("PT1H") == Ok("1h00")
  {
    var iso := "PT" + Dec(1) + "H" + "";
    assert "PT1H" == iso && Dec(1) + "h00" == "1h00" by { SmallNumerals(); }
    assert FmtDuration(iso) == Ok(Dec(1) + "h00") by {
      FieldOfDec(1);
      DecHasNoDesignator(1);
      MinutesAbsent("");
      FmtDurationHoursOnly(Dec(1), 1, "");
    }
  }

  /** "PT1H5H2M" shows as "1h00": the minutes are only looked for before the second `H`. */
  lemma FmtDurationExampleLaterMinutes()
    ensures FmtDuration("PT1H5H2M") == Ok("1h00")
  {
    var rest := Dec(5) + "H" + Dec(2) + "M";
    var iso := "PT" + Dec(1) + "H" + rest;
    assert "PT1H5H2M" == iso && Dec(1) + "h00" == "1h00" by { SmallNumerals(); }
    assert 'M' !in Split(rest, 'H')[0] by {
      DecHasNoDesignator(5);
      assert rest == Dec(5) + ['H'] + (Dec(2) + "M");
      SplitAt(Dec(5), 'H', Dec(2) + "M");
    }
    assert FmtDuration(iso) == Ok(Dec(1) + "h00") by {
      FieldOfDec(1);
      DecHasNoDesignator(1);
      FmtDurationHoursOnly(Dec(1), 1, rest);
    }
  }

  /** A bare "PT" shows as "0h00". */
  lemma FmtDurationExampleEmptyTime()
    ensures FmtDuration("PT") == Ok("0h00")
  {
    assert "PT" == "PT" + "";
    FmtDurationNoDesignator("");
  }

  /** "PT30S" shows as "0h00": a seconds-only duration is dropped whole. */
  lemma FmtDurationExampleSecondsOnly()
    ensures FmtDuration("PT30S") == Ok("0h00")
  {
    assert "PT30S" == "PT" + "30S";
    FmtDurationNoDesignator("30S");
  }

  /** "PT2HxM" raises ValueError for the minutes literal "x". */
  lemma FmtDurationExampleBadMinutesAfterHours()
    ensures FmtDuration("PT2HxM") == Err(ValueError("x"))
  {
    var iso := "PT" + Dec(2) + "H" + "x" + "M" + "";
    assert "PT2HxM" == iso by { SmallNumerals(); }
    assert PyInt("x") == None by { PyIntRejectsStrayCharacter("x", 0); }
    assert FmtDuration(iso) == Err(ValueError("x")) by {
      FieldOfDec(2);
      DecHasNoDesignator(2);
      FmtDurationBadMinutesAfterHours(Dec(2), 2, "x", "");
    }
  }

  /** "PT02H5M" shows as "2h05": a zero-padded hours field is read by `int()`. */
  lemma FmtDurationExamplePadded()
    ensures FmtDuration("PT02H5M") == Ok("2h05")
  {
    var iso := "PT" + Pad2(2) + "H" + Dec(5) + "M" + "";
    assert "PT02H5M" == iso && Dec(2) + "h" + Pad2(5) == "2h05" by { SmallNumerals(); }
    assert FmtDuration(iso) == Ok(Dec(2) + "h" + Pad2(5)) by {
      FieldOfPad2(2);
      DecHasNoDesignator(5);
      FieldOfDec(5);
      FmtDurationHoursMinutes(Pad2(2), 2, Dec(5), 5, "");
    }
  }

  /**
   * "PT\x1c5M" raises ValueError, and so does every minutes field made of
   * an ASCII separator U+001C to U+001F and a digit: `int()` does not skip
   * the separator, although `str.strip()` would.
   */
  lemma FmtDurationSeparatorMinutes(c: char, d: char)
    requires '\U{1C}' <= c <= '\U{1F}' && IsDigit(d)
    ensures FmtDuration("PT" + [c, d] + "M") == Err(ValueError([c, d]))
  {
    var field := [c, d];
    assert "PT" + field + "M" == "PT" + field + "M" + "";
    assert 'H' !in field && 'M' !in field;
    PyIntSeparatorDigit(c, d);
    FmtDurationBadMinutes(field, "");
  }

  /** "PTxH" raises ValueError for the literal "x". */
  lemma FmtDurationExampleBadHours()
    ensures FmtDuration("PTxH") == Err(ValueError("x"))
  {
    assert "PTxH" == "PT" + "x" + "H" + "";
    PyIntRejectsStrayCharacter("x", 0);
    FmtDurationBadHours("x", "");
  }

  /** Inputs that do not start with "PT", the empty one included, give "". */
  lemma FmtDurationExampleRejected()
    ensures FmtDuration("") == Ok("")
    ensures FmtDuration("P1D") == Ok("")
  {
    assert "P1D"[1] == '1';
  }
}
