/** What the date grammar of `DateText` guarantees: which strings parse and
    to what, that the three formats agree on the date they name, that
    impossible calendar dates are refused, and that the write format reads
    back as the date it was rendered from. */
module DateTextFacts {
  import opened Wrappers
  import opened Calendar
  import opened DateText

  // ------------------------------------------------------ digit arithmetic

  lemma ValueAppendDigit(t: string, c: char)
    requires AllDigits(t) && IsDigit(c)
    ensures AllDigits(t + [c])
    ensures Value(t + [c]) == Value(t) * 10 + DigitValue(c)
  {
    assert (t + [c])[..|t|] == t;
  }

  lemma ValueOfTwo(t: string)
    requires |t| == 2 && AllDigits(t)
    ensures Value(t) == 10 * DigitValue(t[0]) + DigitValue(t[1])
  {
    assert t == [t[0]] + [t[1]];
    assert [t[0]] == [] + [t[0]];
    ValueAppendDigit([], t[0]);
    ValueAppendDigit([t[0]], t[1]);
  }

  lemma ValueAppendTwo(a: string, b: string)
    requires AllDigits(a) && |b| == 2 && AllDigits(b)
    ensures AllDigits(a + b)
    ensures Value(a + b) == 100 * Value(a) + Value(b)
  {
    ValueAppendDigit(a, b[0]);
    ValueAppendDigit(a + [b[0]], b[1]);
    assert a + b == a + [b[0]] + [b[1]];
    ValueOfTwo(b);
  }

  lemma TwoDigitsValue(n: nat)
    requires n < 100
    ensures Value(TwoDigits(n)) == n
  {
    ValueOfTwo(TwoDigits(n));
  }

  lemma FourDigitsValue(n: nat)
    requires n < 10000
    ensures Value(FourDigits(n)) == n
  {
    TwoDigitsValue(n / 100);
    TwoDigitsValue(n % 100);
    ValueAppendTwo(TwoDigits(n / 100), TwoDigits(n % 100));
  }

  /** A two-digit string is the zero-padded rendering of its own value. */
  lemma TwoDigitsCanonical(t: string)
    requires |t| == 2 && AllDigits(t)
    ensures Value(t) < 100 && TwoDigits(Value(t)) == t
  {
    ValueOfTwo(t);
    var n := Value(t);
    assert n / 10 == DigitValue(t[0]) && n % 10 == DigitValue(t[1]);
    assert DigitChar(DigitValue(t[0])) == t[0];
    assert DigitChar(DigitValue(t[1])) == t[1];
  }

  /** A four-digit string is the zero-padded rendering of its own value. */
  lemma FourDigitsCanonical(t: string)
    requires |t| == 4 && AllDigits(t)
    ensures Value(t) < 10000 && FourDigits(Value(t)) == t
  {
    var hi, lo := t[..2], t[2..];
    assert t == hi + lo;
    ValueAppendTwo(hi, lo);
    TwoDigitsCanonical(hi);
    TwoDigitsCanonical(lo);
    var n := Value(t);
    assert n == 100 * Value(hi) + Value(lo);
    assert n / 100 == Value(hi) && n % 100 == Value(lo);
  }

  // ------------------------------------------ regex alternatives as ranges

  lemma ValueOfOne(t: string)
    requires |t| == 1 && AllDigits(t)
    ensures Value(t) == DigitValue(t[0])
  {
    assert t[..0] == [];
  }

  /** Digit characters compare like the digits they stand for. */
  lemma DigitOrder(c: char, lo: nat, hi: nat)
    requires IsDigit(c) && lo <= hi < 10
    ensures DigitChar(lo) <= c <= DigitChar(hi) <==> lo <= DigitValue(c) <= hi
  {
  }

  /** `1[0-2]|0[1-9]|[1-9]` is exactly the one- or two-digit spellings of 1..12. */
  lemma MonthTokenRange(t: string)
    ensures MonthToken(t) <==> (1 <= |t| <= 2 && AllDigits(t) && 1 <= Value(t) <= 12)
  {
    if |t| == 2 && AllDigits(t) {
      ValueOfTwo(t);
      DigitOrder(t[0], 1, 1);
      DigitOrder(t[0], 0, 0);
      DigitOrder(t[1], 0, 2);
      DigitOrder(t[1], 1, 9);
    } else if |t| == 1 && AllDigits(t) {
      ValueOfOne(t);
      DigitOrder(t[0], 1, 9);
    } else if MonthToken(t) {
      assert AllDigits(t) by {
        DigitOrder(t[0], 0, 9);
        if |t| == 2 { DigitOrder(t[1], 0, 9); }
      }
    }
  }

  /** `3[01]|[12]\d|0[1-9]|[1-9]` is exactly the one- or two-digit spellings
      of 1..31; the remaining alternative ` [1-9]` is a space-padded day. */
  lemma DayTokenRange(t: string)
    ensures DayToken(t) <==>
              || (1 <= |t| <= 2 && AllDigits(t) && 1 <= Value(t) <= 31)
              || (|t| == 2 && t[0] == ' ' && '1' <= t[1] <= '9')
  {
    if |t| == 2 && AllDigits(t) {
      ValueOfTwo(t);
      DigitOrder(t[0], 3, 3);
      DigitOrder(t[0], 1, 2);
      DigitOrder(t[0], 0, 0);
      DigitOrder(t[1], 0, 1);
      DigitOrder(t[1], 1, 9);
    } else if |t| == 1 && AllDigits(t) {
      ValueOfOne(t);
      DigitOrder(t[0], 1, 9);
    }
  }

  /** Every matched field is at least 1 and a space-padded day is a single digit. */
  lemma TokenValues(yt: string, mt: string, dt: string)
    requires TokensOk(yt, mt, dt)
    ensures Value(yt) < 10000
    ensures 1 <= MonthNumber(mt) <= 12
    ensures 1 <= DayNumber(dt) <= 31
  {
    FourDigitsCanonical(yt);
    MonthTokenRange(mt);
    DayTokenRange(dt);
  }

  /** No directive token contains either separator. */
  lemma TokensHaveNoSeparator(yt: string, mt: string, dt: string)
    requires TokensOk(yt, mt, dt)
    ensures '.' !in yt && '-' !in yt
    ensures '.' !in mt && '-' !in mt
    ensures '.' !in dt && '-' !in dt
  {
    assert forall i :: 0 <= i < |yt| ==> IsDigit(yt[i]);
  }

  // ------------------------------------------------------------- splitting

  lemma {:induction false} FindFirst(a: string, c: char, rest: string)
    requires c !in a
    ensures Find(a + [c] + rest, c) == Some(|a|)
    decreases |a|
  {
    if |a| == 0 {
      assert (a + [c] + rest)[0] == c;
    } else {
      var s := a + [c] + rest;
      assert s[0] == a[0] && a[0] != c;
      assert s[1..] == a[1..] + [c] + rest;
      FindFirst(a[1..], c, rest);
    }
  }

  /** Splitting at the separator undoes joining separator-free pieces with it. */
  lemma SplitJoin(a: string, b: string, c: string, sep: char)
    requires sep !in a && sep !in b
    ensures SplitAt(a + [sep] + b + [sep] + c, sep) == Some(Pieces(a, b, c))
  {
    var s := a + [sep] + b + [sep] + c;
    FindFirst(a, sep, b + [sep] + c);
    assert s == a + [sep] + (b + [sep] + c);
    assert s[|a| + 1..] == b + [sep] + c;
    FindFirst(b, sep, c);
    assert s[..|a|] == a;
    assert (b + [sep] + c)[..|b|] == b;
    assert (b + [sep] + c)[|b| + 1..] == c;
  }

  // ------------------------------------------------------- one layout alone

  /** A layout parses its own spelling of valid tokens to the date they name,
      or refuses it when that date does not exist. */
  lemma StrptimeOwnSpelling(l: Layout, yt: string, mt: string, dt: string)
    requires TokensOk(yt, mt, dt)
    ensures Strptime(l, Spell(l, yt, mt, dt)) ==
              if ValidDate(FieldDate(yt, mt, dt)) then Some(FieldDate(yt, mt, dt)) else None
  {
    TokensHaveNoSeparator(yt, mt, dt);
    var sep := Separator(l);
    if l == Iso {
      SplitJoin(yt, mt, dt, sep);
    } else {
      SplitJoin(dt, mt, yt, sep);
    }
  }

  /** No layout parses another layout's spelling: the three formats are mutually exclusive. */
  lemma StrptimeOtherSpelling(l: Layout, l': Layout, yt: string, mt: string, dt: string)
    requires TokensOk(yt, mt, dt) && l != l'
    ensures Strptime(l', Spell(l, yt, mt, dt)) == None
  {
    TokensHaveNoSeparator(yt, mt, dt);
    var s := Spell(l, yt, mt, dt);
    if l == Dotted || l' == Dotted {
      // the other layout's separator does not occur at all
      var sep := Separator(l');
      assert sep !in s;
    } else if l == Iso {
      // read as day-month-year, the four-digit year stands where a day must be
      SplitJoin(yt, mt, dt, '-');
    } else {
      // read as year-month-day, the one- or two-character day stands where four digits must be
      SplitJoin(dt, mt, yt, '-');
    }
  }

  // ---------------------------------------------------- the whole parser

  /** Any layout's spelling of valid tokens parses to the date they name, and
      to `None` exactly when that date does not exist. */
  lemma ParseSpelled(l: Layout, yt: string, mt: string, dt: string)
    requires TokensOk(yt, mt, dt)
    ensures ParseText(Spell(l, yt, mt, dt)) ==
              if ValidDate(FieldDate(yt, mt, dt)) then Some(FieldDate(yt, mt, dt)) else None
  {
    StrptimeOwnSpelling(l, yt, mt, dt);
    forall l' | l' != l
      ensures Strptime(l', Spell(l, yt, mt, dt)) == None
    {
      StrptimeOtherSpelling(l, l', yt, mt, dt);
    }
  }

  /** Whatever parses is some layout's spelling of valid tokens naming a valid date. */
  lemma ParsedIsSpelled(s: string, d: Date)
    requires ParseText(s) == Some(d)
    ensures exists l, yt, mt, dt ::
              && s == Spell(l, yt, mt, dt)
              && TokensOk(yt, mt, dt) && d == FieldDate(yt, mt, dt) && ValidDate(d)
  {
    var l :| l in Layouts && Strptime(l, s) == Some(d);
    var p := SplitAt(s, Separator(l)).value;
    if l == Iso {
      assert s == Spell(l, p.first, p.second, p.third);
    } else {
      assert s == Spell(l, p.third, p.second, p.first);
    }
  }

  /** The string branch of `parse_date` in one statement: `s` parses to `d`
      exactly when `s` spells `d` in one of the three formats and `d` is a
      real calendar date. */
  lemma ParseTextCharacterized(s: string, d: Date)
    ensures ParseText(s) == Some(d) <==>
              exists l, yt, mt, dt ::
                && s == Spell(l, yt, mt, dt)
                && TokensOk(yt, mt, dt) && d == FieldDate(yt, mt, dt) && ValidDate(d)
  {
    if ParseText(s) == Some(d) {
      ParsedIsSpelled(s, d);
    }
    if exists l, yt, mt, dt ::
         && s == Spell(l, yt, mt, dt)
         && TokensOk(yt, mt, dt) && d == FieldDate(yt, mt, dt) && ValidDate(d)
    {
      var l, yt, mt, dt :|
        && s == Spell(l, yt, mt, dt)
        && TokensOk(yt, mt, dt) && d == FieldDate(yt, mt, dt) && ValidDate(d);
      ParseSpelled(l, yt, mt, dt);
    }
  }

  /** The `YYYY-MM-DD`, `DD.MM.YYYY` and `DD-MM-YYYY` spellings of the same
      fields parse to the same result. */
  lemma FormatInvariance(yt: string, mt: string, dt: string)
    requires TokensOk(yt, mt, dt)
    ensures ParseText(Spell(Iso, yt, mt, dt)) == ParseText(Spell(Dotted, yt, mt, dt))
    ensures ParseText(Spell(Dotted, yt, mt, dt)) == ParseText(Spell(Dashed, yt, mt, dt))
  {
    ParseSpelled(Iso, yt, mt, dt);
    ParseSpelled(Dotted, yt, mt, dt);
    ParseSpelled(Dashed, yt, mt, dt);
  }

  /** A spelling that names a day the month does not have parses to `None` in every format. */
  lemma InvalidDateRejected(l: Layout, yt: string, mt: string, dt: string)
    requires TokensOk(yt, mt, dt) && !ValidDate(FieldDate(yt, mt, dt))
    ensures ParseText(Spell(l, yt, mt, dt)) == None
  {
    ParseSpelled(l, yt, mt, dt);
  }

  lemma ValueOfFour(t: string)
    requires |t| == 4 && AllDigits(t)
    ensures Value(t) == 1000 * DigitValue(t[0]) + 100 * DigitValue(t[1])
                      + 10 * DigitValue(t[2]) + DigitValue(t[3])
  {
    assert t == t[..2] + t[2..];
    ValueAppendTwo(t[..2], t[2..]);
    ValueOfTwo(t[..2]);
    ValueOfTwo(t[2..]);
  }

  /** No spelling of 30 February parses, in any format and any year. */
  lemma ThirtiethOfFebruaryRejected(l: Layout, yt: string, mt: string, dt: string)
    requires TokensOk(yt, mt, dt) && MonthNumber(mt) == 2 && DayNumber(dt) == 30
    ensures ParseText(Spell(l, yt, mt, dt)) == None
  {
    InvalidDateRejected(l, yt, mt, dt);
  }

  /** A spelling of 29 February parses exactly when its year is a leap year
      (year 0000 matches `%Y` but lies before year 1, so it never parses). */
  lemma LeapDay(l: Layout, yt: string, mt: string, dt: string)
    requires TokensOk(yt, mt, dt) && MonthNumber(mt) == 2 && DayNumber(dt) == 29
    ensures ParseText(Spell(l, yt, mt, dt)).Some? <==> Value(yt) >= 1 && IsLeapYear(Value(yt))
  {
    ParseSpelled(l, yt, mt, dt);
    TokenValues(yt, mt, dt);
  }

  /** Two ISO dates and their `DD.MM.YYYY` renderings. */
  lemma IsoRewrittenExamples()
    ensures ParseText("2024-01-05") == Some(Date(2024, 1, 5))
    ensures ParseText("2024-01-10") == Some(Date(2024, 1, 10))
    ensures FormatDotted(Date(2024, 1, 5)) == "05.01.2024"
    ensures FormatDotted(Date(2024, 1, 10)) == "10.01.2024"
  {
    IsoJanuaryExample("2024-01-05", "05");
    IsoJanuaryExample("2024-01-10", "10");
    DottedRenderings();
  }

  lemma IsoJanuaryExample(s: string, dt: string)
    requires (s == "2024-01-05" && dt == "05") || (s == "2024-01-10" && dt == "10")
    ensures ParseText(s) == Some(Date(2024, 1, if dt == "05" then 5 else 10))
  {
    var yt, mt := "2024", "01";
    ValueOfFour(yt); ValueOfTwo(mt); ValueOfTwo(dt);
    assert TokensOk(yt, mt, dt);
    assert FieldDate(yt, mt, dt) == Date(2024, 1, if dt == "05" then 5 else 10);
    assert s == Spell(Iso, yt, mt, dt);
    ParseSpelled(Iso, yt, mt, dt);
  }

  lemma TwoDigitsExamples()
    ensures TwoDigits(1) == "01" && TwoDigits(5) == "05" && TwoDigits(10) == "10"
    ensures TwoDigits(20) == "20" && TwoDigits(24) == "24"
  {
    assert DigitChar(0) == '0' && DigitChar(1) == '1' && DigitChar(2) == '2';
    assert DigitChar(4) == '4' && DigitChar(5) == '5';
  }

  lemma DottedRenderings()
    ensures FormatDotted(Date(2024, 1, 5)) == "05.01.2024"
    ensures FormatDotted(Date(2024, 1, 10)) == "10.01.2024"
  {
    TwoDigitsExamples();
    assert FourDigits(2024) == "2024";
    FormatDottedConcat(Date(2024, 1, 5), "05", "01", "2024");
    FormatDottedConcat(Date(2024, 1, 10), "10", "01", "2024");
  }

  lemma FormatDottedConcat(d: Date, dt: string, mt: string, yt: string)
    requires ValidDate(d)
    requires TwoDigits(d.day) == dt && TwoDigits(d.month) == mt && FourDigits(d.year) == yt
    ensures FormatDotted(d) == dt + "." + mt + "." + yt
  {
  }

  // ---------------------------------------------------------- round trip

  /** The write format is the dotted layout spelled with zero-padded fields. */
  lemma FormatDottedIsSpelling(d: Date)
    requires ValidDate(d)
    ensures TokensOk(FourDigits(d.year), TwoDigits(d.month), TwoDigits(d.day))
    ensures FieldDate(FourDigits(d.year), TwoDigits(d.month), TwoDigits(d.day)) == d
    ensures FormatDotted(d) == Spell(Dotted, FourDigits(d.year), TwoDigits(d.month), TwoDigits(d.day))
  {
    var yt, mt, dt := FourDigits(d.year), TwoDigits(d.month), TwoDigits(d.day);
    FourDigitsValue(d.year);
    TwoDigitsValue(d.month);
    TwoDigitsValue(d.day);
    MonthTokenRange(mt);
    DayTokenRange(dt);
  }

  /** The three digit groups of the rendering denote the day, the month and the year. */
  lemma FormatDottedFields(d: Date)
    requires ValidDate(d)
    ensures Value(FormatDotted(d)[..2]) == d.day
    ensures Value(FormatDotted(d)[3..5]) == d.month
    ensures Value(FormatDotted(d)[6..]) == d.year
  {
    var dt, mt, yt := TwoDigits(d.day), TwoDigits(d.month), FourDigits(d.year);
    var s := FormatDotted(d);
    assert s == dt + "." + mt + "." + yt;
    assert s[..2] == dt && s[3..5] == mt && s[6..] == yt;
    TwoDigitsValue(d.day);
    TwoDigitsValue(d.month);
    FourDigitsValue(d.year);
  }

  /** Rendering a valid date as `DD.MM.YYYY` and parsing it back yields that date. */
  lemma FormatThenParse(d: Date)
    requires ValidDate(d)
    ensures ParseText(FormatDotted(d)) == Some(d)
  {
    FormatDottedIsSpelling(d);
    ParseSpelled(Dotted, FourDigits(d.year), TwoDigits(d.month), TwoDigits(d.day));
  }

  /** Zero-padded fields are the rendering of the numbers they denote. */
  lemma PaddedFieldsCanonical(yt: string, mt: string, dt: string)
    requires TokensOk(yt, mt, dt) && |mt| == 2 && |dt| == 2 && AllDigits(dt)
    ensures FieldDate(yt, mt, dt).year < 10000
    ensures FieldDate(yt, mt, dt).month < 100 && FieldDate(yt, mt, dt).day < 100
    ensures FourDigits(FieldDate(yt, mt, dt).year) == yt
    ensures TwoDigits(FieldDate(yt, mt, dt).month) == mt
    ensures TwoDigits(FieldDate(yt, mt, dt).day) == dt
  {
    FourDigitsCanonical(yt);
    TwoDigitsCanonical(mt);
    TwoDigitsCanonical(dt);
  }

  /** Parsing a zero-padded `DD.MM.YYYY` string and rendering the date gives the string back. */
  lemma ParseThenFormat(yt: string, mt: string, dt: string)
    requires TokensOk(yt, mt, dt) && |mt| == 2 && |dt| == 2 && AllDigits(dt)
    requires ValidDate(FieldDate(yt, mt, dt))
    ensures ParseText(Spell(Dotted, yt, mt, dt)) == Some(FieldDate(yt, mt, dt))
    ensures FormatDotted(FieldDate(yt, mt, dt)) == Spell(Dotted, yt, mt, dt)
  {
    ParseSpelled(Dotted, yt, mt, dt);
    PaddedFieldsCanonical(yt, mt, dt);
  }
}
