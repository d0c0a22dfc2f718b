/** The textual side of `parse_date` and of the write path: the three
    `strptime` formats tried in order (`%Y-%m-%d`, `%d.%m.%Y`, `%d-%m-%Y`)
    and the `strftime("%d.%m.%Y")` rendering.

    Each `strptime` directive is modelled by the regular expression CPython's
    `_strptime` compiles for it: `%Y` is four digits, `%m` is
    `1[0-2]|0[1-9]|[1-9]` and `%d` is `3[01]|[12]\d|0[1-9]|[1-9]| [1-9]`
    (a space-padded day is accepted). A match must consume the whole string,
    and the matched fields must then form a valid calendar date, or
    `strptime` raises and the next format is tried. */
module DateText {
  import opened Wrappers
  import opened Calendar

  // ---------------------------------------------------------------- digits

  predicate IsDigit(c: char)
  {
    '0' <= c <= '9'
  }

  function DigitValue(c: char): (n: nat)
    requires IsDigit(c)
    ensures n < 10
  {
    c as int - '0' as int
  }

  function DigitChar(n: nat): (c: char)
    requires n < 10
    ensures IsDigit(c) && DigitValue(c) == n
  {
    (n + '0' as int) as char
  }

  predicate AllDigits(t: string)
  {
    forall i :: 0 <= i < |t| ==> IsDigit(t[i])
  }

  /** The decimal number a string of digits denotes (leading zeros allowed). */
  function Value(t: string): nat
    requires AllDigits(t)
    decreases |t|
  {
    if |t| == 0 then 0
    else Value(t[..|t| - 1]) * 10 + DigitValue(t[|t| - 1])
  }

  // ---------------------------------------------------- directive tokens

  /** `%Y`: exactly four digits. */
  predicate YearToken(t: string)
  {
    |t| == 4 && AllDigits(t)
  }

  /** `%m`: the alternatives `1[0-2]`, `0[1-9]` and `[1-9]`. */
  predicate MonthToken(t: string)
  {
    || (|t| == 2 && t[0] == '1' && '0' <= t[1] <= '2')
    || (|t| == 2 && t[0] == '0' && '1' <= t[1] <= '9')
    || (|t| == 1 && '1' <= t[0] <= '9')
  }

  /** `%d`: the alternatives `3[01]`, `[12]\d`, `0[1-9]`, `[1-9]` and ` [1-9]`. */
  predicate DayToken(t: string)
  {
    || (|t| == 2 && t[0] == '3' && '0' <= t[1] <= '1')
    || (|t| == 2 && '1' <= t[0] <= '2' && IsDigit(t[1]))
    || (|t| == 2 && t[0] == '0' && '1' <= t[1] <= '9')
    || (|t| == 1 && '1' <= t[0] <= '9')
    || (|t| == 2 && t[0] == ' ' && '1' <= t[1] <= '9')
  }

  function MonthNumber(t: string): nat
    requires MonthToken(t)
  {
    Value(t)
  }

  /** The day a `%d` token denotes; a space-padded day denotes its one digit. */
  function DayNumber(t: string): nat
    requires DayToken(t)
  {
    if t[0] == ' ' then DigitValue(t[1]) else Value(t)
  }

  predicate TokensOk(yt: string, mt: string, dt: string)
  {
    YearToken(yt) && MonthToken(mt) && DayToken(dt)
  }

  /** The (possibly invalid) date the three matched fields name. */
  function FieldDate(yt: string, mt: string, dt: string): Date
    requires TokensOk(yt, mt, dt)
  {
    Date(Value(yt), MonthNumber(mt), DayNumber(dt))
  }

  // ------------------------------------------------------------- splitting

  /** Index of the first occurrence of `c` in `s`, if any. */
  function Find(s: string, c: char): (r: Option<nat>)
    ensures r.Some? ==> r.value < |s| && s[r.value] == c && c !in s[..r.value]
    ensures r.None? ==> c !in s
    decreases |s|
  {
    if |s| == 0 then None
    else if s[0] == c then Some(0)
    else match Find(s[1..], c)
      case None => None
      case Some(k) => Some(k + 1)
  }

  datatype Pieces = Pieces(first: string, second: string, third: string)

  /** Cuts `s` at its first two occurrences of `sep`. */
  function SplitAt(s: string, sep: char): (r: Option<Pieces>)
    ensures r.Some? ==>
              && s == r.value.first + [sep] + r.value.second + [sep] + r.value.third
              && sep !in r.value.first && sep !in r.value.second
  {
    match Find(s, sep)
    case None => None
    case Some(i) =>
      match Find(s[i + 1..], sep)
      case None => None
      case Some(j) =>
        assert s == s[..i] + [sep] + s[i + 1..][..j] + [sep] + s[i + 1..][j + 1..];
        Some(Pieces(s[..i], s[i + 1..][..j], s[i + 1..][j + 1..]))
  }

  // --------------------------------------------------------------- layouts

  /** The three formats `parse_date` tries, in its order. */
  datatype Layout = Iso | Dotted | Dashed

  const Layouts: seq<Layout> := [Iso, Dotted, Dashed]

  function Separator(l: Layout): char
  {
    if l == Dotted then '.' else '-'
  }

  /** The string a layout spells from its year, month and day fields. */
  function Spell(l: Layout, yt: string, mt: string, dt: string): string
  {
    var sep := Separator(l);
    if l == Iso then yt + [sep] + mt + [sep] + dt
    else dt + [sep] + mt + [sep] + yt
  }

  /** `datetime.strptime(s, fmt)` reduced to its date: `None` where it raises. */
  function Strptime(l: Layout, s: string): (r: Option<Date>)
    ensures r.Some? ==> ValidDate(r.value)
  {
    match SplitAt(s, Separator(l))
    case None => None
    case Some(p) =>
      var (yt, mt, dt) :=
        if l == Iso then (p.first, p.second, p.third) else (p.third, p.second, p.first);
      if TokensOk(yt, mt, dt) && ValidDate(FieldDate(yt, mt, dt))
      then Some(FieldDate(yt, mt, dt))
      else None
  }

  /** The string branch of `parse_date`: the first format that parses wins. */
  function ParseText(s: string): (r: Option<Date>)
    ensures r.Some? ==> ValidDate(r.value)
    ensures r.Some? ==> exists l :: l in Layouts && Strptime(l, s) == r
    ensures r.None? ==> forall l :: l in Layouts ==> Strptime(l, s).None?
  {
    if Strptime(Iso, s).Some? then Strptime(Iso, s)
    else if Strptime(Dotted, s).Some? then Strptime(Dotted, s)
    else Strptime(Dashed, s)
  }

  // ------------------------------------------------------------ formatting

  function TwoDigits(n: nat): (t: string)
    requires n < 100
    ensures |t| == 2 && AllDigits(t)
  {
    [DigitChar(n / 10), DigitChar(n % 10)]
  }

  function FourDigits(n: nat): (t: string)
    requires n < 10000
    ensures |t| == 4 && AllDigits(t)
  {
    TwoDigits(n / 100) + TwoDigits(n % 100)
  }

  /** `strftime("%d.%m.%Y")`: zero-padded day and month, four-digit year. */
  function FormatDotted(d: Date): (s: string)
    requires ValidDate(d)
    ensures |s| == 10 && s[2] == '.' && s[5] == '.'
    ensures AllDigits(s[..2]) && AllDigits(s[3..5]) && AllDigits(s[6..])
  {
    assert TwoDigits(d.day) + "." + TwoDigits(d.month) + "." + FourDigits(d.year) ==
           TwoDigits(d.day) + ("." + TwoDigits(d.month) + "." + FourDigits(d.year));
    TwoDigits(d.day) + "." + TwoDigits(d.month) + "." + FourDigits(d.year)
  }
}
