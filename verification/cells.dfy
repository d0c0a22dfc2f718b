/** `parse_date`: what a spreadsheet cell's value or a submitted form field
    becomes. A datetime passes through unchanged, a string goes through the
    three `strptime` formats, and anything else is "no date"; it never raises. */
module Cells {
  import opened Wrappers
  import opened Calendar
  import opened DateText
  import DateTextFacts

  /** The Python value handed to `parse_date`: `None` (an empty cell or a
      missing form field), a `str`, a `datetime`, or any other value
      (numbers, booleans, ...), which the parser treats alike. */
  datatype CellValue = Empty | Text(text: string) | Moment(at: Instant) | OtherValue

  function ParseDate(v: CellValue): (r: Option<Instant>)
    ensures v.Moment? ==> r == Some(v.at)
    ensures v.Empty? || v.OtherValue? ==> r == None
    ensures v.Text? && r.Some? ==> r.value.micros == 0 && ParseText(v.text) == Some(r.value.date)
    ensures v.Text? && r.None? ==> ParseText(v.text) == None
  {
    match v
    case Moment(t) => Some(t)
    case Text(s) =>
      (match ParseText(s)
       case None => None
       case Some(d) => Some(Midnight(d)))
    case _ => None
  }

  /** A string parses to the instant `t` exactly when `t` is a midnight and
      the string spells `t`'s date in one of the three formats. */
  lemma ParseDateOfText(s: string, t: Instant)
    ensures ParseDate(Text(s)) == Some(t) <==>
              && t.micros == 0
              && exists l, yt, mt, dt ::
                   && s == Spell(l, yt, mt, dt)
                   && TokensOk(yt, mt, dt) && t.date == FieldDate(yt, mt, dt)
  {
    DateTextFacts.ParseTextCharacterized(s, t.date);
  }
}
