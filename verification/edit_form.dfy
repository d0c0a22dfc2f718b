/** The write half of `edit_file`: the two submitted form fields are parsed
    with `parse_date` and written back to cells I3 and I4 as `DD.MM.YYYY`,
    or as an empty cell when a field is absent or does not parse. */
module EditForm {
  import opened Wrappers
  import opened Calendar
  import opened DateText
  import opened Cells
  import opened CarStatus
  import DateTextFacts

  /** `request.form.get(...)` for the two fields: `None` when a field was not submitted. */
  datatype Form = Form(lastReserved: Option<string>, availableAgain: Option<string>)

  /** An optional string as a cell value: what `parse_date` receives for a
      form field, and what a cell holds after being assigned a string or
      `None`. */
  function AsCell(v: Option<string>): CellValue
  {
    match v
    case None => Empty
    case Some(s) => Text(s)
  }

  /** The value assigned for one field: the parsed date rendered as
      `DD.MM.YYYY`, or `None` (an empty cell). */
  function WrittenValue(field: Option<string>): (w: Option<string>)
    ensures w.None? <==> ParseDate(AsCell(field)).None?
    ensures w.Some? ==> w.value == FormatDotted(ParseDate(AsCell(field)).value.date)
    ensures w.Some? ==> |w.value| == 10 && ParseText(w.value) == Some(ParseDate(AsCell(field)).value.date)
  {
    match ParseDate(AsCell(field))
    case None => None
    case Some(t) =>
      DateTextFacts.FormatThenParse(t.date);
      Some(FormatDotted(t.date))
  }

  /** The sheet after the edit: both cells are overwritten, whatever they held. */
  function ApplyEdit(prior: Sheet, form: Form): (after: Sheet)
    ensures after.i3 == AsCell(WrittenValue(form.lastReserved))
    ensures after.i4 == AsCell(WrittenValue(form.availableAgain))
    ensures (after.i3.Empty? || after.i3.Text?) && (after.i4.Empty? || after.i4.Text?)
    ensures ParseDate(after.i3) == ParseDate(AsCell(form.lastReserved))
    ensures ParseDate(after.i4) == ParseDate(AsCell(form.availableAgain))
    ensures ParseDate(AsCell(form.lastReserved)).None? ==> after.i3 == Empty
    ensures ParseDate(AsCell(form.availableAgain)).None? ==> after.i4 == Empty
  {
    WriteThenRead(form.lastReserved);
    WriteThenRead(form.availableAgain);
    Sheet(AsCell(WrittenValue(form.lastReserved)), AsCell(WrittenValue(form.availableAgain)))
  }

  /** The written cell reads back as exactly the date the field was parsed to. */
  lemma WriteThenRead(field: Option<string>)
    ensures ParseDate(AsCell(WrittenValue(field))) == ParseDate(AsCell(field))
  {
    match ParseDate(AsCell(field))
    case None =>
    case Some(t) =>
      DateTextFacts.FormatThenParse(t.date);
  }

  /** A blank or missing field clears its cell. */
  lemma BlankClears(prior: Sheet)
    ensures ApplyEdit(prior, Form(Some(""), None)) == Sheet(Empty, Empty)
  {
    assert ParseText("") == None;
  }

  /** Any spelling the parser accepts, padded or not (`5.1.2024`, ` 5-01-2024`),
      is written back as the `DD.MM.YYYY` rendering of the date it names;
      a spelling of a date that does not exist empties the cell. */
  lemma SpelledFieldRewritten(l: Layout, yt: string, mt: string, dt: string)
    requires TokensOk(yt, mt, dt)
    ensures WrittenValue(Some(Spell(l, yt, mt, dt))) ==
              if ValidDate(FieldDate(yt, mt, dt)) then Some(FormatDotted(FieldDate(yt, mt, dt))) else None
  {
    DateTextFacts.ParseSpelled(l, yt, mt, dt);
  }

  /** A zero-padded date in any of the three formats is written back as
      the same fields in `DD.MM.YYYY`. */
  lemma PaddedFieldRewritten(l: Layout, yt: string, mt: string, dt: string)
    requires TokensOk(yt, mt, dt) && |mt| == 2 && |dt| == 2 && AllDigits(dt)
    requires ValidDate(FieldDate(yt, mt, dt))
    ensures WrittenValue(Some(Spell(l, yt, mt, dt))) == Some(Spell(Dotted, yt, mt, dt))
  {
    DateTextFacts.ParseSpelled(l, yt, mt, dt);
    DateTextFacts.ParseThenFormat(yt, mt, dt);
  }

  /** Submitting 2024-01-05 and 2024-01-10 writes 05.01.2024 and 10.01.2024. */
  lemma EditExample(prior: Sheet)
    ensures ApplyEdit(prior, Form(Some("2024-01-05"), Some("2024-01-10"))) ==
              Sheet(Text("05.01.2024"), Text("10.01.2024"))
  {
    DateTextFacts.IsoRewrittenExamples();
  }

  /** After an edit, the next scan stores exactly the submitted dates for
      that file, with availability judged against the new date. */
  lemma EditThenRescan(listing: seq<Entry>, j: int, prior: Sheet, form: Form, now: Instant)
    requires 0 <= j < |listing| && Eligible(listing[j].name) && LastWithName(listing, j)
    ensures listing[j].read == Ok(ApplyEdit(prior, form)) ==>
              Rebuild(listing, now)[listing[j].name] ==
                Status(ParseDate(AsCell(form.lastReserved)),
                       ParseDate(AsCell(form.availableAgain)),
                       Availability(ParseDate(AsCell(form.availableAgain)), now))
  {
    RebuildAt(listing, j, now);
  }
}
