/** The motivational-quote rows kept by loadQuotes, and how their text is cleaned. */
module Quotes {
  import opened Text

  /** A parsed CSV row; a missing column reads as the empty string. */
  datatype CsvRow = CsvRow(quote: string, author: string)

  datatype Quote = Quote(quote: string, author: string)

  /** A right single quotation mark decoded with the wrong code page. */
  const ApostropheMojibake: string := "\U{201A}\U{00C4}\U{00F4}"
  /** A horizontal ellipsis decoded with the wrong code page. */
  const EllipsisMojibake: string := "\U{201A}\U{00C4}\U{00B6}"

  /** Both `row.quote` and `row.author` are truthy, i.e. non-empty. */
  predicate Usable(row: CsvRow) {
    row.quote != [] && row.author != []
  }

  /** The quote text with both mis-decoded sequences repaired, then trimmed. */
  function CleanQuote(s: string): (r: string)
    ensures |r| <= |s|
    ensures r != [] ==> !IsSpace(r[0]) && !IsSpace(r[|r| - 1])
  {
    Trim(ReplaceAll(ReplaceAll(s, ApostropheMojibake, "'"), EllipsisMojibake, "\U{2026}"))
  }

  /** A cleaned quote holds neither mis-decoded sequence and has no space at either end. */
  lemma CleanQuoteRepairs(s: string)
    ensures var r := CleanQuote(s);
      && !Occurs(r, ApostropheMojibake) && !Occurs(r, EllipsisMojibake)
      && (r != [] ==> !IsSpace(r[0]) && !IsSpace(r[|r| - 1]))
  {
    var once := ReplaceAll(s, ApostropheMojibake, "'");
    var twice := ReplaceAll(once, EllipsisMojibake, "\U{2026}");
    ReplaceAllRemoves(s, ApostropheMojibake, "'");
    ReplaceAllKeepsOut(once, ApostropheMojibake, EllipsisMojibake, "\U{2026}");
    ReplaceAllRemoves(once, EllipsisMojibake, "\U{2026}");
    TrimKeepsOut(twice, ApostropheMojibake);
    TrimKeepsOut(twice, EllipsisMojibake);
  }

  /** A quote without either mis-decoded sequence is only trimmed. */
  lemma CleanQuoteKeepsText(s: string)
    requires !Occurs(s, ApostropheMojibake) && !Occurs(s, EllipsisMojibake)
    ensures CleanQuote(s) == Trim(s)
  {
    ReplaceAllNoOccurrence(s, ApostropheMojibake, "'");
    ReplaceAllNoOccurrence(s, EllipsisMojibake, "\U{2026}");
  }

  /** Both fields of a kept quote are trimmed, and repairing the text never lengthens it. */
  function Clean(row: CsvRow): (q: Quote)
    ensures |q.quote| <= |row.quote| && |q.author| <= |row.author|
    ensures q.quote != [] ==> !IsSpace(q.quote[0]) && !IsSpace(q.quote[|q.quote| - 1])
    ensures q.author != [] ==> !IsSpace(q.author[0]) && !IsSpace(q.author[|q.author| - 1])
    ensures q.quote == CleanQuote(row.quote) && q.author == Trim(row.author)
  {
    Quote(CleanQuote(row.quote), Trim(row.author))
  }

  /** The quotes loadQuotes pushes for `rows`, in order. */
  function Cleaned(rows: seq<CsvRow>): (qs: seq<Quote>)
    ensures |qs| <= |rows|
  {
    if rows == [] then []
    else
      var last := rows[|rows| - 1];
      Cleaned(rows[..|rows| - 1]) + if Usable(last) then [Clean(last)] else []
  }

  /** Exactly the usable rows produce a quote, one each, in their original order. */
  lemma {:induction false} CleanedKeepsUsable(rows: seq<CsvRow>)
    ensures Cleaned(rows) == seq(|UsableRows(rows)|, i requires 0 <= i < |UsableRows(rows)| => Clean(UsableRows(rows)[i]))
  {
    if rows != [] {
      CleanedKeepsUsable(rows[..|rows| - 1]);
    }
  }

  function UsableRows(rows: seq<CsvRow>): (kept: seq<CsvRow>)
    ensures forall r :: r in kept ==> r in rows && Usable(r)
    ensures forall r :: r in rows && Usable(r) ==> r in kept
  {
    if rows == [] then []
    else
      var last := rows[|rows| - 1];
      UsableRows(rows[..|rows| - 1]) + if Usable(last) then [last] else []
  }

  /** Adding a row at the end keeps it after the earlier kept rows exactly when it is usable. */
  lemma UsableRowsSnoc(rows: seq<CsvRow>, last: CsvRow)
    ensures UsableRows(rows + [last]) == UsableRows(rows) + if Usable(last) then [last] else []
  {
    assert (rows + [last])[..|rows|] == rows;
  }

  /** The rows kept from a concatenation are those kept from its parts, in order. */
  lemma {:induction false} UsableRowsAppend(a: seq<CsvRow>, b: seq<CsvRow>)
    ensures UsableRows(a + b) == UsableRows(a) + UsableRows(b)
  {
    if b == [] {
      assert a + b == a;
    } else {
      var front, last := b[..|b| - 1], b[|b| - 1];
      assert b == front + [last] && a + b == (a + front) + [last];
      UsableRowsAppend(a, front);
      UsableRowsSnoc(a + front, last);
      UsableRowsSnoc(front, last);
    }
  }

  /** A single row is kept, once, exactly when it is usable. */
  lemma UsableRowsSingle(row: CsvRow)
    ensures UsableRows([row]) == if Usable(row) then [row] else []
  {
    assert [row][..0] == [];
  }
}
