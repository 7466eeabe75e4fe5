/**
  The CSV export of the sender list: a header line, then one line per
  sender whose text cells are wrapped in double quotes. Inside a quoted
  field a quote is written twice (section 2, rule 7 of RFC 4180), which
  the export does for the sender name only. A reader for that format is
  defined here too, so that what the export writes can be read back.
 */
module Csv {
  import opened Wrappers
  import opened Records

  const Header := "Sender Name,Sender Email,Email Count,First Email,Last Email\n"

  // ---------------------------------------------------------------------
  // Writing

  /** `text.replace(/"/g, '""')`: every quote doubled. */
  function EscapeQuotes(text: string): string {
    if text == [] then []
    else (if text[0] == '"' then "\"\"" else [text[0]]) + EscapeQuotes(text[1..])
  }

  /** `"${text}"`: the text between quotes, as it is. */
  function Wrap(text: string): string {
    "\"" + text + "\""
  }

  /** `"${text.replace(/"/g, '""')}"`: a quoted field holding the text. */
  function Quote(text: string): string {
    Wrap(EscapeQuotes(text))
  }

  /** The canonical decimal form of a number, as `${n}` writes it. */
  function Decimal(n: nat): (s: string)
    ensures |s| >= 1
    ensures forall i :: 0 <= i < |s| ==> '0' <= s[i] <= '9'
    ensures |s| > 1 ==> s[0] != '0'
  {
    if n < 10 then [('0' as int + n) as char]
    else Decimal(n / 10) + [('0' as int + n % 10) as char]
  }

  /** Cells joined by commas, ended by a newline. */
  function Line(cells: seq<string>): string
    requires |cells| >= 1
  {
    if |cells| == 1 then cells[0] + "\n"
    else cells[0] + "," + Line(cells[1..])
  }

  /**
    The line the export writes for a sender, as written: the name is
    escaped, the address and the two formatted dates are wrapped in quotes
    as they are. formatDate stands for `toLocaleDateString`.
   */
  function SenderRow(s: SenderStat, formatDate: int -> string): string {
    Line([Quote(s.name), Wrap(s.email), Decimal(s.count), Wrap(formatDate(s.firstEmail)), Wrap(formatDate(s.lastEmail))])
  }

  /** The same line with the address escaped like the name. */
  function SenderRowEscaped(s: SenderStat, formatDate: int -> string): string {
    Line([Quote(s.name), Quote(s.email), Decimal(s.count), Wrap(formatDate(s.firstEmail)), Wrap(formatDate(s.lastEmail))])
  }

  /** The lines for a list of senders, in order, as written. */
  function RowsAsWritten(senders: seq<SenderStat>, formatDate: int -> string): string {
    if senders == [] then [] else SenderRow(senders[0], formatDate) + RowsAsWritten(senders[1..], formatDate)
  }

  /** The lines for a list of senders, in order, with every address escaped. */
  function Rows(senders: seq<SenderStat>, formatDate: int -> string): string {
    if senders == [] then [] else SenderRowEscaped(senders[0], formatDate) + Rows(senders[1..], formatDate)
  }

  /**
    `exportToCSV()`: nothing when there is no current analysis; otherwise
    the header followed by one line per sender, built by appending to a
    string in a loop.
   */
  method ExportCsv(current: Option<Analysis>, formatDate: int -> string) returns (csv: Option<string>)
    ensures current.None? <==> csv.None?
    ensures current.Some? ==> csv == Some(Header + Rows(current.value.senders, formatDate))
    ensures current.Some? && (forall i :: 0 <= i < |current.value.senders| ==> '"' !in current.value.senders[i].email) ==>
      csv == Some(Header + RowsAsWritten(current.value.senders, formatDate))
  {
    if current.None? {
      return None;
    }
    var senders := current.value.senders;
    var text := Header;
    for i := 0 to |senders|
      invariant text == Header + Rows(senders[..i], formatDate)
    {
      RowsPrefixStep(text, senders, i, formatDate);
      text := text + SenderRowEscaped(senders[i], formatDate);
    }
    assert senders[..|senders|] == senders;
    if forall i :: 0 <= i < |senders| ==> '"' !in senders[i].email {
      RowsAgree(senders, formatDate);
    }
    return Some(text);
  }

  lemma {:induction false} RowsAppend(senders: seq<SenderStat>, s: SenderStat, formatDate: int -> string)
    ensures Rows(senders + [s], formatDate) == Rows(senders, formatDate) + SenderRowEscaped(s, formatDate)
  {
    var all := senders + [s];
    if senders == [] {
      assert all == [s] && all[1..] == [];
    } else {
      assert all[0] == senders[0] && all[1..] == senders[1..] + [s];
      RowsAppend(senders[1..], s, formatDate);
      var head := SenderRowEscaped(senders[0], formatDate);
      assert Rows(all, formatDate) == head + Rows(all[1..], formatDate);
      assert Rows(senders, formatDate) == head + Rows(senders[1..], formatDate);
      AppendAfter(Rows(senders, formatDate), head, Rows(senders[1..], formatDate), SenderRowEscaped(s, formatDate));
    }
  }

  /** Appending the next sender's line to the text written so far. */
  lemma RowsPrefixStep(text: string, senders: seq<SenderStat>, i: nat, formatDate: int -> string)
    requires i < |senders|
    requires text == Header + Rows(senders[..i], formatDate)
    ensures text + SenderRowEscaped(senders[i], formatDate) == Header + Rows(senders[..i + 1], formatDate)
  {
    assert senders[..i + 1] == senders[..i] + [senders[i]];
    RowsAppend(senders[..i], senders[i], formatDate);
    AppendAfter(text, Header, Rows(senders[..i], formatDate), SenderRowEscaped(senders[i], formatDate));
  }

  lemma Regroup(a: string, b: string, c: string, d: string)
    ensures ((a + b) + c) + d == a + (b + (c + d))
  {
  }

  lemma AppendAfter(text: string, head: string, done: string, row: string)
    requires text == head + done
    ensures text + row == head + (done + row)
  {
  }

  /** Escaping adds one character per quote. */
  lemma {:induction false} EscapedLength(text: string)
    ensures |EscapeQuotes(text)| == |text| + multiset(text)['"']
  {
    if text != [] {
      EscapedLength(text[1..]);
      assert text == [text[0]] + text[1..];
    }
  }

  /** Escaping leaves a text alone exactly when it holds no quote. */
  lemma EscapeQuotesIdentity(text: string)
    ensures EscapeQuotes(text) == text <==> '"' !in text
  {
    EscapedLength(text);
    if '"' !in text {
      UnquotedUnchanged(text);
    } else {
      assert text[0..] == text;
    }
  }

  lemma {:induction false} UnquotedUnchanged(text: string)
    requires '"' !in text
    ensures EscapeQuotes(text) == text
  {
    if text != [] {
      UnquotedUnchanged(text[1..]);
      assert text == [text[0]] + text[1..];
    }
  }

  /** For senders whose addresses hold no quote the escaped lines are the lines as written. */
  lemma {:induction false} RowsAgree(senders: seq<SenderStat>, formatDate: int -> string)
    requires forall i :: 0 <= i < |senders| ==> '"' !in senders[i].email
    ensures Rows(senders, formatDate) == RowsAsWritten(senders, formatDate)
  {
    if senders != [] {
      SenderRowAgrees(senders[0], formatDate);
      RowsAgree(senders[1..], formatDate);
    }
  }

  /** For a sender whose address holds no quote the escaped line is the line as written. */
  lemma SenderRowAgrees(s: SenderStat, formatDate: int -> string)
    requires '"' !in s.email
    ensures SenderRow(s, formatDate) == SenderRowEscaped(s, formatDate)
  {
    UnquotedUnchanged(s.email);
  }

  // ---------------------------------------------------------------------
  // Reading

  /** Characters that end an unquoted field or may not appear in one. */
  predicate Special(c: char) {
    c == ',' || c == '\n' || c == '"'
  }

  predicate Bare(text: string) {
    forall i :: 0 <= i < |text| ==> !Special(text[i])
  }

  /**
    Reads the inside of a quoted field, after its opening quote: a doubled
    quote stands for one quote, and a single quote closes the field.
    Gives the field's text and what follows the closing quote.
   */
  function ReadQuoted(s: string): (r: Option<(string, string)>)
    ensures r.Some? ==> |r.value.1| < |s|
  {
    if s == [] then None
    else if s[0] == '"' then
      if |s| >= 2 && s[1] == '"' then
        var inner :- ReadQuoted(s[2..]);
        Some(("\"" + inner.0, inner.1))
      else Some(([], s[1..]))
    else
      var inner :- ReadQuoted(s[1..]);
      Some(([s[0]] + inner.0, inner.1))
  }

  /** Reads an unquoted field: everything up to the first special character. */
  function ReadBare(s: string): (r: (string, string))
    ensures r.0 + r.1 == s
    ensures Bare(r.0)
    ensures r.1 == [] || Special(r.1[0])
  {
    if s == [] || Special(s[0]) then ([], s)
    else
      var inner := ReadBare(s[1..]);
      assert [s[0]] + (inner.0 + inner.1) == s;
      ([s[0]] + inner.0, inner.1)
  }

  function ReadField(s: string): (r: Option<(string, string)>)
    ensures r.Some? ==> |r.value.1| <= |s|
  {
    if s != [] && s[0] == '"' then ReadQuoted(s[1..]) else Some(ReadBare(s))
  }

  /** Reads one line: fields separated by commas, up to and including the newline. */
  function ReadLine(s: string): (r: Option<(seq<string>, string)>)
    ensures r.Some? ==> |r.value.1| < |s|
    decreases |s|
  {
    var field :- ReadField(s);
    var rest := field.1;
    if rest == [] then None
    else if rest[0] == '\n' then Some(([field.0], rest[1..]))
    else if rest[0] == ',' then
      var more :- ReadLine(rest[1..]);
      Some(([field.0] + more.0, more.1))
    else None
  }

  function ReadLines(s: string): Option<seq<seq<string>>>
    decreases |s|
  {
    if s == [] then Some([])
    else
      var line :- ReadLine(s);
      var lines :- ReadLines(line.1);
      Some([line.0] + lines)
  }

  /** Reads an export: the header, then the sender lines as lists of fields. */
  function ReadCsv(s: string): Option<seq<seq<string>>> {
    if |Header| <= |s| && s[..|Header|] == Header then ReadLines(s[|Header|..]) else None
  }

  /** The value of a string of decimal digits. */
  function DecimalValue(s: string): nat
    requires forall i :: 0 <= i < |s| ==> '0' <= s[i] <= '9'
  {
    if s == [] then 0
    else 10 * DecimalValue(s[..|s| - 1]) + (s[|s| - 1] as int - '0' as int)
  }

  // ---------------------------------------------------------------------
  // Reading back what was written

  lemma {:induction false} DecimalRoundTrip(n: nat)
    ensures DecimalValue(Decimal(n)) == n
  {
    if n >= 10 {
      DecimalRoundTrip(n / 10);
      var s := Decimal(n);
      assert s[..|s| - 1] == Decimal(n / 10);
    }
  }

  /** In an escaped text every quote is one of an adjacent pair. */
  predicate QuotesPaired(text: string) {
    if text == [] then true
    else if text[0] == '"' then |text| >= 2 && text[1] == '"' && QuotesPaired(text[2..])
    else QuotesPaired(text[1..])
  }

  lemma {:induction false} EscapedQuotesPaired(text: string)
    ensures QuotesPaired(EscapeQuotes(text))
  {
    if text != [] {
      var tail := EscapeQuotes(text[1..]);
      EscapedQuotesPaired(text[1..]);
      if text[0] == '"' {
        assert ("\"\"" + tail)[2..] == tail;
      } else {
        assert ([text[0]] + tail)[1..] == tail;
      }
    }
  }

  /** The inside of a quoted field reads back as the text that was escaped. */
  lemma {:induction false} ReadQuotedEscaped(text: string, rest: string)
    requires rest == [] || rest[0] != '"'
    ensures ReadQuoted(EscapeQuotes(text) + "\"" + rest) == Some((text, rest))
  {
    if text == [] {
      assert EscapeQuotes(text) + "\"" + rest == "\"" + rest;
      assert ("\"" + rest)[1..] == rest;
    } else {
      ReadQuotedEscaped(text[1..], rest);
      var t := EscapeQuotes(text[1..]) + "\"" + rest;
      if text[0] == '"' {
        assert EscapeQuotes(text) + "\"" + rest == "\"\"" + t;
        assert ("\"\"" + t)[2..] == t;
      } else {
        assert EscapeQuotes(text) + "\"" + rest == [text[0]] + t;
        assert ([text[0]] + t)[1..] == t;
      }
      assert [text[0]] + text[1..] == text;
    }
  }

  lemma {:induction false} ReadBareExact(text: string, rest: string)
    requires Bare(text)
    requires rest == [] || Special(rest[0])
    ensures ReadBare(text + rest) == (text, rest)
  {
    if text == [] {
      assert text + rest == rest;
    } else {
      assert (text + rest)[1..] == text[1..] + rest;
      ReadBareExact(text[1..], rest);
      assert [text[0]] + text[1..] == text;
    }
  }

  /** A cell holds a value either quoted or, when the value has no special character, as it is. */
  predicate Encodes(cell: string, value: string) {
    cell == Quote(value) || (cell == value && Bare(value))
  }

  lemma ReadCell(cell: string, value: string, rest: string)
    requires Encodes(cell, value)
    requires rest != [] && (rest[0] == ',' || rest[0] == '\n')
    ensures ReadField(cell + rest) == Some((value, rest))
  {
    if cell == Quote(value) {
      assert cell + rest == "\"" + (EscapeQuotes(value) + "\"" + rest);
      ReadQuotedEscaped(value, rest);
    } else {
      ReadBareExact(value, rest);
      if value != [] {
        assert (cell + rest)[0] == value[0];
      }
    }
  }

  /** A line of cells reads back as the values the cells hold. */
  lemma {:induction false} ReadLineOfCells(cells: seq<string>, values: seq<string>, rest: string)
    requires |cells| == |values| >= 1
    requires forall i :: 0 <= i < |cells| ==> Encodes(cells[i], values[i])
    ensures ReadLine(Line(cells) + rest) == Some((values, rest))
  {
    if |cells| == 1 {
      AppendAfter(Line(cells), cells[0], "\n", rest);
      ReadCell(cells[0], values[0], "\n" + rest);
      ReadLineNewline(cells[0] + ("\n" + rest), values[0], rest);
      assert values == [values[0]];
    } else {
      var tail := Line(cells[1..]) + rest;
      Regroup(cells[0], ",", Line(cells[1..]), rest);
      ReadCell(cells[0], values[0], "," + tail);
      ReadLineOfCells(cells[1..], values[1..], rest);
      ReadLineComma(cells[0] + ("," + tail), values[0], tail);
      assert values == [values[0]] + values[1..];
    }
  }

  /** A field followed by a newline is the last field of its line. */
  lemma ReadLineNewline(s: string, value: string, rest: string)
    requires ReadField(s) == Some((value, "\n" + rest))
    ensures ReadLine(s) == Some(([value], rest))
  {
    assert ("\n" + rest)[0] == '\n' && ("\n" + rest)[1..] == rest;
  }

  /** A field followed by a comma is followed by the rest of its line. */
  lemma ReadLineComma(s: string, value: string, tail: string)
    requires ReadField(s) == Some((value, "," + tail))
    ensures ReadLine(s) == if ReadLine(tail).None? then None else Some(([value] + ReadLine(tail).value.0, ReadLine(tail).value.1))
  {
    assert ("," + tail)[0] == ',' && ("," + tail)[1..] == tail;
  }

  /** The fields a sender's line holds. */
  function Fields(s: SenderStat, formatDate: int -> string): seq<string> {
    [s.name, s.email, Decimal(s.count), formatDate(s.firstEmail), formatDate(s.lastEmail)]
  }

  /** Formatted dates are quoted as they are, so they must not hold a quote to read back. */
  predicate DatesUnquoted(s: SenderStat, formatDate: int -> string) {
    '"' !in formatDate(s.firstEmail) && '"' !in formatDate(s.lastEmail)
  }

  lemma SenderRowRoundTrip(s: SenderStat, formatDate: int -> string, rest: string)
    requires DatesUnquoted(s, formatDate)
    ensures ReadLine(SenderRowEscaped(s, formatDate) + rest) == Some((Fields(s, formatDate), rest))
  {
    var first, last := formatDate(s.firstEmail), formatDate(s.lastEmail);
    EscapeQuotesIdentity(first);
    EscapeQuotesIdentity(last);
    var d := Decimal(s.count);
    assert Bare(d) by {
      forall i | 0 <= i < |d| ensures !Special(d[i]) {
        assert '0' <= d[i] <= '9';
      }
    }
    var cells := [Quote(s.name), Quote(s.email), d, Wrap(first), Wrap(last)];
    ReadLineOfCells(cells, Fields(s, formatDate), rest);
  }

  /** Reading an export gives back every sender's fields, in order. */
  lemma {:induction false} RowsRoundTrip(senders: seq<SenderStat>, formatDate: int -> string)
    requires forall i :: 0 <= i < |senders| ==> DatesUnquoted(senders[i], formatDate)
    ensures var lines := ReadLines(Rows(senders, formatDate));
      && lines.Some? && |lines.value| == |senders|
      && forall i :: 0 <= i < |senders| ==> lines.value[i] == Fields(senders[i], formatDate)
  {
    if senders != [] {
      var tail := Rows(senders[1..], formatDate);
      SenderRowRoundTrip(senders[0], formatDate, tail);
      RowsRoundTrip(senders[1..], formatDate);
      assert |SenderRowEscaped(senders[0], formatDate)| > 0 by {
        SenderRowRoundTrip(senders[0], formatDate, []);
      }
      var lines := ReadLines(Rows(senders, formatDate)).value;
      assert lines == [Fields(senders[0], formatDate)] + ReadLines(tail).value;
      forall i | 1 <= i < |senders| ensures lines[i] == Fields(senders[i], formatDate) {
        assert senders[1..][i - 1] == senders[i];
      }
    }
  }

  lemma CsvRoundTrip(senders: seq<SenderStat>, formatDate: int -> string)
    requires forall i :: 0 <= i < |senders| ==> DatesUnquoted(senders[i], formatDate)
    ensures var lines := ReadCsv(Header + Rows(senders, formatDate));
      && lines.Some? && |lines.value| == |senders|
      && forall i :: 0 <= i < |senders| ==> lines.value[i] == Fields(senders[i], formatDate)
  {
    var text := Header + Rows(senders, formatDate);
    assert text[..|Header|] == Header && text[|Header|..] == Rows(senders, formatDate);
    RowsRoundTrip(senders, formatDate);
  }

  /** A single quote not followed by another closes a quoted field. */
  lemma ReadQuotedCloses(t: string)
    requires t == [] || t[0] != '"'
    ensures ReadQuoted("\"" + t) == Some(([], t))
  {
    assert ("\"" + t)[1..] == t;
  }

  /** Any character other than a quote is part of the quoted field. */
  lemma ReadQuotedPlain(c: char, t: string)
    requires c != '"'
    ensures ReadQuoted([c] + t) == if ReadQuoted(t).None? then None else Some(([c] + ReadQuoted(t).value.0, ReadQuoted(t).value.1))
  {
    assert ([c] + t)[1..] == t;
  }

  /**
    A line written for an address that holds a quote cannot be read: the
    quote inside the address closes its field early.
   */
  lemma QuotedAddressBreaksRow(formatDate: int -> string, rest: string)
    ensures ReadLine(SenderRow(SenderStat("a\"b@x", "A", 1, 0, 0), formatDate) + rest) == None
  {
    var s := SenderStat("a\"b@x", "A", 1, 0, 0);
    UnquotedUnchanged("A");
    var cells := [Quote("A"), Wrap("a\"b@x"), Decimal(1), Wrap(formatDate(0)), Wrap(formatDate(0))];
    var after := "," + Line(cells[2..]) + rest;
    assert Line(cells[1..]) == cells[1] + "," + Line(cells[2..]);
    assert SenderRow(s, formatDate) + rest == "\"A\"" + ("," + (Wrap("a\"b@x") + after));
    BrokenLine(after);
  }

  /**
    The first two fields of such a line: the first reads as "A", and the
    second ends after "a", before "b@x", so the line cannot be read.
   */
  lemma BrokenLine(after: string)
    ensures ReadField("\"A\"" + ("," + (Wrap("a\"b@x") + after))) == Some(("A", "," + (Wrap("a\"b@x") + after)))
    ensures ReadLine("\"A\"" + ("," + (Wrap("a\"b@x") + after))) == None
  {
    var third := "b@x\"" + after;
    var second := "\"" + ("a" + ("\"" + third));
    assert Wrap("a\"b@x") + after == second;
    var line := "\"" + ("A" + ("\"" + ("," + second)));
    assert "\"A\"" + ("," + second) == line;
    ReadQuotedCloses("," + second);
    ReadQuotedPlain('A', "\"" + ("," + second));
    assert line[0] == '"' && line[1..] == "A" + ("\"" + ("," + second));
    assert ['A'] + [] == "A";
    assert ReadField(line) == Some(("A", "," + second));
    assert ("," + second)[1..] == second;
    SecondFieldEndsEarly(third);
  }

  lemma SecondFieldEndsEarly(third: string)
    requires third != [] && third[0] == 'b'
    ensures ReadField("\"" + ("a" + ("\"" + third))) == Some(("a", third))
    ensures ReadLine("\"" + ("a" + ("\"" + third))) == None
  {
    var second := "\"" + ("a" + ("\"" + third));
    ReadQuotedCloses(third);
    ReadQuotedPlain('a', "\"" + third);
    assert second[0] == '"' && second[1..] == "a" + ("\"" + third);
    assert ['a'] + [] == "a";
  }
}
