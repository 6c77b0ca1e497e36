/** The comma-separated text the exporter hands to the browser: a data-URI
    prefix, then the rows, each row's fields joined by commas and the rows
    joined by newlines. Fields are neither quoted nor escaped. `Split` and
    `Parse` are the reading direction, used to state what the text preserves. */
module Csv {
  import opened Wrappers

  /** The data-URI header that precedes the table text. */
  const DataUriPrefix: string := "data:text/csv;charset=utf-8,"

  const FieldSeparator: char := ','
  const RowSeparator: char := '\n'

  /** `parts.join(sep)`: the parts with one separator between neighbours and
      none before the first or after the last; the empty list joins to "". */
  function Join(parts: seq<string>, sep: char): (s: string)
    ensures |parts| == 0 ==> s == ""
    ensures |parts| >= 1 ==> parts[0] <= s
  {
    if |parts| == 0 then ""
    else if |parts| == 1 then parts[0]
    else parts[0] + [sep] + Join(parts[1..], sep)
  }

  /** Cuts `s` at every occurrence of `sep`; always at least one piece. */
  function Split(s: string, sep: char): (pieces: seq<string>)
    ensures |pieces| >= 1
  {
    if |s| == 0 then [""]
    else
      var rest := Split(s[1..], sep);
      if s[0] == sep then [""] + rest
      else [[s[0]] + rest[0]] + rest[1..]
  }

  /** How many times `c` occurs in `s`. */
  function Occurrences(s: string, c: char): nat
  {
    if |s| == 0 then 0
    else (if s[0] == c then 1 else 0) + Occurrences(s[1..], c)
  }

  /** How many times `c` occurs in all of `parts` together. */
  function TotalOccurrences(parts: seq<string>, c: char): nat
  {
    if |parts| == 0 then 0 else Occurrences(parts[0], c) + TotalOccurrences(parts[1..], c)
  }

  /** Each row's fields joined with commas, one line per row. */
  function Lines(rows: seq<seq<string>>): (lines: seq<string>)
    ensures |lines| == |rows|
  {
    seq(|rows|, i requires 0 <= i < |rows| => Join(rows[i], FieldSeparator))
  }

  /** The complete text handed to the browser. */
  function Serialize(rows: seq<seq<string>>): (text: string)
    ensures DataUriPrefix <= text
  {
    DataUriPrefix + Join(Lines(rows), RowSeparator)
  }

  /** The reading direction: strip the prefix, cut into lines at '\n', cut
      each line into fields at ','. */
  function Parse(text: string): Option<seq<seq<string>>>
  {
    if |text| >= |DataUriPrefix| && text[..|DataUriPrefix|] == DataUriPrefix then
      var lines := Split(text[|DataUriPrefix|..], RowSeparator);
      Some(seq(|lines|, i requires 0 <= i < |lines| => Split(lines[i], FieldSeparator)))
    else
      None
  }

  /** A field that the unescaped format can carry: no comma and no newline. */
  predicate CleanField(s: string)
  {
    FieldSeparator !in s && RowSeparator !in s
  }

  /** Every row has at least one field and every field is clean. */
  predicate CleanTable(rows: seq<seq<string>>)
  {
    forall i | 0 <= i < |rows| :: |rows[i]| >= 1 && forall j | 0 <= j < |rows[i]| :: CleanField(rows[i][j])
  }

  lemma {:induction false} OccurrencesAppend(a: string, b: string, c: char)
    ensures Occurrences(a + b, c) == Occurrences(a, c) + Occurrences(b, c)
  {
    if |a| == 0 {
      assert a + b == b;
    } else {
      assert (a + b)[1..] == a[1..] + b;
      OccurrencesAppend(a[1..], b, c);
    }
  }

  lemma {:induction false} OccurrencesZero(s: string, c: char)
    ensures Occurrences(s, c) == 0 <==> c !in s
  {
    if |s| > 0 {
      OccurrencesZero(s[1..], c);
      assert s == [s[0]] + s[1..];
    }
  }

  /** A string is cut into one more piece than it has separators. */
  lemma {:induction false} SplitLength(s: string, sep: char)
    ensures |Split(s, sep)| == Occurrences(s, sep) + 1
  {
    if |s| > 0 {
      SplitLength(s[1..], sep);
    }
  }

  /** A string without the separator is one piece. */
  lemma {:induction false} SplitWithoutSeparator(p: string, sep: char)
    requires sep !in p
    ensures Split(p, sep) == [p]
  {
    if |p| > 0 {
      SplitWithoutSeparator(p[1..], sep);
      assert [p[0]] + p[1..] == p;
    }
  }

  /** Cutting `p + sep + t` gives `p` and then the pieces of `t`. */
  lemma {:induction false} SplitAfterPiece(p: string, t: string, sep: char)
    requires sep !in p
    ensures Split(p + [sep] + t, sep) == [p] + Split(t, sep)
  {
    var s := p + [sep] + t;
    if |p| == 0 {
      assert s[1..] == t;
    } else {
      assert s[1..] == p[1..] + [sep] + t;
      SplitAfterPiece(p[1..], t, sep);
      assert [p[0]] + p[1..] == p;
    }
  }

  /** Splitting undoes joining when no part holds the separator. */
  lemma {:induction false} SplitJoin(parts: seq<string>, sep: char)
    requires |parts| >= 1
    requires forall i | 0 <= i < |parts| :: sep !in parts[i]
    ensures Split(Join(parts, sep), sep) == parts
  {
    if |parts| == 1 {
      SplitWithoutSeparator(parts[0], sep);
    } else {
      SplitJoin(parts[1..], sep);
      SplitAfterPiece(parts[0], Join(parts[1..], sep), sep);
      assert [parts[0]] + parts[1..] == parts;
    }
  }

  /** Joining adds exactly one separator between each pair of neighbours. */
  lemma {:induction false} JoinOccurrences(parts: seq<string>, sep: char)
    requires |parts| >= 1
    ensures Occurrences(Join(parts, sep), sep) == TotalOccurrences(parts, sep) + |parts| - 1
  {
    if |parts| > 1 {
      JoinOccurrences(parts[1..], sep);
      OccurrencesAppend(parts[0] + [sep], Join(parts[1..], sep), sep);
      OccurrencesAppend(parts[0], [sep], sep);
      assert [sep][1..] == [];
    }
  }

  lemma {:induction false} TotalOccurrencesZero(parts: seq<string>, c: char)
    ensures TotalOccurrences(parts, c) == 0 <==> forall i | 0 <= i < |parts| :: c !in parts[i]
  {
    if |parts| > 0 {
      TotalOccurrencesZero(parts[1..], c);
      OccurrencesZero(parts[0], c);
      assert forall i | 1 <= i < |parts| :: parts[i] == parts[1..][i - 1];
    }
  }

  /** The unescaped format round-trips exactly the lists whose parts do not
      hold the separator: with one inside a part, splitting yields more
      pieces than were joined. */
  lemma SplitJoinExactly(parts: seq<string>, sep: char)
    requires |parts| >= 1
    ensures Split(Join(parts, sep), sep) == parts <==> forall i | 0 <= i < |parts| :: sep !in parts[i]
  {
    SplitLength(Join(parts, sep), sep);
    JoinOccurrences(parts, sep);
    TotalOccurrencesZero(parts, sep);
    if forall i | 0 <= i < |parts| :: sep !in parts[i] {
      SplitJoin(parts, sep);
    }
  }

  /** Joining introduces no character other than the separator. */
  lemma {:induction false} JoinExcludes(parts: seq<string>, sep: char, c: char)
    requires c != sep
    requires forall i | 0 <= i < |parts| :: c !in parts[i]
    ensures c !in Join(parts, sep)
  {
    if |parts| > 1 {
      JoinExcludes(parts[1..], sep, c);
    }
  }

  /** The join ends with its last part, and with two parts or more the
      separator comes right before it: nothing follows the last part. */
  lemma {:induction false} JoinEnd(parts: seq<string>, sep: char)
    requires |parts| >= 1
    ensures var s, last := Join(parts, sep), parts[|parts| - 1];
      |last| <= |s| && s[|s| - |last|..] == last
    ensures |parts| >= 2 ==>
      var s, last := Join(parts, sep), parts[|parts| - 1];
      |last| < |s| && s[|s| - |last| - 1] == sep
  {
    if |parts| >= 2 {
      var rest := parts[1..];
      JoinEnd(rest, sep);
      assert rest[|rest| - 1] == parts[|parts| - 1];
    }
  }

  /** The last character of a join of two or more parts is the last
      character of its last part, or the separator when that part is empty. */
  lemma JoinLastChar(parts: seq<string>, sep: char)
    requires |parts| >= 2
    ensures var s, last := Join(parts, sep), parts[|parts| - 1];
      |s| >= 1 && s[|s| - 1] == if |last| > 0 then last[|last| - 1] else sep
  {
    JoinEnd(parts, sep);
  }

  /** The text ends with the last row's line: nothing follows it. */
  lemma SerializeEnd(rows: seq<seq<string>>)
    requires |rows| >= 1
    ensures var text, line := Serialize(rows), Join(rows[|rows| - 1], FieldSeparator);
      |line| <= |text| && text[|text| - |line|..] == line
  {
    var lines := Lines(rows);
    JoinEnd(lines, RowSeparator);
    var body := Join(lines, RowSeparator);
    assert Serialize(rows)[|Serialize(rows)| - |body|..] == body;
  }

  /** Joined rows of a clean table hold no newline. */
  lemma LinesWithoutNewline(rows: seq<seq<string>>)
    requires CleanTable(rows)
    ensures forall i | 0 <= i < |rows| :: RowSeparator !in Lines(rows)[i]
  {
    forall i | 0 <= i < |rows|
      ensures RowSeparator !in Lines(rows)[i]
    {
      JoinExcludes(rows[i], FieldSeparator, RowSeparator);
    }
  }

  /** The text has exactly one newline between consecutive rows and none at
      the end: rows - 1 newlines in all. */
  lemma SerializeNewlines(rows: seq<seq<string>>)
    requires |rows| >= 1
    requires CleanTable(rows)
    ensures Occurrences(Serialize(rows), RowSeparator) == |rows| - 1
  {
    var lines := Lines(rows);
    var body := Join(lines, RowSeparator);
    LinesWithoutNewline(rows);
    TotalOccurrencesZero(lines, RowSeparator);
    JoinOccurrences(lines, RowSeparator);
    assert Occurrences(body, RowSeparator) == |rows| - 1;
    assert RowSeparator !in DataUriPrefix;
    OccurrencesZero(DataUriPrefix, RowSeparator);
    OccurrencesAppend(DataUriPrefix, body, RowSeparator);
  }

  /** Reading the text back gives the table that was written, provided every
      row has a field and no field holds a comma or a newline. */
  lemma ParseSerialize(rows: seq<seq<string>>)
    requires |rows| >= 1
    requires CleanTable(rows)
    ensures Parse(Serialize(rows)) == Some(rows)
  {
    var lines := Lines(rows);
    var text := Serialize(rows);
    assert text[..|DataUriPrefix|] == DataUriPrefix;
    assert text[|DataUriPrefix|..] == Join(lines, RowSeparator);
    LinesWithoutNewline(rows);
    SplitJoin(lines, RowSeparator);
    var fields := seq(|lines|, i requires 0 <= i < |lines| => Split(lines[i], FieldSeparator));
    assert Parse(text) == Some(fields);
    forall i | 0 <= i < |rows|
      ensures fields[i] == rows[i]
    {
      SplitJoin(rows[i], FieldSeparator);
    }
    assert fields == rows;
  }
}
