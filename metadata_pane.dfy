/** The metadata table of the viewer's metadata pane: the rows
    `createTableData` builds from a book's metadata, apart from the Swing
    components that display them. */
module MetadataPane {
  import opened Results
  import opened Domain

  /** One table row, `new String[] {label, value}`: two cells, the second
      null only in the Language and Format rows. */
  datatype Row = Row(caption: string, value: Option<string>)

  /** `Character.isWhitespace`: the Unicode space, line and paragraph
      separators except the three no-break spaces (U+00A0, U+2007,
      U+202F), and the controls U+0009 to U+000D and U+001C to U+001F.
      U+180E counts as a space separator, as in the Unicode tables of
      Java 8 and earlier. */
  predicate IsWhitespace(c: char)
  {
    var n := c as int;
    || 0x09 <= n <= 0x0D
    || 0x1C <= n <= 0x20
    || n == 0x1680 || n == 0x180E
    || (0x2000 <= n <= 0x200A && n != 0x2007)
    || n == 0x2028 || n == 0x2029 || n == 0x205F || n == 0x3000
  }

  /** `StringUtils.isBlank` on a non-null string: empty or whitespace only. */
  predicate IsBlank(s: string)
  {
    forall i | 0 <= i < |s| :: IsWhitespace(s[i])
  }

  /** A value `addStrings` writes a row for: not null and not blank. */
  predicate Survives(v: Option<string>)
  {
    v.Some? && !IsBlank(v.value)
  }

  /** The strings of the surviving values, in input order. */
  function Kept(values: seq<Option<string>>): seq<string>
    decreases |values|
  {
    if values == [] then []
    else
      var last := values[|values| - 1];
      Kept(values[..|values| - 1]) + (if Survives(last) then [last.value] else [])
  }

  /** Rows for the given strings, the caption on the first and "" on every
      later one. */
  function LabelledRows(kept: seq<string>, caption: string): seq<Row>
  {
    seq(|kept|, i requires 0 <= i < |kept| => Row(if i == 0 then caption else "", Some(kept[i])))
  }

  /** What one `addStrings(values, caption, result)` call appends. */
  function GroupRows(values: seq<Option<string>>, caption: string): seq<Row>
  {
    LabelledRows(Kept(values), caption)
  }

  /** The rows of the table, group by group. */
  function TableRows(m: Metadata): seq<Row>
  {
    GroupRows(m.identifiers, "Identifier")
    + GroupRows(m.titles, "Title")
    + GroupRows(m.authors, "Author")
    + [Row("Language", m.language)]
    + GroupRows(m.contributors, "Contributor")
    + GroupRows(m.descriptions, "Description")
    + GroupRows(m.publishers, "Publisher")
    + GroupRows(m.dates, "Date")
    + GroupRows(m.subjects, "Subject")
    + GroupRows(m.types, "Type")
    + GroupRows(m.rights, "Rights")
    + [Row("Format", m.format)]
  }

  lemma KeptStep(values: seq<Option<string>>, i: nat)
    requires i < |values|
    ensures Kept(values[..i + 1]) == Kept(values[..i]) + (if Survives(values[i]) then [values[i].value] else [])
  {
    assert values[..i + 1][..i] == values[..i];
  }

  lemma LabelledRowsAppend(kept: seq<string>, s: string, caption: string)
    ensures LabelledRows(kept + [s], caption)
            == LabelledRows(kept, caption) + [Row(if kept == [] then caption else "", Some(s))]
  {
  }

  /** The caller's row list, `List<String[]> result`, which `addStrings`
      appends to in place. */
  class RowList {
    var rows: seq<Row>

    constructor ()
      ensures rows == []
    {
      rows := [];
    }

    method Add(row: Row)
      modifies this
      ensures rows == old(rows) + [row]
    {
      rows := rows + [row];
    }
  }

  /** Appends a row for every non-null, non-blank value, in order; only
      the first appended row carries the caption. */
  method AddStrings(values: seq<Option<string>>, caption: string, result: RowList)
    modifies result
    ensures result.rows == old(result.rows) + GroupRows(values, caption)
  {
    var captionWritten := false;
    for i := 0 to |values|
      invariant captionWritten == (Kept(values[..i]) != [])
      invariant result.rows == old(result.rows) + GroupRows(values[..i], caption)
    {
      KeptStep(values, i);
      LabelledRowsAppend(Kept(values[..i]), if values[i].Some? then values[i].value else "", caption);
      var value := values[i];
      if value.None? {
        continue;
      }
      var valueString := value.value;
      if IsBlank(valueString) {
        continue;
      }
      var currentCaption := "";
      if !captionWritten {
        currentCaption := caption;
        captionWritten := true;
      }
      result.Add(Row(currentCaption, Some(valueString)));
    }
    assert values[..|values|] == values;
  }

  /** The table for the metadata: the groups in their fixed order, with
      the Language and Format rows written unconditionally. */
  method CreateTableData(metadata: Metadata) returns (table: seq<Row>)
    ensures table == TableRows(metadata)
  {
    var result := new RowList();
    AddStrings(metadata.identifiers, "Identifier", result);
    ghost var rows := GroupRows(metadata.identifiers, "Identifier");
    assert result.rows == rows;
    AddStrings(metadata.titles, "Title", result);
    rows := rows + GroupRows(metadata.titles, "Title");
    assert result.rows == rows;
    AddStrings(metadata.authors, "Author", result);
    rows := rows + GroupRows(metadata.authors, "Author");
    assert result.rows == rows;
    result.Add(Row("Language", metadata.language));
    rows := rows + [Row("Language", metadata.language)];
    assert result.rows == rows;
    AddStrings(metadata.contributors, "Contributor", result);
    rows := rows + GroupRows(metadata.contributors, "Contributor");
    assert result.rows == rows;
    AddStrings(metadata.descriptions, "Description", result);
    rows := rows + GroupRows(metadata.descriptions, "Description");
    assert result.rows == rows;
    AddStrings(metadata.publishers, "Publisher", result);
    rows := rows + GroupRows(metadata.publishers, "Publisher");
    assert result.rows == rows;
    AddStrings(metadata.dates, "Date", result);
    rows := rows + GroupRows(metadata.dates, "Date");
    assert result.rows == rows;
    AddStrings(metadata.subjects, "Subject", result);
    rows := rows + GroupRows(metadata.subjects, "Subject");
    assert result.rows == rows;
    AddStrings(metadata.types, "Type", result);
    rows := rows + GroupRows(metadata.types, "Type");
    assert result.rows == rows;
    AddStrings(metadata.rights, "Rights", result);
    rows := rows + GroupRows(metadata.rights, "Rights");
    assert result.rows == rows;
    result.Add(Row("Format", metadata.format));
    rows := rows + [Row("Format", metadata.format)];
    assert result.rows == rows;
    table := result.rows;
  }
}
