/** Properties of the metadata table: which values make it into a group,
    in what order, and where the captions stand. */
module MetadataPaneProperties {
  import opened Results
  import opened Domain
  import opened MetadataPane

  /** Filtering distributes over concatenation: the survivors of a + b are
      the survivors of a followed by those of b. */
  lemma {:induction false} KeptConcat(a: seq<Option<string>>, b: seq<Option<string>>)
    ensures Kept(a + b) == Kept(a) + Kept(b)
    decreases |b|
  {
    if b == [] {
      assert a + b == a;
    } else {
      var n := |b| - 1;
      assert (a + b)[..|a + b| - 1] == a + b[..n];
      assert (a + b)[|a + b| - 1] == b[n];
      KeptConcat(a, b[..n]);
    }
  }

  /** A single value is kept exactly when it is non-null and non-blank. */
  lemma KeptSingle(v: Option<string>)
    ensures Kept([v]) == (if Survives(v) then [v.value] else [])
  {
    assert [v][..0] == [];
  }

  /** The kept strings are non-blank strings of the input, every surviving
      input is among them, and nothing is kept exactly when nothing
      survives. */
  lemma {:induction false} KeptMembers(values: seq<Option<string>>)
    ensures forall j | 0 <= j < |Kept(values)| :: !IsBlank(Kept(values)[j]) && Some(Kept(values)[j]) in values
    ensures forall i | 0 <= i < |values| && Survives(values[i]) :: values[i].value in Kept(values)
    ensures Kept(values) == [] <==> forall i | 0 <= i < |values| :: !Survives(values[i])
    decreases |values|
  {
    if values != [] {
      var n := |values| - 1;
      var init := values[..n];
      KeptMembers(init);
      assert values == init + [values[n]];
      forall i | 0 <= i < |values| && Survives(values[i])
        ensures values[i].value in Kept(values)
      {
        if i < n {
          assert values[i] == init[i];
        }
      }
    }
  }

  /** The number of surviving values, counted from the front. */
  function SurvivorCount(values: seq<Option<string>>): (n: nat)
    ensures n <= |values|
  {
    if values == [] then 0 else (if Survives(values[0]) then 1 else 0) + SurvivorCount(values[1..])
  }

  /** One row per surviving value. */
  lemma {:induction false} KeptLength(values: seq<Option<string>>)
    ensures |Kept(values)| == SurvivorCount(values)
    decreases |values|
  {
    if values != [] {
      assert values == [values[0]] + values[1..];
      KeptConcat([values[0]], values[1..]);
      KeptSingle(values[0]);
      KeptLength(values[1..]);
    }
  }

  /** Shape of the rows of one group: one per surviving value, carrying
      it, the caption on the first and "" on the rest, and none at all
      when nothing survives. */
  lemma GroupRowsShape(values: seq<Option<string>>, caption: string)
    ensures |GroupRows(values, caption)| == SurvivorCount(values)
    ensures forall j | 0 <= j < |GroupRows(values, caption)| ::
              GroupRows(values, caption)[j].value == Some(Kept(values)[j])
    ensures GroupRows(values, caption) != [] ==> GroupRows(values, caption)[0].caption == caption
    ensures forall j | 1 <= j < |GroupRows(values, caption)| :: GroupRows(values, caption)[j].caption == ""
    ensures GroupRows(values, caption) == [] <==> forall i | 0 <= i < |values| :: !Survives(values[i])
  {
    KeptLength(values);
    KeptMembers(values);
  }

  /** The non-empty captions of a list of rows, in order. */
  function Headings(rows: seq<Row>): seq<string>
    decreases |rows|
  {
    if rows == [] then []
    else
      var last := rows[|rows| - 1];
      Headings(rows[..|rows| - 1]) + (if last.caption != "" then [last.caption] else [])
  }

  lemma {:induction false} HeadingsConcat(a: seq<Row>, b: seq<Row>)
    ensures Headings(a + b) == Headings(a) + Headings(b)
    decreases |b|
  {
    if b == [] {
      assert a + b == a;
    } else {
      var n := |b| - 1;
      assert (a + b)[..|a + b| - 1] == a + b[..n];
      assert (a + b)[|a + b| - 1] == b[n];
      HeadingsConcat(a, b[..n]);
    }
  }

  lemma {:induction false} HeadingsOfUncaptioned(rows: seq<Row>)
    requires forall j | 0 <= j < |rows| :: rows[j].caption == ""
    ensures Headings(rows) == []
    decreases |rows|
  {
    if rows != [] {
      HeadingsOfUncaptioned(rows[..|rows| - 1]);
    }
  }

  /** The caption written for a group: once if anything survives, else
      not at all. */
  function Present(values: seq<Option<string>>, caption: string): seq<string>
  {
    if Kept(values) == [] then [] else [caption]
  }

  /** A group's caption appears at most once, and only when the group has
      rows. */
  lemma GroupHeadings(values: seq<Option<string>>, caption: string)
    requires caption != ""
    ensures Headings(GroupRows(values, caption)) == Present(values, caption)
  {
    var rows := GroupRows(values, caption);
    if rows != [] {
      assert rows == [rows[0]] + rows[1..];
      HeadingsConcat([rows[0]], rows[1..]);
      HeadingsOfUncaptioned(rows[1..]);
      assert [rows[0]][..0] == [];
    }
  }

  lemma SingleHeading(row: Row)
    ensures Headings([row]) == (if row.caption != "" then [row.caption] else [])
  {
    assert [row][..0] == [];
  }

  /** The captions of the whole table, top to bottom: each group's caption
      if it has rows, and Language and Format always. */
  lemma TableHeadings(m: Metadata)
    ensures Headings(TableRows(m))
            == Present(m.identifiers, "Identifier")
            + Present(m.titles, "Title")
            + Present(m.authors, "Author")
            + ["Language"]
            + Present(m.contributors, "Contributor")
            + Present(m.descriptions, "Description")
            + Present(m.publishers, "Publisher")
            + Present(m.dates, "Date")
            + Present(m.subjects, "Subject")
            + Present(m.types, "Type")
            + Present(m.rights, "Rights")
            + ["Format"]
  {
    var r1 := GroupRows(m.identifiers, "Identifier");
    var r2 := GroupRows(m.titles, "Title");
    var r3 := GroupRows(m.authors, "Author");
    var r4 := [Row("Language", m.language)];
    var r5 := GroupRows(m.contributors, "Contributor");
    var r6 := GroupRows(m.descriptions, "Description");
    var r7 := GroupRows(m.publishers, "Publisher");
    var r8 := GroupRows(m.dates, "Date");
    var r9 := GroupRows(m.subjects, "Subject");
    var r10 := GroupRows(m.types, "Type");
    var r11 := GroupRows(m.rights, "Rights");
    var r12 := [Row("Format", m.format)];
    GroupHeadings(m.identifiers, "Identifier");
    GroupHeadings(m.titles, "Title");
    GroupHeadings(m.authors, "Author");
    SingleHeading(r4[0]);
    GroupHeadings(m.contributors, "Contributor");
    GroupHeadings(m.descriptions, "Description");
    GroupHeadings(m.publishers, "Publisher");
    GroupHeadings(m.dates, "Date");
    GroupHeadings(m.subjects, "Subject");
    GroupHeadings(m.types, "Type");
    GroupHeadings(m.rights, "Rights");
    SingleHeading(r12[0]);
    var p1 := r1 + r2;
    var p2 := p1 + r3;
    var p3 := p2 + r4;
    var p4 := p3 + r5;
    var p5 := p4 + r6;
    var p6 := p5 + r7;
    var p7 := p6 + r8;
    var p8 := p7 + r9;
    var p9 := p8 + r10;
    var p10 := p9 + r11;
    assert TableRows(m) == p10 + r12;
    HeadingsConcat(r1, r2);
    HeadingsConcat(p1, r3);
    HeadingsConcat(p2, r4);
    HeadingsConcat(p3, r5);
    HeadingsConcat(p4, r6);
    HeadingsConcat(p5, r7);
    HeadingsConcat(p6, r8);
    HeadingsConcat(p7, r9);
    HeadingsConcat(p8, r10);
    HeadingsConcat(p9, r11);
    HeadingsConcat(p10, r12);
  }

  /** The Language row and the Format row are there whatever the
      metadata holds: Language right after the author rows, with the
      language as value, and Format last, with the format as value. */
  lemma LanguageAndFormatRows(m: Metadata)
    ensures var n := |Kept(m.identifiers)| + |Kept(m.titles)| + |Kept(m.authors)|;
            n < |TableRows(m)| && TableRows(m)[n] == Row("Language", m.language)
    ensures TableRows(m)[|TableRows(m)| - 1] == Row("Format", m.format)
  {
    var front := GroupRows(m.identifiers, "Identifier") + GroupRows(m.titles, "Title") + GroupRows(m.authors, "Author");
    assert |front| == |Kept(m.identifiers)| + |Kept(m.titles)| + |Kept(m.authors)|;
    assert TableRows(m)[|front|] == Row("Language", m.language);
  }

  lemma CountPresent(prefix: seq<string>, values: seq<Option<string>>, caption: string, x: string)
    requires caption != x
    ensures multiset(prefix + Present(values, caption))[x] == multiset(prefix)[x]
  {
    assert multiset(prefix + Present(values, caption)) == multiset(prefix) + multiset(Present(values, caption));
  }

  lemma CountFixed(prefix: seq<string>, caption: string, x: string)
    ensures multiset(prefix + [caption])[x] == multiset(prefix)[x] + (if caption == x then 1 else 0)
  {
    assert multiset(prefix + [caption]) == multiset(prefix) + multiset{caption};
  }

  /** A caption written unconditionally appears exactly once: no group
      caption equals it. */
  lemma FixedCaptionOnce(m: Metadata, x: string)
    requires x == "Language" || x == "Format"
    ensures multiset(Headings(TableRows(m)))[x] == 1
  {
    TableHeadings(m);
    var h1 := Present(m.identifiers, "Identifier");
    var h2 := h1 + Present(m.titles, "Title");
    var h3 := h2 + Present(m.authors, "Author");
    var h4 := h3 + ["Language"];
    var h5 := h4 + Present(m.contributors, "Contributor");
    var h6 := h5 + Present(m.descriptions, "Description");
    var h7 := h6 + Present(m.publishers, "Publisher");
    var h8 := h7 + Present(m.dates, "Date");
    var h9 := h8 + Present(m.subjects, "Subject");
    var h10 := h9 + Present(m.types, "Type");
    var h11 := h10 + Present(m.rights, "Rights");
    var h12 := h11 + ["Format"];
    assert Headings(TableRows(m)) == h12;
    assert h1 == [] + Present(m.identifiers, "Identifier");
    CountPresent([], m.identifiers, "Identifier", x);
    CountPresent(h1, m.titles, "Title", x);
    CountPresent(h2, m.authors, "Author", x);
    CountFixed(h3, "Language", x);
    CountPresent(h4, m.contributors, "Contributor", x);
    CountPresent(h5, m.descriptions, "Description", x);
    CountPresent(h6, m.publishers, "Publisher", x);
    CountPresent(h7, m.dates, "Date", x);
    CountPresent(h8, m.subjects, "Subject", x);
    CountPresent(h9, m.types, "Type", x);
    CountPresent(h10, m.rights, "Rights", x);
    CountFixed(h11, "Format", x);
  }

  /** The Language and Format captions each appear exactly once. */
  lemma LanguageAndFormatOnce(m: Metadata)
    ensures multiset(Headings(TableRows(m)))["Language"] == 1
    ensures multiset(Headings(TableRows(m)))["Format"] == 1
  {
    FixedCaptionOnce(m, "Language");
    FixedCaptionOnce(m, "Format");
  }
}
