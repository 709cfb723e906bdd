/** What the writer promises about the pipeline and about the archive it
    emits. */
module EpubWriterProperties {
  import opened Results
  import opened Zip
  import opened Domain
  import opened Epub

  // ---------------------------------------------------------------- pipeline

  /** Continues a pipeline run with more processors, unless it failed. */
  function Then(r: Result<Book>, qs: seq<BookProcessor>, c: Collaborators, w: EpubWriter): Result<Book>
  {
    match r
    case Err(e) => Err(e)
    case Ok(b) => RunPipeline(qs, c, b, w)
  }

  /** An empty pipeline hands the book back unchanged. */
  lemma EmptyPipelineKeepsBook(c: Collaborators, book: Book, w: EpubWriter)
    ensures RunPipeline([], c, book, w) == Ok(book)
  {
  }

  /** Running two pipelines one after the other is running their
      concatenation. */
  lemma {:induction false} RunPipelineConcat(ps: seq<BookProcessor>, qs: seq<BookProcessor>,
                                             c: Collaborators, book: Book, w: EpubWriter)
    ensures RunPipeline(ps + qs, c, book, w) == Then(RunPipeline(ps, c, book, w), qs, c, w)
    decreases |ps|
  {
    if ps == [] {
      assert ps + qs == qs;
    } else {
      assert (ps + qs)[0] == ps[0];
      assert (ps + qs)[1..] == ps[1..] + qs;
      match Apply(ps[0], c, book, w)
      case Err(e) =>
      case Ok(next) => RunPipelineConcat(ps[1..], qs, c, next, w);
    }
  }

  /** A processor appended to the pipeline receives what the processors
      before it produced, and only if they all succeeded. */
  lemma RunPipelineAppend(ps: seq<BookProcessor>, p: BookProcessor, c: Collaborators, book: Book, w: EpubWriter)
    ensures RunPipeline(ps + [p], c, book, w)
            == match RunPipeline(ps, c, book, w)
               case Err(e) => Err(e)
               case Ok(b) => Apply(p, c, b, w)
  {
    RunPipelineConcat(ps, [p], c, book, w);
    match RunPipeline(ps, c, book, w)
    case Err(e) =>
    case Ok(b) =>
      assert [p][1..] == [];
      match Apply(p, c, b, w)
      case Err(e) =>
      case Ok(next) =>
        assert RunPipeline([p], c, b, w) == RunPipeline([], c, next, w);
  }

  /** Once the processors up to some point have failed, the processors
      after it do not matter: the run fails with the same error. */
  lemma FailureEndsPipeline(ps: seq<BookProcessor>, i: nat, c: Collaborators, book: Book, w: EpubWriter)
    requires i <= |ps|
    requires RunPipeline(ps[..i], c, book, w).Err?
    ensures RunPipeline(ps, c, book, w) == RunPipeline(ps[..i], c, book, w)
  {
    assert ps == ps[..i] + ps[i..];
    RunPipelineConcat(ps[..i], ps[i..], c, book, w);
  }

  /** The HTML splitter can be put anywhere in any pipeline without
      changing what the pipeline produces. */
  lemma HtmlSplitterAnywhere(ps: seq<BookProcessor>, i: nat, c: Collaborators, book: Book, w: EpubWriter)
    requires i <= |ps|
    ensures RunPipeline(ps[..i] + [HtmlSplitter] + ps[i..], c, book, w) == RunPipeline(ps, c, book, w)
  {
    var before, after := ps[..i], ps[i..];
    assert ps == before + after;
    assert before + [HtmlSplitter] + after == before + ([HtmlSplitter] + after);
    RunPipelineConcat(before, [HtmlSplitter] + after, c, book, w);
    RunPipelineConcat(before, after, c, book, w);
    match RunPipeline(before, c, book, w)
    case Err(e) =>
    case Ok(b) =>
      assert ([HtmlSplitter] + after)[1..] == after;
      assert Apply(HtmlSplitter, c, b, w) == Ok(b);
  }

  // ----------------------------------------------------------------- archive

  function CoverCount(book: Book): nat
  {
    (if book.coverImage.Some? then 1 else 0) + (if book.coverPage.Some? then 1 else 0)
  }

  /** The pieces of a four-part concatenation, by position. */
  lemma ConcatenationParts<T>(p: seq<T>, q: seq<T>, r: seq<T>, s: seq<T>)
    ensures var all := p + q + r + s;
            && |all| == |p| + |q| + |r| + |s|
            && all[..|p|] == p
            && all[|p|..|p| + |q|] == q
            && all[|p| + |q|..|p| + |q| + |r|] == r
            && all[|p| + |q| + |r|..] == s
  {
    var all := p + q + r + s;
    assert all == p + (q + (r + s));
    assert all[|p|..] == q + (r + s);
    assert all[|p| + |q|..] == r + s;
  }

  /** The archive's sections, which the lemmas below take apart. */
  lemma ArchiveSections(book: Book, c: Collaborators, w: EpubWriter)
    ensures var a, r, m := ArchiveEntries(book, c, w), |ResourcesEntries(book)|, |c.ncxDocument(book)|;
            && |a| == r + m + 3
            && a[..2] == [MimetypeEntry(c), ContainerEntry(c)]
            && a[2..r + 2] == ResourcesEntries(book)
            && a[r + 2..r + m + 2] == c.ncxDocument(book)
            && a[r + m + 2..] == [PackageDocumentEntry(c.packageDocument(w, book))]
  {
    ConcatenationParts([MimetypeEntry(c), ContainerEntry(c)], ResourcesEntries(book), c.ncxDocument(book),
                       [PackageDocumentEntry(c.packageDocument(w, book))]);
  }

  /** The archive opens with the media type and the container descriptor
      and closes with the package document; in between come the resource
      entries and then the navigation entries. */
  lemma ArchiveLayout(book: Book, c: Collaborators, w: EpubWriter)
    ensures var a, n, k, m := ArchiveEntries(book, c, w), |book.resources|, CoverCount(book), |c.ncxDocument(book)|;
            && |a| == n + k + m + 3
            && a[0] == MimetypeEntry(c)
            && a[1] == ContainerEntry(c)
            && a[n + k + 2 .. n + k + m + 2] == c.ncxDocument(book)
            && a[|a| - 1].name == PackageDocumentEntryName
            && a[|a| - 1].content == c.packageDocument(w, book)
  {
    ArchiveSections(book, c, w);
    var a := ArchiveEntries(book, c, w);
    assert a[0] == a[..2][0] && a[1] == a[..2][1];
    assert |CoverEntries(book)| == CoverCount(book);
    assert a[|a| - 1] == a[|a| - 1..][0];
  }

  /** Entry i of the resource section sits at position i + 2. */
  lemma ArchiveResourceAt(book: Book, c: Collaborators, w: EpubWriter, i: nat)
    requires i < |ResourcesEntries(book)|
    ensures i + 2 < |ArchiveEntries(book, c, w)|
    ensures ArchiveEntries(book, c, w)[i + 2] == ResourcesEntries(book)[i]
  {
    ArchiveSections(book, c, w);
    var a, r := ArchiveEntries(book, c, w), |ResourcesEntries(book)|;
    assert a[2..r + 2][i] == a[i + 2];
  }

  /** After the container descriptor come the listed resources, in order,
      each under the content root with the resource's own bytes, then the
      cover image, then the cover page. */
  lemma ArchiveResourceEntries(book: Book, c: Collaborators, w: EpubWriter)
    ensures var a, n, k := ArchiveEntries(book, c, w), |book.resources|, CoverCount(book);
            && |a| >= n + k + 3
            && (forall i | 0 <= i < n ::
                  a[i + 2].name == ContentRoot + book.resources[i].href
                  && a[i + 2].content == book.resources[i].data)
            && (book.coverImage.Some? ==> a[n + 2] == ResourceEntry(book.coverImage.value))
            && (book.coverPage.Some? ==> a[n + k + 1] == ResourceEntry(book.coverPage.value))
  {
    ArchiveSections(book, c, w);
    var a, n, k := ArchiveEntries(book, c, w), |book.resources|, CoverCount(book);
    var res := ResourcesEntries(book);
    assert |CoverEntries(book)| == k;
    forall i | 0 <= i < n
      ensures a[i + 2].name == ContentRoot + book.resources[i].href
      ensures a[i + 2].content == book.resources[i].data
    {
      ArchiveResourceAt(book, c, w, i);
      assert res[i] == ResourceEntry(book.resources[i]);
    }
    if book.coverImage.Some? {
      ArchiveResourceAt(book, c, w, n);
      assert res[n] == CoverEntries(book)[0];
    }
    if book.coverPage.Some? {
      ArchiveResourceAt(book, c, w, n + k - 1);
      assert res[n + k - 1] == CoverEntries(book)[k - 1];
    }
  }

  /** Resources are not deduplicated: one entry per listed resource plus
      one per cover reference that is set. */
  lemma ResourceEntryCount(book: Book)
    ensures |ResourcesEntries(book)| == |book.resources| + CoverCount(book)
  {
  }

  /** If the cover image is also one of the listed resources, the archive
      holds that resource's entry twice. */
  lemma CoverListedTwice(book: Book, c: Collaborators, w: EpubWriter, j: nat)
    requires j < |book.resources|
    requires book.coverImage == Some(book.resources[j])
    ensures var a := ArchiveEntries(book, c, w);
            j + 2 != |book.resources| + 2 && a[j + 2] == a[|book.resources| + 2]
  {
    ArchiveResourceEntries(book, c, w);
    var a := ArchiveEntries(book, c, w);
    assert a[j + 2] == NewEntry(ContentRoot + book.resources[j].href, book.resources[j].data);
  }

  /** A charset that encodes 7-bit text in the usual way. */
  ghost predicate AsciiCompatible(charset: string -> seq<byte>)
  {
    forall s :: IsAscii(s) ==> charset(s) == EncodeAscii(s)
  }

  /** The media-type identification rule of the EPUB Open Container Format
      (3.0, section 3.3): the archive opens with an entry named `mimetype`,
      stored uncompressed (method 0), whose declared size and CRC-32 are
      those of its data, and whose data is the encoded media-type name.
      With an ASCII-compatible charset that data is exactly the 20 bytes
      of `application/epub+zip`, with no trailing newline. */
  lemma MimetypeEntryFirst(book: Book, c: Collaborators, w: EpubWriter)
    ensures var a := ArchiveEntries(book, c, w);
            && a[0].name == "mimetype"
            && a[0].compression == Stored && a[0].compression.Code() == 0
            && a[0].declaredSize == Some(|a[0].content|)
            && a[0].declaredCrc == Some(Crc32(a[0].content) as nat)
            && a[0].content == c.defaultCharset("application/epub+zip")
            && HeaderMatchesContent(a[0])
    ensures AsciiCompatible(c.defaultCharset) ==>
            var a := ArchiveEntries(book, c, w);
            && |a[0].content| == 20
            && a[0].content == EncodeAscii("application/epub+zip")
            && a[0].content[19] != 10
  {
    if AsciiCompatible(c.defaultCharset) {
      assert IsAscii(EpubMediaTypeName);
    }
  }

  /** Every entry the writer builds declares header fields only where
      they agree with its data, so the stream accepts them; the
      navigation writer's entries are that writer's responsibility. */
  lemma ArchiveHeadersMatchContent(book: Book, c: Collaborators, w: EpubWriter)
    requires forall e | e in c.ncxDocument(book) :: HeaderMatchesContent(e)
    ensures forall e | e in ArchiveEntries(book, c, w) :: HeaderMatchesContent(e)
  {
    var res := ResourcesEntries(book);
    assert forall e | e in res :: e.compression == Deflated && e.declaredSize.None? && e.declaredCrc.None?;
  }

  predicate Contains(text: string, part: string)
  {
    exists k | 0 <= k <= |text| :: part <= text[k..]
  }

  /** The container descriptor points at the entry the package document is
      written to, with the package media type. */
  lemma ContainerPointsAtPackageDocument()
    ensures Contains(ContainerXml, "full-path=\"" + PackageDocumentEntryName + "\"")
    ensures Contains(ContainerXml, "media-type=\"application/oebps-package+xml\"")
  {
    var head := "<?xml version=\"1.0\"?>\n"
      + "<container version=\"1.0\" xmlns=\"urn:oasis:names:tc:opendocument:xmlns:container\">\n"
      + "\t<rootfiles>\n"
      + "\t\t<rootfile ";
    var path := "full-path=\"OEBPS/content.opf\"";
    var mediaType := "media-type=\"application/oebps-package+xml\"";
    var tail := "/>\n" + "\t</rootfiles>\n" + "</container>";
    assert ContainerXml == head + path + " " + mediaType + tail;
    assert "full-path=\"" + PackageDocumentEntryName + "\"" == path;
    assert path <= ContainerXml[|head|..];
    assert mediaType <= ContainerXml[|head + path + " "|..];
  }

  /** The navigation document's id, file name and media type. */
  lemma NcxConstants(w: EpubWriter)
    ensures w.GetNcxId() == "ncx"
    ensures w.GetNcxHref() == "toc.ncx"
    ensures w.GetNcxMediaType() == "application/x-dtbncx+xml"
  {
  }

  // ------------------------------------------------------ distinct entry names

  function Names(a: seq<ZipEntry>): seq<string>
  {
    seq(|a|, i requires 0 <= i < |a| => a[i].name)
  }

  predicate Distinct(s: seq<string>)
  {
    forall i, j | 0 <= i < j < |s| :: s[i] != s[j]
  }

  /** The hrefs the writer puts under the content root, in order. */
  function Hrefs(book: Book): (hs: seq<string>)
    ensures |hs| == |ResourcesEntries(book)|
  {
    seq(|book.resources|, i requires 0 <= i < |book.resources| => book.resources[i].href)
    + (if book.coverImage.Some? then [book.coverImage.value.href] else [])
    + (if book.coverPage.Some? then [book.coverPage.value.href] else [])
  }

  lemma ResourceEntryNames(book: Book)
    ensures forall i | 0 <= i < |Hrefs(book)| :: ResourcesEntries(book)[i].name == ContentRoot + Hrefs(book)[i]
  {
  }

  lemma {:induction false} DistinctConcat(s: seq<string>, t: seq<string>)
    requires Distinct(s) && Distinct(t)
    requires forall i, j | 0 <= i < |s| && 0 <= j < |t| :: s[i] != t[j]
    ensures Distinct(s + t)
  {
    forall i, j | 0 <= i < j < |s + t| ensures (s + t)[i] != (s + t)[j] {
      if j < |s| {
        assert (s + t)[i] == s[i] && (s + t)[j] == s[j];
      } else if i < |s| {
        assert (s + t)[i] == s[i] && (s + t)[j] == t[j - |s|];
      } else {
        assert (s + t)[i] == t[i - |s|] && (s + t)[j] == t[j - |s|];
      }
    }
  }

  lemma PrefixedInjective(x: string, y: string)
    requires ContentRoot + x == ContentRoot + y
    ensures x == y
  {
    assert x == (ContentRoot + x)[|ContentRoot|..];
    assert y == (ContentRoot + y)[|ContentRoot|..];
  }

  lemma NamesConcat(a: seq<ZipEntry>, b: seq<ZipEntry>)
    ensures Names(a + b) == Names(a) + Names(b)
  {
  }

  /** The resource and cover entries have distinct names under the
      content root, none of them the package document's. */
  lemma ResourceNamesDistinct(book: Book)
    requires Distinct(Hrefs(book))
    requires forall i | 0 <= i < |Hrefs(book)| :: Hrefs(book)[i] != "content.opf"
    ensures Distinct(Names(ResourcesEntries(book)))
    ensures forall i | 0 <= i < |ResourcesEntries(book)| ::
              var name := ResourcesEntries(book)[i].name;
              name != MimetypeEntryName && name != ContainerEntryName && name != PackageDocumentEntryName
  {
    var hs := Hrefs(book);
    var res := ResourcesEntries(book);
    ResourceEntryNames(book);
    assert PackageDocumentEntryName == ContentRoot + "content.opf";
    forall i | 0 <= i < |res|
      ensures res[i].name != MimetypeEntryName && res[i].name != ContainerEntryName
      ensures res[i].name != PackageDocumentEntryName
    {
      assert res[i].name[0] == (ContentRoot + hs[i])[0] == 'O';
      if res[i].name == PackageDocumentEntryName {
        PrefixedInjective(hs[i], "content.opf");
      }
    }
    forall i, j | 0 <= i < j < |res| ensures Names(res)[i] != Names(res)[j] {
      if res[i].name == res[j].name {
        PrefixedInjective(hs[i], hs[j]);
      }
    }
  }

  /** Entry names are unique, as ZipOutputStream demands, when the
      resource and cover hrefs are pairwise distinct, none of them is the
      package document's `content.opf`, and the navigation entries have
      distinct names of their own that no other entry uses. */
  lemma ArchiveNamesDistinct(book: Book, c: Collaborators, w: EpubWriter)
    requires Distinct(Hrefs(book))
    requires forall i | 0 <= i < |Hrefs(book)| :: Hrefs(book)[i] != "content.opf"
    requires Distinct(Names(c.ncxDocument(book)))
    requires forall e | e in c.ncxDocument(book) ::
               && e.name != MimetypeEntryName
               && e.name != ContainerEntryName
               && e.name != PackageDocumentEntryName
               && forall i | 0 <= i < |Hrefs(book)| :: e.name != ContentRoot + Hrefs(book)[i]
    ensures Distinct(Names(ArchiveEntries(book, c, w)))
  {
    var res := ResourcesEntries(book);
    var ncx := c.ncxDocument(book);
    var head := [MimetypeEntry(c), ContainerEntry(c)];
    var last := [PackageDocumentEntry(c.packageDocument(w, book))];
    ResourceNamesDistinct(book);
    ResourceEntryNames(book);
    var n1, n2, n3, n4 := Names(head), Names(res), Names(ncx), Names(last);
    assert Distinct(n1);
    DistinctConcat(n1, n2);
    NamesConcat(head, res);
    assert forall i, j | 0 <= i < |n1 + n2| && 0 <= j < |n3| :: (n1 + n2)[i] != n3[j] by {
      forall i, j | 0 <= i < |n1 + n2| && 0 <= j < |n3| ensures (n1 + n2)[i] != n3[j] {
        assert ncx[j] in ncx;
        if i >= 2 {
          assert (n1 + n2)[i] == ContentRoot + Hrefs(book)[i - 2];
        }
      }
    }
    DistinctConcat(n1 + n2, n3);
    NamesConcat(head + res, ncx);
    assert forall i | 0 <= i < |n1 + n2 + n3| :: (n1 + n2 + n3)[i] != n4[0] by {
      forall i | 0 <= i < |n1 + n2 + n3| ensures (n1 + n2 + n3)[i] != n4[0] {
        if i >= |n1 + n2| {
          assert ncx[i - |n1 + n2|] in ncx;
        }
      }
    }
    DistinctConcat(n1 + n2 + n3, n4);
    NamesConcat(head + res + ncx, last);
  }

  // ------------------------------------------------------------------- CRC-32

  lemma CrcUpdateStep(register: bv32, b: byte, rest: seq<byte>)
    ensures CrcUpdate(register, [b] + rest) == CrcUpdate(CrcByte(register, b), rest)
  {
    assert ([b] + rest)[1..] == rest;
  }

  /** The register after each of the digits "1" to "9". */
  lemma CrcDigitRegisters()
    ensures CrcByte(0xFFFF_FFFF, 0x31) == 0x7C23_1048
    ensures CrcByte(0x7C23_1048, 0x32) == 0xB0AC_BB32
    ensures CrcByte(0xB0AC_BB32, 0x33) == 0x77B7_9C2D
    ensures CrcByte(0x77B7_9C2D, 0x34) == 0x641C_1F5C
    ensures CrcByte(0x641C_1F5C, 0x35) == 0x340A_C5E3
    ensures CrcByte(0x340A_C5E3, 0x36) == 0xF68D_2C9E
    ensures CrcByte(0xF68D_2C9E, 0x37) == 0xAFFC_9660
    ensures CrcByte(0xAFFC_9660, 0x38) == 0x651F_2550
    ensures CrcByte(0x651F_2550, 0x39) == 0x340B_C6D9
  {
  }

  /** The standard check value of CRC-32: the checksum of the ASCII digits
      "123456789" is 0xCBF43926. */
  lemma Crc32CheckValue()
    ensures Crc32([0x31, 0x32, 0x33, 0x34, 0x35, 0x36, 0x37, 0x38, 0x39]) == 0xCBF4_3926
  {
    CrcDigitRegisters();
    CrcUpdateStep(0xFFFF_FFFF, 0x31, [0x32, 0x33, 0x34, 0x35, 0x36, 0x37, 0x38, 0x39]);
    CrcUpdateStep(0x7C23_1048, 0x32, [0x33, 0x34, 0x35, 0x36, 0x37, 0x38, 0x39]);
    CrcUpdateStep(0xB0AC_BB32, 0x33, [0x34, 0x35, 0x36, 0x37, 0x38, 0x39]);
    CrcUpdateStep(0x77B7_9C2D, 0x34, [0x35, 0x36, 0x37, 0x38, 0x39]);
    CrcUpdateStep(0x641C_1F5C, 0x35, [0x36, 0x37, 0x38, 0x39]);
    CrcUpdateStep(0x340A_C5E3, 0x36, [0x37, 0x38, 0x39]);
    CrcUpdateStep(0xF68D_2C9E, 0x37, [0x38, 0x39]);
    CrcUpdateStep(0xAFFC_9660, 0x38, [0x39]);
    CrcUpdateStep(0x651F_2550, 0x39, []);
  }
}
