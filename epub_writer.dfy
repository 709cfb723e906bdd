/** The EPUB container writer: runs the book-processing pipeline, then
    emits the archive entries in the fixed order the EPUB Open Container
    Format demands. */
module Epub {
  import opened Results
  import opened Zip
  import opened Domain
  import Splitter = HtmlSplitter

  const MimetypeEntryName := "mimetype"
  const ContainerEntryName := "META-INF/container.xml"
  /** Directory inside the archive that holds the publication's files. */
  const ContentRoot := "OEBPS/"
  const PackageDocumentEntryName := "OEBPS/content.opf"
  /** The name of the EPUB media type (MediatypeService.EPUB). */
  const EpubMediaTypeName := "application/epub+zip"

  /** The container descriptor, written verbatim whatever the book. The
      rootfile line is cut into its attributes so that each literal stays
      small enough for the verifier to compare character by character. */
  const ContainerXml: string :=
    "<?xml version=\"1.0\"?>\n"
    + "<container version=\"1.0\" xmlns=\"urn:oasis:names:tc:opendocument:xmlns:container\">\n"
    + "\t<rootfiles>\n"
    + "\t\t<rootfile " + "full-path=\"OEBPS/content.opf\"" + " " + "media-type=\"application/oebps-package+xml\"" + "/>\n"
    + "\t</rootfiles>\n"
    + "</container>"

  /** The processors a pipeline can hold: the three the writer installs
      by default, the HTML splitter, and any other implementation a
      caller supplies. */
  datatype BookProcessor =
    | SectionHrefSanityCheck
    | HtmlCleaner
    | MissingResource
    | HtmlSplitter
    | OtherProcessor(run: (Book, EpubWriter) -> Result<Book>)

  /** What the writer depends on but this model does not define: the
      platform's default charset (used by `getBytes()` and by
      `OutputStreamWriter`), the three default processors, the navigation
      (NCX) document writer, which puts its own entries, and the package
      document writer, which yields the bytes of `OEBPS/content.opf`. */
  datatype Collaborators = Collaborators(
    defaultCharset: string -> seq<byte>,
    sectionHrefSanityCheck: (Book, EpubWriter) -> Result<Book>,
    htmlCleaner: (Book, EpubWriter) -> Result<Book>,
    missingResource: (Book, EpubWriter) -> Result<Book>,
    ncxDocument: Book -> seq<ZipEntry>,
    packageDocument: (EpubWriter, Book) -> seq<byte>)

  /** `processor.processBook(book, writer)`; an `Err` is the exception the
      processor throws. */
  function Apply(p: BookProcessor, c: Collaborators, book: Book, w: EpubWriter): Result<Book>
  {
    match p
    case SectionHrefSanityCheck => c.sectionHrefSanityCheck(book, w)
    case HtmlCleaner => c.htmlCleaner(book, w)
    case MissingResource => c.missingResource(book, w)
    case HtmlSplitter => Ok(Splitter.ProcessBook(book, w))
    case OtherProcessor(run) => run(book, w)
  }

  /** The pipeline as a left fold: the first processor gets the book,
      each later one the previous one's output; the first failure ends
      the run. */
  function RunPipeline(ps: seq<BookProcessor>, c: Collaborators, book: Book, w: EpubWriter): Result<Book>
    decreases |ps|
  {
    if ps == [] then Ok(book)
    else
      match Apply(ps[0], c, book, w)
      case Err(e) => Err(e)
      case Ok(next) => RunPipeline(ps[1..], c, next, w)
  }

  // The archive each step of `write` emits.

  function MimetypeEntry(c: Collaborators): ZipEntry
  {
    var bytes := c.defaultCharset(EpubMediaTypeName);
    ZipEntry(MimetypeEntryName, Stored, Some(|bytes|), Some(EpubWriter.CalculateCrc(bytes)), bytes)
  }

  function ContainerEntry(c: Collaborators): ZipEntry
  {
    NewEntry(ContainerEntryName, c.defaultCharset(ContainerXml))
  }

  function ResourceEntry(r: Resource): ZipEntry
  {
    NewEntry(ContentRoot + r.href, r.data)
  }

  /** What `writeResource` emits: nothing for null. */
  function OptionalResourceEntries(r: Option<Resource>): seq<ZipEntry>
  {
    match r
    case None => []
    case Some(res) => [ResourceEntry(res)]
  }

  function ResourceListEntries(rs: seq<Resource>): seq<ZipEntry>
  {
    seq(|rs|, i requires 0 <= i < |rs| => ResourceEntry(rs[i]))
  }

  function CoverEntries(book: Book): seq<ZipEntry>
  {
    OptionalResourceEntries(book.coverImage) + OptionalResourceEntries(book.coverPage)
  }

  function ResourcesEntries(book: Book): seq<ZipEntry>
  {
    ResourceListEntries(book.resources) + CoverEntries(book)
  }

  function PackageDocumentEntry(content: seq<byte>): ZipEntry
  {
    NewEntry(PackageDocumentEntryName, content)
  }

  /** The archive `write` produces for a processed book. */
  function ArchiveEntries(book: Book, c: Collaborators, w: EpubWriter): seq<ZipEntry>
  {
    [MimetypeEntry(c), ContainerEntry(c)] + ResourcesEntries(book) + c.ncxDocument(book)
      + [PackageDocumentEntry(c.packageDocument(w, book))]
  }

  /** Generates an EPUB archive. Holds only configuration between calls:
      `write` builds its archive in a stream of its own. */
  class EpubWriter {
    var bookProcessingPipeline: seq<BookProcessor>

    constructor ()
      ensures bookProcessingPipeline == [SectionHrefSanityCheck, HtmlCleaner, MissingResource]
    {
      bookProcessingPipeline := SetupBookProcessingPipeline();
    }

    static function SetupBookProcessingPipeline(): seq<BookProcessor>
    {
      [SectionHrefSanityCheck, HtmlCleaner, MissingResource]
    }

    /** Processes the book, then writes the archive. A processor failure
        ends the call before any entry exists. */
    method Write(book: Book, c: Collaborators) returns (r: Result<seq<ZipEntry>>)
      ensures var processed := RunPipeline(bookProcessingPipeline, c, book, this);
              if processed.Err? then r == Err(processed.error)
              else r == Ok(ArchiveEntries(processed.value, c, this))
    {
      var processed := ProcessBook(book, c);
      if processed.Err? {
        return Err(processed.error);
      }
      var b := processed.value;
      var resultStream := new ZipOutput();
      WriteMimeType(resultStream, c);
      WriteContainer(resultStream, c);
      ghost var head := [MimetypeEntry(c), ContainerEntry(c)];
      assert resultStream.entries == head;
      WriteResources(b, resultStream);
      assert resultStream.entries == head + ResourcesEntries(b);
      WriteNcxDocument(b, resultStream, c);
      assert resultStream.entries == head + ResourcesEntries(b) + c.ncxDocument(b);
      WritePackageDocument(b, resultStream, c);
      r := Ok(resultStream.entries);
    }

    method ProcessBook(book: Book, c: Collaborators) returns (r: Result<Book>)
      ensures r == RunPipeline(bookProcessingPipeline, c, book, this)
    {
      var ps := bookProcessingPipeline;
      var current := book;
      var i := 0;
      while i < |ps|
        invariant 0 <= i <= |ps|
        invariant RunPipeline(ps, c, book, this) == RunPipeline(ps[i..], c, current, this)
      {
        var step := Apply(ps[i], c, current, this);
        if step.Err? {
          return Err(step.error);
        }
        current := step.value;
        i := i + 1;
      }
      r := Ok(current);
    }

    method WriteResources(book: Book, resultStream: ZipOutput)
      modifies resultStream
      ensures resultStream.entries == old(resultStream.entries) + ResourcesEntries(book)
    {
      var rs := book.resources;
      for i := 0 to |rs|
        invariant resultStream.entries == old(resultStream.entries) + ResourceListEntries(rs[..i])
      {
        WriteResource(Some(rs[i]), resultStream);
        assert ResourceListEntries(rs[..i + 1]) == ResourceListEntries(rs[..i]) + [ResourceEntry(rs[i])];
      }
      assert rs[..|rs|] == rs;
      WriteCoverResources(book, resultStream);
    }

    /** Puts one entry for a resource, under the content root; nothing
        for null. */
    method WriteResource(resource: Option<Resource>, resultStream: ZipOutput)
      modifies resultStream
      ensures resultStream.entries == old(resultStream.entries) + OptionalResourceEntries(resource)
    {
      if resource.None? {
        return;
      }
      resultStream.PutEntry(NewEntry(ContentRoot + resource.value.href, resource.value.data));
    }

    method WriteCoverResources(book: Book, resultStream: ZipOutput)
      modifies resultStream
      ensures resultStream.entries == old(resultStream.entries) + CoverEntries(book)
    {
      WriteResource(book.coverImage, resultStream);
      WriteResource(book.coverPage, resultStream);
    }

    method WritePackageDocument(book: Book, resultStream: ZipOutput, c: Collaborators)
      modifies resultStream
      ensures resultStream.entries == old(resultStream.entries) + [PackageDocumentEntry(c.packageDocument(this, book))]
    {
      resultStream.PutEntry(NewEntry(PackageDocumentEntryName, c.packageDocument(this, book)));
    }

    method WriteNcxDocument(book: Book, resultStream: ZipOutput, c: Collaborators)
      modifies resultStream
      ensures resultStream.entries == old(resultStream.entries) + c.ncxDocument(book)
    {
      var ncx := c.ncxDocument(book);
      for i := 0 to |ncx|
        invariant resultStream.entries == old(resultStream.entries) + ncx[..i]
      {
        resultStream.PutEntry(ncx[i]);
        assert ncx[..i + 1] == ncx[..i] + [ncx[i]];
      }
      assert ncx[..|ncx|] == ncx;
    }

    method WriteContainer(resultStream: ZipOutput, c: Collaborators)
      modifies resultStream
      ensures resultStream.entries == old(resultStream.entries) + [ContainerEntry(c)]
    {
      resultStream.PutEntry(NewEntry(ContainerEntryName, c.defaultCharset(ContainerXml)));
    }

    /** Stores the media type uncompressed, with its size and CRC-32
        declared before the data. */
    method WriteMimeType(resultStream: ZipOutput, c: Collaborators)
      modifies resultStream
      ensures resultStream.entries == old(resultStream.entries) + [MimetypeEntry(c)]
    {
      var mimetypeZipEntry := NewEntry(MimetypeEntryName, []);
      mimetypeZipEntry := mimetypeZipEntry.(compression := Stored);
      var mimetypeBytes := c.defaultCharset(EpubMediaTypeName);
      mimetypeZipEntry := mimetypeZipEntry.(declaredSize := Some(|mimetypeBytes|));
      mimetypeZipEntry := mimetypeZipEntry.(declaredCrc := Some(CalculateCrc(mimetypeBytes)));
      resultStream.PutEntry(mimetypeZipEntry.(content := mimetypeBytes));
    }

    /** `CRC32.getValue()` after one `update(data)`: the checksum as an
        unsigned 32-bit number. */
    static function CalculateCrc(data: seq<byte>): (crc: nat)
      ensures crc < 0x1_0000_0000
    {
      Crc32(data) as nat
    }

    function GetNcxId(): string
    {
      "ncx"
    }

    function GetNcxHref(): string
    {
      "toc.ncx"
    }

    function GetNcxMediaType(): string
    {
      "application/x-dtbncx+xml"
    }

    method GetBookProcessingPipeline() returns (p: seq<BookProcessor>)
      ensures p == bookProcessingPipeline
    {
      p := bookProcessingPipeline;
    }

    method SetBookProcessingPipeline(p: seq<BookProcessor>)
      modifies this
      ensures bookProcessingPipeline == p
    {
      bookProcessingPipeline := p;
    }
  }
}
