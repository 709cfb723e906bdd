# epublib: EPUB writer and metadata table, in Dafny

A model of the EPUB container writer of epublib (`EpubWriter`), of the
identity pipeline stage `HtmlSplitterBookProcessor`, and of the metadata
table built by the viewer's `MetadataPane`, with proofs of what they
promise.

- `EpubWriter` is a class holding its book-processing pipeline. `Write`
  first runs the pipeline as a left fold over the processors. A processor
  that throws ends the run before any archive entry exists. Otherwise
  `Write` puts entries into a `ZipOutput` in a fixed order: `mimetype`,
  `META-INF/container.xml`, one `OEBPS/<href>` entry per resource, the
  cover image, the cover page, the navigation (NCX) entries, and
  `OEBPS/content.opf` last.
- The archive is a growing sequence of entry records. Each record holds
  the name, compression method, declared size, declared CRC-32 and content
  bytes.
- The `mimetype` entry follows the media-type rule of the EPUB Open
  Container Format 3.0, section 3.3. It is stored (ZIP method 0) and
  declares the size and CRC-32 of its own data, the header fields of
  sections 4.4.5, 4.4.7 and 4.4.9 of the PKWARE ZIP APPNOTE.
- CRC-32 is written out concretely: the reflected polynomial 0xEDB88320,
  initial register and final XOR 0xFFFFFFFF. Its standard check value is
  proved.
- `AddStrings` appends, to the caller's row list, one row per non-null,
  non-blank value, labelling only the first. `CreateTableData` lays out
  the twelve groups in their fixed order.

Files:
- `results.dfy`: Option and Result.
- `zip.dfy`: bytes, entry records, CRC-32, the entry stream.
- `domain.dfy`: Resource, Metadata, Book.
- `html_splitter.dfy`: the splitter stage.
- `epub_writer.dfy`: the writer class and the functions that specify it.
- `epub_writer_properties.dfy`: lemmas about the writer.
- `metadata_pane.dfy`: the table builder.
- `metadata_pane_properties.dfy`: lemmas about the table builder.

Code that the writer calls but that is not part of this model is passed
in as a `Collaborators` value:
- the platform default charset, used by `String.getBytes()` and by
  `OutputStreamWriter`;
- the three default processors;
- `NCXDocument.write`, which yields the navigation entries;
- `PackageDocument.write`, which yields the bytes of `OEBPS/content.opf`.

## Model

| member | source | states |
|---|---|---|
| Epub.EpubWriter.constructor | src/main/java/nl/siegmann/epublib/epub/EpubWriter.java:47-60 | a new writer's pipeline is exactly SectionHrefSanityCheck, HtmlCleaner, MissingResource, in that order |
| Epub.EpubWriter.GetBookProcessingPipeline | src/main/java/nl/siegmann/epublib/epub/EpubWriter.java:192-194 | returns the pipeline the writer holds |
| Epub.EpubWriter.SetBookProcessingPipeline | src/main/java/nl/siegmann/epublib/epub/EpubWriter.java:197-199 | after the call the writer holds exactly the given pipeline |
| Epub.EpubWriter.ProcessBook | src/main/java/nl/siegmann/epublib/epub/EpubWriter.java:74-79 | the loop yields the left fold of the pipeline over the book: each processor gets its predecessor's output, and the first exception ends the run |
| Epub.EpubWriter.Write | src/main/java/nl/siegmann/epublib/epub/EpubWriter.java:63-72 | if the pipeline fails, the error comes back and no entry is written; otherwise the archive is exactly, in order, mimetype, container, resources, covers, NCX entries and package document for the processed book |
| Epub.EpubWriter.WriteResources | src/main/java/nl/siegmann/epublib/epub/EpubWriter.java:82-87 | appends one entry per listed resource, in list order, then the cover entries; earlier entries stay unchanged |
| Epub.EpubWriter.WriteResource | src/main/java/nl/siegmann/epublib/epub/EpubWriter.java:96-105 | appends nothing for null, and otherwise exactly one entry named `OEBPS/` + href holding the resource's bytes |
| Epub.EpubWriter.WriteCoverResources | src/main/java/nl/siegmann/epublib/epub/EpubWriter.java:107-110 | appends the cover image's entry and then the cover page's, each only when set |
| Epub.EpubWriter.WritePackageDocument | src/main/java/nl/siegmann/epublib/epub/EpubWriter.java:113-120 | appends one entry `OEBPS/content.opf` holding the package document writer's bytes |
| Epub.EpubWriter.WriteNcxDocument | src/main/java/nl/siegmann/epublib/epub/EpubWriter.java:122-124 | appends the navigation writer's entries, in order, after those already written |
| Epub.EpubWriter.WriteContainer | src/main/java/nl/siegmann/epublib/epub/EpubWriter.java:126-136 | appends one entry `META-INF/container.xml` holding the encoded constant descriptor |
| Epub.EpubWriter.WriteMimeType | src/main/java/nl/siegmann/epublib/epub/EpubWriter.java:144-152 | appends the stored `mimetype` entry, whose declared size and CRC are those of the encoded media-type name |
| Epub.EpubWriter.CalculateCrc | src/main/java/nl/siegmann/epublib/epub/EpubWriter.java:154-158 | the checksum is an unsigned 32-bit value |
| EpubWriterProperties.Crc32CheckValue | src/main/java/nl/siegmann/epublib/epub/EpubWriter.java:154-158 | the CRC-32 used is the standard one: the checksum of "123456789" is 0xCBF43926 |
| EpubWriterProperties.EmptyPipelineKeepsBook | src/main/java/nl/siegmann/epublib/epub/EpubWriter.java:74-79 | an empty pipeline returns the book unchanged |
| EpubWriterProperties.RunPipelineConcat | src/main/java/nl/siegmann/epublib/epub/EpubWriter.java:74-79 | running the concatenation of two pipelines is running the first and then, if it succeeded, the second on its result |
| EpubWriterProperties.RunPipelineAppend | src/main/java/nl/siegmann/epublib/epub/EpubWriter.java:75-77 | a processor added at the end receives what the earlier processors produced, and runs only if they all succeeded |
| EpubWriterProperties.FailureEndsPipeline | src/main/java/nl/siegmann/epublib/epub/EpubWriter.java:75-77 | once a prefix of the pipeline has failed, the later processors do not change the outcome |
| EpubWriterProperties.HtmlSplitterAnywhere | src/main/java/nl/siegmann/epublib/bookprocessor/HtmlSplitterBookProcessor.java:15-17 | inserting the HTML splitter at any position of any pipeline leaves the pipeline's result unchanged |
| EpubWriterProperties.ArchiveSections | src/main/java/nl/siegmann/epublib/epub/EpubWriter.java:63-72 | the archive consists of the two leading entries, the resource section, the NCX section and the package document, at the stated positions |
| EpubWriterProperties.ArchiveLayout | src/main/java/nl/siegmann/epublib/epub/EpubWriter.java:63-72 | the archive has resources + covers + NCX + 3 entries: mimetype first, container second, NCX entries just before the last, and `OEBPS/content.opf` with the package bytes last |
| EpubWriterProperties.ArchiveResourceAt | src/main/java/nl/siegmann/epublib/epub/EpubWriter.java:68 | resource-section entry i is archive entry i + 2 |
| EpubWriterProperties.ArchiveResourceEntries | src/main/java/nl/siegmann/epublib/epub/EpubWriter.java:82-110 | entry i + 2 is the i-th listed resource under `OEBPS/` with its bytes; then come the cover image and then the cover page, when set |
| EpubWriterProperties.ResourceEntryCount | src/main/java/nl/siegmann/epublib/epub/EpubWriter.java:82-87 | no deduplication: resource entries = listed resources + covers set |
| EpubWriterProperties.CoverListedTwice | src/main/java/nl/siegmann/epublib/epub/EpubWriter.java:82-110 | a cover image that is also a listed resource is written twice, under the same name |
| EpubWriterProperties.MimetypeEntryFirst | src/main/java/nl/siegmann/epublib/epub/EpubWriter.java:144-152 | the first entry is `mimetype`, stored (method 0), with declared size and CRC-32 equal to those of its data, and data equal to the encoded `application/epub+zip`; with an ASCII charset that is exactly 20 bytes with no trailing newline |
| EpubWriterProperties.ArchiveHeadersMatchContent | src/main/java/nl/siegmann/epublib/epub/EpubWriter.java:96-152 | every entry the writer builds declares a size or CRC only when it matches the entry's data, and every stored entry declares both |
| EpubWriterProperties.ContainerPointsAtPackageDocument | src/main/java/nl/siegmann/epublib/epub/EpubWriter.java:129-134 | the container descriptor names `OEBPS/content.opf`, the package document's entry, with media type `application/oebps-package+xml` |
| EpubWriterProperties.NcxConstants | src/main/java/nl/siegmann/epublib/epub/EpubWriter.java:170-180 | the NCX id, href and media type are "ncx", "toc.ncx" and "application/x-dtbncx+xml" |
| EpubWriterProperties.ResourceNamesDistinct | src/main/java/nl/siegmann/epublib/epub/EpubWriter.java:101 | distinct hrefs, none of them `content.opf`, give distinct resource entry names that avoid `mimetype`, `META-INF/container.xml` and `OEBPS/content.opf` |
| EpubWriterProperties.ArchiveNamesDistinct | src/main/java/nl/siegmann/epublib/epub/EpubWriter.java:63-72 | all entry names are distinct when the hrefs are distinct, none is `content.opf`, and the NCX names are distinct and unused elsewhere |
| HtmlSplitter.ProcessBookIsIdentity | src/main/java/nl/siegmann/epublib/bookprocessor/HtmlSplitterBookProcessor.java:15-17 | the stage returns its input, independently of the writer argument, and applying it twice equals applying it once |
| MetadataPane.AddStrings | src/main/java/nl/siegmann/epublib/viewer/MetadataPane.java:79-99 | the rows already present are kept, and exactly the rows of the surviving values are appended after them, labelled on the first only |
| MetadataPane.CreateTableData | src/main/java/nl/siegmann/epublib/viewer/MetadataPane.java:62-77 | the table is the twelve groups in fixed order, with the Language and Format rows unfiltered |
| MetadataPaneProperties.KeptConcat | src/main/java/nl/siegmann/epublib/viewer/MetadataPane.java:81-97 | filtering distributes over concatenation, so input order is kept |
| MetadataPaneProperties.KeptSingle | src/main/java/nl/siegmann/epublib/viewer/MetadataPane.java:82-89 | a single value is kept exactly when it is non-null and not blank |
| MetadataPaneProperties.KeptMembers | src/main/java/nl/siegmann/epublib/viewer/MetadataPane.java:82-89 | every kept string is non-blank and comes from the input, every surviving input is kept, and nothing is kept exactly when nothing survives |
| MetadataPaneProperties.KeptLength | src/main/java/nl/siegmann/epublib/viewer/MetadataPane.java:81-97 | the number of kept values is the number of non-null, non-blank inputs |
| MetadataPaneProperties.GroupRowsShape | src/main/java/nl/siegmann/epublib/viewer/MetadataPane.java:80-96 | a group has one row per surviving value, carrying that value; the first row has the label and later rows ""; a group with no survivors has no rows |
| MetadataPaneProperties.HeadingsConcat | src/main/java/nl/siegmann/epublib/viewer/MetadataPane.java:63-75 | the non-empty labels of a concatenation are those of its parts, in order |
| MetadataPaneProperties.GroupHeadings | src/main/java/nl/siegmann/epublib/viewer/MetadataPane.java:80-96 | a group's label appears once if any value survives, and otherwise not at all |
| MetadataPaneProperties.TableHeadings | src/main/java/nl/siegmann/epublib/viewer/MetadataPane.java:64-75 | the table's labels, top to bottom, are Identifier, Title, Author, Language, Contributor, Description, Publisher, Date, Subject, Type, Rights, Format, each group's only if it has rows |
| MetadataPaneProperties.LanguageAndFormatRows | src/main/java/nl/siegmann/epublib/viewer/MetadataPane.java:67-75 | the Language row, carrying the language even when null, follows the author rows, and the Format row, carrying the format, is last |
| MetadataPaneProperties.FixedCaptionOnce | src/main/java/nl/siegmann/epublib/viewer/MetadataPane.java:64-75 | a label written unconditionally appears exactly once in the table |
| MetadataPaneProperties.LanguageAndFormatOnce | src/main/java/nl/siegmann/epublib/viewer/MetadataPane.java:67-75 | the Language and Format labels each appear exactly once |

## Left out

- ZIP byte encoding, DEFLATE, closing the stream and copying through `IOUtils.copy` are not modelled. The archive is the list of entry records. Entries without `setMethod` are recorded with `ZipOutputStream`'s default, DEFLATED.
- `ZipOutputStream` rejects a second entry with a name already used ("duplicate entry"); the model does not raise that error. `CoverListedTwice` shows when it would arise, and `ArchiveNamesDistinct` when it cannot.
- `IOException` and `XMLStreamException` from the streams and the XML writers are not modelled. Only exceptions from processors are, as `Err`.
- The platform default charset is a parameter. It is used by `getBytes()` for the media type and by `OutputStreamWriter` for the container descriptor. The bytes therefore depend on the platform. `MimetypeEntryFirst` fixes them only for an ASCII-compatible charset.
- `NCXDocument.write` and `PackageDocument.write` are parameters. Their bodies are not part of this model, nor are `createXMLOutputFactory` and `createXMLEventFactory`.
- The three default processors are parameters whose behaviour is not part of this model. `MediatypeService` is reduced to the name of the EPUB media type.
- `getHtmlProcessor`, `setHtmlProcessor` and `getMediatypeService` are plain field accessors that `write` does not use. They are not modelled.
- The pipeline getter returns a copy of the sequence. In Java it returns the list object itself, so a caller may change it; that aliasing is not modelled.
- A null element inside the resource list is not modelled (resources are non-null records). Null cover references are modelled.
- The book is reduced to its resources, covers and metadata. Spine and table of contents feed only the NCX and package writers, which are parameters.
- Thread safety is not modelled: the class is documented as not thread-safe.
- MetadataPane: the Swing constructor, `setCoverImage`, `createTableModel` and logging are not modelled. A metadata value is modelled by its `String.valueOf` form, with null as `None`. The final `toArray` becomes the row sequence itself, with two cells per row by construction.
- IsWhitespace follows the Unicode tables of Java 8 and earlier, where U+180E is a space separator. Later Java versions do not count it as whitespace.
