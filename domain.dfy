/** The book model that the writer consumes, reduced to what the writer
    and the metadata table read. */
module Domain {
  import opened Results
  import opened Zip

  datatype MediaType = MediaType(name: string)

  /** A resource: the accessors of the Resource interface, with the
      stream it opens given as the bytes that stream yields. */
  datatype Resource = Resource(
    id: string,
    href: string,
    mediaType: MediaType,
    inputEncoding: string,
    data: seq<byte>)

  /** Metadata as the table reads it. Each multi-valued field lists the
      string forms (`String.valueOf`) of its values in order; `None`
      stands for a null element. Language and format are single strings,
      possibly null. */
  datatype Metadata = Metadata(
    identifiers: seq<Option<string>>,
    titles: seq<Option<string>>,
    authors: seq<Option<string>>,
    language: Option<string>,
    contributors: seq<Option<string>>,
    descriptions: seq<Option<string>>,
    publishers: seq<Option<string>>,
    dates: seq<Option<string>>,
    subjects: seq<Option<string>>,
    types: seq<Option<string>>,
    rights: seq<Option<string>>,
    format: Option<string>)

  /** A book: its metadata, its resources in `getResources()` order and
      the optional cover image and cover page. */
  datatype Book = Book(
    metadata: Metadata,
    resources: seq<Resource>,
    coverImage: Option<Resource>,
    coverPage: Option<Resource>)
}
