/** The HTML splitter pipeline stage. Splitting oversized documents is
    announced for the future; the stage passes the book through. */
module HtmlSplitter {
  import opened Domain

  /** `processBook(book, epubWriter)`; the writer may be anything, the
      stage never looks at it. */
  function ProcessBook<W>(book: Book, epubWriter: W): Book
  {
    book
  }

  /** The stage returns its input, whatever writer it is given, and so
      applying it twice is applying it once. */
  lemma ProcessBookIsIdentity<W>(book: Book, w1: W, w2: W)
    ensures ProcessBook(book, w1) == book
    ensures ProcessBook(book, w1) == ProcessBook(book, w2)
    ensures ProcessBook(ProcessBook(book, w1), w2) == ProcessBook(book, w1)
  {
  }
}
