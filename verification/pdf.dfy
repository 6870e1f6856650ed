/** What the PDF library hands the services: the text it extracted from
    each page, in page order, or a failure to open or parse the file.
    A page whose extraction yields `None` (no text layer) is `None` here. */
module Pdf {
  import opened Wrappers

  datatype PdfRead =
    | Pages(texts: seq<Option<string>>)
    | Unreadable
}
