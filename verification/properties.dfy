/** The parsed `.properties` record the resource model consumes. The parser
    that produces it is not part of this model; only the fields the core reads
    are kept. */
module Properties {
  import opened Wrappers

  /** One `key=value` line of a `.properties` file, with the layout data the
      line-break helper needs: the raw text of the logical line, where its
      separator sits and how long it is, and where continuation line breaks
      were found. */
  datatype Property = Property(
    key: string,
    value: string,
    linesContent: string,
    separatorPosition: int,
    separatorLength: int,
    newlinePositions: Option<seq<int>>)
}
