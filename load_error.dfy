/**
 * Every way `load_tree` can stop. The original panics in each of these
 * situations (an `unwrap` on `None`, an index past the end of a vector or of a
 * string); here each panic is a value that names the 1-based line of the input
 * at which it happens.
 */
module LoadErrors {

  datatype LoadError =
    /** One of the three header lines is missing (`lines.next().unwrap()`). */
    | MissingLine(lineNumber: nat)
    /** A header line lacks its marker, so `split(..)` has no second part. */
    | MissingMarker(lineNumber: nat)
    /** An entry line shorter than one indentation token (`line[4..]`). */
    | ShortEntry(lineNumber: nat)
    /** "Failed to get parent of line N for LABEL": the cursor has no last
        child to descend into, or no parent to ascend to. The text is the
        label left after the indentation was stripped. */
    | NoParent(lineNumber: nat, text: string)
}
