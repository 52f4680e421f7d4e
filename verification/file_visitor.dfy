/**
 * The visitor interface of the directory-scan API the core is built on
 * (hudson.util.FileVisitor): it is called once per file with the file and its
 * path relative to the scan root, and may throw an IOException.
 */
module FileVisitor {
  import opened Wrappers

  /** A java.io.IOException, identified by its message. */
  datatype IOException = IOException(message: string)

  /**
   * What a visitor does with one (file, relative path) pair: None when visit
   * returns normally, Some(e) when it throws e. The files a visitor copies are
   * outside this model; only whether it fails matters to the callers.
   */
  type Visitor = (string, string) -> Option<IOException>
}
