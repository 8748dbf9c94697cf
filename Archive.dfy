/**
 * The ZIP container and the file system are abstracted to values: an archive
 * is the sequence of its entries as ZipFile.entries() enumerates them, a file
 * of the input folder is its name, the outcome of reading its bytes and the
 * outcome of opening it as an archive, and a written archive is the sequence
 * of entries put into the ZipOutputStream.
 */
module Archive {
  import opened Wrappers

  type Bytes = seq<bv8>

  /** A ZipEntry read from a source archive; time is getLastModifiedTime() in milliseconds, None for null. */
  datatype Entry = Entry(name: string, isDirectory: bool, content: Bytes, time: Option<int>)

  /**
   * A regular file of the input folder: bytes is None when reading it fails,
   * entries is None when it cannot be opened as a ZIP archive.
   */
  datatype SourceFile = SourceFile(name: string, bytes: Option<Bytes>, entries: Option<seq<Entry>>)

  /** A ZipEntry written to the output archive; time None keeps the writer's default (the current time). */
  datatype OutEntry = OutEntry(name: string, time: Option<int>, content: Bytes)
}
