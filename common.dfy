/** Types shared by every part of the archive handler: byte payloads, the
    Option/Result wrappers that stand for Rust's `Option` and `anyhow::Result`,
    and the error kinds the archive layer reports. */
module Common {

  /** Raw file contents. */
  type Bytes = seq<bv8>

  datatype Option<T> = None | Some(value: T)

  datatype Result<T, E> = Ok(value: T) | Err(error: E)

  /** The distinct failures of the archive layer (the `bail!`/`?` exits of the source). */
  datatype ArchiveError =
    | UnknownFormat                 // neither signature nor extension identified the archive
    | NotFound(path: string)        // a single-file extraction found no matching entry
    | DecodeFailed(path: string)    // the codec could not decompress or re-serialise an entry
    | CallbackFailed(path: string)  // the caller's sink rejected an extracted file
    | EmptyArchive                  // a builder was asked to write an archive with no files
    | CompressionFailed(path: string) // a BSA entry could not be compressed
    | FormatError(path: string)     // a texture payload could not be parsed as DDS
    | OpenFailed                    // the codec could not read the archive in the detected format
}
