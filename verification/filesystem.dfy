/** The working directory as the tool sees it: a map from file names to
    what reading each one yields. A name absent from the map is a file that
    does not exist (the read fails with "not found"). */
module FileSystem {

  datatype FileEntry =
      /** a readable file and its text */
    | Readable(contents: string)
      /** a file whose read fails with another error, e.g. a permission error */
    | Unreadable(cause: string)

  type Files = map<string, FileEntry>

  /** What storing a file amounts to: the text the file then holds (which a
      partial write or a concurrent writer can make differ from the text
      sent), or the error the write fails with. */
  datatype WriteOutcome = Stored(contents: string) | Rejected(cause: string)

  /** The storage's behaviour, a collaborator passed in. */
  type Writer = (string, string) -> WriteOutcome

  /** A storage that holds exactly what it is sent. */
  ghost predicate IsFaithful(write: Writer) {
    forall name, text :: write(name, text) == Stored(text)
  }
}
