/**
 * The filesystem as the engine sees it: a snapshot of directory listings and of
 * the outcome of reading and decoding each `metadata.json` sidecar.
 */
module Disk {
  import opened Paths

  /** One `os.DirEntry`: its name and whether it is a directory. */
  datatype Entry = Entry(name: string, isDir: bool)

  /** Directory path to its entries in `os.ReadDir` order; a path that is not a key cannot be read. */
  type Listing = map<string, seq<Entry>>

  /**
   * What a sidecar path holds for one record type: nothing (`os.Stat` fails), a
   * document that decodes to `doc`, a file that cannot be read, or one that is not
   * valid JSON for the record.
   */
  datatype Sidecar<R> = Absent | Loads(doc: R) | Unreadable | Malformed

  type Store<R> = map<string, Sidecar<R>>

  /** The standard name of a sidecar file. */
  const MetadataFileName: string := "metadata.json"

  function SidecarAt<R>(store: Store<R>, path: string): Sidecar<R>
  {
    if path in store then store[path] else Absent
  }

  /** `os.ReadDir` with its error ignored: a nil (empty) listing when the directory cannot be read. */
  function EntriesOrEmpty(dirs: Listing, path: string): (r: seq<Entry>)
    ensures path !in dirs ==> r == []
  {
    if path in dirs then dirs[path] else []
  }

  /** `os.WriteFile` succeeds exactly when the file's directory exists. */
  predicate CanWrite(dirs: Listing, path: string)
  {
    Dir(path) in dirs
  }
}
