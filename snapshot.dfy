/**
 * A snapshot of the filesystem as the wiki sees it from its working
 * directory. Every query the wiki makes of the filesystem is answered from
 * the snapshot: `glob`, `os.listdir`, `os.path.isdir`, `os.path.exists` and
 * the reads of text and of bytes. Listing orders are whatever the snapshot
 * holds; nothing assumes them sorted.
 */
module Snapshot {
  import opened Wrappers
  import opened Base64

  datatype FileSystem = FileSystem(
    // the `.md` files `glob.glob` finds directly in directory `d`, by the string `d` (no entry: none)
    globbed: map<string, seq<string>>,
    // `os.listdir(d)`, by the directory string `d` (no entry: an empty directory)
    listings: map<string, seq<string>>,
    // the paths that are directories
    dirs: set<string>,
    // the paths that are other files
    files: set<string>,
    // the text a UTF-8 read of a path gives (no entry: the read raises)
    text: map<string, string>,
    // the bytes a binary read of a path gives (no entry: the read raises)
    bytes: map<string, seq<byte>>
  )

  function GlobMd(fs: FileSystem, dir: string): seq<string> {
    if dir in fs.globbed then fs.globbed[dir] else []
  }

  function ListDir(fs: FileSystem, dir: string): seq<string> {
    if dir in fs.listings then fs.listings[dir] else []
  }

  /** `os.path.isdir(p)` */
  predicate IsDir(fs: FileSystem, p: string) {
    p in fs.dirs
  }

  /** `os.path.exists(p)`: false for the empty path. */
  predicate Exists(fs: FileSystem, p: string) {
    p != "" && (p in fs.files || p in fs.dirs)
  }

  /** `read_md_file(p)`, or None where it raises. */
  function ReadText(fs: FileSystem, p: string): Option<string> {
    if p in fs.text then Some(fs.text[p]) else None
  }

  /** `open(p, "rb").read()`, or None where it raises. */
  function ReadBytes(fs: FileSystem, p: string): Option<seq<byte>> {
    if p in fs.bytes then Some(fs.bytes[p]) else None
  }
}
