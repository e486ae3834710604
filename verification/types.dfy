/** The data model of the reddit-fs adapter: file attributes, registry entries,
    the filesystem state, posts delivered by the Reddit client, and replies. */
module Types {
  import opened Wrappers

  newtype byte = x: int | 0 <= x < 256

  /** File contents are byte strings; Rust's `str::len` counts bytes. */
  type Bytes = seq<byte>

  const Newline: byte := 10

  /** Every character of `s` is 7-bit ASCII, hence encodes as one byte. */
  predicate IsAscii(s: string) {
    forall i | 0 <= i < |s| :: s[i] as int < 128
  }

  /** The UTF-8 encoding of an ASCII string. */
  function Ascii(s: string): (r: Bytes)
    requires IsAscii(s)
    ensures |r| == |s|
    ensures forall i | 0 <= i < |s| :: r[i] as int == s[i] as int
  {
    seq(|s|, i requires 0 <= i < |s| => s[i] as int as byte)
  }

  datatype FileType = Directory | RegularFile

  /** `fuser::FileAttr` without its four timestamps, which only carry clock readings. */
  datatype Attr = Attr(
    ino: nat,
    size: nat,
    blocks: nat,
    kind: FileType,
    perm: nat,
    nlink: nat,
    uid: nat,
    gid: nat,
    rdev: nat,
    flags: nat,
    blksize: nat)

  /** Reserved inodes: the mount root, the static README and every subreddit directory. */
  const RootIno: nat := 1
  const ReadmeIno: nat := 2
  const SubredditIno: nat := 3

  /** Permission bits 0o755 and 0o644 (Dafny has no octal literals). */
  const DirPerm: nat := 493
  const FilePerm: nat := 420

  const ReadmeName: string := "README.txt"
  const ReadmeText: Bytes := Ascii("Reddit filesystem\n")

  const RootAttr: Attr :=
    Attr(RootIno, 0, 0, Directory, DirPerm, 2, 501, 20, 0, 0, 512)

  const ReadmeAttr: Attr :=
    Attr(ReadmeIno, |ReadmeText|, 1, RegularFile, FilePerm, 1, 501, 20, 0, 0, 512)

  /** The attribute every subreddit directory is stamped with, whatever its name. */
  const SubredditDirAttr: Attr :=
    Attr(SubredditIno, 0, 0, Directory, DirPerm, 2, 501, 20, 0, 0, 512)

  /** The attribute of a post file with inode `ino` whose selected body has `size` bytes. */
  function PostAttr(ino: nat, size: nat): Attr {
    Attr(ino, size, 1, RegularFile, FilePerm, 1, 501, 20, 0, 0, 512)
  }

  /** A registry entry: directories have no content, post files have their body. */
  datatype File = File(content: Option<Bytes>, attr: Attr)

  /** The adapter's state: entries keyed by name (post title or subreddit name)
      in one map, and the inode counter. */
  datatype State = State(files: map<string, File>, lastInode: nat)

  /** The state a freshly started adapter holds. */
  const Init: State := State(map[], 3)

  /** One child of a Reddit listing, already navigated out of its JSON. */
  datatype Post = Post(kind: string, id: string, title: string, url: Bytes, selftext: Bytes)

  datatype FetchError = RequestFailed

  /** What the Reddit client returns for one subreddit's hot listing. */
  type FetchResult = Result<seq<Post>, FetchError>

  datatype Errno = ENOENT | EIO

  /** A protocol reply: success with a payload, an errno, or the panic that
      an `unwrap` of `None` raises. */
  datatype Reply<+T> = Ok(value: T) | Error(errno: Errno) | Panic

  /** A candidate entry of a directory listing before it is numbered. */
  datatype ListEntry = ListEntry(ino: nat, kind: FileType, name: string)

  /** An entry handed to `reply.add`, carrying the offset of its successor. */
  datatype DirEntry = DirEntry(ino: nat, offset: nat, kind: FileType, name: string)
}
