/** The four FUSE handlers of `RedditFS` as pure transitions over `State`.
    The iteration order of the `HashMap` is a parameter `order` listing every
    key once; the Reddit client is a parameter `fetch`; the kernel's reply
    buffer is a parameter `capacity`, the number of entries it accepts. */
module Handlers {
  import opened Wrappers
  import opened Types
  import opened Registry

  /** `order` is one iteration order of the map `files`: every key exactly once. */
  predicate IsEnumeration(order: seq<string>, files: map<string, File>) {
    && (forall k | k in order :: k in files)
    && (forall k | k in files :: k in order)
    && (forall i, j | 0 <= i < j < |order| :: order[i] != order[j])
  }

  /** `files.iter().find(|f| f.attr.ino == ino)`: the first key in iteration order
      whose entry has inode `ino`. */
  function Find(files: map<string, File>, order: seq<string>, ino: nat): (r: Option<string>)
    requires forall k | k in order :: k in files
    ensures r.Some? ==> r.value in files && files[r.value].attr.ino == ino
    ensures r.Some? ==>
      exists i | 0 <= i < |order| ::
        order[i] == r.value && forall j | 0 <= j < i :: files[order[j]].attr.ino != ino
    ensures r.None? ==> forall k | k in order :: files[k].attr.ino != ino
  {
    if |order| == 0 then
      None
    else if files[order[0]].attr.ino == ino then
      assert order[0] in order;
      Some(order[0])
    else
      var r := Find(files, order[1..], ino);
      assert forall k | k in order :: k == order[0] || k in order[1..];
      if r.Some? then
        var i :| 0 <= i < |order[1..]| && order[1..][i] == r.value &&
          forall j | 0 <= j < i :: files[order[1..][j]].attr.ino != ino;
        assert order[i + 1] == r.value;
        assert forall j | 0 <= j < i + 1 :: files[order[j]].attr.ino != ino by {
          forall j | 0 <= j < i + 1 ensures files[order[j]].attr.ino != ino {
            if j > 0 { assert order[j] == order[1..][j - 1]; }
          }
        }
        r
      else
        r
  }

  /** The `enumerate().skip(offset)` loop of `readdir`: emits entries from index
      `i` on, each tagged with the index of its successor, until the listing
      ends or `add` reports the buffer full (`room` entries left). */
  function Emit(entries: seq<ListEntry>, i: nat, room: nat): (r: seq<DirEntry>)
    decreases |entries| - i
    ensures |r| == if i >= |entries| then 0 else Min(room, |entries| - i)
    ensures forall k | 0 <= k < |r| ::
      r[k] == DirEntry(entries[i + k].ino, i + k + 1, entries[i + k].kind, entries[i + k].name)
  {
    if i >= |entries| || room == 0 then
      []
    else
      [DirEntry(entries[i].ino, i + 1, entries[i].kind, entries[i].name)] + Emit(entries, i + 1, room - 1)
  }

  function Min(a: nat, b: nat): nat {
    if a <= b then a else b
  }

  /** The entries every listing starts with; both point at the root inode. */
  const DotEntries: seq<ListEntry> := [ListEntry(RootIno, Directory, "."), ListEntry(RootIno, Directory, "..")]

  /** The complete root listing: the dot entries and README.txt. */
  const RootEntries: seq<ListEntry> := DotEntries + [ListEntry(ReadmeIno, RegularFile, ReadmeName)]

  /** For a non-root directory, offsets from 27 on (25 posts plus the dot
      entries) are answered empty without fetching. */
  const ListingLimit: nat := 27

  /** The entries `readdir` pushes for the (title, attr) pairs `create_post_file` returned. */
  function PostListing(created: seq<(string, Attr)>): seq<ListEntry> {
    seq(|created|, i requires 0 <= i < |created| => ListEntry(created[i].1.ino, RegularFile, created[i].0))
  }

  /** `lookup(parent, name)`. */
  function Lookup(s: State, parent: nat, name: string): (r: (State, Reply<Attr>))
    ensures parent == RootIno && name == ReadmeName ==> r == (s, Ok(ReadmeAttr))
    ensures parent == RootIno && name != ReadmeName && '.' !in name ==>
      && name in r.0.files
      && r.1 == Ok(r.0.files[name].attr)
      && (name in s.files ==> r.0 == s)
      && (name !in s.files ==>
            r.0.files == s.files[name := File(None, SubredditDirAttr)] && r.0.lastInode == s.lastInode + 1)
    ensures parent == RootIno && name != ReadmeName && '.' in name ==> r == (s, Error(ENOENT))
    ensures parent == SubredditIno ==> r.0 == s && (r.1.Ok? <==> name in s.files)
    ensures parent == SubredditIno && name in s.files ==> r.1 == Ok(s.files[name].attr)
    ensures parent != RootIno && parent != SubredditIno ==> r == (s, Error(ENOENT))
    ensures !r.1.Ok? ==> r == (s, Error(ENOENT))
  {
    if parent == RootIno then
      if name == ReadmeName then
        (s, Ok(ReadmeAttr))
      else if '.' !in name then
        var (s', attr) := CreateSubredditDirectory(s, name);
        (s', Ok(attr))
      else
        (s, Error(ENOENT))
    else if parent == SubredditIno then
      if name in s.files then (s, Ok(s.files[name].attr)) else (s, Error(ENOENT))
    else
      (s, Error(ENOENT))
  }

  /** `getattr(ino)`: only the three reserved inodes have attributes. */
  function GetAttr(ino: nat): (r: Reply<Attr>)
    ensures r.Ok? <==> ino == RootIno || ino == ReadmeIno || ino == SubredditIno
    ensures r.Ok? ==> r.value.ino == ino
    ensures r.Ok? ==> r.value.kind == (if ino == ReadmeIno then RegularFile else Directory)
    ensures r.Ok? ==> r.value.perm == (if ino == ReadmeIno then FilePerm else DirPerm)
    ensures r.Ok? ==> r.value.nlink == (if ino == ReadmeIno then 1 else 2)
    ensures r.Ok? ==> r.value.size == (if ino == ReadmeIno then 18 else 0)
    ensures !r.Ok? ==> r == Error(ENOENT)
  {
    if ino == RootIno then Ok(RootAttr)
    else if ino == ReadmeIno then Ok(ReadmeAttr)
    else if ino == SubredditIno then Ok(SubredditDirAttr)
    else Error(ENOENT)
  }

  /** `readdir(ino, offset)`. */
  function ReadDir(s: State, order: seq<string>, fetch: string -> FetchResult,
                   ino: nat, offset: nat, capacity: nat): (r: (State, Reply<seq<DirEntry>>))
    requires IsEnumeration(order, s.files)
    ensures Grows(s, r.0)
    ensures !r.1.Panic?
    ensures r.1.Ok? ==> |r.1.value| <= capacity
    ensures ino == RootIno ==> r == (s, Ok(Emit(RootEntries, offset, capacity)))
    ensures ino != RootIno && offset >= ListingLimit ==> r == (s, Ok([]))
    ensures r.1.Error? ==> r.0 == s
    ensures r.1 == Error(ENOENT) <==>
      ino != RootIno && offset < ListingLimit && forall k | k in s.files :: s.files[k].attr.ino != ino
    ensures r.1 == Error(EIO) ==>
      exists k | k in s.files :: s.files[k].attr.ino == ino && fetch(k).Failure?
  {
    if ino == RootIno then
      (s, Ok(Emit(RootEntries, offset, capacity)))
    else if offset >= ListingLimit then
      (s, Ok([]))
    else
      match Find(s.files, order, ino)
      case None =>
        (s, Error(ENOENT))
      case Some(sub) =>
        match fetch(sub)
        case Failure(_) =>
          (s, Error(EIO))
        case Success(posts) =>
          var (s', created) := CreatePostFiles(s, posts);
          (s', Ok(Emit(DotEntries + PostListing(created), offset, capacity)))
  }

  /** `read(ino)`: the README text for inode 2, otherwise the whole stored
      content of the first entry with that inode. A directory has no content,
      so the source's `unwrap` panics. */
  function Read(s: State, order: seq<string>, ino: nat): (r: Reply<Bytes>)
    requires IsEnumeration(order, s.files)
    ensures ino == ReadmeIno ==> r == Ok(ReadmeText)
    ensures ino != ReadmeIno ==>
      (r == Error(ENOENT) <==> forall k | k in s.files :: s.files[k].attr.ino != ino)
    ensures ino != ReadmeIno && r.Ok? ==>
      exists k | k in s.files :: s.files[k].attr.ino == ino && s.files[k].content == Some(r.value)
    ensures r.Panic? ==>
      exists k | k in s.files :: s.files[k].attr.ino == ino && s.files[k].content.None?
    ensures r.Error? ==> r.errno == ENOENT
  {
    if ino == ReadmeIno then
      Ok(ReadmeText)
    else
      match Find(s.files, order, ino)
      case None => Error(ENOENT)
      case Some(k) =>
        match s.files[k].content
        case Some(c) => Ok(c)
        case None => Panic
  }
}
