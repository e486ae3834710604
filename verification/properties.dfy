/** Properties relating several handler calls, or a handler to the registry invariant. */
module Properties {
  import opened Wrappers
  import opened Types
  import opened Registry
  import opened Handlers

  /** Resumable enumeration: a page of `c1` entries followed by the page the
      kernel asks for next (at the offset the last entry carried) is the page
      of `c1 + c2` entries. */
  lemma {:induction false} EmitResume(entries: seq<ListEntry>, offset: nat, c1: nat, c2: nat)
    ensures var first := Emit(entries, offset, c1);
      && (first != [] ==> first[|first| - 1].offset == offset + |first|)
      && first + Emit(entries, offset + |first|, c2) == Emit(entries, offset, c1 + c2)
    decreases |entries| - offset
  {
  }

  /** The root listing: ".", ".." and README.txt, no subreddit directories,
      no fetch, no state change; offsets from 3 on give an empty success. */
  lemma ReadDirRoot(s: State, order: seq<string>, fetch: string -> FetchResult, offset: nat, capacity: nat)
    requires IsEnumeration(order, s.files)
    ensures var (s', reply) := ReadDir(s, order, fetch, RootIno, offset, capacity);
      && s' == s
      && reply.Ok?
      && |reply.value| == (if offset >= 3 then 0 else Min(capacity, 3 - offset))
      && forall k | 0 <= k < |reply.value| ::
           && reply.value[k].offset == offset + k + 1
           && (offset + k == 0 ==> reply.value[k] == DirEntry(RootIno, 1, Directory, "."))
           && (offset + k == 1 ==> reply.value[k] == DirEntry(RootIno, 2, Directory, ".."))
           && (offset + k == 2 ==> reply.value[k] == DirEntry(ReadmeIno, 3, RegularFile, ReadmeName))
  {
  }

  /** A successful listing of a non-root inode: the full list is ".", ".." and
      one entry per fetched post in fetch order; emission starts at `offset`,
      each entry carries the next offset, and stops after `capacity` entries. */
  lemma ReadDirListing(s: State, order: seq<string>, fetch: string -> FetchResult,
                       ino: nat, offset: nat, capacity: nat, sub: string, posts: seq<Post>)
    requires IsEnumeration(order, s.files)
    requires ino != RootIno && offset < ListingLimit
    requires Find(s.files, order, ino) == Some(sub) && fetch(sub) == Success(posts)
    ensures var (s', reply) := ReadDir(s, order, fetch, ino, offset, capacity);
      && s' == CreatePostFiles(s, posts).0
      && s'.files.Keys == s.files.Keys + Titles(posts)
      && reply.Ok?
      && |reply.value| == (if offset >= 2 + |posts| then 0 else Min(capacity, 2 + |posts| - offset))
      && forall k | 0 <= k < |reply.value| ::
           && reply.value[k].offset == offset + k + 1
           && (offset + k == 0 ==> reply.value[k].name == "." && reply.value[k].ino == RootIno)
           && (offset + k == 1 ==> reply.value[k].name == ".." && reply.value[k].ino == RootIno)
           && (offset + k >= 2 ==>
                 var title := posts[offset + k - 2].title;
                 && reply.value[k].name == title
                 && reply.value[k].kind == RegularFile
                 && reply.value[k].ino == s'.files[title].attr.ino)
  {
    var (s', created) := CreatePostFiles(s, posts);
    assert ReadDir(s, order, fetch, ino, offset, capacity) ==
      (s', Ok(Emit(DotEntries + PostListing(created), offset, capacity)));
    PostPage(created, posts, s'.files, offset, capacity);
  }

  /** The page emitted from the dot entries followed by the post loop's
      entries, when the loop returned each post's title with the attribute
      stored under it in `files`. */
  lemma PostPage(created: seq<(string, Attr)>, posts: seq<Post>, files: map<string, File>,
                 offset: nat, capacity: nat)
    requires |created| == |posts|
    requires forall i | 0 <= i < |posts| ::
      created[i].0 == posts[i].title && posts[i].title in files && created[i].1 == files[posts[i].title].attr
    ensures var page := Emit(DotEntries + PostListing(created), offset, capacity);
      && |page| == (if offset >= 2 + |posts| then 0 else Min(capacity, 2 + |posts| - offset))
      && forall k | 0 <= k < |page| ::
           && page[k].offset == offset + k + 1
           && (offset + k == 0 ==> page[k].name == "." && page[k].ino == RootIno)
           && (offset + k == 1 ==> page[k].name == ".." && page[k].ino == RootIno)
           && (offset + k >= 2 ==>
                 var title := posts[offset + k - 2].title;
                 && page[k].name == title
                 && page[k].kind == RegularFile
                 && page[k].ino == files[title].attr.ino)
  {
    var listed := PostListing(created);
    var full := DotEntries + listed;
    var page := Emit(full, offset, capacity);
    assert |full| == 2 + |posts|;
    forall k | 0 <= k < |page|
      ensures offset + k >= 2 ==>
        var title := posts[offset + k - 2].title;
        page[k].name == title && page[k].kind == RegularFile && page[k].ino == files[title].attr.ino
    {
      var i := offset + k;
      assert page[k] == DirEntry(full[i].ino, i + 1, full[i].kind, full[i].name);
      if i >= 2 {
        assert full[i] == listed[i - 2];
      }
    }
  }

  /** Listing a subreddit and then reading a listed post's inode gives the
      post's selected body plus a newline, for every post whose title was not
      yet a key and does not occur earlier in the listing. */
  lemma ReadAfterReadDir(s: State, order: seq<string>, fetch: string -> FetchResult,
                         ino: nat, offset: nat, capacity: nat, sub: string, posts: seq<Post>,
                         i: nat, order': seq<string>)
    requires Valid(s) && IsEnumeration(order, s.files)
    requires ino != RootIno && offset < ListingLimit
    requires Find(s.files, order, ino) == Some(sub) && fetch(sub) == Success(posts)
    requires i < |posts| && posts[i].title !in s.files
    requires forall j | 0 <= j < i :: posts[j].title != posts[i].title
    requires IsEnumeration(order', ReadDir(s, order, fetch, ino, offset, capacity).0.files)
    ensures var s' := ReadDir(s, order, fetch, ino, offset, capacity).0;
      Read(s', order', s'.files[posts[i].title].attr.ino) == Ok(Selection(posts[i]) + [Newline])
  {
    var s' := ReadDir(s, order, fetch, ino, offset, capacity).0;
    assert s' == CreatePostFiles(s, posts).0;
    CreatePostFilesContent(s, posts);
    CreatePostFilesPreservesValid(s, posts);
    ReadPost(s', order', posts[i].title);
  }

  /** A failed fetch surfaces as EIO and creates nothing. */
  lemma ReadDirFetchFailure(s: State, order: seq<string>, fetch: string -> FetchResult,
                            ino: nat, offset: nat, capacity: nat, sub: string)
    requires IsEnumeration(order, s.files)
    requires ino != RootIno && offset < ListingLimit
    requires Find(s.files, order, ino) == Some(sub) && fetch(sub).Failure?
    ensures ReadDir(s, order, fetch, ino, offset, capacity) == (s, Error(EIO))
  {
  }

  lemma LookupPreservesValid(s: State, parent: nat, name: string)
    requires Valid(s)
    ensures Valid(Lookup(s, parent, name).0) && Grows(s, Lookup(s, parent, name).0)
  {
  }

  lemma ReadDirPreservesValid(s: State, order: seq<string>, fetch: string -> FetchResult,
                              ino: nat, offset: nat, capacity: nat)
    requires Valid(s) && IsEnumeration(order, s.files)
    ensures Valid(ReadDir(s, order, fetch, ino, offset, capacity).0)
  {
    if ino != RootIno && offset < ListingLimit {
      match Find(s.files, order, ino)
      case None =>
      case Some(sub) =>
        match fetch(sub)
        case Failure(_) =>
        case Success(posts) =>
          CreatePostFilesPreservesValid(s, posts);
    }
  }

  /** A subreddit looked up at the root can then be looked up under inode 3,
      with the same attribute. */
  lemma LookupRootThenSubreddit(s: State, name: string)
    requires name != ReadmeName && '.' !in name
    ensures var (s', reply) := Lookup(s, RootIno, name);
      reply.Ok? && Lookup(s', SubredditIno, name) == (s', reply)
  {
  }

  /** Looking the same name up twice under the root changes nothing the second time. */
  lemma LookupRootIdempotent(s: State, name: string)
    ensures var (s1, r1) := Lookup(s, RootIno, name);
      Lookup(s1, RootIno, name) == (s1, r1)
  {
  }

  /** In a valid state, a directory or the README reached by lookup answers
      getattr with the attribute lookup returned, while a post file reached by
      lookup (whatever its title) is unknown to getattr (only inodes 1, 2 and 3 are). */
  lemma GetAttrAfterLookup(s: State, parent: nat, name: string)
    requires Valid(s)
    requires Lookup(s, parent, name).1.Ok?
    ensures var a := Lookup(s, parent, name).1.value;
      && (a.kind == Directory ==> GetAttr(a.ino) == Ok(a))
      && (a.ino == ReadmeIno ==> GetAttr(ReadmeIno) == Ok(a))
      && (a.kind == RegularFile && a.ino != ReadmeIno ==> GetAttr(a.ino) == Error(ENOENT))
  {
    if name in s.files {
      assert IsDirEntry(s.files[name]) || IsPostEntry(s.files[name], s.lastInode);
    }
  }

  /** The README's size as getattr and lookup report it is the length of what read returns. */
  lemma ReadmeSizeMatchesRead(s: State, order: seq<string>)
    requires IsEnumeration(order, s.files)
    ensures GetAttr(ReadmeIno) == Ok(ReadmeAttr)
    ensures Lookup(s, RootIno, ReadmeName).1 == Ok(ReadmeAttr)
    ensures Read(s, order, ReadmeIno).Ok?
    ensures ReadmeAttr.size == |Read(s, order, ReadmeIno).value| == 18
  {
  }

  /** Read of a post's inode returns exactly the content stored for it. */
  lemma ReadPost(s: State, order: seq<string>, title: string)
    requires Valid(s) && IsEnumeration(order, s.files)
    requires title in s.files && s.files[title].content.Some?
    ensures Read(s, order, s.files[title].attr.ino) == Ok(s.files[title].content.value)
  {
    var ino := s.files[title].attr.ino;
    assert IsPostEntry(s.files[title], s.lastInode);
    var k := Find(s.files, order, ino).value;
    assert k == title;
  }

  /** Creating a post and reading its new inode gives the selected body plus a
      newline: one byte more than the size its attribute reports. */
  lemma ReadAfterCreatePostFile(s: State, p: Post, order: seq<string>)
    requires Valid(s) && p.title !in s.files
    requires IsEnumeration(order, CreatePostFile(s, p).0.files)
    ensures var (s', _, attr) := CreatePostFile(s, p);
      && Read(s', order, attr.ino) == Ok(Selection(p) + [Newline])
      && |Selection(p) + [Newline]| == attr.size + 1
  {
  }

  /** Reading a subreddit directory's inode panics on the missing content. */
  lemma ReadDirectoryPanics(s: State, order: seq<string>, sub: string)
    requires Valid(s) && IsEnumeration(order, s.files)
    requires sub in s.files && s.files[sub].content.None?
    ensures Read(s, order, SubredditIno) == Panic
  {
    assert IsDirEntry(s.files[sub]);
    assert sub in order;
    var k := Find(s.files, order, SubredditIno).value;
    assert IsDirEntry(s.files[k]) || IsPostEntry(s.files[k], s.lastInode);
  }

  /** In a valid state the map's iteration order cannot change what read answers:
      inodes other than 3 belong to at most one entry, and every entry with
      inode 3 is a directory. */
  lemma ReadIndependentOfOrder(s: State, o1: seq<string>, o2: seq<string>, ino: nat)
    requires Valid(s) && IsEnumeration(o1, s.files) && IsEnumeration(o2, s.files)
    ensures Read(s, o1, ino) == Read(s, o2, ino)
  {
    if ino != ReadmeIno {
      var f1 := Find(s.files, o1, ino);
      var f2 := Find(s.files, o2, ino);
      if f1.Some? && f2.Some? {
        var k1, k2 := f1.value, f2.value;
        assert IsDirEntry(s.files[k1]) || IsPostEntry(s.files[k1], s.lastInode);
        assert IsDirEntry(s.files[k2]) || IsPostEntry(s.files[k2], s.lastInode);
      }
    }
  }

  /** Likewise for readdir, except on inode 3, which every subreddit directory
      shares: there the iteration order decides which subreddit is fetched. */
  lemma ReadDirIndependentOfOrder(s: State, o1: seq<string>, o2: seq<string>,
                                  fetch: string -> FetchResult, ino: nat, offset: nat, capacity: nat)
    requires Valid(s) && IsEnumeration(o1, s.files) && IsEnumeration(o2, s.files)
    requires ino != SubredditIno
    ensures ReadDir(s, o1, fetch, ino, offset, capacity) == ReadDir(s, o2, fetch, ino, offset, capacity)
  {
    var f1 := Find(s.files, o1, ino);
    var f2 := Find(s.files, o2, ino);
    if f1.Some? && f2.Some? {
      var k1, k2 := f1.value, f2.value;
      assert IsDirEntry(s.files[k1]) || IsPostEntry(s.files[k1], s.lastInode);
      assert IsDirEntry(s.files[k2]) || IsPostEntry(s.files[k2], s.lastInode);
    }
  }
}
