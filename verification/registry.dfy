/** The entry registry of `RedditFS`: the two materialisers that add posts and
    subreddit directories to the one name-keyed map, and the invariant they keep. */
module Registry {
  import opened Wrappers
  import opened Types

  /** The body a post's file shows: kind "t3" selects the URL, any other kind the self text. */
  function Selection(p: Post): Bytes {
    if p.kind == "t3" then p.url else p.selftext
  }

  /** `create_post_file`: returns the title and the attribute of the entry named
      by the post's title, creating a post file under a fresh inode when the
      title is not yet a key. Dedup is by title, against directories too. */
  function CreatePostFile(s: State, p: Post): (r: (State, string, Attr))
    ensures r.1 == p.title
    ensures p.title in s.files ==> r.0 == s && r.2 == s.files[p.title].attr
    ensures p.title !in s.files ==>
      && r.0.lastInode == s.lastInode + 1
      && r.0.files.Keys == s.files.Keys + {p.title}
      && (forall k | k in s.files :: r.0.files[k] == s.files[k])
      && r.0.files[p.title].attr == r.2
      && r.2 == PostAttr(s.lastInode + 1, |Selection(p)|)
      && r.2.kind == RegularFile && r.2.perm == FilePerm && r.2.nlink == 1
      && (p.kind == "t3" ==> r.0.files[p.title].content == Some(p.url + [Newline]))
      && (p.kind != "t3" ==> r.0.files[p.title].content == Some(p.selftext + [Newline]))
      && |r.0.files[p.title].content.value| == r.2.size + 1
  {
    if p.title in s.files then
      (s, p.title, s.files[p.title].attr)
    else
      var ino := s.lastInode + 1;
      var body := Selection(p);
      var attr := PostAttr(ino, |body|);
      (State(s.files[p.title := File(Some(body + [Newline]), attr)], ino), p.title, attr)
  }

  /** `create_subreddit_directory`: returns the attribute of the entry named `sub`,
      creating a content-less directory stamped with inode 3 when the name is not
      yet a key. The counter is bumped although the new entry does not use it. */
  function CreateSubredditDirectory(s: State, sub: string): (r: (State, Attr))
    ensures sub in s.files ==> r.0 == s && r.1 == s.files[sub].attr
    ensures sub !in s.files ==>
      && r.0.lastInode == s.lastInode + 1
      && r.0.files.Keys == s.files.Keys + {sub}
      && (forall k | k in s.files :: r.0.files[k] == s.files[k])
      && r.0.files[sub] == File(None, r.1)
      && r.1 == SubredditDirAttr
      && r.1.ino == SubredditIno && r.1.kind == Directory
      && r.1.perm == DirPerm && r.1.nlink == 2
  {
    if sub in s.files then
      (s, s.files[sub].attr)
    else
      (State(s.files[sub := File(None, SubredditDirAttr)], s.lastInode + 1), SubredditDirAttr)
  }

  /** The titles of a listing, as a set of keys. */
  function Titles(posts: seq<Post>): set<string> {
    set i | 0 <= i < |posts| :: posts[i].title
  }

  /** The `for post in posts` loop of `readdir`: `create_post_file` on every post
      in listing order, collecting the returned (title, attr) pairs. */
  function CreatePostFiles(s: State, posts: seq<Post>): (r: (State, seq<(string, Attr)>))
    decreases |posts|
    ensures |r.1| == |posts|
    ensures r.0.files.Keys == s.files.Keys + Titles(posts)
    ensures forall k | k in s.files :: r.0.files[k] == s.files[k]
    ensures forall i | 0 <= i < |posts| ::
      r.1[i].0 == posts[i].title && r.1[i].1 == r.0.files[posts[i].title].attr
    ensures r.0.lastInode >= s.lastInode
  {
    if |posts| == 0 then
      (s, [])
    else
      var (s1, name, attr) := CreatePostFile(s, posts[0]);
      var (s2, rest) := CreatePostFiles(s1, posts[1..]);
      TitlesCons(posts);
      (s2, [(name, attr)] + rest)
  }

  /** A subreddit directory entry: no content, the shared directory attribute. */
  predicate IsDirEntry(f: File) {
    f.content.None? && f.attr == SubredditDirAttr
  }

  /** A post entry: its stored body is the attribute's size plus the appended
      newline, and its inode was allocated (from 4 up to the counter). */
  predicate IsPostEntry(f: File, lastInode: nat) {
    && f.content.Some?
    && f.attr == PostAttr(f.attr.ino, f.attr.size)
    && |f.content.value| == f.attr.size + 1
    && f.content.value[f.attr.size] == Newline
    && SubredditIno < f.attr.ino <= lastInode
  }

  /** The invariant every reachable state keeps. */
  predicate Valid(s: State) {
    && s.lastInode >= SubredditIno
    && (forall k | k in s.files :: IsDirEntry(s.files[k]) || IsPostEntry(s.files[k], s.lastInode))
    && (forall k1, k2 | k1 in s.files && k2 in s.files && k1 != k2 && s.files[k1].content.Some? ::
          s.files[k1].attr.ino != s.files[k2].attr.ino)
  }

  /** `s'` extends `s`: no key is removed, no entry changes, the counter never decreases. */
  predicate Grows(s: State, s': State) {
    && s.files.Keys <= s'.files.Keys
    && (forall k | k in s.files :: s'.files[k] == s.files[k])
    && s.lastInode <= s'.lastInode
  }

  lemma InitValid()
    ensures Valid(Init) && Init.lastInode == 3 && Init.files == map[]
  {
  }

  /** A post created under a valid state gets an inode no existing entry uses,
      neither reserved (1, 2, 3) nor any earlier post's. */
  lemma NewPostInodeIsFresh(s: State, p: Post)
    requires Valid(s)
    requires p.title !in s.files
    ensures var ino := CreatePostFile(s, p).2.ino;
      && ino > SubredditIno
      && forall k | k in s.files :: s.files[k].attr.ino < ino
  {
  }

  lemma CreatePostFilePreservesValid(s: State, p: Post)
    requires Valid(s)
    ensures Valid(CreatePostFile(s, p).0)
    ensures Grows(s, CreatePostFile(s, p).0)
  {
  }

  lemma CreateSubredditDirectoryPreservesValid(s: State, sub: string)
    requires Valid(s)
    ensures Valid(CreateSubredditDirectory(s, sub).0)
    ensures Grows(s, CreateSubredditDirectory(s, sub).0)
  {
  }

  /** Looking a subreddit up twice is looking it up once. */
  lemma CreateSubredditDirectoryIdempotent(s: State, sub: string)
    ensures var (s1, a1) := CreateSubredditDirectory(s, sub);
      CreateSubredditDirectory(s1, sub) == (s1, a1)
  {
  }

  lemma {:induction false} CreatePostFilesPreservesValid(s: State, posts: seq<Post>)
    requires Valid(s)
    ensures Valid(CreatePostFiles(s, posts).0)
    ensures Grows(s, CreatePostFiles(s, posts).0)
    decreases |posts|
  {
    if |posts| > 0 {
      var s1 := CreatePostFile(s, posts[0]).0;
      CreatePostFilePreservesValid(s, posts[0]);
      CreatePostFilesPreservesValid(s1, posts[1..]);
    }
  }

  /** What the post loop stores: the first post of the listing to carry a title
      that was not yet a key creates that title's file, holding the post's
      selected body plus a newline under a post attribute whose size excludes
      the newline. */
  lemma {:induction false} CreatePostFilesContent(s: State, posts: seq<Post>)
    ensures var s' := CreatePostFiles(s, posts).0;
      forall i | 0 <= i < |posts| && posts[i].title !in s.files &&
                 (forall j | 0 <= j < i :: posts[j].title != posts[i].title) ::
        && s'.files[posts[i].title].content == Some(Selection(posts[i]) + [Newline])
        && s'.files[posts[i].title].attr == PostAttr(s'.files[posts[i].title].attr.ino, |Selection(posts[i])|)
    decreases |posts|
  {
    if |posts| > 0 {
      var s1 := CreatePostFile(s, posts[0]).0;
      var s' := CreatePostFiles(s1, posts[1..]).0;
      assert s' == CreatePostFiles(s, posts).0;
      CreatePostFilesContent(s1, posts[1..]);
      forall i | 0 <= i < |posts| && posts[i].title !in s.files &&
                 (forall j | 0 <= j < i :: posts[j].title != posts[i].title)
        ensures s'.files[posts[i].title].content == Some(Selection(posts[i]) + [Newline])
        ensures s'.files[posts[i].title].attr == PostAttr(s'.files[posts[i].title].attr.ino, |Selection(posts[i])|)
      {
        if i > 0 {
          assert posts[1..][i - 1] == posts[i];
          assert posts[i].title !in s1.files by {
            assert posts[0].title != posts[i].title;
          }
          forall j | 0 <= j < i - 1 ensures posts[1..][j].title != posts[i].title {
            assert posts[1..][j] == posts[j + 1];
          }
        }
      }
    }
  }

  /** The post loop bumps the counter once per title of the listing that was
      not yet a key, and never for a repeated or existing title. */
  lemma {:induction false} CreatePostFilesCounter(s: State, posts: seq<Post>)
    ensures CreatePostFiles(s, posts).0.lastInode == s.lastInode + |Titles(posts) - s.files.Keys|
    decreases |posts|
  {
    if |posts| > 0 {
      var (s1, _, _) := CreatePostFile(s, posts[0]);
      CreatePostFilesCounter(s1, posts[1..]);
      assert CreatePostFiles(s, posts).0 == CreatePostFiles(s1, posts[1..]).0;
      TitlesCons(posts);
      NewKeyCount(posts[0].title, Titles(posts[1..]), s.files.Keys, s1.files.Keys);
    }
  }

  /** Counting the new keys of `{t} + ts` against `keys`, where `keys'` is
      `keys` with `t` added exactly when `t` was new. */
  lemma NewKeyCount(t: string, ts: set<string>, keys: set<string>, keys': set<string>)
    requires t in keys ==> keys' == keys
    requires t !in keys ==> keys' == keys + {t}
    ensures |({t} + ts) - keys| == |ts - keys'| + (if t in keys then 0 else 1)
  {
    if t in keys {
      assert ({t} + ts) - keys == ts - keys';
    } else {
      assert ({t} + ts) - keys == (ts - keys') + {t};
    }
  }

  /** The titles of a non-empty listing are its first title and the rest's. */
  lemma TitlesCons(posts: seq<Post>)
    requires |posts| > 0
    ensures Titles(posts) == {posts[0].title} + Titles(posts[1..])
  {
    forall t | t in Titles(posts) ensures t in {posts[0].title} + Titles(posts[1..]) {
      var i :| 0 <= i < |posts| && posts[i].title == t;
      if i > 0 { assert posts[1..][i - 1].title == t; }
    }
  }

  /** Posts sharing a title, in one listing, resolve to one entry and one inode. */
  lemma SameTitleSameAttr(s: State, posts: seq<Post>, i: nat, j: nat)
    requires i < |posts| && j < |posts|
    requires posts[i].title == posts[j].title
    ensures CreatePostFiles(s, posts).1[i].1 == CreatePostFiles(s, posts).1[j].1
  {
  }

  /** Every post file created by the loop has an inode above the counter the
      loop started from, and at most the counter it ended with. */
  lemma {:induction false} CreatedInodesInRange(s: State, posts: seq<Post>, k: string)
    requires Valid(s)
    requires k in Titles(posts) && k !in s.files
    ensures var s' := CreatePostFiles(s, posts).0;
      s.lastInode < s'.files[k].attr.ino <= s'.lastInode
    decreases |posts|
  {
    var s1 := CreatePostFile(s, posts[0]).0;
    CreatePostFilePreservesValid(s, posts[0]);
    CreatePostFilesPreservesValid(s1, posts[1..]);
    if k in s1.files {
      assert k == posts[0].title;
    } else {
      CreatedInodesInRange(s1, posts[1..], k);
    }
  }
}
