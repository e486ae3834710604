# reddit-fs in Dafny

A model of the FUSE adapter in `src/main.rs` of reddit-fs. The adapter mounts
Reddit as a read-only filesystem. The root (inode 1) holds a static
`README.txt` (inode 2). Looking up a dot-free name at the root materialises
a subreddit directory. Listing such a directory fetches the subreddit's hot
posts and materialises one file per title not yet in the map, holding the
post's URL or self text.

The state is `RedditFS` without its Reddit client: one map from names to
entries, shared by post titles and subreddit names, plus the inode counter
`last_inode`, which starts at 3. Every handler is a pure transition
returning the new state and the reply.

- `types.dfy`: attributes, entries, state, posts, replies and the fixed
  attributes of inodes 1, 2 and 3 (timestamps omitted).
- `registry.dfy`: `create_post_file` and `create_subreddit_directory`, the
  post loop of `readdir`, and the invariant `Valid` every reachable state
  keeps. Under `Valid`, directories carry inode 3 and no content. Post files
  carry a body one byte longer than their size, ending in a newline. Post
  inodes are pairwise distinct and lie in 4..`last_inode`.
- `handlers.dfy`: `lookup`, `getattr`, `readdir` and `read`. It also holds
  `Find` (the `find` over the map) and `Emit` (the offset-tagged emission
  loop).
- `properties.dfy`: lemmas that relate several calls. They cover resumable
  paging, listing shape, read-after-create, independence from the map's
  iteration order, and invariant preservation.
- `trace.dfy`: runs of requests served one after another from start-up, and
  the invariant for every reachable state. A run ends at a `read` that
  panics, as the panic ends the session loop.

Inputs the source gets from outside become parameters:
- `order`: the `HashMap` iteration order, a sequence listing every key once.
  `find` returns the first matching key in that order.
- `fetch`: the Reddit client's answer for a subreddit name, either a list of
  posts or a failure.
- `capacity`: the number of entries the kernel's reply buffer accepts before
  `reply.add` reports it full. The entry that finds it full is not emitted.

Behaviour of the code that the model keeps:
- Dedup is by title, in the map that also holds directories. A post titled
  like an existing subreddit gets that directory's attribute back.
- Every subreddit directory has inode 3, although creating one still bumps
  `last_inode`.
- `attr.size` is the selected body's length. The stored content has one
  more byte, the appended newline.
- `getattr` answers only for inodes 1, 2 and 3. A post file reached by
  `lookup` is unknown to `getattr` (`Properties.GetAttrAfterLookup`).
- For a non-root inode, `readdir` fetches the subreddit named by the key of
  the first entry carrying that inode. For inode 3 the iteration order picks
  which subreddit. For a post inode, the post's title is used as the
  subreddit name.
- Once a subreddit directory exists, `read` of inode 3 unwraps that
  directory's missing content and panics. This is modelled as the reply
  `Panic`. Before any subreddit exists, `read` of inode 3 is ENOENT.

reddit-fs has no listing cache or time-to-live. It does no name sanitisation
and no dedup by post id. It always appends the newline, even to an empty
body. It lists only `.`, `..` and `README.txt` at the root, never the
materialised subreddits. It does not skip malformed posts: it unwraps them.

## Model

| member | source | states |
|---|---|---|
| Registry.CreatePostFile | src/main.rs:229-274 | If the title is already a key (post or directory), returns that entry's attribute and leaves the state unchanged. Otherwise adds exactly the title as a key and leaves every other entry as it was. The new attribute is the post attribute with inode `last_inode + 1` and size of the selected body, and the counter moves to that inode. Kind "t3" stores the URL plus a newline; any other kind stores the self text plus a newline. The stored length is `attr.size + 1`. |
| Registry.CreateSubredditDirectory | src/main.rs:277-314 | If the name is a key, returns its attribute with no change. Otherwise adds exactly that key, holding a directory with no content and the fixed subreddit attribute: inode 3, size 0, perm 0o755, nlink 2. All other entries are unchanged and `last_inode` still grows by one. |
| Registry.CreatePostFiles | src/main.rs:184-187 | The post loop of readdir. Returns one (title, attr) pair per post, in fetch order. The keys afterwards are the old keys plus the listed titles. Old entries are unchanged. Each returned attr is the final entry of its title. |
| Registry.CreatePostFilesContent | src/main.rs:184-186 | For each listed post whose title was not yet a key and is not repeated earlier in the listing, the loop stores a file holding the post's selected body ("t3": URL, else self text) plus a newline. Its attribute is a post attribute whose size is the body's length without the newline. |
| Registry.CreatePostFilesCounter | src/main.rs:184-186 | The loop raises the counter by exactly the number of distinct listed titles that were not yet keys. |
| Registry.InitValid | src/main.rs:27-37 | The initial state has no entries, `last_inode` = 3, and satisfies the invariant. |
| Registry.NewPostInodeIsFresh | src/main.rs:245-247 | In a valid state, a new post's inode exceeds 3 and every existing entry's inode. |
| Registry.CreatePostFilePreservesValid | src/main.rs:235-270 | Creating a post keeps the invariant: inodes distinct and at least 4, body = size + 1 bytes ending in newline. It removes and changes nothing. |
| Registry.CreateSubredditDirectoryPreservesValid | src/main.rs:280-311 | Creating a directory keeps the invariant and removes or changes nothing. |
| Registry.CreateSubredditDirectoryIdempotent | src/main.rs:280-282 | A second creation under the same name returns the same attribute and leaves the state alone. |
| Registry.CreatePostFilesPreservesValid | src/main.rs:184-187 | The whole post loop keeps the invariant and only grows the state. |
| Registry.SameTitleSameAttr | src/main.rs:235-237 | Two posts of one listing with the same title get the same attribute, hence the same inode. |
| Registry.CreatedInodesInRange | src/main.rs:245 | Every file created by the loop has an inode above the counter at the loop's start and at most its value at the end. |
| Types.Ascii | src/main.rs:40 | The bytes of an ASCII string such as the README text: one byte per character, with the same code. |
| Handlers.Find | src/main.rs:177 | Returns the first key in iteration order whose entry has the inode. It returns none only when no entry has it. |
| Handlers.Emit | src/main.rs:202-207 | Emits entries from index `offset`, tagging entry i with next offset i+1. Stops at the end of the list or after `capacity` entries; nothing is emitted when `offset` is past the end. |
| Handlers.Lookup | src/main.rs:117-147 | Under parent 1: "README.txt" gives the inode-2 attribute; a dot-free name gives the materialised entry's attribute; any other dotted name gives ENOENT. Under parent 3: succeeds exactly when the name is a key, with that key's attribute, and changes nothing. Any other parent gives ENOENT. Every error leaves the state unchanged. |
| Handlers.GetAttr | src/main.rs:149-157 | Succeeds exactly for inodes 1, 2 and 3, with an attribute carrying that inode; otherwise ENOENT. Inode 2 is an 18-byte regular file with perm 0o644 and one link. Inodes 1 and 3 are empty directories with perm 0o755 and two links. |
| Handlers.ReadDir | src/main.rs:159-210 | Only grows the state and never emits more than `capacity` entries. The root lists its fixed entries without changing the state. A non-root inode at offset 27 or more gives an empty success with no change. ENOENT comes exactly when no entry has a non-root inode below offset 27. EIO only when the fetch of an entry with that inode failed. Errors leave the state unchanged. |
| Handlers.Read | src/main.rs:212-224 | Inode 2 reads the README text. For any other inode, ENOENT exactly when no entry has it. Data comes only from an entry with that inode, and a panic only when such an entry is a directory. |
| Properties.EmitResume | src/main.rs:202-207 | A page's last entry carries offset + page length. Resuming at that offset with c2 more entries gives the same as one page of c1 + c2 entries. |
| Properties.ReadDirRoot | src/main.rs:163-169 | The root lists exactly ".", ".." (inode 1) and README.txt (inode 2) with next offsets 1, 2, 3. It never lists the subreddit directories and never changes the state. Offset 3 or more is an empty success. |
| Properties.ReadDirListing | src/main.rs:163-207 | After a successful fetch, the new state is the one the post loop produces over the fetched posts. The full list is ".", ".." and one entry per fetched post, in fetch order, named by title and carrying the entry's inode. Emission starts at `offset`, entry i carries i+1, and at most `capacity` entries are emitted. |
| Properties.PostPage | src/main.rs:184-207 | Suppose the post loop returned each post's title together with the attribute stored under it. Then the emitted page has the page length of ".", ".." plus one entry per post. Entry k carries next offset offset+k+1. Past the dots, each entry is named by its post's title, is a regular file, and carries the stored inode. |
| Properties.ReadAfterReadDir | src/main.rs:180-186 | After a successful listing of a subreddit, take a post whose title was not yet a key and is not repeated earlier in the listing. In a valid state, read of its inode returns the post's selected body ("t3": URL, else self text) plus a newline, for any iteration order. |
| Properties.ReadDirFetchFailure | src/main.rs:189-193 | A failed fetch gives EIO and leaves the state unchanged: no post is created. |
| Properties.LookupPreservesValid | src/main.rs:121-145 | Lookup keeps the invariant and only grows the state. |
| Properties.ReadDirPreservesValid | src/main.rs:168-200 | Readdir keeps the invariant. |
| Properties.LookupRootThenSubreddit | src/main.rs:127-141 | After a dot-free name other than README.txt is looked up at the root, looking it up under inode 3 returns the same attribute with no change. |
| Properties.LookupRootIdempotent | src/main.rs:123-132 | Repeating a root lookup returns the same reply and changes nothing more. |
| Properties.GetAttrAfterLookup | src/main.rs:117-157 | In a valid state, a directory or the README reached by lookup answers getattr with the same attribute. A post file reached by lookup, whatever its title, gives ENOENT from getattr. |
| Properties.ReadmeSizeMatchesRead | src/main.rs:69-85 | getattr of inode 2 and lookup of README.txt give the README attribute. Its size, 18, is the length of what read of inode 2 returns. |
| Properties.ReadPost | src/main.rs:217-219 | In a valid state, read of a post's inode returns exactly its stored content. |
| Properties.ReadAfterCreatePostFile | src/main.rs:217-270 | Reading a newly created post returns the selected body plus a newline, one byte more than its attribute's size. |
| Properties.ReadDirectoryPanics | src/main.rs:217-219 | When a subreddit directory exists, read of inode 3 panics on the missing content. |
| Properties.ReadIndependentOfOrder | src/main.rs:217 | In a valid state, read gives the same reply for every iteration order of the map. |
| Properties.ReadDirIndependentOfOrder | src/main.rs:177 | In a valid state, readdir of any inode other than 3 gives the same result for every iteration order. |
| Trace.Step | src/main.rs:115-225 | Serving one request never removes or changes an entry and never lowers the counter. getattr and read leave the state unchanged, and lookup and getattr are always servable. A read ends the run exactly when it panics. |
| Trace.Run | src/main.rs:227-316 | Over any run of requests, entries are only ever added, never removed or changed, and the counter never decreases: an inode, once handed out, stays with its entry. |
| Trace.StepPreservesValid | src/main.rs:115-225 | Serving any one request from a valid state gives a valid state. |
| Trace.RunPreservesValid | src/main.rs:115-316 | Every run of requests from a valid state ends in a valid state. |
| Trace.ReachableStatesValid | src/main.rs:35 | Every state reachable from start-up has counter at least 3. Its post inodes are pairwise distinct, lie in 4..counter, and store the size plus a trailing newline. Its content-less entries all carry the inode-3 directory attribute. |

## Left out

- FUSE transport: mounting, `main`, the reply objects and the `Request` argument are not modelled. Replies are a datatype, and the reply buffer's byte capacity is abstracted as an entry count.
- The Reddit client: `orca`, rate limiting and the HTTP request become the `fetch` parameter.
- JSON navigation: a post arrives already decoded. The `unwrap`s on missing JSON fields would panic, and they are not modelled. The post's `id` is carried but, as in the source, unused.
- `lookup`'s `to_str().unwrap()` on a non-UTF-8 name is not modelled; names are strings.
- Timestamps and the one-second TTL passed with every reply are clock values with no logic, and they are omitted.
- Debug and error logging (`debug!`, `eprint!`) are left out.
- Integer widths: `offset` is a `nat`, so the negative `i64` cast to `usize` is excluded. The `u64` counter and sizes are unbounded.
- `read`'s `offset` and `size` arguments are ignored by the source, and the model omits them.
