/** Runs of requests served one after another, as the single fuser session
    loop serves them against the one `RedditFS` value. */
module Trace {
  import opened Wrappers
  import opened Types
  import opened Registry
  import opened Handlers
  import opened Properties

  /** One request together with the inputs it takes from outside: the map's
      iteration order when the handler searches the map, and the Reddit
      client's answers when it may fetch. */
  datatype Request =
    | LookupReq(parent: nat, name: string)
    | GetAttrReq(ino: nat)
    | ReadDirReq(order: seq<string>, fetch: string -> FetchResult, ino: nat, offset: nat, capacity: nat)
    | ReadReq(order: seq<string>, ino: nat)

  /** The state after serving `req`. None when the order the request carries is
      not an iteration order of the current map (no run can supply it), or when
      serving it panics, which ends fuser's session loop: no later request is served. */
  function Step(s: State, req: Request): (r: Option<State>)
    ensures r.Some? ==> Grows(s, r.value)
    ensures (req.GetAttrReq? || req.ReadReq?) && r.Some? ==> r.value == s
    ensures req.LookupReq? || req.GetAttrReq? ==> r.Some?
    ensures req.ReadReq? && IsEnumeration(req.order, s.files) ==>
      (r.Some? <==> !Read(s, req.order, req.ino).Panic?)
  {
    match req
    case LookupReq(parent, name) =>
      Some(Lookup(s, parent, name).0)
    case GetAttrReq(ino) =>
      Some(s)
    case ReadDirReq(order, fetch, ino, offset, capacity) =>
      if IsEnumeration(order, s.files) then Some(ReadDir(s, order, fetch, ino, offset, capacity).0) else None
    case ReadReq(order, ino) =>
      if IsEnumeration(order, s.files) && !Read(s, order, ino).Panic? then Some(s) else None
  }

  /** Serves `reqs` in order, stopping at the first request no run can supply
      or the first one that panics. */
  function Run(s: State, reqs: seq<Request>): (r: State)
    decreases |reqs|
    ensures Grows(s, r)
  {
    if |reqs| == 0 then
      s
    else
      match Step(s, reqs[0])
      case None => s
      case Some(s1) => Run(s1, reqs[1..])
  }

  /** Serving any one request keeps the invariant. */
  lemma StepPreservesValid(s: State, req: Request)
    requires Valid(s) && Step(s, req).Some?
    ensures Valid(Step(s, req).value)
  {
    match req
    case LookupReq(parent, name) =>
      LookupPreservesValid(s, parent, name);
    case GetAttrReq(_) =>
    case ReadDirReq(order, fetch, ino, offset, capacity) =>
      ReadDirPreservesValid(s, order, fetch, ino, offset, capacity);
    case ReadReq(_, _) =>
  }

  lemma {:induction false} RunPreservesValid(s: State, reqs: seq<Request>)
    requires Valid(s)
    ensures Valid(Run(s, reqs))
    decreases |reqs|
  {
    if |reqs| > 0 && Step(s, reqs[0]).Some? {
      StepPreservesValid(s, reqs[0]);
      RunPreservesValid(Step(s, reqs[0]).value, reqs[1..]);
    }
  }

  /** In every state reachable from start-up, post inodes are pairwise distinct,
      above 3 and at most the counter, and every post's stored body is its
      attribute's size plus a trailing newline. */
  lemma ReachableStatesValid(reqs: seq<Request>)
    ensures var s := Run(Init, reqs);
      && s.lastInode >= 3
      && (forall k | k in s.files && s.files[k].content.Some? ::
            && SubredditIno < s.files[k].attr.ino <= s.lastInode
            && |s.files[k].content.value| == s.files[k].attr.size + 1
            && s.files[k].content.value[s.files[k].attr.size] == Newline)
      && (forall k | k in s.files && s.files[k].content.None? :: s.files[k].attr == SubredditDirAttr)
      && (forall k1, k2 | k1 in s.files && k2 in s.files && k1 != k2 && s.files[k1].content.Some? ::
            s.files[k1].attr.ino != s.files[k2].attr.ino)
  {
    InitValid();
    RunPreservesValid(Init, reqs);
  }
}
