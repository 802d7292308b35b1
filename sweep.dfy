/**
  What one run of the retention job does, as a value: the page offsets it asks
  the tag mapper for, the nodes whose `delete()` it calls, the nodes actually
  removed, and whether it ends normally or with an exception. The imperative
  `RetentionJob.Run` is proved to have exactly this effect; the lemmas here
  say what that effect is.
 */
module SweepModel {
  import opened Wrappers
  import opened Cutoff

  type FileId = int
  type TagId = int
  type UserId = string

  /** A cached mount of a file; only its owner is consulted. */
  datatype Mount = Mount(user: UserId)

  /** A file node: its id, its path in the owner's tree and its last-modified UTC timestamp. */
  datatype Node = Node(fileId: FileId, path: string, mtime: int)

  /** A row of the `retention` table. */
  datatype Policy = Policy(timeUnit: int, timeAmount: int)

  /** How the tag manager answers the check that the job's tag exists. */
  datatype TagLookup = TagFound | InvalidArgument | OtherTagFailure

  /** The exception a node's `delete()` throws. */
  datatype DeleteError = NotPermitted | OtherDeleteFailure

  /** A run returns, or an exception leaves it. */
  datatype Outcome = Completed | Threw

  /** The collaborators a run reads: the user mount cache, the users' folders, and the nodes that refuse deletion. */
  datatype World = World(
    mounts: map<FileId, seq<Mount>>,
    folders: map<(UserId, FileId), seq<Node>>,
    refusals: map<Node, DeleteError>)

  /** Number of tagged ids asked for at a time. */
  const PageSize: nat := 1000

  function Min(a: int, b: int): int {
    if a <= b then a else b
  }

  /** `getMountsForFileId`: no mounts for an id the cache does not know. */
  function MountsForFileId(w: World, id: FileId): seq<Mount> {
    if id in w.mounts then w.mounts[id] else []
  }

  /** `getUserFolder(user)->getById(id)`. */
  function GetById(w: World, user: UserId, id: FileId): seq<Node> {
    if (user, id) in w.folders then w.folders[(user, id)] else []
  }

  /** `checkFileId`: the first node for the id in the folder of the first mount's owner; None for NotFoundException. */
  function CheckFileId(w: World, id: FileId): Option<Node> {
    var mountPoints := MountsForFileId(w, id);
    if |mountPoints| == 0 then None
    else
      var nodes := GetById(w, mountPoints[0].user, id);
      if |nodes| == 0 then None else Some(nodes[0])
  }

  /** What `expireNode` does with a node. */
  datatype Expiry = Kept | Deleted | Denied | Failed

  function Expire(refusals: map<Node, DeleteError>, node: Node, cutoff: int): Expiry {
    if node.mtime > cutoff then Kept
    else if node !in refusals then Deleted
    else if refusals[node] == NotPermitted then Denied
    else Failed
  }

  /** The effect of processing a sequence of ids: delete calls, removed nodes, whether an exception escaped, ids consumed. */
  datatype Trace = Trace(attempts: seq<Node>, deleted: seq<Node>, aborted: bool, processed: nat)

  /** One id after those already processed (the body of the inner `foreach`). */
  function Visit(w: World, t: Trace, id: FileId, cutoff: int): Trace {
    match CheckFileId(w, id)
    case None => t.(processed := t.processed + 1)
    case Some(node) =>
      match Expire(w.refusals, node, cutoff)
      case Kept => t.(processed := t.processed + 1)
      case Deleted => Trace(t.attempts + [node], t.deleted + [node], t.aborted, t.processed + 1)
      case Denied => Trace(t.attempts + [node], t.deleted, t.aborted, t.processed + 1)
      case Failed => Trace(t.attempts + [node], t.deleted, true, t.processed + 1)
  }

  /** Ids processed in order until one lets an exception escape. */
  function Sweep(w: World, ids: seq<FileId>, cutoff: int): (t: Trace)
    ensures t.processed <= |ids|
    ensures !t.aborted ==> t.processed == |ids|
    ensures t.aborted ==> 1 <= t.processed
  {
    if ids == [] then Trace([], [], false, 0)
    else
      var t := Sweep(w, ids[..|ids| - 1], cutoff);
      if t.aborted then t else Visit(w, t, ids[|ids| - 1], cutoff)
  }

  /** The ids tagged with `tag`, in the mapper's order. */
  function TaggedFiles(objects: map<TagId, seq<FileId>>, tag: TagId): seq<FileId> {
    if tag in objects then objects[tag] else []
  }

  /** `getObjectIdsForTags(tag, 'files', limit, offset)` over a tagged set that does not change during the run. */
  function Page(ids: seq<FileId>, offset: nat, limit: nat): seq<FileId> {
    if offset >= |ids| then [] else ids[offset..Min(offset + limit, |ids|)]
  }

  /** The offsets of the first `count` page requests. */
  function Offsets(count: nat): seq<int> {
    seq(count, k => k * PageSize)
  }

  /** Page requests needed for `n` ids: ceil(n / PageSize) full or partial pages and one empty page. */
  function NumRequests(n: nat): nat {
    (n + PageSize - 1) / PageSize + 1
  }

  /** The observable effect of a run. */
  datatype RunEffect = RunEffect(outcome: Outcome, requests: seq<int>, attempts: seq<Node>, deleted: seq<Node>)

  /**
    The effect of paging through `ids` with one cutoff: the requests stop at
    the page where an exception escapes, or after the first empty page.
   */
  function SweepEffect(w: World, ids: seq<FileId>, cutoff: int): RunEffect {
    var t := Sweep(w, ids, cutoff);
    if t.aborted then RunEffect(Threw, Offsets((t.processed - 1) / PageSize + 1), t.attempts, t.deleted)
    else RunEffect(Completed, Offsets(NumRequests(|ids|)), t.attempts, t.deleted)
  }

  /** `run(['tag' => tag])` with the given collaborators and clock reading `now`. */
  function RunSpec(tag: TagId, lookup: TagLookup, retention: map<TagId, Policy>, now: int,
                   w: World, objects: map<TagId, seq<FileId>>): RunEffect
  {
    if lookup == OtherTagFailure then RunEffect(Threw, [], [], [])
    else if lookup == InvalidArgument || tag !in retention then RunEffect(Completed, [], [], [])
    else
      match GetBeforeDate(retention[tag].timeUnit, retention[tag].timeAmount, now)
      case None => RunEffect(Threw, [], [], [])
      case Some(cutoff) => SweepEffect(w, TaggedFiles(objects, tag), cutoff)
  }

  // ---------------------------------------------------------------------------
  // Reference definitions

  /** The node an id resolves to if it is at or before the cutoff. */
  function Candidate(w: World, id: FileId, cutoff: int): seq<Node> {
    match CheckFileId(w, id)
    case Some(node) => if node.mtime <= cutoff then [node] else []
    case None => []
  }

  /** Nodes of `ids` that resolve and are at or before the cutoff, in id order. */
  function Candidates(w: World, ids: seq<FileId>, cutoff: int): seq<Node> {
    if ids == [] then [] else Candidate(w, ids[0], cutoff) + Candidates(w, ids[1..], cutoff)
  }

  /** The nodes whose `delete()` throws nothing. */
  function Permitted(refusals: map<Node, DeleteError>, nodes: seq<Node>): seq<Node> {
    if nodes == [] then []
    else (if nodes[0] in refusals then [] else [nodes[0]]) + Permitted(refusals, nodes[1..])
  }

  /** An id whose node is due and whose `delete()` throws something other than NotPermittedException. */
  predicate Fails(w: World, id: FileId, cutoff: int) {
    var c := Candidate(w, id, cutoff);
    |c| == 1 && c[0] in w.refusals && w.refusals[c[0]] == OtherDeleteFailure
  }

  // ---------------------------------------------------------------------------
  // Resolver

  /**
    The resolver finds a node exactly when the id has a mount and the first
    mount's owner has a node for it; the node is then the first of those.
   */
  lemma CheckFileIdFound(w: World, id: FileId)
    ensures CheckFileId(w, id).Some? <==>
            |MountsForFileId(w, id)| > 0 && |GetById(w, MountsForFileId(w, id)[0].user, id)| > 0
    ensures CheckFileId(w, id).Some? ==>
            CheckFileId(w, id).value == GetById(w, MountsForFileId(w, id)[0].user, id)[0]
  {
  }

  /** Only the first mount matters: worlds that agree on it resolve the id alike. */
  lemma CheckFileIdUsesFirstMount(w: World, w': World, id: FileId)
    requires w'.folders == w.folders
    requires |MountsForFileId(w, id)| > 0 <==> |MountsForFileId(w', id)| > 0
    requires |MountsForFileId(w, id)| > 0 ==> MountsForFileId(w, id)[0] == MountsForFileId(w', id)[0]
    ensures CheckFileId(w, id) == CheckFileId(w', id)
  {
  }

  // ---------------------------------------------------------------------------
  // Sweep against the reference definitions

  lemma {:induction false} CandidatesAppend(w: World, xs: seq<FileId>, ys: seq<FileId>, cutoff: int)
    ensures Candidates(w, xs + ys, cutoff) == Candidates(w, xs, cutoff) + Candidates(w, ys, cutoff)
    decreases |xs|
  {
    if xs != [] {
      assert (xs + ys)[1..] == xs[1..] + ys;
      CandidatesAppend(w, xs[1..], ys, cutoff);
    } else {
      assert xs + ys == ys;
    }
  }

  lemma {:induction false} PermittedAppend(refusals: map<Node, DeleteError>, xs: seq<Node>, ys: seq<Node>)
    ensures Permitted(refusals, xs + ys) == Permitted(refusals, xs) + Permitted(refusals, ys)
    decreases |xs|
  {
    if xs != [] {
      assert (xs + ys)[1..] == xs[1..] + ys;
      PermittedAppend(refusals, xs[1..], ys);
    } else {
      assert xs + ys == ys;
    }
  }

  lemma CandidatesOne(w: World, id: FileId, cutoff: int)
    ensures Candidates(w, [id], cutoff) == Candidate(w, id, cutoff)
  {
    assert [id][1..] == [];
  }

  /** One id adds its due node, if any, to the delete calls, and that node to the removed ones unless it refuses. */
  lemma VisitMatchesCandidate(w: World, t: Trace, id: FileId, cutoff: int)
    ensures var t' := Visit(w, t, id, cutoff);
            var c := Candidate(w, id, cutoff);
            t'.attempts == t.attempts + c && t'.deleted == t.deleted + Permitted(w.refusals, c)
  {
    var c := Candidate(w, id, cutoff);
    if c != [] {
      assert c[1..] == [];
    }
  }

  /**
    The delete calls of a sweep are exactly the due nodes of the ids it
    processed, in order, and the removed nodes are those among them that do
    not refuse deletion.
   */
  lemma {:induction false} SweepMatchesCandidates(w: World, ids: seq<FileId>, cutoff: int)
    ensures var t := Sweep(w, ids, cutoff);
            t.attempts == Candidates(w, ids[..t.processed], cutoff) &&
            t.deleted == Permitted(w.refusals, t.attempts)
    decreases |ids|
  {
    if ids != [] {
      var init, last := ids[..|ids| - 1], ids[|ids| - 1];
      SweepMatchesCandidates(w, init, cutoff);
      var t0 := Sweep(w, init, cutoff);
      if t0.aborted {
        assert ids[..t0.processed] == init[..t0.processed];
      } else {
        assert init[..t0.processed] == init && ids[..|ids|] == init + [last];
        VisitMatchesCandidate(w, t0, last, cutoff);
        CandidatesAppend(w, init, [last], cutoff);
        CandidatesOne(w, last, cutoff);
        PermittedAppend(w.refusals, t0.attempts, Candidate(w, last, cutoff));
      }
    }
  }

  /** A node is due for an id list exactly when some id resolves to it and it is at or before the cutoff. */
  lemma {:induction false} CandidatesMembership(w: World, ids: seq<FileId>, cutoff: int, n: Node)
    ensures n in Candidates(w, ids, cutoff) <==>
            exists i :: 0 <= i < |ids| && CheckFileId(w, ids[i]) == Some(n) && n.mtime <= cutoff
    decreases |ids|
  {
    if ids != [] {
      CandidatesMembership(w, ids[1..], cutoff, n);
      if exists i :: 0 <= i < |ids| && CheckFileId(w, ids[i]) == Some(n) && n.mtime <= cutoff {
        var i :| 0 <= i < |ids| && CheckFileId(w, ids[i]) == Some(n) && n.mtime <= cutoff;
        if i > 0 {
          assert ids[1..][i - 1] == ids[i];
        }
      }
      if n in Candidates(w, ids[1..], cutoff) {
        var i :| 0 <= i < |ids[1..]| && CheckFileId(w, ids[1..][i]) == Some(n) && n.mtime <= cutoff;
        assert ids[i + 1] == ids[1..][i];
      }
    }
  }

  /** Everything `Permitted` keeps comes from its input and does not refuse deletion. */
  lemma {:induction false} PermittedMembership(refusals: map<Node, DeleteError>, nodes: seq<Node>, n: Node)
    ensures n in Permitted(refusals, nodes) <==> n in nodes && n !in refusals
    decreases |nodes|
  {
    if nodes != [] {
      PermittedMembership(refusals, nodes[1..], n);
      assert nodes == [nodes[0]] + nodes[1..];
    }
  }

  /**
    Safety: every node the sweep calls `delete()` on resolves from a processed
    id and was last modified at or before the cutoff; every node it removes is
    one of those and does not refuse deletion. Nothing newer than the cutoff is
    touched.
   */
  lemma SweepSafety(w: World, ids: seq<FileId>, cutoff: int, n: Node)
    ensures var t := Sweep(w, ids, cutoff);
            (n in t.attempts ==>
               n.mtime <= cutoff && exists i :: 0 <= i < t.processed && CheckFileId(w, ids[i]) == Some(n)) &&
            (n in t.deleted <==> n in t.attempts && n !in w.refusals)
  {
    var t := Sweep(w, ids, cutoff);
    SweepMatchesCandidates(w, ids, cutoff);
    CandidatesMembership(w, ids[..t.processed], cutoff, n);
    PermittedMembership(w.refusals, t.attempts, n);
    if n in t.attempts {
      var i :| 0 <= i < t.processed && CheckFileId(w, ids[..t.processed][i]) == Some(n) && n.mtime <= cutoff;
      assert ids[..t.processed][i] == ids[i];
    }
  }

  /**
    The sweep stops exactly at the first id whose delete fails with something
    other than NotPermittedException: NotFound and NotPermitted never stop it.
   */
  lemma {:induction false} SweepStopsAtFirstFailure(w: World, ids: seq<FileId>, cutoff: int)
    ensures var t := Sweep(w, ids, cutoff);
            (t.aborted ==> Fails(w, ids[t.processed - 1], cutoff)) &&
            (forall i :: 0 <= i < |ids| && Fails(w, ids[i], cutoff) ==> t.aborted && t.processed - 1 <= i)
    decreases |ids|
  {
    if ids != [] {
      var init, last := ids[..|ids| - 1], ids[|ids| - 1];
      SweepStopsAtFirstFailure(w, init, cutoff);
      var t0 := Sweep(w, init, cutoff);
      forall i | 0 <= i < |ids| - 1
        ensures ids[i] == init[i]
      {
      }
    }
  }

  /** A sweep ends with an exception exactly when some tagged id fails with one. */
  lemma SweepAbortsIffSomeFailure(w: World, ids: seq<FileId>, cutoff: int)
    ensures Sweep(w, ids, cutoff).aborted <==> exists i :: 0 <= i < |ids| && Fails(w, ids[i], cutoff)
  {
    SweepStopsAtFirstFailure(w, ids, cutoff);
    var t := Sweep(w, ids, cutoff);
    if t.aborted {
      assert Fails(w, ids[t.processed - 1], cutoff);
    }
  }

  /** After an exception nothing more happens, whatever ids follow. */
  lemma {:induction false} SweepAbortSticky(w: World, xs: seq<FileId>, ys: seq<FileId>, cutoff: int)
    requires Sweep(w, xs, cutoff).aborted
    ensures Sweep(w, xs + ys, cutoff) == Sweep(w, xs, cutoff)
    decreases |ys|
  {
    if ys != [] {
      var ys' := ys[..|ys| - 1];
      assert (xs + ys)[..|xs + ys| - 1] == xs + ys';
      SweepAbortSticky(w, xs, ys', cutoff);
    } else {
      assert xs + ys == xs;
    }
  }

  /** Sweeping one more id extends the sweep of the ids before it. */
  lemma SweepSnoc(w: World, ids: seq<FileId>, k: nat, cutoff: int)
    requires k < |ids|
    ensures var t := Sweep(w, ids[..k], cutoff);
            Sweep(w, ids[..k + 1], cutoff) == if t.aborted then t else Visit(w, t, ids[k], cutoff)
  {
    assert ids[..k + 1][..k] == ids[..k];
  }

  /** Once the sweep of a prefix has aborted, every longer prefix, and the whole sequence, sweeps to the same trace. */
  lemma AbortedPrefix(w: World, ids: seq<FileId>, j: nat, end: nat, cutoff: int)
    requires j <= end <= |ids| && Sweep(w, ids[..j], cutoff).aborted
    ensures Sweep(w, ids[..end], cutoff) == Sweep(w, ids[..j], cutoff)
    ensures Sweep(w, ids, cutoff) == Sweep(w, ids[..j], cutoff)
  {
    var pre := ids[..end];
    assert pre[..j] == ids[..j];
    assert pre[..j] + pre[j..] == pre;
    SweepAbortSticky(w, ids[..j], pre[j..], cutoff);
    assert ids[..j] + ids[j..] == ids;
    SweepAbortSticky(w, ids[..j], ids[j..], cutoff);
  }

  /** An exception at id `k` of a page that ends before `end` is where the sweep up to `end` stops. */
  lemma AbortWithinPage(w: World, ids: seq<FileId>, start: nat, k: nat, end: nat, cutoff: int)
    requires start <= k < end <= |ids|
    requires !Sweep(w, ids[..k], cutoff).aborted && Sweep(w, ids[..k + 1], cutoff).aborted
    ensures Sweep(w, ids[..end], cutoff) == Sweep(w, ids[..k + 1], cutoff)
    ensures start < Sweep(w, ids[..end], cutoff).processed
  {
    SweepSnoc(w, ids, k, cutoff);
    AbortedPrefix(w, ids, k + 1, end, cutoff);
  }

  /** With the tag and its policy present and a readable duration, a run is the sweep of the tagged ids. */
  lemma RunSpecSweeps(tag: TagId, lookup: TagLookup, retention: map<TagId, Policy>, now: int,
                      w: World, objects: map<TagId, seq<FileId>>, cutoff: int)
    requires lookup == TagFound && tag in retention
    requires GetBeforeDate(retention[tag].timeUnit, retention[tag].timeAmount, now).Some?
    requires GetBeforeDate(retention[tag].timeUnit, retention[tag].timeAmount, now).value == cutoff
    ensures RunSpec(tag, lookup, retention, now, w, objects) == SweepEffect(w, TaggedFiles(objects, tag), cutoff)
  {
  }

  // ---------------------------------------------------------------------------
  // Pagination

  lemma OffsetsGrow(count: nat)
    ensures Offsets(count) + [count * PageSize] == Offsets(count + 1)
  {
  }

  /** Asking for the page at `offset`, a multiple of PageSize, adds the next offset; the next page starts PageSize on. */
  lemma OffsetsNext(before: seq<int>, offset: nat)
    requires offset % PageSize == 0
    ensures before + Offsets(offset / PageSize) + [offset] == before + Offsets(offset / PageSize + 1)
    ensures (offset + PageSize) % PageSize == 0 && (offset + PageSize) / PageSize == offset / PageSize + 1
  {
    OffsetsGrow(offset / PageSize);
    assert before + Offsets(offset / PageSize) + [offset] == before + (Offsets(offset / PageSize) + [offset]);
  }

  /** A page is the ids from `offset` on, at most `limit` of them, and empty exactly when `offset` is past the end. */
  lemma PageSlice(ids: seq<FileId>, offset: nat, limit: nat)
    ensures var p := Page(ids, offset, limit);
            |p| <= limit && (|p| == 0 <==> offset >= |ids| || limit == 0) &&
            (offset < |ids| ==> offset + |p| == Min(offset + limit, |ids|)) &&
            forall j :: 0 <= j < |p| ==> p[j] == ids[offset + j]
  {
  }

  /** The pages of the first `count` requests, one after the other. */
  function Pages(ids: seq<FileId>, count: nat): seq<FileId> {
    if count == 0 then [] else Pages(ids, count - 1) + Page(ids, (count - 1) * PageSize, PageSize)
  }

  lemma {:induction false} PagesArePrefix(ids: seq<FileId>, count: nat)
    ensures Pages(ids, count) == ids[..Min(count * PageSize, |ids|)]
  {
    if count > 0 {
      PagesArePrefix(ids, count - 1);
      var lo := (count - 1) * PageSize;
      if lo < |ids| {
        assert ids[..Min(count * PageSize, |ids|)] == ids[..lo] + ids[lo..Min(count * PageSize, |ids|)];
      }
    }
  }

  /**
    Requesting pages from offset 0 in steps of PageSize until the first empty
    page makes exactly NumRequests(|ids|) requests: every page before the last
    is non-empty, the last is empty, and the pages together are the tagged ids
    in order, each exactly once.
   */
  lemma PagesCoverAll(ids: seq<FileId>)
    ensures forall k :: 0 <= k < NumRequests(|ids|) - 1 ==> Page(ids, k * PageSize, PageSize) != []
    ensures Page(ids, (NumRequests(|ids|) - 1) * PageSize, PageSize) == []
    ensures Pages(ids, NumRequests(|ids|)) == ids
  {
    var n := NumRequests(|ids|);
    assert (n - 1) * PageSize >= |ids|;
    forall k | 0 <= k < n - 1
      ensures Page(ids, k * PageSize, PageSize) != []
    {
      assert k * PageSize < |ids|;
    }
    PagesArePrefix(ids, n);
  }

  /** An exception at one of the ids of the page at `offset` ends the requests with that page's. */
  lemma AbortPageIndex(offset: nat, processed: nat)
    requires offset % PageSize == 0 && offset < processed <= offset + PageSize
    ensures (processed - 1) / PageSize + 1 == offset / PageSize + 1
  {
  }

  /**
    A run that stops with an exception at an id of the page at `offset` has
    asked for the pages up to that one, and its delete calls are those of the
    sweep up to the end of that page.
   */
  lemma SweepEffectAborted(w: World, ids: seq<FileId>, offset: nat, len: nat, cutoff: int)
    requires offset % PageSize == 0 && len <= PageSize && offset + len <= |ids|
    requires var t := Sweep(w, ids[..offset + len], cutoff); t.aborted && offset < t.processed
    ensures var e := SweepEffect(w, ids, cutoff);
            var t := Sweep(w, ids[..offset + len], cutoff);
            e.outcome == Threw && e.requests == Offsets(offset / PageSize + 1) &&
            e.attempts == t.attempts && e.deleted == t.deleted
  {
    AbortedPrefix(w, ids, offset + len, offset + len, cutoff);
    AbortPageIndex(offset, Sweep(w, ids, cutoff).processed);
  }

  /**
    A run that reaches the empty page at `offset` without an exception has
    asked for every page up to it, and its delete calls are those of the
    sweep of all ids.
   */
  lemma SweepEffectCompleted(w: World, ids: seq<FileId>, offset: nat, cutoff: int)
    requires offset % PageSize == 0 && |ids| <= offset < |ids| + PageSize
    requires !Sweep(w, ids[..Min(offset, |ids|)], cutoff).aborted
    ensures var e := SweepEffect(w, ids, cutoff);
            var t := Sweep(w, ids[..Min(offset, |ids|)], cutoff);
            e.outcome == Completed && e.requests == Offsets(offset / PageSize + 1) &&
            e.attempts == t.attempts && e.deleted == t.deleted
  {
    LastRequest(|ids|, offset);
    assert ids[..Min(offset, |ids|)] == ids;
  }

  /** Where the last (empty) page is asked for, the number of requests is NumRequests. */
  lemma LastRequest(n: nat, offset: nat)
    requires offset % PageSize == 0 && n <= offset < n + PageSize
    ensures offset / PageSize + 1 == NumRequests(n)
  {
  }

  /** 2500 tagged ids: pages of 1000, 1000 and 500 ids, then an empty page, four requests in all. */
  lemma TwentyFiveHundredIds(ids: seq<FileId>)
    requires |ids| == 2500
    ensures NumRequests(|ids|) == 4 && Offsets(4) == [0, 1000, 2000, 3000]
    ensures |Page(ids, 0, PageSize)| == 1000 && |Page(ids, 1000, PageSize)| == 1000
    ensures |Page(ids, 2000, PageSize)| == 500 && Page(ids, 3000, PageSize) == []
  {
  }

  // ---------------------------------------------------------------------------
  // Whole runs

  /** A tag that cannot be looked up, a missing policy or a rejected duration spec ends the run before any page is fetched. */
  lemma RunEarlyExits(tag: TagId, lookup: TagLookup, retention: map<TagId, Policy>, now: int,
                      w: World, objects: map<TagId, seq<FileId>>)
    requires lookup != TagFound || tag !in retention ||
             GetBeforeDate(retention[tag].timeUnit, retention[tag].timeAmount, now).None?
    ensures var e := RunSpec(tag, lookup, retention, now, w, objects);
            e.requests == [] && e.attempts == [] && e.deleted == [] &&
            e.outcome == (if lookup == InvalidArgument || (lookup == TagFound && tag !in retention)
                          then Completed else Threw)
  {
  }

  /**
    Safety of a run: a node is only ever passed to `delete()` when the tag and
    its policy exist, and it is then at or before the one cutoff computed from
    the policy and `now`, and it resolves from a tagged id; removed nodes are
    among those and do not refuse deletion.
   */
  lemma RunDeletesOnlyExpired(tag: TagId, lookup: TagLookup, retention: map<TagId, Policy>, now: int,
                              w: World, objects: map<TagId, seq<FileId>>, n: Node)
    ensures var e := RunSpec(tag, lookup, retention, now, w, objects);
            (n in e.deleted ==> n in e.attempts && n !in w.refusals) &&
            (n in e.attempts ==>
               lookup == TagFound && tag in retention &&
               var cutoff := GetBeforeDate(retention[tag].timeUnit, retention[tag].timeAmount, now);
               cutoff.Some? && n.mtime <= cutoff.value &&
               exists i :: 0 <= i < |TaggedFiles(objects, tag)| && CheckFileId(w, TaggedFiles(objects, tag)[i]) == Some(n))
  {
    if lookup == TagFound && tag in retention {
      var cutoff := GetBeforeDate(retention[tag].timeUnit, retention[tag].timeAmount, now);
      if cutoff.Some? {
        SweepSafety(w, TaggedFiles(objects, tag), cutoff.value, n);
      }
    }
  }

  /**
    Completeness of a run: with the tag and policy present, a valid duration,
    and no delete failing with anything but NotPermittedException, the run
    returns normally after NumRequests pages, having called `delete()` on
    every due node of every tagged id, in order, and removed every one of them
    that permits it.
   */
  lemma RunVisitsEveryId(tag: TagId, lookup: TagLookup, retention: map<TagId, Policy>, now: int,
                         w: World, objects: map<TagId, seq<FileId>>)
    requires lookup == TagFound && tag in retention
    requires GetBeforeDate(retention[tag].timeUnit, retention[tag].timeAmount, now).Some?
    requires var cutoff := GetBeforeDate(retention[tag].timeUnit, retention[tag].timeAmount, now).value;
             forall i :: 0 <= i < |TaggedFiles(objects, tag)| ==> !Fails(w, TaggedFiles(objects, tag)[i], cutoff)
    ensures var e := RunSpec(tag, lookup, retention, now, w, objects);
            var cutoff := GetBeforeDate(retention[tag].timeUnit, retention[tag].timeAmount, now).value;
            var ids := TaggedFiles(objects, tag);
            e.outcome == Completed && e.requests == Offsets(NumRequests(|ids|)) &&
            e.attempts == Candidates(w, ids, cutoff) && e.deleted == Permitted(w.refusals, e.attempts)
  {
    var cutoff := GetBeforeDate(retention[tag].timeUnit, retention[tag].timeAmount, now).value;
    var ids := TaggedFiles(objects, tag);
    SweepAbortsIffSomeFailure(w, ids, cutoff);
    SweepMatchesCandidates(w, ids, cutoff);
    assert ids[..|ids|] == ids;
  }

  /** An id whose due node, if any, would be removed by `delete()`. */
  predicate Removable(w: World, id: FileId, cutoff: int) {
    var c := Candidate(w, id, cutoff);
    |c| == 1 && c[0] !in w.refusals
  }

  /**
    The ids still tagged after a run that removed the nodes `removed`, when
    removing a file also drops its tag: those whose resolved node was not
    removed, in order.
   */
  function Untouched(w: World, ids: seq<FileId>, removed: seq<Node>): seq<FileId> {
    if ids == [] then []
    else
      var last := ids[|ids| - 1];
      Untouched(w, ids[..|ids| - 1], removed) +
      (if CheckFileId(w, last).Some? && CheckFileId(w, last).value in removed then [] else [last])
  }

  lemma {:induction false} UntouchedAppend(w: World, xs: seq<FileId>, ys: seq<FileId>, removed: seq<Node>)
    ensures Untouched(w, xs + ys, removed) == Untouched(w, xs, removed) + Untouched(w, ys, removed)
    decreases |ys|
  {
    if ys == [] {
      assert xs + ys == xs;
    } else {
      var init := ys[..|ys| - 1];
      assert (xs + ys)[..|xs + ys| - 1] == xs + init;
      assert (xs + ys)[|xs + ys| - 1] == ys[|ys| - 1];
      UntouchedAppend(w, xs, init, removed);
    }
  }

  /** A sweep over ids none of which is removable removes nothing. */
  lemma {:induction false} NothingRemovableNothingRemoved(w: World, xs: seq<FileId>, cutoff: int)
    requires forall j :: 0 <= j < |xs| ==> !Removable(w, xs[j], cutoff)
    ensures Sweep(w, xs, cutoff).deleted == []
    decreases |xs|
  {
    if xs != [] {
      var init, last := xs[..|xs| - 1], xs[|xs| - 1];
      assert forall j :: 0 <= j < |init| ==> init[j] == xs[j];
      NothingRemovableNothingRemoved(w, init, cutoff);
      VisitMatchesCandidate(w, Sweep(w, init, cutoff), last, cutoff);
      var c := Candidate(w, last, cutoff);
      if c != [] {
        assert c[1..] == [];
      }
    }
  }

  /** A sweep whose last id fails ends with the exception, there or earlier. */
  lemma EndsInFailureAborts(w: World, xs: seq<FileId>, cutoff: int)
    requires |xs| > 0 && Fails(w, xs[|xs| - 1], cutoff)
    ensures Sweep(w, xs, cutoff).aborted
  {
  }

  /** The due node of a processed removable id is among the removed nodes. */
  lemma ProcessedRemovableIsRemoved(w: World, ids: seq<FileId>, cutoff: int, i: nat)
    requires i < Sweep(w, ids, cutoff).processed && Removable(w, ids[i], cutoff)
    ensures CheckFileId(w, ids[i]).Some? && CheckFileId(w, ids[i]).value in Sweep(w, ids, cutoff).deleted
  {
    var t := Sweep(w, ids, cutoff);
    var n := Candidate(w, ids[i], cutoff)[0];
    assert CheckFileId(w, ids[i]) == Some(n) && n.mtime <= cutoff;
    SweepMatchesCandidates(w, ids, cutoff);
    assert ids[..t.processed][i] == ids[i];
    CandidatesMembership(w, ids[..t.processed], cutoff, n);
    PermittedMembership(w.refusals, t.attempts, n);
  }

  /** Of the first `k` processed ids, those a sweep leaves tagged have nothing removable. */
  lemma {:induction false} UntouchedNotRemovable(w: World, ids: seq<FileId>, cutoff: int, removed: seq<Node>, k: nat)
    requires removed == Sweep(w, ids, cutoff).deleted && k <= Sweep(w, ids, cutoff).processed
    ensures forall j :: 0 <= j < |Untouched(w, ids[..k], removed)| ==>
              !Removable(w, Untouched(w, ids[..k], removed)[j], cutoff)
    decreases k
  {
    if k > 0 {
      var last := ids[k - 1];
      var before := Untouched(w, ids[..k - 1], removed);
      var kept := if CheckFileId(w, last).Some? && CheckFileId(w, last).value in removed then [] else [last];
      UntouchedNotRemovable(w, ids, cutoff, removed, k - 1);
      assert ids[..k][..k - 1] == ids[..k - 1] && ids[..k][k - 1] == last;
      assert Untouched(w, ids[..k], removed) == before + kept;
      if Removable(w, last, cutoff) {
        ProcessedRemovableIsRemoved(w, ids, cutoff, k - 1);
        assert before + kept == before;
      } else {
        forall j | 0 <= j < |before + kept|
          ensures !Removable(w, (before + kept)[j], cutoff)
        {
          if j >= |before| {
            assert (before + kept)[j] == last;
          } else {
            assert (before + kept)[j] == before[j];
          }
        }
      }
    }
  }

  /** When the first sweep stopped at a failing delete, the failing id is the last one it leaves tagged. */
  lemma UntouchedEndsAtFailure(w: World, ids: seq<FileId>, cutoff: int)
    requires Sweep(w, ids, cutoff).aborted
    ensures var t := Sweep(w, ids, cutoff);
            var u := Untouched(w, ids[..t.processed], t.deleted);
            |u| > 0 && Fails(w, u[|u| - 1], cutoff)
  {
    var t := Sweep(w, ids, cutoff);
    var p := t.processed;
    SweepStopsAtFirstFailure(w, ids, cutoff);
    var f := ids[p - 1];
    var n := Candidate(w, f, cutoff)[0];
    SweepSafety(w, ids, cutoff, n);
    assert ids[..p][..p - 1] == ids[..p - 1] && ids[..p][p - 1] == f;
    assert Untouched(w, ids[..p], t.deleted) == Untouched(w, ids[..p - 1], t.deleted) + [f];
  }

  /**
    Over the ids the first sweep processed and left tagged, a second sweep
    removes nothing, and stops with an exception when the first one did.
   */
  lemma SecondSweepOfProcessed(w: World, ids: seq<FileId>, cutoff: int, removed: seq<Node>)
    requires removed == Sweep(w, ids, cutoff).deleted
    ensures var u := Untouched(w, ids[..Sweep(w, ids, cutoff).processed], removed);
            Sweep(w, u, cutoff).deleted == [] &&
            (Sweep(w, ids, cutoff).aborted ==> Sweep(w, u, cutoff).aborted)
  {
    var u := Untouched(w, ids[..Sweep(w, ids, cutoff).processed], removed);
    UntouchedNotRemovable(w, ids, cutoff, removed, Sweep(w, ids, cutoff).processed);
    NothingRemovableNothingRemoved(w, u, cutoff);
    if Sweep(w, ids, cutoff).aborted {
      UntouchedEndsAtFailure(w, ids, cutoff);
      EndsInFailureAborts(w, u, cutoff);
    }
  }

  /**
    Idempotence: a second sweep with the same cutoff, over the ids the first
    sweep left tagged, removes nothing. When the first sweep stopped at a
    failing delete, that id is still tagged and the second sweep stops there
    too, before any id the first one never reached.
   */
  lemma SecondSweepRemovesNothing(w: World, ids: seq<FileId>, cutoff: int)
    ensures var first := Sweep(w, ids, cutoff);
            Sweep(w, Untouched(w, ids, first.deleted), cutoff).deleted == []
  {
    var first := Sweep(w, ids, cutoff);
    var removed, p := first.deleted, first.processed;
    var u1, u2 := Untouched(w, ids[..p], removed), Untouched(w, ids[p..], removed);
    assert ids[..p] + ids[p..] == ids;
    UntouchedAppend(w, ids[..p], ids[p..], removed);
    SecondSweepOfProcessed(w, ids, cutoff, removed);
    if first.aborted {
      SweepAbortSticky(w, u1, u2, cutoff);
    } else {
      assert ids[p..] == [];
      assert u1 + u2 == u1;
    }
  }

  /** The two-file world of the scenario below: both files belong to one user. */
  function TwoFileWorld(older: int, newer: int): World {
    World(map[1 := [Mount("alice")], 2 := [Mount("alice")]],
          map[("alice", 1) := [Node(1, "old.txt", older)], ("alice", 2) := [Node(2, "new.txt", newer)]],
          map[])
  }

  lemma TwoFileSweep(older: int, newer: int, cutoff: int)
    requires older <= cutoff < newer
    ensures Sweep(TwoFileWorld(older, newer), [1, 2], cutoff) ==
            Trace([Node(1, "old.txt", older)], [Node(1, "old.txt", older)], false, 2)
  {
    var w := TwoFileWorld(older, newer);
    assert CheckFileId(w, 1) == Some(Node(1, "old.txt", older));
    assert CheckFileId(w, 2) == Some(Node(2, "new.txt", newer));
    assert [1, 2][..1] == [1] && [1][..0] == [];
    assert Sweep(w, [], cutoff) == Trace([], [], false, 0);
    assert Sweep(w, [1], cutoff) == Trace([Node(1, "old.txt", older)], [Node(1, "old.txt", older)], false, 1);
  }

  /**
    A 30-day policy over two tagged files of one user removes the file last
    changed at or before 30 days before now and keeps the one changed after
    that, after asking for two pages. For instance, now = 2024-03-01T00:00:00Z
    (1709251200), files changed on 2024-01-01 (1704067200) and 2024-02-15
    (1707955200).
   */
  lemma ThirtyDayPolicyScenario(now: int, older: int, newer: int, policy: Policy)
    requires policy == Policy(DAY, 30) && older <= now - 30 * 86400 < newer
    ensures RunSpec(7, TagFound, map[7 := policy], now, TwoFileWorld(older, newer), map[7 := [1, 2]]) ==
            RunEffect(Completed, [0, 1000], [Node(1, "old.txt", older)], [Node(1, "old.txt", older)])
  {
    var cutoff := now - 30 * 86400;
    CutoffDay(30, now);
    RunSpecSweeps(7, TagFound, map[7 := policy], now, TwoFileWorld(older, newer), map[7 := [1, 2]], cutoff);
    TwoFileSweep(older, newer, cutoff);
    assert Offsets(2) == [0, 1000];
  }

}
