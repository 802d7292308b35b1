/**
  The retention background job itself: `run` validates the tag and its
  policy, computes the cutoff once, then pages through the tagged file ids and
  expires each node it can resolve. The tag mapper and the users' files are
  objects whose state the run changes; the tag manager's answer, the
  `retention` table, the mount cache and the clock reading are inputs.
 */
module RetentionJob {
  import opened Wrappers
  import opened Cutoff
  import opened SweepModel

  /** The system tag object mapper: tagged file ids, handed out a page at a time. */
  class TagMapper {
    const objects: map<TagId, seq<FileId>>
    /** Offsets of the pages asked for so far, in order. */
    ghost var requests: seq<int>

    constructor (objects: map<TagId, seq<FileId>>)
      ensures this.objects == objects && requests == []
    {
      this.objects := objects;
      requests := [];
    }

    /** `getObjectIdsForTags(tag, 'files', limit, offset)`. */
    method GetObjectIdsForTags(tag: TagId, limit: nat, offset: nat) returns (ids: seq<FileId>)
      modifies this
      ensures ids == Page(TaggedFiles(objects, tag), offset, limit)
      ensures requests == old(requests) + [offset]
    {
      ids := Page(TaggedFiles(objects, tag), offset, limit);
      requests := requests + [offset];
    }
  }

  /** The users' files: their folders' lookups and the nodes' `delete()`. */
  class Storage {
    const folders: map<(UserId, FileId), seq<Node>>
    /** Nodes whose `delete()` throws, and what it throws. */
    const refusals: map<Node, DeleteError>
    /** Nodes `delete()` was called on, in order. */
    ghost var attempts: seq<Node>
    /** Nodes removed, in order. */
    var deleted: seq<Node>

    constructor (folders: map<(UserId, FileId), seq<Node>>, refusals: map<Node, DeleteError>)
      ensures this.folders == folders && this.refusals == refusals
      ensures attempts == [] && deleted == []
    {
      this.folders := folders;
      this.refusals := refusals;
      attempts := [];
      deleted := [];
    }

    /** `$node->delete()`: removes the node unless it refuses; the error is what it throws. */
    method Delete(node: Node) returns (error: Option<DeleteError>)
      modifies this
      ensures error == (if node in refusals then Some(refusals[node]) else None)
      ensures attempts == old(attempts) + [node]
      ensures deleted == old(deleted) + (if node in refusals then [] else [node])
    {
      attempts := attempts + [node];
      if node in refusals {
        error := Some(refusals[node]);
      } else {
        error := None;
        deleted := deleted + [node];
      }
    }
  }

  /**
    `expireNode`: deletes the node when it was last modified at or before
    `deleteBefore`; NotPermittedException is swallowed, and `escaped` tells
    whether any other exception leaves the call.
   */
  method ExpireNode(node: Node, deleteBefore: int, storage: Storage) returns (escaped: bool)
    modifies storage
    ensures var e := Expire(storage.refusals, node, deleteBefore);
            escaped == (e == Failed) &&
            storage.attempts == old(storage.attempts) + (if e == Kept then [] else [node]) &&
            storage.deleted == old(storage.deleted) + (if e == Deleted then [node] else [])
  {
    escaped := false;
    if node.mtime <= deleteBefore {
      var error := storage.Delete(node);
      if error == Some(OtherDeleteFailure) {
        escaped := true;
      }
    }
  }

  /**
    One id of a page, the `k`-th of `all`: resolve it, skipping it on
    NotFoundException, and expire its node. The ids before it have been
    processed without an exception; afterwards it has been too, or the
    exception escaped here.
   */
  method ExpireFileId(fileid: FileId, deleteBefore: int, w: World, storage: Storage,
                      ghost all: seq<FileId>, ghost k: nat,
                      ghost attempts0: seq<Node>, ghost deleted0: seq<Node>)
    returns (escaped: bool)
    requires w.refusals == storage.refusals
    requires k < |all| && all[k] == fileid
    requires var t := Sweep(w, all[..k], deleteBefore);
             !t.aborted && storage.attempts == attempts0 + t.attempts && storage.deleted == deleted0 + t.deleted
    modifies storage
    ensures var t := Sweep(w, all[..k + 1], deleteBefore);
            escaped == t.aborted &&
            storage.attempts == attempts0 + t.attempts && storage.deleted == deleted0 + t.deleted
  {
    SweepSnoc(w, all, k, deleteBefore);
    var node := CheckFileId(w, fileid);
    if node.None? {
      return false;
    }
    escaped := ExpireNode(node.value, deleteBefore, storage);
  }

  /**
    The body of the inner `foreach` over one page: `fileids` are the ids of
    `all` from `start` on, the ids before them have been processed without an
    exception, and afterwards the ids of this page have been too, or an
    exception escaped at one of them.
   */
  method ExpirePage(fileids: seq<FileId>, deleteBefore: int, w: World, storage: Storage,
                    ghost all: seq<FileId>, ghost start: nat,
                    ghost attempts0: seq<Node>, ghost deleted0: seq<Node>)
    returns (escaped: bool)
    requires w.refusals == storage.refusals
    requires start + |fileids| <= |all| && forall j :: 0 <= j < |fileids| ==> fileids[j] == all[start + j]
    requires var t := Sweep(w, all[..start], deleteBefore);
             !t.aborted && storage.attempts == attempts0 + t.attempts && storage.deleted == deleted0 + t.deleted
    modifies storage
    ensures var t := Sweep(w, all[..start + |fileids|], deleteBefore);
            escaped == t.aborted && (escaped ==> start < t.processed) &&
            storage.attempts == attempts0 + t.attempts && storage.deleted == deleted0 + t.deleted
  {
    var i := 0;
    while i < |fileids|
      invariant 0 <= i <= |fileids|
      invariant var t := Sweep(w, all[..start + i], deleteBefore);
                !t.aborted && storage.attempts == attempts0 + t.attempts && storage.deleted == deleted0 + t.deleted
    {
      escaped := ExpireFileId(fileids[i], deleteBefore, w, storage, all, start + i, attempts0, deleted0);
      if escaped {
        // The exception leaves the page, and the run.
        AbortWithinPage(w, all, start, start + i, start + |fileids|, deleteBefore);
        return;
      }
      i := i + 1;
    }
    escaped := false;
  }

  /**
    One turn of the `while (true)` loop of `run`: ask for the page of tagged
    ids at `offset`; when it is not empty, expire its ids. `count` is the
    size of the page.
   */
  method ExpireNextPage(tag: TagId, offset: nat, limit: nat, deleteBefore: int, w: World,
                        mapper: TagMapper, storage: Storage,
                        ghost attempts0: seq<Node>, ghost deleted0: seq<Node>)
    returns (count: nat, escaped: bool)
    requires w.refusals == storage.refusals
    requires var all := TaggedFiles(mapper.objects, tag);
             var t := Sweep(w, all[..Min(offset, |all|)], deleteBefore);
             !t.aborted && storage.attempts == attempts0 + t.attempts && storage.deleted == deleted0 + t.deleted
    modifies mapper, storage
    ensures mapper.requests == old(mapper.requests) + [offset]
    ensures count == |Page(TaggedFiles(mapper.objects, tag), offset, limit)|
    ensures count == 0 ==> storage.attempts == old(storage.attempts) && storage.deleted == old(storage.deleted)
    ensures count > 0 ==>
              var t := Sweep(w, TaggedFiles(mapper.objects, tag)[..offset + count], deleteBefore);
              escaped == t.aborted && (escaped ==> offset < t.processed) &&
              storage.attempts == attempts0 + t.attempts && storage.deleted == deleted0 + t.deleted
  {
    ghost var all := TaggedFiles(mapper.objects, tag);
    var fileids := mapper.GetObjectIdsForTags(tag, limit, offset);
    PageSlice(all, offset, limit);
    count := |fileids|;
    if count == 0 {
      return count, false;
    }
    escaped := ExpirePage(fileids, deleteBefore, w, storage, all, offset, attempts0, deleted0);
  }

  /**
    The `while (true)` loop of `run`: pages of PageSize tagged ids from offset
    0 until the first empty page, every node expired against the one cutoff
    `deleteBefore`.
   */
  method ExpireTaggedFiles(tag: TagId, deleteBefore: int, w: World, mapper: TagMapper, storage: Storage)
    returns (escaped: bool)
    requires w.refusals == storage.refusals
    modifies mapper, storage
    ensures var e := SweepEffect(w, TaggedFiles(mapper.objects, tag), deleteBefore);
            escaped == (e.outcome == Threw) &&
            mapper.requests == old(mapper.requests) + e.requests &&
            storage.attempts == old(storage.attempts) + e.attempts &&
            storage.deleted == old(storage.deleted) + e.deleted
  {
    ghost var all := TaggedFiles(mapper.objects, tag);
    ghost var requests0, attempts0, deleted0 := mapper.requests, storage.attempts, storage.deleted;
    var offset: nat := 0;
    var limit := PageSize;
    while true
      invariant offset % PageSize == 0 && offset < |all| + PageSize
      invariant mapper.requests == requests0 + Offsets(offset / PageSize)
      invariant var t := Sweep(w, all[..Min(offset, |all|)], deleteBefore);
                !t.aborted && storage.attempts == attempts0 + t.attempts && storage.deleted == deleted0 + t.deleted
      decreases |all| + PageSize - offset
    {
      var count;
      count, escaped := ExpireNextPage(tag, offset, limit, deleteBefore, w, mapper, storage, attempts0, deleted0);
      OffsetsNext(requests0, offset);
      PageSlice(all, offset, limit);
      if count == 0 {
        break;
      }
      if escaped {
        // The exception leaves `run`; the requests end with this page's.
        SweepEffectAborted(w, all, offset, count, deleteBefore);
        return;
      }
      offset := offset + limit;
    }
    SweepEffectCompleted(w, all, offset, deleteBefore);
    escaped := false;
  }

  /**
    `run(['tag' => tag])`. `lookup` is how the tag manager answers for the tag,
    `retention` the `retention` table, `now` the clock reading, `mounts` the
    user mount cache. Its effect on the mapper and the storage is exactly the
    one `RunSpec` describes.
   */
  method Run(tag: TagId, lookup: TagLookup, retention: map<TagId, Policy>, now: int,
             mounts: map<FileId, seq<Mount>>, mapper: TagMapper, storage: Storage)
    returns (outcome: Outcome)
    modifies mapper, storage
    ensures var e := RunSpec(tag, lookup, retention, now, World(mounts, storage.folders, storage.refusals), mapper.objects);
            outcome == e.outcome &&
            mapper.requests == old(mapper.requests) + e.requests &&
            storage.attempts == old(storage.attempts) + e.attempts &&
            storage.deleted == old(storage.deleted) + e.deleted
  {
    // Validate that the tag still exists; only InvalidArgumentException is caught.
    if lookup == OtherTagFailure {
      return Threw;
    }
    if lookup == InvalidArgument {
      return Completed;
    }
    // Validate that there is a policy row.
    if tag !in retention {
      return Completed;
    }
    // The cutoff, computed once for the whole run; an unreadable duration throws.
    var row := retention[tag];
    var before := GetBeforeDate(row.timeUnit, row.timeAmount, now);
    if before.None? {
      return Threw;
    }
    var escaped := ExpireTaggedFiles(tag, before.value, World(mounts, storage.folders, storage.refusals), mapper, storage);
    outcome := if escaped then Threw else Completed;
  }

}
