/**
 * The frontend's `addons.js`: the paged browsers' caches, the queue that
 * asks the backend for one GMA's metadata at a time, and its own copy of
 * the file-type helpers (`trimPath` and `getFileIcon` there are the same
 * code as in `steam.js`, modelled once in `SteamFrontend`).
 */
module AddonsFrontend {
  import opened Wrappers
  import SteamFrontend

  // ------------------------------------------------------------- getFileType

  /** `getFileType` of this file: the `steam.js` switch without its `bsp` case. */
  function FileType(extension: Option<string>): string
  {
    match extension
    case None => "unknown"
    case Some(x) =>
      if x in SteamFrontend.AUDIO_EXTENSIONS then "audio"
      else if x in SteamFrontend.IMAGE_EXTENSIONS then "image"
      else if x in SteamFrontend.NAMED_TYPES then x
      else "unknown"
  }

  /** The two copies of `getFileType` disagree on `bsp` only: a map there, unknown here. */
  lemma FileTypesDiffer(extension: Option<string>)
    ensures FileType(extension) != SteamFrontend.FileType(extension) <==> extension == Some("bsp")
    ensures extension == Some("bsp") ==> FileType(extension) == "unknown" && SteamFrontend.FileType(extension) == "map"
  {
  }

  /** `getFileTypeInfo` of this file: the same extension and icon, this file's type. */
  function FileTypeInfo(path: string): (string, string, Option<string>)
  {
    var extension := SteamFrontend.LoweredExtension(path);
    (SteamFrontend.FileIcon(extension), FileType(extension), extension)
  }

  /** Only a `.bsp` path is classified differently by the two files. */
  lemma FileTypeInfoDiffers(path: string)
    ensures var info := SteamFrontend.FileTypeInfo(path);
      FileTypeInfo(path) == (info.0, if info.2 == Some("bsp") then "unknown" else info.1, info.2)
  {
    FileTypesDiffer(SteamFrontend.LoweredExtension(path));
  }

  // ------------------------------------------------ browseWorkshop, browseGame

  /** The largest page the backend's `u32` page number holds. */
  const MAX_PAGE := 4294967295

  /** What a browse call gives back: the thrown error, a cached page, or a request to the backend. */
  datatype Browse = OutOfBounds | Cached(data: string) | Requested

  /**
   * One paged browser's cache (`workshopCache` or `gameAddonsCache`, the
   * same code over two caches); `requests` logs the pages asked of the
   * backend.
   */
  class PageCache {
    var pages: map<int, string>
    var requests: seq<int>

    constructor()
      ensures pages == map[] && requests == []
    {
      pages := map[];
      requests := [];
    }

    /** `browseWorkshop` / `browseGame`: reject a page outside 1..2^32-1, else answer from the cache or ask. */
    method Browse(page: int) returns (r: Browse)
      modifies this
      ensures r == OutOfBounds <==> page <= 0 || page > MAX_PAGE
      ensures r.Cached? <==> 0 < page <= MAX_PAGE && page in pages
      ensures r.Cached? ==> r.data == pages[page]
      ensures requests == old(requests) + (if r == Requested then [page] else [])
      ensures pages == old(pages)
    {
      if page > MAX_PAGE || page <= 0 {
        return OutOfBounds;
      }
      if page in pages {
        r := Cached(pages[page]);
      } else {
        requests := requests + [page];
        r := Requested;
      }
    }

    /** The backend's answer for a page is cached. */
    method PageArrived(page: int, data: string)
      modifies this
      ensures pages == old(pages)[page := data] && requests == old(requests)
    {
      pages := pages[page := data];
    }

    /** `clearCache`. */
    method Clear()
      modifies this
      ensures pages == map[] && requests == old(requests)
    {
      pages := map[];
    }
  }

  // ------------------------------------------------------------ getGMAMetadata

  /** A queued request: the GMA's path and workshop id, and the promise its caller holds. */
  datatype Request = Request(path: string, id: Option<nat>, promise: nat)

  /** What the backend answers: the metadata, or an error. */
  datatype Reply = Metadata(metadata: string) | Failure(error: string)

  datatype Settlement = Fulfilled(value: Reply) | Rejected(value: Reply)

  /** What `getGMAMetadata` hands back: a promise still pending, or one already settled. */
  datatype Handle = Pending(promise: nat) | Settled(settlement: Settlement)

  /** The paths of the queued requests, in order. */
  function QueuedPaths(queue: seq<Request>): (r: seq<string>)
    ensures |r| == |queue| && forall i :: 0 <= i < |queue| ==> r[i] == queue[i].path
  {
    seq(|queue|, i requires 0 <= i < |queue| => queue[i].path)
  }

  /** A cached reply, as a settled promise: metadata fulfils it, an error rejects it. */
  function FromCache(reply: Reply): Settlement
  {
    if reply.Metadata? then Fulfilled(reply) else Rejected(reply)
  }

  /** Settling a promise a second time changes nothing. */
  function Settle(settled: map<nat, Settlement>, promise: nat, s: Settlement): map<nat, Settlement>
  {
    if promise in settled then settled else settled[promise := s]
  }

  /**
   * The metadata queue as `addons.js` writes it. Besides the source's
   * fields (`gmaMetadataCache`, `queue`, `waiting`), the model keeps what
   * the event loop holds: the promises' outcomes, the `gmaMetadata`
   * requests still unanswered, a log of every request made, and the number
   * of `setTimeout(checkGMAQueue)` calls still to fire.
   */
  class GmaMetadataQueue {
    var cache: map<string, Reply>
    var queue: seq<Request>
    var waiting: map<string, nat>
    var settled: map<nat, Settlement>
    var nextPromise: nat
    var inFlight: seq<Request>
    var invoked: seq<Request>
    var timers: nat

    constructor()
      ensures cache == map[] && queue == [] && waiting == map[] && settled == map[]
      ensures nextPromise == 0 && inFlight == [] && invoked == [] && timers == 0
    {
      cache := map[];
      queue := [];
      waiting := map[];
      settled := map[];
      nextPromise := 0;
      inFlight := [];
      invoked := [];
      timers := 0;
    }

    /**
     * Nothing can move the queue again: it is not empty, but no request is
     * unanswered and no timer is left to look at it.
     */
    predicate Stalled()
      reads this
    {
      queue != [] && inFlight == [] && timers == 0
    }

    /** A path whose caller waits, though no request for it is queued or unanswered. */
    predicate Forgotten(path: string)
      reads this
    {
      path in waiting && path !in cache &&
      path !in QueuedPaths(queue) && path !in QueuedPaths(inFlight)
    }

    /** `checkGMAQueue`: ask the backend for the head of the queue, if there is one. */
    method CheckGMAQueue()
      modifies this
      ensures queue != [] ==> inFlight == old(inFlight) + [queue[0]] && invoked == old(invoked) + [queue[0]]
      ensures queue == [] ==> inFlight == old(inFlight) && invoked == old(invoked)
      ensures cache == old(cache) && queue == old(queue) && waiting == old(waiting) && settled == old(settled)
      ensures nextPromise == old(nextPromise) && timers == old(timers)
    {
      if queue != [] {
        inFlight := inFlight + [queue[0]];
        invoked := invoked + [queue[0]];
      }
    }

    /**
     * `getGMAMetadata`: a cached reply comes back settled; a path already
     * waiting gets the same promise again; otherwise a new request is
     * queued, and the queue is looked at only if it was empty.
     */
    method GetGMAMetadata(path: string, id: Option<nat>) returns (h: Handle)
      modifies this
      ensures path in old(cache) ==> h == Settled(FromCache(old(cache)[path]))
      ensures path !in old(cache) ==> path in waiting && h == Pending(waiting[path])
      ensures path in old(cache) || path in old(waiting) ==>
        queue == old(queue) && waiting == old(waiting) && inFlight == old(inFlight) &&
        invoked == old(invoked) && nextPromise == old(nextPromise)
      ensures path !in old(cache) && path !in old(waiting) ==>
        var request := Request(path, id, old(nextPromise));
        queue == old(queue) + [request] && waiting == old(waiting)[path := request.promise] &&
        nextPromise == old(nextPromise) + 1 &&
        inFlight == old(inFlight) + (if old(queue) == [] then [request] else []) &&
        invoked == old(invoked) + (if old(queue) == [] then [request] else [])
      ensures cache == old(cache) && settled == old(settled) && timers == old(timers)
      ensures old(Stalled()) ==> Stalled() && invoked == old(invoked)
      ensures forall p :: old(Forgotten(p)) ==> Forgotten(p)
    {
      if path in cache {
        return Settled(FromCache(cache[path]));
      }
      if path !in waiting {
        var request := Request(path, id, nextPromise);
        nextPromise := nextPromise + 1;
        queue := queue + [request];
        if |queue| == 1 {
          CheckGMAQueue();
        }
        waiting := waiting[path := request.promise];
      }
      h := Pending(waiting[path]);
    }

    /**
     * The backend answers the `k`-th unanswered request. Metadata is
     * cached, the path stops waiting, the head of the queue is dropped and
     * a timer will look at the queue again. An error is cached too, but the
     * queue and `waiting` stay as they were, and the caller's promise is
     * fulfilled with the error rather than rejected.
     */
    method Answer(k: nat, reply: Reply)
      requires k < |inFlight|
      modifies this
      ensures var request := old(inFlight)[k];
        cache == old(cache)[request.path := reply] &&
        inFlight == old(inFlight)[..k] + old(inFlight)[k + 1..] &&
        settled == Settle(old(settled), request.promise, Fulfilled(reply)) &&
        (reply.Metadata? ==>
          waiting == old(waiting) - {request.path} &&
          queue == (if old(queue) == [] then [] else old(queue)[1..]) && timers == old(timers) + 1) &&
        (reply.Failure? ==> waiting == old(waiting) && queue == old(queue) && timers == old(timers))
      ensures invoked == old(invoked) && nextPromise == old(nextPromise)
      ensures forall p :: old(Forgotten(p)) ==> Forgotten(p)
    {
      var request := inFlight[k];
      inFlight := inFlight[..k] + inFlight[k + 1..];
      cache := cache[request.path := reply];
      if reply.Metadata? {
        waiting := waiting - {request.path};
        if queue != [] {
          queue := queue[1..];
        }
        timers := timers + 1;
      }
      settled := Settle(settled, request.promise, Fulfilled(reply));
    }

    /** A `setTimeout(checkGMAQueue)` fires. */
    method TimerFires()
      requires timers > 0
      modifies this
      ensures timers == old(timers) - 1
      ensures queue != [] ==> inFlight == old(inFlight) + [queue[0]] && invoked == old(invoked) + [queue[0]]
      ensures queue == [] ==> inFlight == old(inFlight) && invoked == old(invoked)
      ensures cache == old(cache) && queue == old(queue) && waiting == old(waiting) && settled == old(settled)
      ensures nextPromise == old(nextPromise)
      ensures forall p :: old(Forgotten(p)) ==> Forgotten(p)
    {
      timers := timers - 1;
      CheckGMAQueue();
    }
  }

  /**
   * One failed request stalls the queue for good: a second path is queued
   * behind the failed head and never asked for.
   */
  method ErrorStallsQueue() returns (q: GmaMetadataQueue, h: Handle)
    ensures q.Stalled() && h == Pending(1)
    ensures q.invoked == [Request("a", None, 0)]
    ensures q.settled == map[0 := Fulfilled(Failure("corrupt"))]
  {
    q := new GmaMetadataQueue();
    var first := q.GetGMAMetadata("a", None);
    q.Answer(0, Failure("corrupt"));
    h := q.GetGMAMetadata("b", None);
  }

  /**
   * A request queued between a success and the timer it sets is sent
   * twice: once because the queue was empty, once more when the timer fires.
   */
  method TimerSendsTwice() returns (q: GmaMetadataQueue)
    ensures q.queue == [Request("b", None, 1), Request("c", None, 2)]
    ensures q.inFlight == [Request("b", None, 1), Request("b", None, 1)]
    ensures q.invoked == [Request("a", None, 0), Request("b", None, 1), Request("b", None, 1)]
    ensures "c" in q.waiting && "c" !in q.cache
  {
    q := new GmaMetadataQueue();
    var a := q.GetGMAMetadata("a", None);
    q.Answer(0, Metadata("A"));
    var b := q.GetGMAMetadata("b", None);
    q.TimerFires();
    var c := q.GetGMAMetadata("c", None);
  }

  /** The two answers to that doubled request drop the one queued behind it, whose caller is then forgotten. */
  method DoubleAnswerForgets(q: GmaMetadataQueue)
    requires q.queue == [Request("b", None, 1), Request("c", None, 2)]
    requires q.inFlight == [Request("b", None, 1), Request("b", None, 1)]
    requires "c" in q.waiting && "c" !in q.cache
    modifies q
    ensures q.Forgotten("c") && q.queue == [] && q.inFlight == []
  {
    q.Answer(0, Metadata("B"));
    q.Answer(0, Metadata("B"));
  }

  /**
   * The queue as evidently intended: an error is a settled request like a
   * success (cached, no longer waiting, removed from the queue, its caller's
   * promise rejected), and `checkGMAQueue` sends nothing while the head is
   * still unanswered.
   */
  class FixedGmaMetadataQueue {
    var cache: map<string, Reply>
    var queue: seq<Request>
    var waiting: map<string, nat>
    var settled: map<nat, Settlement>
    var nextPromise: nat
    var inFlight: seq<Request>
    var invoked: seq<Request>
    var timers: nat

    /**
     * Every waiting path has exactly one queued request; at most the head
     * is unanswered, and when it is not, a timer is left to send it.
     */
    ghost predicate Valid()
      reads this
    {
      |inFlight| <= 1 &&
      (inFlight != [] ==> queue != [] && inFlight[0] == queue[0]) &&
      (queue != [] ==> inFlight != [] || timers > 0) &&
      (forall p :: p in waiting <==> p in QueuedPaths(queue)) &&
      (forall i, j :: 0 <= i < j < |queue| ==> queue[i].path != queue[j].path)
    }

    predicate Stalled()
      reads this
    {
      queue != [] && inFlight == [] && timers == 0
    }

    predicate Forgotten(path: string)
      reads this
    {
      path in waiting && path !in cache &&
      path !in QueuedPaths(queue) && path !in QueuedPaths(inFlight)
    }

    /** A valid queue can always move, and no caller is forgotten. */
    lemma NeverStuck()
      requires Valid()
      ensures !Stalled() && forall p :: !Forgotten(p)
    {
    }

    constructor()
      ensures Valid()
      ensures cache == map[] && queue == [] && waiting == map[] && settled == map[]
      ensures nextPromise == 0 && inFlight == [] && invoked == [] && timers == 0
    {
      cache := map[];
      queue := [];
      waiting := map[];
      settled := map[];
      nextPromise := 0;
      inFlight := [];
      invoked := [];
      timers := 0;
    }

    /** Ask for the head of the queue, unless it is already asked for. */
    method CheckGMAQueue()
      modifies this
      ensures queue != [] && old(inFlight) == [] ==> inFlight == [queue[0]] && invoked == old(invoked) + [queue[0]]
      ensures queue == [] || old(inFlight) != [] ==> inFlight == old(inFlight) && invoked == old(invoked)
      ensures cache == old(cache) && queue == old(queue) && waiting == old(waiting) && settled == old(settled)
      ensures nextPromise == old(nextPromise) && timers == old(timers)
    {
      if queue != [] && inFlight == [] {
        inFlight := [queue[0]];
        invoked := invoked + [queue[0]];
      }
    }

    method GetGMAMetadata(path: string, id: Option<nat>) returns (h: Handle)
      requires Valid()
      modifies this
      ensures Valid()
      ensures path in old(cache) ==> h == Settled(FromCache(old(cache)[path]))
      ensures path !in old(cache) ==> path in waiting && h == Pending(waiting[path])
      ensures path in old(cache) || path in old(waiting) ==>
        queue == old(queue) && waiting == old(waiting) && inFlight == old(inFlight) &&
        invoked == old(invoked) && nextPromise == old(nextPromise)
      ensures path !in old(cache) && path !in old(waiting) ==>
        var request := Request(path, id, old(nextPromise));
        queue == old(queue) + [request] && waiting == old(waiting)[path := request.promise] &&
        nextPromise == old(nextPromise) + 1 &&
        inFlight == old(inFlight) + (if old(queue) == [] then [request] else []) &&
        invoked == old(invoked) + (if old(queue) == [] then [request] else [])
      ensures cache == old(cache) && settled == old(settled) && timers == old(timers)
    {
      if path in cache {
        return Settled(FromCache(cache[path]));
      }
      if path !in waiting {
        var request := Request(path, id, nextPromise);
        nextPromise := nextPromise + 1;
        assert QueuedPaths(queue + [request]) == QueuedPaths(queue) + [path];
        assert forall i :: 0 <= i < |queue| ==> queue[i].path != path by {
          forall i | 0 <= i < |queue| ensures queue[i].path != path {
            assert QueuedPaths(queue)[i] == queue[i].path;
          }
        }
        queue := queue + [request];
        if |queue| == 1 {
          CheckGMAQueue();
        }
        waiting := waiting[path := request.promise];
      }
      h := Pending(waiting[path]);
    }

    /** The backend answers the head: either way it is cached, settled and dropped, and a timer will send the next. */
    method Answer(reply: Reply)
      requires Valid() && inFlight != []
      modifies this
      ensures Valid()
      ensures var request := old(queue)[0];
        cache == old(cache)[request.path := reply] &&
        settled == Settle(old(settled), request.promise, FromCache(reply)) &&
        waiting == old(waiting) - {request.path} &&
        queue == old(queue)[1..] && inFlight == [] && timers == old(timers) + 1
      ensures invoked == old(invoked) && nextPromise == old(nextPromise)
    {
      var request := inFlight[0];
      assert QueuedPaths(queue) == [request.path] + QueuedPaths(queue[1..]);
      assert request.path !in QueuedPaths(queue[1..]) by {
        forall i | 0 <= i < |queue| - 1 ensures queue[1..][i].path != request.path {
          assert queue[i + 1].path != queue[0].path;
        }
      }
      inFlight := [];
      cache := cache[request.path := reply];
      waiting := waiting - {request.path};
      queue := queue[1..];
      timers := timers + 1;
      settled := Settle(settled, request.promise, FromCache(reply));
    }

    method TimerFires()
      requires Valid() && timers > 0
      modifies this
      ensures Valid()
      ensures timers == old(timers) - 1
      ensures queue != [] && old(inFlight) == [] ==> inFlight == [queue[0]] && invoked == old(invoked) + [queue[0]]
      ensures queue == [] || old(inFlight) != [] ==> inFlight == old(inFlight) && invoked == old(invoked)
      ensures cache == old(cache) && queue == old(queue) && waiting == old(waiting) && settled == old(settled)
      ensures nextPromise == old(nextPromise)
    {
      timers := timers - 1;
      CheckGMAQueue();
    }
  }
}
