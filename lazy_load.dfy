/**
 The lazy-load scheduler shared, word for word, by the portrait, cinematic and
 srt gallery pages.

 A gallery item is identified by its position in `allImages` (in the page it is
 a DOM node; the model needs only its identity and the `src` and `alt` it was
 built from). Items are created in index order, pushed onto the FIFO
 `lazyQueue`, and dispatched from its front while fewer than
 MAX_CONCURRENT_LOADS fetches are in flight. Fetch completions and viewport
 intersections are event methods supplied by the caller: the browser runs
 each callback to completion, so no two methods interleave.
 */
module LazyLoad {

  const INITIAL_LOAD_SIZE: nat := 30
  const MAX_CONCURRENT_LOADS: nat := 6

  /** One record of images.json. */
  datatype Image = Image(src: string, alt: string)

  /** A gallery item waiting for (or holding) its real image. */
  datatype Item = Item(index: nat, src: string, alt: string)

  /** One IntersectionObserver entry: which item, and whether it now
      intersects the viewport. */
  datatype ObserverEntry = ObserverEntry(target: nat, isIntersecting: bool)

  /** The items whose loadTriggered flag is set after the observer rule has
      run for the first n entries of a batch, starting from `triggered`: an
      intersecting entry sets its item's flag, and nothing clears one. */
  function TriggeredAfter(triggered: set<nat>, entries: seq<ObserverEntry>, n: nat): set<nat>
    requires n <= |entries|
  {
    if n == 0 then triggered
    else TriggeredAfter(triggered, entries, n - 1) + if entries[n - 1].isIntersecting then {entries[n - 1].target} else {}
  }

  /** An item is triggered after the first n entries exactly when it was
      triggered before or one of those entries reports it as intersecting. */
  lemma {:induction false} TriggeredAfterMeans(triggered: set<nat>, entries: seq<ObserverEntry>, n: nat, t: nat)
    requires n <= |entries|
    ensures t in TriggeredAfter(triggered, entries, n) <==>
            t in triggered || exists i :: 0 <= i < n && entries[i].isIntersecting && entries[i].target == t
  {
    if n > 0 {
      TriggeredAfterMeans(triggered, entries, n - 1, t);
    }
  }

  /** The position of the last of the first n entries that names item t, or
      -1 when none does. */
  function LastEntryFor(entries: seq<ObserverEntry>, n: nat, t: nat): (k: int)
    requires n <= |entries|
    ensures -1 <= k < n
  {
    if n == 0 then -1
    else if entries[n - 1].target == t then n - 1
    else LastEntryFor(entries, n - 1, t)
  }

  /** LastEntryFor finds the last entry for t: it names t, no later one of the
      first n entries does, and -1 means none of them names t. */
  lemma {:induction false} LastEntryForMeans(entries: seq<ObserverEntry>, n: nat, t: nat)
    requires n <= |entries|
    ensures var k := LastEntryFor(entries, n, t);
      (k >= 0 ==> entries[k].target == t) && forall j :: k < j < n ==> entries[j].target != t
  {
    if n > 0 && entries[n - 1].target != t {
      LastEntryForMeans(entries, n - 1, t);
    }
  }

  /** The visible items after the observer rule has run for the first n
      entries in order, starting from `shown`. */
  function VisibleAfter(shown: set<nat>, entries: seq<ObserverEntry>, n: nat): set<nat>
    requires n <= |entries|
  {
    if n == 0 then shown
    else
      var e := entries[n - 1];
      var before := VisibleAfter(shown, entries, n - 1);
      if e.isIntersecting then before + {e.target} else before - {e.target}
  }

  /** `visible` tracks each item's latest intersection state: an item is
      visible afterwards exactly when the last entry for it intersects, or,
      when no entry names it, when it was visible before. */
  lemma {:induction false} VisibleAfterMeans(shown: set<nat>, entries: seq<ObserverEntry>, n: nat, t: nat)
    requires n <= |entries|
    ensures var k := LastEntryFor(entries, n, t);
      t in VisibleAfter(shown, entries, n) <==> if k >= 0 then entries[k].isIntersecting else t in shown
  {
    if n > 0 {
      VisibleAfterMeans(shown, entries, n - 1, t);
    }
  }

  function Min(a: int, b: int): int { if a <= b then a else b }
  function Max(a: int, b: int): int { if a <= b then b else a }

  /** How many queued items one run of the dispatch loop starts when
      `active` fetches are in flight and `queued` items wait: it stops exactly
      when the queue is empty or the window is full. */
  function DispatchCount(active: nat, queued: nat): (k: nat)
    requires active <= MAX_CONCURRENT_LOADS
    ensures k <= queued && active + k <= MAX_CONCURRENT_LOADS
    ensures k == queued || active + k == MAX_CONCURRENT_LOADS
  {
    if queued <= MAX_CONCURRENT_LOADS - active then queued else MAX_CONCURRENT_LOADS - active
  }

  /** The items createAndPrepareItems builds for `batch`, whose first image
      sits at index `first` of allImages: one per image, in batch order. */
  function Build(first: nat, batch: seq<Image>): (r: seq<Item>)
    ensures |r| == |batch|
  {
    if batch == [] then []
    else
      var last := batch[|batch| - 1];
      Build(first, batch[..|batch| - 1]) + [Item(first + |batch| - 1, last.src, last.alt)]
  }

  /** Item k of a built batch comes from image k of the batch. */
  lemma {:induction false} BuildAt(first: nat, batch: seq<Image>, k: nat)
    requires k < |batch|
    ensures Build(first, batch)[k] == Item(first + k, batch[k].src, batch[k].alt)
    decreases |batch|
  {
    if k < |batch| - 1 {
      BuildAt(first, batch[..|batch| - 1], k);
    }
  }

  /** A set of naturals below n has at most n elements. */
  lemma {:induction false} BoundedCard(s: set<nat>, n: nat)
    requires forall i :: i in s ==> i < n
    ensures |s| <= n
  {
    if n > 0 {
      BoundedCard(s - {n - 1}, n - 1);
    } else {
      assert s == {};
    }
  }

  /** ... and fewer than n when one of them is missing. */
  lemma MissingBelowCard(s: set<nat>, n: nat, i: nat)
    requires forall j :: j in s ==> j < n
    requires i < n && i !in s
    ensures |s| < n
  {
    BoundedCard(s + {i}, n);
  }

  class Gallery {
    const allImages: seq<Image>
    var lazyQueue: seq<Item>
    var activeLoads: nat
    var nextImageIndexToLoad: nat
    /** Items whose element carries the `visible` class. */
    var visible: set<nat>
    /** Items whose `dataset.loadTriggered` is set. */
    var loadTriggered: set<nat>
    /** Items whose placeholder was replaced by the fetched image (onload). */
    var loaded: set<nat>

    /** Every item ever pushed onto lazyQueue, in push order. */
    ghost var pushed: seq<Item>
    /** Every item ever shifted off lazyQueue, in dispatch order. */
    ghost var dispatched: seq<Item>
    /** Dispatch positions whose fetch has loaded or failed. */
    ghost var finished: set<nat>
    /** Number of loadNextImage calls so far. */
    ghost var loadNextCalls: nat

    /** The item the page builds for allImages[i]. */
    function ItemAt(i: nat): Item
      requires i < |allImages|
    {
      Item(i, allImages[i].src, allImages[i].alt)
    }

    /** The fetch window: the counter stays within the cap, and the queue is
        what was pushed but not yet dispatched (so dispatch order is push
        order). */
    ghost predicate WindowValid()
      reads this`activeLoads, this`pushed, this`dispatched, this`lazyQueue
    {
      && activeLoads <= MAX_CONCURRENT_LOADS
      && pushed == dispatched + lazyQueue
    }

    /** The fetch of `item` has started and not yet finished. */
    ghost predicate InFlight(item: Item)
      reads this`dispatched, this`finished
    {
      item.index < |dispatched| && dispatched[item.index] == item && item.index !in finished
    }

    /** The counter is the number of fetches in flight: only dispatched
        fetches finish, and each finish ends one of them. */
    ghost predicate InFlightValid()
      reads this`activeLoads, this`dispatched, this`finished
    {
      && (forall i :: i in finished ==> i < |dispatched|)
      && activeLoads + |finished| == |dispatched|
    }

    /** Between events the dispatch loop has run: nothing waits while a slot is free. */
    ghost predicate Settled()
      reads this`lazyQueue, this`activeLoads
    {
      lazyQueue == [] || activeLoads == MAX_CONCURRENT_LOADS
    }

    /** The number of created items is the initial batch plus one more image
        per loadNextImage call, until allImages runs out; the cursor points
        just past the last created item (never below 30). */
    ghost predicate ItemsValid()
      reads this`pushed, this`loadNextCalls, this`nextImageIndexToLoad
    {
      CountsAgree(|allImages|, |pushed|, loadNextCalls, nextImageIndexToLoad)
    }

    // Each instance predicate here is a thin wrapper over a static predicate
    // on plain values: lemmas and loop steps then reason about values rather
    // than heap reads, which keeps the proofs of the event methods small.
    static ghost predicate CountsAgree(images: nat, created: nat, calls: nat, cursor: nat)
    {
      && created == Min(INITIAL_LOAD_SIZE + calls, images)
      && cursor == Max(INITIAL_LOAD_SIZE, created)
    }

    /** One loadNextImage call: below the end the cursor is the number of
        created items and one more is created; at or past the end every image
        already has its item and nothing moves. */
    static lemma CountsStep(images: nat, created: nat, calls: nat, cursor: nat)
      requires CountsAgree(images, created, calls, cursor)
      ensures created <= images
      ensures cursor < images ==> cursor == created && CountsAgree(images, created + 1, calls + 1, cursor + 1)
      ensures cursor >= images ==> created == images && CountsAgree(images, created, calls + 1, cursor)
    {
    }

    /** The cursor starts at 30 and never passes the larger of 30 and the
        number of images; with at most 30 images the initial batch holds them
        all, so every loadNextImage call is a no-op. */
    lemma CursorBound()
      requires ItemsValid()
      ensures |pushed| <= |allImages|
      ensures INITIAL_LOAD_SIZE <= nextImageIndexToLoad <= Max(INITIAL_LOAD_SIZE, |allImages|)
      ensures |allImages| <= INITIAL_LOAD_SIZE ==> nextImageIndexToLoad >= |allImages| && |pushed| == |allImages|
    {
    }

    /** Items are created in index order, once each: item k is built from
        allImages[k]. Only the methods that create items touch `pushed`, so
        the events that do not create items keep this by their frames. */
    ghost predicate CreatedInOrder()
      reads this`pushed
    {
      && |pushed| <= |allImages|
      && forall k :: 0 <= k < |pushed| ==> pushed[k] == ItemAt(k)
    }

    /** Observer flags concern created items only, and every loadNextImage
        call was triggered by a distinct item. */
    ghost predicate ObserverValid()
      reads this`loadNextCalls, this`loadTriggered, this`visible, this`pushed
    {
      FlagsAgree(loadNextCalls, loadTriggered, visible, |pushed|)
    }

    static ghost predicate FlagsAgree(calls: nat, triggered: set<nat>, shown: set<nat>, created: nat)
    {
      && calls == |triggered|
      && (forall i :: i in triggered ==> i < created)
      && (forall i :: i in shown ==> i < created)
    }

    /** One observer entry for a created item: the flags keep concerning
        created items, and a first trigger pairs with one more call. */
    static lemma FlagsStep(calls: nat, triggered: set<nat>, shown: set<nat>, created: nat,
                           target: nat, isIntersecting: bool, created1: nat)
      requires FlagsAgree(calls, triggered, shown, created)
      requires target < created <= created1
      ensures var shown1 := if isIntersecting then shown + {target} else shown - {target};
              var first := isIntersecting && target !in triggered;
              var triggered1 := if isIntersecting then triggered + {target} else triggered;
              FlagsAgree(if first then calls + 1 else calls, triggered1, shown1, created1)
    {
      if isIntersecting && target in triggered {
        assert triggered + {target} == triggered;
      }
    }

    ghost predicate Valid()
      reads this
    {
      WindowValid() && InFlightValid() && Settled() && ItemsValid() && ObserverValid()
    }

    /** The scheduler fields equal the given values. */
    ghost predicate SchedulerIs(c: nat, p: seq<Item>, q: seq<Item>, a: nat, d: seq<Item>)
      reads this`nextImageIndexToLoad, this`pushed, this`lazyQueue, this`activeLoads, this`dispatched
    {
      nextImageIndexToLoad == c && pushed == p && lazyQueue == q && activeLoads == a && dispatched == d
    }

    /** The window after one run of the dispatch loop that started with queue
        q0, counter a0 and dispatch history d0: the first DispatchCount(a0, |q0|)
        items of q0 left the queue front, in order, and each started one
        fetch. */
    ghost predicate Refilled(q0: seq<Item>, a0: nat, d0: seq<Item>)
      requires a0 <= MAX_CONCURRENT_LOADS
      reads this`lazyQueue, this`dispatched, this`activeLoads
    {
      Refill(q0, a0, d0, lazyQueue, activeLoads, dispatched)
    }

    static ghost predicate Refill(q0: seq<Item>, a0: nat, d0: seq<Item>, q: seq<Item>, a: nat, d: seq<Item>)
      requires a0 <= MAX_CONCURRENT_LOADS
    {
      var k := DispatchCount(a0, |q0|);
      q == q0[k..] && d == d0 + q0[..k] && a == a0 + k
    }

    /** The effect of one loadNextImage call from cursor c0: past the end of
        allImages nothing happens; otherwise exactly allImages[c0] is pushed,
        the window is refilled and the cursor moves on by one. */
    ghost predicate AppendedNext(c0: nat, p0: seq<Item>, q0: seq<Item>, a0: nat, d0: seq<Item>)
      requires a0 <= MAX_CONCURRENT_LOADS
      reads this`nextImageIndexToLoad, this`pushed, this`lazyQueue, this`activeLoads, this`dispatched
    {
      Append(allImages, c0, p0, q0, a0, d0, nextImageIndexToLoad, pushed, lazyQueue, activeLoads, dispatched)
    }

    static ghost predicate Append(images: seq<Image>, c0: nat, p0: seq<Item>, q0: seq<Item>, a0: nat, d0: seq<Item>,
                                  c: nat, p: seq<Item>, q: seq<Item>, a: nat, d: seq<Item>)
      requires a0 <= MAX_CONCURRENT_LOADS
    {
      if c0 < |images| then
        var item := Item(c0, images[c0].src, images[c0].alt);
        c == c0 + 1 && p == p0 + [item] && Refill(q0 + [item], a0, d0, q, a, d)
      else
        c == c0 && p == p0 && q == q0 && a == a0 && d == d0
    }

    /** The page once images.json has arrived: the initial batch is created
        and the first fetches are started. */
    constructor (images: seq<Image>)
      ensures Valid() && CreatedInOrder()
      ensures allImages == images
      ensures pushed == Build(0, images[..Min(INITIAL_LOAD_SIZE, |images|)])
      ensures Refilled(pushed, 0, [])
      ensures finished == {}
      ensures nextImageIndexToLoad == INITIAL_LOAD_SIZE
      ensures visible == {} && loadTriggered == {} && loaded == {}
    {
      allImages := images;
      lazyQueue := [];
      activeLoads := 0;
      nextImageIndexToLoad := INITIAL_LOAD_SIZE;
      visible, loadTriggered, loaded := {}, {}, {};
      pushed, dispatched, finished, loadNextCalls := [], [], {}, 0;
      new;
      LoadInitialBatch();
    }

    /** Nothing created, queued or fetched yet. */
    ghost predicate Unstarted()
      reads this
    {
      && SchedulerIs(INITIAL_LOAD_SIZE, [], [], 0, [])
      && finished == {} && loadNextCalls == 0 && visible == {} && loadTriggered == {}
    }

    /** Creates the items for allImages[0..30] (fewer if there are fewer
        images), queues them in order and starts the first fetches. */
    method LoadInitialBatch()
      requires Unstarted()
      modifies this`lazyQueue, this`pushed, this`activeLoads, this`dispatched
      ensures Valid() && CreatedInOrder()
      ensures pushed == Build(0, allImages[..Min(INITIAL_LOAD_SIZE, |allImages|)])
      ensures Refilled(pushed, 0, [])
    {
      var initialBatch := allImages[..Min(INITIAL_LOAD_SIZE, |allImages|)];
      CreateAndPrepareItems(0, initialBatch);
      forall k | 0 <= k < |pushed|
        ensures pushed[k] == ItemAt(k)
      {
        BuildAt(0, initialBatch, k);
      }
      ProcessLazyQueue();
    }

    /** Builds one item per image of `batch` (the first being allImages[first])
        and pushes each onto the back of lazyQueue, in order. */
    method CreateAndPrepareItems(first: nat, batch: seq<Image>)
      modifies this`lazyQueue, this`pushed
      ensures lazyQueue == old(lazyQueue) + Build(first, batch)
      ensures pushed == old(pushed) + Build(first, batch)
    {
      var i := 0;
      while i < |batch|
        invariant i <= |batch|
        invariant lazyQueue == old(lazyQueue) + Build(first, batch[..i])
        invariant pushed == old(pushed) + Build(first, batch[..i])
      {
        var item := Item(first + i, batch[i].src, batch[i].alt);
        assert batch[..i + 1][..i] == batch[..i];
        lazyQueue := lazyQueue + [item];
        pushed := pushed + [item];
        i := i + 1;
      }
      assert batch[..i] == batch;
    }

    /** The dispatch loop: while a slot is free and an item waits, take the
        queue front and start its fetch. */
    method ProcessLazyQueue()
      requires WindowValid() && InFlightValid()
      modifies this`lazyQueue, this`activeLoads, this`dispatched
      ensures WindowValid() && InFlightValid() && Settled()
      ensures Refilled(old(lazyQueue), old(activeLoads), old(dispatched))
    {
      ghost var q0, d0 := lazyQueue, dispatched;
      ghost var taken: nat := 0;
      assert q0[..0] == [] && q0[0..] == q0;
      while activeLoads < MAX_CONCURRENT_LOADS && |lazyQueue| > 0
        invariant taken <= |q0|
        invariant lazyQueue == q0[taken..]
        invariant dispatched == d0 + q0[..taken]
        invariant activeLoads == old(activeLoads) + taken <= MAX_CONCURRENT_LOADS
        decreases |lazyQueue|
      {
        activeLoads := activeLoads + 1;
        var item := lazyQueue[0];
        lazyQueue := lazyQueue[1..];
        // new Image() with src = item.src: the fetch starts; its completion
        // arrives later as OnLoad(item) or OnError(item).
        assert q0[..taken + 1] == q0[..taken] + [item];
        dispatched := dispatched + [item];
        taken := taken + 1;
      }
      assert q0 == q0[..taken] + q0[taken..];
    }

    /** The part of onload and onerror that concerns the scheduler: one fetch
        fewer in flight, then the dispatch loop again. */
    method Finish(item: Item)
      requires Valid()
      requires InFlight(item)
      modifies this`lazyQueue, this`activeLoads, this`dispatched, this`finished
      ensures Valid()
      ensures old(activeLoads) >= 1
      ensures finished == old(finished) + {item.index}
      ensures Refilled(old(lazyQueue), old(activeLoads) - 1, old(dispatched))
    {
      MissingBelowCard(finished, |dispatched|, item.index);
      activeLoads := activeLoads - 1;
      finished := finished + {item.index};
      ProcessLazyQueue();
    }

    /** The fetch of `item` succeeded: its placeholder is replaced. */
    method OnLoad(item: Item)
      requires Valid()
      requires InFlight(item)
      modifies this`lazyQueue, this`activeLoads, this`dispatched, this`finished, this`loaded
      ensures Valid()
      ensures loaded == old(loaded) + {item.index}
      ensures finished == old(finished) + {item.index}
      ensures Refilled(old(lazyQueue), old(activeLoads) - 1, old(dispatched))
    {
      loaded := loaded + {item.index};
      Finish(item);
    }

    /** The fetch of `item` failed: same scheduler effect as OnLoad, and the
        placeholder stays. */
    method OnError(item: Item)
      requires Valid()
      requires InFlight(item)
      modifies this`lazyQueue, this`activeLoads, this`dispatched, this`finished
      ensures Valid()
      ensures finished == old(finished) + {item.index}
      ensures Refilled(old(lazyQueue), old(activeLoads) - 1, old(dispatched))
    {
      Finish(item);
    }

    /** Appends the image at the cursor to the gallery, if any is left. */
    method LoadNextImage()
      requires WindowValid() && InFlightValid() && Settled() && ItemsValid() && CreatedInOrder()
      modifies this`lazyQueue, this`pushed, this`activeLoads, this`dispatched,
               this`nextImageIndexToLoad, this`loadNextCalls
      ensures WindowValid() && InFlightValid() && Settled() && ItemsValid() && CreatedInOrder()
      ensures loadNextCalls == old(loadNextCalls) + 1
      ensures AppendedNext(old(nextImageIndexToLoad), old(pushed), old(lazyQueue), old(activeLoads),
                           old(dispatched))
    {
      ghost var created0, calls0, cursor0 := |pushed|, loadNextCalls, nextImageIndexToLoad;
      CountsStep(|allImages|, created0, calls0, cursor0);
      loadNextCalls := loadNextCalls + 1;
      if nextImageIndexToLoad >= |allImages| {
        return;
      }
      var nextImageBatch := allImages[nextImageIndexToLoad..nextImageIndexToLoad + 1];
      if |nextImageBatch| > 0 {
        ghost var item := ItemAt(nextImageIndexToLoad);
        assert nextImageBatch == [allImages[nextImageIndexToLoad]] && nextImageBatch[..0] == [];
        assert Build(nextImageIndexToLoad, nextImageBatch) == [item];
        ghost var p0 := pushed;
        CreateAndPrepareItems(nextImageIndexToLoad, nextImageBatch);
        assert lazyQueue == old(lazyQueue) + [item] && pushed == p0 + [item];
        assert pushed == dispatched + lazyQueue;
        forall k | 0 <= k < |pushed|
          ensures pushed[k] == ItemAt(k)
        {
          if k < |p0| {
            assert pushed[k] == p0[k];
          }
        }
        ProcessLazyQueue();
        assert Refilled(old(lazyQueue) + [item], old(activeLoads), old(dispatched));
        nextImageIndexToLoad := nextImageIndexToLoad + 1;
      }
    }

    /** The observer rule for one entry: an intersecting item becomes visible
        and, the first time only, appends the next image; an item leaving the
        viewport loses `visible` and triggers nothing. */
    method OnIntersect(target: nat, isIntersecting: bool)
      requires Valid() && CreatedInOrder()
      requires target < |pushed|
      modifies this`lazyQueue, this`pushed, this`activeLoads, this`dispatched,
               this`nextImageIndexToLoad, this`loadNextCalls, this`visible, this`loadTriggered
      ensures Valid() && CreatedInOrder()
      ensures |old(pushed)| <= |pushed|
      ensures visible == if isIntersecting then old(visible) + {target} else old(visible) - {target}
      ensures loadTriggered == if isIntersecting then old(loadTriggered) + {target} else old(loadTriggered)
      ensures isIntersecting && target !in old(loadTriggered) ==>
                AppendedNext(old(nextImageIndexToLoad), old(pushed), old(lazyQueue), old(activeLoads),
                             old(dispatched))
      ensures !(isIntersecting && target !in old(loadTriggered)) ==>
                SchedulerIs(old(nextImageIndexToLoad), old(pushed), old(lazyQueue), old(activeLoads),
                            old(dispatched))
    {
      ghost var calls0, triggered0, shown0, created0 := loadNextCalls, loadTriggered, visible, |pushed|;
      if isIntersecting {
        visible := visible + {target};
        if target !in loadTriggered {
          LoadNextImage();
          loadTriggered := loadTriggered + {target};
        }
      } else {
        visible := visible - {target};
      }
      FlagsStep(calls0, triggered0, shown0, created0, target, isIntersecting, |pushed|);
    }

    /** The observer callback: the rule for each entry, in order. */
    method ObserverCallback(entries: seq<ObserverEntry>)
      requires Valid() && CreatedInOrder()
      requires forall e :: e in entries ==> e.target < |pushed|
      modifies this`lazyQueue, this`pushed, this`activeLoads, this`dispatched,
               this`nextImageIndexToLoad, this`loadNextCalls, this`visible, this`loadTriggered
      ensures Valid() && CreatedInOrder()
      ensures loadTriggered == TriggeredAfter(old(loadTriggered), entries, |entries|)
      ensures visible == VisibleAfter(old(visible), entries, |entries|)
      ensures |old(pushed)| <= |pushed|
    {
      var i := 0;
      while i < |entries|
        invariant i <= |entries|
        invariant Valid() && CreatedInOrder()
        invariant |old(pushed)| <= |pushed|
        invariant loadTriggered == TriggeredAfter(old(loadTriggered), entries, i)
        invariant visible == VisibleAfter(old(visible), entries, i)
      {
        var entry := entries[i];
        assert entry in entries;
        OnIntersect(entry.target, entry.isIntersecting);
        i := i + 1;
      }
    }

    /** Dispatch order is push order and nothing is dispatched twice: the
        dispatched items are exactly the first ones created, one per index. */
    lemma DispatchedInOrder()
      requires Valid() && CreatedInOrder()
      ensures dispatched == pushed[..|dispatched|]
      ensures forall k :: 0 <= k < |dispatched| ==> dispatched[k].index == k
      ensures forall i, j :: 0 <= i < j < |dispatched| ==> dispatched[i] != dispatched[j]
    {
      assert pushed[..|dispatched|] == dispatched;
      forall k | 0 <= k < |dispatched|
        ensures dispatched[k].index == k
      {
        assert dispatched[k] == pushed[k];
      }
    }
  }
}
