/**
 * The hand-off between the uploader and `clip_worker` (finalhistoryapp.py):
 * two `Queue(maxsize=1)` slots and the worker loop, run one step at a time.
 *
 * A blocking `get` on an empty slot, and the worker's blocking `put` into a
 * full outbound slot, are steps that make no progress; the worker keeps the
 * detection it could not publish and offers it again on its next step.
 */
module FramePipeline {
  import opened Wrappers
  import opened Landmarks

  /** An uploaded image, as handed to the worker. */
  datatype Frame = Frame(pixels: seq<int>)

  /** What travels through the inbound slot: an image, or the `None` stop sentinel. */
  datatype Item = Image(frame: Frame) | Stop

  /** A `Queue(maxsize=1)`: it holds at most one item. */
  class Slot<T> {
    var item: Option<T>

    constructor ()
      ensures item == None
    {
      item := None;
    }

    /**
     * `put_nowait`: stores `x` if the slot is empty; when it is full the
     * slot is left as it was and `x` is dropped.
     */
    method Offer(x: T) returns (accepted: bool)
      modifies this
      ensures accepted <==> old(item).None?
      ensures item == if accepted then Some(x) else old(item)
    {
      accepted := item.None?;
      if accepted {
        item := Some(x);
      }
    }

    /** `get`: removes and returns the item; `None` when there is nothing to take. */
    method Poll() returns (x: Option<T>)
      modifies this
      ensures x == old(item) && item == None
    {
      x := item;
      item := None;
    }
  }

  /**
   * Lines 88-91: the uploader offers a frame and swallows the `Full` error,
   * so a frame offered to an occupied slot is silently dropped.
   */
  method Submit(inbox: Slot<Item>, frame: Frame)
    modifies inbox
    ensures inbox.item == if old(inbox.item).None? then Some(Image(frame)) else old(inbox.item)
  {
    var _ := inbox.Offer(Image(frame));
  }

  /**
   * What the worker publishes, in order, for the items it takes: one
   * detection per image, nothing for the stop sentinel and nothing after it.
   */
  function Publications(names: seq<string>, scorer: Frame -> Option<seq<real>>, items: seq<Item>): seq<Detection>
  {
    if items == [] then []
    else match items[0]
      case Stop => []
      case Image(f) => [Classify(names, scorer(f))] + Publications(names, scorer, items[1..])
  }

  /**
   * Before the stop sentinel every image yields exactly one publication, the
   * k-th being the classification of the k-th image.
   */
  lemma {:induction false} PublicationsPerImage(names: seq<string>, scorer: Frame -> Option<seq<real>>, items: seq<Item>)
    requires Stop !in items
    ensures |Publications(names, scorer, items)| == |items|
    ensures forall k :: 0 <= k < |items| ==>
      Publications(names, scorer, items)[k] == Classify(names, scorer(items[k].frame))
  {
    if items != [] {
      assert forall k :: 0 <= k < |items| - 1 ==> items[1..][k] == items[k + 1];
      PublicationsPerImage(names, scorer, items[1..]);
    }
  }

  /** Nothing taken after the stop sentinel is ever published. */
  lemma {:induction false} PublicationsStopAtSentinel(names: seq<string>, scorer: Frame -> Option<seq<real>>,
                                                      before: seq<Item>, after: seq<Item>)
    ensures Publications(names, scorer, before + [Stop] + after) == Publications(names, scorer, before + [Stop])
    ensures Publications(names, scorer, before + [Stop]) == Publications(names, scorer, before)
  {
    if before != [] {
      assert (before + [Stop] + after)[1..] == before[1..] + [Stop] + after;
      assert (before + [Stop])[1..] == before[1..] + [Stop];
      PublicationsStopAtSentinel(names, scorer, before[1..], after);
    }
  }

  lemma {:induction false} PublicationsAppend(names: seq<string>, scorer: Frame -> Option<seq<real>>,
                                              items: seq<Item>, f: Frame)
    requires Stop !in items
    ensures Publications(names, scorer, items + [Image(f)])
      == Publications(names, scorer, items) + [Classify(names, scorer(f))]
  {
    if items != [] {
      assert (items + [Image(f)])[1..] == items[1..] + [Image(f)];
      PublicationsAppend(names, scorer, items[1..], f);
    }
  }

  /** Where the worker is in its `while True` loop. */
  datatype Phase =
    | Waiting                          // blocked in `in_q.get()`
    | Publishing(pending: Detection)   // blocked in `out_q.put(...)` with a result
    | Stopped                          // left the loop on the sentinel

  function Pending(phase: Phase): seq<Detection> {
    if phase.Publishing? then [phase.pending] else []
  }

  /** `clip_worker`: takes items from `inbox`, publishes detections to `outbox`. */
  class Worker {
    const names: seq<string>
    const scorer: Frame -> Option<seq<real>>
    const inbox: Slot<Item>
    const outbox: Slot<Detection>
    var phase: Phase
    /** Every item taken from the inbound slot, in order. */
    ghost var taken: seq<Item>
    /** Every detection put into the outbound slot, in order. */
    ghost var published: seq<Detection>

    /**
     * The worker has published, or holds ready to publish, exactly one
     * detection per image taken; it has stopped exactly when it took the
     * sentinel, and took nothing after it.
     */
    ghost predicate Valid()
      reads this
    {
      && (phase.Stopped? ==> |taken| > 0 && taken[|taken| - 1] == Stop)
      && Stop !in taken[..|taken| - (if phase.Stopped? then 1 else 0)]
      && Publications(names, scorer, taken) == published + Pending(phase)
    }

    constructor (names: seq<string>, scorer: Frame -> Option<seq<real>>, inbox: Slot<Item>, outbox: Slot<Detection>)
      ensures Valid()
      ensures this.names == names && this.scorer == scorer && this.inbox == inbox && this.outbox == outbox
      ensures phase == Waiting && taken == [] && published == []
    {
      this.names, this.scorer, this.inbox, this.outbox := names, scorer, inbox, outbox;
      phase := Waiting;
      taken, published := [], [];
    }

    /**
     * One turn of the loop. A stopped worker does nothing. A waiting worker
     * with an empty inbound slot stays blocked. On the sentinel it stops and
     * publishes nothing. On an image it classifies it, publishing the result
     * (`NoDetection` when scoring failed, after which it keeps looping) if the
     * outbound slot is free and otherwise holding it. A worker holding a
     * result publishes it once the outbound slot is free.
     */
    method Step() returns (progressed: bool)
      requires Valid()
      modifies this, inbox, outbox
      ensures Valid()
      ensures old(phase).Stopped? ==>
        !progressed && phase == Stopped && taken == old(taken) && published == old(published)
        && inbox.item == old(inbox.item) && outbox.item == old(outbox.item)
      ensures old(phase).Waiting? && old(inbox.item).None? ==>
        !progressed && phase == Waiting && taken == old(taken) && published == old(published)
        && inbox.item == None && outbox.item == old(outbox.item)
      ensures old(phase).Waiting? && old(inbox.item) == Some(Stop) ==>
        progressed && phase == Stopped && taken == old(taken) + [Stop] && published == old(published)
        && inbox.item == None && outbox.item == old(outbox.item)
      ensures old(phase).Waiting? && old(inbox.item).Some? && old(inbox.item).value.Image? ==>
        var d := Classify(names, scorer(old(inbox.item).value.frame));
        && progressed && !phase.Stopped?
        && taken == old(taken) + [old(inbox.item).value] && inbox.item == None
        && (old(outbox.item).None? ==> phase == Waiting && outbox.item == Some(d) && published == old(published) + [d])
        && (old(outbox.item).Some? ==> phase == Publishing(d) && outbox.item == old(outbox.item) && published == old(published))
      ensures old(phase).Publishing? ==>
        taken == old(taken) && inbox.item == old(inbox.item)
        && (old(outbox.item).None? ==>
              progressed && phase == Waiting && outbox.item == Some(old(phase).pending)
              && published == old(published) + [old(phase).pending])
        && (old(outbox.item).Some? ==>
              !progressed && phase == old(phase) && outbox.item == old(outbox.item) && published == old(published))
    {
      match phase
      case Stopped =>
        progressed := false;
      case Publishing(d) =>
        progressed := outbox.Offer(d);
        if progressed {
          phase := Waiting;
          published := published + [d];
        }
      case Waiting =>
        var next := inbox.Poll();
        if next.None? {
          progressed := false;
        } else if next.value == Stop {
          progressed := true;
          PublicationsStopAtSentinel(names, scorer, taken, []);
          taken := taken + [Stop];
          phase := Stopped;
        } else {
          progressed := true;
          var f := next.value.frame;
          var d := Classify(names, scorer(f));
          PublicationsAppend(names, scorer, taken, f);
          taken := taken + [next.value];
          var accepted := outbox.Offer(d);
          if accepted {
            published := published + [d];
          } else {
            phase := Publishing(d);
          }
        }
    }
  }

  /**
   * Lines 93-107: the consumer takes whatever detection is waiting (nothing
   * means the five-second wait ran out) and decides what to show.
   */
  method ShowResult(outbox: Slot<Detection>, lookup: Option<string>, descs: map<string, string>)
    returns (shown: Display)
    modifies outbox
    ensures shown == Decide(old(outbox.item), lookup, descs) && outbox.item == None
  {
    var received := outbox.Poll();
    shown := Decide(received, lookup, descs);
  }

  /**
   * One upload, end to end, with fresh slots and a fresh worker: the frame
   * is submitted, the worker gets one turn if it answers within the timeout,
   * and the consumer shows the outcome. The frame's classification is shown
   * when the worker answered, "Processing..." otherwise.
   */
  method DetectOnce(names: seq<string>, scorer: Frame -> Option<seq<real>>, frame: Frame,
                    answeredInTime: bool, lookup: Option<string>, descs: map<string, string>)
    returns (shown: Display)
    ensures answeredInTime ==> shown == Decide(Some(Classify(names, scorer(frame))), lookup, descs)
    ensures !answeredInTime ==> shown == Processing
  {
    var inbox := new Slot<Item>();
    var outbox := new Slot<Detection>();
    var worker := new Worker(names, scorer, inbox, outbox);
    Submit(inbox, frame);
    if answeredInTime {
      var _ := worker.Step();
    }
    shown := ShowResult(outbox, lookup, descs);
  }

  /**
   * A second frame offered while the inbound slot is still occupied is
   * rejected without blocking, and the detection shown is the first
   * frame's. This is `put_nowait` on a full capacity-one queue; a page run
   * creates its own slots and offers one frame, so the page itself never
   * reaches this case.
   */
  method DetectWithSecondFrameRejected(names: seq<string>, scorer: Frame -> Option<seq<real>>,
                                       first: Frame, second: Frame,
                                       lookup: Option<string>, descs: map<string, string>)
    returns (secondAccepted: bool, shown: Display)
    ensures !secondAccepted
    ensures shown == Decide(Some(Classify(names, scorer(first))), lookup, descs)
  {
    var inbox := new Slot<Item>();
    var outbox := new Slot<Detection>();
    var worker := new Worker(names, scorer, inbox, outbox);
    Submit(inbox, first);
    secondAccepted := inbox.Offer(Image(second));
    var _ := worker.Step();
    shown := ShowResult(outbox, lookup, descs);
  }

  /**
   * Shutting down an idle worker: it takes the sentinel and stops, and
   * nothing ever reaches the outbound slot, however many more turns it gets.
   * This is how `clip_worker` treats `None`; the page never sends it.
   */
  method ShutDownIdle(names: seq<string>, scorer: Frame -> Option<seq<real>>, turns: nat)
    returns (stopped: bool, received: Option<Detection>)
    ensures stopped && received == None
  {
    var inbox := new Slot<Item>();
    var outbox := new Slot<Detection>();
    var worker := new Worker(names, scorer, inbox, outbox);
    var _ := inbox.Offer(Stop);
    var n := 0;
    while n <= turns
      invariant worker.Valid() && worker.inbox == inbox && worker.outbox == outbox
      invariant outbox.item == None
      invariant n > 0 ==> worker.phase == Stopped
      invariant n == 0 ==> worker.phase == Waiting && inbox.item == Some(Stop)
    {
      var _ := worker.Step();
      n := n + 1;
    }
    stopped := worker.phase.Stopped?;
    received := outbox.Poll();
  }
}
