/**
 * lib/mask.worker.js: the web worker that runs one mask function over every
 * frame of an animation.  `processFrames` schedules a chain of timer ticks;
 * each tick masks one frame, posts a progress message when the rounded
 * percentage has grown, and the last tick posts every result at once.
 *
 * Frames, selections and mask arguments are opaque to the worker, so they
 * are type parameters here; a mask function is a Dafny function value.
 */
module Worker {
  import opened Arith
  import opened Wrappers

  /**
   * A message the worker posts.  `Progress(percent, frame)` is the message
   * whose `progress` field is `percent / 100`.
   */
  datatype Message<F> = Progress(percent: nat, frame: F) | Done(frames: seq<F>)

  // ---------------------------------------------------------------------
  // The meaning of one tick

  /**
   * `Math.round(current / total * 100)`, taken on the exact ratio: the
   * nearest whole percentage, a half rounding up.  In double arithmetic the
   * product can land just below a half (23 of 40 gives 57.49999999999999),
   * and such a tie rounds down there.
   */
  function RoundPercent(current: nat, total: nat): (r: nat)
    requires total > 0
    ensures 2 * total * r <= 200 * current + total < 2 * total * r + 2 * total
  {
    (200 * current + total) / (2 * total)
  }

  /** `prevProgress` when the tick for frame `current` starts: the percentage of the frame before, or 0. */
  function PrevProgress(current: nat, total: nat): nat
    requires total > 0
  {
    if current == 0 then 0 else RoundPercent(current - 1, total)
  }

  /** The results of masking every frame. */
  function Results<F, S>(frames: seq<F>, selection: S, maskFunc: (F, S) -> F): (r: seq<F>)
    ensures |r| == |frames|
  {
    seq(|frames|, i requires 0 <= i < |frames| => maskFunc(frames[i], selection))
  }

  /** What the tick for frame `current` posts, if anything. */
  function MessageAt<F, S>(frames: seq<F>, selection: S, maskFunc: (F, S) -> F, current: nat): Option<Message<F>>
    requires current < |frames|
  {
    var total := |frames|;
    if current + 1 == total then Some(Done(Results(frames, selection, maskFunc)))
    else if RoundPercent(current, total) > PrevProgress(current, total)
    then Some(Progress(RoundPercent(current, total), maskFunc(frames[current], selection)))
    else None
  }

  /** Every message posted by the first `n` ticks, in order. */
  function Trace<F, S>(frames: seq<F>, selection: S, maskFunc: (F, S) -> F, n: nat): seq<Message<F>>
    requires n <= |frames|
  {
    if n == 0 then []
    else
      var m := MessageAt(frames, selection, maskFunc, n - 1);
      Trace(frames, selection, maskFunc, n - 1) + if m.Some? then [m.value] else []
  }

  // ---------------------------------------------------------------------
  // The worker's state

  /** The closure `processFrames` builds: its captured arguments and the variables its ticks update. */
  class FrameProcessor<F, S> {
    const frames: seq<F>
    const selection: S
    const maskFunc: (F, S) -> F
    var currentFrame: nat
    var prevProgress: nat
    var newFrames: seq<F>
    /** A `renderFrame` tick is pending. */
    var scheduled: bool

    /**
     * The results so far are the masked frames, in order; `prevProgress` is
     * the percentage of the frame before the current one.
     */
    ghost predicate Valid()
      reads this
    {
      && |frames| >= 1
      && (scheduled ==> currentFrame < |frames| && |newFrames| == currentFrame)
      && (!scheduled ==> currentFrame + 1 == |frames| && |newFrames| == |frames|)
      && newFrames == Results(frames[..|newFrames|], selection, maskFunc)
      && prevProgress == PrevProgress(currentFrame, |frames|)
    }

    /** `processFrames(frames, selection, maskFunc)`: sets up the state and schedules the first tick. */
    constructor (frames: seq<F>, selection: S, maskFunc: (F, S) -> F)
      requires |frames| >= 1
      ensures Valid() && scheduled && currentFrame == 0 && newFrames == []
      ensures this.frames == frames && this.selection == selection && this.maskFunc == maskFunc
    {
      this.frames := frames;
      this.selection := selection;
      this.maskFunc := maskFunc;
      currentFrame := 0;
      newFrames := [];
      prevProgress := 0;
      scheduled := true;
    }

    /**
     * `renderFrame`: masks the current frame; on the last frame posts every
     * result, otherwise posts progress only when the rounded percentage has
     * grown, and schedules the next tick.
     */
    method Tick() returns (msg: Option<Message<F>>)
      requires Valid() && scheduled
      modifies this
      ensures Valid()
      ensures msg == MessageAt(frames, selection, maskFunc, old(currentFrame))
      ensures newFrames == Results(frames[..old(currentFrame) + 1], selection, maskFunc)
      ensures scheduled <==> old(currentFrame) + 1 < |frames|
      ensures scheduled ==> currentFrame == old(currentFrame) + 1
    {
      newFrames := newFrames + [maskFunc(frames[currentFrame], selection)];
      assert newFrames == Results(frames[..currentFrame + 1], selection, maskFunc);
      if currentFrame + 1 == |frames| {
        assert frames[..currentFrame + 1] == frames;
        msg := Some(Done(newFrames));
        scheduled := false;
      } else {
        var progress := RoundPercent(currentFrame, |frames|);
        msg := None;
        if progress > prevProgress {
          msg := Some(Progress(progress, newFrames[currentFrame]));
          prevProgress := progress;
        } else if currentFrame > 0 {
          RoundMonotone(currentFrame - 1, currentFrame, |frames|);
        }
        currentFrame := currentFrame + 1;
      }
    }
  }

  /**
   * The chain of `setTimeout(renderFrame)` ticks, run to the end: the
   * messages the worker posts for one batch, in order.
   */
  method ProcessFrames<F, S>(frames: seq<F>, selection: S, maskFunc: (F, S) -> F) returns (posted: seq<Message<F>>)
    requires |frames| >= 1
    ensures posted == Trace(frames, selection, maskFunc, |frames|)
  {
    var p := new FrameProcessor(frames, selection, maskFunc);
    posted := [];
    while p.scheduled
      invariant p.Valid() && p.frames == frames && p.selection == selection && p.maskFunc == maskFunc
      invariant posted == Trace(frames, selection, maskFunc, if p.scheduled then p.currentFrame else |frames|)
      decreases if p.scheduled then |frames| - p.currentFrame else 0
    {
      var msg := p.Tick();
      if msg.Some? {
        posted := posted + [msg.value];
      }
    }
  }

  // ---------------------------------------------------------------------
  // Choosing the mask

  /** A table entry: a mask function, or a factory that builds one from arguments. */
  datatype Entry<!F, -S, -A> = MaskFn(run: (F, S) -> F) | Factory(make: A -> ((F, S) -> F))

  /** The `data` of a message sent to the worker. */
  datatype Request<F, S, A> = Request(action: string, undo: bool, mask: string, args: Option<A>, selection: S, frames: seq<F>)

  /** What the message handler does with a message. */
  datatype Outcome<F> =
    | Ignored                         // an action other than `processFrames`
    | NoMask                          // the chosen entry is missing, or is not a mask once `args` are applied
    | Ran(posted: seq<Message<F>>)    // the messages the batch posts

  /**
   * The mask the handler passes to `processFrames`: the entry of
   * `ReverseActions` when `undo` is set and of `Actions` otherwise, called
   * with `args` when there are any.
   */
  function ChooseMask<F, S, A>(actions: map<string, Entry<F, S, A>>, reverse: map<string, Entry<F, S, A>>,
                               name: string, undo: bool, args: Option<A>): (r: Option<(F, S) -> F>)
    ensures r.Some? <==> (name in (if undo then reverse else actions) &&
      (if undo then reverse else actions)[name].Factory? == args.Some?)
    ensures r.Some? && args.None? ==> r.value == (if undo then reverse else actions)[name].run
    ensures r.Some? && args.Some? ==> r.value == (if undo then reverse else actions)[name].make(args.value)
  {
    var table := if undo then reverse else actions;
    if name !in table then None
    else match (table[name], args)
      case (MaskFn(run), None) => Some(run)
      case (Factory(make), Some(a)) => Some(make(a))
      case _ => None
  }

  /** The worker's `message` listener. */
  method OnMessage<F, S, A>(actions: map<string, Entry<F, S, A>>, reverse: map<string, Entry<F, S, A>>,
                            req: Request<F, S, A>) returns (out: Outcome<F>)
    requires req.action == "processFrames" ==> |req.frames| >= 1
    ensures out.Ignored? <==> req.action != "processFrames"
    ensures req.action == "processFrames" ==>
      match ChooseMask(actions, reverse, req.mask, req.undo, req.args)
      case None => out == NoMask
      case Some(m) => out == Ran(Trace(req.frames, req.selection, m, |req.frames|))
  {
    if req.action != "processFrames" {
      return Ignored;
    }
    var chosen := ChooseMask(actions, reverse, req.mask, req.undo, req.args);
    match chosen {
      case None => out := NoMask;
      case Some(m) =>
        var posted := ProcessFrames(req.frames, req.selection, m);
        out := Ran(posted);
    }
  }

  // ---------------------------------------------------------------------
  // Properties

  /** A later frame never has a smaller percentage. */
  lemma RoundMonotone(c1: nat, c2: nat, total: nat)
    requires c1 <= c2 && total > 0
    ensures RoundPercent(c1, total) <= RoundPercent(c2, total)
  {
    DivMonotone(200 * c1 + total, 200 * c2 + total, 2 * total);
  }

  /** The first frame rounds to 0 %, and a frame of the batch to at most 100 %. */
  lemma RoundRange(current: nat, total: nat)
    requires current < total
    ensures RoundPercent(0, total) == 0
    ensures RoundPercent(current, total) <= 100
  {
    DivModUnique(total, 2 * total, 0, total);
    RoundMonotone(current, total, total);
    DivModUnique(200 * total + total, 2 * total, 100, total);
  }

  /** Progress messages only, each above 0 % and at most `bound` %. */
  predicate ProgressUpTo<F>(t: seq<Message<F>>, bound: nat) {
    forall i | 0 <= i < |t| :: t[i].Progress? && 0 < t[i].percent <= bound
  }

  /** Percentages strictly increasing along the trace. */
  predicate Increasing<F>(t: seq<Message<F>>)
    requires forall i | 0 <= i < |t| :: t[i].Progress?
  {
    forall i, j | 0 <= i < j < |t| :: t[i].percent < t[j].percent
  }

  /** The message is the progress message of a frame after the first and before the last: its percentage and its result. */
  ghost predicate ProgressOfFrame<F, S>(m: Message<F>, frames: seq<F>, selection: S, maskFunc: (F, S) -> F) {
    exists c | 0 < c < |frames| - 1 :: m == Progress(RoundPercent(c, |frames|), maskFunc(frames[c], selection))
  }

  /** A progress message above every percentage so far extends an increasing trace. */
  lemma AppendProgress<F>(t: seq<Message<F>>, m: Message<F>, bound: nat)
    requires ProgressUpTo(t, bound) && Increasing(t)
    requires m.Progress? && bound < m.percent
    ensures ProgressUpTo(t + [m], m.percent) && Increasing(t + [m])
  {
  }

  /**
   * Before the last tick, the trace holds only progress messages, with
   * percentages above 0, strictly increasing, and up to the percentage of
   * the frame before the current one; each is the message of one frame.
   */
  lemma {:induction false} ProgressTrace<F, S>(frames: seq<F>, selection: S, maskFunc: (F, S) -> F, n: nat)
    requires n < |frames|
    ensures ProgressUpTo(Trace(frames, selection, maskFunc, n), PrevProgress(n, |frames|))
    ensures Increasing(Trace(frames, selection, maskFunc, n))
    ensures forall m | m in Trace(frames, selection, maskFunc, n) :: ProgressOfFrame(m, frames, selection, maskFunc)
  {
    if n > 0 {
      var total := |frames|;
      ProgressTrace(frames, selection, maskFunc, n - 1);
      var t0 := Trace(frames, selection, maskFunc, n - 1);
      var m := MessageAt(frames, selection, maskFunc, n - 1);
      if n > 1 {
        RoundMonotone(n - 2, n - 1, total);
      }
      if m.Some? {
        RoundRange(0, total);
        assert ProgressOfFrame(m.value, frames, selection, maskFunc) by {
          assert 0 < n - 1 < total - 1;
        }
        AppendProgress(t0, m.value, PrevProgress(n - 1, total));
        assert Trace(frames, selection, maskFunc, n) == t0 + [m.value];
      } else {
        assert Trace(frames, selection, maskFunc, n) == t0;
      }
    }
  }

  /**
   * A whole batch posts strictly increasing percentages between 1 and 100,
   * each for one frame's result, and then exactly one `done`, last,
   * carrying the result of every frame.
   */
  lemma BatchTrace<F, S>(frames: seq<F>, selection: S, maskFunc: (F, S) -> F)
    requires |frames| >= 1
    ensures var t := Trace(frames, selection, maskFunc, |frames|);
      && |t| >= 1 && t[|t| - 1] == Done(Results(frames, selection, maskFunc))
      && ProgressUpTo(t[..|t| - 1], 100) && Increasing(t[..|t| - 1])
      && forall m | m in t[..|t| - 1] :: ProgressOfFrame(m, frames, selection, maskFunc)
  {
    var n := |frames|;
    ProgressTrace(frames, selection, maskFunc, n - 1);
    var t0 := Trace(frames, selection, maskFunc, n - 1);
    var t := t0 + [Done(Results(frames, selection, maskFunc))];
    assert Trace(frames, selection, maskFunc, n) == t;
    assert t[..|t| - 1] == t0;
    if n > 1 {
      RoundRange(n - 2, n);
    }
  }

  /** A batch of one frame posts `done` on its first tick and no progress at all. */
  lemma SingleFrame<F, S>(frame: F, selection: S, maskFunc: (F, S) -> F)
    ensures Trace([frame], selection, maskFunc, 1) == [Done([maskFunc(frame, selection)])]
  {
    assert Results([frame], selection, maskFunc) == [maskFunc(frame, selection)];
  }

  /** In a batch of several frames the first tick posts nothing: frame 0 rounds to 0 %. */
  lemma FirstTickSilent<F, S>(frames: seq<F>, selection: S, maskFunc: (F, S) -> F)
    requires |frames| >= 2
    ensures MessageAt(frames, selection, maskFunc, 0) == None
  {
    RoundRange(0, |frames|);
  }

  /** Undoing with the two tables swapped is doing: `undo` only selects the table. */
  lemma UndoSwapsTables<F, S, A>(actions: map<string, Entry<F, S, A>>, reverse: map<string, Entry<F, S, A>>,
                                 name: string, args: Option<A>)
    ensures ChooseMask(actions, reverse, name, true, args) == ChooseMask(reverse, actions, name, false, args)
  {
  }
}
