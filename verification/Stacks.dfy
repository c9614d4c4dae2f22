/** What the process table is measured against: three stacks of saved stack pointers, one for each terminal, and no pids
    at all; and the call stacks that a user of execute and halt expects. */
module Stacks {
  import opened VideoFrames

  const MAX_PID := 10

  /** What execute is given: nothing that loads, or an image with an entry word. */
  datatype Image = NotLoadable | Loadable(entry: int)

  datatype Event =
    | Tick(sp: int)
    | Execute(sp: int, image: Image)
    | Halt(sp: int)
    | Show(terminal: int)

  predicate Legal(e: Event) {
    e.Show? ==> IsTerminal(e.terminal)
  }

  ghost predicate AllLegal(evs: seq<Event>) {
    forall i :: 0 <= i < |evs| ==> Legal(evs[i])
  }

  /** What a step hands back to the CPU: a failed or successful launch, or a restored stack pointer. */
  datatype Outcome = Failed | Launched | Resumed(sp: int) | Remapped

  // ----- Every process with the stack pointer that was last saved for it -----

  /** stacks[t] has an entry for each program of terminal t, the running or preempted one on top. */
  datatype Saved = Saved(stacks: seq<seq<int>>, active: Terminal)

  ghost predicate SavedInBounds(c: Saved) {
    |c.stacks| == NUM_TERMINALS && forall t :: 0 <= t < NUM_TERMINALS ==> c.stacks[t] != []
  }

  type SavedStacks = c: Saved | SavedInBounds(c) ghost witness Saved([[0], [0], [0]], 0)

  function Top(stack: seq<int>): int
    requires stack != []
  {
    stack[|stack| - 1]
  }

  function Resaved(stack: seq<int>, sp: int): (r: seq<int>)
    requires stack != []
    ensures |r| == |stack|
  {
    stack[|stack| - 1 := sp]
  }

  function Height(c: SavedStacks): nat {
    |c.stacks[0]| + |c.stacks[1]| + |c.stacks[2]|
  }

  function WithStack(c: SavedStacks, stack: seq<int>): SavedStacks
    requires stack != []
  {
    c.(stacks := c.stacks[c.active := stack])
  }

  /** The two entry words that look like an error of the loader. */
  predicate LikeError(entry: int) {
    entry in {1, 0xFFFF_FFFF}
  }

  /** A program that is refused for its entry word runs on as its own child, without its stack pointer having been
      saved. */
  function SavedStep(c: SavedStacks, e: Event): (SavedStacks, Outcome) {
    var mine := c.stacks[c.active];
    match e
    case Tick(sp) =>
      var next := (c.active + 1) % NUM_TERMINALS;
      var saved := WithStack(c, Resaved(mine, sp));
      (saved.(active := next), Resumed(Top(c.stacks[next])))
    case Execute(sp, image) =>
      if image.NotLoadable? || Height(c) >= MAX_PID then (c, Failed)
      else if LikeError(image.entry) then (WithStack(c, mine + [0]), Failed)
      else (WithStack(c, Resaved(mine, sp) + [0]), Launched)
    case Halt(sp) =>
      if |mine| == 1 then (WithStack(c, [sp]), Launched)
      else (WithStack(c, mine[..|mine| - 1]), Resumed(mine[|mine| - 2]))
    case Show(_) => (c, Remapped)
  }

  ghost function SavedRun(c: SavedStacks, evs: seq<Event>): (SavedStacks, seq<Outcome>)
    decreases |evs|
  {
    if evs == [] then (c, [])
    else
      var (c1, o) := SavedStep(c, evs[0]);
      var (c2, os) := SavedRun(c1, evs[1..]);
      (c2, [o] + os)
  }

  // ----- What execute and halt are for: call and return -----

  /** callers[t] holds the stack pointers of the programs of terminal t that wait for a child;
      resume[t] is the one terminal t was preempted with. */
  datatype Calls = Calls(callers: seq<seq<int>>, resume: seq<int>, active: Terminal)

  predicate CallsInBounds(c: Calls) {
    |c.callers| == NUM_TERMINALS && |c.resume| == NUM_TERMINALS
  }

  type CallStacks = c: Calls | CallsInBounds(c) witness Calls([[], [], []], [0, 0, 0], 0)

  function Running(c: CallStacks): nat {
    3 + |c.callers[0]| + |c.callers[1]| + |c.callers[2]|
  }

  /** A failed execute changes nothing, and a halt returns to where the execute was called. */
  function CallStep(c: CallStacks, e: Event): (CallStacks, Outcome) {
    match e
    case Tick(sp) =>
      var next := (c.active + 1) % NUM_TERMINALS;
      (c.(resume := c.resume[c.active := sp], active := next), Resumed(c.resume[next]))
    case Execute(sp, image) =>
      if image.Loadable? && image.entry != 1 && image.entry != 0xFFFF_FFFF && Running(c) < 10 then
        (c.(callers := c.callers[c.active := c.callers[c.active] + [sp]]), Launched)
      else (c, Failed)
    case Halt(_) =>
      var waiting := c.callers[c.active];
      if waiting == [] then (c, Launched)
      else (c.(callers := c.callers[c.active := waiting[..|waiting| - 1]]), Resumed(waiting[|waiting| - 1]))
    case Show(_) => (c, Remapped)
  }

  ghost function CallRun(c: CallStacks, evs: seq<Event>): (CallStacks, seq<Outcome>)
    decreases |evs|
  {
    if evs == [] then (c, [])
    else
      var (c1, o) := CallStep(c, evs[0]);
      var (c2, os) := CallRun(c1, evs[1..]);
      (c2, [o] + os)
  }

  /** The saved stack pointers are those of the call stacks, except that the running program's own one is of no
      account. */
  ghost predicate Follows(p: SavedStacks, c: CallStacks) {
    && p.active == c.active
    && forall t {:trigger p.stacks[t]} {:trigger c.callers[t]} :: 0 <= t < NUM_TERMINALS ==>
         && c.callers[t] == p.stacks[t][..|p.stacks[t]| - 1]
         && (t != c.active ==> c.resume[t] == Top(p.stacks[t]))
  }

  /** An image with a misread entry word is about to be executed, and there is a slot for it. */
  predicate MisreadNow(c: CallStacks, e: Event) {
    e.Execute? && e.image.Loadable? && (e.image.entry == 1 || e.image.entry == 0xFFFF_FFFF) && Running(c) < 10
  }

  lemma FollowsHeight(p: SavedStacks, c: CallStacks)
    requires Follows(p, c)
    ensures Height(p) == Running(c)
  {
    assert forall t :: 0 <= t < NUM_TERMINALS ==> |c.callers[t]| == |p.stacks[t]| - 1;
  }

  lemma MisreadHeight(p: SavedStacks, c: CallStacks, e: Event)
    requires Height(p) == Running(c) && MisreadNow(c, e)
    ensures Height(SavedStep(p, e).0) == Running(c) + 1
  {
  }

  /** Each step is call and return exactly unless an entry word is misread. */
  lemma StepFollows(p: SavedStacks, c: CallStacks, e: Event)
    requires Follows(p, c)
    ensures Follows(SavedStep(p, e).0, CallStep(c, e).0) <==> !MisreadNow(c, e)
    ensures !MisreadNow(c, e) ==> SavedStep(p, e).1 == CallStep(c, e).1
    ensures MisreadNow(c, e) ==> Height(SavedStep(p, e).0) == Running(c) + 1 && CallStep(c, e).0 == c
  {
    hide Height, Running;
    FollowsHeight(p, c);
    if MisreadNow(c, e) {
      MisreadHeight(p, c, e);
    }
    var p', c' := SavedStep(p, e).0, CallStep(c, e).0;
    var mine := p.stacks[p.active];
    assert c.callers[p.active] == mine[..|mine| - 1];
    assert Top(p.stacks[(p.active + 1) % NUM_TERMINALS]) == c.resume[(p.active + 1) % NUM_TERMINALS];
  }

  ghost predicate NoneMisread(c: CallStacks, evs: seq<Event>)
    decreases |evs|
  {
    evs == [] || (!MisreadNow(c, evs[0]) && NoneMisread(CallStep(c, evs[0]).0, evs[1..]))
  }
}
