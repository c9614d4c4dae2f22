/** PCB slots, parent links, the three-entry run queue and the saved stack pointers:
    tasking.c, syscall.S (halt, execute, kexecute) and tasking_funcs.S (next_task).
    Each system call and each timer tick is one atomic step. */
module Processes {
  import opened Common
  import opened VideoFrames
  import opened Stacks

  type Pid = p: int | 0 <= p <= MAX_PID

  /** The PCB fields the scheduler and execute/halt use. */
  datatype Pcb = Pcb(esp: int, parent: Pid, present: bool)

  /** pcbs has one slot beyond MAX_PID, since the free-slot search looks at it before it stops. */
  datatype Kernel = Kernel(pcbs: seq<Pcb>, queue: seq<Pid>, current: Pid, active: Terminal,
                           foreground: int, vmem: Frame)

  predicate InBounds(k: Kernel) {
    |k.pcbs| == MAX_PID + 2 && |k.queue| == NUM_TERMINALS
  }

  type State = k: Kernel | InBounds(k) witness PowerOn(0)

  /** Memory after init_pcbs: nothing present, run queue empty, "process 0" idling. */
  function PowerOn(foreground: int): Kernel {
    Kernel(seq(MAX_PID + 2, _ => Pcb(0, 0, false)), [0, 0, 0], 0, 0, foreground, Mapped(foreground, 0))
  }

  /** find_free_pcb from slot i on: the lowest free pid, or -1. */
  function FindFree(pcbs: seq<Pcb>, i: int): (r: int)
    requires |pcbs| == MAX_PID + 2 && 1 <= i <= MAX_PID + 1
    ensures r == -1 <==> forall p :: i <= p <= MAX_PID ==> pcbs[p].present
    ensures r != -1 ==> i <= r <= MAX_PID && !pcbs[r].present && forall p :: i <= p < r ==> pcbs[p].present
    decreases MAX_PID + 1 - i
  {
    if i > MAX_PID then -1
    else if pcbs[i].present then FindFree(pcbs, i + 1)
    else i
  }

  function SwitchContext(k: State, pid: Pid): State {
    k.(current := pid, vmem := Mapped(k.foreground, k.active))
  }

  function SaveEsp(k: State, pid: Pid, sp: int): State {
    k.(pcbs := k.pcbs[pid := k.pcbs[pid].(esp := sp)])
  }

  /** setup_new_process: a PCB in the lowest free slot, with the current process as parent. */
  function SetUp(k: State): (State, bool) {
    var pid := FindFree(k.pcbs, 1);
    if pid == -1 then (k, false)
    else (SwitchContext(k.(pcbs := k.pcbs[pid := Pcb(0, k.current, true)]), pid), true)
  }

  /** kexecute of the shell: set up a process, then save the caller's stack pointer in the caller's PCB. */
  function Launch(k: State, sp: int): (State, Outcome) {
    var (k', ok) := SetUp(k);
    if ok then (SaveEsp(k', k.current, sp), Launched) else (k, Failed)
  }

  /** What execute takes for an error code of the loader. */
  predicate Misread(entry: int) {
    entry == 0xFFFF_FFFF || entry == 1
  }

  /** execute: the test of the loader's result comes after the process has been set up. */
  function ExecuteStep(k: State, sp: int, image: Image): (State, Outcome) {
    if image.NotLoadable? then (k, Failed)
    else
      var (k', ok) := SetUp(k);
      if !ok || Misread(image.entry) then (k', Failed) else (SaveEsp(k', k.current, sp), Launched)
  }

  /** halt: base shells (pids below 4) are relaunched, others return to their parent. */
  function HaltStep(k: State, sp: int): (State, Outcome) {
    var freed := k.(pcbs := k.pcbs[k.current := k.pcbs[k.current].(present := false)]);
    if k.current < 4 then Launch(freed, sp)
    else
      var parent := k.pcbs[k.current].parent;
      (SwitchContext(freed, parent), Resumed(freed.pcbs[parent].esp))
  }

  /** next_task: the timer interrupt. */
  function TickStep(k: State, sp: int): (State, Outcome) {
    var saved := SaveEsp(k.(queue := k.queue[k.active := k.current]), k.current, sp);
    var next := (k.active + 1) % NUM_TERMINALS;
    var moved := saved.(active := next);
    if moved.queue[next] == 0 then Launch(moved, sp)
    else
      var resumed := SwitchContext(moved, moved.queue[next]);
      (resumed, Resumed(resumed.pcbs[resumed.current].esp))
  }

  /** switch_video, as far as it touches the memory map. */
  function ShowStep(k: State, t: int): (State, Outcome)
    requires IsTerminal(t)
  {
    if k.foreground == t then (k, Remapped)
    else (SwitchContext(k.(foreground := t), k.current), Remapped)
  }

  function Step(k: State, e: Event): (State, Outcome)
    requires Legal(e)
  {
    match e
    case Tick(sp) => TickStep(k, sp)
    case Execute(sp, image) => ExecuteStep(k, sp, image)
    case Halt(sp) => HaltStep(k, sp)
    case Show(t) => ShowStep(k, t)
  }

  // ----- The relation between the two -----

  /** The base shell of each terminal: the first tick starts terminal 1. */
  function Root(t: int): int {
    if t == 0 then 3 else t
  }

  /** Three stacks of pids, and for each pid the one place where it may stand. */
  datatype Layout = Layout(pids: seq<seq<int>>, place: seq<Place>)
  datatype Place = Place(terminal: int, depth: int)

  predicate Holds(l: Layout, t: int, i: int) {
    |l.pids| == NUM_TERMINALS && 0 <= t < NUM_TERMINALS && 0 <= i < |l.pids[t]|
  }

  /** The present pids are the disjoint union of three non-empty parent chains rooted at
      pids 1, 2 and 3: each pid on a chain stands there at its own place only, and is present;
      each present pid stands on a chain. */
  ghost predicate Chains(pcbs: seq<Pcb>, l: Layout) {
    && |pcbs| == MAX_PID + 2
    && |l.pids| == NUM_TERMINALS
    && |l.place| == MAX_PID + 1
    && (forall t :: 0 <= t < NUM_TERMINALS ==> l.pids[t] != [] && l.pids[t][0] == Root(t))
    && (forall t, i {:trigger Holds(l, t, i)} :: Holds(l, t, i) ==>
          1 <= l.pids[t][i] <= MAX_PID && pcbs[l.pids[t][i]].present && l.place[l.pids[t][i]] == Place(t, i))
    && (forall p {:trigger pcbs[p].present} :: 1 <= p <= MAX_PID && pcbs[p].present ==>
          Holds(l, l.place[p].terminal, l.place[p].depth) && l.pids[l.place[p].terminal][l.place[p].depth] == p)
    && (forall t, i {:trigger Holds(l, t, i)} :: Holds(l, t, i) && i > 0 ==>
          pcbs[l.pids[t][i]].parent == l.pids[t][i - 1])
  }

  /** Each process on a chain holds the stack pointer that was last saved for it. */
  ghost predicate Waiting(pcbs: seq<Pcb>, chain: seq<int>, saved: seq<int>) {
    && |chain| == |saved|
    && (forall i :: 0 <= i < |chain| ==> 1 <= chain[i] < |pcbs|)
    && (forall i :: 0 <= i < |chain| ==> pcbs[chain[i]].esp == saved[i])
  }

  ghost predicate Parked(pcbs: seq<Pcb>, l: Layout, c: SavedStacks) {
    Chains(pcbs, l) && forall t :: 0 <= t < NUM_TERMINALS ==> Waiting(pcbs, l.pids[t], c.stacks[t])
  }

  /** The run queue, the current process and the 0xB8000 page agree with the chains. */
  ghost predicate Refines(k: State, l: Layout, c: SavedStacks) {
    && Parked(k.pcbs, l, c)
    && k.active == c.active
    && k.current == Top(l.pids[k.active])
    && (forall t :: 0 <= t < NUM_TERMINALS && t != k.active ==> k.queue[t] == Top(l.pids[t]))
    && k.vmem == Mapped(k.foreground, k.active)
  }

  // ----- Counting: the table is full exactly when ten processes run -----

  lemma {:induction false} DistinctCard(s: seq<int>)
    requires forall i, j :: 0 <= i < j < |s| ==> s[i] != s[j]
    ensures |set x | x in s| == |s|
  {
    if s != [] {
      var init, last := s[..|s| - 1], s[|s| - 1];
      DistinctCard(init);
      assert (set x | x in s) == (set x | x in init) + {last};
    }
  }

  lemma FlatDistinct(pcbs: seq<Pcb>, l: Layout)
    requires Chains(pcbs, l)
    ensures var flat := l.pids[0] + l.pids[1] + l.pids[2];
            forall i, j :: 0 <= i < j < |flat| ==> flat[i] != flat[j]
  {
    var flat := l.pids[0] + l.pids[1] + l.pids[2];
    var a, b := |l.pids[0]|, |l.pids[1]|;
    forall i | 0 <= i < |flat|
      ensures 1 <= flat[i] <= MAX_PID
      ensures l.place[flat[i]] == if i < a then Place(0, i) else if i < a + b then Place(1, i - a)
              else Place(2, i - a - b)
    {
      assert if i < a then Holds(l, 0, i) else if i < a + b then Holds(l, 1, i - a) else Holds(l, 2, i - a - b);
    }
  }

  /** The chains of one process table always have the same number of members in all. */
  lemma ChainsCount(pcbs: seq<Pcb>, l: Layout)
    requires Chains(pcbs, l)
    ensures |set p | 1 <= p <= MAX_PID && pcbs[p].present| == |l.pids[0]| + |l.pids[1]| + |l.pids[2]|
  {
    var flat := l.pids[0] + l.pids[1] + l.pids[2];
    FlatDistinct(pcbs, l);
    DistinctCard(flat);
    forall p ensures p in flat <==> 1 <= p <= MAX_PID && pcbs[p].present {
      if p in flat {
        var t :| 0 <= t < NUM_TERMINALS && p in l.pids[t];
        var i :| 0 <= i < |l.pids[t]| && l.pids[t][i] == p;
        assert Holds(l, t, i);
      }
      if 1 <= p <= MAX_PID && pcbs[p].present {
        assert Holds(l, l.place[p].terminal, l.place[p].depth);
      }
    }
    assert (set p | 1 <= p <= MAX_PID && pcbs[p].present) == set x | x in flat;
  }

  lemma FullExactlyAtTen(pcbs: seq<Pcb>, l: Layout)
    requires Chains(pcbs, l)
    ensures |l.pids[0]| + |l.pids[1]| + |l.pids[2]| <= MAX_PID
    ensures FindFree(pcbs, 1) == -1 <==> |l.pids[0]| + |l.pids[1]| + |l.pids[2]| == MAX_PID
  {
    ChainsCount(pcbs, l);
    var used := set p | 1 <= p <= MAX_PID && pcbs[p].present;
    Pigeonhole(used, 1, MAX_PID + 1);
    assert forall p :: 1 <= p <= MAX_PID ==> (p in used <==> pcbs[p].present);
  }

  // ----- One step of the kernel is one step of the call stacks -----

  function Pushed(l: Layout, t: int, pid: int): Layout
    requires Holds(l, t, 0) && 0 <= pid < |l.place|
  {
    Layout(l.pids[t := l.pids[t] + [pid]], l.place[pid := Place(t, |l.pids[t]|)])
  }

  function Popped(l: Layout, t: int): Layout
    requires Holds(l, t, 0)
  {
    l.(pids := l.pids[t := l.pids[t][..|l.pids[t]| - 1]])
  }

  /** A PCB written into a free slot, with the top of chain t as its parent, is pushed on that chain. */
  lemma ChainsPush(pcbs: seq<Pcb>, pcbs': seq<Pcb>, l: Layout, t: int, pid: int)
    requires Chains(pcbs, l) && IsTerminal(t)
    requires 1 <= pid <= MAX_PID && !pcbs[pid].present
    requires |pcbs'| == |pcbs| && pcbs'[pid].present && pcbs'[pid].parent == Top(l.pids[t])
    requires forall p :: 0 <= p <= MAX_PID && p != pid ==>
             pcbs'[p].present == pcbs[p].present && pcbs'[p].parent == pcbs[p].parent
    ensures Chains(pcbs', Pushed(l, t, pid))
  {
    var l' := Pushed(l, t, pid);
    forall u, i | Holds(l', u, i)
      ensures 1 <= l'.pids[u][i] <= MAX_PID && pcbs'[l'.pids[u][i]].present && l'.place[l'.pids[u][i]] == Place(u, i)
      ensures i > 0 ==> pcbs'[l'.pids[u][i]].parent == l'.pids[u][i - 1]
    {
      if Holds(l, u, i) {
        assert l'.pids[u][i] == l.pids[u][i] != pid;
      }
    }
    forall p | 1 <= p <= MAX_PID && pcbs'[p].present
      ensures Holds(l', l'.place[p].terminal, l'.place[p].depth)
              && l'.pids[l'.place[p].terminal][l'.place[p].depth] == p
    {
      if p != pid {
        assert Holds(l, l.place[p].terminal, l.place[p].depth);
      }
    }
  }

  /** Clearing the present flag of the top of a nested chain pops it. */
  lemma ChainsPop(pcbs: seq<Pcb>, pcbs': seq<Pcb>, l: Layout, t: int)
    requires Chains(pcbs, l) && IsTerminal(t) && |l.pids[t]| > 1
    requires |pcbs'| == |pcbs| && 1 <= Top(l.pids[t]) <= MAX_PID && !pcbs'[Top(l.pids[t])].present
    requires forall p :: 0 <= p <= MAX_PID && p != Top(l.pids[t]) ==> pcbs'[p] == pcbs[p]
    ensures Chains(pcbs', Popped(l, t))
  {
    var l' := Popped(l, t);
    var pid := Top(l.pids[t]);
    assert Holds(l, t, |l.pids[t]| - 1);
    forall u, i | Holds(l', u, i)
      ensures 1 <= l'.pids[u][i] <= MAX_PID && pcbs'[l'.pids[u][i]].present && l'.place[l'.pids[u][i]] == Place(u, i)
      ensures i > 0 ==> pcbs'[l'.pids[u][i]].parent == l'.pids[u][i - 1]
    {
      assert Holds(l, u, i) && l'.pids[u][i] == l.pids[u][i];
      assert l.place[l.pids[u][i]] == Place(u, i);
    }
    forall p | 1 <= p <= MAX_PID && pcbs'[p].present
      ensures Holds(l', l'.place[p].terminal, l'.place[p].depth)
              && l'.pids[l'.place[p].terminal][l'.place[p].depth] == p
    {
      assert Holds(l, l.place[p].terminal, l.place[p].depth);
    }
  }

  /** Rewriting a base shell's PCB in place leaves the chains as they are. */
  lemma ChainsRelaunch(pcbs: seq<Pcb>, pcbs': seq<Pcb>, l: Layout, t: int)
    requires Chains(pcbs, l) && IsTerminal(t)
    requires |pcbs'| == |pcbs|
    requires forall p :: 0 <= p <= MAX_PID ==> pcbs'[p].present == pcbs[p].present
    requires forall p :: 0 <= p <= MAX_PID && p != Root(t) ==> pcbs'[p].parent == pcbs[p].parent
    ensures Chains(pcbs', l)
  {
    assert Holds(l, t, 0);
  }

  /** The pids that halt compares against 4 are exactly the bottoms of the chains. */
  lemma BaseShells(pcbs: seq<Pcb>, l: Layout, t: int)
    requires Chains(pcbs, l) && IsTerminal(t)
    ensures 1 <= Top(l.pids[t]) <= MAX_PID && pcbs[Top(l.pids[t])].present
    ensures Top(l.pids[t]) < 4 <==> |l.pids[t]| == 1
    ensures |l.pids[t]| == 1 ==> Top(l.pids[t]) == Root(t)
  {
    assert Holds(l, t, |l.pids[t]| - 1);
    assert Holds(l, 0, 0) && Holds(l, 1, 0) && Holds(l, 2, 0);
  }

  /** Halting a base shell gets the same pid back from the lowest-free search. */
  lemma RootSlotIsLowest(pcbs: seq<Pcb>, l: Layout, t: int)
    requires Chains(pcbs, l) && IsTerminal(t)
    ensures FindFree(pcbs[Root(t) := pcbs[Root(t)].(present := false)], 1) == Root(t)
  {
    assert Holds(l, 0, 0) && Holds(l, 1, 0) && Holds(l, 2, 0);
  }

  /** No other place on the chains holds the pid of this one. */
  lemma OnlyThere(pcbs: seq<Pcb>, l: Layout, u: int, j: int)
    requires Chains(pcbs, l) && Holds(l, u, j)
    ensures forall t, i :: 0 <= t < NUM_TERMINALS && 0 <= i < |l.pids[t]| && l.pids[t][i] == l.pids[u][j] ==>
            t == u && i == j
  {
    forall t, i | 0 <= t < NUM_TERMINALS && 0 <= i < |l.pids[t]| && l.pids[t][i] == l.pids[u][j]
      ensures t == u && i == j
    {
      assert Holds(l, t, i);
    }
  }

  /** A new process on top of its caller, whose PCB gets the stack pointer sp. */
  lemma PushParks(pcbs: seq<Pcb>, l: Layout, c: SavedStacks, pid: int, sp: int)
    requires Parked(pcbs, l, c)
    requires 1 <= pid <= MAX_PID && !pcbs[pid].present && 1 <= Top(l.pids[c.active]) <= MAX_PID
    ensures var caller := Top(l.pids[c.active]);
            var forked := pcbs[pid := Pcb(0, caller, true)];
            Parked(forked[caller := forked[caller].(esp := sp)], Pushed(l, c.active, pid),
                   WithStack(c, Resaved(c.stacks[c.active], sp) + [0]))
  {
    var caller := Top(l.pids[c.active]);
    var forked := pcbs[pid := Pcb(0, caller, true)];
    var pcbs', l' := forked[caller := forked[caller].(esp := sp)], Pushed(l, c.active, pid);
    var c' := WithStack(c, Resaved(c.stacks[c.active], sp) + [0]);
    OnlyThere(pcbs, l, c.active, |l.pids[c.active]| - 1);
    forall t, i | 0 <= t < NUM_TERMINALS && 0 <= i < |l.pids[t]| ensures l.pids[t][i] != pid {
      assert Holds(l, t, i);
    }
    ChainsPush(pcbs, pcbs', l, c.active, pid);
    forall t | 0 <= t < NUM_TERMINALS ensures Waiting(pcbs', l'.pids[t], c'.stacks[t]) {
      assert Waiting(pcbs, l.pids[t], c.stacks[t]);
    }
  }

  /** The top of a nested chain has the place below it as its parent, and that one still
      holds the stack pointer that was last saved for it. */
  lemma ParentWaits(pcbs: seq<Pcb>, l: Layout, c: SavedStacks)
    requires Parked(pcbs, l, c) && |l.pids[c.active]| > 1 && 1 <= Top(l.pids[c.active]) <= MAX_PID
    ensures var pid, saved := Top(l.pids[c.active]), c.stacks[c.active];
            && pcbs[pid].parent == Top(Popped(l, c.active).pids[c.active]) != pid
            && 1 <= pcbs[pid].parent <= MAX_PID && |saved| > 1
            && pcbs[pcbs[pid].parent].esp == saved[|saved| - 2]
  {
    assert Waiting(pcbs, l.pids[c.active], c.stacks[c.active]);
    assert Holds(l, c.active, |l.pids[c.active]| - 1) && Holds(l, c.active, |l.pids[c.active]| - 2);
  }

  lemma PopParks(pcbs: seq<Pcb>, l: Layout, c: SavedStacks)
    requires Parked(pcbs, l, c) && |l.pids[c.active]| > 1 && 1 <= Top(l.pids[c.active]) <= MAX_PID
    ensures var pid, saved := Top(l.pids[c.active]), c.stacks[c.active];
            && |saved| > 1
            && Parked(pcbs[pid := pcbs[pid].(present := false)], Popped(l, c.active),
               WithStack(c, saved[..|saved| - 1]))
  {
    assert Waiting(pcbs, l.pids[c.active], c.stacks[c.active]);
    var pid, saved := Top(l.pids[c.active]), c.stacks[c.active];
    var pcbs', l' := pcbs[pid := pcbs[pid].(present := false)], Popped(l, c.active);
    var c' := WithStack(c, saved[..|saved| - 1]);
    ChainsPop(pcbs, pcbs', l, c.active);
    forall t | 0 <= t < NUM_TERMINALS ensures Waiting(pcbs', l'.pids[t], c'.stacks[t]) {
      assert Waiting(pcbs, l.pids[t], c.stacks[t]);
    }
  }

  lemma RelaunchParks(pcbs: seq<Pcb>, l: Layout, c: SavedStacks, sp: int)
    requires Parked(pcbs, l, c) && |l.pids[c.active]| == 1
    ensures Parked(pcbs[Root(c.active) := Pcb(sp, Root(c.active), true)], l, WithStack(c, [sp]))
  {
    var pcbs' := pcbs[Root(c.active) := Pcb(sp, Root(c.active), true)];
    assert Holds(l, c.active, 0);
    OnlyThere(pcbs, l, c.active, 0);
    ChainsRelaunch(pcbs, pcbs', l, c.active);
    forall t | 0 <= t < NUM_TERMINALS ensures Waiting(pcbs', l.pids[t], WithStack(c, [sp]).stacks[t]) {
      assert Waiting(pcbs, l.pids[t], c.stacks[t]);
    }
  }

  lemma TickParks(pcbs: seq<Pcb>, l: Layout, c: SavedStacks, sp: int)
    requires Parked(pcbs, l, c) && 1 <= Top(l.pids[c.active]) <= MAX_PID
    ensures var pid := Top(l.pids[c.active]);
            Parked(pcbs[pid := pcbs[pid].(esp := sp)], l, SavedStep(c, Tick(sp)).0)
  {
    var pid := Top(l.pids[c.active]);
    var pcbs' := pcbs[pid := pcbs[pid].(esp := sp)];
    var c' := SavedStep(c, Tick(sp)).0;
    OnlyThere(pcbs, l, c.active, |l.pids[c.active]| - 1);
    assert Chains(pcbs', l);
    forall t | 0 <= t < NUM_TERMINALS ensures Waiting(pcbs', l.pids[t], c'.stacks[t]) {
      assert Waiting(pcbs, l.pids[t], c.stacks[t]);
    }
  }

  // ----- Every step, every run -----

  /** What a step needs to know of the chains. */
  lemma ParkedFacts(pcbs: seq<Pcb>, l: Layout, c: SavedStacks)
    requires Parked(pcbs, l, c)
    ensures Chains(pcbs, l) && |l.pids| == NUM_TERMINALS && |l.place| == MAX_PID + 1 && |pcbs| == MAX_PID + 2
    ensures forall t :: 0 <= t < NUM_TERMINALS ==> |l.pids[t]| == |c.stacks[t]|
    ensures forall t :: 0 <= t < NUM_TERMINALS ==> 1 <= Top(l.pids[t]) <= MAX_PID
    ensures forall t :: 0 <= t < NUM_TERMINALS ==> pcbs[Top(l.pids[t])].esp == Top(c.stacks[t])
  {
    assert forall t :: 0 <= t < NUM_TERMINALS ==>
        Waiting(pcbs, l.pids[t], c.stacks[t]) && Holds(l, t, |l.pids[t]| - 1);
  }

  lemma ExecuteRefines(k: State, l: Layout, c: SavedStacks, sp: int, image: Image) returns (l': Layout)
    requires Refines(k, l, c)
    ensures Refines(ExecuteStep(k, sp, image).0, l', SavedStep(c, Execute(sp, image)).0)
    ensures ExecuteStep(k, sp, image).1 == SavedStep(c, Execute(sp, image)).1
    ensures FindFree(k.pcbs, 1) == -1 <==> Height(c) >= MAX_PID
    ensures l' == if image.Loadable? && FindFree(k.pcbs, 1) != -1 then Pushed(l, k.active, FindFree(k.pcbs, 1)) else l
  {
    hide Refines, SetUp, SaveEsp, ExecuteStep, SavedStep, WithStack, Resaved, Height;
    HeightIsCount(k, l, c);
    ExecuteIs(k, sp, image);
    SavedIs(c, sp, image);
    if image.Loadable? && Height(c) < MAX_PID {
      l' := Pushed(l, k.active, FindFree(k.pcbs, 1));
      SetUpRefines(k, l, c, if Misread(image.entry) then k.pcbs[k.current].esp else sp);
    } else {
      l' := l;
    }
  }

  /** Not to save the caller's stack pointer is to save the one it has. */
  lemma ExecuteIs(k: State, sp: int, image: Image)
    requires k.current >= 1 && k.pcbs[k.current].present
    ensures image.NotLoadable? || FindFree(k.pcbs, 1) == -1 ==> ExecuteStep(k, sp, image) == (k, Failed)
    ensures image.Loadable? && FindFree(k.pcbs, 1) != -1 ==>
              ExecuteStep(k, sp, image) == if Misread(image.entry)
                                           then (SaveEsp(SetUp(k).0, k.current, k.pcbs[k.current].esp), Failed)
                                           else (SaveEsp(SetUp(k).0, k.current, sp), Launched)
  {
    var k' := SetUp(k).0;
    assert k'.pcbs[k.current := k'.pcbs[k.current].(esp := k'.pcbs[k.current].esp)] == k'.pcbs;
  }

  lemma SavedIs(c: SavedStacks, sp: int, image: Image)
    ensures var e, mine := Execute(sp, image), c.stacks[c.active];
            && (image.NotLoadable? || Height(c) >= MAX_PID ==> SavedStep(c, e) == (c, Failed))
            && (image.Loadable? && Height(c) < MAX_PID ==>
                  SavedStep(c, e) == if LikeError(image.entry)
                                     then (WithStack(c, Resaved(mine, Top(mine)) + [0]), Failed)
                                     else (WithStack(c, Resaved(mine, sp) + [0]), Launched))
  {
    var mine := c.stacks[c.active];
    assert Resaved(mine, Top(mine)) == mine;
  }

  lemma HeightIsCount(k: State, l: Layout, c: SavedStacks)
    requires Refines(k, l, c)
    ensures Holds(l, k.active, 0) && |l.place| == MAX_PID + 1 && k.active == c.active
    ensures FindFree(k.pcbs, 1) == -1 <==> Height(c) >= MAX_PID
    ensures k.pcbs[k.current].esp == Top(c.stacks[c.active]) && 1 <= k.current && k.pcbs[k.current].present
  {
    hide Parked, Chains;
    ParkedFacts(k.pcbs, l, c);
    FullExactlyAtTen(k.pcbs, l);
    BaseShells(k.pcbs, l, k.active);
  }

  /** A process that has been set up, with any stack pointer saved for its caller. */
  lemma SetUpRefines(k: State, l: Layout, c: SavedStacks, sp: int)
    requires Refines(k, l, c) && FindFree(k.pcbs, 1) != -1 && Holds(l, k.active, 0) && |l.place| == MAX_PID + 1
    ensures Refines(SaveEsp(SetUp(k).0, k.current, sp), Pushed(l, k.active, FindFree(k.pcbs, 1)),
                    WithStack(c, Resaved(c.stacks[c.active], sp) + [0]))
  {
    hide Parked, Chains;
    ParkedFacts(k.pcbs, l, c);
    PushParks(k.pcbs, l, c, FindFree(k.pcbs, 1), sp);
  }

  lemma HaltRefines(k: State, l: Layout, c: SavedStacks, sp: int) returns (l': Layout)
    requires Refines(k, l, c)
    ensures Refines(HaltStep(k, sp).0, l', SavedStep(c, Halt(sp)).0)
    ensures HaltStep(k, sp).1 == SavedStep(c, Halt(sp)).1
    ensures l' == if |l.pids[k.active]| == 1 then l else Popped(l, k.active)
  {
    hide Parked, Chains;
    ParkedFacts(k.pcbs, l, c);
    BaseShells(k.pcbs, l, k.active);
    if |l.pids[k.active]| == 1 {
      l' := l;
      RootSlotIsLowest(k.pcbs, l, k.active);
      RelaunchParks(k.pcbs, l, c, sp);
      assert HaltStep(k, sp).0.pcbs == k.pcbs[Root(c.active) := Pcb(sp, Root(c.active), true)];
    } else {
      l' := Popped(l, k.active);
      ParentWaits(k.pcbs, l, c);
      PopParks(k.pcbs, l, c);
    }
  }

  lemma OtherTop(pcbs: seq<Pcb>, l: Layout, t: int, u: int)
    requires Chains(pcbs, l) && IsTerminal(t) && IsTerminal(u) && t != u
    ensures Top(l.pids[t]) != Top(l.pids[u])
  {
    assert Holds(l, t, |l.pids[t]| - 1) && Holds(l, u, |l.pids[u]| - 1);
  }

  /** A tick with a live next entry, as one equation. */
  lemma TickResumes(k: State, sp: int)
    requires k.queue[(k.active + 1) % NUM_TERMINALS] != 0
    ensures var next := (k.active + 1) % NUM_TERMINALS;
            var pcbs := k.pcbs[k.current := k.pcbs[k.current].(esp := sp)];
            TickStep(k, sp) == (Kernel(pcbs, k.queue[k.active := k.current], k.queue[next], next, k.foreground,
                                       Mapped(k.foreground, next)), Resumed(pcbs[k.queue[next]].esp))
  {
  }

  lemma TickRefines(k: State, l: Layout, c: SavedStacks, sp: int)
    requires Refines(k, l, c)
    ensures Refines(TickStep(k, sp).0, l, SavedStep(c, Tick(sp)).0)
    ensures TickStep(k, sp).1 == SavedStep(c, Tick(sp)).1
  {
    hide Parked, Chains, TickStep;
    ParkedFacts(k.pcbs, l, c);
    var next: Terminal := (k.active + 1) % NUM_TERMINALS;
    var pcbs := k.pcbs[k.current := k.pcbs[k.current].(esp := sp)];
    var k': State := Kernel(pcbs, k.queue[k.active := k.current], k.queue[next], next, k.foreground,
        Mapped(k.foreground, next));
    assert k.queue[next] != 0 && pcbs[k.queue[next]].esp == Top(c.stacks[next]) by {
      BaseShells(k.pcbs, l, next);
      OtherTop(k.pcbs, l, k.active, next);
    }
    assert Refines(k', l, SavedStep(c, Tick(sp)).0) by {
      BaseShells(k.pcbs, l, k.active);
      TickParks(k.pcbs, l, c, sp);
    }
    TickResumes(k, sp);
  }

  lemma ShowRefines(k: State, l: Layout, c: SavedStacks, t: Terminal)
    requires Refines(k, l, c)
    ensures Refines(ShowStep(k, t).0, l, SavedStep(c, Show(t)).0)
    ensures ShowStep(k, t).1 == SavedStep(c, Show(t)).1
  {
    hide Parked;
  }

  /** Every step of the kernel is the same step of the saved stacks, with the same outcome. */
  lemma StepRefines(k: State, l: Layout, c: SavedStacks, e: Event) returns (l': Layout)
    requires Refines(k, l, c) && Legal(e)
    ensures Refines(Step(k, e).0, l', SavedStep(c, e).0)
    ensures Step(k, e).1 == SavedStep(c, e).1
  {
    hide Refines, ExecuteStep, HaltStep, TickStep, ShowStep, SavedStep;
    match e {
      case Tick(sp) => TickRefines(k, l, c, sp); l' := l;
      case Execute(sp, image) => l' := ExecuteRefines(k, l, c, sp, image);
      case Halt(sp) => l' := HaltRefines(k, l, c, sp);
      case Show(t) => ShowRefines(k, l, c, t); l' := l;
    }
  }

  ghost function Run(k: State, evs: seq<Event>): (State, seq<Outcome>)
    requires AllLegal(evs)
    decreases |evs|
  {
    if evs == [] then (k, [])
    else
      var (k1, o) := Step(k, evs[0]);
      var (k2, os) := Run(k1, evs[1..]);
      (k2, [o] + os)
  }

  /** In every run of ticks, executes, halts and terminal switches, each launch, each failure and each
      restored stack pointer is the one the saved stacks give; and the chains hold at the end. */
  lemma {:induction false} RunRefines(k: State, l: Layout, c: SavedStacks, evs: seq<Event>) returns (l': Layout)
    requires Refines(k, l, c) && AllLegal(evs)
    ensures Refines(Run(k, evs).0, l', SavedRun(c, evs).0)
    ensures Run(k, evs).1 == SavedRun(c, evs).1
    decreases |evs|
  {
    if evs == [] {
      l' := l;
    } else {
      var l1 := StepRefines(k, l, c, evs[0]);
      l' := RunRefines(Step(k, evs[0]).0, l1, SavedStep(c, evs[0]).0, evs[1..]);
    }
  }

  // ----- Call and return -----

  /** The kernel's state is that of three call stacks. */
  ghost predicate LikeCalls(k: State, c: CallStacks) {
    exists l, p :: Refines(k, l, p) && Follows(p, c)
  }

  /** All process tables with as many chain members as this one. */
  lemma SameHeight(k: State, l: Layout, p: SavedStacks, l2: Layout, p2: SavedStacks)
    requires Refines(k, l, p) && Refines(k, l2, p2)
    ensures Height(p) == Height(p2)
  {
    hide Chains;
    ChainsCount(k.pcbs, l);
    ChainsCount(k.pcbs, l2);
    ParkedFacts(k.pcbs, l, p);
    ParkedFacts(k.pcbs, l2, p2);
  }

  /** Each step of the kernel is call and return exactly unless it misreads an entry word. */
  lemma StepIsCallStep(k: State, c: CallStacks, e: Event)
    requires LikeCalls(k, c) && Legal(e)
    ensures LikeCalls(Step(k, e).0, CallStep(c, e).0) <==> !MisreadNow(c, e)
    ensures !MisreadNow(c, e) ==> Step(k, e).1 == CallStep(c, e).1
  {
    hide Refines, Follows, Step, SavedStep, CallStep, MisreadNow;
    var l, p :| Refines(k, l, p) && Follows(p, c);
    var l' := StepRefines(k, l, p, e);
    StepFollows(p, c, e);
    forall l2, p2: SavedStacks | Refines(Step(k, e).0, l2, p2) && Follows(p2, CallStep(c, e).0)
      ensures !MisreadNow(c, e)
    {
      SameHeight(Step(k, e).0, l', SavedStep(p, e).0, l2, p2);
      FollowsHeight(p2, CallStep(c, e).0);
    }
  }

  ghost predicate LikeCallsThroughout(k: State, c: CallStacks, evs: seq<Event>)
    requires AllLegal(evs)
    decreases |evs|
  {
    LikeCalls(k, c)
    && (evs != [] ==> Step(k, evs[0]).1 == CallStep(c, evs[0]).1
                      && LikeCallsThroughout(Step(k, evs[0]).0, CallStep(c, evs[0]).0, evs[1..]))
  }

  /** Every run is call and return at every moment exactly when no entry word is misread in it. */
  lemma {:induction false} RunIsCallStacks(k: State, c: CallStacks, evs: seq<Event>)
    requires LikeCalls(k, c) && AllLegal(evs)
    ensures LikeCallsThroughout(k, c, evs) <==> NoneMisread(c, evs)
    ensures NoneMisread(c, evs) ==> Run(k, evs).1 == CallRun(c, evs).1
    decreases |evs|
  {
    hide LikeCalls, Step, CallStep, MisreadNow;
    if evs != [] {
      StepIsCallStep(k, c, evs[0]);
      if !MisreadNow(c, evs[0]) {
        RunIsCallStacks(Step(k, evs[0]).0, CallStep(c, evs[0]).0, evs[1..]);
      } else {
        NotLikeCalls(Step(k, evs[0]).0, CallStep(c, evs[0]).0, evs[1..]);
      }
    }
  }

  lemma NotLikeCalls(k: State, c: CallStacks, evs: seq<Event>)
    requires !LikeCalls(k, c) && AllLegal(evs)
    ensures !LikeCallsThroughout(k, c, evs)
  {
  }

  /** With fewer than ten running, a program that loads is launched exactly unless its entry word is one of two. */
  lemma LaunchedExactly(k: State, l: Layout, c: SavedStacks, sp: int, entry: int)
    requires Refines(k, l, c) && Height(c) < 10
    ensures ExecuteStep(k, sp, Loadable(entry)).1 == Launched <==> entry != 1 && entry != 0xFFFF_FFFF
    ensures ExecuteStep(k, sp, Loadable(entry)).1 in {Launched, Failed}
  {
    HeightIsCount(k, l, c);
  }

  /** So a run in which no such program is executed is call and return throughout, with the outcomes of the call
      stacks. */
  lemma OrdinaryRun(k: State, c: CallStacks, evs: seq<Event>)
    requires LikeCalls(k, c) && AllLegal(evs)
    requires forall i :: 0 <= i < |evs| && evs[i].Execute? && evs[i].image.Loadable? ==>
               evs[i].image.entry != 1 && evs[i].image.entry != 0xFFFF_FFFF
    ensures LikeCallsThroughout(k, c, evs) && Run(k, evs).1 == CallRun(c, evs).1
  {
    OrdinaryNotMisread(c, evs);
    RunIsCallStacks(k, c, evs);
  }

  lemma {:induction false} OrdinaryNotMisread(c: CallStacks, evs: seq<Event>)
    requires forall i :: 0 <= i < |evs| && evs[i].Execute? && evs[i].image.Loadable? ==>
               evs[i].image.entry != 1 && evs[i].image.entry != 0xFFFF_FFFF
    ensures NoneMisread(c, evs)
    decreases |evs|
  {
    if evs != [] {
      OrdinaryNotMisread(CallStep(c, evs[0]).0, evs[1..]);
    }
  }

  /** Whichever terminal is shown, a terminal switch changes that and nothing of the processes; no other step does. */
  lemma ShownTerminal(k: State, e: Event)
    requires Legal(e)
    ensures Step(k, e).0.foreground == if e.Show? then e.terminal else k.foreground
    ensures e.Show? ==> Step(k, e).0 == k.(foreground := e.terminal, vmem := Step(k, e).0.vmem)
  {
  }

  /** An entry word that execute misreads: it returns an error, and yet the new process is there and runs, as a child of
      the caller. When it halts the caller resumes with whatever stack pointer was saved for it before. */
  lemma MisreadEntry(k: State, l: Layout, c: SavedStacks, sp: int, entry: int, sp': int)
    requires Refines(k, l, c) && (entry == 1 || entry == 0xFFFF_FFFF) && Height(c) < 10
    ensures var pid, (k', o) := FindFree(k.pcbs, 1), ExecuteStep(k, sp, Loadable(entry));
            && o == Failed && 4 <= pid <= MAX_PID && !k.pcbs[pid].present
            && k'.pcbs == k.pcbs[pid := Pcb(0, k.current, true)] && k'.current == pid
            && HaltStep(k', sp').1 == Resumed(k.pcbs[k.current].esp) && HaltStep(k', sp').0.current == k.current
  {
    hide Refines, Chains;
    HeightIsCount(k, l, c);
    FreeSlotIsHigh(k, l, c);
    ChildHalts(k, Loadable(entry), sp, sp');
  }

  /** With the base shells there, the next process gets a pid that halt does not take for one of them. */
  lemma FreeSlotIsHigh(k: State, l: Layout, c: SavedStacks)
    requires Refines(k, l, c)
    ensures FindFree(k.pcbs, 1) == -1 || FindFree(k.pcbs, 1) >= 4
  {
    assert Holds(l, 0, 0) && Holds(l, 1, 0) && Holds(l, 2, 0);
  }

  lemma ChildHalts(k: State, image: Image, sp: int, sp': int)
    requires image.Loadable? && Misread(image.entry) && FindFree(k.pcbs, 1) >= 4
    requires k.current >= 1 && k.pcbs[k.current].present
    ensures var pid, (k', o) := FindFree(k.pcbs, 1), ExecuteStep(k, sp, image);
            && o == Failed
            && k'.pcbs == k.pcbs[pid := Pcb(0, k.current, true)] && k'.current == pid
            && HaltStep(k', sp').1 == Resumed(k.pcbs[k.current].esp) && HaltStep(k', sp').0.current == k.current
  {
  }

  // ----- Boot: the first three ticks start the base shells -----

  /** No tick and no illegal terminal: what one terminal can do between two ticks. */
  ghost predicate Quiet(evs: seq<Event>) {
    AllLegal(evs) && forall i :: 0 <= i < |evs| ==> !evs[i].Tick?
  }

  /** A program was loaded, so that a process was set up for it. */
  ghost predicate Started(evs: seq<Event>) {
    exists i :: 0 <= i < |evs| && evs[i].Execute? && evs[i].image.Loadable?
  }

  /** Pids 1..d are present, d runs, and every pid that halt returns from has the one below as parent. */
  ghost predicate Tower(k: State, d: int) {
    && 1 <= d <= MAX_PID
    && k.current == d
    && (forall p :: 1 <= p <= MAX_PID ==> (k.pcbs[p].present <==> p <= d))
    && (forall p :: 4 <= p <= d ==> k.pcbs[p].parent == p - 1)
  }

  lemma TowerExecute(k: State, d: int, sp: int, image: Image)
    requires Tower(k, d)
    ensures var k' := ExecuteStep(k, sp, image).0;
            && Tower(k', if image.Loadable? && d < MAX_PID then d + 1 else d)
            && k'.active == k.active && k'.queue == k.queue
            && forall p :: 0 <= p < d ==> k'.pcbs[p].esp == k.pcbs[p].esp
  {
    if image.Loadable? {
      TowerSetUp(k, d);
    }
  }

  lemma TowerHalt(k: State, d: int, sp: int)
    requires Tower(k, d)
    ensures var k' := HaltStep(k, sp).0;
            && Tower(k', if d >= 4 then d - 1 else d)
            && k'.active == k.active && k'.queue == k.queue
            && forall p :: 0 <= p < d ==> k'.pcbs[p].esp == k.pcbs[p].esp
  {
    if d < 4 {
      assert FindFree(k.pcbs[d := k.pcbs[d].(present := false)], 1) == d;
    }
  }

  lemma TowerStep(k: State, d: int, e: Event) returns (d': int)
    requires Tower(k, d) && Legal(e) && !e.Tick?
    ensures Tower(Step(k, e).0, d')
    ensures d' == if e.Execute? && e.image.Loadable? && d < MAX_PID then d + 1 else if e.Halt? && d >= 4 then d - 1
            else d
    ensures Step(k, e).0.active == k.active && Step(k, e).0.queue == k.queue
    ensures forall p :: 0 <= p < d ==> Step(k, e).0.pcbs[p].esp == k.pcbs[p].esp
  {
    hide ExecuteStep, HaltStep, TickStep;
    d' := if e.Execute? && e.image.Loadable? && d < MAX_PID then d + 1 else if e.Halt? && d >= 4 then d - 1 else d;
    match e {
      case Execute(sp, image) => TowerExecute(k, d, sp, image);
      case Halt(sp) => TowerHalt(k, d, sp);
      case Show(_) =>
    }
  }

  /** Between ticks the tower is left as it was, unless a program was started: then it never gets that low again,
      because halt takes pids 2 and 3 for base shells. */
  lemma {:induction false} TowerRun(k: State, d: int, evs: seq<Event>) returns (d': int)
    requires Tower(k, d) && Quiet(evs)
    ensures Tower(Run(k, evs).0, d')
    ensures d < 4 ==> d' >= d
    ensures d >= 3 ==> d' >= 3
    ensures d < 3 ==> (d' == d <==> !Started(evs))
    ensures Run(k, evs).0.active == k.active && Run(k, evs).0.queue == k.queue
    ensures forall p :: 0 <= p < d && p < 3 ==> Run(k, evs).0.pcbs[p].esp == k.pcbs[p].esp
    decreases |evs|
  {
    if evs == [] {
      d' := d;
    } else {
      var d1 := TowerStep(k, d, evs[0]);
      d' := TowerRun(Step(k, evs[0]).0, d1, evs[1..]);
      assert evs == [evs[0]] + evs[1..];
      assert Started(evs) <==> Started([evs[0]]) || Started(evs[1..]) by {
        assert [evs[0]][0] == evs[0];
        if Started(evs) {
          var i :| 0 <= i < |evs| && evs[i].Execute? && evs[i].image.Loadable?;
          assert i > 0 ==> evs[1..][i - 1] == evs[i];
        }
        if Started(evs[1..]) {
          var i :| 0 <= i < |evs| - 1 && evs[1..][i].Execute? && evs[1..][i].image.Loadable?;
          assert evs[i + 1] == evs[1..][i];
        }
      }
      assert Started([evs[0]]) <==> evs[0].Execute? && evs[0].image.Loadable? by {
        assert [evs[0]][0] == evs[0];
      }
    }
  }

  /** Setting up a process on top of a tower adds one to it, if there is room. */
  lemma TowerSetUp(k: State, d: int)
    requires Tower(k, d)
    ensures var (k', ok) := SetUp(k);
            && (ok <==> d < MAX_PID)
            && Tower(k', if ok then d + 1 else d)
            && k'.pcbs == (if ok then k.pcbs[d + 1 := Pcb(0, d, true)] else k.pcbs)
            && k'.active == k.active && k'.queue == k.queue && k'.foreground == k.foreground
            && k'.vmem == if ok then Mapped(k.foreground, k.active) else k.vmem
  {
    var pid := FindFree(k.pcbs, 1);
    assert pid != -1 ==> pid == d + 1;
    assert k.pcbs[MAX_PID].present <==> d == MAX_PID;
  }

  /** Launching on top of a tower adds one to it, if there is room. */
  lemma TowerLaunch(k: State, d: int, sp: int)
    requires Tower(k, d)
    ensures var k' := Launch(k, sp).0;
            && (d < MAX_PID ==>
                  && Tower(k', d + 1) && k'.pcbs[d + 1] == Pcb(0, d, true)
                  && k'.vmem == Mapped(k.foreground, k.active))
            && (d == MAX_PID ==> Tower(k', d))
            && k'.active == k.active && k'.queue == k.queue && k'.foreground == k.foreground
            && (forall p :: 0 <= p < d ==> k'.pcbs[p].esp == k.pcbs[p].esp)
            && (d < MAX_PID ==> k'.pcbs[d].esp == sp)
            && (d == MAX_PID ==> k' == k)
  {
    hide SetUp;
    TowerSetUp(k, d);
    if d == MAX_PID {
      NoSlot(k);
    }
  }

  lemma NoSlot(k: State)
    requires !SetUp(k).1
    ensures SetUp(k).0 == k
  {
  }

  /** A boot tick: the next run-queue entry is empty, so a shell goes into the lowest free slot. */
  lemma TowerTick(k: State, d: int, sp: int)
    requires Tower(k, d) && k.queue[(k.active + 1) % NUM_TERMINALS] == 0
    ensures var k' := TickStep(k, sp).0;
            && Tower(k', if d < MAX_PID then d + 1 else d)
            && (d < MAX_PID ==> k'.pcbs[d + 1] == Pcb(0, d, true) && k'.vmem == Mapped(k.foreground, k'.active))
            && k'.active == (k.active + 1) % NUM_TERMINALS
            && k'.queue == k.queue[k.active := d]
            && k'.pcbs[d].esp == sp
            && (forall p :: 0 <= p < d ==> k'.pcbs[p].esp == k.pcbs[p].esp)
            && k'.foreground == k.foreground
  {
    var next := (k.active + 1) % NUM_TERMINALS;
    var moved: State := k.(queue := k.queue[k.active := d], active := next, pcbs := k.pcbs[d := k.pcbs[d].(esp := sp)]);
    assert Tower(moved, d);
    TowerLaunch(moved, d, sp);
    assert TickStep(k, sp) == Launch(moved, sp);
  }

  /** The first tick, out of the idle kernel. */
  lemma FirstTick(f: int, sp: int)
    requires IsTerminal(f)
    ensures var k := TickStep(PowerOn(f), sp).0;
            Tower(k, 1) && k.active == 1 && k.queue == [0, 0, 0]
  {
    assert FindFree(PowerOn(f).pcbs[0 := PowerOn(f).pcbs[0].(esp := sp)], 1) == 1;
  }

  const BASE_LAYOUT :=
    Layout([[3], [1], [2]],
           [Place(0, 0), Place(1, 0), Place(2, 0), Place(0, 0), Place(0, 0), Place(0, 0), Place(0, 0), Place(0, 0),
            Place(0, 0), Place(0, 0), Place(0, 0)])

  /** Three base shells, two of them preempted by the second and the third tick. */
  function BaseSaved(sps: (int, int, int)): SavedStacks {
    Saved([[0], [sps.1], [sps.2]], 0)
  }

  function BaseCalls(sps: (int, int, int)): CallStacks {
    Calls([[], [], []], [0, sps.1, sps.2], 0)
  }

  /** What the three ticks leave, when the stretches between them ended with d1 and d2 processes. */
  ghost predicate BootedAt(k: State, d1: int, d2: int, sps: (int, int, int)) {
    && 1 <= d1 && 2 <= d2 <= MAX_PID
    && Tower(k, if d2 < MAX_PID then d2 + 1 else d2)
    && (d2 < MAX_PID ==> k.pcbs[d2 + 1] == Pcb(0, d2, true) && k.vmem == Mapped(k.foreground, 0))
    && k.active == 0 && k.queue == [0, d1, d2]
    && k.pcbs[d2].esp == sps.2
    && (d1 == 1 ==> k.pcbs[1].esp == sps.1)
  }

  lemma {:induction false} RunConcat(k: State, a: seq<Event>, b: seq<Event>)
    requires AllLegal(a) && AllLegal(b)
    ensures AllLegal(a + b)
    ensures Run(k, a + b).0 == Run(Run(k, a).0, b).0
    decreases |a|
  {
    if a == [] {
      assert a + b == b;
    } else {
      assert (a + b)[0] == a[0] && (a + b)[1..] == a[1..] + b;
      var k1 := Step(k, a[0]).0;
      RunConcat(k1, a[1..], b);
      assert Run(k, a + b).0 == Run(k1, a[1..] + b).0;
      assert Run(k, a).0 == Run(k1, a[1..]).0;
    }
  }

  lemma RunConcat3(k: State, a: seq<Event>, b: seq<Event>, c: seq<Event>)
    requires AllLegal(a) && AllLegal(b) && AllLegal(c)
    ensures AllLegal(a + (b + c))
    ensures Run(k, a + (b + c)).0 == Run(Run(Run(k, a).0, b).0, c).0
  {
    RunConcat(Run(k, a).0, b, c);
    RunConcat(k, a, b + c);
  }

  /** A boot tick and what the shell it started does before the next one. */
  lemma Stretch(k: State, d: int, sp: int, evs: seq<Event>) returns (k': State, d': int)
    requires Tower(k, d) && k.queue[(k.active + 1) % NUM_TERMINALS] == 0 && Quiet(evs)
    ensures AllLegal([Tick(sp)] + evs) && k' == Run(k, [Tick(sp)] + evs).0
    ensures Tower(k', d') && k'.active == (k.active + 1) % NUM_TERMINALS && k'.queue == k.queue[k.active := d]
    ensures d == 1 ==> (d' == 2 <==> !Started(evs)) && d' >= 2
    ensures d >= 2 ==> d' >= 3
    ensures d <= 2 ==> k'.pcbs[d].esp == sp
    ensures d == 2 ==> k'.pcbs[1].esp == k.pcbs[1].esp
  {
    TowerTick(k, d, sp);
    var k1 := TickStep(k, sp).0;
    d' := TowerRun(k1, if d < MAX_PID then d + 1 else d, evs);
    k' := Run(k1, evs).0;
    assert ([Tick(sp)] + evs)[1..] == evs;
  }

  ghost function BootTrace(sps: (int, int, int), early: seq<Event>, late: seq<Event>): seq<Event> {
    ([Tick(sps.0)] + early) + (([Tick(sps.1)] + late) + [Tick(sps.2)])
  }

  lemma BootHeights(f: int, sps: (int, int, int), early: seq<Event>, late: seq<Event>)
      returns (k: State, d1: int, d2: int)
    requires IsTerminal(f) && Quiet(early) && Quiet(late)
    ensures AllLegal(BootTrace(sps, early, late)) && k == Run(PowerOn(f), BootTrace(sps, early, late)).0
    ensures BootedAt(k, d1, d2, sps)
    ensures d2 == 2 <==> !Started(early) && !Started(late)
    ensures d2 == 2 ==> d1 == 1
  {
    hide Run;
    var k1, k2;
    k1, d1 := FirstStretch(f, sps.0, early);
    k2, d2 := Stretch(k1, d1, sps.1, late);
    k := Stretch3(k2, d2, sps.2);
    assert [0, 0, 0][1 := d1][2 := d2] == [0, d1, d2];
    RunConcat3(PowerOn(f), [Tick(sps.0)] + early, [Tick(sps.1)] + late, [Tick(sps.2)]);
  }

  lemma FirstStretch(f: int, sp: int, evs: seq<Event>) returns (k: State, d: int)
    requires IsTerminal(f) && Quiet(evs)
    ensures AllLegal([Tick(sp)] + evs) && k == Run(PowerOn(f), [Tick(sp)] + evs).0
    ensures Tower(k, d) && k.active == 1 && k.queue == [0, 0, 0]
    ensures d == 1 <==> !Started(evs)
  {
    FirstTick(f, sp);
    d := TowerRun(TickStep(PowerOn(f), sp).0, 1, evs);
    k := Run(TickStep(PowerOn(f), sp).0, evs).0;
    assert ([Tick(sp)] + evs)[1..] == evs;
  }

  lemma Stretch3(k: State, d: int, sp: int) returns (k': State)
    requires Tower(k, d) && k.queue[(k.active + 1) % NUM_TERMINALS] == 0
    ensures k' == Run(k, [Tick(sp)]).0
    ensures Tower(k', if d < MAX_PID then d + 1 else d)
    ensures d < MAX_PID ==> k'.pcbs[d + 1] == Pcb(0, d, true) && k'.vmem == Mapped(k'.foreground, k'.active)
    ensures k'.active == (k.active + 1) % NUM_TERMINALS && k'.queue == k.queue[k.active := d]
    ensures k'.pcbs[d].esp == sp && forall p :: 0 <= p < d ==> k'.pcbs[p].esp == k.pcbs[p].esp
  {
    TowerTick(k, d, sp);
    k' := TickStep(k, sp).0;
    assert [Tick(sp)][1..] == [];
  }

  lemma CleanBoot(k: State, sps: (int, int, int))
    requires BootedAt(k, 1, 2, sps)
    ensures Refines(k, BASE_LAYOUT, BaseSaved(sps))
  {
    hide Chains;
    BaseChains(k.pcbs);
  }

  lemma BaseChains(pcbs: seq<Pcb>)
    requires |pcbs| == MAX_PID + 2 && forall p :: 1 <= p <= MAX_PID ==> (pcbs[p].present <==> p <= 3)
    ensures Chains(pcbs, BASE_LAYOUT)
  {
    assert forall p :: 1 <= p <= MAX_PID && pcbs[p].present ==> p == 1 || p == 2 || p == 3;
  }

  lemma TangledBoot(k: State, d1: int, d2: int, sps: (int, int, int), l: Layout, c: SavedStacks)
    requires BootedAt(k, d1, d2, sps) && d2 > 2
    ensures !Refines(k, l, c)
  {
    if Refines(k, l, c) {
      BaseShells(k.pcbs, l, 0);
      BaseShells(k.pcbs, l, 2);
      assert Holds(l, 0, |l.pids[0]| - 1) && Holds(l, 0, |l.pids[0]| - 2);
      OnlyThere(k.pcbs, l, 2, |l.pids[2]| - 1);
    }
  }

  /** Whichever terminal is shown by then, the kernel boots into three base shells, pids 1, 2 and 3, exactly when no
      program was started between the first and the third tick. */
  lemma BootExact(f: int, sps: (int, int, int), early: seq<Event>, late: seq<Event>)
    requires IsTerminal(f) && Quiet(early) && Quiet(late) && AllLegal(BootTrace(sps, early, late))
    ensures var k := Run(PowerOn(f), BootTrace(sps, early, late)).0;
            && ((exists l, c :: Refines(k, l, c)) <==> !Started(early) && !Started(late))
            && (!Started(early) && !Started(late) ==>
                  Refines(k, BASE_LAYOUT, BaseSaved(sps)) && LikeCalls(k, BaseCalls(sps)))
  {
    hide Run, Refines;
    var k, d1, d2 := BootHeights(f, sps, early, late);
    if d2 == 2 {
      CleanBoot(k, sps);
      assert Follows(BaseSaved(sps), BaseCalls(sps));
    } else {
      forall l, c: SavedStacks ensures !Refines(k, l, c) {
        TangledBoot(k, d1, d2, sps, l, c);
      }
    }
  }

  /** Before the first tick a terminal switch only changes which terminal is shown. */
  lemma {:induction false} ShownBeforeBoot(f: int, shows: seq<Event>) returns (f': int)
    requires IsTerminal(f) && AllLegal(shows) && forall i :: 0 <= i < |shows| ==> shows[i].Show?
    ensures IsTerminal(f') && Run(PowerOn(f), shows).0 == PowerOn(f')
    ensures f' == if shows == [] then f else shows[|shows| - 1].terminal
    decreases |shows|
  {
    if shows == [] {
      f' := f;
    } else {
      var t := shows[0].terminal;
      assert Step(PowerOn(f), shows[0]).0 == PowerOn(t);
      f' := ShownBeforeBoot(t, shows[1..]);
    }
  }

  /** From power-on, after any terminal switches and with no program started before the third tick, every later run of
      the kernel gives the outcomes of the saved stacks, and ends with the present pids on three chains rooted at
      pids 1, 2 and 3. It is call and return at every moment exactly when no entry word is misread. */
  lemma KernelFromPowerOn(shows: seq<Event>, sps: (int, int, int), early: seq<Event>, late: seq<Event>, evs: seq<Event>)
    returns (l: Layout)
    requires AllLegal(shows) && forall i :: 0 <= i < |shows| ==> shows[i].Show?
    requires Quiet(early) && Quiet(late) && AllLegal(BootTrace(sps, early, late)) && AllLegal(evs)
    requires !Started(early) && !Started(late)
    ensures var booted := Run(Run(PowerOn(0), shows).0, BootTrace(sps, early, late)).0;
            var saved := SavedRun(BaseSaved(sps), evs);
            && Refines(Run(booted, evs).0, l, saved.0) && Run(booted, evs).1 == saved.1
            && (LikeCallsThroughout(booted, BaseCalls(sps), evs) <==> NoneMisread(BaseCalls(sps), evs))
            && (NoneMisread(BaseCalls(sps), evs) ==> Run(booted, evs).1 == CallRun(BaseCalls(sps), evs).1)
  {
    hide Run, CallRun, SavedRun, Refines, LikeCalls, NoneMisread, LikeCallsThroughout;
    var f := ShownBeforeBoot(0, shows);
    BootExact(f, sps, early, late);
    var booted := Run(PowerOn(f), BootTrace(sps, early, late)).0;
    l := RunRefines(booted, BASE_LAYOUT, BaseSaved(sps), evs);
    RunIsCallStacks(booted, BaseCalls(sps), evs);
  }

  lemma ExecuteOnTower(k: State, d: int, sp: int, image: Image) returns (k': State)
    requires Tower(k, d) && d < MAX_PID && image.Loadable?
    ensures k' == Run(k, [Execute(sp, image)]).0
    ensures Tower(k', d + 1) && k'.active == k.active && k'.queue == k.queue
  {
    var e := Execute(sp, image);
    var d' := TowerStep(k, d, e);
    k' := Step(k, e).0;
    assert [e][1..] == [];
  }

  lemma HaltTangled(k: State, sp: int)
    requires Tower(k, 4) && k.queue[2] == 3
    ensures HaltStep(k, sp).1 == Resumed(k.pcbs[3].esp)
    ensures HaltStep(k, sp).0.current == HaltStep(k, sp).0.queue[2] == 3
  {
  }

  /** One program started early is enough: terminal 0 gets pid 4, and halting that shell resumes pid 3, the
      shell of terminal 2, with the stack pointer it was preempted with, instead of launching a new shell. */
  lemma EarlyExecuteTangles(f: int, sp0: int, sp1: int, image: Image, sp2: int, sp3: int, sp4: int) returns (k: State)
    requires IsTerminal(f) && image.Loadable?
    ensures k == Run(Run(PowerOn(f), [Tick(sp0)] + [Execute(sp1, image)]).0, [Tick(sp2)] + [Tick(sp3)]).0
    ensures k.active == 0 && k.current == 4
    ensures HaltStep(k, sp4).1 == Resumed(sp3) && HaltStep(k, sp4).0.current == HaltStep(k, sp4).0.queue[2] == 3
  {
    hide Run;
    var k1, d := FirstStretch(f, sp0, []);
    var k2 := ExecuteOnTower(k1, 1, sp1, image);
    var k3 := Stretch3(k2, 2, sp2);
    k := Stretch3(k3, 3, sp3);
    assert [Tick(sp0)] + [] == [Tick(sp0)];
    RunConcat(k2, [Tick(sp2)], [Tick(sp3)]);
    RunConcat(PowerOn(f), [Tick(sp0)], [Execute(sp1, image)]);
    HaltTangled(k, sp4);
  }

  // ----- The kernel's own variables, updated in place -----

  class TaskTable {
    const pcbs: array<Pcb>
    const queue: array<Pid>
    var current: Pid
    var active: Terminal
    var foreground: int
    var vmem: Frame

    ghost function View(): Kernel
      reads this, pcbs, queue
    {
      Kernel(pcbs[..], queue[..], current, active, foreground, vmem)
    }

    ghost predicate Valid()
      reads this, pcbs, queue
    {
      pcbs as object != queue && InBounds(View())
    }

    /** init_pcbs, on zeroed globals. */
    constructor ()
      ensures Valid() && View() == PowerOn(0)
      ensures fresh(pcbs) && fresh(queue)
    {
      pcbs := new Pcb[MAX_PID + 2](_ => Pcb(0, 0, false));
      queue := new Pid[NUM_TERMINALS](_ => 0);
      current, active, foreground, vmem := 0, 0, 0, Vga;
    }

    method FindFreePcb() returns (pid: int)
      requires Valid()
      ensures pid == -1 <==> forall p :: 1 <= p <= MAX_PID ==> pcbs[p].present
      ensures pid != -1 ==> 1 <= pid <= MAX_PID && !pcbs[pid].present && forall p :: 1 <= p < pid ==> pcbs[p].present
      ensures pid == FindFree(pcbs[..], 1)
    {
      var i := 1;
      while pcbs[i].present && i <= MAX_PID
        invariant 1 <= i <= MAX_PID + 1
        invariant forall p :: 1 <= p < i ==> pcbs[p].present
        invariant FindFree(pcbs[..], 1) == FindFree(pcbs[..], i)
        decreases MAX_PID + 1 - i
      {
        i := i + 1;
      }
      pid := if i > MAX_PID then -1 else i;
    }

    method SetContext(pid: Pid)
      requires Valid()
      modifies this`current, this`vmem
      ensures Valid() && View() == SwitchContext(old(View()), pid)
    {
      current := pid;
      vmem := if foreground == active then Vga else Buffer(active);
    }

    /** setup_new_process. */
    method SetUpProcess() returns (ok: bool)
      requires Valid()
      modifies this`current, this`vmem, pcbs
      ensures Valid() && (View(), ok) == SetUp(old(View()))
    {
      var pid := FindFreePcb();
      if pid == -1 {
        return false;
      }
      pcbs[pid] := Pcb(0, current, true);
      SetContext(pid);
      ok := true;
      assert pcbs[..] == SetUp(old(View())).0.pcbs;
    }

    /** Save the caller's stack pointer in the caller's PCB. */
    method SaveCaller(caller: Pid, sp: int)
      requires Valid()
      modifies pcbs
      ensures Valid() && View() == SaveEsp(old(View()), caller, sp)
    {
      pcbs[caller] := pcbs[caller].(esp := sp);
      assert pcbs[..] == SaveEsp(old(View()), caller, sp).pcbs;
    }

    /** kexecute of the shell. */
    method LaunchImage(sp: int) returns (o: Outcome)
      requires Valid()
      modifies this`current, this`vmem, pcbs
      ensures Valid() && (View(), o) == Launch(old(View()), sp)
    {
      var caller := current;
      var ok := SetUpProcess();
      if !ok {
        return Failed;
      }
      SaveCaller(caller, sp);
      o := Launched;
    }

    method ExecuteProgram(sp: int, image: Image) returns (o: Outcome)
      requires Valid()
      modifies this`current, this`vmem, pcbs
      ensures Valid() && (View(), o) == ExecuteStep(old(View()), sp, image)
    {
      if image.NotLoadable? {
        return Failed;
      }
      var caller := current;
      var ok := SetUpProcess();
      if !ok || Misread(image.entry) {
        return Failed;
      }
      SaveCaller(caller, sp);
      o := Launched;
    }

    method HaltProgram(sp: int) returns (o: Outcome)
      requires Valid()
      modifies this`current, this`vmem, pcbs
      ensures Valid() && (View(), o) == HaltStep(old(View()), sp)
    {
      pcbs[current] := pcbs[current].(present := false);
      assert pcbs[..] == old(pcbs[..])[current := old(pcbs[current]).(present := false)];
      if current < 4 {
        o := LaunchImage(sp);
      } else {
        SetContext(pcbs[current].parent);
        o := Resumed(pcbs[current].esp);
      }
    }

    method NextTask(sp: int) returns (o: Outcome)
      requires Valid()
      modifies this`current, this`vmem, this`active, pcbs, queue
      ensures Valid() && (View(), o) == TickStep(old(View()), sp)
    {
      queue[active] := current;
      pcbs[current] := pcbs[current].(esp := sp);
      var next := queue[(active + 1) % NUM_TERMINALS];
      active := (active + 1) % NUM_TERMINALS;
      assert queue[..] == old(queue[..][active := current]);
      assert pcbs[..] == old(pcbs[..][current := pcbs[current].(esp := sp)]);
      if next == 0 {
        o := LaunchImage(sp);
      } else {
        SetContext(queue[active]);
        o := Resumed(pcbs[current].esp);
      }
    }

    method SwitchVideo(t: int)
      requires Valid() && IsTerminal(t)
      modifies this`current, this`vmem, this`foreground
      ensures Valid() && View() == ShowStep(old(View()), t).0
    {
      if foreground != t {
        foreground := t;
        SetContext(current);
      }
    }
  }
}
