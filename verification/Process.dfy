/** The cooperative process switch (src/process/process.c:11-146). */
module Process {

  import opened Bytes
  import opened Options

  const PID_LIMIT := WORD_LIMIT
  const NEW_STACK := 0xC000_0000
  const NEW_FLAGS := 0x206

  /** context_t */
  datatype Context = Context(eax: word, ecx: word, edx: word, ebx: word, esp: word, ebp: word, esi: word, edi: word,
                             eflags: word, cr3: word, eip: word)

  /** The part of registers_t that the interrupt stub leaves in saved_context. */
  datatype Registers = Registers(eax: word, ecx: word, edx: word, ebx: word, useresp: word, ebp: word, esi: word,
                                 edi: word, eflags: word, eip: word)

  /** The state of the running process: what the stub saved, and the page directory in CR3. */
  function Running(r: Registers, cr3: word): Context {
    Context(r.eax, r.ecx, r.edx, r.ebx, r.useresp, r.ebp, r.esi, r.edi, r.eflags, cr3, r.eip)
  }

  /** Each register of c is the saved one of the same name; the stack pointer is that of user mode. */
  predicate SameRegisters(c: Context, r: Registers, cr3: word) {
    && c.eax == r.eax && c.ebx == r.ebx && c.ecx == r.ecx && c.edx == r.edx && c.esi == r.esi && c.edi == r.edi
    && c.ebp == r.ebp && c.esp == r.useresp && c.eflags == r.eflags && c.eip == r.eip && c.cr3 == cr3
  }

  datatype State = Created | Stopped

  class Pcb {
    const pid: nat
    var regs: Context
    var state: State

    constructor (pid: nat, regs: Context)
      ensures this.pid == pid && this.regs == regs && state == Created
    {
      this.pid, this.regs, state := pid, regs, Created;
    }
  }

  /** The pid that the search ends with: the greatest one not above the request, or the greatest of all after the
      search has wrapped around below 0. */
  ghost predicate Chosen(pids: set<nat>, asked: nat, t: nat) {
    && t in pids
    && if exists q :: q in pids && q <= asked then t <= asked && forall q :: q in pids && q <= asked ==> q <= t
       else forall q :: q in pids ==> q <= t
  }

  /** Every request ends at exactly one process, as long as one is left. */
  lemma {:induction false} ChosenOne(pids: set<nat>, asked: nat) returns (t: nat)
    requires pids != {}
    ensures Chosen(pids, asked, t) && forall s :: Chosen(pids, asked, s) ==> s == t
    decreases |pids|
  {
    var p :| p in pids;
    if pids == {p} {
      t := p;
    } else {
      var rest := pids - {p};
      assert pids == rest + {p} && rest != {};
      var r := ChosenOne(rest, asked);
      t := if p <= asked && (r > asked || r < p) then p else if p > asked && r > asked && p > r then p else r;
      assert forall q :: q in pids ==> q == p || q in rest;
    }
  }

  /** How often a 32-bit pid must be counted down to get from one number to another. */
  function StepsDown(from: int, to: int): int { (from - to) % 0x1_0000_0000 }

  /** The chosen process is the first that counting down from the request comes to. */
  lemma ChosenIsNearest(pids: set<nat>, asked: nat, t: nat, q: nat)
    requires Chosen(pids, asked, t) && q in pids && asked < PID_LIMIT && t < PID_LIMIT && q < PID_LIMIT
    ensures StepsDown(asked, t) <= StepsDown(asked, q)
  {
    Down(asked, t);
    Down(asked, q);
  }

  lemma Down(a: nat, b: nat)
    requires a < PID_LIMIT && b < PID_LIMIT
    ensures StepsDown(a, b) == if b <= a then a - b else a - b + PID_LIMIT
  {
  }

  ghost function Ids(ps: seq<Pcb>): set<nat> { set p | p in ps :: p.pid }

  ghost predicate DistinctIds(ps: seq<Pcb>) { forall i, j :: 0 <= i < j < |ps| ==> ps[i].pid != ps[j].pid }

  lemma InFront(ps: seq<Pcb>, p: Pcb)
    requires DistinctIds(ps) && p.pid !in Ids(ps)
    ensures DistinctIds([p] + ps) && Ids([p] + ps) == Ids(ps) + {p.pid}
    ensures forall q :: q in [p] + ps <==> q == p || q in ps
  {
    var now := [p] + ps;
    assert now[0] == p && forall i :: 0 < i < |now| ==> now[i] == ps[i - 1];
    forall j | 0 < j < |now| ensures now[j].pid != p.pid {
      assert ps[j - 1] in ps;
    }
  }

  lemma IdsWithout(ps: seq<Pcb>, k: nat)
    requires k < |ps| && DistinctIds(ps)
    ensures DistinctIds(ps[..k] + ps[k + 1..])
    ensures Ids(ps[..k] + ps[k + 1..]) == Ids(ps) - {ps[k].pid}
    ensures forall q :: q in ps[..k] + ps[k + 1..] <==> q in ps && q != ps[k]
  {
    var rest := ps[..k] + ps[k + 1..];
    forall q | q in rest
      ensures q in ps && q != ps[k] && q.pid != ps[k].pid
    {
      var i :| 0 <= i < |rest| && rest[i] == q;
      assert q == if i < k then ps[i] else ps[i + 1];
    }
    forall q | q in ps && q != ps[k]
      ensures q in rest
    {
      var i :| 0 <= i < |ps| && ps[i] == q;
      assert q == if i < k then rest[i] else rest[i - 1];
    }
  }

  // ---- What a processor has seen -----------------------------------------------------------------

  datatype Event =
    | Started(pid: nat, regs: Context)
    | Saved(pid: nat, saved: Registers, cr3: word)
    | Resumed(pid: nat, regs: Context)
    | Exited(pid: nat)

  ghost predicate Stores(e: Event) { e.Started? || e.Saved? }

  function StoredBy(e: Event): Context
    requires e.Started? || e.Saved?
  {
    if e.Started? then e.regs else Running(e.saved, e.cr3)
  }

  /** The registers that each process had when it last stopped running, or was made. */
  ghost function Kept(t: seq<Event>): map<nat, Context> {
    if t == [] then map[]
    else
      var e, was := t[|t| - 1], Kept(t[..|t| - 1]);
      if Stores(e) then was[e.pid := StoredBy(e)] else was
  }

  /** The process that runs. */
  ghost function OnCpu(t: seq<Event>): Option<nat> {
    if t == [] then None
    else match t[|t| - 1]
      case Started(_, _) => OnCpu(t[..|t| - 1])
      case Resumed(p, _) => Some(p)
      case _ => None
  }

  /** What may come next: a new process has a new pid, only the running process is saved or exits, and one process at
      a time is resumed, one that has not exited, with the registers kept for it. */
  ghost predicate MayFollow(t: seq<Event>, e: Event) {
    match e
    case Started(p, _) => forall i :: 0 <= i < |t| ==> t[i].pid != p
    case Saved(p, _, _) => OnCpu(t) == Some(p)
    case Exited(p) => OnCpu(t) == Some(p)
    case Resumed(p, regs) => OnCpu(t) == None && Exited(p) !in t && p in Kept(t) && regs == Kept(t)[p]
  }

  ghost predicate Faithful(t: seq<Event>) {
    t == [] || (Faithful(t[..|t| - 1]) && MayFollow(t[..|t| - 1], t[|t| - 1]))
  }

  lemma Append(t: seq<Event>, e: Event)
    ensures Faithful(t + [e]) <==> Faithful(t) && MayFollow(t, e)
    ensures Kept(t + [e]) == if Stores(e) then Kept(t)[e.pid := StoredBy(e)] else Kept(t)
    ensures OnCpu(t + [e]) == match e { case Started(_, _) => OnCpu(t) case Resumed(p, _) => Some(p) case _ => None }
  {
    assert (t + [e])[..|t|] == t;
  }

  /** The registers kept for a process that is not running were stored by its last event. */
  lemma {:induction false} KeptByLast(t: seq<Event>, p: nat) returns (i: nat)
    requires Faithful(t) && p in Kept(t) && Exited(p) !in t && OnCpu(t) != Some(p)
    ensures i < |t| && Stores(t[i]) && t[i].pid == p && StoredBy(t[i]) == Kept(t)[p]
    ensures forall k :: i < k < |t| ==> t[k].pid != p
  {
    var n := |t| - 1;
    if t[n].pid == p {
      assert t[n] in t;
      i := n;
    } else {
      i := KeptByLast(t[..n], p);
    }
  }

  /** In every run a process that is resumed gets back each register under its own name as it was when the process was last
      stopped, or those it was made with, and has not run in between. */
  lemma ResumedAsSaved(t: seq<Event>, j: nat) returns (i: nat)
    requires Faithful(t) && j < |t| && t[j].Resumed?
    ensures i < j && t[i].pid == t[j].pid
    ensures (t[i].Started? && t[j].regs == t[i].regs) || (t[i].Saved? && SameRegisters(t[j].regs, t[i].saved, t[i].cr3))
    ensures forall k :: i < k < j ==> t[k].pid != t[j].pid
  {
    FaithfulBefore(t, j);
    i := KeptByLast(t[..j], t[j].pid);
  }

  lemma {:induction false} FaithfulBefore(t: seq<Event>, j: nat)
    requires Faithful(t) && j < |t|
    ensures Faithful(t[..j]) && MayFollow(t[..j], t[j])
  {
    if j < |t| - 1 {
      FaithfulBefore(t[..|t| - 1], j);
      assert t[..|t| - 1][..j] == t[..j];
    }
  }

  /** The manager's own record agrees with a run. */
  ghost predicate Recorded(t: seq<Event>, kept: map<nat, Context>, running: Option<nat>, ids: set<nat>, limit: nat) {
    && Faithful(t) && Kept(t) == kept && OnCpu(t) == running
    && (forall i :: 0 <= i < |t| ==> t[i].pid < limit)
    && (forall p :: p in ids ==> p < limit && Exited(p) !in t)
  }

  ghost function StopEvents(running: Option<nat>, saved: Registers, cr3: word): (es: seq<Event>) {
    match running case None => [] case Some(p) => [Saved(p, saved, cr3)]
  }

  ghost function KeptWith(kept: map<nat, Context>, running: Option<nat>, regs: Context): map<nat, Context> {
    match running case None => kept case Some(p) => kept[p := regs]
  }

  lemma RecordStart(t: seq<Event>, kept: map<nat, Context>, running: Option<nat>, ids: set<nat>, limit: nat, regs: Context)
    requires Recorded(t, kept, running, ids, limit)
    ensures Recorded(t + [Started(limit, regs)], kept[limit := regs], running, ids + {limit}, limit + 1)
  {
    Append(t, Started(limit, regs));
  }

  lemma RecordSwitch(t: seq<Event>, kept: map<nat, Context>, running: Option<nat>, ids: set<nat>, limit: nat, saved: Registers,
                     cr3: word, next: nat, resumed: Context)
    requires Recorded(t, kept, running, ids, limit) && next in ids
    requires var now := KeptWith(kept, running, Running(saved, cr3)); next in now && now[next] == resumed
    ensures Recorded(t + StopEvents(running, saved, cr3) + [Resumed(next, resumed)],
                     KeptWith(kept, running, Running(saved, cr3)), Some(next), ids, limit)
  {
    var t' := t + StopEvents(running, saved, cr3);
    if running == None {
      assert t' == t;
    } else {
      Append(t, Saved(running.value, saved, cr3));
      assert running.value < limit by {
        assert t != [];
        RunningSeen(t);
      }
    }
    Append(t', Resumed(next, resumed));
  }

  lemma {:induction false} RunningSeen(t: seq<Event>)
    requires OnCpu(t) != None
    ensures exists i :: 0 <= i < |t| && t[i].pid == OnCpu(t).value
  {
    if t[|t| - 1].Started? {
      RunningSeen(t[..|t| - 1]);
      var i :| 0 <= i < |t| - 1 && t[..|t| - 1][i].pid == OnCpu(t).value;
      assert t[i].pid == OnCpu(t).value;
    }
  }

  lemma RecordExit(t: seq<Event>, kept: map<nat, Context>, p: nat, ids: set<nat>, limit: nat)
    requires Recorded(t, kept, Some(p), ids, limit) && p < limit
    ensures Recorded(t + [Exited(p)], kept, None, ids - {p}, limit)
  {
    Append(t, Exited(p));
  }

  class Manager {
    var list: seq<Pcb>
    var current: Pcb?
    var last: Pcb?
    var currPid: nat
    ghost var suspended: map<nat, Context>      // what each process had in its registers when it last stopped running
    ghost var trace: seq<Event>                 // everything since start-up

    ghost function Pids(): set<nat>
      reads this
    {
      Ids(list)
    }

    ghost predicate Valid()
      reads this, list
    {
      Switchable() && last == current
    }

    /** What holds between the choice of the next process and the switch to it. */
    ghost predicate Switchable()
      reads this, list
    {
      && DistinctIds(list)
      && (forall p :: p in list ==> p.pid < currPid <= PID_LIMIT && p.state == Created)
      && (current != null ==> current in list) && (last != null ==> last in list)
      && (forall p :: p in list && p != last ==> p.pid in suspended && p.regs == suspended[p.pid])
      && Recorded(trace, suspended, RunningPid(), Pids(), currPid)
    }

    ghost function RunningPid(): Option<nat>
      reads this
    {
      if last == null then None else Some(last.pid)
    }

    constructor ()
      ensures Valid() && list == [] && current == null && last == null && currPid == 0 && suspended == map[] && trace == []
    {
      list, current, last, currPid, suspended, trace := [], null, null, 0, map[], [];
    }

    method GetProcessByPid(pid: nat) returns (pcb: Pcb?)
      requires Valid()
      ensures pcb != null ==> pcb in list && pcb.pid == pid
      ensures pcb == null ==> pid !in Pids()
    {
      for i := 0 to |list|
        invariant forall k :: 0 <= k < i ==> list[k].pid != pid
      {
        if list[i].pid == pid {
          return list[i];
        }
      }
      pcb := null;
    }

    /** The search of change_process; it ends because some process is left. */
    method Search(asked: nat) returns (pcb: Pcb)
      requires Valid() && list != [] && asked < PID_LIMIT
      ensures pcb in list && Chosen(Pids(), asked, pcb.pid)
      ensures forall p :: p in list ==> StepsDown(asked, pcb.pid) <= StepsDown(asked, p.pid)
    {
      var found := GetProcessByPid(asked);
      var pid := asked;
      ghost var wrapped := false;
      assert list[0].pid in Pids();
      while found == null
        invariant 0 <= pid < PID_LIMIT
        invariant found != null ==> found in list && Chosen(Pids(), asked, found.pid)
        invariant found == null ==> !wrapped ==> pid <= asked && forall q :: q in Pids() && q <= asked ==> q <= pid
        invariant found == null ==> wrapped ==> (forall q :: q in Pids() ==> asked < q <= pid)
        decreases found == null, if wrapped then pid else PID_LIMIT + pid
      {
        found := GetProcessByPid(pid);
        if pid == 0 {
          wrapped := true;
          pid := PID_LIMIT - 1;
        } else {
          pid := pid - 1;
        }
      }
      pcb := found;
      forall p | p in list
        ensures StepsDown(asked, pcb.pid) <= StepsDown(asked, p.pid)
      {
        Listed(p);
        ChosenIsNearest(Pids(), asked, pcb.pid, p.pid);
      }
    }

    /** context_switch to `current`: the process that ran until now is saved, the new one is resumed. */
    method ContextSwitch(saved: Registers, cr3: word) returns (next: Context, cr3': word)
      requires Switchable() && current != null
      modifies this`last, this`suspended, this`trace, last
      ensures Valid() && last == current
      ensures suspended == KeptWith(old(suspended), old(RunningPid()), Running(saved, cr3))
      ensures old(last) != null ==> old(last.pid) in suspended && SameRegisters(suspended[old(last.pid)], saved, cr3)
      ensures forall p :: p in old(suspended) && (old(last) == null || p != old(last.pid)) ==> p in suspended && suspended[p] == old(suspended)[p]
      ensures current.pid in suspended && next == suspended[current.pid]
      ensures trace == old(trace) + StopEvents(old(RunningPid()), saved, cr3) + [Resumed(current.pid, next)]
      ensures cr3' == if next.cr3 != 0 then next.cr3 else cr3
    {
      hide Recorded, Ids;
      ghost var was := RunningPid();
      if last != null {
        last.regs := Running(saved, cr3);
        suspended := suspended[last.pid := last.regs];
      }
      next := current.regs;
      cr3' := if next.cr3 != 0 then next.cr3 else cr3;
      Listed(current);
      RecordSwitch(trace, old(suspended), was, Pids(), currPid, saved, cr3, current.pid, next);
      trace := trace + StopEvents(was, saved, cr3) + [Resumed(current.pid, next)];
      last := current;
    }

    lemma Listed(p: Pcb)
      requires p in list
      ensures p.pid in Pids()
    {
    }

    lemma ListedIs()
      ensures forall q :: q in Pids() <==> exists p :: p in list && p.pid == q
    {
    }

    /** change_process. A request for a missing process 0 panics. A listed process is never stopped, so the test of
        its state finds nothing. */
    method ChangeProcess(pid: nat, saved: Registers, cr3: word) returns (next: Context, cr3': word, panic: bool)
      requires Valid() && list != [] && pid < PID_LIMIT
      modifies this`current, this`last, this`suspended, this`trace, list
      ensures Valid() && panic == (pid == 0 && 0 !in old(Pids()))
      ensures panic ==> suspended == old(suspended) && trace == old(trace) && current == old(current) && last == old(last)
      ensures !panic ==> current != null && last == current && Chosen(old(Pids()), pid, current.pid)
      ensures !panic ==> suspended == KeptWith(old(suspended), old(RunningPid()), Running(saved, cr3))
      ensures !panic && old(last) != null ==> old(last.pid) in suspended && SameRegisters(suspended[old(last.pid)], saved, cr3)
      ensures !panic ==> current.pid in suspended && next == suspended[current.pid]
      ensures !panic ==> trace == old(trace) + StopEvents(old(RunningPid()), saved, cr3) + [Resumed(current.pid, next)]
    {
      hide Recorded, Ids, Chosen, DistinctIds;
      var pcb := GetProcessByPid(pid);
      if pid == 0 && pcb == null {
        return Running(saved, cr3), cr3, true;
      }
      if pcb != null { Listed(pcb); }
      var target := Search(pid);
      current := target;
      next, cr3' := ContextSwitch(saved, cr3);
      panic := false;
    }

    /** create_process_from_routine: a new process with a new pid, which runs at once from its entry point. */
    method Create(entry: word, directory: word, saved: Registers, cr3: word) returns (next: Context, cr3': word, pcb: Pcb)
      requires Valid() && currPid < PID_LIMIT
      modifies this, list
      ensures Valid() && fresh(pcb) && list == [pcb] + old(list) && current == last == pcb
      ensures pcb.pid == old(currPid) && pcb.pid !in old(Pids()) && currPid == old(currPid) + 1
      ensures next.eip == entry && next.cr3 == directory && next.esp == 0xC000_0000 && next.eflags == 0x206
      ensures next.eax == next.ebx == next.ecx == next.edx == next.ebp == next.esi == next.edi == 0
      ensures old(last) != null ==> old(last.pid) in suspended && SameRegisters(suspended[old(last.pid)], saved, cr3)
      ensures suspended == KeptWith(old(suspended)[pcb.pid := next], old(RunningPid()), Running(saved, cr3))
      ensures trace == old(trace) + [Started(pcb.pid, next)] + StopEvents(old(RunningPid()), saved, cr3) +
                         [Resumed(pcb.pid, next)]
    {
      hide Recorded, Ids, DistinctIds;
      var start := Context(0, 0, 0, 0, NEW_STACK, 0, 0, 0, NEW_FLAGS, directory, entry);
      pcb := Enlist(start);
      var panic;
      next, cr3', panic := ChangeProcess(pcb.pid, saved, cr3);
      assert list[0] == pcb && current in list;
    }

    /** A new process at the front of the list, not running yet. */
    method Enlist(start: Context) returns (pcb: Pcb)
      requires Valid() && currPid < PID_LIMIT
      modifies this`list, this`currPid, this`suspended, this`trace
      ensures Valid() && fresh(pcb) && list == [pcb] + old(list) && pcb.pid == old(currPid) && currPid == old(currPid) + 1
      ensures pcb.pid !in old(Pids()) && Pids() == old(Pids()) + {pcb.pid} && forall q :: q in Pids() ==> q <= pcb.pid
      ensures suspended == old(suspended)[pcb.pid := start] && trace == old(trace) + [Started(pcb.pid, start)]
    {
      hide Recorded, Ids, DistinctIds;
      pcb := new Pcb(currPid, start);
      RecordStart(trace, suspended, RunningPid(), Pids(), currPid, start);
      ListedIs();
      InFront(list, pcb);
      currPid, list := currPid + 1, [pcb] + list;
      suspended, trace := suspended[pcb.pid := start], trace + [Started(pcb.pid, start)];
    }

    /** exit: the running process leaves the list, and the search begins at its own pid. The registers kept for
        the others stay; what the exiting process had in its registers is not kept. */
    method Exit(self: nat, saved: Registers, cr3: word) returns (next: Context, cr3': word, panic: bool)
      requires Valid() && current != null && self < |list| && list[self] == current && |list| > 1
      modifies this`list, this`current, this`last, this`suspended, this`trace, list
      ensures Valid() && list == old(list[..self]) + old(list[self + 1..])
      ensures panic == (old(current.pid) == 0) && suspended == old(suspended)
      ensures !panic ==> current != null && last == current
      ensures !panic ==> current != null && Chosen(old(Pids()) - {old(current.pid)}, old(current.pid), current.pid)
      ensures !panic ==> current != null && current.pid in old(suspended) && next == old(suspended)[current.pid]
      ensures panic ==> trace == old(trace) + [Exited(old(current.pid))]
      ensures !panic ==> current != null && trace == old(trace) + [Exited(old(current.pid)), Resumed(current.pid, next)]
    {
      hide Recorded, Ids, Chosen, DistinctIds;
      var pid := current.pid;
      Delist(self);
      next, cr3', panic := ChangeProcess(pid, saved, cr3);
    }

    /** The running process is stopped and taken off the list. */
    method Delist(self: nat)
      requires Valid() && current != null && self < |list| && list[self] == current
      modifies this`list, this`current, this`last, this`trace, current
      ensures Valid() && list == old(list[..self]) + old(list[self + 1..]) && current == null
      ensures Pids() == old(Pids()) - {old(current.pid)} && trace == old(trace) + [Exited(old(current.pid))]
    {
      hide Recorded, Ids, DistinctIds;
      ghost var was, pid := list, current.pid;
      current.state := Stopped;
      list := list[..self] + list[self + 1..];
      IdsWithout(was, self);
      RecordExit(trace, suspended, pid, Ids(was), currPid);
      trace := trace + [Exited(pid)];
      current, last := null, null;
    }
  }
}
