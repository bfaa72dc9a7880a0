/**
  The process manager of `kernel/process.cpp` with its table and counters
  updated in place; each method is one operation of `Processes` on the view of
  the whole kernel.  Saving and loading registers is not part of the model:
  a context switch makes the chosen slot current.
 */
module ProcessTable {
  import opened Options
  import opened PageSet
  import opened Paging
  import opened Processes
  import opened KernelMemory
  import opened Words

  class ProcessManager {
    const processes: array<Process>
    const memory: MemoryManager
    var processCount: Word
    var nextPid: Word
    var currentProcess: Option<Index>

    ghost predicate Valid()
      reads this, memory
    {
      && processes.Length == 256
      && memory.Valid()
      && processes as object != memory.bitmap as object
      && processes as object != memory.memory as object
    }

    ghost function View(): Kernel
      requires Valid()
      reads this, processes, memory, memory.bitmap, memory.memory
    {
      Kernel(processes[..], processCount, nextPid, currentProcess, memory.View())
    }

    constructor (processes: array<Process>, memory: MemoryManager)
      requires processes.Length == 256 && memory.Valid()
      requires processes as object != memory.bitmap as object && processes as object != memory.memory as object
      ensures Valid() && this.processes == processes && this.memory == memory
      ensures processCount == 0 && nextPid == 1 && currentProcess == None
    {
      this.processes, this.memory := processes, memory;
      processCount, nextPid, currentProcess := 0, 1, None;
    }

    method Init()
      requires Valid()
      modifies this, processes
      ensures Valid() && View() == Zeroed(old(View()).m)
      ensures forall i: Index :: processes[i] == Process(0, Ready, 0, 0, 0, 0, 0)
      ensures processCount == 0 && nextPid == 1 && currentProcess.None?
    {
      for i := 0 to 256
        invariant forall j :: 0 <= j < i ==> processes[j] == ZEROED
      {
        processes[i] := ZEROED;
      }
      assert processes[..] == seq(256, _ => ZEROED);
      processCount, nextPid, currentProcess := 0, 1, None;
    }

    method GetProcess(pid: Word) returns (r: Option<Index>)
      requires Valid()
      ensures r == FindPid(processes[..], pid)
    {
      for i := 0 to 256
        invariant FindPid(processes[..], pid) == FindPidFrom(processes[..], pid, i)
      {
        if processes[i].pid == pid {
          return Some(i);
        }
      }
      return None;
    }

    method FirstInState(st: State) returns (r: Option<Index>)
      requires Valid()
      ensures r == FindState(processes[..], st)
    {
      for i := 0 to 256
        invariant FindState(processes[..], st) == FindStateFrom(processes[..], st, i)
      {
        if processes[i].state == st {
          return Some(i);
        }
      }
      return None;
    }

    /** The page allocation and mapping of `allocate_process_memory`. */
    method GrantPage(virt: Word) returns (ok: bool)
      requires Valid()
      modifies memory, memory.bitmap, memory.memory
      ensures Valid() && memory.View() == Grant(old(memory.View()), virt).0
      ensures ok == Grant(old(memory.View()), virt).1
    {
      var newMemory := memory.AllocatePage();
      if newMemory == 0 {
        return false;
      }
      memory.MapPage(newMemory, virt);
      return !memory.halted;
    }

    method AllocateProcessMemory(pid: Word, size: Word) returns (ok: bool)
      requires Valid()
      modifies processes, memory, memory.bitmap, memory.memory
      ensures Valid() && View() == AllocateMemory(old(View()), pid, size).0
      ensures ok == AllocateMemory(old(View()), pid, size).1
    {
      var proc := GetProcess(pid);
      if proc.None? {
        return false;
      }
      var i := proc.value;
      ok := GrantPage(processes[i].memorySize);
      if ok {
        Grow(i, size);
      }
    }

    method Grow(i: Index, size: Word)
      requires processes.Length == 256
      modifies processes
      ensures processes[..] == Grown(old(processes[..]), i, size)
    {
      processes[i] := processes[i].(memorySize := Wrap(processes[i].memorySize + size));
    }

    method MarkState(i: Index, st: State)
      requires processes.Length == 256
      modifies processes
      ensures processes[..] == SetState(old(processes[..]), i, st)
    {
      processes[i] := processes[i].(state := st);
    }

    method ClaimSlot(i: Index, entryPoint: Word) returns (pid: Word)
      requires Valid()
      modifies this, processes
      ensures Valid() && View() == Claim(old(View()), i, entryPoint) && pid == old(nextPid)
    {
      pid := nextPid;
      nextPid := Wrap(nextPid + 1);
      processes[i] := processes[i].(pid := pid, state := Ready, eip := entryPoint, memorySize := FOUR_MIB);
      assert processes[..] == Claim(old(View()), i, entryPoint).slots;
    }

    method SetUpStack(i: Index)
      requires Valid()
      modifies this, processes
      ensures Valid() && View() == Processes.SetUpStack(old(View()), i)
    {
      var stackTop := Wrap(processes[i].memorySize - 16);
      processes[i] := processes[i].(stackTop := stackTop, esp := stackTop, ebp := stackTop);
      processCount := Wrap(processCount + 1);
      assert processes[..] == Processes.SetUpStack(old(View()), i).slots;
    }

    method CreateProcess(entryPoint: Word) returns (pid: Word)
      requires Valid()
      modifies this, processes, memory, memory.bitmap, memory.memory
      ensures Valid() && View() == Create(old(View()), entryPoint).0
      ensures pid == Create(old(View()), entryPoint).1
    {
      if processCount >= 256 {
        return 0;
      }
      var proc := FirstInState(Terminated);
      if proc.None? {
        return 0;
      }
      var newPid := ClaimSlot(proc.value, entryPoint);
      var ok := AllocateProcessMemory(newPid, FOUR_MIB);
      if !ok {
        return 0;
      }
      pid := processes[proc.value].pid;
      SetUpStack(proc.value);
    }

    method TerminateProcess(pid: Word) returns (ok: bool)
      requires Valid()
      modifies this, processes
      ensures Valid() && View() == Terminate(old(View()), pid).0
      ensures ok == Terminate(old(View()), pid).1
      ensures TerminatesFirst(old(View()), pid, View(), ok)
    {
      TerminateEffect(View(), pid);
      var proc := GetProcess(pid);
      if proc.None? {
        return false;
      }
      MarkState(proc.value, Terminated);
      processCount := Wrap(processCount - 1);
      return true;
    }

    method Schedule()
      requires Valid()
      modifies this, processes
      ensures Valid() && View() == Processes.Schedule(old(View()))
      ensures Schedules(old(View()), View())
      ensures old(processCount) == 0 || (forall i: Index :: old(processes[i]).state != Ready) ==>
        processes[..] == old(processes[..]) && currentProcess == old(currentProcess)
      ensures processCount == old(processCount) && nextPid == old(nextPid)
    {
      ScheduleEffect(View());
      if processCount == 0 {
        return;
      }
      var next := FirstInState(Ready);
      if next.None? {
        return;
      }
      if currentProcess.Some? {
        MarkState(currentProcess.value, Ready);
      }
      MarkState(next.value, Running);
      currentProcess := next;
    }

    method SysExit()
      requires Valid()
      modifies this, processes
      ensures Valid() && View() == Exit(old(View()))
      ensures Exits(old(View()), View())
    {
      ExitEffect(View());
      if currentProcess.Some? {
        var _ := TerminateProcess(processes[currentProcess.value].pid);
      }
    }

    method SysFork() returns (result: int)
      requires Valid()
      modifies this, processes, memory, memory.bitmap, memory.memory
      ensures Valid() && View() == Fork(old(View())).0
      ensures result == Fork(old(View())).1
      ensures old(currentProcess).None? ==> result == -1 && View() == old(View())
    {
      if currentProcess.None? {
        return -1;
      }
      var pid := CreateProcess(0);
      var child := GetProcess(pid);
      if child.None? {
        return -1;
      }
      return AsInt(processes[child.value].pid);
    }
  }
}
