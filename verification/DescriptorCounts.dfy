/** Reference counting of open files across processes (kernel/hilevel.c): an entry
    is freed only when the last descriptor naming it goes. */
module DescriptorCounts {
  import opened Common
  import opened Descriptors
  import opened KernelState

  /** References to entry g from live process p. */
  function RefsOf(s: State, p: nat, g: int): nat
    requires p < |s.pcb|
  {
    if Bit(s.alloc, p) then Count(s.pcb[p].fdt, g) else 0
  }

  /** Live (process, descriptor) pairs naming entry g, for processes from p on. */
  function RefsFrom(s: State, g: int, p: nat): nat
    requires |s.pcb| == 32 && p <= 32
    decreases 32 - p
  {
    if p == 32 then 0 else RefsOf(s, p, g) + RefsFrom(s, g, p + 1)
  }

  function Refs(s: State, g: int): nat
    requires |s.pcb| == 32
  {
    RefsFrom(s, g, 0)
  }

  /** Live descriptors only name entries in use. */
  predicate TablesOk(s: State)
    requires |s.pcb| == 32
  {
    forall p :: 0 <= p < 32 && Bit(s.alloc, p) ==> NamesUsed(s.pcb[p].fdt, s.openft)
  }

  /** Each open file's count is the number of live descriptors naming it; once a
      process has been killed, which closes nothing, it is at least that. */
  predicate Counted(s: State, exact: bool)
    requires |s.pcb| == 32
  {
    forall g :: 0 <= g < |s.openft| && s.openft[g].Used? && s.openft[g].fd.kind == File ==>
      var n := s.openft[g].fd.openCount;
      1 <= n && Refs(s, g) <= n && (exact ==> n == Refs(s, g))
  }

  ghost predicate FilesOk(s: State, exact: bool) { Shaped(s) && TablesOk(s) && Counted(s, exact) }

  lemma {:induction false} RefsChange(s: State, t: State, q: nat, g: int, p: nat)
    requires |s.pcb| == |t.pcb| == 32 && q < 32 && p <= 32
    requires forall j :: 0 <= j < 32 && j != q ==>
               t.pcb[j].fdt == s.pcb[j].fdt && (Bit(t.alloc, j) <==> Bit(s.alloc, j))
    ensures RefsFrom(t, g, p) == RefsFrom(s, g, p) + if p <= q then RefsOf(t, q, g) - RefsOf(s, q, g) else 0
    decreases 32 - p
  {
    if p < 32 { RefsChange(s, t, q, g, p + 1); }
  }

  lemma {:induction false} RefsAtLeast(s: State, q: nat, g: int, p: nat)
    requires |s.pcb| == 32 && p <= q < 32
    ensures RefsFrom(s, g, p) >= RefsOf(s, q, g)
    decreases 32 - p
  {
    if p < q { RefsAtLeast(s, q, g, p + 1); }
  }

  lemma {:induction false} RefsNone(s: State, g: int, p: nat)
    requires |s.pcb| == 32 && p <= 32
    requires forall q, fd :: 0 <= q < 32 && Bit(s.alloc, q) && 0 <= fd < |s.pcb[q].fdt| ==> s.pcb[q].fdt[fd] != g
    ensures RefsFrom(s, g, p) == 0
    decreases 32 - p
  {
    if p < 32 {
      CountPositive(s.pcb[p].fdt, g, 0);
      RefsNone(s, g, p + 1);
    }
  }

  /** The running process with other descriptors, and another global table. */
  function WithFiles(s: State, fdt: seq<int>, openft: seq<FileSlot>): State
    requires s.current < |s.pcb|
  {
    s.(pcb := s.pcb[s.current := s.pcb[s.current].(fdt := fdt)], openft := openft)
  }

  lemma RefsWith(s: State, fdt: seq<int>, openft: seq<FileSlot>, g: int)
    requires |s.pcb| == 32 && s.current < 32 && Bit(s.alloc, s.current)
    ensures Refs(WithFiles(s, fdt, openft), g) == Refs(s, g) + Count(fdt, g) - Count(s.pcb[s.current].fdt, g)
  {
    RefsChange(s, WithFiles(s, fdt, openft), s.current, g, 0);
  }

  // ------------------------------------------------------------------- close

  function CloseCall(s: State, fd: nat): State
    requires s.current < |s.pcb|
  {
    var (fdt, openft) := Close(s.pcb[s.current].fdt, s.openft, fd);
    WithFiles(s, fdt, openft)
  }

  /** Closing keeps the counts right, and frees an entry only if no live
      descriptor names it any more. */
  lemma CloseKeeps(s: State, fd: nat, exact: bool)
    requires FilesOk(s, exact) && Exists(s, s.current)
    ensures FilesOk(CloseCall(s, fd), exact)
    ensures forall g :: 0 <= g < 64 && s.openft[g].Used? && !CloseCall(s, fd).openft[g].Used? ==>
              Refs(CloseCall(s, fd), g) == 0
  {
    hide Bit, Shl1, CountFrom, RefsFrom;
    var t := CloseCall(s, fd);
    var fdt := s.pcb[s.current].fdt;
    if fd < 32 && fdt[fd] != -1 {
      var i := fdt[fd];
      assert NamesUsed(fdt, s.openft);
      forall g | 0 <= g < 64 ensures Refs(t, g) == Refs(s, g) - if g == i then 1 else 0 {
        CountUpdate(fdt, fd, -1, g, 0);
        RefsWith(s, fdt[fd := -1], t.openft, g);
      }
      forall p | 0 <= p < 32 && Bit(t.alloc, p) ensures NamesUsed(t.pcb[p].fdt, t.openft) {
        assert NamesUsed(s.pcb[p].fdt, s.openft);
        if Refs(t, i) == 0 { Unnamed(t, p, i); }
      }
    } else {
      assert t.pcb == s.pcb;
    }
  }

  lemma Unnamed(s: State, p: nat, g: int)
    requires |s.pcb| == 32 && p < 32 && Bit(s.alloc, p) && Refs(s, g) == 0
    ensures g !in s.pcb[p].fdt
  {
    RefsAtLeast(s, p, g, 0);
    CountPositive(s.pcb[p].fdt, g, 0);
  }

  /** An exiting process gives up every descriptor. */
  lemma {:induction false} CloseAllKeeps(s: State, fd: nat, exact: bool)
    requires FilesOk(s, exact) && Exists(s, s.current) && fd <= 32
    requires forall j :: 0 <= j < fd ==> s.pcb[s.current].fdt[j] == -1
    ensures var (fdt, openft) := CloseFrom(s.pcb[s.current].fdt, s.openft, fd);
            && FilesOk(WithFiles(s, fdt, openft), exact)
            && forall j :: 0 <= j < 32 ==> fdt[j] == -1
    decreases 32 - fd
  {
    var p := s.pcb[s.current];
    if fd == 32 {
      assert WithFiles(s, p.fdt, s.openft) == s;
    } else {
      CloseKeeps(s, fd, exact);
      var t := CloseCall(s, fd);
      assert NamesUsed(p.fdt, s.openft);
      CloseAllKeeps(t, fd + 1, exact);
      var (fdt, openft) := CloseFrom(p.fdt, s.openft, fd);
      assert WithFiles(t, fdt, openft) == WithFiles(s, fdt, openft);
    }
  }

  /** The counts stay right when a process exits. */
  lemma LeaveCounts(s: State, exact: bool)
    requires FilesOk(s, exact) && Exists(s, s.current)
    ensures FilesOk(Leave(s), exact)
  {
    hide Bit, Shl1, CloseFrom, TablesOk, Counted;
    CloseAllKeeps(s, 0, exact);
    CloseFromSizes(s.pcb[s.current].fdt, s.openft, 0);
    var (fdt, openft) := CloseFrom(s.pcb[s.current].fdt, s.openft, 0);
    RemoveLive(s, s.current);
    GoneCounts(WithFiles(s, fdt, openft), Leave(s), exact);
  }

  /** A process without open descriptors may go. */
  lemma GoneCounts(s: State, t: State, exact: bool)
    requires FilesOk(s, exact) && Shaped(t) && t.openft == s.openft
    requires forall j :: 0 <= j < 32 ==> s.pcb[s.current].fdt[j] == -1
    requires forall p :: 0 <= p < 32 ==>
               t.pcb[p].fdt == s.pcb[p].fdt && (Bit(t.alloc, p) <==> p != s.current && Bit(s.alloc, p))
    ensures FilesOk(t, exact)
  {
    hide Bit, Shl1, CountFrom, RefsFrom;
    forall g | 0 <= g < 64 ensures Refs(t, g) == Refs(s, g) {
      CountPositive(s.pcb[s.current].fdt, g, 0);
      RefsChange(s, t, s.current, g, 0);
    }
    forall p | 0 <= p < 32 && Bit(t.alloc, p) ensures NamesUsed(t.pcb[p].fdt, t.openft) {
      assert NamesUsed(s.pcb[p].fdt, s.openft);
    }
  }

  /** After a kill the counts can only be too high. */
  lemma KillCounts(s: State, pid: nat, exact: bool)
    requires FilesOk(s, exact)
    ensures FilesOk(Kill(s, pid), false)
    ensures pid < 32 && Exists(s, pid) ==>
              forall g :: 0 <= g < 64 ==> Refs(Kill(s, pid), g) == Refs(s, g) - Count(s.pcb[pid].fdt, g)
  {
    if pid < 32 && Exists(s, pid) {
      var t := Kill(s, pid);
      RemoveLive(s, pid);
      forall g | 0 <= g < 64 ensures Refs(t, g) == Refs(s, g) - Count(s.pcb[pid].fdt, g) {
        RefsChange(s, t, pid, g, 0);
      }
    }
  }

  /** A forked child shares its parent's open files. */
  lemma ForkCounts(s: State, childStack: Option<nat>, exact: bool)
    requires FilesOk(s, exact) && Exists(s, s.current) && |s.ctx.gpr| == 13 && HasStack(s, childStack)
    ensures FilesOk(Fork(s, childStack), exact)
  {
    hide Bit, Shl1, ShareFrom, CountFrom, RefsFrom, NamesUsed;
    var t, c := Fork(s, childStack), FirstClear(s.alloc, 0);
    var fdt := s.pcb[s.current].fdt;
    if c < 32 {
      TakeBit(s.alloc, c);
      assert NamesUsed(fdt, s.openft);
      BornCounts(s, t, c, exact);
    } else {
      forall g | 0 <= g < 64 ensures Refs(t, g) == Refs(s, g) { RefsChange(s, t, s.current, g, 0); }
      forall p | 0 <= p < 32 && Bit(t.alloc, p) ensures NamesUsed(t.pcb[p].fdt, t.openft) {
        assert NamesUsed(s.pcb[p].fdt, s.openft);
      }
    }
  }

  /** A new process with the caller's descriptors adds to the counts what it names. */
  lemma BornCounts(s: State, t: State, c: nat, exact: bool)
    requires FilesOk(s, exact) && Exists(s, s.current) && Shaped(t) && c < 32 && !Bit(s.alloc, c)
    requires forall p :: 0 <= p < 32 ==>
               && t.pcb[p].fdt == (if p == c then s.pcb[s.current].fdt else s.pcb[p].fdt)
               && (Bit(t.alloc, p) <==> p == c || Bit(s.alloc, p))
    requires NamesUsed(s.pcb[s.current].fdt, s.openft) && t.openft == ShareFrom(s.openft, s.pcb[s.current].fdt, 0)
    ensures FilesOk(t, exact)
  {
    hide Bit, Shl1, ShareFrom, CountFrom, RefsFrom, NamesUsed;
    var fdt := s.pcb[s.current].fdt;
    forall g | 0 <= g < 64
      ensures Refs(t, g) == Refs(s, g) + Count(fdt, g)
      ensures t.openft[g].Used? <==> s.openft[g].Used?
      ensures t.openft[g].Used? ==>
                t.openft[g].fd == s.openft[g].fd.(openCount := s.openft[g].fd.openCount + Count(fdt, g))
    {
      RefsChange(s, t, c, g, 0);
      ShareCounts(s.openft, fdt, 0, g);
    }
    forall p | 0 <= p < 32 && Bit(t.alloc, p) ensures NamesUsed(t.pcb[p].fdt, t.openft) {
      assert p != c ==> NamesUsed(s.pcb[p].fdt, s.openft);
      NamesKept(t.pcb[p].fdt, s.openft, t.openft);
    }
  }

  lemma NamesKept(fdt: seq<int>, openft: seq<FileSlot>, openft': seq<FileSlot>)
    requires NamesUsed(fdt, openft) && |openft'| == |openft|
    requires forall g :: 0 <= g < |openft| ==> (openft'[g].Used? <==> openft[g].Used?)
    ensures NamesUsed(fdt, openft')
  {
  }

  // -------------------------------------------------------------- open and swap

  /** The system call OPEN: the state and the descriptor, or -1. */
  function OpenCall(s: State, flags: nat, path: string, found: bool, memory: nat): (State, int)
    requires s.current < |s.pcb|
  {
    var fdt := s.pcb[s.current].fdt;
    var fd: int := FirstFreeFd(fdt, 0);
    if fd == |fdt| then (s, -1)
    else
      var (openft, f) := OpenSlot(s.openft, flags, path, found, memory);
      if f == -1 then (s.(openft := openft), -1) else (WithFiles(s, fdt[fd := f], openft), fd)
  }

  lemma OpenCounts(s: State, flags: nat, path: string, found: bool, memory: nat, exact: bool)
    requires FilesOk(s, exact) && Exists(s, s.current)
    ensures FilesOk(OpenCall(s, flags, path, found, memory).0, exact)
  {
    hide Bit, Shl1, CountFrom, RefsFrom;
    var (t, r) := OpenCall(s, flags, path, found, memory);
    var fdt := s.pcb[s.current].fdt;
    var fd := FirstFreeFd(fdt, 0);
    var f := FirstFreeSlot(s.openft, 0);
    if fd < 32 && f < 64 && flags != 0 && memory > 0 {
      forall p, j | 0 <= p < 32 && Bit(s.alloc, p) && 0 <= j < 32 ensures s.pcb[p].fdt[j] != f {
        assert NamesUsed(s.pcb[p].fdt, s.openft);
      }
      RefsNone(s, f, 0);
      forall g | 0 <= g < 64 ensures Refs(t, g) == Refs(s, g) + if r != -1 && g == f then 1 else 0 {
        if r != -1 {
          CountUpdate(fdt, fd, f, g, 0);
          RefsWith(s, fdt[fd := f], t.openft, g);
        } else {
          RefsChange(s, t, 0, g, 0);
        }
      }
      forall p | 0 <= p < 32 && Bit(t.alloc, p) ensures NamesUsed(t.pcb[p].fdt, t.openft) {
        assert NamesUsed(s.pcb[p].fdt, s.openft);
      }
    }
  }

  /** An open succeeds exactly if flags are given, the file is to be had, both
      tables have room, and there is memory; it then uses the least free descriptor for a fresh entry
      with one reference.  Otherwise no descriptor changes, and at most one slot
      of the global table, a free one, is lost: exactly if flags, room and memory
      for the entry are there, and the file or the memory for its name is not. */
  lemma OpenMeans(s: State, flags: nat, path: string, found: bool, memory: nat)
    requires Shaped(s)
    ensures var (t, r) := OpenCall(s, flags, path, found, memory);
            var fdt, fdt' := s.pcb[s.current].fdt, t.pcb[s.current].fdt;
            && (r >= 0 <==> flags != 0 && found && -1 in fdt && Free in s.openft && memory >= 2)
            && (r >= 0 ==>
                  && r < 32 && fdt[r] == -1 && (forall j :: 0 <= j < r ==> fdt[j] != -1)
                  && fdt' == fdt[r := fdt'[r]] && 0 <= fdt'[r] < 64 && s.openft[fdt'[r]] == Free
                  && t.openft == s.openft[fdt'[r] := Used(Fdte(File, Mode(flags), path, 0, 0, 1))])
            && (r < 0 ==>
                  && r == -1 && fdt' == fdt
                  && (t.openft == s.openft
                      || exists g :: 0 <= g < 64 && s.openft[g] == Free && t.openft == s.openft[g := Leaked]))
            && (r < 0 && t.openft != s.openft
                <==> flags != 0 && -1 in fdt && Free in s.openft && memory >= 1 && (!found || memory == 1))
  {
    var fdt := s.pcb[s.current].fdt;
    var fd, f := FirstFreeFd(fdt, 0), FirstFreeSlot(s.openft, 0);
    assert -1 in fdt ==> fd < 32;
    assert Free in s.openft ==> f < 64;
    assert fd < 32 ==> fdt[fd] in fdt;
    assert f < 64 ==> s.openft[f] in s.openft;
  }

  // ------------------------------------------------ pipes, reading and writing

  function FilesOf(s: State): Files
    requires s.current < |s.pcb|
  {
    Files(s.pcb[s.current].fdt, s.openft, s.pipes)
  }

  /** The system call PIPE. */
  function PipeCall(s: State, memory: nat): State
    requires s.current < |s.pcb|
  {
    var f := OpenPipe(FilesOf(s), memory);
    WithFiles(s, f.fdt, f.openft).(pipes := f.pipes)
  }

  /** A pipe is made exactly if there are two free descriptors, an unused pipe, two
      free slots and memory for three allocations.  Its ends are then the least
      free descriptors and slots, with one reference each, the reading end first,
      and name each other.  Otherwise no descriptor and no slot changes, and the
      pipe is taken all the same if only the memory for its ends is missing. */
  lemma PipeMeans(s: State, memory: nat)
    requires Shaped(s)
    ensures var t := PipeCall(s, memory);
            var fdt, fdt' := s.pcb[s.current].fdt, t.pcb[s.current].fdt;
            && |t.pipes| == 32 && (t.openft != s.openft <==> PipeRoom(FilesOf(s)) && memory >= 3)
            && (t.pipes != s.pipes <==> PipeRoom(FilesOf(s)) && memory >= 1)
            && (t.openft == s.openft ==> t == s.(pipes := t.pipes))
            && (t.openft != s.openft ==> exists r, w, g, h, p :: PipeMade(s, t, r, w, g, h, p))
  {
    hide FirstFreeFd, FirstFreeSlot, FirstUnused;
    var f, t := FilesOf(s), PipeCall(s, memory);
    assert WithFiles(s, f.fdt, f.openft) == s;
    if PipeRoom(f) && memory >= 1 {
      var p := FirstUnused(f.pipes, 0);
      assert f.pipes[p := true][p] != f.pipes[p];
      if memory >= 3 {
        var r, g := FirstFreeFd(f.fdt, 0), FirstFreeSlot(f.openft, 0);
        assert t.openft[g].Used? && s.openft[g].Free?;
        assert PipeMade(s, t, r, FirstFreeFd(f.fdt, r + 1), g, FirstFreeSlot(f.openft, g + 1), p);
      }
    }
  }

  /** Pipe p has been opened with descriptor r on slot g for reading and w on h for writing. */
  predicate PipeMade(s: State, t: State, r: nat, w: nat, g: nat, h: nat, p: nat)
    requires Shaped(s)
  {
    var fdt := s.pcb[s.current].fdt;
    && r < w < 32 && g < h < 64 && p < 32
    && (forall j :: 0 <= j <= w ==> (fdt[j] == -1 <==> j == r || j == w))
    && (forall j :: 0 <= j <= h ==> (s.openft[j] == Free <==> j == g || j == h))
    && (forall j :: 0 <= j <= p ==> (s.pipes[j] <==> j < p))
    && t == s.(pcb := s.pcb[s.current := s.pcb[s.current].(fdt := fdt[r := g][w := h])],
               openft := s.openft[g := Used(Fdte(Pipe, 1, "", p, h, 1))][h := Used(Fdte(Pipe, 2, "", p, g, 1))],
               pipes := s.pipes[p := true])
  }

  /** Making a pipe keeps the counts right. */
  lemma PipeCounts(s: State, memory: nat, exact: bool)
    requires FilesOk(s, exact) && Exists(s, s.current)
    ensures FilesOk(PipeCall(s, memory), exact)
  {
    hide Bit, Shl1, CountFrom, RefsFrom, OpenPipe, PipeRoom;
    var t := PipeCall(s, memory);
    PipeMeans(s, memory);
    if t.openft == s.openft {
      forall g | 0 <= g < 64 ensures Refs(t, g) == Refs(s, g) { RefsChange(s, t, 0, g, 0); }
      forall p | 0 <= p < 32 && Bit(t.alloc, p) ensures NamesUsed(t.pcb[p].fdt, t.openft) {
        assert NamesUsed(s.pcb[p].fdt, s.openft);
      }
    } else {
      var r, w, g, h, p :| PipeMade(s, t, r, w, g, h, p);
      PipeMadeCounts(s, t, r, w, g, h, p, exact);
    }
  }

  lemma PipeMadeCounts(s: State, t: State, r: nat, w: nat, g: nat, h: nat, p: nat, exact: bool)
    requires FilesOk(s, exact) && Exists(s, s.current) && PipeMade(s, t, r, w, g, h, p)
    ensures FilesOk(t, exact)
  {
    hide Bit, Shl1, CountFrom, RefsFrom;
    var fdt := s.pcb[s.current].fdt;
    forall i | 0 <= i < 64 && i != g && i != h ensures Refs(t, i) == Refs(s, i) {
      CountUpdate(fdt, r, g, i, 0);
      CountUpdate(fdt[r := g], w, h, i, 0);
      RefsWith(s, fdt[r := g][w := h], t.openft, i);
      RefsChange(WithFiles(s, fdt[r := g][w := h], t.openft), t, 0, i, 0);
    }
    forall q | 0 <= q < 32 && Bit(t.alloc, q) ensures NamesUsed(t.pcb[q].fdt, t.openft) {
      assert NamesUsed(s.pcb[q].fdt, s.openft);
    }
  }

  /** The system calls WRITE and READ on descriptor fd: the state and the result. */
  function TransferCall(s: State, fd: nat, write: bool, n: int, answer: int): (State, int)
    requires s.current < |s.pcb|
  {
    var fdt := s.pcb[s.current].fdt;
    if fd >= |fdt| then (s, -1)
    else
      var (openft, r) := Transfer(s.openft, fdt[fd], write, n, answer);
      (s.(openft := openft), r)
  }

  lemma TransferCounts(s: State, fd: nat, write: bool, n: int, answer: int, exact: bool)
    requires FilesOk(s, exact)
    ensures FilesOk(TransferCall(s, fd, write, n, answer).0, exact)
  {
    hide Bit, Shl1, CountFrom, RefsFrom;
    var t := TransferCall(s, fd, write, n, answer).0;
    forall g | 0 <= g < 64 ensures Refs(t, g) == Refs(s, g) { RefsChange(s, t, 0, g, 0); }
    forall p | 0 <= p < 32 && Bit(t.alloc, p) ensures NamesUsed(t.pcb[p].fdt, t.openft) {
      assert NamesUsed(s.pcb[p].fdt, s.openft);
    }
  }

  /** The system call FD_SWAP. */
  function SwapCall(s: State, a: nat, b: nat): State
    requires s.current < |s.pcb|
  {
    var fdt := s.pcb[s.current].fdt;
    if a >= 32 || b >= 32 || |fdt| != 32 then s else WithFiles(s, fdt[a := fdt[b]][b := fdt[a]], s.openft)
  }

  lemma SwapCounts(s: State, a: nat, b: nat, exact: bool)
    requires FilesOk(s, exact) && Exists(s, s.current)
    ensures FilesOk(SwapCall(s, a, b), exact)
  {
    if a < 32 && b < 32 {
      var fdt, t := s.pcb[s.current].fdt, SwapCall(s, a, b);
      forall g | 0 <= g < 64 ensures Refs(t, g) == Refs(s, g) {
        CountUpdate(fdt, a, fdt[b], g, 0);
        CountUpdate(fdt[a := fdt[b]], b, fdt[a], g, 0);
        RefsWith(s, fdt[a := fdt[b]][b := fdt[a]], s.openft, g);
      }
      forall p | 0 <= p < 32 && Bit(t.alloc, p) ensures NamesUsed(t.pcb[p].fdt, t.openft) {
        assert NamesUsed(s.pcb[p].fdt, s.openft);
      }
    }
  }
}
