/** Descriptor tables of kernel/hilevel.c: each process has 32 descriptors, which
    name entries of the global table of 64 open files, or are -1. */
module Descriptors {

  datatype Kind = Pipe | Uart | File

  /** An entry of the global table: `path` is a file's, `pipe` the number of a
      pipe, whose ends name each other's entries as their cursors; openCount counts
      the descriptors naming it. */
  datatype Fdte = Fdte(kind: Kind, mode: nat, path: string, pipe: nat, cursor: nat, openCount: int)

  /** A table slot.  A failed open leaves its slot allocated but never filled in. */
  datatype FileSlot = Free | Leaked | Used(fd: Fdte)

  function FirstFreeFd(fdt: seq<int>, i: nat): (r: nat)
    requires i <= |fdt|
    ensures i <= r <= |fdt| && (r < |fdt| ==> fdt[r] == -1)
    ensures forall j :: i <= j < r ==> fdt[j] != -1
    decreases |fdt| - i
  {
    if i == |fdt| || fdt[i] == -1 then i else FirstFreeFd(fdt, i + 1)
  }

  function FirstFreeSlot(openft: seq<FileSlot>, i: nat): (r: nat)
    requires i <= |openft|
    ensures i <= r <= |openft| && (r < |openft| ==> openft[r] == Free)
    ensures forall j :: i <= j < r ==> openft[j] != Free
    decreases |openft| - i
  {
    if i == |openft| || openft[i] == Free then i else FirstFreeSlot(openft, i + 1)
  }

  /** fmode_from_flags: read is 1, write is 2; 3 is both. */
  function Mode(flags: nat): nat { flags % 4 }

  predicate Reads(mode: nat) { mode == 1 || mode == 3 }

  predicate Writes(mode: nat) { mode == 2 || mode == 3 }

  /** do_open: the new table, and the slot or -1.  `found` says whether the file
      was there or could be created, and `memory` how many allocations succeed. */
  function OpenSlot(openft: seq<FileSlot>, flags: nat, path: string, found: bool, memory: nat): (seq<FileSlot>, int) {
    var i: int := FirstFreeSlot(openft, 0);
    if flags == 0 || i == |openft| || memory == 0 then (openft, -1)
    else if !found || memory == 1 then (openft[i := Leaked], -1)
    else (openft[i := Used(Fdte(File, Mode(flags), path, 0, 0, 1))], i)
  }

  function FirstUnused(pipes: seq<bool>, i: nat): (r: nat)
    requires i <= |pipes|
    ensures i <= r <= |pipes| && (r < |pipes| ==> !pipes[r])
    ensures forall j :: i <= j < r ==> pipes[j]
    decreases |pipes| - i
  {
    if i == |pipes| || !pipes[i] then i else FirstUnused(pipes, i + 1)
  }

  /** The descriptors, table and pipes of do_pipe. */
  datatype Files = Files(fdt: seq<int>, openft: seq<FileSlot>, pipes: seq<bool>)

  /** There are two free descriptors, an unused pipe, and two free slots. */
  predicate PipeRoom(f: Files) {
    var r, p, g := FirstFreeFd(f.fdt, 0), FirstUnused(f.pipes, 0), FirstFreeSlot(f.openft, 0);
    && r + 1 < |f.fdt| && FirstFreeFd(f.fdt, r + 1) < |f.fdt| && p < |f.pipes|
    && g + 1 < |f.openft| && FirstFreeSlot(f.openft, g + 1) < |f.openft|
  }

  /** do_pipe: the pipe is taken with the first allocation, its two ends are
      entered after the third. */
  function OpenPipe(f: Files, memory: nat): Files {
    if !PipeRoom(f) || memory == 0 then f
    else
      var p := FirstUnused(f.pipes, 0);
      var taken := f.(pipes := f.pipes[p := true]);
      if memory < 3 then taken
      else
        var r, g := FirstFreeFd(f.fdt, 0), FirstFreeSlot(f.openft, 0);
        var r', g' := FirstFreeFd(f.fdt, r + 1), FirstFreeSlot(f.openft, g + 1);
        taken.(fdt := f.fdt[r := g][r' := g'],
               openft := f.openft[g := Used(Fdte(Pipe, 1, "", p, g', 1))][g' := Used(Fdte(Pipe, 2, "", p, g, 1))])
  }

  /** do_read and do_write on an entry in use: the table and the number returned.
      `answer` is what the pipe or the file system returns.  A read of the serial
      line ends at its first character and returns 0. */
  function Transfer(openft: seq<FileSlot>, g: int, write: bool, n: int, answer: int): (seq<FileSlot>, int) {
    if g < 0 || g >= |openft| || !openft[g].Used? then (openft, -1)
    else
      var fde := openft[g].fd;
      if fde.mode != 3 && fde.mode != (if write then 2 else 1) then (openft, 0)
      else match fde.kind
        case Uart => (openft, if write then n else 0)
        case Pipe => (openft, answer)
        case File => (openft[g := Used(fde.(cursor := fde.cursor + if answer >= 0 then answer else 0))], answer)
  }

  /** do_close on descriptor fd of a process: its descriptors and the table after. */
  function Close(fdt: seq<int>, openft: seq<FileSlot>, fd: nat): (r: (seq<int>, seq<FileSlot>))
    ensures |r.0| == |fdt| && |r.1| == |openft|
  {
    if fd >= |fdt| || fdt[fd] < 0 || fdt[fd] >= |openft| || !openft[fdt[fd]].Used? then (fdt, openft)
    else
      var i := fdt[fd];
      var fde := openft[i].fd.(openCount := openft[i].fd.openCount - 1);
      (fdt[fd := -1], openft[i := if fde.openCount <= 0 && fde.kind == File then Free else Used(fde)])
  }

  /** Closing every descriptor from fd on, as an exiting process does. */
  function CloseFrom(fdt: seq<int>, openft: seq<FileSlot>, fd: nat): (seq<int>, seq<FileSlot>)
    requires fd <= |fdt|
    decreases |fdt| - fd
  {
    if fd == |fdt| then (fdt, openft)
    else CloseFrom(Close(fdt, openft, fd).0, Close(fdt, openft, fd).1, fd + 1)
  }

  lemma {:induction false} CloseFromSizes(fdt: seq<int>, openft: seq<FileSlot>, fd: nat)
    requires fd <= |fdt|
    ensures |CloseFrom(fdt, openft, fd).0| == |fdt| && |CloseFrom(fdt, openft, fd).1| == |openft|
    decreases |fdt| - fd
  {
    if fd < |fdt| { CloseFromSizes(Close(fdt, openft, fd).0, Close(fdt, openft, fd).1, fd + 1); }
  }

  /** One more reference through descriptor value g. */
  function Shared(openft: seq<FileSlot>, g: int): (r: seq<FileSlot>)
    ensures |r| == |openft|
  {
    if 0 <= g < |openft| && openft[g].Used?
    then openft[g := Used(openft[g].fd.(openCount := openft[g].fd.openCount + 1))] else openft
  }

  /** The counting loop at the end of do_fork, from descriptor i on. */
  function ShareFrom(openft: seq<FileSlot>, fdt: seq<int>, i: nat): (r: seq<FileSlot>)
    requires i <= |fdt|
    ensures |r| == |openft|
    decreases |fdt| - i
  {
    if i == |fdt| then openft else ShareFrom(Shared(openft, fdt[i]), fdt, i + 1)
  }

  /** Every descriptor is unused or names an entry in use. */
  predicate NamesUsed(fdt: seq<int>, openft: seq<FileSlot>) {
    forall fd :: 0 <= fd < |fdt| ==> fdt[fd] == -1 || (0 <= fdt[fd] < |openft| && openft[fdt[fd]].Used?)
  }

  /** How many descriptors from index i on name entry g. */
  function CountFrom(fdt: seq<int>, g: int, i: nat): nat
    requires i <= |fdt|
    decreases |fdt| - i
  {
    if i == |fdt| then 0 else (if fdt[i] == g then 1 else 0) + CountFrom(fdt, g, i + 1)
  }

  function Count(fdt: seq<int>, g: int): nat { CountFrom(fdt, g, 0) }

  lemma {:induction false} CountUpdate(fdt: seq<int>, fd: nat, v: int, g: int, i: nat)
    requires i <= |fdt| && fd < |fdt|
    ensures CountFrom(fdt[fd := v], g, i) == CountFrom(fdt, g, i)
            + (if i <= fd then (if v == g then 1 else 0) - (if fdt[fd] == g then 1 else 0) else 0)
    decreases |fdt| - i
  {
    if i < |fdt| { CountUpdate(fdt, fd, v, g, i + 1); }
  }

  lemma {:induction false} CountPositive(fdt: seq<int>, g: int, i: nat)
    requires i <= |fdt|
    ensures CountFrom(fdt, g, i) > 0 <==> exists j :: i <= j < |fdt| && fdt[j] == g
    decreases |fdt| - i
  {
    if i < |fdt| { CountPositive(fdt, g, i + 1); }
  }

  /** Sharing all descriptors adds to each entry's count the number of
      descriptors that name it, and changes nothing else. */
  lemma {:induction false} ShareCounts(openft: seq<FileSlot>, fdt: seq<int>, i: nat, g: nat)
    requires i <= |fdt| && NamesUsed(fdt, openft) && g < |openft|
    ensures var r := ShareFrom(openft, fdt, i);
            && (openft[g].Used? <==> r[g].Used?)
            && (openft[g].Used? ==>
                  r[g].fd == openft[g].fd.(openCount := openft[g].fd.openCount + CountFrom(fdt, g, i)))
            && (!openft[g].Used? ==> r[g] == openft[g])
    decreases |fdt| - i
  {
    if i < |fdt| { ShareCounts(Shared(openft, fdt[i]), fdt, i + 1, g); }
  }
}
