/** The system calls that use the descriptor table: open, read, write and
    close. The address check, the file system and the console are outside
    the model; what they would answer is passed in. */
module Syscall {
  import opened FdTable

  datatype Option<T> = None | Some(value: T)

  /** What a system call does to the caller: it returns a value, or the
      process is terminated with exit(status). */
  datatype Outcome = Exit(status: int) | Return(value: int)

  /** The values of a C `unsigned`. */
  type U32 = x: int | 0 <= x < 0x1_0000_0000

  /** The conversion of an `unsigned` to an `int` on a two's-complement target. */
  function ToInt32(u: U32): (r: int)
    ensures -0x8000_0000 <= r < 0x8000_0000
    ensures r % 0x1_0000_0000 == u
  {
    if u < 0x8000_0000 then u else u - 0x1_0000_0000
  }

  /** The effect of open on a table: the new table, what the caller sees and
      the file handed back to file_close (Some only when the table was full). */
  datatype OpenResult = OpenResult(state: Fdt, outcome: Outcome, closed: Option<nat>)

  /** open: `nameOk` is the address check on the name, `found` the answer of
      filesys_open (None for NULL). */
  function OpenSpec(s: Fdt, nameOk: bool, found: Option<nat>): (r: OpenResult)
    requires WellFormed(s)
    ensures WellFormed(r.state)
    ensures !nameOk ==> r.outcome == Exit(-1)
    ensures nameOk ==> r.outcome.Return?
    ensures nameOk && found.None? ==> r.outcome == Return(-1)
    ensures r.outcome == Exit(-1) || r.outcome == Return(-1) ==> r.state == s
    ensures r.closed.Some? <==> nameOk && found.Some? && r.outcome == Return(-1)
    ensures r.closed.Some? ==> r.closed == found
    ensures nameOk && found.Some? && r.outcome == Return(-1) <==>
              nameOk && found.Some? && forall k :: s.fdIdx <= k < FdCountLimit ==> !s.table[k].Empty?
    ensures r.outcome.Return? && r.outcome.value != -1 ==>
              found.Some? && s.fdIdx <= r.outcome.value < FdCountLimit
              && Lookup(s, r.outcome.value) == Empty
              && Lookup(r.state, r.outcome.value) == Entry.Open(found.value)
              && r.state.fdIdx == r.outcome.value
              && (forall k :: s.fdIdx <= k < r.outcome.value ==> !s.table[k].Empty?)
              && (forall k :: k != r.outcome.value ==> Lookup(r.state, k) == Lookup(s, k))
    ensures nameOk && found.Some? ==> (r.state, r.outcome.value) == Add(s, found.value)
  {
    if !nameOk then OpenResult(s, Exit(-1), None)
    else match found
      case None => OpenResult(s, Return(-1), None)
      case Some(f) =>
        var (t, d) := Add(s, f);
        OpenResult(t, Return(d), if d == -1 then Some(f) else None)
  }

  /** open, on the calling thread's table. */
  method Open(fdt: DescriptorTable, nameOk: bool, found: Option<nat>) returns (o: Outcome, closed: Option<nat>)
    requires fdt.Valid()
    modifies fdt, fdt.table
    ensures fdt.Valid() && fdt.table == old(fdt.table)
    ensures OpenResult(fdt.State(), o, closed) == OpenSpec(old(fdt.State()), nameOk, found)
  {
    if !nameOk {
      return Exit(-1), None;
    }
    match found {
      case None =>
        return Return(-1), None;
      case Some(f) =>
        var descr := fdt.AddFile(f);
        closed := if descr == -1 then Some(f) else None;
        return Return(descr), closed;
    }
  }

  /** The branch logic of read once the entry is known, as written: the range
      tests after the NULL test return 0. */
  function ReadRoute(fd: int, e: Entry, fileRead: nat -> int): (r: int)
    ensures e == Empty || e == StdoutMark ==> r == -1
    ensures !OutOfRange(fd) && e == StdinMark ==> r == 0
    ensures !OutOfRange(fd) && e.Open? ==> r == fileRead(e.file)
    ensures OutOfRange(fd) && e != Empty && e != StdoutMark ==> r == 0
  {
    if e == Empty || e == StdoutMark then -1
    else if fd < 0 then 0
    else if fd >= FdCountLimit then 0
    else if e != StdinMark then fileRead(e.file)
    else 0
  }

  /** read: `bufOk` is the address check on the buffer and `fileRead(x)` what
      file_read would return on file `x`. The stdin marker reads nothing. */
  method Read(fdt: DescriptorTable, fd: int, bufOk: bool, fileRead: nat -> int) returns (o: Outcome)
    requires fdt.Valid()
    ensures !bufOk ==> o == Exit(-1)
    ensures bufOk ==> o == Return(match Lookup(fdt.State(), fd)
                                  case Empty => -1
                                  case StdoutMark => -1
                                  case StdinMark => 0
                                  case Open(x) => fileRead(x))
  {
    if !bufOk {
      return Exit(-1);
    }
    var e := fdt.GetFile(fd);
    return Return(ReadRoute(fd, e, fileRead));
  }

  /** The branch logic of write once the entry is known. */
  function WriteRoute(e: Entry, size: U32, fileWrite: nat -> int): (r: int)
    ensures e == Empty || e == StdinMark ==> r == -1
    ensures e == StdoutMark ==> r == ToInt32(size)
    ensures e.Open? ==> r == fileWrite(e.file)
  {
    if e == Empty || e == StdinMark then -1
    else if e != StdoutMark then fileWrite(e.file)
    else ToInt32(size)
  }

  /** write: `bufOk` is the address check on the buffer and `fileWrite(x)` what
      file_write would return on file `x`. The stdout marker writes to the console and
      reports the whole size. */
  method Write(fdt: DescriptorTable, fd: int, bufOk: bool, size: U32, fileWrite: nat -> int) returns (o: Outcome)
    requires fdt.Valid()
    ensures !bufOk ==> o == Exit(-1)
    ensures bufOk ==> o == Return(match Lookup(fdt.State(), fd)
                                  case Empty => -1
                                  case StdinMark => -1
                                  case StdoutMark => ToInt32(size)
                                  case Open(x) => fileWrite(x))
  {
    var f := fdt.GetFile(fd);
    if !bufOk {
      return Exit(-1);
    }
    return Return(WriteRoute(f, size, fileWrite));
  }

  /** close, on the calling thread's table; `closed` is the entry handed to
      file_close, Empty when none was. */
  method Close(fdt: DescriptorTable, fd: int) returns (closed: Entry)
    requires fdt.Valid()
    modifies fdt.table
    ensures fdt.Valid()
    ensures (fdt.State(), closed) == CloseFd(old(fdt.State()), fd)
  {
    if fd < 2 {
      return Empty;
    }
    var f := fdt.GetFile(fd);
    if f != Empty {
      fdt.CloseFile(fd);
      return f;
    }
    return Empty;
  }

  /** A file open reaches the slot it was given: a later read or write on the
      returned descriptor goes to the file system, on the file just opened. */
  lemma OpenedFileIsReachable(s: Fdt, f: nat, size: U32, fileRead: nat -> int, fileWrite: nat -> int)
    requires WellFormed(s)
    requires OpenSpec(s, true, Some(f)).outcome != Return(-1)
    ensures OpenSpec(s, true, Some(f)).outcome.Return?
    ensures var r := OpenSpec(s, true, Some(f));
            var d := r.outcome.value;
            ReadRoute(d, Lookup(r.state, d), fileRead) == fileRead(f)
            && WriteRoute(Lookup(r.state, d), size, fileWrite) == fileWrite(f)
  {
  }

  /** A full table rejects every open: the file is opened, handed back to
      file_close, -1 is returned and the table is left as it was. */
  lemma FullTableRejectsOpen(s: Fdt, f: nat)
    requires WellFormed(s)
    requires forall k :: s.fdIdx <= k < FdCountLimit ==> s.table[k] != Empty
    ensures OpenSpec(s, true, Some(f)) == OpenResult(s, Return(-1), Some(f))
  {
  }
}
