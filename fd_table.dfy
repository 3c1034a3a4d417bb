/** The per-thread file-descriptor table of the user-program layer.
    A thread owns a fixed array of FdCountLimit slots and a cursor (fdIdx).
    A slot is empty (NULL), holds one of the console markers that the code
    compares against the integers 1 and 2, or holds an open file. */
module FdTable {

  /** Pages reserved for the table, and the number of slots: 3 * (1 << 9). */
  const FdtPages: nat := 3
  const FdCountLimit: nat := FdtPages * 512

  /** What a slot of the table holds. `Open(file)` stands for a file
      pointer returned by the file system; `file` identifies it. */
  datatype Entry = Empty | StdinMark | StdoutMark | Open(file: nat)

  /** The abstract value of a thread's table: its slots and its cursor. */
  datatype Fdt = Fdt(table: seq<Entry>, fdIdx: int)

  predicate WellFormed(s: Fdt) {
    |s.table| == FdCountLimit && 0 <= s.fdIdx
  }

  /** checkNullCase: a descriptor outside the table. */
  function OutOfRange(d: int): (r: bool)
    ensures !r <==> 0 <= d < FdCountLimit
  {
    d < 0 || d >= FdCountLimit
  }

  /** process_get_file: the entry of descriptor `d`, Empty when `d` is out of range. */
  function Lookup(s: Fdt, d: int): (e: Entry)
    requires WellFormed(s)
    ensures !OutOfRange(d) ==> e == s.table[d]
    ensures e != Empty ==> 0 <= d < FdCountLimit
  {
    if OutOfRange(d) then Empty else s.table[d]
  }

  /** The first empty slot at or after `from`, or -1 when there is none;
      this is the result of the forward scan of process_add_file. */
  function FirstFree(table: seq<Entry>, from: nat): (r: int)
    ensures r == -1 <==> forall k :: from <= k < |table| ==> !table[k].Empty?
    ensures r != -1 ==> from <= r < |table| && table[r].Empty?
    ensures r != -1 ==> forall k :: from <= k < r ==> !table[k].Empty?
    decreases |table| - from
  {
    if from >= |table| then -1
    else if table[from].Empty? then from
    else FirstFree(table, from + 1)
  }

  /** process_add_file: the new table and the descriptor returned. */
  function Add(s: Fdt, f: nat): (r: (Fdt, int))
    requires WellFormed(s)
    ensures WellFormed(r.0)
    ensures r.1 == -1 <==> forall k :: s.fdIdx <= k < FdCountLimit ==> !s.table[k].Empty?
    ensures r.1 == -1 ==> r.0 == s
    ensures r.1 != -1 ==>
              s.fdIdx <= r.1 < FdCountLimit && Lookup(s, r.1) == Empty
              && (forall k :: s.fdIdx <= k < r.1 ==> !s.table[k].Empty?)
              && r.0.fdIdx == r.1
              && (forall k :: Lookup(r.0, k) == if k == r.1 then Open(f) else Lookup(s, k))
  {
    var d := FirstFree(s.table, s.fdIdx);
    if d == -1 then (s, -1) else (Fdt(s.table[d := Open(f)], d), d)
  }

  /** process_close_file: empties slot `d`; an out-of-range `d` changes nothing. */
  function CloseSlot(s: Fdt, d: int): (r: Fdt)
    requires WellFormed(s)
    ensures WellFormed(r) && r.fdIdx == s.fdIdx
    ensures forall k :: Lookup(r, k) == if k == d then Empty else Lookup(s, k)
    ensures OutOfRange(d) ==> r == s
  {
    if OutOfRange(d) then s else Fdt(s.table[d := Empty], s.fdIdx)
  }

  /** close: the new table and the entry handed to file_close (Empty when none).
      Descriptors below 2 are never closed; an empty slot is left alone. */
  function CloseFd(s: Fdt, fd: int): (r: (Fdt, Entry))
    requires WellFormed(s)
    ensures WellFormed(r.0) && r.0.fdIdx == s.fdIdx
    ensures fd < 2 ==> r == (s, Empty)
    ensures fd >= 2 ==> r.1 == Lookup(s, fd)
    ensures forall k :: Lookup(r.0, k) == if fd >= 2 && k == fd then Empty else Lookup(s, k)
  {
    if fd < 2 then (s, Empty)
    else
      var f := Lookup(s, fd);
      if f != Empty then (CloseSlot(s, fd), f) else (s, Empty)
  }

  /** The scan never looks below its starting point: changing a slot there
      does not change its result. */
  lemma {:induction false} FirstFreeIgnoresBelow(table: seq<Entry>, from: nat, d: int, e: Entry)
    requires 0 <= d < from && d < |table|
    ensures FirstFree(table[d := e], from) == FirstFree(table, from)
    decreases |table| - from
  {
    if from < |table| && !table[from].Empty? {
      FirstFreeIgnoresBelow(table, from + 1, d, e);
    }
  }

  /** A descriptor freed below the cursor is not handed out again: the next
      add returns what it would have returned had the slot stayed in use. */
  lemma FreedBelowCursorNotReused(s: Fdt, d: int, f: nat)
    requires WellFormed(s) && 0 <= d < s.fdIdx && d < FdCountLimit
    ensures Add(CloseSlot(s, d), f).1 == Add(s, f).1
    ensures Add(CloseSlot(s, d), f).1 != d
  {
    FirstFreeIgnoresBelow(s.table, s.fdIdx, d, Empty);
  }

  /** A descriptor freed at or after the cursor, with every slot between the
      cursor and it in use, is the next one handed out. */
  lemma FreedAtOrAboveCursorReused(s: Fdt, d: int, f: nat)
    requires WellFormed(s) && s.fdIdx <= d < FdCountLimit
    requires forall k :: s.fdIdx <= k < d ==> !s.table[k].Empty?
    ensures Add(CloseSlot(s, d), f).1 == d
  {
    var t := CloseSlot(s, d);
    assert Lookup(t, d) == Empty;
  }

  /** Closing the descriptor just handed out gives back the old slots;
      only the cursor stays where the add moved it. */
  lemma AddThenCloseRestores(s: Fdt, f: nat)
    requires WellFormed(s)
    requires Add(s, f).1 != -1
    ensures CloseSlot(Add(s, f).0, Add(s, f).1) == Fdt(s.table, Add(s, f).1)
  {
  }

  /** Descriptors handed out never decrease: between two successful adds
      any descriptor may be closed, yet the second add returns a larger
      descriptor unless the first one was the one closed. */
  lemma AddsNeverDecrease(s: Fdt, f: nat, fd: int, g: nat)
    requires WellFormed(s)
    requires Add(s, f).1 != -1
    requires Add(CloseFd(Add(s, f).0, fd).0, g).1 != -1
    ensures Add(CloseFd(Add(s, f).0, fd).0, g).1 >= Add(s, f).1
    ensures fd != Add(s, f).1 ==> Add(CloseFd(Add(s, f).0, fd).0, g).1 > Add(s, f).1
  {
  }

  /** One thread's table: the slot array and the cursor of struct thread. */
  class DescriptorTable {
    var table: array<Entry>
    var fdIdx: int

    ghost predicate Valid()
      reads this
    {
      table.Length == FdCountLimit && 0 <= fdIdx
    }

    /** The abstract value of this table. */
    ghost function State(): (s: Fdt)
      reads this, table
      requires Valid()
      ensures WellFormed(s)
    {
      Fdt(table[..], fdIdx)
    }

    /** An empty table whose cursor starts at `cursor`; the real initial
        contents are set when the thread is created, in code this model does
        not cover. */
    constructor (cursor: nat)
      ensures Valid() && fresh(table)
      ensures State() == Fdt(seq(FdCountLimit, _ => Empty), cursor)
    {
      table := new Entry[FdCountLimit](_ => Empty);
      fdIdx := cursor;
    }

    /** addFileHelper: store `f` at `idx` and move the cursor there. */
    method Install(idx: int, f: nat)
      requires Valid() && 0 <= idx < table.Length
      modifies this, table
      ensures Valid() && table == old(table)
      ensures State() == Fdt(old(table[..])[idx := Open(f)], idx)
    {
      table[idx] := Open(f);
      fdIdx := idx;
    }

    /** process_add_file: scan forward from the cursor for an empty slot. */
    method AddFile(f: nat) returns (r: int)
      requires Valid()
      modifies this, table
      ensures Valid() && table == old(table)
      ensures (State(), r) == Add(old(State()), f)
    {
      var idx := fdIdx;
      while idx < FdCountLimit
        invariant 0 <= fdIdx <= idx
        invariant table == old(table) && fdIdx == old(fdIdx) && table[..] == old(table[..])
        invariant FirstFree(table[..], idx) == FirstFree(table[..], fdIdx)
      {
        if table[idx] == Empty {
          Install(idx, f);
          return fdIdx;
        }
        idx := idx + 1;
      }
      idx := FdCountLimit;
      return -1;
    }

    /** process_get_file: a bounds-checked read that changes nothing. */
    method GetFile(d: int) returns (e: Entry)
      requires Valid()
      ensures OutOfRange(d) ==> e == Empty
      ensures !OutOfRange(d) ==> e == table[d]
      ensures e == Lookup(State(), d)
    {
      if OutOfRange(d) {
        return Empty;
      }
      return table[d];
    }

    /** process_close_file: empty slot `d` when it is in range. */
    method CloseFile(d: int)
      requires Valid()
      modifies table
      ensures Valid()
      ensures State() == CloseSlot(old(State()), d)
    {
      if OutOfRange(d) {
        return;
      }
      table[d] := Empty;
    }
  }
}
