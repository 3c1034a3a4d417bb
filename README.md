# Per-thread file-descriptor table of a teaching kernel's user-program layer

This project models in Dafny the file-descriptor table that every user thread of
the kernel owns, and the system calls built on it (`userprog/syscall.c`).

The table is a fixed array of `FDCOUNT_LIMIT` slots, with `FDCOUNT_LIMIT = FDT_PAGES * (1 << 9) = 3 * 512 = 1536`
(`include/threads/thread.h:3-4`). Beside it, `struct thread` holds a cursor
`fdidx` (`include/threads/thread.h:123-124`). A slot may hold:

- `NULL`: modelled as `Empty`;
- the console markers, which the code compares against the integers `STDIN = 1`
  and `STDOUT = 2`: modelled as `StdinMark` and `StdoutMark`;
- a file pointer returned by the file system: modelled as `Open(file)`.

Files:

- `fd_table.dfy`, module `FdTable`. It holds:
  - the constants, `Entry`, and `Fdt`, the abstract value of a table (its slots and its cursor);
  - the specification functions of the table operations, with the lemmas that relate them;
  - class `DescriptorTable`, which holds an `array<Entry>` and the cursor `fdIdx`.
    Its methods update the array in place, as the C code does. Each one is proved
    against the specification functions.
- `syscall.dfy`, module `Syscall`. It holds `open`, `read`, `write` and `close`
  on a `DescriptorTable`, plus the lemmas about their routing.

Outside calls are passed in as parameters:

- the address check `check_address` is a boolean; when it is false the call ends in `Exit(-1)`;
- `filesys_open` is an `Option<nat>`, with `None` for `NULL`;
- `file_read` and `file_write` are functions from the file in the slot to the integer they would return, so a contract can say which file a call reaches.

`file_close` is not called. Instead `Open` and `Close` report, as an out-parameter,
what they would hand to `file_close`.

`checkNullCase` is `FdTable.OutOfRange`. `process_get_file` is
specified by `FdTable.Lookup` and implemented by `DescriptorTable.GetFile`.

## Model

| member | source | states |
|---|---|---|
| FdTable.OutOfRange | userprog/syscall.c:91-93 | `checkNullCase` accepts exactly the descriptors 0 to `FDCOUNT_LIMIT - 1` |
| FdTable.Lookup | userprog/syscall.c:94-97 | `process_get_file` gives slot `d` for every in-range `d`, and only an in-range descriptor can look up a non-empty entry |
| FdTable.FirstFree | userprog/syscall.c:79-88 | the forward scan returns -1 exactly when every slot from the cursor to the end is in use; otherwise it returns an empty slot at or after the cursor with no empty slot between the cursor and it, so it is the smallest such slot |
| FdTable.Add | userprog/syscall.c:72-89 | `process_add_file` fails with -1 exactly when no slot in `[fdidx, FDCOUNT_LIMIT)` is empty, and then leaves table and cursor as they were. On success it returns the smallest empty slot at or after the cursor, fills it with the file, moves the cursor to it, and every other descriptor still looks up as before |
| FdTable.CloseSlot | userprog/syscall.c:91-102 | `process_close_file(d)` makes `d` look up as empty, leaves every other descriptor and the cursor unchanged, and changes nothing when `d` is out of range |
| FdTable.CloseFd | userprog/syscall.c:207-217 | `close(fd)` with `fd < 2` changes nothing and closes no file. Otherwise it hands the entry of `fd` to `file_close`, `fd` looks up as empty afterwards, and every other descriptor and the cursor are unchanged |
| FdTable.FirstFreeIgnoresBelow | userprog/syscall.c:79-86 | changing a slot below the scan's starting point never changes the scan's result |
| FdTable.FreedBelowCursorNotReused | userprog/syscall.c:79-86 | a descriptor freed below the cursor is never handed out by the next add, which returns what it would have returned had the slot stayed in use |
| FdTable.FreedAtOrAboveCursorReused | userprog/syscall.c:79-86 | a descriptor freed at or above the cursor, with every slot between the cursor and it in use, is the next descriptor handed out |
| FdTable.AddThenCloseRestores | userprog/syscall.c:72-102 | closing the descriptor an add just returned restores the slots as they were before the add; only the cursor stays moved |
| FdTable.AddsNeverDecrease | userprog/syscall.c:72-89 | across add, close (of any descriptor), add, the second descriptor is at least the first, and strictly larger unless the first was the one closed |
| FdTable.DescriptorTable.constructor | include/threads/thread.h:3-4 | a table of `FDCOUNT_LIMIT` slots, all empty, with the given cursor |
| FdTable.DescriptorTable.Install | userprog/syscall.c:72-75 | `addFileHelper` stores the file at `idx`, sets the cursor to `idx`, and changes no other slot |
| FdTable.DescriptorTable.AddFile | userprog/syscall.c:77-89 | the in-place loop gives exactly the table, cursor and result of `Add` |
| FdTable.DescriptorTable.GetFile | userprog/syscall.c:91-97 | `process_get_file` returns Empty for `d < 0` or `d >= FDCOUNT_LIMIT`, otherwise the entry in slot `d`; it changes nothing |
| FdTable.DescriptorTable.CloseFile | userprog/syscall.c:99-102 | the in-place clear gives exactly the table of `CloseSlot` |
| Syscall.ToInt32 | userprog/syscall.c:238-241 | the `unsigned` size assigned to the `int` result keeps its value modulo 2^32 and fits in 32 signed bits |
| Syscall.OpenSpec | userprog/syscall.c:58-69 | `open` exits with -1 on a bad name address, and returns -1 when `filesys_open` fails or the table has no empty slot from the cursor on; in all these cases the table is unchanged. The opened file goes back to `file_close` exactly when the table was full. Otherwise it returns the first empty slot at or after the old cursor, which now holds the file; the cursor moves there and every other descriptor looks up as before, exactly as `process_add_file` does |
| Syscall.Open | userprog/syscall.c:49-69 | the method on the thread's table gives exactly the table, outcome and closed file of `OpenSpec` |
| Syscall.Read | userprog/syscall.c:191-205 | `read` exits with -1 on a bad buffer address. Otherwise it returns -1 for an empty or stdout slot (every out-of-range fd included), 0 for the stdin marker, and the `file_read` result on the file held in the slot. The table is not changed |
| Syscall.ReadRoute | userprog/syscall.c:196-204 | the branches of `read` as written: an empty or stdout entry gives -1; for an in-range fd the stdin marker gives 0 and a file gives the `file_read` result on that file; a non-empty entry with an out-of-range fd would give 0 (lines 197-198), a case `Lookup` never produces |
| Syscall.WriteRoute | userprog/syscall.c:231-242 | the branches of `write`: an empty or stdin entry gives -1, the stdout marker gives the size as a C `int`, a file gives the `file_write` result on that file |
| Syscall.Write | userprog/syscall.c:225-243 | `write` exits with -1 on a bad buffer address. Otherwise it returns -1 for an empty or stdin slot (every out-of-range fd included), the size (as a C `int`) for the stdout marker, and the `file_write` result on the file held in the slot. The table is not changed |
| Syscall.Close | userprog/syscall.c:207-217 | the method on the thread's table gives exactly the table and closed entry of `CloseFd` |
| Syscall.OpenedFileIsReachable | userprog/syscall.c:58-69 | after a successful open, reading or writing the returned descriptor goes to the file system, on the file just opened |
| Syscall.FullTableRejectsOpen | userprog/syscall.c:58-66 | with no empty slot from the cursor on, open returns -1, hands the new file to `file_close`, and leaves the table as it was |

## Left out

- The scheduler, priority donation, sleep and wake-up, MLFQS and fixed-point arithmetic are declared in `include/threads/thread.h:140-191`; their bodies are in `threads/thread.c` and `threads/synch.c`, which this model does not cover.
- `include/userprog/syscall.h` and `include/userprog/process.h` hold only prototypes.
- `syscall_init` programs the CPU's model-specific registers (`userprog/syscall.c:37-42`). This is hardware setup.
- `check_address` looks the address up in the page table (`userprog/syscall.c:44-47`). In the model this is a boolean parameter; a failed check is the outcome `Exit(-1)`, and the model stops there. What `exit` and thread teardown then do to the table is not modelled.
- `filesys_lock` is not modelled. Locking is concurrency, and the model is sequential. As written, `open` returns at `userprog/syscall.c:66` without releasing the lock when `filesys_open` fails; the release on line 67 is unreachable. The lock then stays held, so the next `open` and every `read` or `write` on a real file (lines 55, 200, 234) would try to acquire a lock that is still held; the model treats those later calls as ordinary.
- `filesys_open`, `file_read`, `file_write`, `file_close` and `putbuf` live in the file system and the console. Their answers are parameters; `file_close` is reported as an out-parameter rather than performed.
- `close` hands every non-empty entry of a descriptor `>= 2` to `file_close`, console markers included. The model reports that entry as it is, whatever it holds.
- The initial contents of a thread's table (where the console markers are placed, and where the cursor starts) are set when the thread is created, in code this model does not cover. The constructor therefore builds an empty table with a given cursor, and every operation is proved for any contents and any non-negative cursor (a negative `fdidx` would make the C code index the array out of bounds).
- `halt`, `exit`, `fork`, `exec` and `process_wait` belong to the process lifecycle and are not modelled. The register decoding in `syscall_handler` (`userprog/syscall.c:106-166`) depends on the syscall numbers defined in `syscall-nr.h`, which is not modelled.
- `filesize` (`userprog/syscall.c:139-146`) passes the looked-up file to `file_length`; it adds nothing to the table beyond `GetFile`.
- `tell` returns no defined value for a descriptor below 2 (`userprog/syscall.c:184-187`).
- `seek` and `SYS_SEEK` compare a file pointer with the integer 2 (`userprog/syscall.c:154`, `245-248`). That relies on pointer ordering, which the model's `Entry` has no counterpart for.
- The `int` results in `rax` are not sign-extended to 64 bits in the model.
