# mirrored-buffer, modelled in Dafny

`mirrored-buffer` is a fixed-capacity byte ring backed by shared memory. It
maps the same `C` physical bytes twice, back to back, so the buffer sees
`2 * C` bytes of storage in which index `j` and index `j + C` are one byte.
Thanks to this mirror, the committed bytes `[head, head + used)` and the free
window at the tail are always one contiguous slice, even when they wrap past
the physical end. Producers `claim` a window, write into it and `commit` it.
Consumers look at the `committed` slice and `consume` bytes from its front.

This project models that engine (`src/lib.rs`) and its page-size helpers
(`src/util.rs`):

- `wrappers.dfy` — `Option`.
- `bytes.dfy` — the byte type `u8`.
- `error.dfy` — the three error kinds of `src/error.rs` (`NoPageSize`,
  `InvalidSize(size)`, `IO`) and a `Result` type.
- `bits.dfy` — `usize` bitwise AND on naturals, powers of two, and proofs for
  the two bit tricks the buffer relies on:
  - `n & (n - 1) == 0` holds exactly for powers of two;
  - `x & (n - 1) == x % n` when `n` is a power of two.
- `util.dfy` — `get_page_size` over the raw `sysconf` answer, and
  `round_up_to_page_size` with the page size as a parameter.
- `double_mapping.dfy` — the mirror as values. The physical bytes are a
  sequence `d` and the storage is `d + d`. It proves how the committed range,
  the claim window and the filled range behave across the wrap.
- `mirrored_buffer.dfy`:
  - `Sizing`, the decision part of `new`;
  - the shared-memory name;
  - the class `MirroredBuffer`, with the source's fields `head`, `tail`,
    `sizeTotal`, `sizeMask` and `sizeUsed`, and a physical byte array `data`
    of length `sizeTotal`.

  `Storage()` is the mirrored view `data[..] + data[..]`. `Contents()` is the
  committed bytes `Storage()[head..head + sizeUsed]`. `commit` and `consume`
  are methods that update the cursors in place. `free`, `used`, `size`,
  `claim` and `committed` are functions of the object's state.

The object invariant `Valid()` says:

- the capacity is a positive power of two;
- the mask is the capacity minus one;
- `head` and `tail` are below the capacity, and `sizeUsed` is at most the
  capacity;
- `tail` is `head + sizeUsed` wrapped once.

`TailFollowsHead` restates the last point as `tail == (head + used) % size`.
It also shows that `head == tail` exactly when the buffer is empty or full,
which is why the source counts `size_used` explicitly.

`Commit` and `Consume` are proved to keep `Valid()`. They also state exactly
how `Contents()` changes:

- `Commit` appends the bytes at the old tail;
- `Consume` drops the first `k` bytes.

`Committed` is proved to return exactly `Contents()`. Element `k` of it is
physical byte `(head + k) % size` (`ContentsAt`).

`ClaimFillCommit` and `ClaimWriteCommit` follow the tests' producer protocol:
claim a window, write into it, then commit. Both prove that the bytes written
come back in order at the end of the committed bytes, including when the
window crosses the physical end.

Two consequences of the code are worth stating, because they are easy to
miss when reading `new`:

- **`new` never returns `NoPageSize`.** `round_up_to_page_size` calls
  `expect` on `get_page_size()` and so panics when the page size is
  unavailable (`src/util.rs:12`). The error kind `NoPageSize` exists in
  `src/error.rs`, but no path of `new` produces it. The model makes a positive
  page size a precondition of the sizing steps, and `Sizing` proves that the
  result is never `Err(NoPageSize)`.
- **The power-of-two check rejects ordinary requests.** `new` rounds the
  request up to a page multiple and then tests that multiple for a power of
  two (`src/lib.rs:58-63`). A request in (2p, 3p] therefore rounds to `3 * p`.
  Once `shm_open` has succeeded, it is rejected with `InvalidSize(3 * p)` for
  every page size `p` (`SizingRejectsThreePages`). In general `Sizing` proves
  that any request for which `shm_open` succeeds and whose rounded size is not
  a power of two fails with `InvalidSize` of that rounded size. When
  `shm_open` fails (for example on a name collision), the result is `IO`
  whatever the rounded size.

## Model

| member | source | states |
|---|---|---|
| `Util.GetPageSize` | src/util.rs:3-9 | a page size is returned exactly when the raw `sysconf` answer is positive, and it is that answer; otherwise the result is an I/O error |
| `Util.RoundUpToPageSize` | src/util.rs:11-17 | the result is a positive multiple of the page size and at least `n`; a positive exact multiple is returned unchanged; 0 rounds to one page; for `n > 0` the result exceeds `n` by less than one page |
| `Util.RoundUpIsLeast` | src/util.rs:13-16 | no positive page multiple that is at least `n` is smaller than the rounded result |
| `Util.RoundUpToThreePages` | src/util.rs:13-16 | a request in (2p, 3p] rounds to exactly 3p |
| `Bits.MaskTestIsPowerOfTwo` | src/lib.rs:58-63 | for `n > 0`, the test `n & (n - 1) == 0` accepts exactly the powers of two |
| `Bits.MaskIsMod` | src/lib.rs:148-160 | for a power of two `n`, `x & (n - 1)` equals `x % n` |
| `Bits.ThreeTimesIsNotPowerOfTwo` | src/lib.rs:58-63 | no positive multiple of three is a power of two |
| `Mirrored.ShmName` | src/lib.rs:33-38 | the name is `/mirrored-buffer-`, then the pid; with no suffix it ends there, and with a suffix it continues with `-` and the suffix |
| `Mirrored.SuffixesKeepNamesApart` | src/lib.rs:33-38 | within one process, two suffix choices giving the same name are the same choice |
| `Mirrored.Sizing` | src/lib.rs:29-102 | size 0 fails with `InvalidSize(0)` before anything else; a failed `shm_open` fails with `IO` before rounding; a rounded size that is not a power of two fails with `InvalidSize` of that rounded size, before the mapping steps; a failed mapping step after a passing power-of-two test fails with `IO`; success exactly when size > 0, `shm_open` succeeds, the rounded size is a power of two and the mapping succeeds; on success the capacity is the rounded size, at least the request, a page multiple and a power of two; `IO` only after a platform failure; never `NoPageSize` |
| `Mirrored.SizingWithinOnePage` | src/lib.rs:58-63 | when the platform steps succeed, with power-of-two pages, a request of one page or less gives a one-page buffer |
| `Mirrored.SizingRejectsThreePages` | src/lib.rs:58-63 | when `shm_open` succeeds, a request in (2p, 3p] fails with `InvalidSize(3p)` whatever the page size and whatever the mapping outcome |
| `Mirrored.MirroredBuffer.TailFollowsHead` | src/lib.rs:148-160 | `tail == (head + used) % size`, and `head == tail` exactly when the buffer is empty or full |
| `Mirrored.MirroredBuffer.Storage` | src/lib.rs:104 | the mirrored storage has `2 * size` bytes |
| `Mirrored.MirroredBuffer.StorageAt` | src/lib.rs:104 | storage index `j` reads physical byte `j % size` |
| `Mirrored.MirroredBuffer.MirrorHalvesAgree` | src/lib.rs:83-104 | storage index `i` and `i + size` read the same physical byte |
| `Mirrored.MirroredBuffer.Init` | src/lib.rs:110-121 | a fresh buffer satisfies the invariant with the given name and capacity, and `head = tail = used = 0` |
| `Mirrored.MirroredBuffer.New` | src/lib.rs:24-122 | fails exactly as `Sizing` says, with the same error; on success: a fresh valid buffer named by `ShmName`, `size()` is the rounded size, the mask is `size() - 1`, the cursors are 0, `free() == size()`, and with an initial value every storage byte holds it |
| `Mirrored.MirroredBuffer.Free` | src/lib.rs:128-130 | `free() + used() == size()` |
| `Mirrored.MirroredBuffer.Used` | src/lib.rs:132-134 | `used() <= size()` |
| `Mirrored.MirroredBuffer.Size` | src/lib.rs:136-138 | the capacity is a positive power of two |
| `Mirrored.MirroredBuffer.Claim` | src/lib.rs:140-146 | `None` exactly when `min(n, free())` is 0; otherwise the window starts at the tail, has length `min(n, free())` and ends within `2 * size`; as a function of the state it changes nothing, so claiming again re-offers the same window |
| `Mirrored.MirroredBuffer.ClaimSparesCommitted` | src/lib.rs:140-146 | no byte of the claim window is the physical byte of a committed byte |
| `Mirrored.MirroredBuffer.Write` | src/lib.rs:140-146 | a write at storage index `j` updates physical byte `j % size` only; it reads back at `j` and at its mirror; a write inside the free window leaves the committed bytes unchanged |
| `Mirrored.MirroredBuffer.Fill` | src/lib.rs:106-108 | after filling storage `[lo, hi)` with `v`, every index there reads `v`; exactly the physical bytes those indices reach hold `v` and the others keep their values; filling inside the free window leaves the committed bytes unchanged |
| `Mirrored.MirroredBuffer.CopyToClaim` | src/lib.rs:140-146 | copying bytes into the claim window makes the window read those bytes in order, across the wrap; every physical byte the window does not reach keeps its value; the committed bytes are unchanged |
| `Mirrored.MirroredBuffer.Commit` | src/lib.rs:148-153 | returns `k = min(n, free())`; `used` grows by `k`; `tail` becomes `(tail + k) % size`; `head` and the bytes are unchanged; the invariant holds again; the committed bytes gain the `k` bytes at the old tail |
| `Mirrored.MirroredBuffer.CommitExtendsContents` | src/lib.rs:148-153 | growing `used` by `k` over unchanged bytes appends the `k` bytes at the old tail to the committed bytes |
| `Mirrored.MirroredBuffer.MaskWraps` | src/lib.rs:148-160 | below two laps, `x & mask` is `x % size`, and it takes off at most one lap |
| `Mirrored.MirroredBuffer.Consume` | src/lib.rs:155-160 | returns `k = min(n, used())`; `used` shrinks by `k`; `head` becomes `(head + k) % size`; `tail` and the bytes are unchanged; the invariant holds again; the committed bytes lose their first `k` |
| `Mirrored.MirroredBuffer.ConsumeDropsContents` | src/lib.rs:155-160 | moving the head `k` places over unchanged bytes drops the first `k` committed bytes |
| `Mirrored.MirroredBuffer.Committed` | src/lib.rs:162-171 | `None` exactly when `used() == 0`; otherwise the slice is exactly the committed bytes and has length `used()`, including the full case (`head == tail`) and the wrapped case (`head > tail`) |
| `Mirrored.MirroredBuffer.ContentsAt` | src/lib.rs:162-171 | committed byte `k` is physical byte `(head + k) % size` |
| `Mirrored.MirroredBuffer.ClaimFillCommit` | src/lib.rs:140-153 | claim `n`, fill the window with `v`, commit `n`: returns `k = min(n, free())`; the tail moves `k` places, wrapping; the committed bytes gain exactly `k` copies of `v` at the end; exactly the physical bytes reached from the old tail over `k` indices hold `v`, and all others keep their values |
| `Mirrored.MirroredBuffer.ClaimWriteCommit` | src/lib.rs:140-153 | claim, copy bytes into the window, commit: returns `k = min(len(bytes), free())`; the tail moves `k` places, wrapping; the committed bytes gain the first `k` of the bytes, in order; physical bytes outside the window keep their values |
| `DoubleMapping.ExtendAtTail` | src/lib.rs:148-153 | through the mirror, the `u` bytes at `h` followed by the `k` bytes at the wrapped write position form one contiguous storage range |
| `DoubleMapping.DropAtHead` | src/lib.rs:155-160 | the range starting at the wrapped position `h + k` is the old range without its first `k` bytes |
| `DoubleMapping.WriteSparesRange` | src/lib.rs:140-146 | writing a physical byte outside a range shorter than one lap leaves that range's storage bytes unchanged |
| `DoubleMapping.FilledRangeReads` | src/lib.rs:106-108 | if every physical byte reached from `[lo, hi)` holds `v`, every storage index of `[lo, hi)` reads `v` |
| `DoubleMapping.CopiedReads` | src/lib.rs:140-146 | after copying `b` to storage indices from `t` on, the storage run at `t` reads `b` |
| `DoubleMapping.CopiedSpares` | src/lib.rs:140-146 | a copy into the free space after a range leaves that range unchanged |
| `DoubleMapping.CopiedElsewhere` | src/lib.rs:140-146 | a copy starting at storage index `t` changes no physical byte that its storage indices do not reach |

## Left out

- `shm_open`, `ftruncate`, the `mmap` reservation and the two `MAP_FIXED` remaps (src/lib.rs:47-102) are operating-system calls. Their outcome is two boolean parameters of `Sizing`/`New`: `shmOpenOk` is checked before rounding and `mapOk` after the power-of-two test, in the source's order. The double mapping itself is the `data + data` view.
- Nothing of the failed steps is undone, and the descriptor and the shared-memory object are not released on the error paths. These are operating-system effects with no state in the model.
- `Drop`, with `shm_unlink`, its panic and its `println!` (src/lib.rs:174-181), is resource release with no state in the model.
- `process::id()` is a `pid` string parameter of `ShmName`.
- The panic in `CString::new` when the name contains a 0 byte is not modelled.
- The panic of `expect` in `round_up_to_page_size` when the page size is unavailable is the precondition `page > 0` on `RoundUpToPageSize`, `Sizing` and `New`. `GetPageSize` models the `sysconf` test separately.
- `name()` (src/lib.rs:124-126) is not a separate function: `name` is a field of the class.
- Claim: the source returns a `&mut [u8]` borrowed from the buffer. The model returns the window's indices. Writes into the window are the methods `Write`, `Fill` and `CopyToClaim` on the buffer, so Rust's borrow rules (no cursor change while a claim is held) are not modelled.
- `usize` overflow (in `(n / page + 1) * page`, `size_total * 2` and `tail + size`) is not modelled: all sizes are unbounded naturals. The model's sizes never exceed `2 * size_total`.
- `Display` and `source` of `src/error.rs` (formatting and trait plumbing) are left out. The `io::Error` carried by `IO` is not modelled.
- examples/tcp.rs (sockets, threads and an unfinished sketch) is not part of this model.
- Producer/consumer threading and memory ordering are not modelled; the source provides neither.
- The randomised test (src/lib.rs:334-367) is covered by `Commit` and `Consume` keeping `Valid()` and the `Free` contract.
