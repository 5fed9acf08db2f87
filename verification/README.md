# FPGA accelerator driver: transfer protocol and session flag

A Dafny model of the core of a Linux character-device driver for an FPGA
accelerator (`sw/accel/l2a01_accel_driver.c`). The driver owns two 64-byte
DMA buffers and a memory-mapped register block. A client opens the device,
writes a payload that the driver splits across the two buffers, reads back a
32-bit result that the accelerator computed over them, and releases the
device.

The model is functional. The driver state is an immutable record `Driver`
holding:

- the session flag `isOpen`;
- the CPU view of both buffers, as `seq<bv8>`;
- the buffers' device addresses;
- an append-only trace of register accesses.

Each file operation is a pure function from a state to the next state plus
what the caller sees:

- `AccelDriver.Open` succeeds only for the RGB/gray minor number. It does not
  refuse a device that is already open, because the exclusivity guard in the
  source is commented out.
- `AccelDriver.Release` always succeeds and always clears the flag.
- `AccelDriver.Write` copies the first `len/2` payload bytes into buffer 0 and
  the next `len/2` into buffer 1. With an odd length the last byte is dropped.
  It returns `len` even when a copy faults; such faults are only logged.
- `AccelDriver.Read` stores both buffers' device addresses, then the operation
  size 25, then loads the result register. The loaded value is a free input,
  because the hardware chooses it. The read decodes that value into four bytes
  and returns the caller's `len`.

The decode reproduces the source's shift quirk. Byte 2 is taken as
`(res & 0xFF0000) >> 26`, which is always 0. `ResultDecode` compares the
decode with a plain little-endian split and proves it loses exactly bits
16–23 of the result.

`Session` replays any sequence of calls and relates the final state to
independent reference definitions:

- the session flag is decided by the last successful open or release;
- the register trace is one complete four-access exchange per read, in call
  order;
- both buffers keep their 64-byte size.

Facts about the code that the model keeps:

- Read and write never check the session flag
  (`Session.TransfersIgnoreSession`).
- Read returns the caller's `len` and always stores four bytes, whatever `len`
  is.
- Byte 1 of the decoded result is bits 8–15 (`0xCC` for `0xAABBCCDD`).
- When buffer 1's allocation fails (lines 185–188), buffer 0 is not freed.
  Bootstrap is not modelled (see "Left out").

Interfaces to things the model cannot see:

- `MINOR_RGBG` is defined in one of the driver's included headers (`hps_0.h`,
  `l2a01.h`), which are not part of this model. The comment at line 27 says
  the RGB/gray writer uses minor number 0, so the model uses 0.
- The register offsets also come from those headers, so registers are named
  rather than numbered.
- `copy_from_user` is replaced by a deterministic simplification. The
  caller's memory is the sequence of bytes readable from the caller's pointer.
  The copy moves every readable byte of the range, zero-fills the rest and
  reports how many bytes it missed. The kernel promises the count and the zero
  fill, but not that every readable byte is copied.

## Model

| member | source | states |
|---|---|---|
| Registers.Exchange | sw/accel/l2a01_accel_driver.c:271-274 | One read's register exchange is a complete exchange in the sense of `IsExchange`: buffer 0's device address, then buffer 1's, then the operation size 25, then a load of the result register, and that load carries the value the hardware answered |
| Registers.WellFormedAppend | sw/accel/l2a01_accel_driver.c:271-274 | Appending one exchange to a trace made of complete exchanges keeps it made of complete exchanges |
| Registers.WellFormedShape | sw/accel/l2a01_accel_driver.c:271-274 | In a trace made of complete exchanges, the length is a multiple of four. Every load is of the result register and comes right after the two address stores and the size store |
| ResultDecode.Decode | sw/accel/l2a01_accel_driver.c:276-279 | The result is 4 bytes. Byte 0 is bits 0–7 of the result and byte 1 is bits 8–15. Byte 2 is 0 for every result, because of the shift by 26. Byte 3 is bits 24–31 |
| ResultDecode.DecodeIsLittleEndianWithoutByte2 | sw/accel/l2a01_accel_driver.c:276-279 | The decode equals the little-endian bytes of the result with byte 2 replaced by 0 |
| ResultDecode.DecodeReassembles | sw/accel/l2a01_accel_driver.c:276-279 | Reassembling the decoded bytes little-endian gives back the result with bits 16–23 cleared |
| ResultDecode.DecodeEqualIff | sw/accel/l2a01_accel_driver.c:278 | Two results decode alike exactly when they agree outside bits 16–23, so the shift quirk loses exactly byte 2 |
| ResultDecode.DecodeExample | sw/accel/l2a01_accel_driver.c:276-279 | 0xAABBCCDD decodes to DD CC 00 AA, the same bytes as 0xAA00CCDD |
| UserCopy.CopyFromUser | sw/accel/l2a01_accel_driver.c:262-264 | A copy of n bytes from offset off puts the readable bytes at the front of the destination and zero-fills the rest of the n bytes. Bytes past n are unchanged. It reports uncopied bytes exactly when the range runs past the readable memory |
| AccelDriver.Boot | sw/accel/l2a01_accel_driver.c:149-183 | After module start the session is closed, both buffers hold 64 bytes and no register has been accessed |
| AccelDriver.Open | sw/accel/l2a01_accel_driver.c:234-258 | Opening the RGB/gray minor returns 0 and sets the flag, even when it is already set, and changes nothing else. Any other minor returns -1 and leaves the state as it was |
| AccelDriver.Release | sw/accel/l2a01_accel_driver.c:283-301 | Release returns 0 and clears the flag for every minor number and every prior state, and changes nothing else |
| AccelDriver.Write | sw/accel/l2a01_accel_driver.c:261-267 | Payload bytes [0, len/2) land in buffer 0 and bytes [len/2, 2·(len/2)) land in buffer 1, both at indices [0, len/2). Unreadable bytes become 0. Bytes at or past len/2 are unchanged. The return value is len even when a copy faults, and each fault flag is set exactly when that copy ran past readable memory. The session flag, device addresses and register trace are unchanged |
| AccelDriver.Read | sw/accel/l2a01_accel_driver.c:269-281 | Read appends exactly the four accesses (address 0, address 1, size 25, load of the result) to the trace and changes nothing else. It returns the caller's len and always yields 4 bytes: bytes 0, 1 and 3 are from the loaded word and byte 2 is 0 |
| AccelDriver.ReadOutputMatchesTrace | sw/accel/l2a01_accel_driver.c:274-279 | The bytes a read returns are the decode of the value loaded by the read's own last register access |
| AccelDriver.WriteIgnoresUnpairedBytes | sw/accel/l2a01_accel_driver.c:262-264 | Two payloads that agree on their first 2·(len/2) bytes give the same state after a write |
| AccelDriver.WriteDropsOddLastByte | sw/accel/l2a01_accel_driver.c:262-264 | With odd len, changing the last payload byte changes nothing the write does, so that byte is in neither buffer |
| AccelDriver.WriteSplitsPayload | sw/accel/l2a01_accel_driver.c:262-264 | For a fully readable payload, neither copy faults. Buffer 0's first len/2 bytes followed by buffer 1's first len/2 bytes equal the payload's first 2·(len/2) bytes |
| AccelDriver.WriteIdempotent | sw/accel/l2a01_accel_driver.c:261-267 | Writing the same payload a second time leaves the state of the first write unchanged |
| Session.Step | sw/accel/l2a01_accel_driver.c:44-49 | Any one file operation keeps both buffers at 64 bytes and keeps their device addresses |
| Session.Run | sw/accel/l2a01_accel_driver.c:44-49 | Any sequence of file operations keeps both buffers at 64 bytes and keeps their device addresses |
| Session.RunSessionFlag | sw/accel/l2a01_accel_driver.c:234-301 | After any sequence of calls, the session flag is set exactly when the last successful open or release was an open. With neither, it keeps its initial value. Reads, writes and rejected opens never affect it |
| Session.ReadTrafficShape | sw/accel/l2a01_accel_driver.c:271-274 | The reference traffic of a call sequence is made of complete exchanges, with four accesses per read |
| Session.RunTrace | sw/accel/l2a01_accel_driver.c:261-281 | Any sequence of calls appends to the trace exactly one exchange per read, in call order, each loading that read's hardware value. Open, write and release make no register access |
| Session.BootedTraceWellFormed | sw/accel/l2a01_accel_driver.c:269-281 | From module start, the register trace after any calls is made of complete exchanges against the buffers' own device addresses. Its length is four times the number of reads |
| Session.TransfersIgnoreSession | sw/accel/l2a01_accel_driver.c:261-281 | On a closed session, write and read produce the same next state (apart from the flag), the same fault flags, the same register traffic, the same output bytes and the same return value as on an open one, and report no error |
| Session.SessionScenario | sw/accel/l2a01_accel_driver.c:234-301 | The session open, write of 16 bytes of 0x01, read, release: open returns 0, write returns 16 and puts eight 0x01 bytes in each buffer, read returns len with the decoded result and byte 2 equal to 0, and the session ends closed |

## Left out

- Module init and exit (lines 110–230) are left out. That covers chrdev, class, device and kobject registration, the SDRAM controller reset write, `ioremap`, and allocating and freeing the DMA buffers. They are kernel bootstrap calls against APIs outside the model. `AccelDriver.Boot` takes the buffers' device addresses and initial contents as parameters instead. The missing release of buffer 0 when buffer 1's allocation fails is therefore not modelled.
- The sysfs show/store handlers and attribute tables (lines 52–106) are left out. They only format and parse `image_height`, `image_width` and `image_writer_mode`, which no file operation reads.
- `AccelDriver.Write` is only defined for `len/2 <= 64`. The source does not check this bound, and a larger `len` copies past the end of a 64-byte buffer, which is undefined behaviour.
- `UserCopy.CopyFromUser` models faults as a readable prefix of the caller's memory and always copies every readable byte of the range. The kernel only promises the uncopied count and the zero fill: a faulting copy may stop early, and on this ARM kernel a range that fails the access check copies nothing. So where `AccelDriver.Write` places bytes of a faulting payload is this model's choice, not a kernel guarantee. A fault in the middle of an otherwise readable range is not modelled either.
- The result register's value is an unconstrained input. The accelerator's computation, and any wait for it, are not modelled.
- The `printk` log messages are not modelled. Write's two "copy failed" messages are represented by the `fault0` and `fault1` flags.
- Read stores its four bytes through the caller's raw pointer without `copy_to_user`. The model returns them as a sequence, and the kernel-safety issue is not modelled.
- `AccelDriver.Read` returns `len` as an unbounded integer and does not model the conversion of `size_t` to `ssize_t`.
- Unused state (`last_image_number`, `data`, `pixel_size`, `counter`) and concurrency between callers are not modelled. The source takes no locks.
