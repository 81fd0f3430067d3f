# A Dafny model of the pax-utils `ar` archive walker

This project models the read-only walker for Unix `ar` archives in
`paxinc.c` of pax-utils, together with the small path helper
`root_rel_path` from the same file. The walker is used by tools that scan
the members of static libraries without extracting them.

- `ar_open_fd` checks the global magic and sets up a handle.
- Each `ar_next` call does the following:
  - applies the pending payload skip;
  - reads a 60-byte member header, absorbing one `'\n'` alignment byte;
  - checks the header's end magic;
  - resolves the member name under the three long-name conventions: the
    System V/GNU `//` name table, BSD `#1/L` and GNU `/O`;
  - decodes the numeric fields through `ar_read_ascii_number`;
  - returns the member with its display name `archive:member`.

  When the walk ends, the handle is released.

The archive is an immutable byte sequence. The descriptor is a position in
that sequence (`Stream.File`). `ar_next` is the pure function `Archive.Next`
from a handle to a step and the next handle. The `//` table recursion
terminates because a handle that already holds a table never loads another.

Files:

- `bytes.dfy`: bytes, C strings (the bytes before the first NUL) and `Option`.
- `number.dfy`: `ar_read_ascii_number` and the part of `strtoll` it relies
  on. It also holds, as the decoder's partner, the space-padded decimal or
  octal field an archiver writes.
- `stream.dfy`: `read` and relative `lseek` on the descriptor.
- `archive.dfy`: the handle, `ar_open_fd`, the header read, the `//` table,
  name resolution, the display name and `ar_next`.
- `writer.dfy`: how an archiver lays out headers, name fields and whole
  archives. This is the reference the walker is proved against.
- `roundtrip.dfy`: walking a written archive returns every member with the
  numbers it was written with, in order, and then ends.
- `walkfacts.dfy`: the ways a walk ends, the `//` table, and the BSD and
  GNU long names.
- `rootpath.dfy`: `root_rel_path`.

Two places where this code differs from the usual account of the format:

- The open check compares only the 7 bytes `"!<arch>"`. `AR_MAGIC_SIZE` is
  `sizeof - 1`. The `'\n'` that completes the 8-byte global magic stays in
  the stream, and the first `ar_next` absorbs it as an alignment pad. The
  model follows the code: `ArOpen` checks 7 bytes, and `WalkRoundTrip`
  proves that the first header is still found.
- When the `//` table is loaded, index 0 is never rewritten from `'\n'` to
  NUL. The loop runs down to index 1 only. `LoadNameTable` models the loop
  as written.

## Model

| member | source | states |
|---|---|---|
| `AsciiNumber.ReadAsciiNumber` | paxinc.c:53-82 | The result is never negative, because a negative conversion becomes 0. It is below base^width of the copied field. |
| `AsciiNumber.StrToLLOfDigits` | paxinc.c:63 | `strtoll` on white space, an optional sign, a maximal digit run and a tail returns the signed value of the digits. `endp` stops just after the digits. |
| `AsciiNumber.ReadAsciiNumberOfDigits` | paxinc.c:53-82 | A field with digits decodes to their value when the byte after them is NUL, a space or the end of the field, and there is no minus sign. Otherwise it decodes to 0. |
| `AsciiNumber.ReadAsciiNumberOfNoDigits` | paxinc.c:63-68 | A field with no digits after its white space and sign decodes to 0. |
| `AsciiNumber.FormatFieldRoundTrip` | paxinc.c:53-82 | A number written left-justified and space-padded in base 8 or 10 decodes back to itself. |
| `Archive.ArOpen` | paxinc.c:18-37 | A handle exists iff the data starts with the 7 bytes "!<arch>". The handle stands at offset 7 with skip 0, no name table, and the given name and verbosity. |
| `Archive.ReadHeader` | paxinc.c:106-115 | The header is the 60 bytes at the offset, or the 60 after it when the first byte is `'\n'`. The read fails exactly when those bytes are not all there. A released descriptor always fails. |
| `Archive.LoadNameTable` | paxinc.c:131-138 | The table has the announced length. Index 0 is unchanged, every later `'\n'` becomes NUL, and every other byte is kept. |
| `Archive.DisplayName` | paxinc.c:171-175 | The name is shorter than the buffer and is a prefix of "archive:member". It holds no `/` at or after the archive name's length. It stops only at the buffer bound or just before such a `/`. |
| `Archive.ResolveName` | paxinc.c:143-169 | Only a BSD name consumes bytes. The descriptor advances by exactly the bytes consumed. |
| `Archive.Close` | paxinc.c:97-103 | The exit releases the descriptor and frees the table. The archive name, the verbosity and the pending skip are kept. |
| `Archive.LoadTable` | paxinc.c:126-140 | Loading fails with a duplicate-table stop iff a table is already held. Otherwise it fails iff the announced `size` bytes cannot be read. A loaded table has exactly those bytes with every `'\n'` after index 0 made NUL. The skip is cleared, and the descriptor stands just after the table. |
| `Archive.DecodeMember` | paxinc.c:176-180 | The member keeps the display name it is given. Each number fits the width of its field: date below 10^12, uid and gid below 10^6, mode below 8^8 and size below 10^10. `RoundTrip.HeaderDecodes` states the values for written headers. |
| `Archive.MemberOf` | paxinc.c:143-181 | A failed name resolution releases the handle. A returned member keeps the table, and its name fits the buffer. The next header is sought exactly `size` bytes after this header, because BSD name bytes count in `size`. |
| `Archive.SkipTarget` | paxinc.c:96 | The seek is made only for a non-zero skip. It fails iff the descriptor is released or the new offset would be negative. |
| `Archive.Next` | paxinc.c:89-184 | Every end of the walk releases the descriptor and frees the table. A member comes with the descriptor still open on the same data, a name shorter than the buffer and a skip of at most its size. A loaded table is kept. |
| `RoundTrip.HeaderDecodes` | paxinc.c:176-180 | The numbers in a written header read back: date, uid, gid and size in decimal, mode in octal. Its end magic is present. |
| `RoundTrip.ReadHeaderAfterPad` | paxinc.c:109-115 | With no pad, or one `'\n'` pad, before a header, exactly that header is read, and the descriptor stands just after it. |
| `RoundTrip.ShortNameMember` | paxinc.c:143-181 | A short `/`-terminated name gives the display name "archive:name" and a skip of the whole payload. |
| `RoundTrip.NextReadsMember` | paxinc.c:89-184 | A written header after the skip, with or without a pad, is returned with its name and numbers. The next handle stands after the header with skip = size. |
| `RoundTrip.WalkFrom` | paxinc.c:89-184 | After at most one pad byte, successive calls over written entries return exactly those entries, in order. The call after the last one ends the walk. |
| `RoundTrip.WalkRoundTrip` | paxinc.c:20-184 | Opening a written archive succeeds, the walk returns every member as written, in order, and then ends. The magic's `'\n'` is absorbed as a pad. |
| `WalkFacts.SeekFailureEnds` | paxinc.c:96-104 | A skip that cannot be applied ends the walk and releases the handle. |
| `WalkFacts.ReleasedStaysEnded` | paxinc.c:96-107 | On a released handle every later call ends the walk again. |
| `WalkFacts.ShortHeaderEnds` | paxinc.c:106-115 | Fewer than 60 bytes at the sought offset end the walk. So does a `'\n'` pad with no byte after the 60 to refill from. |
| `WalkFacts.BadMagicEnds` | paxinc.c:117-123 | A header whose bytes 58..59 are not "`\n" ends the walk. Those bytes are counted from after the pad when there is one. |
| `WalkFacts.TableIsTransparent` | paxinc.c:126-140 | The first `//` header is not returned. The call gives what a call on the handle holding the converted table gives, with skip 0 and the descriptor just after the table. |
| `WalkFacts.TableEnds` | paxinc.c:126-134 | A second `//` table ends the walk. So does a table cut short. |
| `WalkFacts.TableExampleLoads` | paxinc.c:135-138 | The table "alpha.o\nbeta.o\n" is stored as "alpha.o\0beta.o\0". |
| `WalkFacts.TableExample` | paxinc.c:162-168 | In that table, offset 0 names "alpha.o" and offset 8 names "beta.o". |
| `WalkFacts.TableExampleLookups` | paxinc.c:156-168 | A `/8` name field resolves to "beta.o" without consuming bytes. A `/100` field ends the walk with a bad offset. |
| `WalkFacts.BsdNameFieldDecodes` | paxinc.c:144-146 | A written `#1/L` field is recognised as BSD, and L reads back. |
| `WalkFacts.BsdNameResolves` | paxinc.c:144-155 | A BSD name consumes the L bytes after the header. When those bytes hold a NUL, or there are more than 16 of them, the name is their C string. |
| `WalkFacts.BsdNameCutShort` | paxinc.c:146-153 | BSD name bytes that run past the end of the archive end the walk. |
| `WalkFacts.BsdMember` | paxinc.c:144-181 | A BSD member whose L bytes hold a name and a NUL is displayed under that name. The skip is size - L, and the descriptor stands after the name bytes. |
| `WalkFacts.GnuNameFieldDecodes` | paxinc.c:156-163 | A written `/O` field is recognised as GNU, and O reads back. |
| `WalkFacts.GnuNameResolves` | paxinc.c:156-168 | A GNU name with no table loaded ends the walk, and so does an offset at or past the table's length. Otherwise the name is the C string at that offset, and no bytes are consumed. |
| `WalkFacts.GnuMember` | paxinc.c:156-181 | A GNU member is displayed under the table's string and skips its whole payload. Both failures release the handle. |
| `WalkFacts.DisplayNameKeepsArchiveName` | paxinc.c:171-175 | When the archive name fits the buffer, it is always kept whole, even if it holds a `/`. |
| `WalkFacts.WalkRoundTripWithTable` | paxinc.c:89-184 | In a written archive that starts with a `//` table, the first call loads the table and then behaves as a call on the loaded handle. The walk returns every member as written and ends. |
| `RootPath.RootRel` | paxinc.c:238-245 | With the current directory as root, the path is unchanged. Otherwise the result is non-empty and does not start with `/`. An all-slash or empty path becomes ".". A path with any other byte becomes itself with its leading slashes removed. |
| `RootPath.RootRelPath` | paxinc.c:228-246 | The loop that steps past each leading `/` computes `RootRel`. |
| `RootPath.RootRelIgnoresSlashes` | paxinc.c:239-240 | Extra leading slashes make no difference to the result. |
| `RootPath.RootRelIdempotent` | paxinc.c:238-245 | A path already made relative comes back unchanged. |

## Left out

- The system calls.
  - `read` and `lseek(SEEK_CUR)` are slices and offsets of an immutable byte sequence. A seek past the end succeeds, as POSIX allows, and the following read fails.
  - `close` and `free` become the released handle, `Archive.Close`.
  - `xmalloc` allocation and its failure exit are not modelled. An announced `//` or BSD length longer than the remaining data ends the walk as a short read (`ShortTable`, `ShortLongName`).
  - `ar_open` (paxinc.c:38-51), which opens the file and calls `ar_open_fd`, is not modelled. Its `errp` exit is process-fatal.
- The `warn` diagnostics and the verbose flag have no observable effect. A stopped walk carries an `EndReason` tag; the source returns NULL for all of them alike.
- The static handle and static member storage (paxinc.c:22, 94) are replaced by returned values. Successive results and successive opens do not alias in the model.
- `sizeof(ret.name)` and the type of `skip` are declared in `paxinc.h`, which is not part of this model. The buffer size is the parameter `cap`, and `skip` is an unbounded integer. When a BSD name is longer than `size`, the skip is negative. The next seek then fails only if the resulting offset would be negative.
- `strtoll` is modelled for bases 8 and 10 in the C locale. Its ERANGE clamp is left out: no header field has enough digits to reach it.
- WalkFacts.BsdNameResolves: a BSD name of at most 16 bytes without a NUL is read over the name field and is not terminated by the source. The C string then runs on into the date field and beyond. The model stops it at the end of the 16-byte name field, so no property is stated for that case.
- Archive.ResolveName: the same over-read occurs for a plain name field with neither a `/` nor a NUL. The model ends such a name at the 16 bytes of the field.
- Archive.DisplayName: when the archive name is longer than the buffer, the source searches for `/` from a point past the buffer's terminator. The model cuts nothing in that case.
- Archive.DecodeMember: states the name and the bounds of the numbers in its own contract. What the numbers decode to is stated for written headers by `RoundTrip.HeaderDecodes`, and for every field by the `AsciiNumber` lemmas.
- `strfileperms` (uses `stat`), `color_init` (uses `getenv` and terminal colours), `fopenat_r` (uses `openat` and `fdopen`) and `pax_usage` (prints and exits) are I/O and presentation. They are not modelled.
- `root_fd` is a global descriptor. `root_rel_path` only compares it with `AT_FDCWD`, so the model takes that comparison as the boolean `rootIsCwd`.
