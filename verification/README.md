# finit shared utilities: a verified model

finit is a replacement for `/sbin/init`. Its `src/util.c` holds the helpers
that finit, `initctl` and `reboot` share. This project models the helpers
that compute something. Each helper has its own part of `util.dfy` (module
`Util`):

- `progname(arg0)` finds the base name of a path, the part after the last
  `/`. It stores it in the global `prognm` and returns it.
- `strtobytes(arg)` parses a decimal size with an optional `k`, `M` or `G`
  suffix, each a power of 1000. It refuses any other suffix with -1 and
  overwrites the accepted suffix with NUL, in place.
- `uptime(secs, buf, len)` splits a number of seconds into years of 31556926
  seconds, days, hours, minutes and seconds. It writes the non-zero parts as
  text into a caller buffer bounded by `len`.
- `sanitize(arg, len)` scans a user-supplied name for printable characters
  (`isallowed`). It then NUL-terminates the name in place or rejects it.

`libc.dfy` (module `LibC`) states the C-library behaviour these helpers rely
on, over Dafny values:

- C strings in character buffers, `strspn`, `strlen` and `strrchr`.
- `atoi` on a string of digits.
- The `%ld` conversion and the bounded copy of `snprintf`.
- C's truncating `/` and `%`.

How each C type is represented:

- A `char *` buffer is an `array<char>`. It is `array?<char>` where the C
  code tests for NULL.
- A string argument that is only read is a `seq<char>` of its characters.
- `int` results are the `int32` newtype.
- `errno` and `prognm` are fields of the class `Util.Globals`.

Each method is proved against a specification function over the buffer's
contents: `StrToBytesValue` and `StrToBytesBuffer`, `UptimeText` and
`Decompose`, and `SanitizeResult`. The lemmas then state what the C code
promises about those functions.

`uptime` has an independent partner. `ParseUptime` is a reader for the text
`uptime` writes, and `UptimeRoundTrip` proves that reading the text back
gives the exact duration for every non-negative `long`. So no part is lost,
truncated or confused with another. Together with the reconstruction
identity in `Decompose`, this means the text determines the input.

## Model

| member | source | states |
|---|---|---|
| `Util.Globals.Progname` | src/util.c:39-48 | for a C string `arg0` (no NUL inside), sets `prognm` to the base name of `arg0` and returns its offset within `arg0`, the offset `BaseOffset` defines |
| `Util.BaseOffset` | src/util.c:41-45 | the base name starts within the path, contains no `/`, and is preceded by a `/` unless it is the whole path |
| `Util.BaseOffsetUnique` | src/util.c:41-45 | any offset with those properties is `BaseOffset`: the base name is exactly the suffix after the last `/`, or the whole path when there is none |
| `Util.BaseNameIdempotent` | src/util.c:39-48 | `progname` applied to its own result returns all of it |
| `Util.BaseOffsetExamples` | src/util.c:41-45 | `/sbin/finit` gives `finit`, `initctl` gives itself, `/usr/sbin/` gives the empty name |
| `LibC.LastIndex` | src/util.c:41 | `strrchr`: no result exactly when the character is absent; otherwise the position of an occurrence with none after it |
| `LibC.Span` | src/util.c:84 | `strspn`: every character in the span is accepted, and the one after it is not |
| `LibC.DecimalValue` | src/util.c:98 | the value of a string of k digits is below 10^k |
| `LibC.Atoi` | src/util.c:98 | `atoi` on a string made only of digits reads the digits before the NUL, a value below 10^(its length) |
| `Util.SuffixExponent` | src/util.c:85-93 | a suffix is accepted exactly when it is NUL, `k`, `M` or `G` (case-sensitive); the power of 1000 is at most 3, and 0 only at the terminator |
| `Util.StrToBytesValue` | src/util.c:76-103 | the result is -1 exactly when the character after the digit prefix is neither NUL nor `G`, `M` or `k`; otherwise it is at least 0 |
| `Util.StrToBytesBuffer` | src/util.c:84-96 | only the byte at the end of the digit prefix can change; when the suffix is accepted the string left behind is exactly the digit prefix, and when it is refused the buffer is unchanged |
| `Util.StrToBytes` | src/util.c:76-103 | NULL gives -1; otherwise it returns `StrToBytesValue` of the old contents in a C `int` and leaves `StrToBytesBuffer` of them in the buffer; the `mod` loop never overflows |
| `Util.StrToBytesScales` | src/util.c:84-102 | digits then NUL give their value n; `k`, `M` and `G` give n·1000, n·1000000 and n·1000000000; any other suffix gives -1 |
| `Util.StrToBytesIgnoresTail` | src/util.c:84-98 | two buffers that agree on the digit prefix and the character after it give the same value |
| `Util.StrToBytesBareSuffix` | src/util.c:84-102 | `"k"` has an empty digit prefix and gives 0 |
| `Util.StrToBytesRefusesUpperK` | src/util.c:85-93 | `"10K"` gives -1: upper-case K is refused |
| `Util.StrToBytesThreeGiga` | src/util.c:98-100 | `"3G"` scales to 3000000000, which exceeds `INT_MAX` |
| `Util.Globals.Uptime` | src/util.c:122-160 | NULL `buf` returns NULL and sets `errno` to EINVAL; otherwise it returns `buf`, leaves `errno` alone, and stores `UptimeText(Decompose(secs))` cut to `len` |
| `Util.Decompose` | src/util.c:132-139 | years·31556926 + days·86400 + hours·3600 + mins·60 + secs equals the input; for non-negative input every part is non-negative, with secs < 60, mins < 60, hours < 24 and what is left after the years below 31556926 seconds; for non-positive input the mirrored bounds hold |
| `Util.DecomposeUnique` | src/util.c:132-139 | for non-negative input, any split meeting those bounds is `Decompose`'s: exactly one year is 1 year, not 365 days and some hours |
| `LibC.Quot` | src/util.c:132-138 | C's `/`: the quotient is truncated toward zero, so quotient·divisor lies between zero and the dividend, within one divisor of it |
| `LibC.Rem` | src/util.c:132-139 | C's `%`: quotient·divisor + remainder equals the dividend, and the remainder takes the dividend's sign and is smaller in magnitude than the divisor |
| `LibC.TruncatedDivisionUnique` | src/util.c:132-139 | any quotient and remainder that add back up to the dividend, with the remainder of the dividend's sign and smaller than the divisor, are `Quot` and `Rem` |
| `Util.Piece` | src/util.c:141-150 | a piece is empty exactly when its count is zero, and holds no NUL |
| `LibC.DecimalText` | src/util.c:142-150 | `%ld` prints a non-empty text: digits, preceded by `-` for negatives, without leading zeros (only zero itself starts with `0`), and no NUL or blank |
| `LibC.DecimalRoundTrip` | src/util.c:142-150 | reading back the digits `%ld` printed gives the number |
| `LibC.DecimalRoundTripNegative` | src/util.c:142-150 | a negative number prints as `-` followed by the digits of its magnitude |
| `LibC.DecimalTextLength` | src/util.c:142-150 | a number below 10^k prints as at most k digits |
| `Util.PieceFits` | src/util.c:125-150 | for a count below 10^12 the 20-byte piece buffers truncate nothing: the piece is the count, a blank and the unit |
| `Util.UptimeText` | src/util.c:141-157 | the text holds no NUL |
| `Util.UptimeTextRender` | src/util.c:152-157 | the text is the parts in the order year, day, hour, min, sec, each non-zero part but the seconds followed by exactly one blank |
| `Util.UptimeRoundTrip` | src/util.c:132-157 | for 0 ≤ secs ≤ LONG_MAX, `ParseUptime` recovers exactly `Decompose(secs)` from the text, so no part is lost, truncated or confused with another (that a unit appears only when its count is non-zero is `Piece`'s contract) |
| `Util.UptimeZero` | src/util.c:141-157 | zero seconds give the empty text |
| `Util.UptimeTrailingBlank` | src/util.c:141-157 | one hour gives `"1 hour "`, with the blank after the last part |
| `Util.UptimeOneYear` | src/util.c:132-157 | 31556926 seconds give `"1 year "` |
| `LibC.Bounded` | src/util.c:142-157 | `snprintf` keeps a prefix of the text, at most size-1 characters, and nothing for size 0 |
| `LibC.Store` | src/util.c:152-157 | the buffer keeps its length; size 0 writes nothing; bytes past the terminator are unchanged; the string read back is the text cut to size-1 |
| `LibC.Snprintf` | src/util.c:152-157 | the array afterwards is `Store` of its old contents |
| `Util.IsAllowed` | src/util.c:163-166 | `isallowed` is `isprint`, which never allows the NUL terminator, so the scan cannot run past the end of a string |
| `Util.SanitizeStop` | src/util.c:171-174 | the scan stops at most at `len` and at the buffer's end; every character before it is allowed, and it stops early only at one that is not |
| `Util.SanitizeResult` | src/util.c:169-185 | when the stop index i has i + 1 < len, the name is accepted and exactly byte i + 1 becomes NUL; otherwise nothing changes and the name is accepted exactly when i > 0 and byte i is NUL |
| `Util.Sanitize` | src/util.c:169-185 | returns `arg` or NULL; the verdict and the new contents are `SanitizeResult` of the old contents |
| `Util.SanitizeAcceptedString` | src/util.c:173-182 | an accepted buffer holds a C string of at most `len` characters, all allowed except possibly the character the scan stopped at |
| `Util.SanitizeKeepsStopChar` | src/util.c:173-178 | when the scan stops early on a character that is neither allowed nor NUL, the name is accepted and ends with that character, because the NUL goes after it |
| `Util.SanitizeAcceptsName` | src/util.c:169-185 | a NUL-terminated name of 1 to `len` allowed characters is accepted and its string is unchanged |
| `Util.SanitizeRejectsLong` | src/util.c:173-184 | a buffer whose first len + 1 characters are all allowed is rejected |
| `Util.SanitizeIdempotent` | src/util.c:169-185 | running `sanitize` again on its output gives the same verdict and changes nothing |

## Left out

- `echo`, `do_sleep`, `jiffies`, `screen_init` and `screen_exit`, and the globals `screen_rows` and `screen_cols`. These are file output, sleeping, the `sysinfo()` call and terminal probing: I/O and system calls with nothing to compute.
- `finit.c`'s `main` and `banner`: the boot sequence of mounts, external commands, plugins and the event loop. These are system calls and calls into code that is not part of this model.
- The service supervision engine, signal relay, runlevel engine and hook dispatcher that `finit.c` calls into. Their sources are not part of this model.
- `Util.StrToBytes`: requires the scaled value to fit in a C `int`. Beyond `INT_MAX` (for example `"3G"` or `"2148M"`), C's signed `atoi` and `bytes *= 1000` are undefined behaviour, and the model gives them no value.
- `LibC.Atoi`: models `atoi` only on strings made of digits. Leading blanks and a sign never reach it from `strtobytes`, because the string left behind is the digit prefix.
- `Util.Globals.Progname`: `prognm` holds the base name's characters, not a pointer into `arg0`. Later changes to `arg0` through that alias are not modelled.
- `Util.Globals.Uptime`: requires `secs` to lie in the range of a `long`. `UptimeRoundTrip` covers non-negative inputs only. Negative inputs are formatted with minus signs, which the reader does not parse.
- `Util.Sanitize`: `isallowed` is `isprint` in the C locale (blank to tilde). `isprint` on a negative `char`, which is undefined behaviour, is not modelled. The requires clause states the memory safety the C code relies on: the scan reads `arg[i]` before it tests `i < len`, and the code may write `arg[i + 1]`, so both must lie inside the buffer.
- `LibC.Snprintf`: requires a text without NUL. `%s` would stop copying at an embedded NUL; the text `uptime` passes never holds one, by `UptimeText`'s contract.
- `Util.DecomposeUnique`: covers non-negative inputs only, the ones `UptimeRoundTrip` reads back.
- Formatting beyond `%ld` followed by a unit name, and `%s`, is not modelled.
