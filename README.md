# neutronapi: calendar timestamp parser and mount-table check

A Dafny model of two pieces of decision logic from the `neutronapi` kernel
library, with proofs about them:

- `KTimestamp::from_yyyy_mm_dd` (src/lib.rs) turns a ten-byte date string
  into an optional timestamp. `timestamp.dfy`, module `Timestamp`, has the
  parser as written, a separate parser as evidently intended, the calendar
  rules and their proofs.
- `VFS::check_valid` (src/fs.rs) decides whether a mount table has exactly
  one root `"/"` and no mount point twice. `vfs.dfy`, module `Vfs`, has the
  mount descriptor `SupportedFS` with its derived equality and order, the
  `sorted`/`dedup` steps, the check as written, the check as evidently
  intended, and their proofs.
- `wrappers.dfy` holds the `Option` type both modules use.

Both source files are pure, so the model is functions and lemmas.
`check_valid` takes `&self` and only reads the table. Its model is therefore
a function of the table's value and cannot change the table.

Modelling decisions:

- The date string is its UTF-8 bytes (`seq<byte>`). `len()` is the byte
  length. Rust panics when a slice boundary falls inside a multi-byte
  character. In the model such a byte (0x80..0xFF) is not a digit, so the
  model gives `None` there. On ASCII input the model matches the code exactly.
- `str::parse::<u8>` and `str::parse::<u64>` are one function,
  `ParseUnsigned(s, max)`. It accepts an optional leading `'+'`, then one or
  more ASCII digits and nothing else, with a value of at most `max`. An empty
  slice, a lone `'+'`, a `'-'` or any other byte fails.
- The `f32` fields `hour`, `min` and `sec` are whole-number fields. The
  parser only ever stores zero in them.
- `sorted()` from itertools is modelled as an insertion sort. Its contract
  is "sorted and a permutation", and `SortedUnique` proves that contract
  fixes the result. `dedup()` drops each element equal to the one just
  before it. The internals of the library are not modelled.
- Mount points are `string`. Rust's `Ord for String` compares UTF-8 bytes.
  That gives the same order as comparing code points, and `StrLe` compares
  code points. `StrLeIsLexicographic` proves `StrLe` equal to the plain
  definition of lexicographic order, `LexLe`.

Where the comments in the source and the code disagree, the model follows
the code:

- The layout comment at src/lib.rs:31-32 puts the year at bytes 0 to 3, the
  month at 5 and 6 and the day at 8 and 9. The comment at src/lib.rs:43 says
  the first four bytes are checked. The slices at src/lib.rs:44-46 are the
  half-open ranges `s[0..3]`, `s[5..6]` and `s[8..9]`, which take 3, 1 and 1
  bytes. So the code rejects `"2024-02-29"`.
- The comments at src/fs.rs:22 and src/fs.rs:27-30 require exactly one root
  and no mount point twice, and say a duplicate makes the check fail. The
  test at src/fs.rs:32 compares the length of the deduplicated list with 0
  rather than with the table's length. So, as written, `check_valid` never
  returns `true`.
- The comment at src/fs.rs:10 says the first entry is always the root.
  Nothing checks this, and neither version of the check needs it.

## Types

| type | source | holds |
|---|---|---|
| `Timestamp.KTimestamp` | src/lib.rs:20-28 | `day` and `month` as `u8`, `year` as `u64`; `hour`, `min` and `sec` as whole numbers standing for the `f32` fields. |
| `Vfs.SupportedFS` | src/fs.rs:43-46 | One mount point string. Equality and order are the derived ones: `EqIsMountPointEq` and `LeIsLexicographic`. |
| `Vfs.VFS` | src/fs.rs:9-12 | The mount table, a sequence of `SupportedFS` in the order given. |

## Model

| member | source | states |
|---|---|---|
| `Timestamp.ParseUnsigned` | src/lib.rs:48-52 | A successful parse is at most the type's maximum. It is the value of the digits after an optional `'+'`, and there is at least one digit. |
| `Timestamp.ParseRejectsNonDigit` | src/lib.rs:48-52 | A byte that is not a digit, other than a single leading `'+'`, makes the parse fail. |
| `Timestamp.ParseRejectsEmpty` | src/lib.rs:48-52 | An empty slice and a lone `'+'` fail to parse. |
| `Timestamp.ParseOneByte` | src/lib.rs:54-55 | A one-byte slice parses exactly when it is a digit, and its value is that digit. |
| `Timestamp.OneByteField` | src/lib.rs:45-46 | The one-byte month and day slices parse to the digit at byte 5 or byte 8, or fail. |
| `Timestamp.ParseBound` | src/lib.rs:44-52 | A successful parse of an n-byte slice is below 10^n. So a three-byte year never overflows `u64`. |
| `Timestamp.YearBelow1000` | src/lib.rs:44-52 | A year read from the 3-byte slice is at most 999. |
| `Timestamp.PadDigitsValue` | src/lib.rs:31-32 | A number written in `width` zero-padded digits reads back as that number, if it fits in the width. |
| `Timestamp.ParsePadded` | src/lib.rs:48-52 | Parsing a zero-padded number that fits gives back that number. This is the print/parse round trip. |
| `Timestamp.ParsePlusPadded` | src/lib.rs:48-52 | A `'+'` in front of a zero-padded number that fits is accepted, and the parse gives that number. |
| `Timestamp.SourceLeap` | src/lib.rs:79 | The source's leap test `(y%400==0 && y%100==0) \|\| (y%4==0 && y%100!=0)` holds exactly for Gregorian leap years: divisible by 400, or divisible by 4 and not by 100. |
| `Timestamp.DayMax` | src/lib.rs:67-88 | The day limit is between 28 and 31. For months 1 to 12 it is the Gregorian month length: 31 for 1, 3, 5, 7, 8, 10 and 12, 29 or 28 for February by the leap rule, and 30 otherwise. |
| `Timestamp.FromYyyyMmDd` | src/lib.rs:33-106 | An input whose length is not 10 gives `None`. A `Some` result has month 1 to 12, day at most that month's length, and hour, min and sec zero. |
| `Timestamp.CheckFields` | src/lib.rs:48-105 | The checks after slicing. The result is `Some` iff all three fields parsed, the month is 1 to 12 and the day is at most that month's length. A `Some` holds those three values with hour, min and sec 0. |
| `Timestamp.FromYyyyMmDdAccepts` | src/lib.rs:35-105 | The parser as written succeeds iff the length is 10, bytes 0..2 form a number, byte 5 is a digit 1 to 9, and byte 8 is a digit no larger than that month's length. |
| `Timestamp.FromYyyyMmDdValue` | src/lib.rs:44-105 | When the parser as written succeeds, the year is the number in bytes 0..2 (at most 999), the month and day are the digits at bytes 5 and 8, and hour, min and sec are 0. |
| `Timestamp.RejectedIsNone` | src/lib.rs:35-96 | A ten-byte input that fails any of those conditions gives `None`. |
| `Timestamp.MonthIsOneDigit` | src/lib.rs:44-62 | A `Some` result has month 1 to 9, day at most 9 and year at most 999. |
| `Timestamp.FieldNotNumberIsNone` | src/lib.rs:48-91 | If the year, month or day slice is not a number, the result is `None`. |
| `Timestamp.OnlyFieldBytesMatter` | src/lib.rs:44-46 | The result depends only on the length and on bytes 0, 1, 2, 5 and 8. Bytes 3, 4, 6, 7 and 9, including both hyphens, never change it. |
| `Timestamp.AsWrittenMisreadsFormatted` | src/lib.rs:31-46 | On any valid date written as `yyyy-mm-dd`, the code returns `None` for January to September. For October to December it returns day `day/10`, month 1 and year `year/10`. |
| `Timestamp.LeapDayRejectedAsWritten` | src/lib.rs:44-62 | `"2024-02-29"` gives `None` as written. The intended parser gives 29 February 2024. |
| `Timestamp.DayZeroAcceptedAsWritten` | src/lib.rs:44-105 | `"2023-13-01"` gives day 0 of month 1 of year 202 as written, because the day has no lower bound. The intended parser rejects it. |
| `Timestamp.MonthThirteenRejected` | src/lib.rs:56-62 | Intended version. A month field of `"13"` makes the intended parser return `None`. |
| `Timestamp.FromYyyyMmDdIntended` | src/lib.rs:31-106 | Intended version. It uses slices `s[0..4]`, `s[5..7]`, `s[8..10]` and requires `day >= 1`. Wrong length gives `None`. A `Some` result is a valid calendar date with a year of at most 9999. |
| `Timestamp.Format` | src/lib.rs:31-32 | Writes a date in the `yyyy-mm-dd` layout: 10 bytes with hyphens at positions 4 and 7. |
| `Timestamp.IntendedOnFormatted` | src/lib.rs:31-106 | Given a date in its own layout, the intended parser accepts exactly the valid dates and returns them unchanged. |
| `Timestamp.IntendedRoundTrip` | src/lib.rs:31-106 | For every valid date with a four-digit year, the intended parser applied to `Format` of that date gives back the date. |
| `Timestamp.IntendedLeapDay` | src/lib.rs:77-84 | The intended parser accepts 29 February exactly in Gregorian leap years. |
| `Timestamp.IntendedLeapDays` | src/lib.rs:77-84 | The intended parser accepts 29 February in 2024 and 2000, and rejects it in 2023 and 1900. |
| `Timestamp.IntendedOutOfRange` | src/lib.rs:56-96 | The intended parser rejects month 13, 31 April and day 0. |
| `Vfs.EqIsMountPointEq` | src/fs.rs:43-46 | Two descriptors are equal iff their mount-point strings are equal. |
| `Vfs.StrLeIsLexicographic` | src/fs.rs:43-46 | The string order holds iff the first string is a prefix of the second, or has the smaller character at the first position where they differ. |
| `Vfs.LeIsLexicographic` | src/fs.rs:43-46 | The derived order on descriptors is the lexicographic order of their mount points. |
| `Vfs.LeIsTotalOrder` | src/fs.rs:43-46 | The derived lexicographic order on descriptors is reflexive, antisymmetric, transitive and total. |
| `Vfs.Sorted` | src/fs.rs:29 | The sorted copy is non-decreasing and a permutation of the table. |
| `Vfs.SortedUnique` | src/fs.rs:29 | Two sorted sequences with the same elements are equal, so the sorted copy is determined. |
| `Vfs.SortedPermutation` | src/fs.rs:29 | Permuting the table does not change its sorted copy. |
| `Vfs.Dedup` | src/fs.rs:31 | The dedup output has no two equal neighbours. It is no longer than its input, it is empty iff its input is empty, and it starts with the input's first element. |
| `Vfs.DedupKeepsElements` | src/fs.rs:31 | Dedup keeps every element of its input and adds none. |
| `Vfs.DedupLength` | src/fs.rs:31 | Dedup removes nothing exactly when no two neighbours are equal. |
| `Vfs.DedupRuns` | src/fs.rs:31 | The input is the dedup output with each element repeated one or more times. So dedup keeps one element of each run of equal neighbours and nothing else. |
| `Vfs.DedupSubsequence` | src/fs.rs:31 | Each element of the dedup output is taken from the input, at strictly increasing positions. |
| `Vfs.DedupSorted` | src/fs.rs:29-31 | Dedup of a sorted sequence is sorted and holds no element twice. |
| `Vfs.SortedNoAdjacentEqual` | src/fs.rs:27-31 | In a sorted sequence, "no equal neighbours" is equivalent to "no element twice". |
| `Vfs.SortedNoDuplicates` | src/fs.rs:29 | Sorting neither creates nor removes duplicates. |
| `Vfs.DedupSortedDetectsDuplicates` | src/fs.rs:27-31 | Dedup of the sorted table is strictly shorter than the table iff some mount point occurs twice. |
| `Vfs.New` | src/fs.rs:15-17 | `VFS::new` stores the given descriptors unchanged and in order. |
| `Vfs.Roots` | src/fs.rs:21 | The filtered list is no longer than the table, and every entry in it is the `"/"` descriptor. |
| `Vfs.RootsCount` | src/fs.rs:21 | The filtered list holds every `"/"` entry: its length is the number of `"/"` entries in the table. |
| `Vfs.CheckValid` | src/fs.rs:20-25 | As written, a table whose number of `"/"` entries is not exactly 1 is rejected. |
| `Vfs.CheckValidNeverTrue` | src/fs.rs:20-39 | As written, `check_valid` returns `false` for every table. |
| `Vfs.CheckValidPermutation` | src/fs.rs:20-31 | The verdict as written is the same for every permutation of the table. |
| `Vfs.CheckValidIntended` | src/fs.rs:19-28 | Intended version. It returns `true` iff the table has exactly one `"/"` and no mount point twice. |
| `Vfs.CheckValidIntendedPermutation` | src/fs.rs:19-31 | The intended verdict is the same for every permutation of the table. |
| `Vfs.RootOnlyTable` | src/fs.rs:20-38 | The table holding only `"/"` is accepted by the intended check and rejected as written. |

## Left out

- `open()` (src/lib.rs:11) is an empty stub with no behaviour.
- The `f32` values of `hour`, `min` and `sec` are not modelled, because they are floating point. They are whole-number fields fixed at 0.
- The `Readable` and `Writable` traits and `NeutronFile` (src/fs.rs:48-64) are not modelled. They are I/O interfaces with no implementation, so there is nothing to check them against.
- The internals of itertools `sorted` and `dedup` are not modelled, because they are foreign code. Each is specified by what it produces.
- A UTF-8 char-boundary panic in the slicing is not modelled as a panic. The model answers `None` instead.
- `FromYyyyMmDdIntended`: it does not check the two hyphens, because the code as written never looks at them either.
- The `no_std` and `alloc` plumbing is left out, and so is dynamic loading of filesystems (src/fs.rs:8). These are platform concerns, not logic.
- Mount-path canonicalisation (src/fs.rs:36) is left out, because the source does not implement it.

## Findings

| source | as written | input that shows it | evidently intended | confidence | as-written member | corrected member |
|---|---|---|---|---|---|---|
| src/lib.rs:44-46 | year, month, day from `s[0..3]`, `s[5..6]`, `s[8..9]` | `"2024-02-29"` gives `None` | slices `s[0..4]`, `s[5..7]`, `s[8..10]` per the layout comment at src/lib.rs:31-32 | not executed | `Timestamp.LeapDayRejectedAsWritten` | `Timestamp.IntendedRoundTrip` |
| src/lib.rs:94-96 | only `day > day_max` is rejected | `"2023-13-01"` gives day 0 (month 1, year 202) | also reject `day < 1` | not executed | `Timestamp.DayZeroAcceptedAsWritten` | `Timestamp.IntendedOutOfRange` |
| src/fs.rs:32 | `if res.len() != 0 { return false; }` | the table `["/"]` gives `false` | fail only when dedup shortened the sorted table (`res.len() != self.fs.len()`) | not executed | `Vfs.CheckValidNeverTrue` | `Vfs.CheckValidIntended` |
