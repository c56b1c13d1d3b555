# pixrn: a Dafny model of the photo renamer

pixrn renames every regular file in one directory after the moment the
photo was taken. The stem comes from the EXIF tag DateTimeOriginal when the
file has EXIF data holding that tag, and from the file's birth time
otherwise. It is formatted as `YYYY-MM-DD_HH-MM-SS`. The new name is the
stem, a `_<n>` suffix and the old extension, in the same directory. The
suffix numbers files that resolve to the same name: the first claimant of a
tentative name `stem_1.ext` gets `_1`, the next `_2`, and so on. If a file
named `stem_1.ext` was already on disk when the name was first claimed,
every number moves up by one.

The model follows `main.cc` function by function:

- `Decimal` — the `%0wd` fields strftime writes, `std::to_string`, and
  reading digit groups back.
- `Timestamps` — both overloads of `time_to_path`: formatting a
  `struct tm`, and parsing the EXIF text `YYYY:MM:DD HH:MM:SS` with
  `std::get_time` and then formatting it.
- `Paths` — `normalize`, plus the parts of `boost::filesystem::path`
  (version 3) that the loop uses: `parent_path`, `filename`,
  `extension`, `replace_extension`, `operator/`. A path is the sequence of
  its components.
- `Resolver` — `new_stem_from_exif` and `new_stem_from_stat`. What
  libexif and stat return is passed in as `Option` values.
- `Planner` — the rename loop of `main`. It is specified on values:
  - `Decide`: one entry's plan;
  - `Step`: one iteration;
  - `Run`: the whole pass;
  - `Log`: the plans in order.

  It is carried out by the method `RenamePhotos`. That method updates a
  `FileSystem` object standing for the disk, a claim table
  `map<Path, nat>` standing for `new_paths`, and a `uint32_t` counter. Its
  postcondition ties the final disk, table and counter to `Run`.

The loop is modelled exactly as written:
- an entry that is not a regular file is skipped;
- an entry whose tentative name is its own path is skipped;
- `try_emplace(new_path, 1)` followed by `it->second += !inserted || fs::exists(new_path)`;
- the disk is consulted only when a key is first inserted;
- a count above 1 rebuilds the name from the tentative path with `_<count>`;
- the bumped name is never looked up;
- `fs::rename` replaces whatever has the target's name.

Some descriptions of the program say the first file of a group keeps the
bare stem, so that three files become `stem`, `stem_2` and `stem_3`. The
code (main.cc:133-147) gives the first claimant `_1`, so they become
`stem_1`, `stem_2` and `stem_3`. The model follows the code (see
`Planner.TargetShape` and `Planner.SuffixAt`).

For the same reason a second run is not a no-op:
- a file named `stem_1.ext` is skipped, because its tentative name is itself;
- a file named `stem_2.ext` has the tentative name `stem_1.ext`, which is
  claimed again and may be found on disk.

## Model

| member | source | states |
|---|---|---|
| Decimal.PadDec | main.cc:60 | a `%0wd` field is all digits and at least `width` characters long |
| Decimal.ToDecimal | main.cc:145 | `std::to_string` of a count is a non-empty digit string whose value is the count, with no leading zero for a positive count |
| Decimal.PadDecLeading | main.cc:145 | unpadded decimal text of a positive value starts with a non-zero digit |
| Decimal.PadInt | main.cc:60 | a field holds only digits and a minus sign; for a non-negative value it is the zero-padded decimal text |
| Decimal.PadDecValue | main.cc:58-69 | reading a formatted field back gives the number |
| Decimal.PadDecLength | main.cc:60 | a value below 10^w is written in exactly w characters |
| Decimal.PadDecOfDigits | main.cc:64-69 | formatting the value of a digit group at the group's width gives the group back, leading zeros included |
| Timestamps.TimeToPath | main.cc:58-62 | a formatted time holds only digits, '-' and '_', so no dot |
| Timestamps.TimeToPathShape | main.cc:58-62 | for fields in the C library's ranges, the stem is 19 characters with '-' at 4, 7, 13 and 16 and '_' at 10; its six digit groups read back as year, month counted from 1, day, hour, minute and second |
| Timestamps.ParseDateTime | main.cc:64-67 | `get_time` on well-formed text gives a `tm` whose fields are in range, with year counted from 1900 and month from 0 |
| Timestamps.ParsedGroups | main.cc:64-69 | parsing then formatting gives back each digit group of the EXIF text unchanged |
| Timestamps.ExifTimeToPath | main.cc:64-69 | the stem of an EXIF time is the EXIF text with ':' turned into '-' and the space into '_', digit for digit, and it is a canonical stem |
| Paths.Append | main.cc:54 | `operator/` adds one component at the end and keeps the rest |
| Paths.AccumulateAppends | main.cc:54 | folding `operator/` over the components gives the starting path followed by all of them, in order |
| Paths.Normalize | main.cc:52-56 | a path whose text starts with '~' becomes HOME followed by every component after the first; any other path, the empty one included, is unchanged |
| Paths.LastDot | main.cc:130 | a found offset is within the name and holds a '.' |
| Paths.LastDotSpec | main.cc:130 | the found '.' has no '.' after it, and nothing is found exactly when the name has no dot |
| Paths.Extension | main.cc:130 | the extension is no longer than the file name |
| Paths.ExtensionShape | main.cc:130 | `extension()` is empty or a '.' followed by dot-free text, and it is a suffix of the file name; it is empty exactly when the name is ".", ".." or has no dot |
| Paths.FileName | main.cc:130 | `filename()` is the last component: the parent path followed by it is the whole path |
| Paths.ParentPath | main.cc:130 | `parent_path()` is a prefix of the path, one component shorter (empty for the empty path) |
| Paths.ParentAndFileNameOfAppend | main.cc:130 | `parent_path()` and `filename()` of `p / c` give back `p` and `c` |
| Paths.Stripped | main.cc:130 | the name without its extension, followed by the extension, is the name |
| Paths.ReplaceExtension | main.cc:130 | `replace_extension(ext)` is the name stripped of its extension followed by ext, with a '.' added when ext lacks one |
| Paths.ReplaceExtensionKeeps | main.cc:130 | the result has exactly the given non-empty extension (unless it is "." or ".."), and none when ext is empty and the stripped name has no dot |
| Paths.ExtensionOfSuffixed | main.cc:130 | any name followed by a non-empty extension has exactly that extension, unless it is "." or ".." |
| Paths.ExtensionOfAppended | main.cc:129-131 | a dot-free stem followed by an extension has exactly that extension |
| Paths.MakePathFromStem | main.cc:129-131 | the new path is non-empty and keeps the old path's parent |
| Paths.MakePathFromStemShape | main.cc:129-131 | for a dot-free stem, the new path keeps the old parent; its file name is the stem followed by the old extension, and it keeps that extension |
| Resolver.NewStemFromStat | main.cc:71-79 | the stem is missing exactly when stat fails; otherwise it is the birth time formatted by `time_to_path`, canonical when in range |
| Resolver.BirthStemCanonical | main.cc:77-78 | a birth time in range is formatted as a canonical stem |
| Resolver.NewStemFromExif | main.cc:81-96 | with EXIF data holding DateTimeOriginal, the stem is that text with separators replaced; otherwise it is the birth-time stem; it is missing exactly when there is no capture time and stat fails; it is canonical whenever the time used is in range |
| Resolver.CaptureTimeIgnoresBirthTime | main.cc:88-95 | with a capture time, the birth time (and whether stat would fail) makes no difference |
| Resolver.CaptureTimeExample | main.cc:81-96 | "2023:05:01 10:00:00" is accepted and gives "2023-05-01_10-00-00" |
| Resolver.BirthTimeExample | main.cc:71-91 | without EXIF data, or without DateTimeOriginal, a birth time of 1 May 2023 10:00:00 gives the same stem |
| Planner.Initial | main.cc:122-123 | before the loop the disk is as given, no name is claimed and no file is counted |
| Planner.BasePath | main.cc:133-136 | the tentative name `stem_1.ext` is in the entry's directory |
| Planner.Decide | main.cc:125-147 | there is a plan exactly when the entry is regular and not already at its tentative name; the plan claims that name; the disk is consulted only for an unclaimed name; the count is the old count plus one for a claimed name, otherwise 2 when it was on disk and 1 when not |
| Planner.BaseShape | main.cc:133-136 | the tentative name of a dot-free stem is the entry's directory, the stem, "_1" and the entry's extension |
| Planner.SuffixNoDot | main.cc:135-145 | a dot-free stem with "_n" added stays dot-free, and "_1" is "_" followed by `to_string(1)` |
| Planner.TargetShape | main.cc:142-147 | the target is the entry's directory, its stem, "_<count>" with count at least 1, and its extension; the first claimant of a free name gets "_1" |
| Planner.DiskOnlyAtFirstClaim | main.cc:142-143 | once a name has been claimed, what the disk holds makes no difference to the plan, so a bumped name is never checked |
| Planner.Step | main.cc:124-151 | a skipped entry changes nothing; a renamed entry moves its file from its path to the plan's target on disk, stores the plan's count under its tentative name leaving every other count as it was, and counts once |
| Planner.LogLength | main.cc:124-151 | there is one plan per renamed entry |
| Planner.Inc32IsMod | main.cc:150 | `num_files += 1` on a `uint32_t` is the successor modulo 2^32 |
| Planner.AddWrappedIsMod | main.cc:150 | k increments of a `uint32_t` give the sum modulo 2^32 |
| Planner.CounterAdvance | main.cc:150 | one iteration adds one to the counter exactly when it renames |
| Planner.RunCounts | main.cc:123-150 | the counter goes up once per renamed entry |
| Planner.NumFilesCountsRenamed | main.cc:123-150 | `num_files` at the end is the number of regular entries not already at their tentative name, modulo 2^32 |
| Planner.ClaimsGrow | main.cc:142-143 | claims are never withdrawn, counts never go down, and counts stay at least 1 |
| Planner.OnDiskAtMostClaimants | main.cc:142-143 | a name is found on disk at most as often as it is claimed |
| Planner.SnocCounts | main.cc:142-143 | one more plan adds one claimant of its name, and one on-disk finding if it found the name on disk |
| Planner.ClaimStep | main.cc:142-143 | one claim keeps the table in step with the plans: a claimed name goes up by one without the disk, a new one starts at 1, or at 2 when on disk |
| Planner.ClaimCounting | main.cc:122-147 | after any run from an empty table: a name is a key exactly when some plan claimed it; its value is the number of claimants plus one if the disk held it at the first claim; every plan's count obeys the same law |
| Planner.SuffixAt | main.cc:142-147 | the k-th claimant of a name gets count k, or k + 1 if the name was on disk when first claimed, and only the first claimant can find it on disk |
| Planner.AllBelongSnoc | main.cc:124-142 | plans made for a prefix of the entries still belong to the entries when one more plan is logged |
| Planner.LogEntries | main.cc:125-142 | every plan belongs to a regular entry of the run that was not at its tentative name; it claims that name with a count of at least 1 |
| Planner.LogTargets | main.cc:129-147 | when no stem has a dot, every rename target is the entry's directory, its stem, "_<count>" and its extension |
| Planner.FileSystem.Exists | main.cc:143 | `fs::exists`: whether the disk holds the path |
| Planner.FileSystem.Rename | main.cc:149 | the source is gone and the target is there, replacing any file of that name |
| Planner.RenamePhotos | main.cc:122-151 | the loop leaves the disk, the claim table and the counter exactly as `Run` over the entries says |

## Left out

- libexif is not modelled. `exif_data_new_from_file`, the lookup of DateTimeOriginal in the EXIF IFD and `exif_entry_get_value` become an `Option<ExifData>` holding each tag's value as text. `exif_data_unref` and the `defer` helper (main.cc:22-50) only free memory.
- `stat` and `std::localtime` are not modelled. The birth time is an `Option<Tm>`, where None stands for the stat failure that ends the program.
- Timestamps.ParseDateTime: requires well-formed text, because on malformed text `std::get_time` fails and leaves `tm` uninitialised. What is formatted then is undefined.
- Timestamps.ExifTimeToPath: requires well-formed text, for the same reason.
- Resolver.NewStemFromExif: requires that a DateTimeOriginal value, when present, is well-formed, for the same reason.
- Timestamps.TimeToPathShape: states the stem's shape only for fields in range with a four-digit year. `TimeToPath` itself models any field value, with a minus sign for negatives, as `%0wd` writes it.
- Timestamps.TimeToPath: does not model strftime's 64-byte buffer limit. Fields far out of range (say `tm_year` 0 and the other five at -2147483647) give 64 characters, which do not fit with the terminator; strftime then returns 0 and leaves the buffer indeterminate, while `TimeToPath` still returns the full text. Every time in range gives 19 characters (`Timestamps.TimeToPathShape`).
- Planner.LogTargets: states target shapes only for dot-free stems. Formatted stems always are dot-free (`Timestamps.TimeToPath`). A stem with a dot is still renamed as `ReplaceExtension` says.
- Planner.RenamePhotos: the entries carry stems already resolved by `new_stem_from_exif`. A stat failure in the middle of the loop, which terminates the program after the earlier renames, is not modelled.
- The directory iterator is not modelled. The entries are a sequence in iteration order, and whether renamed files are visited again is not modelled; `is_regular_file(status())` is the entry's `regular` flag.
- Path syntax is not modelled: root names, separators, and the comparison of "a//b" with "a/b". A path is its component sequence, and `==` is equality of components.
- `path_hash` and the unordered map's hashing are not modelled; the claim table is a `map`.
- `fs::rename` failures (Boost throws `filesystem_error`) are not modelled; a rename always succeeds.
- The claim counts are `size_t`, modelled as `nat`. They never exceed the number of entries plus one, so wrap-around cannot occur.
- The command line is not modelled (main.cc:98-115 and 153): the argument count check, `system_complete`, `exists`, `is_directory` and the messages printed.
- `getenv("HOME")` is the `home` parameter of `Normalize`; an unset HOME is not modelled.
- Boost filesystem version 4 extension rules are not modelled; the model uses version 3, where ".bashrc" has extension ".bashrc".
