# reordermp3 — a verified model of the renaming core

reordermp3 numbers a folder of `.mp3` files after a Spotify playlist. It
takes the playlist identifier out of a share URL. Then it renames the
folder's `.mp3` files, taken in ascending name order, to
`01_<track>.mp3`, `02_<track>.mp3`, … in the order of the playlist's tracks.

This project models the two functions of `main.py` that do this work. It
proves in Dafny what they do.

- `extract_playlist_id` (module `PlaylistUrl`): the regular-expression search
  `playlist/([a-zA-Z0-9]+)`, written as a leftmost scan followed by a greedy
  run of ASCII letters and digits. It returns the identifier or
  `ValueError("Invalid playlist URL")`.
- `rename_mp3_files`, in three modules:
  - `StringOrder`: Python's ordering of `str` values and the ascending sort
    that `list.sort()` performs.
  - `TrackNumber`: the position prefix `f"{n:02d}_"`.
  - `RenamePlan`: the pure meaning of the function:
    - the `.mp3` filter;
    - the count gate and the sorted pairing of files with tracks;
    - the new names;
    - the rename loop, as a function `Run` of the directory it starts
      from, which stops at the first rename, or the first `print` reporting
      a rename, that raises;
    - the whole call, as `RenameEffect`.

The imperative function itself is `RenameFiles.RenameMp3Files`. It works on
a `Directory` object whose `entries` map (name to content) the `Rename`
method updates in place. The method is proved to end exactly as
`RenameEffect` says. The properties of the call are lemmas about
`RenameEffect`:

- the gate leaves the folder untouched;
- non-`.mp3` files are never touched;
- a failing rename ends the loop with the earlier renames kept, and a
  failing report of a rename ends it with that rename kept as well;
- without collisions every `.mp3` file ends up under its new name, holding
  its old content; a file that already carries its new name, as on a
  re-run after a partial run, is not a collision;
- the result does not depend on the order `os.listdir` lists the folder in.

The whole body of `rename_mp3_files` is inside one `try`. So the first
`os.rename` that raises ends the loop and leaves the earlier renames in
place. The `print` that reports each rename is inside the same `try`: when
it raises (a title standard output cannot encode, a closed pipe), the loop
ends after that rename. The renames are not independent attempts, and the model keeps
that order of events.

## Model

| member | source | states |
|---|---|---|
| PlaylistUrl.ExtractPlaylistId | main.py:13-20 | failure is exactly `ValueError("Invalid playlist URL")`; a success is a non-empty string of ASCII letters and digits |
| PlaylistUrl.RunEnd | main.py:16 | the `+` is greedy: the run it ends is all alphanumeric and is followed by the end of the URL or a non-alphanumeric character |
| PlaylistUrl.FindMatch | main.py:16 | `re.search` finds the leftmost match: the index found matches and no earlier index does; none is found only when no index matches |
| PlaylistUrl.ExtractCharacterised | main.py:16-18 | the result is `id` exactly when `id` is the greedy capture at the leftmost match (both directions) |
| PlaylistUrl.ExtractFails | main.py:16-20 | the error is raised exactly when no `playlist/` is followed by a letter or digit |
| PlaylistUrl.ExtractIgnoresSurroundings | main.py:15-18 | text before the first `playlist/`, and anything after the identifier that starts with a non-alphanumeric character (a query string), does not change the identifier returned |
| PlaylistUrl.AlbumUrlRejected | main.py:19-20 | an album link raises the error |
| PlaylistUrl.PlaylistShareUrlAccepted | main.py:16-18 | a shared playlist link yields its identifier without the `?si=` query |
| PlaylistUrl.EarlierBareMarkerSkipped | main.py:16 | a `playlist/` not followed by an alphanumeric is skipped in favour of a later one |
| StringOrder.LexLeReflexive | main.py:53 | the string order is reflexive |
| StringOrder.LexLeTotal | main.py:53 | any two strings are comparable |
| StringOrder.LexLeAntisymmetric | main.py:53 | strings that are `<=` both ways are equal |
| StringOrder.LexLeTransitive | main.py:53 | the string order is transitive |
| StringOrder.Insert | main.py:53 | inserting into an ascending sequence keeps it ascending and adds exactly one element |
| StringOrder.InsertDistinct | main.py:53 | inserting a new element keeps a sequence free of repetitions |
| StringOrder.Sort | main.py:53 | the sort result is ascending, a permutation of its input, and free of repetitions when the input is |
| StringOrder.SortKeepsElements | main.py:53 | sorting neither adds nor drops an element |
| StringOrder.SortedUnique | main.py:53 | two ascending sequences without repetitions that hold the same elements are equal |
| TrackNumber.Decimal | main.py:57 | the decimal form is a non-empty string of digits without a leading zero |
| TrackNumber.ParseDecimalOfDecimal | main.py:57 | the decimal form reads back as the number |
| TrackNumber.ParseLeadingZero | main.py:57 | a zero in front does not change the value read |
| TrackNumber.DecimalWidth | main.py:57 | one digit exactly below 10, at most two exactly below 100 |
| TrackNumber.PrefixShape | main.py:57 | `{n:02d}_` is two digits and `_` below 100, zero-padded below 10, the full decimal form from 100 on (never truncated), and its digits read back as `n` |
| TrackNumber.PrefixInjective | main.py:57-59 | a name starting with a prefix determines the number and the rest of the name |
| TrackNumber.PrefixExamples | main.py:57 | 1, 9, 10, 99 and 100 give `01_`, `09_`, `10_`, `99_`, `100_` |
| RenamePlan.Mp3Names | main.py:45 | the filter keeps exactly the listed names that end in `.mp3`, and keeps a listing's lack of repetitions |
| RenamePlan.DistinctCardinality | main.py:45-48 | a sequence without repetitions has as many elements as its set |
| RenamePlan.Mp3Count | main.py:45-48 | the count the gate compares is the number of `.mp3` entries of the folder, whatever the listing order |
| RenamePlan.NewNameShape | main.py:57-59 | every new name ends in `.mp3`, starts with the position prefix, and is prefix, title and extension |
| RenamePlan.NewNameInjective | main.py:57-59 | different positions or titles never give the same new name |
| RenamePlan.PlanGate | main.py:48-50 | the call stops at the gate, with both counts, exactly when the number of `.mp3` entries differs from the number of tracks |
| RenamePlan.PlanSteps | main.py:52-60 | with equal counts the renames follow track order, each target is its position's new name, and the sources are the `.mp3` names in strictly ascending order |
| RenamePlan.PlanSources | main.py:45-58 | a name is the source of a rename exactly when it is an `.mp3` entry |
| RenamePlan.SameMp3Names | main.py:45-53 | two listings of one folder sort to the same elements |
| RenamePlan.ListingOrderIrrelevant | main.py:45-53 | because of the sort, the renames do not depend on the listing order |
| RenamePlan.PlanTouchesOnlyMp3 | main.py:45-59 | every source and target of a rename is an `.mp3` name |
| RenamePlan.PlanTargetsDistinct | main.py:56-59 | no two renames share a target |
| RenamePlan.MovedEffect | main.py:63 | a successful `os.rename` puts the source's content under the target, removes the source, and changes no other name |
| RenamePlan.Run | main.py:56-64 | the loop performs at most one rename per track, all of them when nothing raises, and at least one when a report raises |
| RenamePlan.RunAppend | main.py:56-63 | running two runs of renames one after the other is running them joined, with a failure in the first skipping the second |
| RenamePlan.RunExtend | main.py:56-64 | one more loop iteration either fails at rename `i`, or performs rename `i` and fails at its report, or performs and reports it and goes on |
| RenamePlan.RunStopsAtFirstFailure | main.py:43-71 | a rename that raises ends the loop with every earlier step performed and itself not; a report that raises ends it with its own rename performed as well |
| RenamePlan.RunFrame | main.py:56-63 | a name that no performed rename uses keeps its entry |
| RenamePlan.SourcesTargetsCons | main.py:56-60 | the sources and targets of a run of renames are those of its first rename plus those of the rest |
| RenamePlan.RunAllSucceed | main.py:56-64 | without collisions (a target may exist only as its own source, where the rename changes nothing), refusals or failing reports every rename is performed: the sources are replaced by the targets, each holding its source's content, and nothing else changes |
| RenamePlan.MismatchTouchesNothing | main.py:48-50 | a count mismatch is reported, with both counts, exactly when the counts differ, and leaves the folder unchanged |
| RenamePlan.NonMp3EntriesUntouched | main.py:45 | a name not ending in `.mp3` keeps its entry, however the call ends |
| RenamePlan.FailureEndsLoop | main.py:43-71 | when a rename raises at position `k`, renames `0..k-1` were performed and are kept, rename `k` did not succeed, and a later file whose name no performed rename used still holds its content |
| RenamePlan.ReportFailureEndsLoop | main.py:43-71 | when the report of rename `k` raises, renames `0..k-1` were performed and reported, rename `k` moved its file to its new name and is kept, and a later file whose name no performed rename used still holds its content |
| RenamePlan.CompleteMeansAllRenamed | main.py:56-66 | "Renaming complete!" is reached only after one rename and one report per track |
| RenamePlan.PlanSourcesAndTargets | main.py:45-59 | the sources are exactly the `.mp3` entries, the targets exactly the new names |
| RenamePlan.CompleteRenamesPositionally | main.py:41-66 | with equal counts, no new name taken except by the file that is to receive it (as on a re-run after a partial run), no refusal and no failing report, the call completes: the `.mp3` entries are replaced by exactly the new names, the `i`-th new name holds the `i`-th file's content in ascending order, and other files are unchanged |
| RenamePlan.ListingOrderDoesNotMatter | main.py:45-53 | the call leaves the same folder and ends the same way whatever order `os.listdir` returns |
| RenamePlan.ExampleNames | main.py:57-59 | positions 0, 1, 2 give `01_Song One.mp3`, `02_Song Two.mp3`, `03_Song Three.mp3` |
| RenamePlan.ExamplePlan | main.py:45-60 | files b.mp3, a.mp3, c.mp3 are renamed a→01, b→02, c→03 |
| RenamePlan.CollisionPlan | main.py:53-60 | files 00.mp3 and 01_b.mp3 with titles b, c: the first new name is the second file's current name |
| RenamePlan.CollisionLosesAFile | main.py:56-66 | there, with renames that replace their target, the call completes and leaves only `02_c.mp3`, holding the former 00.mp3; the content of 01_b.mp3 is gone |
| RenamePlan.RerunPlan | main.py:45-60 | files b.mp3 and 01_A.mp3 with titles A, B: 01_A.mp3 sorts first and its new name is its own name |
| RenamePlan.RerunCompletes | main.py:56-66 | there the call completes, 01_A.mp3 keeps its content, and b.mp3 becomes 02_B.mp3 |
| RenameFiles.Directory.ListDir | main.py:45 | `os.listdir` raises when the folder cannot be listed, and otherwise lists every entry exactly once |
| RenameFiles.Directory.Rename | main.py:63 | `os.rename` fails, changing nothing, when the source is missing or the environment refuses; otherwise it moves the entry |
| RenameFiles.RenameMp3Files | main.py:41-71 | an unlistable folder ends the call unchanged; otherwise the loop of renames and reports leaves the folder, and ends, exactly as `RenameEffect` says for the listing obtained |


The contracts above are stated over these definitions, each written after
the source lines it models:

- `PlaylistUrl.MatchAt` (main.py:16): the pattern matches at an index: `playlist/` there, then a letter or digit.
- `PlaylistUrl.CapturedAt` (main.py:16-18): the group a match at an index captures, by its properties.
- `StringOrder.LexLe` (main.py:53): `a <= b` on Python strings, by code point, a proper prefix first.
- `TrackNumber.Prefix` (main.py:57): `f"{n:02d}_"`.
- `RenamePlan.EndsWithMp3` (main.py:45): `name.endswith('.mp3')`.
- `RenamePlan.NewName` (main.py:57-59): the prefix of position `i + 1`, the title, then `.mp3`.
- `RenamePlan.Steps` (main.py:56-60): step `i` renames the `i`-th sorted name to the `i`-th new name.
- `RenamePlan.PlanRenames` (main.py:45-60): the filter, the count gate, the sort and the steps, before anything is renamed.
- `RenamePlan.Moved` (main.py:63): the directory after a successful `os.rename`.
- `RenamePlan.RenamedLine` (main.py:64): the line printed after each rename.
- `RenamePlan.RenameEffect` (main.py:41-71): the whole call: the folder it leaves and how it ends.

## Left out

- `load_spotify_credentials` (main.py:7-11): reads a JSON file. File I/O is not modelled.
- `get_spotify_playlist_tracks` (main.py:22-39): a network call to Spotify. The track titles are a parameter of the model.
- `main` (main.py:73-97): console input and output around calls to the two modelled functions and to the two left-out ones above. It also returns early, after printing the error, when the extractor raises `ValueError` (main.py:80-84) or the fetch raises anything (main.py:90-94); this early exit is not modelled.
- Printed messages: the model records how a call ends (`Outcome`, with the two counts or the failing position), not the text printed. The one exception is the line reporting each rename (main.py:64), because its `print` raising ends the loop after the rename; whether it raises is a parameter `printRaises`.
- `RenamePlan.RenameEffect`: the `print` of the mismatch message (main.py:49) and of "Renaming complete!" (main.py:66) is taken not to raise. If either raised, the folder would be as modelled and only the message ending the call would differ.
- Which exception is raised, and which handler catches it: both handlers only print, so the model keeps only that the call ended at that point.
- `RenameFiles.Directory.Rename`: why a rename fails, besides a missing source, is a parameter `refuses`. That covers permissions, characters the file system forbids, and a platform that will not replace an existing target. On a platform that does replace targets, a rename overwrites silently; `Moved` models that case.
- Path handling: `os.path.join` is not modelled, and names are flat keys of one directory. A title holding `/` would name a path in a subdirectory; the model treats it as an ordinary name.
- `StringOrder.Sort`: `list.sort()` sorts the local list in place; the model reassigns the local with a sorted copy. Because the list is local to the call, nothing can tell the two apart.
- `RenameFiles.Directory.ListDir`: the order of the listing is left open (any order), rather than being the file system's real order.
- Strings compare by code point, as `char` values do. No Unicode normalisation or locale collation is modelled, and Python does not apply either.
- The regular-expression engine in general: only the one fixed pattern is modelled.
