# dsm::TUMReader in Dafny

A model of the TUM RGB-D dataset reader of DSM, together with proofs about it: the class
`dsm::TUMReader` (`dsm/src/Utils/TUMReader.h`, `dsm/src/Utils/TUMReader.cpp`).

The reader loads an association file and walks a cursor over the result. Each non-empty
line of that file reads `T C;X D`:

- a timestamp token `T`, in nanoseconds;
- a colour image name `C`;
- a token `X`, which is ignored;
- a depth image name `D`.

`open` fills three parallel lists:

- `files`: the image folder, `/`, then the colour name;
- `depth_files`: the image folder, `/`, then the depth name;
- `timestamps`: the seconds.

`open` also computes the frame rate and resets the cursor. After that, `read` and
`read_depth` hand out the entry at the cursor and move it by `inc`, which is +1 forward
and -1 in reverse.

The project has five modules:

- `StdString` (`std_string.dfy`): just as much of C++ `std::string` and `std::size_t` as the
  parser uses.
  - Sizes are 64-bit unsigned and wrap modulo 2^64.
  - `npos` is 2^64 - 1.
  - `find` of one character returns its first position, or `npos` when it is absent.
  - `substr(pos, n)` clamps `n` to what is left of the string. It requires `pos <= size()`
    because `std::out_of_range` is thrown otherwise, and every call in the parser is proved
    to meet that.
- `IndexLine` (`index_line.dfy`): how one line is split into its time token, colour name
  and depth name (`TimeToken`, `ColorName`, `DepthName`, together `SplitLine`), and which
  lines of the file are kept (`NonEmptyLines`: every non-empty line, in file order).
- `TUM` (`tum_reader.dfy`): the class `TUMReader`.
  - Its fields are those of the C++ class.
  - Its methods update them in place.
  - Each method is proved against the functions of `IndexLine` and the list functions
    `ColorPaths`, `DepthPaths` and `Stamps` over the kept lines. For example, after `Open`,
    `files == ColorPaths(imagePath, NonEmptyLines(lines))`.
  - The ghost predicate `Valid()` is kept by every method. It says that `inc` is +1 or -1,
    that `timestamps` and `files` always have the same length, and that `depth_files` is
    never shorter. The cursor is not constrained: a failed `open` leaves it where it was.
  - `OpenCleared` is the corrected reload (see Findings).
- `Traversal` (`traversal.dfy`): the entry indices that repeated calls deliver, computed on
  values. It proves the forward and the reverse traversal orders. It also proves what the
  caller's `read(...) && read_depth(...)` idiom delivers (see Findings).
- `Replay` (`replay.dfy`): the caller's capture loop of `Examples/TUMrgbd/main.cpp`, run on a
  real `TUMReader`.
  - `ReadMany`, `ReadPairs` and `ReadFrames` loop over `Read`, over `read && read_depth`
    (`Capture`) and over `ReadFrame`. Each is proved to deliver exactly the indices that
    `Traversal` computes, which ties those traces to the class.
  - `ReplayAsWritten` and `ReplayCorrected` run the loop from the reset position.
  - `StaleDepthAfterReopen` and `FreshDepthAfterReopen` open two one-line indexes in a row,
    as written and corrected, and state the lists after the second open and what
    `read_depth` hands out at the reset cursor.

What the parser does, as the code is written:

- Only empty lines are skipped. A line without `;` still produces an entry:
  - its colour part is the whole line;
  - its depth part is the line without its last character, because `npos + 1` wraps to 0
    and the count `size() - 1` stops one short.
- A depth part without a space likewise loses its last character (`HalvesWithoutSpace`).
- The depth name is everything after the first space of the depth part. For the line
  `1000000000 rgb/1.png;depth 1000000000 depth/1.png` that is
  `1000000000 depth/1.png` (`SampleLine`).
- The colour name's `substr` is bounded by the position of `;` in the whole line. That bound
  never cuts anything, because the colour part is already cut at `;`
  (`ColorNameIsRestOfHalf`).
- `readImageNames` never clears `depth_files`, so every `open` appends to it. After a second
  `open`, `depth_files[i]` no longer belongs to `files[i]`. `Open`'s contract states this
  (`depthFiles == old(depthFiles) + ...`). `StaleDepthAfterReopen` shows it on two one-line
  indexes: afterwards `files` is `[data/p]` while `depth_files` is `[data/z, data/w]`, and
  `read_depth` at the reset cursor hands out `data/z` from the first index (see Findings).

Two further facts about the code:

- Only empty lines are skipped. Malformed lines still produce an entry, as shown above.
- The final check compares `timestamps` with `files`. Both are appended together, so the
  two sizes are always equal, and the check fails only when no entry was read.

## Model

| member | source | states |
|---|---|---|
| StdString.Add | dsm/src/Utils/TUMReader.cpp:119 | `size_t` addition: the exact sum below 2^64, the sum minus 2^64 otherwise (`pos + 1` with `pos == npos` gives 0) |
| StdString.Sub | dsm/src/Utils/TUMReader.cpp:119 | `size_t` subtraction: the exact difference when it is non-negative, the difference plus 2^64 otherwise (`size() - 1` on an empty string gives npos) |
| StdString.WrapsModulo | dsm/src/Utils/TUMReader.cpp:119-125 | Add and Sub are arithmetic modulo 2^64; npos + 1 == 0 and 0 - 1 == npos |
| StdString.Find | dsm/src/Utils/TUMReader.cpp:117 | `find` is npos exactly when the character is absent; otherwise it is an in-range position holding the character, with no occurrence before it |
| StdString.FindAt | dsm/src/Utils/TUMReader.cpp:117 | a position holding the character, with no earlier occurrence, is what `find` returns |
| StdString.Substr | dsm/src/Utils/TUMReader.cpp:118-125 | `substr(pos, n)` is the slice of s from pos of length min(n, size - pos) |
| IndexLine.BeforeFirst | dsm/src/Utils/TUMReader.cpp:118 | `s.substr(0, s.find(c))` is the prefix before the first c, or all of s when c is absent; the result never holds c |
| IndexLine.AfterFirst | dsm/src/Utils/TUMReader.cpp:119 | `s.substr(s.find(c) + 1, s.size() - 1)` is the suffix after the first c; with c absent it is s without its last character; on the empty string it is empty |
| IndexLine.AfterFirstWithin | dsm/src/Utils/TUMReader.cpp:123 | `s.substr(s.find(c) + 1, bound)` with bound >= size is the suffix after the first c, or all of s |
| IndexLine.ColorHalf | dsm/src/Utils/TUMReader.cpp:117-118 | `line_rgb` holds no ';' and is no longer than the position of the first ';' |
| IndexLine.DepthHalf | dsm/src/Utils/TUMReader.cpp:117-119 | `line_depth` is no longer than the line |
| IndexLine.TimeToken | dsm/src/Utils/TUMReader.cpp:117-122 | `line_time_` holds neither a space nor ';' |
| IndexLine.ColorName | dsm/src/Utils/TUMReader.cpp:117-123 | `rgb_file_name` holds no ';' |
| IndexLine.DepthName | dsm/src/Utils/TUMReader.cpp:117-125 | `depth_file_name` is no longer than the line |
| IndexLine.SplitLine | dsm/src/Utils/TUMReader.cpp:116-126 | the time token holds neither a space nor ';', and the colour name holds no ';' |
| IndexLine.ColorNameIsRestOfHalf | dsm/src/Utils/TUMReader.cpp:120-123 | the colour name is the colour half after its first space, or the whole half without a space: the `pos` bound never truncates |
| IndexLine.CutAtSpace | dsm/src/Utils/TUMReader.cpp:120-125 | cutting `A B` (A without space) at its first space gives A before it and B after it, with the count `size() - 1` or any bound at least the size |
| IndexLine.CutAtSeparator | dsm/src/Utils/TUMReader.cpp:117-119 | for `L;R` with L without ';', `find` gives the size of L and the halves are L and R |
| IndexLine.WellFormedLine | dsm/src/Utils/TUMReader.cpp:116-126 | a line `T C;X D` (T without space or ';', C without ';', X without space) splits into exactly T, C and D |
| IndexLine.SampleLine | dsm/src/Utils/TUMReader.cpp:116-126 | `1000000000 rgb/1.png;depth 1000000000 depth/1.png` gives timestamp `1000000000`, colour `rgb/1.png` and depth `1000000000 depth/1.png` |
| IndexLine.LineWithoutSeparator | dsm/src/Utils/TUMReader.cpp:117-119 | a non-empty line without ';' is not skipped: its colour half is the line, its depth half the line without its last character |
| IndexLine.HalvesWithoutSpace | dsm/src/Utils/TUMReader.cpp:120-125 | a depth half without a space gives that half without its last character as depth name; a colour half without a space is both the time token and the colour name |
| IndexLine.NonEmptyLines | dsm/src/Utils/TUMReader.cpp:111-116 | the kept lines are all non-empty and no more than the lines read |
| IndexLine.NonEmptyLinesAppend | dsm/src/Utils/TUMReader.cpp:111-116 | filtering is line by line: the kept lines of a + b are those of a followed by those of b |
| IndexLine.NonEmptyLinesOfLine | dsm/src/Utils/TUMReader.cpp:116 | an empty line is dropped, any other line is kept |
| IndexLine.NonEmptyLinesAt | dsm/src/Utils/TUMReader.cpp:111-135 | line i is kept or dropped between the kept lines before and after it, so the index keeps file order |
| IndexLine.NonEmptyLinesIff | dsm/src/Utils/TUMReader.cpp:111-146 | some line is kept exactly when some line is non-empty, so readImageNames fails exactly when every line is empty |
| TUM.ColorPaths | dsm/src/Utils/TUMReader.cpp:127 | one colour path per kept line |
| TUM.DepthPaths | dsm/src/Utils/TUMReader.cpp:128 | one depth path per kept line |
| TUM.Stamps | dsm/src/Utils/TUMReader.cpp:132-133 | one timestamp per kept line |
| TUM.ColorPathsAppend | dsm/src/Utils/TUMReader.cpp:127 | the colour paths of x + y are those of x followed by those of y |
| TUM.DepthPathsAppend | dsm/src/Utils/TUMReader.cpp:128 | the depth paths of x + y are those of x followed by those of y |
| TUM.StampsAppend | dsm/src/Utils/TUMReader.cpp:132-133 | the timestamps of x + y are those of x followed by those of y |
| TUM.ListsOfLine | dsm/src/Utils/TUMReader.cpp:127-133 | a single kept line contributes exactly its colour path, depth path and timestamp |
| TUM.ListsAt | dsm/src/Utils/TUMReader.cpp:116-133 | entry k of each list is the image folder, '/', and the matching field of the split of kept line k |
| TUM.TUMReader.constructor | dsm/src/Utils/TUMReader.cpp:32-37 | keeps the folder and file names, id == 0, inc == -1 when reverse else +1, empty lists, no frame rate yet |
| TUM.TUMReader.Open | dsm/src/Utils/TUMReader.cpp:41-60 | succeeds iff some line is non-empty, iff afterwards isOpened; the lists are the parsed entries, with depth paths appended to the old ones; on success fps is size / (last - first) and the cursor is at reset; on failure cursor, rate and depth paths are unchanged |
| TUM.TUMReader.ReadLine | dsm/src/Utils/TUMReader.cpp:116-134 | the loop body: an empty line changes nothing, any other line appends its colour path, depth path and timestamp |
| TUM.TUMReader.ReadImageNames | dsm/src/Utils/TUMReader.cpp:103-147 | clears and rebuilds files and timestamps from the entries, one per non-empty line in file order; appends the depth paths to depth_files; returns true iff some entry resulted |
| TUM.TUMReader.OpenCleared | dsm/src/Utils/TUMReader.cpp:41-60 | corrected reload: as Open, but depthFiles is rebuilt rather than appended to, so it is exactly the depth paths of the kept lines, one per colour path |
| TUM.TUMReader.Reset | dsm/src/Utils/TUMReader.cpp:62-67 | id is the reset position (0 forward, files.size() - 1 in reverse); nothing else changes |
| TUM.TUMReader.IsOpened | dsm/src/Utils/TUMReader.cpp:69 | true iff files is non-empty |
| TUM.TUMReader.Fps | dsm/src/Utils/TUMReader.cpp:101 | the stored frame rate: indeterminate before a successful open, otherwise a ratio over at least one frame |
| TUM.TUMReader.Read | dsm/src/Utils/TUMReader.cpp:71-84 | succeeds iff 0 <= id < files.size(); then yields the colour image of files[id] decoded unchanged and timestamps[id], and moves id by inc; otherwise image, timestamp and id are untouched |
| TUM.TUMReader.ReadDepth | dsm/src/Utils/TUMReader.cpp:86-99 | succeeds iff 0 <= id < depth_files.size(); then yields depth_files[id] decoded with any depth and moves id by inc; otherwise image and id are untouched |
| TUM.TUMReader.ReadFrame | dsm/src/Utils/TUMReader.cpp:71-99 | corrected pairing: colour, depth and timestamp of the same entry id, then one step |
| Traversal.Visited | dsm/src/Utils/TUMReader.cpp:71-84 | repeated reads deliver at most one index per call, every one within the list |
| Traversal.ForwardTraversal | dsm/src/Utils/TUMReader.cpp:62-84 | forward from reset, reads deliver 0, 1, ..., n - 1 and then only end-of-sequence |
| Traversal.ReverseTraversal | dsm/src/Utils/TUMReader.cpp:62-84 | in reverse from reset, reads deliver n - 1, ..., 0 and then only end-of-sequence |
| Traversal.PairedVisits | Examples/TUMrgbd/main.cpp:87-88 | each pair delivered by `read && read_depth` has depth index = colour index + inc |
| Traversal.AsWrittenPairing | Examples/TUMrgbd/main.cpp:87-88 | forward over n entries, `read && read_depth` delivers n / 2 pairs (2k, 2k + 1) |
| Traversal.AsWrittenReversePairing | Examples/TUMrgbd/main.cpp:87-88 | in reverse from reset over n entries, `read && read_depth` delivers n / 2 pairs (n - 1 - 2k, n - 2 - 2k) |
| Traversal.TwoEntryPairing | Examples/TUMrgbd/main.cpp:87-88 | with two entries only one frame is delivered, colour 0 with depth 1 |
| Traversal.FrameVisits | dsm/src/Utils/TUMReader.cpp:71-99 | each pair delivered by ReadFrame is one in-range entry (k, k) |
| Traversal.CorrectedPairing | dsm/src/Utils/TUMReader.cpp:71-99 | forward over n entries, ReadFrame delivers all n pairs (k, k) |
| Traversal.CorrectedReversePairing | dsm/src/Utils/TUMReader.cpp:62-99 | in reverse from reset, ReadFrame delivers all n pairs (k, k) in reverse file order |
| Traversal.VisitedStep | dsm/src/Utils/TUMReader.cpp:71-84 | one more read() call extends what was delivered exactly as Visited says |
| Traversal.PairedStep | Examples/TUMrgbd/main.cpp:87-88 | one more `read && read_depth` extends what was delivered exactly as PairedVisits says |
| Traversal.FrameStep | dsm/src/Utils/TUMReader.cpp:71-99 | one more ReadFrame call extends what was delivered exactly as FrameVisits says |
| Replay.ReadMany | dsm/src/Utils/TUMReader.cpp:71-84 | count calls of Read on the reader deliver exactly the positions Visited computes |
| Replay.Capture | Examples/TUMrgbd/main.cpp:87-88 | `read && read_depth` is true iff id is within files and id + inc within depth_files; then colour files[id] comes with depth depth_files[id + inc] and the cursor moves twice; if only read succeeds it moves once and the image and timestamp of files[id] are already handed out; if read fails it stays and the caller's image and timestamp are untouched |
| Replay.ReadPairs | Examples/TUMrgbd/main.cpp:68-88 | count iterations of the capture loop deliver exactly the pairs PairedVisits computes |
| Replay.ReadFrames | dsm/src/Utils/TUMReader.cpp:71-99 | count calls of ReadFrame deliver exactly the pairs FrameVisits computes |
| Replay.ReplayAsWritten | Examples/TUMrgbd/main.cpp:68-88 | from reset over aligned lists, n iterations deliver only n / 2 pairs: (2k, 2k + 1) forward, (n - 1 - 2k, n - 2 - 2k) in reverse |
| Replay.ReplayCorrected | dsm/src/Utils/TUMReader.cpp:62-99 | from reset, n ReadFrame calls deliver every entry once as (k, k), in file order forward and reversed backward |
| Replay.OneLineIndex | dsm/src/Utils/TUMReader.cpp:116-133 | the single line `T C;X D` gives the lists [folder/C], [folder/D] and [T] |
| Replay.OpenOneLine | dsm/src/Utils/TUMReader.cpp:41-60 | opening a one-line index succeeds; files is [folder/C]; depthFiles is the old one plus folder/D as written, only folder/D when cleared; the cursor is reset |
| Replay.StaleDepthAfterReopen | dsm/src/Utils/TUMReader.cpp:104-106 | as written, after opening `1 x;y z` and then `2 p;q w`, files is [data/p] while depth_files is [data/z, data/w], and read_depth at the reset cursor gives data/z from the first index |
| Replay.FreshDepthAfterReopen | dsm/src/Utils/TUMReader.cpp:104-106 | corrected, after the same two opens depth_files is [data/w], one path per colour path, and read_depth at the reset cursor gives data/w from the same line as data/p |

## Left out

- File input: the `std::ifstream` and `getline` loop (`TUMReader.cpp:109-114`) is replaced by
  the sequence of lines it yields, passed to `Open`. That sequence includes the empty line
  read after a trailing newline. A file that cannot be opened yields no lines.
- Console output (`std::cout`) is left out.
- The destructor does nothing and is left out.
- Image decoding (`cv::imread`) is left abstract: an image is `Decoded(path, mode)`. A file
  that fails to decode still makes `read` and `read_depth` return true, as in the code.
- Timestamp conversion: `std::atof(token) / 1e9` is floating point, so a timestamp is kept
  as the token it is computed from (`SecondsOf`).
- Fps: the frame rate `size / (last - first)` is kept as the symbolic `Ratio(size, first,
  last)`. The division by zero for a single entry (or for equal stamps) is left to
  floating point.
- `fps_` is uninitialised in C++ before a successful `open`. It is modelled as
  `Indeterminate`.
- TUM.TUMReader.Reset: `id` is an unbounded integer rather than a 32-bit `int`. The cast
  `(int)files.size() - 1` and `id += inc` overflow only beyond 2^31 entries.
- TUM.TUMReader.Read: `id < files.size()` compares a signed `int` with a `size_t`, so a
  negative id converts to a huge value and fails the test. That gives the same outcome as
  the `id >= 0` test beside it, so the guard is modelled as `0 <= id < |files|`.
- The strings are sequences of characters, with their size assumed below npos, as
  `max_size()` guarantees. `std::string::size()` counts bytes, so the count `size() - 1` at
  `TUMReader.cpp:119` and `:125` drops one byte where the model drops one character; for a
  line whose last character takes several bytes in UTF-8 the two differ.
- Examples/TUMrgbd/main.cpp is modelled only in its capture loop's `read && read_depth`
  (`Replay.Capture`, `Replay.ReadPairs`). The `getDoProcessing()` guard, the reset on request,
  threading and visualisation are not part of this model.
- TUM.TUMReader.ReadFrame: on its own, it pairs files[id] with depthFiles[id]. These come
  from the same line only while depthFiles was empty before the last open, which holds
  after OpenCleared and after a first Open, but not after an Open that follows a successful
  one.

## Findings

| source | as written | input that shows it | evidently intended | confidence | as-written member | corrected member |
|---|---|---|---|---|---|---|
| Examples/TUMrgbd/main.cpp:87-88 with dsm/src/Utils/TUMReader.cpp:78,93 | `read` advances the cursor, then `read_depth` reads `depth_files` at the advanced cursor and advances it again, so colour entry i is paired with depth entry i + inc and every other entry is skipped | two entries read forward: one frame is delivered, pairing colour 0 with depth 1 (`TwoEntryPairing`) | each frame pairs the colour and depth image of the same line, and every line gives a frame | not executed | Replay.Capture, Replay.ReplayAsWritten, Traversal.AsWrittenPairing | TUM.TUMReader.ReadFrame, Replay.ReplayCorrected, Traversal.CorrectedPairing |
| dsm/src/Utils/TUMReader.cpp:104-106 | readImageNames clears `timestamps` and `files` but not `depth_files`, so a second `open` appends its depth paths behind those of the first index and `depth_files[k]` belongs to an earlier file | open the index `1 x;y z`, then `2 p;q w`: `files` is `[data/p]` but `depth_files` is `[data/z, data/w]`, and `read_depth` at the reset cursor gives `data/z` of the first index (`StaleDepthAfterReopen`) | all three lists are cleared, as the comment at TUMReader.cpp:104 announces for all data, so `depth_files[k]` comes from the same line as `files[k]` | not executed | TUM.TUMReader.Open, Replay.StaleDepthAfterReopen | TUM.TUMReader.OpenCleared, Replay.FreshDepthAfterReopen |
