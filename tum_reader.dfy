/** dsm::TUMReader: the index of a TUM RGB-D sequence and a cursor walking over it. */
module TUM {
  import opened StdString
  import opened IndexLine

  /** std::atof(token) / 1e9, the timestamp in seconds, kept as the token it is computed
      from (the conversion is floating point). */
  datatype Seconds = SecondsOf(nanosToken: string)

  /** The decoding flag passed to cv::imread. */
  datatype ReadMode = Unchanged | AnyDepth

  /** A cv::Mat as far as the reader is concerned: the caller's image, or the result of
      cv::imread on a path with a flag, with the decoding itself left abstract. */
  datatype Image = Initial | Decoded(path: string, mode: ReadMode)

  /** fps_: indeterminate until a successful open, then the quotient
      frames / (last - first) of the sequence's timestamps, kept symbolic.  With a single
      entry first == last and the double division is by zero. */
  datatype FrameRate = Indeterminate | Ratio(frames: nat, first: Seconds, last: Seconds)

  /** imagePath + "/" + the colour name of each kept line. */
  function ColorPaths(folder: string, kept: seq<CppString>): (paths: seq<string>)
    ensures |paths| == |kept|
  {
    seq(|kept|, k requires 0 <= k < |kept| => folder + "/" + ColorName(kept[k]))
  }

  /** imagePath + "/" + the depth name of each kept line. */
  function DepthPaths(folder: string, kept: seq<CppString>): (paths: seq<string>)
    ensures |paths| == |kept|
  {
    seq(|kept|, k requires 0 <= k < |kept| => folder + "/" + DepthName(kept[k]))
  }

  /** The timestamp of each kept line. */
  function Stamps(kept: seq<CppString>): (stamps: seq<Seconds>)
    ensures |stamps| == |kept|
  {
    seq(|kept|, k requires 0 <= k < |kept| => SecondsOf(TimeToken(kept[k])))
  }

  /** Each list is built line by line: the lists of two stretches of kept lines, one after
      the other, are the lists of the first followed by those of the second. */
  lemma ColorPathsAppend(folder: string, x: seq<CppString>, y: seq<CppString>)
    ensures ColorPaths(folder, x + y) == ColorPaths(folder, x) + ColorPaths(folder, y)
  {
  }

  lemma DepthPathsAppend(folder: string, x: seq<CppString>, y: seq<CppString>)
    ensures DepthPaths(folder, x + y) == DepthPaths(folder, x) + DepthPaths(folder, y)
  {
  }

  lemma StampsAppend(x: seq<CppString>, y: seq<CppString>)
    ensures Stamps(x + y) == Stamps(x) + Stamps(y)
  {
  }

  /** The lists of a single kept line hold its one entry. */
  lemma ListsOfLine(folder: string, line: CppString)
    ensures ColorPaths(folder, [line]) == [folder + "/" + ColorName(line)]
    ensures DepthPaths(folder, [line]) == [folder + "/" + DepthName(line)]
    ensures Stamps([line]) == [SecondsOf(TimeToken(line))]
  {
  }

  /** Entry k of the lists is the split of the k-th kept line, prefixed with the folder. */
  lemma ListsAt(folder: string, kept: seq<CppString>, k: nat)
    requires k < |kept|
    ensures var f := SplitLine(kept[k]);
      && ColorPaths(folder, kept)[k] == folder + "/" + f.colorName
      && DepthPaths(folder, kept)[k] == folder + "/" + f.depthName
      && Stamps(kept)[k] == SecondsOf(f.timeToken)
  {
  }

  class TUMReader {
    const imagePath: string
    /** Names the index file; its contents are what Open is given as lines. */
    const timestampPath: string
    /** The traversal direction, +1 forward or -1 reverse, fixed at construction. */
    const inc: int

    var files: seq<string>
    var depthFiles: seq<string>
    var timestamps: seq<Seconds>
    var rate: FrameRate
    /** The cursor; -1 and the list sizes are legal out-of-range positions. */
    var id: int

    /** The invariant every operation keeps: the direction is a unit step, timestamps and
        files grow and shrink together, and depthFiles, which only a corrected reload ever
        clears, is at least as long as files.  The cursor is unconstrained: a failed open
        keeps it where it was while the lists change. */
    ghost predicate Valid()
      reads this
    {
      && (inc == 1 || inc == -1)
      && |timestamps| == |files| <= |depthFiles|
      && (rate.Ratio? ==> rate.frames > 0)
    }

    /** Where reset puts the cursor: the first entry forward, the last entry in reverse
        (-1, out of range, when there are none). */
    function ResetPosition(): int
      reads this
    {
      if inc > 0 then 0 else |files| - 1
    }

    constructor (imageFolder: string, timestampFile: string, reverse: bool)
      ensures Valid()
      ensures imagePath == imageFolder && timestampPath == timestampFile
      ensures inc == (if reverse then -1 else 1) && id == 0
      ensures files == [] && depthFiles == [] && timestamps == [] && rate == Indeterminate
    {
      imagePath := imageFolder;
      timestampPath := timestampFile;
      id := 0;
      inc := if reverse then -1 else 1;
      files, depthFiles, timestamps := [], [], [];
      rate := Indeterminate;
    }

    /** Parses the index and computes the frame rate.  Succeeds exactly when some line is
        non-empty; on failure timestamps and files are empty, and the cursor, the rate and
        depthFiles are left as they were. */
    method Open(lines: seq<CppString>) returns (ok: bool)
      requires Valid()
      modifies this`files, this`depthFiles, this`timestamps, this`rate, this`id
      ensures Valid()
      ensures ok <==> exists i :: 0 <= i < |lines| && lines[i] != []
      ensures ok <==> IsOpened()
      ensures files == ColorPaths(imagePath, NonEmptyLines(lines))
      ensures timestamps == Stamps(NonEmptyLines(lines))
      ensures depthFiles == old(depthFiles) + DepthPaths(imagePath, NonEmptyLines(lines))
      ensures ok ==> rate == Ratio(|timestamps|, timestamps[0], timestamps[|timestamps| - 1])
      ensures ok ==> id == ResetPosition() && 0 <= id < |files|
      ensures !ok ==> rate == old(rate) && id == old(id) && depthFiles == old(depthFiles)
    {
      ok := ReadImageNames(lines);
      NonEmptyLinesIff(lines);
      if ok {
        rate := Ratio(|timestamps|, timestamps[0], timestamps[|timestamps| - 1]);
        Reset();
      }
    }

    /** Corrected reload: open with depthFiles cleared along with files and timestamps, as
        the "clear all data" step of readImageNames intends.  Whatever was opened before,
        depthFiles then holds exactly one depth path per colour path, from the same line. */
    method OpenCleared(lines: seq<CppString>) returns (ok: bool)
      requires Valid()
      modifies this`files, this`depthFiles, this`timestamps, this`rate, this`id
      ensures Valid()
      ensures ok <==> exists i :: 0 <= i < |lines| && lines[i] != []
      ensures ok <==> IsOpened()
      ensures files == ColorPaths(imagePath, NonEmptyLines(lines))
      ensures timestamps == Stamps(NonEmptyLines(lines))
      ensures depthFiles == DepthPaths(imagePath, NonEmptyLines(lines))
      ensures |depthFiles| == |files|
      ensures ok ==> rate == Ratio(|timestamps|, timestamps[0], timestamps[|timestamps| - 1])
      ensures ok ==> id == ResetPosition() && 0 <= id < |files|
      ensures !ok ==> rate == old(rate) && id == old(id)
    {
      files, depthFiles, timestamps := [], [], [];
      ok := Open(lines);
    }

    /** Puts the cursor back at the start of the traversal; nothing else changes. */
    method Reset()
      requires Valid()
      modifies this`id
      ensures Valid()
      ensures id == ResetPosition()
    {
      if inc > 0 {
        id := 0;
      } else {
        id := |files| - 1;
      }
    }

    /** Whether the index holds at least one entry. */
    function IsOpened(): (r: bool)
      reads this
      ensures r <==> files != []
    {
      |files| > 0
    }

    /** The frame rate computed by the last successful Open. */
    function Fps(): (r: FrameRate)
      reads this
      requires Valid()
      ensures r.Indeterminate? || r.frames > 0
    {
      rate
    }

    /** Reads the colour image and timestamp at the cursor and steps the cursor.  On
        end-of-sequence the caller's image and timestamp are handed back untouched. */
    method Read(img: Image, timestamp: Seconds) returns (ok: bool, imgOut: Image, timestampOut: Seconds)
      requires Valid()
      modifies this`id
      ensures Valid()
      ensures ok <==> 0 <= old(id) < |files|
      ensures ok ==> imgOut == Decoded(files[old(id)], Unchanged) && timestampOut == timestamps[old(id)]
      ensures ok ==> id == old(id) + inc
      ensures !ok ==> imgOut == img && timestampOut == timestamp && id == old(id)
    {
      if id < |files| && id >= 0 {
        imgOut := Decoded(files[id], Unchanged);
        timestampOut := timestamps[id];
        id := id + inc;
        ok := true;
      } else {
        imgOut, timestampOut := img, timestamp;
        ok := false;
      }
    }

    /** Reads the depth image at the cursor, bound-checked against depthFiles, and steps the
        cursor once more. */
    method ReadDepth(depthImg: Image) returns (ok: bool, depthOut: Image)
      requires Valid()
      modifies this`id
      ensures Valid()
      ensures ok <==> 0 <= old(id) < |depthFiles|
      ensures ok ==> depthOut == Decoded(depthFiles[old(id)], AnyDepth) && id == old(id) + inc
      ensures !ok ==> depthOut == depthImg && id == old(id)
    {
      if id < |depthFiles| && id >= 0 {
        depthOut := Decoded(depthFiles[id], AnyDepth);
        id := id + inc;
        ok := true;
      } else {
        depthOut := depthImg;
        ok := false;
      }
    }

    /** Corrected pairing: the colour image, the depth image and the timestamp of the same
        entry, then a single step of the cursor. */
    method ReadFrame(img: Image, depthImg: Image, timestamp: Seconds)
      returns (ok: bool, imgOut: Image, depthOut: Image, timestampOut: Seconds)
      requires Valid()
      modifies this`id
      ensures Valid()
      ensures ok <==> 0 <= old(id) < |files|
      ensures ok ==> imgOut == Decoded(files[old(id)], Unchanged) && depthOut == Decoded(depthFiles[old(id)], AnyDepth)
      ensures ok ==> timestampOut == timestamps[old(id)] && id == old(id) + inc
      ensures !ok ==> imgOut == img && depthOut == depthImg && timestampOut == timestamp && id == old(id)
    {
      if 0 <= id < |files| {
        imgOut := Decoded(files[id], Unchanged);
        depthOut := Decoded(depthFiles[id], AnyDepth);
        timestampOut := timestamps[id];
        id := id + inc;
        ok := true;
      } else {
        imgOut, depthOut, timestampOut := img, depthImg, timestamp;
        ok := false;
      }
    }

    /** The body of the reading loop, for one line: an empty line is skipped, any other
        line appends its colour path, depth path and timestamp. */
    method ReadLine(line: CppString)
      modifies this`files, this`depthFiles, this`timestamps
      ensures files == old(files) + ColorPaths(imagePath, NonEmptyLines([line]))
      ensures depthFiles == old(depthFiles) + DepthPaths(imagePath, NonEmptyLines([line]))
      ensures timestamps == old(timestamps) + Stamps(NonEmptyLines([line]))
    {
      NonEmptyLinesOfLine(line);
      if line != [] {
        ListsOfLine(imagePath, line);
        files, depthFiles, timestamps :=
          files + [imagePath + "/" + ColorName(line)],
          depthFiles + [imagePath + "/" + DepthName(line)],
          timestamps + [SecondsOf(TimeToken(line))];
      }
    }

    /** Clears timestamps and files and rebuilds them, one entry per non-empty line, while
        appending the depth paths to depthFiles.  Succeeds when some entry resulted. */
    method ReadImageNames(lines: seq<CppString>) returns (ok: bool)
      requires Valid()
      modifies this`files, this`depthFiles, this`timestamps
      ensures Valid()
      ensures ok <==> |NonEmptyLines(lines)| > 0
      ensures files == ColorPaths(imagePath, NonEmptyLines(lines))
      ensures timestamps == Stamps(NonEmptyLines(lines))
      ensures depthFiles == old(depthFiles) + DepthPaths(imagePath, NonEmptyLines(lines))
    {
      timestamps := [];
      files := [];
      var i := 0;
      while i < |lines|
        invariant 0 <= i <= |lines|
        invariant files == ColorPaths(imagePath, NonEmptyLines(lines[..i]))
        invariant timestamps == Stamps(NonEmptyLines(lines[..i]))
        invariant depthFiles == old(depthFiles) + DepthPaths(imagePath, NonEmptyLines(lines[..i]))
      {
        var line := lines[i];
        assert lines[..i + 1] == lines[..i] + [line];
        NonEmptyLinesAppend(lines[..i], [line]);
        var before, here := NonEmptyLines(lines[..i]), NonEmptyLines([line]);
        ColorPathsAppend(imagePath, before, here);
        DepthPathsAppend(imagePath, before, here);
        StampsAppend(before, here);
        ReadLine(line);
        i := i + 1;
      }
      assert lines[..|lines|] == lines;
      if |timestamps| > 0 && |timestamps| == |files| {
        ok := true;
      } else {
        timestamps := [];
        files := [];
        ok := false;
      }
    }
  }
}
