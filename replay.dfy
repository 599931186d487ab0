/** The caller's side of dsm::TUMReader: the capture loop of the TUM RGB-D example
    (Examples/TUMrgbd/main.cpp), which calls the reader once per iteration.  Each loop
    below runs a number of iterations on a real TUMReader and is proved to deliver exactly
    the entry indices that the value-level traces of the Traversal module compute. */
module Replay {
  import opened StdString
  import opened IndexLine
  import opened TUM
  import opened Traversal

  /** `count` successive r.Read calls: the cursor positions at which a call succeeds. */
  method ReadMany(r: TUMReader, count: nat) returns (got: seq<int>)
    requires r.Valid()
    modifies r`id
    ensures r.Valid()
    ensures got == Visited(old(r.id), r.inc, |r.files|, count)
  {
    ghost var id0, n := r.id, |r.files|;
    got := [];
    var i := 0;
    while i < count
      invariant 0 <= i <= count
      invariant r.Valid() && |r.files| == n
      invariant got + Visited(r.id, r.inc, n, count - i) == Visited(id0, r.inc, n, count)
    {
      var at := r.id;
      var ok, _, _ := r.Read(Initial, SecondsOf(""));
      VisitedStep(got, at, r.id, ok, r.inc, n, count - i - 1, Visited(id0, r.inc, n, count));
      got := if ok then got + [at] else got;
      i := i + 1;
    }
  }

  /** One evaluation of `reader.read(image, timestamp) && reader.read_depth(depth_image)`:
      read_depth is only called when read succeeded, and it checks and reads depthFiles at
      the cursor read has already moved.  So a true result hands out colour entry id with
      depth entry id + inc, and moves the cursor twice. */
  method Capture(r: TUMReader, image: Image, depthImage: Image, timestamp: Seconds)
    returns (ok: bool, imageOut: Image, depthOut: Image, timestampOut: Seconds)
    requires r.Valid()
    modifies r`id
    ensures r.Valid()
    ensures ok <==> 0 <= old(r.id) < |r.files| && 0 <= old(r.id) + r.inc < |r.depthFiles|
    ensures ok ==> imageOut == Decoded(r.files[old(r.id)], Unchanged)
    ensures ok ==> depthOut == Decoded(r.depthFiles[old(r.id) + r.inc], AnyDepth)
    ensures ok ==> timestampOut == r.timestamps[old(r.id)]
    ensures !ok ==> depthOut == depthImage
    ensures !ok && 0 <= old(r.id) < |r.files| ==>
      imageOut == Decoded(r.files[old(r.id)], Unchanged) && timestampOut == r.timestamps[old(r.id)]
    ensures !(0 <= old(r.id) < |r.files|) ==> imageOut == image && timestampOut == timestamp
    ensures r.id == if !(0 <= old(r.id) < |r.files|) then old(r.id)
                    else if !ok then old(r.id) + r.inc
                    else old(r.id) + 2 * r.inc
  {
    var okDepth := false;
    ok, imageOut, timestampOut := r.Read(image, timestamp);
    depthOut := depthImage;
    if ok {
      okDepth, depthOut := r.ReadDepth(depthImage);
    }
    ok := ok && okDepth;
  }

  /** `count` iterations of the capture loop: the (colour, depth) cursor positions of each
      evaluation of `read && read_depth` that is true. */
  method ReadPairs(r: TUMReader, count: nat) returns (got: seq<(int, int)>)
    requires r.Valid()
    modifies r`id
    ensures r.Valid()
    ensures got == PairedVisits(old(r.id), r.inc, |r.files|, |r.depthFiles|, count)
  {
    ghost var id0, nc, nd := r.id, |r.files|, |r.depthFiles|;
    got := [];
    var i := 0;
    while i < count
      invariant 0 <= i <= count
      invariant r.Valid() && |r.files| == nc && |r.depthFiles| == nd
      invariant got + PairedVisits(r.id, r.inc, nc, nd, count - i) == PairedVisits(id0, r.inc, nc, nd, count)
    {
      var at := r.id;
      var ok, _, _, _ := Capture(r, Initial, Initial, SecondsOf(""));
      PairedStep(got, at, r.id, ok, r.inc, nc, nd, count - i - 1, PairedVisits(id0, r.inc, nc, nd, count));
      got := if ok then got + [(at, at + r.inc)] else got;
      i := i + 1;
    }
  }

  /** `count` successive r.ReadFrame calls: the (colour, depth) positions of each success. */
  method ReadFrames(r: TUMReader, count: nat) returns (got: seq<(int, int)>)
    requires r.Valid()
    modifies r`id
    ensures r.Valid()
    ensures got == FrameVisits(old(r.id), r.inc, |r.files|, count)
  {
    ghost var id0, n := r.id, |r.files|;
    got := [];
    var i := 0;
    while i < count
      invariant 0 <= i <= count
      invariant r.Valid() && |r.files| == n
      invariant got + FrameVisits(r.id, r.inc, n, count - i) == FrameVisits(id0, r.inc, n, count)
    {
      var at := r.id;
      var ok, _, _, _ := r.ReadFrame(Initial, Initial, SecondsOf(""));
      FrameStep(got, at, r.id, ok, r.inc, n, count - i - 1, FrameVisits(id0, r.inc, n, count));
      got := if ok then got + [(at, at)] else got;
      i := i + 1;
    }
  }

  /** As written, from the reset position over aligned lists: n iterations of the capture
      loop deliver only n / 2 frames, each colour entry with the depth entry of the next
      line, forward (2k, 2k + 1) and in reverse (n - 1 - 2k, n - 2 - 2k). */
  method ReplayAsWritten(r: TUMReader) returns (got: seq<(int, int)>)
    requires r.Valid() && r.id == r.ResetPosition() && |r.depthFiles| == |r.files|
    modifies r`id
    ensures r.inc == 1 ==> got == seq(|r.files| / 2, k => (2 * k, 2 * k + 1))
    ensures var n := |r.files|; r.inc == -1 ==> got == seq(n / 2, k => (n - 1 - 2 * k, n - 2 - 2 * k))
  {
    got := ReadPairs(r, |r.files|);
    if r.inc == 1 {
      AsWrittenPairing(|r.files|, 0);
    } else {
      AsWrittenReversePairing(|r.files|, 0);
    }
  }

  /** Corrected, from the reset position: one ReadFrame per entry delivers every entry once,
      in file order forward and in reverse file order backward, each colour entry with the
      depth entry at the same index. */
  method ReplayCorrected(r: TUMReader) returns (got: seq<(int, int)>)
    requires r.Valid() && r.id == r.ResetPosition()
    modifies r`id
    ensures r.inc == 1 ==> got == seq(|r.files|, k => (k, k))
    ensures var n := |r.files|; r.inc == -1 ==> got == seq(n, k => (n - 1 - k, n - 1 - k))
  {
    got := ReadFrames(r, |r.files|);
    if r.inc == 1 {
      CorrectedPairing(|r.files|, 0);
    } else {
      CorrectedReversePairing(|r.files|, 0);
    }
  }

  /** The index of a single well-formed line `T C;X D`: one entry, colour path folder/C,
      depth path folder/D, timestamp T. */
  lemma OneLineIndex(folder: string, line: CppString, t: string, c: string, x: string, d: string)
    requires line == t + " " + c + ";" + x + " " + d
    requires ' ' !in t && ';' !in t && ';' !in c && ' ' !in x
    ensures ColorPaths(folder, NonEmptyLines([line])) == [folder + "/" + c]
    ensures DepthPaths(folder, NonEmptyLines([line])) == [folder + "/" + d]
    ensures Stamps(NonEmptyLines([line])) == [SecondsOf(t)]
  {
    assert line != [] by { assert line[|t + " " + c|] == ';'; }
    NonEmptyLinesOfLine(line);
    WellFormedLine(line, t, c, x, d);
    ListsOfLine(folder, line);
  }

  /** Opens an index of the one well-formed line `T C;X D`, as written (clear false: the
      depth path is appended to the old ones) or corrected (clear true: OpenCleared). */
  method OpenOneLine(r: TUMReader, line: CppString, t: string, c: string, x: string, d: string, clear: bool)
    returns (ok: bool)
    requires r.Valid()
    requires line == t + " " + c + ";" + x + " " + d
    requires ' ' !in t && ';' !in t && ';' !in c && ' ' !in x
    modifies r`files, r`depthFiles, r`timestamps, r`rate, r`id
    ensures r.Valid() && ok
    ensures r.files == [r.imagePath + "/" + c]
    ensures r.depthFiles == (if clear then [] else old(r.depthFiles)) + [r.imagePath + "/" + d]
    ensures r.id == r.ResetPosition()
  {
    OneLineIndex(r.imagePath, line, t, c, x, d);
    assert [line][0] != [];
    if clear {
      ok := r.OpenCleared([line]);
    } else {
      ok := r.Open([line]);
    }
  }

  /** As written, a reload: open the index `1 x;y z`, then the index `2 p;q w`.  The second
      open rebuilds files but appends to depthFiles without clearing it, so afterwards files
      is [data/p] while depthFiles is [data/z, data/w], and read_depth at the reset cursor
      hands out depth image data/z of the first index. */
  method StaleDepthAfterReopen() returns (files: seq<string>, depthFiles: seq<string>, depthImg: Image)
    ensures files == ["data/p"]
    ensures depthFiles == ["data/z", "data/w"]
    ensures depthImg == Decoded("data/z", AnyDepth)
  {
    var r := new TUMReader("data", "associations.txt", false);
    var _ := OpenOneLine(r, "1 x;y z", "1", "x", "y", "z", false);
    var _ := OpenOneLine(r, "2 p;q w", "2", "p", "q", "w", false);
    assert r.imagePath + "/" + "p" == "data/p";
    assert r.imagePath + "/" + "z" == "data/z" && r.imagePath + "/" + "w" == "data/w";
    assert ["data/z"] + ["data/w"] == ["data/z", "data/w"];
    files, depthFiles := r.files, r.depthFiles;
    var _, depth := r.ReadDepth(Initial);
    depthImg := depth;
  }

  /** Corrected, the same reload: with OpenCleared depthFiles is [data/w], one depth path per
      colour path, and read_depth at the reset cursor hands out data/w of the same line as
      data/p. */
  method FreshDepthAfterReopen() returns (files: seq<string>, depthFiles: seq<string>, depthImg: Image)
    ensures files == ["data/p"]
    ensures depthFiles == ["data/w"]
    ensures depthImg == Decoded("data/w", AnyDepth)
  {
    var r := new TUMReader("data", "associations.txt", false);
    var _ := OpenOneLine(r, "1 x;y z", "1", "x", "y", "z", true);
    var _ := OpenOneLine(r, "2 p;q w", "2", "p", "q", "w", true);
    assert r.imagePath + "/" + "p" == "data/p";
    assert r.imagePath + "/" + "w" == "data/w";
    assert [] + ["data/w"] == ["data/w"];
    files, depthFiles := r.files, r.depthFiles;
    var _, depth := r.ReadDepth(Initial);
    depthImg := depth;
  }
}
