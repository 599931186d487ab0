/** Repeated calls of TUMReader::read and TUMReader::read_depth, on values: a cursor id, a
    fixed direction inc and the sizes of the lists the calls bound-check against.  Each call
    succeeds exactly when 0 <= id < size, and then moves the cursor by inc; a failing call
    leaves the cursor where it is. */
module Traversal {

  /** The entry indices delivered by `count` successive read() calls from cursor id over n
      entries.  Once a call fails the cursor stays put, so every later call fails too. */
  function Visited(id: int, inc: int, n: nat, count: nat): (r: seq<int>)
    ensures |r| <= count
    ensures forall k :: 0 <= k < |r| ==> 0 <= r[k] < n
    decreases count
  {
    if count == 0 || !(0 <= id < n) then []
    else [id] + Visited(id + inc, inc, n, count - 1)
  }

  lemma {:induction false} VisitedForwardFrom(j: nat, n: nat, count: nat)
    requires j <= n && n - j <= count
    ensures Visited(j, 1, n, count) == seq(n - j, k => j + k)
    decreases n - j
  {
    if j < n {
      VisitedForwardFrom(j + 1, n, count - 1);
      assert [j] + seq(n - (j + 1), k => j + 1 + k) == seq(n - j, k => j + k);
    }
  }

  lemma {:induction false} VisitedBackwardFrom(j: int, n: nat, count: nat)
    requires -1 <= j < n && j + 1 <= count
    ensures Visited(j, -1, n, count) == seq(j + 1, k => j - k)
    decreases j + 1
  {
    if 0 <= j {
      VisitedBackwardFrom(j - 1, n, count - 1);
      assert [j] + seq(j, k => j - 1 - k) == seq(j + 1, k => j - k);
    }
  }

  /** Forward from the reset position 0, any number of read() calls beyond n delivers the n
      entries in file order and then only end-of-sequence. */
  lemma ForwardTraversal(n: nat, extra: nat)
    ensures Visited(0, 1, n, n + extra) == seq(n, k => k)
  {
    VisitedForwardFrom(0, n, n + extra);
    assert seq(n - 0, k => 0 + k) == seq(n, k => k);
  }

  /** Backward from the reset position n - 1, the same calls deliver the n entries in reverse
      file order and then only end-of-sequence. */
  lemma ReverseTraversal(n: nat, extra: nat)
    ensures Visited(n - 1, -1, n, n + extra) == seq(n, k => n - 1 - k)
  {
    VisitedBackwardFrom(n - 1, n, n + extra);
  }

  /** The (colour, depth) index pairs delivered by `count` evaluations of
      `read(image, timestamp) && read_depth(depth)`, over nc colour and nd depth entries.
      read_depth bound-checks the cursor that read has already moved, and moves it again.
      When read succeeds and read_depth fails, no pair is delivered but the cursor has moved
      once; when read fails the cursor stays put and every later evaluation fails too. */
  function PairedVisits(id: int, inc: int, nc: nat, nd: nat, count: nat): (r: seq<(int, int)>)
    ensures |r| <= count
    ensures forall k :: 0 <= k < |r| ==> r[k].1 == r[k].0 + inc
    decreases count
  {
    if count == 0 || !(0 <= id < nc) then []
    else if !(0 <= id + inc < nd) then PairedVisits(id + inc, inc, nc, nd, count - 1)
    else [(id, id + inc)] + PairedVisits(id + 2 * inc, inc, nc, nd, count - 1)
  }

  lemma {:induction false} PairedForwardFrom(j: nat, n: nat, count: nat)
    requires j <= n && n - j <= count
    ensures PairedVisits(j, 1, n, n, count) == seq((n - j) / 2, k => (j + 2 * k, j + 2 * k + 1))
    decreases n - j
  {
    if j + 1 == n {
      assert PairedVisits(j, 1, n, n, count) == PairedVisits(j + 1, 1, n, n, count - 1);
    } else if j + 1 < n {
      PairedForwardFrom(j + 2, n, count - 1);
      assert (n - j) / 2 == (n - (j + 2)) / 2 + 1;
      assert [(j, j + 1)] + seq((n - (j + 2)) / 2, k => (j + 2 + 2 * k, j + 2 + 2 * k + 1))
          == seq((n - j) / 2, k => (j + 2 * k, j + 2 * k + 1));
    }
  }

  /** As written: forward over n entries, the `read && read_depth` pair delivers only n / 2
      frames, and each pairs colour entry 2k with depth entry 2k + 1 of the next line. */
  lemma AsWrittenPairing(n: nat, extra: nat)
    ensures PairedVisits(0, 1, n, n, n + extra) == seq(n / 2, k => (2 * k, 2 * k + 1))
  {
    PairedForwardFrom(0, n, n + extra);
    assert seq((n - 0) / 2, k => (0 + 2 * k, 0 + 2 * k + 1)) == seq(n / 2, k => (2 * k, 2 * k + 1));
  }

  lemma {:induction false} PairedBackwardFrom(j: int, n: nat, count: nat)
    requires -1 <= j < n && j + 1 <= count
    ensures PairedVisits(j, -1, n, n, count) == seq((j + 1) / 2, k => (j - 2 * k, j - 2 * k - 1))
    decreases j + 1
  {
    if j == 0 {
      assert PairedVisits(0, -1, n, n, count) == PairedVisits(-1, -1, n, n, count - 1);
    } else if j > 0 {
      PairedBackwardFrom(j - 2, n, count - 1);
      assert (j + 1) / 2 == (j - 1) / 2 + 1;
      assert [(j, j - 1)] + seq((j - 1) / 2, k => (j - 2 - 2 * k, j - 2 - 2 * k - 1))
          == seq((j + 1) / 2, k => (j - 2 * k, j - 2 * k - 1));
    }
  }

  /** As written, in reverse: from the reset position n - 1, the `read && read_depth` pair
      delivers only n / 2 frames, colour entry n - 1 - 2k with depth entry n - 2 - 2k. */
  lemma AsWrittenReversePairing(n: nat, extra: nat)
    ensures PairedVisits(n - 1, -1, n, n, n + extra) == seq(n / 2, k => (n - 1 - 2 * k, n - 2 - 2 * k))
  {
    PairedBackwardFrom(n - 1, n, n + extra);
    assert seq((n - 1 + 1) / 2, k => (n - 1 - 2 * k, n - 1 - 2 * k - 1))
        == seq(n / 2, k => (n - 1 - 2 * k, n - 2 - 2 * k));
  }

  /** The smallest dataset the discrepancy shows on: two lines, forward.  Only one frame is
      delivered, and it pairs the first colour image with the second depth image. */
  lemma TwoEntryPairing()
    ensures PairedVisits(0, 1, 2, 2, 2) == [(0, 1)]
  {
    AsWrittenPairing(2, 0);
  }

  /** The (colour, depth) index pairs delivered by `count` calls of TUMReader.ReadFrame over
      n entries: both images of the entry at the cursor, then one step of the cursor.  The
      reader's invariant keeps depthFiles at least as long as files, so only the colour
      bound is checked. */
  function FrameVisits(id: int, inc: int, n: nat, count: nat): (r: seq<(int, int)>)
    ensures |r| <= count
    ensures forall k :: 0 <= k < |r| ==> r[k].0 == r[k].1 && 0 <= r[k].0 < n
    decreases count
  {
    if count == 0 || !(0 <= id < n) then []
    else [(id, id)] + FrameVisits(id + inc, inc, n, count - 1)
  }

  lemma {:induction false} FrameForwardFrom(j: nat, n: nat, count: nat)
    requires j <= n && n - j <= count
    ensures FrameVisits(j, 1, n, count) == seq(n - j, k => (j + k, j + k))
    decreases n - j
  {
    if j < n {
      FrameForwardFrom(j + 1, n, count - 1);
      assert [(j, j)] + seq(n - (j + 1), k => (j + 1 + k, j + 1 + k)) == seq(n - j, k => (j + k, j + k));
    }
  }

  /** Corrected: forward over n entries, ReadFrame delivers all n frames, colour entry k with
      depth entry k of the same line. */
  lemma CorrectedPairing(n: nat, extra: nat)
    ensures FrameVisits(0, 1, n, n + extra) == seq(n, k => (k, k))
  {
    FrameForwardFrom(0, n, n + extra);
    assert seq(n - 0, k => (0 + k, 0 + k)) == seq(n, k => (k, k));
  }

  lemma {:induction false} FrameBackwardFrom(j: int, n: nat, count: nat)
    requires -1 <= j < n && j + 1 <= count
    ensures FrameVisits(j, -1, n, count) == seq(j + 1, k => (j - k, j - k))
    decreases j + 1
  {
    if 0 <= j {
      FrameBackwardFrom(j - 1, n, count - 1);
      assert [(j, j)] + seq(j, k => (j - 1 - k, j - 1 - k)) == seq(j + 1, k => (j - k, j - k));
    }
  }

  /** Corrected, in reverse: from the reset position n - 1, ReadFrame delivers all n frames
      in reverse file order, each colour entry with the depth entry of the same line. */
  lemma CorrectedReversePairing(n: nat, extra: nat)
    ensures FrameVisits(n - 1, -1, n, n + extra) == seq(n, k => (n - 1 - k, n - 1 - k))
  {
    FrameBackwardFrom(n - 1, n, n + extra);
  }

  /** One more read() call, for a caller that has collected `got` so far towards `total`:
      it delivers exactly when the cursor id is in range, and then id is collected and the
      cursor moves to id + inc; otherwise nothing is collected and the cursor stays. */
  lemma {:induction false} VisitedStep(got: seq<int>, id: int, id': int, delivered: bool, inc: int, n: nat,
                                       rest: nat, total: seq<int>)
    requires got + Visited(id, inc, n, rest + 1) == total
    requires delivered <==> 0 <= id < n
    requires id' == if delivered then id + inc else id
    ensures (if delivered then got + [id] else got) + Visited(id', inc, n, rest) == total
  {
    if delivered {
      assert (got + [id]) + Visited(id', inc, n, rest) == got + ([id] + Visited(id', inc, n, rest));
    }
  }

  /** One more evaluation of `read && read_depth`: it delivers exactly when both succeed, and
      then one pair is collected and the cursor moves twice; when only read succeeds the
      cursor moves once; when read fails it stays. */
  lemma {:induction false} PairedStep(got: seq<(int, int)>, id: int, id': int, delivered: bool, inc: int,
                                      nc: nat, nd: nat, rest: nat, total: seq<(int, int)>)
    requires got + PairedVisits(id, inc, nc, nd, rest + 1) == total
    requires delivered <==> 0 <= id < nc && 0 <= id + inc < nd
    requires id' == if !(0 <= id < nc) then id else if !delivered then id + inc else id + 2 * inc
    ensures (if delivered then got + [(id, id + inc)] else got) + PairedVisits(id', inc, nc, nd, rest) == total
  {
    if delivered {
      var tail := PairedVisits(id', inc, nc, nd, rest);
      assert (got + [(id, id + inc)]) + tail == got + ([(id, id + inc)] + tail);
    }
  }

  /** One more ReadFrame call: it delivers exactly when the cursor is in range, and then
      (id, id) is collected and the cursor steps once; otherwise the cursor stays. */
  lemma {:induction false} FrameStep(got: seq<(int, int)>, id: int, id': int, delivered: bool, inc: int, n: nat,
                                     rest: nat, total: seq<(int, int)>)
    requires got + FrameVisits(id, inc, n, rest + 1) == total
    requires delivered <==> 0 <= id < n
    requires id' == if delivered then id + inc else id
    ensures (if delivered then got + [(id, id)] else got) + FrameVisits(id', inc, n, rest) == total
  {
    if delivered {
      var tail := FrameVisits(id', inc, n, rest);
      assert (got + [(id, id)]) + tail == got + ([(id, id)] + tail);
    }
  }
}
