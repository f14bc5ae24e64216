// Reading captured buffers back, and giving up on the dmabuf path.
module FrameCapture {
  import opened Bytes

  // ---------------------------------------------------------------------
  // Repacking rows.
  // ---------------------------------------------------------------------

  // Where row `y` starts.
  function RowStart(y: nat, stride: nat): nat {
    y * stride
  }

  // Row `y` of the packed image is the visible part of row `y` of the source.
  ghost predicate RowCopied(dst: seq<byte>, src: seq<byte>, row: nat, stride: nat, y: nat) {
    && RowStart(y, row) + row <= |dst| && RowStart(y, stride) + row <= |src|
    && dst[RowStart(y, row)..RowStart(y, row) + row] == src[RowStart(y, stride)..RowStart(y, stride) + row]
  }

  method CopySlice(dst: array<byte>, to: nat, src: array<byte>, from: nat, length: nat)
    requires dst != src && to + length <= dst.Length && from + length <= src.Length
    modifies dst
    ensures dst[to..to + length] == src[from..from + length]
    ensures dst[..to] == old(dst[..to]) && dst[to + length..] == old(dst[to + length..])
  {
    forall x | 0 <= x < length {
      dst[to + x] := src[from + x];
    }
  }

  // Rows of `4 * width` octets, cut out of rows of `stride` octets.
  method Repack(src: array<byte>, width: nat, height: nat, stride: nat) returns (dst: array<byte>)
    requires src.Length == RowStart(height, stride) && stride >= 4 * width
    ensures fresh(dst) && dst.Length == RowStart(height, 4 * width)
    ensures forall y :: 0 <= y < height ==> RowCopied(dst[..], src[..], 4 * width, stride, y)
  {
    hide RowStart, RowCopied;
    var row := 4 * width;
    dst := new byte[RowStart(height, row)](_ => 0);
    RowsFit(height, row, stride);
    if stride == row {
      CopySlice(dst, 0, src, 0, src.Length);
      assert dst[..] == src[..];
      AllRowsCopied(dst[..], row, height);
      return;
    }
    var y := 0;
    while y < height
      invariant 0 <= y <= height
      invariant forall k :: 0 <= k < y ==> RowCopied(dst[..], src[..], row, stride, k)
    {
      ghost var before := dst[..];
      var to := RowStart(y, row);
      CopySlice(dst, to, src, RowStart(y, stride), row);
      forall k | 0 <= k < y ensures RowCopied(dst[..], src[..], row, stride, k) {
        RowsOrdered(k, y, row);
        KeepsEarlierRow(before, dst[..], src[..], row, stride, k, to);
      }
      RowJustCopied(dst, src, row, stride, y);
      y := y + 1;
    }
  }

  lemma AllRowsCopied(image: seq<byte>, row: nat, height: nat)
    requires |image| == RowStart(height, row)
    ensures forall y :: 0 <= y < height ==> RowCopied(image, image, row, row, y)
  {
    hide RowStart;
    RowsFit(height, row, row);
  }

  lemma RowJustCopied(dst: array<byte>, src: array<byte>, row: nat, stride: nat, y: nat)
    requires RowStart(y, row) + row <= dst.Length && RowStart(y, stride) + row <= src.Length
    requires dst[RowStart(y, row)..RowStart(y, row) + row] == src[RowStart(y, stride)..RowStart(y, stride) + row]
    ensures RowCopied(dst[..], src[..], row, stride, y)
  {
    hide RowStart;
    assert dst[..][RowStart(y, row)..RowStart(y, row) + row] == dst[RowStart(y, row)..RowStart(y, row) + row];
    assert src[..][RowStart(y, stride)..RowStart(y, stride) + row] == src[RowStart(y, stride)..RowStart(y, stride) + row];
  }

  lemma KeepsEarlierRow(before: seq<byte>, after: seq<byte>, src: seq<byte>, row: nat, stride: nat, k: nat, to: nat)
    requires RowCopied(before, src, row, stride, k)
    requires RowStart(k, row) + row <= to <= |before| == |after| && before[..to] == after[..to]
    ensures RowCopied(after, src, row, stride, k)
  {
    hide RowStart;
    var at := RowStart(k, row);
    SliceOfPrefix(after, to, at, at + row);
    SliceOfPrefix(before, to, at, at + row);
  }

  lemma SliceOfPrefix<T>(s: seq<T>, n: nat, from: nat, to: nat)
    requires from <= to <= n <= |s|
    ensures s[..n][from..to] == s[from..to]
  {
  }

  // Octet by octet: out[y * 4w + x] is src[y * stride + x].
  lemma RowCopiedAt(dst: seq<byte>, src: seq<byte>, row: nat, stride: nat, y: nat, x: nat)
    requires RowCopied(dst, src, row, stride, y) && x < row
    ensures y * row + x < |dst| && y * stride + x < |src| && dst[y * row + x] == src[y * stride + x]
  {
    assert dst[y * row..y * row + row][x] == src[y * stride..y * stride + row][x];
  }

  lemma {:induction false} RowsOrdered(a: nat, b: nat, stride: nat)
    requires a < b
    ensures RowStart(a, stride) + stride <= RowStart(b, stride)
  {
    hide RowStart;
    NextRow(b - 1, stride);
    if a < b - 1 {
      RowsOrdered(a, b - 1, stride);
    }
  }

  lemma NextRow(y: nat, stride: nat)
    ensures RowStart(y + 1, stride) == RowStart(y, stride) + stride
  {
  }

  lemma RowsFit(height: nat, row: nat, stride: nat)
    requires row <= stride
    ensures forall y :: 0 <= y < height ==>
              && RowStart(y, row) + row <= RowStart(height, row)
              && RowStart(y, stride) + row <= RowStart(height, stride)
  {
    forall y | 0 <= y < height
      ensures RowStart(y, row) + row <= RowStart(height, row)
      ensures RowStart(y, stride) + row <= RowStart(height, stride)
    {
      RowsOrdered(y, height, row);
      RowsOrdered(y, height, stride);
    }
  }

  // ---------------------------------------------------------------------
  // Giving up on dmabuf.
  // ---------------------------------------------------------------------

  const DMABUF_FAILURE_THRESHOLD := 3

  // How one frame goes, as far as the transport is concerned: whether dmabuf
  // was on offer, whether its buffer could be made, whether the copy into the
  // chosen buffer succeeded.
  datatype Frame = Frame(offered: bool, allocates: bool, copies: bool)

  datatype Transport = Transport(disabled: bool, failures: nat)

  predicate Attempts(t: Transport, f: Frame) {
    f.offered && !t.disabled
  }

  predicate AttemptFails(f: Frame) {
    !f.allocates || !f.copies
  }

  function AfterFailure(t: Transport): Transport {
    Transport(t.disabled || t.failures + 1 >= DMABUF_FAILURE_THRESHOLD, t.failures + 1)
  }

  // An allocation failure falls back to shared memory for this frame, and the
  // outcome of that copy does not touch the count.
  function AfterFrame(t: Transport, f: Frame): Transport {
    if !Attempts(t, f) then t
    else if !f.allocates then AfterFailure(t)
    else if !f.copies then AfterFailure(t)
    else t.(failures := 0)
  }

  class Worker {
    var dmabufDisabled: bool
    var consecutiveFailures: nat

    ghost function Value(): Transport
      reads this
    {
      Transport(dmabufDisabled, consecutiveFailures)
    }

    constructor ()
      ensures Value() == Transport(false, 0)
    {
      dmabufDisabled, consecutiveFailures := false, 0;
    }

    method CaptureFrame(f: Frame) returns (viaDmabuf: bool)
      modifies this
      ensures Value() == AfterFrame(old(Value()), f)
      ensures viaDmabuf <==> f.offered && f.allocates && !old(dmabufDisabled)
      ensures old(dmabufDisabled) ==> dmabufDisabled
    {
      viaDmabuf := false;
      if f.offered && !dmabufDisabled {
        if f.allocates {
          viaDmabuf := true;
        } else {
          consecutiveFailures := consecutiveFailures + 1;
          if consecutiveFailures >= DMABUF_FAILURE_THRESHOLD && !dmabufDisabled {
            dmabufDisabled := true;
          }
        }
      }
      if !f.copies {
        if viaDmabuf {
          consecutiveFailures := consecutiveFailures + 1;
          if consecutiveFailures >= DMABUF_FAILURE_THRESHOLD && !dmabufDisabled {
            dmabufDisabled := true;
          }
        }
        return;
      }
      if viaDmabuf {
        consecutiveFailures := 0;
      }
    }
  }

  function AfterAll(frames: seq<Frame>): Transport {
    if frames == [] then Transport(false, 0)
    else AfterFrame(AfterAll(frames[..|frames| - 1]), frames[|frames| - 1])
  }

  // The frames that were offered dmabuf.
  function Offered(frames: seq<Frame>): seq<Frame> {
    if frames == [] then []
    else
      var last := frames[|frames| - 1];
      Offered(frames[..|frames| - 1]) + if last.offered then [last] else []
  }

  // The number of failures at the end of a list.
  function TrailingFailures(frames: seq<Frame>): nat {
    if frames == [] then 0
    else if AttemptFails(frames[|frames| - 1]) then TrailingFailures(frames[..|frames| - 1]) + 1
    else 0
  }

  ghost predicate ThreeFrom(frames: seq<Frame>, i: int) {
    && 0 <= i <= |frames| - 3
    && AttemptFails(frames[i]) && AttemptFails(frames[i + 1]) && AttemptFails(frames[i + 2])
  }

  ghost predicate ThreeInARow(frames: seq<Frame>) {
    exists i :: ThreeFrom(frames, i)
  }

  lemma TrailingSnoc(frames: seq<Frame>, last: Frame)
    ensures TrailingFailures(frames + [last]) == if AttemptFails(last) then TrailingFailures(frames) + 1 else 0
  {
    assert (frames + [last])[..|frames|] == frames;
  }

  // The failures at the end are the last frames, and the one before them, if
  // there is one, did not fail.
  lemma {:induction false} TrailingMeans(frames: seq<Frame>)
    ensures TrailingFailures(frames) <= |frames|
    ensures forall i :: |frames| - TrailingFailures(frames) <= i < |frames| ==> AttemptFails(frames[i])
    ensures TrailingFailures(frames) < |frames| ==> !AttemptFails(frames[|frames| - TrailingFailures(frames) - 1])
  {
    if frames != [] {
      hide AttemptFails;
      var init := frames[..|frames| - 1];
      TrailingMeans(init);
      assert forall i :: 0 <= i < |init| ==> init[i] == frames[i];
    }
  }

  lemma LastThree(frames: seq<Frame>)
    ensures ThreeFrom(frames, |frames| - 3) <==> TrailingFailures(frames) >= 3
  {
    hide AttemptFails, TrailingFailures;
    TrailingMeans(frames);
  }

  lemma ThreeInARowSnoc(frames: seq<Frame>, last: Frame)
    ensures ThreeInARow(frames + [last]) <==> ThreeInARow(frames) || TrailingFailures(frames + [last]) >= 3
  {
    hide AttemptFails, TrailingFailures;
    var all := frames + [last];
    LastThree(all);
    forall i | i != |all| - 3 ensures ThreeFrom(all, i) <==> ThreeFrom(frames, i) {
    }
  }

  lemma OfferedSnoc(frames: seq<Frame>)
    requires frames != []
    ensures var before, last := Offered(frames[..|frames| - 1]), frames[|frames| - 1];
      Offered(frames) == if last.offered then before + [last] else before
  {
  }

  // The dmabuf path is switched off exactly when three offered frames in a
  // row have failed, by allocation or by copy, frames without an offer not
  // counting; and it stays off, however many frames follow.
  lemma {:induction false} DisabledExactly(frames: seq<Frame>)
    ensures AfterAll(frames).disabled <==> ThreeInARow(Offered(frames))
    ensures !AfterAll(frames).disabled ==> AfterAll(frames).failures == TrailingFailures(Offered(frames))
  {
    hide ThreeInARow, Offered, TrailingFailures;
    if frames == [] {
      NothingOffered();
    } else {
      var init, last := frames[..|frames| - 1], frames[|frames| - 1];
      DisabledExactly(init);
      OfferedSnoc(frames);
      ThreeInARowSnoc(Offered(init), last);
      TrailingSnoc(Offered(init), last);
      EarlierThree(Offered(init));
    }
  }

  lemma NothingOffered()
    ensures Offered([]) == [] && !ThreeInARow([]) && TrailingFailures([]) == 0
  {
  }

  lemma EarlierThree(frames: seq<Frame>)
    ensures TrailingFailures(frames) >= 3 ==> ThreeInARow(frames)
  {
    LastThree(frames);
  }

  // One frame: not offered, or after dmabuf was switched off, it changes
  // nothing; else a failure is one more in a row, and the third switches it
  // off, while a success starts the count over.
  lemma FrameCounts(t: Transport, f: Frame)
    ensures var t' := AfterFrame(t, f);
      && (!f.offered || t.disabled ==> t' == t)
      && (f.offered && !t.disabled && f.allocates && f.copies ==> t' == Transport(false, 0))
      && (f.offered && !t.disabled && !(f.allocates && f.copies) ==> t' == Transport(t.failures + 1 >= 3, t.failures + 1))
  {
  }
}
