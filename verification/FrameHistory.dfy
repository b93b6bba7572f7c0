/**
 The frame history of a node: frames are appended, and dropped from the front when there are too many of them or
 their bytes are too many. What is retained at any time depends on the whole history alone.
 */
module FrameHistories {
  import opened DeliveryEngine

  const FRAME_LIMIT := 100000

  const FRAME_BYTES_LIMIT := 16 * 1024 * 1024

  function TotalBytes(frames: seq<Frame>): nat {
    if frames == [] then 0 else |frames[0].data| + TotalBytes(frames[1..])
  }

  /** Few enough frames, and few enough bytes unless there is one frame only. */
  predicate Fits(frames: seq<Frame>) {
    |frames| <= FRAME_LIMIT && (TotalBytes(frames) <= FRAME_BYTES_LIMIT || |frames| <= 1)
  }

  /** The longest part of the history up to its end that fits. */
  function Retained(history: seq<Frame>): (frames: seq<Frame>)
    ensures Fits(frames)
  {
    if Fits(history) then history else Retained(history[1..])
  }

  lemma {:induction false} RetainedIsSuffix(history: seq<Frame>)
    ensures |Retained(history)| <= |history| && Retained(history) == history[|history| - |Retained(history)|..]
    ensures history != [] ==> Retained(history) != []
  {
    if !Fits(history) {
      RetainedIsSuffix(history[1..]);
      TailOfTail(history, |history| - |Retained(history[1..])|);
    }
  }

  lemma TailOfTail<T>(s: seq<T>, k: nat)
    requires 1 <= k <= |s|
    ensures s[1..][k - 1..] == s[k..]
  {
  }

  lemma {:induction false} TotalOfTail(frames: seq<Frame>, k: nat)
    requires k <= |frames|
    ensures TotalBytes(frames[k..]) <= TotalBytes(frames)
  {
    if k > 0 {
      TotalOfTail(frames[1..], k - 1);
      TailOfTail(frames, k);
    }
  }

  /** Nothing longer would have fitted. */
  lemma {:induction false} RetainedIsLongest(history: seq<Frame>, k: nat)
    requires k <= |history| && Fits(history[k..])
    ensures |history| - k <= |Retained(history)|
    decreases |history|
  {
    if k == 0 {
      assert history[0..] == history;
    } else if !Fits(history) {
      TailOfTail(history, k);
      RetainedIsLongest(history[1..], k - 1);
    }
  }

  lemma {:induction false} TotalSnoc(frames: seq<Frame>, frame: Frame)
    ensures TotalBytes(frames + [frame]) == TotalBytes(frames) + |frame.data|
  {
    if frames != [] {
      assert (frames + [frame])[1..] == frames[1..] + [frame];
      TotalSnoc(frames[1..], frame);
    }
  }

  lemma InitFits(frames: seq<Frame>, frame: Frame)
    requires Fits(frames + [frame])
    ensures Fits(frames)
  {
    TotalSnoc(frames, frame);
  }

  /** What is dropped once is never missed: trimming the trimmed history is trimming the whole one. */
  lemma {:induction false} RetainedNext(history: seq<Frame>, frame: Frame)
    ensures Retained(Retained(history) + [frame]) == Retained(history + [frame])
    decreases |history|
  {
    if !Fits(history) {
      if Fits(history + [frame]) {
        InitFits(history, frame);
      }
      assert (history + [frame])[1..] == history[1..] + [frame];
      RetainedNext(history[1..], frame);
    }
  }

  class FrameHistory {
    var frames: seq<Frame>
    var frameBytes: nat
    ghost var history: seq<Frame>

    ghost predicate Valid()
      reads this
    {
      frames == Retained(history) && frameBytes == TotalBytes(frames)
    }

    constructor ()
      ensures Valid() && history == []
    {
      frames, frameBytes, history := [], 0, [];
    }

    method Append(frame: Frame)
      requires Valid()
      modifies this
      ensures Valid() && history == old(history) + [frame]
    {
      RetainedNext(history, frame);
      TotalSnoc(frames, frame);
      history := history + [frame];
      frames := frames + [frame];
      frameBytes := frameBytes + |frame.data|;
      Trim();
    }

    method Trim()
      requires frameBytes == TotalBytes(frames)
      modifies `frames, `frameBytes
      ensures frames == Retained(old(frames)) && frameBytes == TotalBytes(frames)
    {
      while |frames| > 0 && (|frames| > FRAME_LIMIT || (frameBytes > FRAME_BYTES_LIMIT && |frames| > 1))
        invariant Retained(frames) == Retained(old(frames)) && frameBytes == TotalBytes(frames)
        decreases |frames|
      {
        frameBytes := frameBytes - |frames[0].data|;
        frames := frames[1..];
      }
    }

    method Clear()
      modifies this
      ensures Valid() && history == []
    {
      frames, frameBytes, history := [], 0, [];
    }
  }
}
