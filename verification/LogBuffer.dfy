/**
 The ring buffer of recent log lines and the cursor protocol a polling
 client runs against it (crates/ruscker-admin/src/logbuf.rs).

 The buffer is judged against the full history of pushed lines, which the
 program itself never keeps.
 */
module LogBuffers {
  import opened Wrappers

  datatype Line = Line(seqNo: nat, text: string)

  /** The last `n` elements of `s`, or all of it when it is shorter. */
  function Last<T>(s: seq<T>, n: nat): seq<T> {
    if |s| <= n then s else s[|s| - n..]
  }

  lemma LastIsSuffix<T>(s: seq<T>, n: nat)
    ensures |Last(s, n)| == Min(|s|, n) && s == s[..|s| - |Last(s, n)|] + Last(s, n)
  {
  }

  /** What is still buffered of a history, from sequence number `after` on. */
  function BufferedFrom(history: seq<string>, cap: nat, after: nat): seq<string> {
    var first := Max(after, |history| - cap);
    if first <= |history| then history[first..] else []
  }

  class LogBuffer {
    var lines: seq<Line>
    var nextSeq: nat
    const cap: nat
    /** Every line ever pushed, oldest first. */
    ghost var history: seq<string>

    ghost predicate Valid()
      reads this
    {
      && cap >= 1
      && nextSeq == |history|
      && |lines| == Min(cap, |history|)
      && forall i :: 0 <= i < |lines| ==>
           lines[i] == Line(|history| - |lines| + i, history[|history| - |lines| + i])
    }

    constructor (cap: nat)
      ensures Valid() && history == [] && this.cap == Max(cap, 1)
    {
      this.cap := Max(cap, 1);
      lines, nextSeq, history := [], 0, [];
    }

    method PushLine(line: string)
      requires Valid()
      modifies this
      ensures Valid() && history == old(history) + [line]
    {
      var seqNo := nextSeq;
      nextSeq := nextSeq + 1;
      lines := lines + [Line(seqNo, line)];
      history := history + [line];
      while |lines| > cap
        invariant cap >= 1 && nextSeq == |history| && history == old(history) + [line]
        invariant Min(cap, |history|) <= |lines| <= |history|
        invariant forall i :: 0 <= i < |lines| ==>
          lines[i] == Line(|history| - |lines| + i, history[|history| - |lines| + i])
      {
        lines := lines[1..];
      }
    }

    /** Tail, buffered total and cursor, all read under one lock. */
    method TailWithCursor(n: nat) returns (tail: seq<string>, total: nat, cursor: nat)
      requires Valid()
      ensures tail == Last(Last(history, cap), n)
      ensures total == Min(cap, |history|)
      ensures cursor == |history|
    {
      total := |lines|;
      var start := if n <= total then total - n else 0;
      tail := seq(total - start, i requires 0 <= i < |lines| - start reads this => lines[start + i].text);
      cursor := nextSeq;
    }

    /** Lines numbered `after` or later, plus the new cursor. */
    method Since(after: nat) returns (newer: seq<string>, cursor: nat)
      requires Valid()
      ensures newer == BufferedFrom(history, cap, after)
      ensures cursor == |history|
    {
      newer := [];
      ghost var base := |history| - |lines|;
      for i := 0 to |lines|
        invariant newer == BufferedFrom(history[..base + i], i, after)
      {
        if lines[i].seqNo >= after {
          newer := newer + [lines[i].text];
        }
        assert history[..base + i + 1] == history[..base + i] + [history[base + i]];
      }
      assert history[..|history|] == history;
      cursor := nextSeq;
    }
  }

  function Flatten<T>(batches: seq<seq<T>>): seq<T> {
    if batches == [] then [] else batches[0] + Flatten(batches[1..])
  }

  function KeepLast<T>(batches: seq<seq<T>>, cap: nat): seq<seq<T>> {
    seq(|batches|, i requires 0 <= i < |batches| => Last(batches[i], cap))
  }

  /**
   Everything a client is handed by chained polls when it starts with the cursor
   of a snapshot of `history` and `batches[k]` is pushed just before poll `k`.
   */
  function Received(history: seq<string>, cap: nat, batches: seq<seq<string>>): seq<string>
    decreases |batches|
  {
    if batches == [] then []
    else
      var now := history + batches[0];
      BufferedFrom(now, cap, |history|) + Received(now, cap, batches[1..])
  }

  /** Each poll yields exactly the last `cap` lines pushed since the previous one, in order and once. */
  lemma {:induction false} PollsYieldTheTailOfEachBatch(history: seq<string>, cap: nat, batches: seq<seq<string>>)
    ensures Received(history, cap, batches) == Flatten(KeepLast(batches, cap))
    decreases |batches|
  {
    if batches != [] {
      var now := history + batches[0];
      PollsYieldTheTailOfEachBatch(now, cap, batches[1..]);
      assert KeepLast(batches, cap)[1..] == KeepLast(batches[1..], cap);
      assert BufferedFrom(now, cap, |history|) == Last(batches[0], cap);
    }
  }

  lemma {:induction false} KeptLength<T>(batches: seq<seq<T>>, cap: nat)
    ensures |Flatten(KeepLast(batches, cap))| <= |Flatten(batches)|
    ensures |Flatten(KeepLast(batches, cap))| == |Flatten(batches)| ==>
              forall i :: 0 <= i < |batches| ==> |batches[i]| <= cap
  {
    if batches != [] {
      KeptLength(batches[1..], cap);
      assert KeepLast(batches, cap)[1..] == KeepLast(batches[1..], cap);
      assert forall i :: 1 <= i < |batches| ==> batches[i] == batches[1..][i - 1];
    }
  }

  /** Chained polls miss nothing exactly when at most `cap` lines arrive between two polls. */
  lemma PollsAreCompleteIffBatchesFit(history: seq<string>, cap: nat, batches: seq<seq<string>>)
    ensures Received(history, cap, batches) == Flatten(batches) <==>
            forall i :: 0 <= i < |batches| ==> |batches[i]| <= cap
  {
    PollsYieldTheTailOfEachBatch(history, cap, batches);
    KeptLength(batches, cap);
    if forall i :: 0 <= i < |batches| ==> |batches[i]| <= cap {
      assert KeepLast(batches, cap) == batches;
    }
  }
}
