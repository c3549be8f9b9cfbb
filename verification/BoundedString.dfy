/**
  The bounded accumulator of streamed text: a chunk buffer that collapses to its tail when it overflows,
  and the plain function that does the same on a string.
 */
module BoundedString {
  import opened Text

  /** `s.slice(-n)`; a zero bound keeps everything, because minus zero counts from the start. */
  function SliceTail(s: string, n: nat): string {
    if n == 0 || n >= |s| then s else s[|s| - n..]
  }

  function Concat(chunks: seq<string>): string {
    if chunks == [] then "" else Concat(chunks[..|chunks| - 1]) + chunks[|chunks| - 1]
  }

  /** What the buffer holds of everything fed. */
  predicate Keeps(kept: string, totalLen: nat, wasTruncated: bool, fed: string, maxBytes: nat) {
    kept == SliceTail(fed, maxBytes) && totalLen == |kept| && (wasTruncated <==> |fed| > maxBytes)
  }

  class BoundedStringAccumulator {
    const maxBytes: nat
    var chunks: seq<string>
    var totalLen: nat
    var wasTruncated: bool
    /** The chunks appended since the last clear. */
    ghost var fed: seq<string>

    ghost predicate Valid()
      reads this
    {
      Keeps(Concat(chunks), totalLen, wasTruncated, Concat(fed), maxBytes)
    }

    constructor (maxBytes: nat)
      ensures Valid() && this.maxBytes == maxBytes && fed == []
    {
      this.maxBytes := maxBytes;
      chunks := [];
      totalLen := 0;
      wasTruncated := false;
      fed := [];
    }

    method Append(chunk: string)
      requires Valid()
      modifies this
      ensures Valid() && fed == old(fed) + [chunk]
    {
      ConcatSnoc(fed, chunk);
      ConcatSnoc(chunks, chunk);
      KeepsMore(Concat(chunks), totalLen, wasTruncated, Concat(fed), chunk, maxBytes);
      fed := fed + [chunk];
      if |chunk| == 0 { return; }
      chunks := chunks + [chunk];
      totalLen := totalLen + |chunk|;
      if totalLen > maxBytes {
        wasTruncated := true;
        var joined := Concat(chunks);
        var trimmed := SliceTail(joined, maxBytes);
        ConcatSnoc([], trimmed);
        chunks := [trimmed];
        totalLen := |trimmed|;
      }
    }

    method ToString() returns (text: string)
      requires Valid()
      modifies this`chunks
      ensures Valid() && text == Folded(fed, maxBytes)
      ensures text == if maxBytes > 0 then Last(Concat(fed), maxBytes) else Concat(fed)
    {
      FoldKeepsSlice(fed, maxBytes);
      SliceIsLast(Concat(fed), maxBytes);
      if |chunks| == 0 { return ""; }
      if |chunks| == 1 {
        ConcatSnoc([], chunks[0]);
        return chunks[0];
      }
      var joined := Concat(chunks);
      ConcatSnoc([], joined);
      chunks := [joined];
      return joined;
    }

    function Length(): (n: nat)
      requires Valid()
      reads this
      ensures n == |Folded(fed, maxBytes)|
    {
      FoldKeepsSlice(fed, maxBytes);
      totalLen
    }

    function Truncated(): (b: bool)
      requires Valid()
      reads this
      ensures b <==> |Concat(fed)| > maxBytes
    {
      wasTruncated
    }

    method Clear()
      modifies this
      ensures Valid() && fed == []
    {
      chunks := [];
      totalLen := 0;
      wasTruncated := false;
      fed := [];
    }
  }

  function AppendBounded(prev: string, chunk: string, maxBytes: nat): string {
    var combined := prev + chunk;
    if |combined| <= maxBytes then combined else SliceTail(combined, maxBytes)
  }

  /** Folding `AppendBounded` over the chunks of a stream. */
  function Folded(chunks: seq<string>, maxBytes: nat): string {
    if chunks == [] then "" else AppendBounded(Folded(chunks[..|chunks| - 1], maxBytes), chunks[|chunks| - 1], maxBytes)
  }

  lemma ConcatSnoc(chunks: seq<string>, chunk: string)
    ensures Concat(chunks + [chunk]) == Concat(chunks) + chunk
    ensures chunks == [] ==> chunks + [chunk] == [chunk] && Concat([chunk]) == chunk
  {
    assert (chunks + [chunk])[..|chunks|] == chunks;
    if chunks == [] { assert chunks + [chunk] == [chunk] && "" + chunk == chunk; }
  }

  lemma SliceIsLast(s: string, n: nat)
    ensures n > 0 ==> SliceTail(s, n) == Last(s, n)
  {
  }

  /** Cutting to the tail before or after an append makes no difference. */
  lemma SliceAppend(a: string, b: string, n: nat)
    ensures SliceTail(SliceTail(a, n) + b, n) == SliceTail(a + b, n)
    ensures b != "" ==> (|SliceTail(a, n) + b| > n <==> |a + b| > n)
    ensures |a + b| <= n ==> SliceTail(a, n) + b == a + b
  {
    if 0 < n < |a| {
      var t := a[|a| - n..];
      assert a + b == a[..|a| - n] + (t + b);
    }
  }

  lemma KeepsMore(kept: string, totalLen: nat, wasTruncated: bool, fed: string, chunk: string, maxBytes: nat)
    requires Keeps(kept, totalLen, wasTruncated, fed, maxBytes)
    ensures chunk == "" ==> Keeps(kept, totalLen, wasTruncated, fed + chunk, maxBytes)
    ensures chunk != "" && totalLen + |chunk| <= maxBytes ==>
              Keeps(kept + chunk, totalLen + |chunk|, wasTruncated, fed + chunk, maxBytes)
    ensures chunk != "" && totalLen + |chunk| > maxBytes ==>
              var trimmed := SliceTail(kept + chunk, maxBytes);
              Keeps(trimmed, |trimmed|, true, fed + chunk, maxBytes)
  {
    SliceAppend(fed, chunk, maxBytes);
    if chunk == "" {
      assert fed + chunk == fed;
    } else if totalLen + |chunk| <= maxBytes {
      assert SliceTail(kept + chunk, maxBytes) == kept + chunk;
    }
  }

  /** Folding `AppendBounded` over any chunks keeps what the accumulator keeps of their concatenation. */
  lemma {:induction false} FoldKeepsSlice(chunks: seq<string>, maxBytes: nat)
    ensures Folded(chunks, maxBytes) == SliceTail(Concat(chunks), maxBytes)
  {
    if chunks != [] {
      var front, last := chunks[..|chunks| - 1], chunks[|chunks| - 1];
      FoldKeepsSlice(front, maxBytes);
      SliceAppend(Concat(front), last, maxBytes);
      var combined := Folded(front, maxBytes) + last;
      assert |combined| <= maxBytes ==> SliceTail(combined, maxBytes) == combined;
    }
  }

  /**
   * The stream keeps its last `maxBytes` characters exactly when the bound is positive or there was nothing to keep; a
   * zero bound keeps everything.
   */
  lemma KeepsTailIffBounded(chunks: seq<string>, maxBytes: nat)
    ensures Folded(chunks, maxBytes) == Last(Concat(chunks), maxBytes) <==> maxBytes > 0 || Concat(chunks) == ""
    ensures maxBytes == 0 ==> Folded(chunks, maxBytes) == Concat(chunks)
  {
    FoldKeepsSlice(chunks, maxBytes);
  }
}
