/** Splitting audio under a size limit and joining the transcripts (routers/audio.py). */
module AudioSplit {
  import opened Lists
  import Names

  /** The i-th exported chunk covers the milliseconds from start to end. */
  datatype Chunk = Chunk(start: nat, end: nat)

  datatype Outcome = Whole | Chunks(chunks: seq<Chunk>) | Irreducible

  /** `size(start, end)` is the size of the exported file of that stretch; nothing is assumed of it. */
  type Encoder = (nat, nat) -> nat

  /** `max(int(duration * (max_bytes / size)) - 1000, 1000)`, over the reals. */
  function ChunkLength(duration: nat, maxBytes: nat, fileSize: nat): (n: nat)
    requires fileSize > maxBytes
    ensures n >= 1000
  {
    var estimate := (duration as real * (maxBytes as real / fileSize as real)).Floor - 1000;
    if estimate > 1000 then estimate else 1000
  }

  predicate TooLarge(size: Encoder, maxBytes: nat, start: nat, end: nat) {
    size(start, end) > maxBytes && end - start > 5000
  }

  /** Where the halving of the stretch from start to end stops. */
  function Reduced(size: Encoder, maxBytes: nat, start: nat, end: nat): (e: nat)
    requires start < end
    ensures start < e <= end && (e < end ==> e - start >= 2500)
    decreases end - start
  {
    if TooLarge(size, maxBytes, start, end) then Reduced(size, maxBytes, start, start + (end - start) / 2) else end
  }

  /** The chunks from `start` on, or None when one cannot be reduced. */
  function SplitFrom(size: Encoder, maxBytes: nat, duration: nat, length: nat, start: nat): Option<seq<Chunk>>
    requires length >= 1000
    decreases duration - start
  {
    if start >= duration then Some([])
    else
      var end := Reduced(size, maxBytes, start, Min(start + length, duration));
      if size(start, end) > maxBytes then None
      else match SplitFrom(size, maxBytes, duration, length, end)
        case None => None
        case Some(rest) => Some([Chunk(start, end)] + rest)
  }

  function Split(fileSize: nat, maxBytes: nat, duration: nat, size: Encoder): Outcome {
    if fileSize <= maxBytes then Whole
    else match SplitFrom(size, maxBytes, duration, ChunkLength(duration, maxBytes, fileSize), 0)
      case None => Irreducible
      case Some(chunks) => Chunks(chunks)
  }

  function Prepend(chunks: seq<Chunk>, rest: Option<seq<Chunk>>): Option<seq<Chunk>> {
    if rest.None? then None else Some(chunks + rest.value)
  }

  lemma SplitStep(size: Encoder, maxBytes: nat, duration: nat, length: nat, start: nat, chunks: seq<Chunk>)
    requires length >= 1000 && start < duration
    ensures var end := Reduced(size, maxBytes, start, Min(start + length, duration));
      Prepend(chunks, SplitFrom(size, maxBytes, duration, length, start)) ==
        if size(start, end) > maxBytes then None
        else Prepend(chunks + [Chunk(start, end)], SplitFrom(size, maxBytes, duration, length, end))
  {
    var end := Reduced(size, maxBytes, start, Min(start + length, duration));
    var rest := SplitFrom(size, maxBytes, duration, length, end);
    if rest.Some? { assert chunks + ([Chunk(start, end)] + rest.value) == chunks + [Chunk(start, end)] + rest.value; }
  }

  /** The inner loop: export again, half as long, while the file is too large. */
  method ReduceChunk(size: Encoder, maxBytes: nat, start: nat, most: nat) returns (end: nat)
    requires start < most
    ensures end == Reduced(size, maxBytes, start, most)
  {
    end := most;
    while size(start, end) > maxBytes && end - start > 5000
      invariant start < end && Reduced(size, maxBytes, start, end) == Reduced(size, maxBytes, start, most)
      decreases end - start
    {
      end := start + (end - start) / 2;
    }
  }

  /** The outer loop: cut a stretch, reduce it, go on where it ends. */
  method ExportChunks(size: Encoder, maxBytes: nat, duration: nat, length: nat) returns (r: Option<seq<Chunk>>)
    requires length >= 1000
    ensures r == SplitFrom(size, maxBytes, duration, length, 0)
  {
    ghost var all := SplitFrom(size, maxBytes, duration, length, 0);
    var chunks: seq<Chunk>, start := [], 0;
    if all.Some? { assert [] + all.value == all.value; }
    while start < duration
      invariant Prepend(chunks, SplitFrom(size, maxBytes, duration, length, start)) == all
    {
      SplitStep(size, maxBytes, duration, length, start, chunks);
      var end := ReduceChunk(size, maxBytes, start, Min(start + length, duration));
      if size(start, end) > maxBytes { return None; }
      chunks := chunks + [Chunk(start, end)];
      start := end;
    }
    assert chunks + [] == chunks;
    r := Some(chunks);
  }

  method SplitAudio(fileSize: nat, maxBytes: nat, duration: nat, size: Encoder) returns (r: Outcome)
    ensures r == Split(fileSize, maxBytes, duration, size)
  {
    if fileSize <= maxBytes { return Whole; }
    var chunks := ExportChunks(size, maxBytes, duration, ChunkLength(duration, maxBytes, fileSize));
    r := if chunks.None? then Irreducible else Chunks(chunks.value);
  }

  // ---------- what a successful split looks like ----------

  /** The chunks cover the stretch in order, each starting where the one before ended. */
  ghost predicate Tiles(chunks: seq<Chunk>, start: nat, end: nat) {
    if chunks == [] then start == end
    else chunks[0].start == start && start < chunks[0].end && Tiles(chunks[1..], chunks[0].end, end)
  }

  lemma {:induction false} SplitTiles(size: Encoder, maxBytes: nat, duration: nat, length: nat, start: nat)
    requires length >= 1000 && start <= duration
    requires SplitFrom(size, maxBytes, duration, length, start).Some?
    ensures var chunks := SplitFrom(size, maxBytes, duration, length, start).value;
      && Tiles(chunks, start, duration)
      && (forall c :: c in chunks ==> size(c.start, c.end) <= maxBytes)
      && (forall i :: 0 <= i < |chunks| - 1 ==> chunks[i].end - chunks[i].start >= 1000)
      && 1000 * |chunks| < duration - start + 1000
    decreases duration - start
  {
    if start < duration {
      var end := Reduced(size, maxBytes, start, Min(start + length, duration));
      SplitTiles(size, maxBytes, duration, length, end);
      var rest := SplitFrom(size, maxBytes, duration, length, end).value;
      assert ([Chunk(start, end)] + rest)[1..] == rest;
      assert end == duration ==> rest == [];
    }
  }

  /** A split that returns chunks tiles the whole duration with files that fit, at most one per started second. */
  lemma SplitMeaning(fileSize: nat, maxBytes: nat, duration: nat, size: Encoder)
    requires Split(fileSize, maxBytes, duration, size).Chunks?
    ensures var chunks := Split(fileSize, maxBytes, duration, size).chunks;
      && Tiles(chunks, 0, duration)
      && (forall c :: c in chunks ==> size(c.start, c.end) <= maxBytes)
      && (forall i :: 0 <= i < |chunks| - 1 ==> chunks[i].end - chunks[i].start >= 1000)
      && |chunks| <= (duration + 999) / 1000
  {
    SplitTiles(size, maxBytes, duration, ChunkLength(duration, maxBytes, fileSize), 0);
  }

  /** Tiles leave no gap and no overlap: every millisecond lies in exactly one chunk. */
  lemma {:induction false} TilesCover(chunks: seq<Chunk>, start: nat, end: nat, t: nat) returns (k: nat)
    requires Tiles(chunks, start, end) && start <= t < end
    ensures k < |chunks| && forall i :: 0 <= i < |chunks| ==> (chunks[i].start <= t < chunks[i].end <==> i == k)
  {
    TilesOrdered(chunks[1..], chunks[0].end, end);
    if t < chunks[0].end {
      k := 0;
      assert forall i :: 1 <= i < |chunks| ==> chunks[i] == chunks[1..][i - 1];
    } else {
      var j := TilesCover(chunks[1..], chunks[0].end, end, t);
      k := j + 1;
      assert forall i :: 1 <= i < |chunks| ==> chunks[i] == chunks[1..][i - 1];
    }
  }

  lemma {:induction false} TilesOrdered(chunks: seq<Chunk>, start: nat, end: nat)
    requires Tiles(chunks, start, end)
    ensures start <= end && forall i :: 0 <= i < |chunks| ==> start <= chunks[i].start
  {
    if chunks != [] {
      TilesOrdered(chunks[1..], chunks[0].end, end);
      assert forall i :: 1 <= i < |chunks| ==> chunks[i] == chunks[1..][i - 1];
    }
  }

  // ---------- when it fails ----------

  /** A failing split has met a stretch of at most five seconds that does not fit. */
  lemma {:induction false} FailureHasCause(size: Encoder, maxBytes: nat, duration: nat, length: nat, start: nat)
    returns (s: nat, e: nat)
    requires length >= 1000 && SplitFrom(size, maxBytes, duration, length, start).None?
    ensures start <= s < e <= duration && e - s <= 5000 && size(s, e) > maxBytes
    decreases duration - start
  {
    var end := Reduced(size, maxBytes, start, Min(start + length, duration));
    if size(start, end) > maxBytes {
      ReducedStops(size, maxBytes, start, Min(start + length, duration));
      s, e := start, end;
    } else {
      s, e := FailureHasCause(size, maxBytes, duration, length, end);
    }
  }

  lemma {:induction false} ReducedStops(size: Encoder, maxBytes: nat, start: nat, end: nat)
    requires start < end
    ensures !TooLarge(size, maxBytes, start, Reduced(size, maxBytes, start, end))
    decreases end - start
  {
    if TooLarge(size, maxBytes, start, end) { ReducedStops(size, maxBytes, start, start + (end - start) / 2); }
  }

  // ---------- what the estimate is for ----------

  /** The whole file's bytes per millisecond bound those of every exported stretch. */
  ghost predicate Proportional(size: Encoder, fileSize: nat, duration: nat) {
    forall s, e :: 0 <= s <= e <= duration ==> size(s, e) * duration <= fileSize * (e - s)
  }

  /** With such an encoder a stretch of the estimated length fits at once, unless the estimate fell to its floor. */
  lemma EstimateFits(size: Encoder, fileSize: nat, maxBytes: nat, duration: nat, start: nat)
    requires fileSize > maxBytes && Proportional(size, fileSize, duration) && start < duration
    requires ChunkLength(duration, maxBytes, fileSize) > 1000
    ensures var end := Min(start + ChunkLength(duration, maxBytes, fileSize), duration);
      size(start, end) <= maxBytes && Reduced(size, maxBytes, start, end) == end
  {
    var n := ChunkLength(duration, maxBytes, fileSize);
    var end: nat := Min(start + n, duration);
    EstimateExactly(duration, maxBytes, fileSize);
    SmallerFactor(fileSize, n, n + 1000);
    assert size(start, end) * duration <= fileSize * (end - start);
    SmallerFactor(fileSize, end - start, n);
    CancelFactor(size(start, end), maxBytes, duration);
  }

  /** The estimate is the proportional length less one second, rounded down, and at least one second. */
  lemma EstimateExactly(duration: nat, maxBytes: nat, fileSize: nat)
    requires fileSize > maxBytes
    ensures var n := ChunkLength(duration, maxBytes, fileSize);
      && n >= 1000 && (n > 1000 ==> fileSize * (n + 1000) <= duration * maxBytes)
      && duration * maxBytes < fileSize * (n + 1001)
  {
    var n := ChunkLength(duration, maxBytes, fileSize);
    var x := duration as real * (maxBytes as real / fileSize as real);
    assert x < (n + 1001) as real && (n > 1000 ==> (n + 1000) as real <= x);
    assert (duration * maxBytes) as real == duration as real * maxBytes as real;
    assert (fileSize * (n + 1001)) as real == fileSize as real * (n + 1001) as real;
    assert (fileSize * (n + 1000)) as real == fileSize as real * (n + 1000) as real;
    RealBelow((n + 1001) as real, duration as real, maxBytes as real, fileSize as real);
    if n > 1000 { RealBound((n + 1000) as real, duration as real, maxBytes as real, fileSize as real); }
  }

  lemma RealBelow(n: real, d: real, m: real, f: real)
    requires f > 0.0 && d * (m / f) < n
    ensures d * m < f * n
  {
    assert f * (d * (m / f)) == d * (f * (m / f));
    assert f * (m / f) == m;
  }

  lemma RealBound(n: real, d: real, m: real, f: real)
    requires f > 0.0 && n <= d * (m / f)
    ensures f * n <= d * m
  {
    assert f * (d * (m / f)) == d * (f * (m / f));
    assert f * (m / f) == m;
  }

  lemma SmallerFactor(f: nat, a: nat, b: nat)
    requires a <= b
    ensures f * a <= f * b
  {
  }

  lemma CancelFactor(a: nat, b: nat, d: nat)
    requires d > 0 && a * d <= d * b
    ensures a <= b
  {
    assert a >= b + 1 ==> a * d >= (b + 1) * d;
  }

  // ---------- how often a chunk is halved ----------

  function Pow2(n: nat): (p: nat)
    ensures p >= 1
  {
    if n == 0 then 1 else 2 * Pow2(n - 1)
  }

  function Halvings(size: Encoder, maxBytes: nat, start: nat, end: nat): nat
    requires start < end
    decreases end - start
  {
    if TooLarge(size, maxBytes, start, end) then 1 + Halvings(size, maxBytes, start, start + (end - start) / 2) else 0
  }

  /** `h` halvings mean that the stretch was longer than 5000 * 2^(h-1) ms, and leave a 2^h-th of it. */
  lemma {:induction false} HalvingsBound(size: Encoder, maxBytes: nat, start: nat, end: nat)
    requires start < end
    ensures var h := Halvings(size, maxBytes, start, end);
      && (h >= 1 ==> 5000 * Pow2(h - 1) < end - start)
      && var left := Reduced(size, maxBytes, start, end) - start;
         left * Pow2(h) <= end - start < (left + 1) * Pow2(h)
    decreases end - start
  {
    if TooLarge(size, maxBytes, start, end) {
      var mid := start + (end - start) / 2;
      HalvingsBound(size, maxBytes, start, mid);
      var h := Halvings(size, maxBytes, start, mid);
      var left := Reduced(size, maxBytes, start, mid) - start;
      Doubled(left, Pow2(h), mid - start, end - start);
    }
  }

  lemma Doubled(left: nat, p: nat, half: nat, whole: nat)
    requires left * p <= half < (left + 1) * p && half == whole / 2
    ensures left * (2 * p) <= whole < (left + 1) * (2 * p)
  {
  }

  // ---------- exactly which chunks ----------

  /** Where a stretch ends after `h` halvings. */
  function HalvedEnd(start: nat, most: nat, h: nat): (e: nat)
    requires start <= most
    ensures start <= e <= most
  {
    if h == 0 then most else start + (HalvedEnd(start, most, h - 1) - start) / 2
  }

  /** The chunk fits, and is the stretch of full length, or what is left of it after halving it as often as it was too
      large and longer than five seconds. */
  ghost predicate Exported(size: Encoder, maxBytes: nat, duration: nat, length: nat, c: Chunk) {
    && c.start < duration && size(c.start, c.end) <= maxBytes
    && exists h: nat :: HalvedFrom(size, maxBytes, duration, length, c, h)
  }

  ghost predicate HalvedFrom(size: Encoder, maxBytes: nat, duration: nat, length: nat, c: Chunk, h: nat) {
    HalvedTo(size, maxBytes, c.start, Min(c.start + length, duration), h, c.end)
  }

  ghost predicate HalvedTo(size: Encoder, maxBytes: nat, start: nat, most: nat, h: nat, end: nat) {
    && start <= most && HalvedEnd(start, most, h) == end
    && forall g: nat :: g < h ==> TooLarge(size, maxBytes, start, HalvedEnd(start, most, g))
  }

  lemma HalvedFirst(start: nat, most: nat, h: nat)
    requires start <= most
    ensures HalvedEnd(start, start + (most - start) / 2, h) == HalvedEnd(start, most, h + 1)
  {
    if h > 0 { HalvedFirst(start, most, h - 1); }
  }

  lemma {:induction false} ReducedIsHalved(size: Encoder, maxBytes: nat, start: nat, most: nat)
    requires start < most
    ensures HalvedTo(size, maxBytes, start, most, Halvings(size, maxBytes, start, most),
                     Reduced(size, maxBytes, start, most))
    decreases most - start
  {
    if TooLarge(size, maxBytes, start, most) {
      var mid := start + (most - start) / 2;
      ReducedIsHalved(size, maxBytes, start, mid);
      var h := Halvings(size, maxBytes, start, mid);
      HalvedFirst(start, most, h);
      forall g: nat | g < h + 1 ensures TooLarge(size, maxBytes, start, HalvedEnd(start, most, g)) {
        if g > 0 {
          var before: nat := g - 1;
          HalvedFirst(start, most, before);
          assert TooLarge(size, maxBytes, start, HalvedEnd(start, mid, before));
        }
      }
    }
  }

  /** Only one number of halvings ends in a stretch that fits. */
  lemma HalvedOnce(size: Encoder, maxBytes: nat, start: nat, most: nat, h: nat, end: nat)
    requires start < most && HalvedTo(size, maxBytes, start, most, h, end) && !TooLarge(size, maxBytes, start, end)
    ensures end == Reduced(size, maxBytes, start, most)
  {
    ReducedIsHalved(size, maxBytes, start, most);
    ReducedStops(size, maxBytes, start, most);
    var g := Halvings(size, maxBytes, start, most);
    assert HalvedEnd(start, most, g) == Reduced(size, maxBytes, start, most) && HalvedEnd(start, most, h) == end;
    assert g == h;
  }

  lemma {:induction false} SplitExports(size: Encoder, maxBytes: nat, duration: nat, length: nat, start: nat,
                                        chunks: seq<Chunk>)
    requires length >= 1000 && start <= duration
    ensures SplitFrom(size, maxBytes, duration, length, start) == Some(chunks) <==>
      Tiles(chunks, start, duration) && forall c :: c in chunks ==> Exported(size, maxBytes, duration, length, c)
    decreases duration - start
  {
    if start < duration {
      var most := Min(start + length, duration);
      var end := Reduced(size, maxBytes, start, most);
      ReducedIsHalved(size, maxBytes, start, most);
      var rest := SplitFrom(size, maxBytes, duration, length, end);
      var whole := SplitFrom(size, maxBytes, duration, length, start);
      assert whole == if size(start, end) > maxBytes then None else Prepend([Chunk(start, end)], rest);
      if chunks != [] {
        var c, tail := chunks[0], chunks[1..];
        assert chunks == [c] + tail && forall x :: x in chunks <==> x == c || x in tail;
        if c.start == start { FirstChunk(size, maxBytes, duration, length, start, c); }
        SplitExports(size, maxBytes, duration, length, end, tail);
        assert rest.Some? ==> ([Chunk(start, end)] + rest.value)[1..] == rest.value;
        assert whole == Some(chunks) <==> size(start, end) <= maxBytes && c == Chunk(start, end) && rest == Some(tail);
        assert Tiles(chunks, start, duration) <==> c.start == start < c.end && Tiles(tail, c.end, duration);
        assert c in chunks;
      }
    } else if chunks != [] {
      assert chunks[0] in chunks;
    }
  }

  /** The chunk that starts there is exported exactly when it is what the halving makes of the stretch, and it fits. */
  lemma FirstChunk(size: Encoder, maxBytes: nat, duration: nat, length: nat, start: nat, c: Chunk)
    requires length >= 1000 && start < duration && c.start == start
    ensures Exported(size, maxBytes, duration, length, c) <==>
      c.end == Reduced(size, maxBytes, start, Min(start + length, duration)) && size(start, c.end) <= maxBytes
  {
    var most := Min(start + length, duration);
    ReducedIsHalved(size, maxBytes, start, most);
    if Exported(size, maxBytes, duration, length, c) {
      var h: nat :| HalvedFrom(size, maxBytes, duration, length, c, h);
      HalvedOnce(size, maxBytes, start, most, h, c.end);
    }
    if c.end == Reduced(size, maxBytes, start, most) {
      assert HalvedFrom(size, maxBytes, duration, length, c, Halvings(size, maxBytes, start, most));
    }
  }

  /** The whole file comes back exactly when it fits, and chunks exactly when they tile the duration and each is what
      halving makes of a stretch of the estimated length. */
  lemma SplitExactly(fileSize: nat, maxBytes: nat, duration: nat, size: Encoder, chunks: seq<Chunk>)
    ensures Split(fileSize, maxBytes, duration, size) == Whole <==> fileSize <= maxBytes
    ensures Split(fileSize, maxBytes, duration, size) == Chunks(chunks) <==>
      && fileSize > maxBytes && Tiles(chunks, 0, duration)
      && forall c :: c in chunks ==>
           Exported(size, maxBytes, duration, ChunkLength(duration, maxBytes, fileSize), c)
  {
    if fileSize > maxBytes {
      SplitExports(size, maxBytes, duration, ChunkLength(duration, maxBytes, fileSize), 0, chunks);
    }
  }

  // ---------- transcribe ----------

  datatype Heard = Text(text: string) | Failed(error: string)

  function TextOf(h: Heard): string { if h.Text? then h.text else "" }

  function Transcripts(chunks: seq<Chunk>, hear: Chunk -> Heard): (texts: seq<string>)
    ensures |texts| == |chunks|
    ensures forall i :: 0 <= i < |chunks| && hear(chunks[i]).Text? ==> hear(chunks[i]) == Text(texts[i])
  {
    seq(|chunks|, i requires 0 <= i < |chunks| => TextOf(hear(chunks[i])))
  }

  /** Jobs finish in any order, `order`; the results are read back in chunk order, the first failing chunk deciding. */
  method Transcribe(chunks: seq<Chunk>, order: seq<nat>, hear: Chunk -> Heard) returns (r: Result<string, string>)
    requires forall i :: i in order <==> i < |chunks|
    ensures r.Success? ==> (forall i :: 0 <= i < |chunks| ==> hear(chunks[i]).Text?)
    ensures r.Success? ==> r.value == Names.Join(Transcripts(chunks, hear), " ")
    ensures r.Failure? ==> exists k :: 0 <= k < |chunks| && FirstFailure(chunks, hear, k, r.error)
  {
    var futures: map<nat, Heard> := map[];
    for j := 0 to |order|
      invariant forall i :: i in futures <==> i in order[..j]
      invariant forall i :: i in futures ==> i < |chunks| && futures[i] == hear(chunks[i])
    {
      assert order[j] in order;
      assert order[..j + 1] == order[..j] + [order[j]];
      futures := futures[order[j] := hear(chunks[order[j]])];
    }
    assert order[..|order|] == order;
    var results: seq<string> := [];
    for i := 0 to |chunks|
      invariant |results| == i
      invariant forall n :: 0 <= n < i ==> hear(chunks[n]) == Text(results[n])
    {
      assert i in order;
      match futures[i]
      case Text(text) => results := results + [text];
      case Failed(error) =>
        assert FirstFailure(chunks, hear, i, error);
        return Failure(error);
    }
    assert results == Transcripts(chunks, hear);
    r := Success(Names.Join(results, " "));
  }

  ghost predicate FirstFailure(chunks: seq<Chunk>, hear: Chunk -> Heard, k: nat, error: string) requires k < |chunks| {
    hear(chunks[k]) == Failed(error) && forall i :: 0 <= i < k ==> hear(chunks[i]).Text?
  }
}
