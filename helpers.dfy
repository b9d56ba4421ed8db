/** The byte codec of src/lib/helpers.ts: the UTF-8 size of a string
    (byteLength), the split of its UTF-8 encoding into chunks of a bounded
    size (strToChunks), and the merge of such chunks back into a string
    (chunksToString).
 */
module Helpers {
  import opened Unicode
  import opened Utf8
  import TextCodec

  // ----- byteLength -----

  /** What byteLength adds for one code unit on top of the one byte it
      counts for every unit. */
  function ExtraBytes(code: CodeUnit): (r: nat)
    ensures r <= 2
    ensures r == 0 <==> code <= 0x7F
  {
    if 0x7F < code <= 0x7FF then 1 else if 0x7FF < code <= 0xFFFF then 2 else 0
  }

  /** The sum byteLength adds to str.length, scanning t from its last unit
      towards its first; a trail surrogate also passes over the unit before
      it, whatever that unit is. */
  function ScanExtra(t: seq<CodeUnit>): (r: nat)
    ensures r <= 2 * |t|
    decreases |t|
  {
    if t == [] then 0
    else
      var u := t[|t| - 1];
      ExtraBytes(u) + ScanExtra(if IsTrail(u) && |t| >= 2 then t[..|t| - 2] else t[..|t| - 1])
  }

  /** The same scan, passing over the unit before a trail surrogate only
      when that unit is a lead surrogate. */
  function ScanExtraPaired(t: seq<CodeUnit>): (r: nat)
    ensures r <= 2 * |t|
    decreases |t|
  {
    if t == [] then 0
    else
      var u := t[|t| - 1];
      var paired := IsTrail(u) && |t| >= 2 && IsLead(t[|t| - 2]);
      ExtraBytes(u) + ScanExtraPaired(if paired then t[..|t| - 2] else t[..|t| - 1])
  }

  predicate AllAscii(t: seq<CodeUnit>) { forall k :: 0 <= k < |t| ==> t[k] <= 0x7F }

  lemma {:induction false} ScanExtraAscii(t: seq<CodeUnit>)
    requires AllAscii(t)
    ensures ScanExtra(t) == 0
  {
    if t != [] {
      assert AllAscii(t[..|t| - 1]);
      ScanExtraAscii(t[..|t| - 1]);
    }
  }

  /** The encoded length of a concatenation that does not cut a surrogate pair. */
  lemma EncodedLengthAppend(a: seq<CodeUnit>, b: seq<CodeUnit>)
    requires !(|a| > 0 && |b| > 0 && IsLead(a[|a| - 1]) && IsTrail(b[0]))
    ensures |TextCodec.Encode(a + b)| == |TextCodec.Encode(a)| + |TextCodec.Encode(b)|
  {
    ToScalarsSplit(a, b);
    EncodeScalarsAppend(ToScalars(a), ToScalars(b));
  }

  /** One code unit on its own (a lone surrogate being U+FFFD) encodes to
      1 + ExtraBytes bytes; a surrogate pair encodes to four. */
  lemma EncodedLengthUnits(u: CodeUnit, v: CodeUnit)
    ensures |TextCodec.Encode([u])| == 1 + ExtraBytes(u)
    ensures IsLead(u) && IsTrail(v) ==> |TextCodec.Encode([u, v])| == 4
  {
    assert [u][1..] == [];
    var cs := ToScalars([u]);
    assert EncodeScalars(cs) == EncodeScalar(cs[0]) + EncodeScalars([]);
    if IsLead(u) && IsTrail(v) {
      assert [u, v][2..] == [];
      var ps := ToScalars([u, v]);
      assert ps == [Combine(u, v)];
      assert EncodeScalars(ps) == EncodeScalar(ps[0]) + EncodeScalars([]);
    }
  }

  /** The paired scan counts exactly the bytes TextEncoder produces, for
      every string. */
  lemma {:induction false} ScanExtraPairedLength(t: seq<CodeUnit>)
    ensures |t| + ScanExtraPaired(t) == |TextCodec.Encode(t)|
    decreases |t|
  {
    if t != [] {
      var u := t[|t| - 1];
      if IsTrail(u) && |t| >= 2 && IsLead(t[|t| - 2]) {
        var p := t[..|t| - 2];
        assert t == p + [t[|t| - 2], u];
        EncodedLengthAppend(p, [t[|t| - 2], u]);
        EncodedLengthUnits(t[|t| - 2], u);
        ScanExtraPairedLength(p);
      } else {
        var p := t[..|t| - 1];
        assert t == p + [u];
        EncodedLengthAppend(p, [u]);
        EncodedLengthUnits(u, u);
        ScanExtraPairedLength(p);
      }
    }
  }

  /** A prefix cut that does not split a surrogate pair stays well-formed. */
  lemma WellFormedPrefix(s: seq<CodeUnit>, k: nat)
    requires WellFormed(s) && k <= |s|
    requires 0 < k ==> !IsLead(s[k - 1])
    ensures WellFormed(s[..k])
  {
    var p := s[..k];
    forall i | 0 <= i < |p|
      ensures IsLead(p[i]) ==> i + 1 < |p| && IsTrail(p[i + 1])
      ensures IsTrail(p[i]) ==> 0 < i && IsLead(p[i - 1])
    {
      WellFormedAt(s, i);
    }
  }

  /** On a well-formed string the two scans agree. */
  lemma {:induction false} ScanExtraWellFormed(t: seq<CodeUnit>)
    requires WellFormed(t)
    ensures ScanExtra(t) == ScanExtraPaired(t)
    decreases |t|
  {
    if t != [] {
      var n := |t|;
      var u := t[n - 1];
      WellFormedAt(t, n - 1);
      if IsTrail(u) {
        if n > 2 { WellFormedAt(t, n - 3); }
        WellFormedPrefix(t, n - 2);
        ScanExtraWellFormed(t[..n - 2]);
      } else {
        if n > 1 { WellFormedAt(t, n - 2); }
        WellFormedPrefix(t, n - 1);
        ScanExtraWellFormed(t[..n - 1]);
      }
    }
  }

  /** byteLength. */
  method ByteLength(str: seq<CodeUnit>) returns (s: int)
    ensures s == |str| + ScanExtra(str)
    ensures s >= |str|
    ensures AllAscii(str) ==> s == |str|
    ensures WellFormed(str) ==> s == |TextCodec.Encode(str)|
  {
    s := |str|;
    var i := |str| - 1;
    assert str[..i + 1] == str;
    while i >= 0
      invariant -2 <= i < |str|
      invariant s + ScanExtra(str[..if i >= 0 then i + 1 else 0]) == |str| + ScanExtra(str)
    {
      var code := str[i];
      ghost var rest := if IsTrail(code) && i >= 1 then str[..i - 1] else str[..i];
      assert str[..i + 1][..|str[..i + 1]| - 1] == str[..i];
      assert i >= 1 ==> str[..i + 1][..|str[..i + 1]| - 2] == str[..i - 1];
      assert ScanExtra(str[..i + 1]) == ExtraBytes(code) + ScanExtra(rest);
      if code > 0x7F && code <= 0x7FF {
        s := s + 1;
      } else if code > 0x7FF && code <= 0xFFFF {
        s := s + 2;
      }
      if code >= 0xDC00 && code <= 0xDFFF {
        // a trail surrogate: the unit before it is not looked at
        i := i - 1;
      }
      i := i - 1;
    }
    if AllAscii(str) {
      ScanExtraAscii(str);
    }
    if WellFormed(str) {
      ScanExtraWellFormed(str);
      ScanExtraPairedLength(str);
    }
  }

  /** byteLength with the skip made conditional on the unit before the
      trail surrogate being a lead surrogate. */
  method ByteLengthPaired(str: seq<CodeUnit>) returns (s: int)
    ensures s == |TextCodec.Encode(str)|
  {
    s := |str|;
    var i := |str| - 1;
    assert str[..i + 1] == str;
    while i >= 0
      invariant -1 <= i < |str|
      invariant s + ScanExtraPaired(str[..i + 1]) == |str| + ScanExtraPaired(str)
    {
      var code := str[i];
      var paired := IsTrail(code) && i >= 1 && IsLead(str[i - 1]);
      ghost var rest := if paired then str[..i - 1] else str[..i];
      assert str[..i + 1][..|str[..i + 1]| - 1] == str[..i];
      assert i >= 1 ==> str[..i + 1][..|str[..i + 1]| - 2] == str[..i - 1];
      assert ScanExtraPaired(str[..i + 1]) == ExtraBytes(code) + ScanExtraPaired(rest);
      if code > 0x7F && code <= 0x7FF {
        s := s + 1;
      } else if code > 0x7FF && code <= 0xFFFF {
        s := s + 2;
      }
      if paired {
        i := i - 1;
      }
      i := i - 1;
    }
    ScanExtraPairedLength(str);
  }

  /** Two lone trail surrogates: byteLength counts 4 bytes, TextEncoder
      writes two U+FFFD, 6 bytes. An "é" before a lone trail surrogate:
      byteLength counts 4, TextEncoder writes 5. */
  lemma ByteLengthMiscountsLoneTrail()
    ensures 2 + ScanExtra([0xDC00, 0xDC00]) == 4 && |TextCodec.Encode([0xDC00, 0xDC00])| == 6
    ensures 2 + ScanExtra([0xE9, 0xDC00]) == 4 && |TextCodec.Encode([0xE9, 0xDC00])| == 5
  {
    ScanExtraPairedLength([0xDC00, 0xDC00]);
    ScanExtraPairedLength([0xE9, 0xDC00]);
    assert [0xDC00, 0xDC00][..1] == [0xDC00];
    assert [0xE9, 0xDC00][..1] == [0xE9];
  }

  // ----- strToChunks -----

  /** Math.ceil(n / m) for a whole n and a whole m >= 1: the fewest slices
      of m that hold n. */
  function CeilDiv(n: nat, m: nat): (c: nat)
    requires m >= 1
    ensures m * c >= n
    ensures c > 0 ==> m * (c - 1) < n
    ensures c == 0 <==> n == 0
  {
    var c := (n + m - 1) / m;
    var r := (n + m - 1) % m;
    assert n + m - 1 == m * c + r;
    assert m * (c - 1) == m * c - m;
    c
  }

  function Min(a: int, b: int): (r: int) { if a <= b then a else b }

  /** ArrayBuffer.prototype.slice for non-negative start and end, both
      clamped to the buffer's length. */
  function SliceBuffer(buf: seq<Byte>, start: nat, end: nat): (r: seq<Byte>)
  {
    var first := Min(start, |buf|);
    var final := Min(end, |buf|);
    if first <= final then buf[first..final] else []
  }

  /** A slice holds the bytes from start up to end or the end of the
      buffer, whichever comes first, and none when start is at or past
      either. */
  lemma SliceBufferContents(buf: seq<Byte>, start: nat, end: nat)
    ensures |SliceBuffer(buf, start, end)| == if start < end && start < |buf| then Min(end, |buf|) - start else 0
    ensures forall k :: 0 <= k < |SliceBuffer(buf, start, end)| ==> SliceBuffer(buf, start, end)[k] == buf[start + k]
  {
  }

  /** Where slice i starts: m added up i times. This is m * i
      (OffsetIsProduct); the recursive form keeps the proofs about the
      loop of strToChunks free of nonlinear arithmetic. */
  function Offset(m: nat, i: nat): (r: nat)
  {
    if i == 0 then 0 else Offset(m, i - 1) + m
  }

  lemma {:induction false} OffsetIsProduct(m: nat, i: nat)
    ensures Offset(m, i) == m * i
  {
    if i > 0 {
      OffsetIsProduct(m, i - 1);
      assert m * i == m * (i - 1) + m;
    }
  }

  lemma {:induction false} OffsetMonotone(m: nat, a: nat, b: nat)
    requires a <= b
    ensures Offset(m, a) <= Offset(m, b)
    decreases b - a
  {
    if a < b {
      OffsetMonotone(m, a, b - 1);
    }
  }

  /** slices slices of m bytes reach past n, and one fewer would not. */
  predicate Covers(n: nat, m: nat, slices: nat)
  {
    n <= Offset(m, slices) && (slices > 0 ==> Offset(m, slices - 1) < n)
  }

  lemma CeilDivCovers(n: nat, m: nat)
    requires m >= 1
    ensures Covers(n, m, CeilDiv(n, m))
  {
    var c := CeilDiv(n, m);
    OffsetIsProduct(m, c);
    if c > 0 {
      OffsetIsProduct(m, c - 1);
    }
  }

  /** Chunk j of a split of enc into slices chunks of at most m bytes: not
      empty, at most m bytes, exactly m unless it is the last, and the
      bytes of enc from Offset(m, j) on. */
  predicate ChunkOk(enc: seq<Byte>, m: nat, slices: nat, j: nat, c: seq<Byte>)
  {
    && 0 < |c| <= m
    && (j < slices - 1 ==> |c| == m)
    && Offset(m, j) + |c| <= |enc|
    && c == enc[Offset(m, j) .. Offset(m, j) + |c|]
  }

  /** Slice i of a split into slices pieces: it runs from Offset(m, i) to
      Offset(m, i + 1) or the end of the buffer, and it is not empty. */
  lemma SliceAt(enc: seq<Byte>, m: nat, i: nat, slices: nat)
    requires m >= 1 && Covers(|enc|, m, slices) && i < slices
    ensures Offset(m, i) < Min(Offset(m, i + 1), |enc|) <= |enc|
    ensures SliceBuffer(enc, Offset(m, i), Offset(m, i) + m) == enc[Offset(m, i) .. Min(Offset(m, i + 1), |enc|)]
    ensures i < slices - 1 ==> Offset(m, i + 1) <= |enc|
  {
    OffsetMonotone(m, i, slices - 1);
    if i < slices - 1 {
      OffsetMonotone(m, i + 1, slices - 1);
    }
  }

  /** A slice that starts inside the buffer: where it lies and how long it is. */
  lemma ChunkFacts(enc: seq<Byte>, m: nat, i: nat, slices: nat)
    requires m >= 1 && Covers(|enc|, m, slices) && i < slices
    ensures Offset(m, i) < |enc|
    ensures ChunkOk(enc, m, slices, i, SliceBuffer(enc, Offset(m, i), Offset(m, i) + m))
  {
    SliceAt(enc, m, i, slices);
  }

  /** The first k slices strToChunks takes from enc, in order. */
  function Slices(enc: seq<Byte>, m: nat, k: nat): (r: seq<seq<Byte>>)
    ensures |r| == k
  {
    if k == 0 then [] else Slices(enc, m, k - 1) + [SliceBuffer(enc, Offset(m, k - 1), Offset(m, k - 1) + m)]
  }

  lemma FlattenPush(chunks: seq<seq<Byte>>, c: seq<Byte>)
    ensures Flatten(chunks + [c]) == Flatten(chunks) + c
  {
    assert (chunks + [c])[..|chunks|] == chunks;
  }

  /** Appending the next run of bytes of enc to a merged prefix of enc. */
  lemma PushChunkFlatten(enc: seq<Byte>, chunks: seq<seq<Byte>>, c: seq<Byte>, start: nat, end: nat)
    requires start <= end <= |enc|
    requires Flatten(chunks) == enc[..start]
    requires c == enc[start..end]
    ensures Flatten(chunks + [c]) == enc[..end]
  {
    FlattenPush(chunks, c);
    assert enc[..end] == enc[..start] + enc[start..end];
  }

  /** The first k slices, merged, are the first k * m bytes of enc (or all of it). */
  lemma {:induction false} SlicesFlatten(enc: seq<Byte>, m: nat, slices: nat, k: nat)
    requires m >= 1 && Covers(|enc|, m, slices) && k <= slices
    ensures Flatten(Slices(enc, m, k)) == enc[..Min(Offset(m, k), |enc|)]
  {
    if k > 0 {
      SlicesFlatten(enc, m, slices, k - 1);
      var c := SliceBuffer(enc, Offset(m, k - 1), Offset(m, k - 1) + m);
      var start, end := Offset(m, k - 1), Min(Offset(m, k), |enc|);
      SliceAt(enc, m, k - 1, slices);
      PushChunkFlatten(enc, Slices(enc, m, k - 1), c, start, end);
    }
  }

  /** Each of the first k slices is a chunk as ChunkOk describes it. */
  lemma {:induction false} SlicesOk(enc: seq<Byte>, m: nat, slices: nat, k: nat)
    requires m >= 1 && Covers(|enc|, m, slices) && k <= slices
    ensures forall j :: 0 <= j < k ==> ChunkOk(enc, m, slices, j, Slices(enc, m, k)[j])
  {
    if k > 0 {
      SlicesOk(enc, m, slices, k - 1);
      ChunkFacts(enc, m, k - 1, slices);
      var prev, next := Slices(enc, m, k - 1), Slices(enc, m, k);
      forall j | 0 <= j < k
        ensures ChunkOk(enc, m, slices, j, next[j])
      {
        if j < k - 1 {
          assert next[j] == prev[j];
        }
      }
    }
  }

  /** Every chunk has between 1 and m bytes, and exactly m unless it is the last. */
  predicate SizedChunks(m: nat, chunks: seq<seq<Byte>>)
  {
    && (forall i :: 0 <= i < |chunks| ==> 0 < |chunks[i]| <= m)
    && (forall i :: 0 <= i < |chunks| - 1 ==> |chunks[i]| == m)
  }

  /** Byte k of chunk i is byte Offset(m, i) + k of enc, that is byte m * i + k. */
  predicate ChunksOf(enc: seq<Byte>, m: nat, chunks: seq<seq<Byte>>)
  {
    forall i, k {:trigger chunks[i][k]} :: 0 <= i < |chunks| && 0 <= k < |chunks[i]| ==>
      Offset(m, i) + k < |enc| && chunks[i][k] == enc[Offset(m, i) + k]
  }

  /** The slices of a byte string are sized as SizedChunks says. */
  lemma SplitSizes(enc: seq<Byte>, m: nat, chunks: seq<seq<Byte>>)
    requires m >= 1 && chunks == Slices(enc, m, CeilDiv(|enc|, m))
    ensures SizedChunks(m, chunks)
  {
    var slices := CeilDiv(|enc|, m);
    CeilDivCovers(|enc|, m);
    SlicesOk(enc, m, slices, slices);
    forall j | 0 <= j < slices
      ensures 0 < |chunks[j]| <= m && (j < slices - 1 ==> |chunks[j]| == m)
    {
      assert ChunkOk(enc, m, slices, j, chunks[j]);
    }
  }

  lemma ChunkBytes(enc: seq<Byte>, m: nat, slices: nat, j: nat, c: seq<Byte>)
    requires ChunkOk(enc, m, slices, j, c)
    ensures forall k :: 0 <= k < |c| ==> Offset(m, j) + k < |enc| && c[k] == enc[Offset(m, j) + k]
  {
  }

  /** The slices of a byte string hold its bytes in order, as ChunksOf says. */
  lemma SplitContents(enc: seq<Byte>, m: nat, chunks: seq<seq<Byte>>)
    requires m >= 1 && chunks == Slices(enc, m, CeilDiv(|enc|, m))
    ensures ChunksOf(enc, m, chunks)
  {
    var slices := CeilDiv(|enc|, m);
    CeilDivCovers(|enc|, m);
    SlicesOk(enc, m, slices, slices);
    forall j | 0 <= j < slices
      ensures forall k :: 0 <= k < |chunks[j]| ==> Offset(m, j) + k < |enc| && chunks[j][k] == enc[Offset(m, j) + k]
    {
      ChunkBytes(enc, m, slices, j, chunks[j]);
    }
  }

  /** The slices of a byte string, merged, are the byte string. */
  lemma SplitFlatten(enc: seq<Byte>, m: nat, chunks: seq<seq<Byte>>)
    requires m >= 1 && chunks == Slices(enc, m, CeilDiv(|enc|, m))
    ensures Flatten(chunks) == enc
  {
    var slices := CeilDiv(|enc|, m);
    CeilDivCovers(|enc|, m);
    SlicesFlatten(enc, m, slices, slices);
    assert enc[..|enc|] == enc;
  }

  /** strToChunks. */
  method StrToChunks(str: seq<CodeUnit>, maxChunkSize: nat) returns (chunks: seq<seq<Byte>>)
    requires maxChunkSize >= 1
    ensures |chunks| == CeilDiv(|TextCodec.Encode(str)|, maxChunkSize)
    ensures |chunks| == 0 <==> |str| == 0
    ensures SizedChunks(maxChunkSize, chunks)
    ensures ChunksOf(TextCodec.Encode(str), maxChunkSize, chunks)
    ensures Flatten(chunks) == TextCodec.Encode(str)
  {
    var columnsEnc := TextCodec.Encode(str);
    var slices := CeilDiv(|columnsEnc|, maxChunkSize);
    chunks := [];
    var i := 0;
    while i < slices
      invariant 0 <= i <= slices
      invariant chunks == Slices(columnsEnc, maxChunkSize, i)
    {
      var startPos := maxChunkSize * i;
      OffsetIsProduct(maxChunkSize, i);
      var chunkData := SliceBuffer(columnsEnc, startPos, startPos + maxChunkSize);
      chunks := chunks + [chunkData];
      i := i + 1;
    }
    SplitSizes(columnsEnc, maxChunkSize, chunks);
    SplitContents(columnsEnc, maxChunkSize, chunks);
    SplitFlatten(columnsEnc, maxChunkSize, chunks);
    TextCodec.EncodeEmpty(str);
  }

  /** The sum of the chunks' byte lengths. */
  function TotalLength(chunks: seq<seq<Byte>>): (r: nat)
    decreases |chunks|
  {
    if chunks == [] then 0 else TotalLength(chunks[..|chunks| - 1]) + |chunks[|chunks| - 1]|
  }

  /** The bytes of all chunks, in order. */
  function Flatten(chunks: seq<seq<Byte>>): (r: seq<Byte>)
    decreases |chunks|
  {
    if chunks == [] then [] else Flatten(chunks[..|chunks| - 1]) + chunks[|chunks| - 1]
  }

  /** The merged bytes are as many as the chunks hold together. */
  lemma {:induction false} FlattenLength(chunks: seq<seq<Byte>>)
    ensures |Flatten(chunks)| == TotalLength(chunks)
    decreases |chunks|
  {
    if chunks != [] {
      FlattenLength(chunks[..|chunks| - 1]);
    }
  }

  /** Merging two runs of chunks one after the other gives the merge of all
      of them: only the order of the bytes matters, not where a run ends. */
  lemma {:induction false} FlattenAppend(a: seq<seq<Byte>>, b: seq<seq<Byte>>)
    ensures Flatten(a + b) == Flatten(a) + Flatten(b)
    decreases |b|
  {
    if b == [] {
      assert a + b == a;
    } else {
      var init := b[..|b| - 1];
      assert (a + b)[..|a + b| - 1] == a + init;
      FlattenAppend(a, init);
    }
  }

  // ----- chunksToString -----

  lemma {:induction false} TotalLengthPrefix(chunks: seq<seq<Byte>>, k: nat)
    requires k <= |chunks|
    ensures TotalLength(chunks[..k]) <= TotalLength(chunks)
    decreases |chunks|
  {
    if k < |chunks| {
      var init := chunks[..|chunks| - 1];
      assert init[..k] == chunks[..k];
      TotalLengthPrefix(init, k);
    } else {
      assert chunks[..k] == chunks;
    }
  }

  /** The two loops of chunksToString: the total length, then each chunk
      copied into the merged buffer at the running offset. */
  method MergeChunks(chunks: seq<seq<Byte>>) returns (mergedArr: array<Byte>)
    ensures fresh(mergedArr)
    ensures mergedArr.Length == TotalLength(chunks)
    ensures mergedArr[..] == Flatten(chunks)
  {
    var arrLength := 0;
    var k := 0;
    while k < |chunks|
      invariant 0 <= k <= |chunks|
      invariant arrLength == TotalLength(chunks[..k])
    {
      assert chunks[..k + 1][..k] == chunks[..k];
      arrLength := arrLength + |chunks[k]|;
      k := k + 1;
    }
    assert chunks[..|chunks|] == chunks;

    mergedArr := new Byte[arrLength];
    var offset := 0;
    k := 0;
    while k < |chunks|
      invariant 0 <= k <= |chunks|
      invariant offset == TotalLength(chunks[..k]) <= mergedArr.Length
      invariant mergedArr[..offset] == Flatten(chunks[..k])
    {
      var chunk := chunks[k];
      assert chunks[..k + 1][..k] == chunks[..k];
      TotalLengthPrefix(chunks, k + 1);
      ghost var before := mergedArr[..offset];
      forall j | 0 <= j < |chunk| {
        mergedArr[offset + j] := chunk[j];
      }
      assert mergedArr[..offset + |chunk|] == before + chunk;
      offset := offset + |chunk|;
      k := k + 1;
    }
  }

  /** chunksToString: `new TextDecoder()` applied to the merged bytes. */
  method ChunksToString(chunks: seq<seq<Byte>>) returns (r: seq<CodeUnit>)
    ensures r == TextCodec.Decode(Flatten(chunks), false)
  {
    var mergedArr := MergeChunks(chunks);
    r := TextCodec.Decode(mergedArr[..], false);
  }

  /** chunksToString with `new TextDecoder("utf-8", { ignoreBOM: true })`. */
  method ChunksToStringKeepBom(chunks: seq<seq<Byte>>) returns (r: seq<CodeUnit>)
    ensures r == TextCodec.Decode(Flatten(chunks), true)
  {
    var mergedArr := MergeChunks(chunks);
    r := TextCodec.Decode(mergedArr[..], true);
  }

  /** chunksToString(strToChunks(str, maxChunkSize)): a well-formed string
      comes back for every chunk size, except that a leading U+FEFF is lost. */
  method RoundTrip(str: seq<CodeUnit>, maxChunkSize: nat) returns (r: seq<CodeUnit>)
    requires maxChunkSize >= 1
    ensures WellFormed(str) ==> r == if TextCodec.StartsWithBom(str) then str[1..] else str
  {
    var chunks := StrToChunks(str, maxChunkSize);
    r := ChunksToString(chunks);
    if WellFormed(str) {
      TextCodec.DecodeEncodeDefault(str);
    }
  }

  /** The same round trip through ChunksToStringKeepBom: every well-formed
      string comes back unchanged, and any other string comes back with its
      lone surrogates replaced by U+FFFD. */
  method RoundTripKeepBom(str: seq<CodeUnit>, maxChunkSize: nat) returns (r: seq<CodeUnit>)
    requires maxChunkSize >= 1
    ensures r == FromScalars(ToScalars(str))
    ensures WellFormed(str) ==> r == str
  {
    var chunks := StrToChunks(str, maxChunkSize);
    r := ChunksToStringKeepBom(chunks);
    TextCodec.DecodeEncodeKeepBom(str);
  }
}
