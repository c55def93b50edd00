/** `export_animation` without the encoder: which frames are written, in which format, and
    which palette each GIF frame is quantized against. */
module Export {
  import opened Frames
  import opened Wrappers
  import opened Formats
  import opened Lists

  /** GIF frames are quantized in groups of this many, all against the group's first frame. */
  const ChunkSize := 64

  datatype Format = Gif | WebP

  /** A frame as handed to the encoder: unchanged (WebP), or quantized against the adaptive
      palette of another frame (GIF). */
  datatype Written = AsIs(frame: Frame) | Quantized(frame: Frame, palette: Frame)

  datatype Encoding = Encoding(format: Format, images: seq<Written>, durations: seq<int>)

  /** Why nothing was written. */
  datatype ExportError = NoFrames | Cancelled | InvalidFormat

  /** `chunk_frames`: consecutive slices of `ChunkSize` frames, the last one possibly shorter. */
  function Chunks<T>(xs: seq<T>): (r: seq<seq<T>>)
    decreases |xs|
  {
    if xs == [] then []
    else if |xs| <= ChunkSize then [xs]
    else [xs[..ChunkSize]] + Chunks(xs[ChunkSize..])
  }

  function Flatten<T>(xss: seq<seq<T>>): seq<T>
  {
    if xss == [] then [] else xss[0] + Flatten(xss[1..])
  }

  /** Chunking loses and reorders nothing. */
  lemma {:induction false} ChunksFlatten<T>(xs: seq<T>)
    ensures Flatten(Chunks(xs)) == xs
    decreases |xs|
  {
    if |xs| > ChunkSize {
      ChunksFlatten(xs[ChunkSize..]);
      assert Chunks(xs)[1..] == Chunks(xs[ChunkSize..]);
      assert xs[..ChunkSize] + xs[ChunkSize..] == xs;
    }
  }

  /** There are ceil(n / ChunkSize) chunks, and chunk c is the slice starting at frame
      `ChunkSize * c` that is `ChunkSize` long or runs to the end. */
  lemma ChunksAt<T>(xs: seq<T>)
    ensures |Chunks(xs)| == (|xs| + ChunkSize - 1) / ChunkSize
    ensures forall c :: 0 <= c < |Chunks(xs)| ==>
              ChunkSize * c < |xs| && Chunks(xs)[c] == xs[ChunkSize * c .. Min(ChunkSize * c + ChunkSize, |xs|)]
  {
    ChunksCount(xs);
    forall c | 0 <= c < |Chunks(xs)|
      ensures ChunkSize * c < |xs| && Chunks(xs)[c] == xs[ChunkSize * c .. Min(ChunkSize * c + ChunkSize, |xs|)]
    {
      ChunkAt(xs, c);
    }
  }

  lemma {:induction false} ChunksCount<T>(xs: seq<T>)
    ensures |Chunks(xs)| == (|xs| + ChunkSize - 1) / ChunkSize
    decreases |xs|
  {
    if |xs| > ChunkSize {
      ChunksCount(xs[ChunkSize..]);
    }
  }

  lemma {:induction false} ChunkAt<T>(xs: seq<T>, c: nat)
    requires c < |Chunks(xs)|
    ensures ChunkSize * c < |xs| && Chunks(xs)[c] == xs[ChunkSize * c .. Min(ChunkSize * c + ChunkSize, |xs|)]
    decreases c
  {
    if c == 0 {
      assert Chunks(xs)[0] == xs[..Min(ChunkSize, |xs|)];
    } else {
      var rest := xs[ChunkSize..];
      assert Chunks(xs)[c] == Chunks(rest)[c - 1];
      ChunkAt(rest, c - 1);
      assert rest[ChunkSize * (c - 1) .. Min(ChunkSize * (c - 1) + ChunkSize, |rest|)] ==
             xs[ChunkSize * c .. Min(ChunkSize * c + ChunkSize, |xs|)];
    }
  }

  /** The GIF output: frame k is quantized against the palette of the first frame of its chunk. */
  function QuantizedAll(frames: seq<Frame>): (r: seq<Written>)
    ensures |r| == |frames|
  {
    seq(|frames|, k requires 0 <= k < |frames| => Quantized(frames[k], frames[ChunkSize * (k / ChunkSize)]))
  }

  /** Every palette comes from a frame at most `ChunkSize - 1` places earlier in the same chunk,
      and frames of one chunk share one palette. */
  lemma QuantizedPalettes(frames: seq<Frame>, k: int, l: int)
    requires 0 <= k < |frames| && 0 <= l < |frames|
    ensures var r := QuantizedAll(frames); var p := ChunkSize * (k / ChunkSize);
            r[k].frame == frames[k] && r[k].palette == frames[p] &&
            0 <= p <= k < p + ChunkSize &&
            (k / ChunkSize == l / ChunkSize ==> r[l].palette == r[k].palette)
  {
  }

  /** Frames 0 to 63 use frame 0's palette, frame 64 starts a new one. */
  lemma QuantizedExample(frames: seq<Frame>)
    requires |frames| == 65
    ensures QuantizedAll(frames)[63].palette == frames[0]
    ensures QuantizedAll(frames)[64].palette == frames[64]
  {
  }

  /** The GIF branch's loops: every chunk quantized against its first frame, chunk after chunk. */
  method QuantizeChunks(frames: seq<Frame>) returns (out: seq<Written>)
    ensures out == QuantizedAll(frames)
  {
    var chunks := Chunks(frames);
    ChunksAt(frames);
    out := [];
    var c := 0;
    while c < |chunks|
      invariant 0 <= c <= |chunks|
      invariant |out| == Min(ChunkSize * c, |frames|)
      invariant out == QuantizedAll(frames)[..|out|]
    {
      var chunk := chunks[c];
      var base := chunk[0];
      var t := 0;
      ghost var start := |out|;
      while t < |chunk|
        invariant 0 <= t <= |chunk|
        invariant |out| == start + t
        invariant |out| <= |frames| && out == QuantizedAll(frames)[..|out|]
      {
        assert |out| < |frames|;
        assert chunk[t] == frames[start + t];
        assert (start + t) / ChunkSize == c;
        out := out + [Quantized(chunk[t], base)];
        t := t + 1;
      }
      c := c + 1;
    }
  }

  /** `export_animation`. In dual mode the editor exports nothing; an empty sequence is refused;
      a cancelled dialog writes nothing; only `.gif` and `.webp` are written. WebP gets the frames
      as they are, GIF the chunk-quantized frames, both with the whole duration list. */
  function Exported(dual: bool, frames: seq<Frame>, durations: seq<int>, chosen: Option<string>)
    : (r: Result<Encoding, ExportError>)
  {
    if dual || frames == [] then Err(NoFrames)
    else if chosen.None? then Err(Cancelled)
    else if chosen.value !in ExportExtensions then Err(InvalidFormat)
    else if chosen.value == ".webp" then
      Ok(Encoding(WebP, seq(|frames|, k requires 0 <= k < |frames| => AsIs(frames[k])), durations))
    else Ok(Encoding(Gif, QuantizedAll(frames), durations))
  }

  /** An export succeeds exactly for a single, non-empty sequence and an accepted extension; it
      then writes one image per frame, in order, with the sequence's durations. */
  lemma ExportedOutcome(dual: bool, frames: seq<Frame>, durations: seq<int>, chosen: Option<string>)
    ensures var r := Exported(dual, frames, durations, chosen);
            (r.Ok? <==> !dual && frames != [] && chosen.Some? && chosen.value in ExportExtensions) &&
            (r.Ok? ==> |r.value.images| == |frames| && r.value.durations == durations &&
                       (r.value.format == Gif <==> chosen.value == ".gif") &&
                       forall k :: 0 <= k < |frames| ==> r.value.images[k].frame == frames[k]) &&
            ((dual || frames == []) ==> r == Err(NoFrames))
  {
  }

  /** A `.png` path is refused even though `.png` files load. */
  lemma ExportRefusesPng(frames: seq<Frame>, durations: seq<int>)
    requires frames != []
    ensures Exported(false, frames, durations, Some(".png")) == Err(InvalidFormat)
  {
  }
}
