/**
 * The appsink's "new-sample" callback of src/appsink.rs: it pulls one decoded
 * RGB sample through a chain of fallible steps and copies its pixels into the
 * shared RGBX frame buffer.
 */
module AppSink {
  import opened Wrappers
  import opened Frame

  /**
   * A sample as the callback sees it, one case per step that can fail:
   * `pull_sample` fails, the sample has no buffer, `map_readable` fails,
   * `as_slice_of::<u8>` fails, or the mapped payload is available as bytes.
   */
  datatype Sample = NoSample | NoBuffer | Unmappable | NotBytes | Mapped(bytes: seq<byte>)

  /** The callback's return value: `Ok(FlowSuccess::Ok)`, `Err(FlowError::Eos)` or `Err(FlowError::Error)`. */
  datatype FlowReturn = Ok | Eos | Error

  /** The message `element_error!` posts on the bus: a `gst::ResourceError::Failed` with its text. */
  datatype ElementError = ResourceFailed(message: string)

  /** How the callback gives up on a sample: the flow it returns and what it posted first. */
  datatype Rejection = Rejection(flow: FlowReturn, posted: Option<ElementError>)

  const NoBufferText: string := "Failed to get buffer from appsink"
  const UnmappableText: string := "Failed to map buffer readable"
  const NotBytesText: string := "Failed to interprete buffer as S16 PCM"

  /**
   * The chain `pull_sample()?`, `buffer().ok_or_else(..)?`, `map_readable()?`,
   * `as_slice_of::<u8>()?`: the payload bytes, or the rejection of the first
   * step that fails.
   */
  function SampleBytes(sample: Sample): (r: Result<seq<byte>, Rejection>)
    ensures r.Success? <==> sample.Mapped?
    ensures r.Success? ==> r.value == sample.bytes
    ensures r.Failure? ==> r.error.flow != Ok
    ensures r.Failure? ==> (r.error.flow == Eos <==> r.error.posted == None)
  {
    match sample
    case NoSample => Failure(Rejection(Eos, None))
    case NoBuffer => Failure(Rejection(Error, Some(ResourceFailed(NoBufferText))))
    case Unmappable => Failure(Rejection(Error, Some(ResourceFailed(UnmappableText))))
    case NotBytes => Failure(Rejection(Error, Some(ResourceFailed(NotBytesText))))
    case Mapped(bytes) => Success(bytes)
  }

  /** Everything one callback produces: its return value, what it posted, and the frame after it. */
  datatype Delivery = Delivery(flow: FlowReturn, posted: Option<ElementError>, frame: seq<byte>)

  /** The effect of one callback on a frame buffer holding `frame`. */
  function OnNewSample(frame: seq<byte>, sample: Sample): (d: Delivery)
    ensures |d.frame| == |frame|
    ensures d.flow == Ok <==> sample.Mapped?
    ensures d.flow == Eos <==> sample.NoSample?
    ensures d.posted.Some? <==> d.flow == Error
    ensures d.flow != Ok ==> d.frame == frame
  {
    match SampleBytes(sample)
    case Failure(rejection) => Delivery(rejection.flow, rejection.posted, frame)
    case Success(bytes) => Delivery(Ok, None, ZipCopy(frame, bytes))
  }

  /** A successful callback writes the colour bytes of every pixel it reaches. */
  lemma DeliveryWritesPixels(frame: seq<byte>, bytes: seq<byte>, i: nat, k: nat)
    requires i < Pixels(frame, bytes) && k < 3
    ensures OnNewSample(frame, Mapped(bytes)).flow == Ok
    ensures OnNewSample(frame, Mapped(bytes)).frame[4 * i + k] == bytes[3 * i + k]
  {
    CopyWritesColour(frame, bytes, i, k);
  }

  /** No callback touches a padding byte. */
  lemma DeliveryKeepsPadding(frame: seq<byte>, sample: Sample, i: nat)
    requires 4 * i + 3 < |frame|
    ensures OnNewSample(frame, sample).frame[4 * i + 3] == frame[4 * i + 3]
  {
    if sample.Mapped? {
      CopyKeepsPadding(frame, sample.bytes, i);
    }
  }

  /** An empty payload is accepted and changes nothing. */
  lemma EmptyPayloadAccepted(frame: seq<byte>)
    ensures OnNewSample(frame, Mapped([])) == Delivery(Ok, None, frame)
  {
    CopyEmpty(frame);
  }

  /** Delivering the same sample twice leaves the buffer as delivering it once. */
  lemma DeliveryIdempotent(frame: seq<byte>, sample: Sample)
    ensures OnNewSample(OnNewSample(frame, sample).frame, sample) == OnNewSample(frame, sample)
  {
    if sample.Mapped? {
      CopyIdempotent(frame, sample.bytes);
    }
  }

  /**
   * `ImageRaw` behind its lock: a fixed array of 176 * 144 * 4 bytes. The
   * write lock is modelled as the exclusive access a method with
   * `modifies image` has.
   */
  class FrameStore {
    const image: array<byte>

    ghost predicate Valid() {
      image.Length == FrameLen
    }

    /** `RwLock::new([0u8; 176 * 144 * 4])`. */
    constructor ()
      ensures Valid() && fresh(image)
      ensures forall j :: 0 <= j < image.Length ==> image[j] == 0
    {
      image := new byte[FrameLen](_ => 0);
    }

    /** The "new-sample" callback. */
    method NewSample(sample: Sample) returns (flow: FlowReturn, posted: Option<ElementError>)
      requires Valid()
      modifies image
      ensures Valid()
      ensures Delivery(flow, posted, image[..]) == OnNewSample(old(image[..]), sample)
    {
      var bytes := SampleBytes(sample);
      if bytes.Failure? {
        return bytes.error.flow, bytes.error.posted;
      }
      var src := bytes.value;
      ghost var before := image[..];
      // Pixel i pairs the destination chunk image[4*i..4*i+4] with src[3*i..3*i+3].
      var i := 0;
      while 4 * (i + 1) <= image.Length && 3 * (i + 1) <= |src|
        invariant 0 <= i <= Pixels(before, src)
        invariant forall j :: 0 <= j < image.Length ==>
          image[j] == if j < 4 * i && j % 4 < 3 then src[3 * (j / 4) + j % 4] else before[j]
      {
        image[4 * i] := src[3 * i];
        image[4 * i + 1] := src[3 * i + 1];
        image[4 * i + 2] := src[3 * i + 2];
        i := i + 1;
      }
      assert i == Pixels(before, src);
      ZipCopyIsPointwise(before, src, image[..]);
      flow, posted := Ok, None;
    }
  }

  /** A fresh store followed by an all-0xFF full frame shows pixels [0xFF, 0xFF, 0xFF, 0x00]. */
  method WhiteFrameScenario() returns (first: seq<byte>)
    ensures first == [0xFF, 0xFF, 0xFF, 0x00]
  {
    var store := new FrameStore();
    var white := seq(Width * Height * SourceBytesPerPixel, _ => 0xFF as byte);
    ghost var zero := store.image[..];
    var flow, posted := store.NewSample(Mapped(white));
    first := store.image[0..4];
    WhiteFrameOnZeroBuffer(zero, white, 0);
  }
}
