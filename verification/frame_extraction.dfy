/** Frame extraction of the video endpoint (`video_to_images` in
    videotoimage_app/views.py): the seek schedule computed from the frame count
    and the integer frame rate, the early stop on the first failed read, the
    row crop, and the sequential file names the frames are saved under. */
module FrameExtraction {
  import opened PyOps

  /** One pixel row; pixel values are opaque to the extraction. */
  type Row = seq<int>

  /** A decoded frame as a list of rows (numpy's first axis). */
  datatype Image = Image(rows: seq<Row>)

  /** The opened capture as the extraction sees it: whether it opened, the
      frame count and frame rate after `int(...)`, and the decoder's answer to
      "seek to this index, then read one frame" (None when the read fails). */
  datatype Video = Video(isOpened: bool, totalFrames: int, frameRate: int, read: int -> Option<Image>)

  /** The keyword arguments of `video_to_images`. */
  datatype Params = Params(numImages: int, skipSeconds: int, topCrop: int, bottomCrop: int)

  /** The arguments the upload endpoint passes. */
  const UploadParams := Params(30, 2, 50, 50)

  /** A frame written to the output folder: its file name, the frame index it
      was read at, and the stored (cropped) image. */
  datatype SavedFrame = SavedFrame(name: string, sourceIndex: int, image: Image)

  /** The result of one extraction run. */
  datatype Extraction = NotOpened | Extracted(frames: seq<SavedFrame>)

  function StartFrame(v: Video, p: Params): int
  {
    p.skipSeconds * v.frameRate
  }

  function EndFrame(v: Video, p: Params): int
  {
    v.totalFrames - p.skipSeconds * v.frameRate
  }

  /** The distance between two seeks; floor division, never corrected. */
  function Step(v: Video, p: Params): int
    requires p.numImages != 0
  {
    FloorDiv(EndFrame(v, p) - StartFrame(v, p), p.numImages)
  }

  /** The frame index of the k-th seek (0-based). */
  function SeekIndex(v: Video, p: Params, k: nat): int
    requires p.numImages != 0
  {
    StartFrame(v, p) + k * Step(v, p)
  }

  /** Whether the k-th seek yields a frame. */
  predicate ReadOk(v: Video, p: Params, k: nat)
    requires p.numImages != 0
  {
    v.read(SeekIndex(v, p, k)).Some?
  }

  /** `f"frame_{count}.jpg"`. */
  function FrameName(count: nat): string
  {
    "frame_" + Decimal(count) + ".jpg"
  }

  /** Every saved frame passes the upload's `.jpg` filter. */
  lemma FrameNameIsJpg(count: nat)
    ensures EndsWith(FrameName(count), ".jpg")
  {
  }

  /** The stored frame: rows `[top, height - bottom)` under Python's slice
      rules when either margin is positive, otherwise the frame unchanged. */
  function Crop(img: Image, top: int, bottom: int): Image
  {
    if top > 0 || bottom > 0 then Image(PySlice(img.rows, top, |img.rows| - bottom)) else img
  }

  /** What the crop keeps: nothing is cut without a positive margin; margins
      that fit keep exactly the middle rows; margins that cover the frame keep
      none; a bottom margin above the height makes the stop negative, which
      Python counts from the end, so rows up to `2*height - bottom` are kept;
      in every case the length is that of the normalised slice bounds, and
      every kept row is a whole original row. */
  lemma CropRows(img: Image, top: int, bottom: int)
    ensures top <= 0 && bottom <= 0 ==> Crop(img, top, bottom) == img
    ensures (top > 0 || bottom > 0) && 0 <= top && 0 <= bottom && top + bottom <= |img.rows| ==>
              Crop(img, top, bottom).rows == img.rows[top..|img.rows| - bottom]
    ensures 0 <= top && 0 <= bottom && top + bottom >= |img.rows| && bottom <= |img.rows| ==>
              Crop(img, top, bottom).rows == []
    ensures 0 <= top && |img.rows| < bottom ==>
              var stop := 2 * |img.rows| - bottom;
              Crop(img, top, bottom).rows == if top < stop then img.rows[top..stop] else []
    ensures top > 0 || bottom > 0 ==>
              var lo, hi := SliceBound(top, |img.rows|), SliceBound(|img.rows| - bottom, |img.rows|);
              |Crop(img, top, bottom).rows| == if lo < hi then hi - lo else 0
    ensures |Crop(img, top, bottom).rows| <= |img.rows|
    ensures forall k :: 0 <= k < |Crop(img, top, bottom).rows| ==> Crop(img, top, bottom).rows[k] in img.rows
  {
    var r := Crop(img, top, bottom);
    if top > 0 || bottom > 0 {
      forall k | 0 <= k < |r.rows| ensures r.rows[k] in img.rows {
        assert r.rows[k] == img.rows[SliceBound(top, |img.rows|) + k];
      }
    }
  }

  /** The upload's margins of 50 rows: frames of at least 100 rows keep their
      middle rows, shorter frames keep none. */
  lemma UploadCrop(img: Image)
    ensures var kept := Crop(img, UploadParams.topCrop, UploadParams.bottomCrop).rows;
            kept == if |img.rows| >= 100 then img.rows[50..|img.rows| - 50] else []
  {
    CropRows(img, UploadParams.topCrop, UploadParams.bottomCrop);
  }

  /** The saved frame was read at its source index and holds the crop of
      that read. */
  predicate ReadAndCropped(v: Video, p: Params, f: SavedFrame)
  {
    v.read(f.sourceIndex).Some? && f.image == Crop(v.read(f.sourceIndex).value, p.topCrop, p.bottomCrop)
  }

  /** The frame index after n additions of `step` to `frameIndex`. */
  function Advance(frameIndex: int, step: int, n: nat): int
    decreases n
  {
    if n == 0 then frameIndex else Advance(frameIndex + step, step, n - 1)
  }

  /** The first n frame indices the loop visits from `frameIndex`. */
  function Visited(frameIndex: int, step: int, n: nat): seq<int>
    decreases n
  {
    if n == 0 then [] else [frameIndex] + Visited(frameIndex + step, step, n - 1)
  }

  /** The names of n frames saved from counter value `count` on. */
  function FrameNames(count: nat, n: nat): seq<string>
    decreases n
  {
    if n == 0 then [] else [FrameName(count)] + FrameNames(count + 1, n - 1)
  }

  lemma {:induction false} FrameNamesClosedForm(count: nat, n: nat)
    ensures |FrameNames(count, n)| == n
    ensures forall j :: 0 <= j < n ==> FrameNames(count, n)[j] == FrameName(count + j)
    decreases n
  {
    if n > 0 {
      FrameNamesClosedForm(count + 1, n - 1);
    }
  }

  /** The frame indices the saved frames were read at. */
  function SourceIndices(saved: seq<SavedFrame>): seq<int>
  {
    seq(|saved|, j requires 0 <= j < |saved| => saved[j].sourceIndex)
  }

  /** The extraction loop from the state `count`, `frameIndex` onwards. */
  function SaveFrom(v: Video, p: Params, step: int, count: nat, frameIndex: int): (saved: seq<SavedFrame>)
    ensures |saved| <= if count < p.numImages then p.numImages - count else 0
    ensures SourceIndices(saved) == Visited(frameIndex, step, |saved|)
    ensures Names(saved) == FrameNames(count, |saved|)
    ensures forall j :: 0 <= j < |saved| ==> ReadAndCropped(v, p, saved[j])
    ensures count + |saved| < p.numImages ==> v.read(Advance(frameIndex, step, |saved|)).None?
    decreases p.numImages - count
  {
    if count >= p.numImages then []
    else
      match v.read(frameIndex)
      case None => []
      case Some(img) =>
        var rest := SaveFrom(v, p, step, count + 1, frameIndex + step);
        var saved := [SavedFrame(FrameName(count), frameIndex, Crop(img, p.topCrop, p.bottomCrop))] + rest;
        assert forall j :: 1 <= j < |saved| ==> saved[j] == rest[j - 1];
        assert SourceIndices(saved) == [frameIndex] + SourceIndices(rest);
        assert Names(saved) == [FrameName(count)] + Names(rest);
        saved
  }

  /** Repeated addition is multiplication: the j-th visited index is
      `frameIndex + j * step`. */
  lemma {:induction false} VisitedClosedForm(frameIndex: int, step: int, n: nat)
    ensures |Visited(frameIndex, step, n)| == n
    ensures forall j :: 0 <= j < n ==> Visited(frameIndex, step, n)[j] == frameIndex + j * step
    ensures Advance(frameIndex, step, n) == frameIndex + n * step
    decreases n
  {
    if n > 0 {
      VisitedClosedForm(frameIndex + step, step, n - 1);
      assert (n - 1) * step + step == n * step;
      forall j | 1 <= j < n ensures (j - 1) * step + step == j * step {
      }
    }
  }

  /** `video_to_images`: nothing when the capture did not open; otherwise
      frames at seeks 0, 1, ... until `numImages` are saved or a read fails. */
  function VideoToImages(v: Video, p: Params): (r: Extraction)
    requires p.numImages != 0
    ensures !v.isOpened <==> r == NotOpened
    ensures r.Extracted? ==> |r.frames| <= if p.numImages > 0 then p.numImages else 0
    ensures r.Extracted? ==> forall k :: 0 <= k < |r.frames| ==>
              && r.frames[k].sourceIndex == SeekIndex(v, p, k)
              && r.frames[k].name == FrameName(k)
              && ReadOk(v, p, k)
              && r.frames[k].image == Crop(v.read(SeekIndex(v, p, k)).value, p.topCrop, p.bottomCrop)
    ensures r.Extracted? && |r.frames| < p.numImages ==> !ReadOk(v, p, |r.frames|)
  {
    if !v.isOpened then NotOpened
    else
      var frames := SaveFrom(v, p, Step(v, p), 0, StartFrame(v, p));
      SavedAtSeeks(v, p, frames);
      Extracted(frames)
  }

  /** The loop started at seek 0 saves the k-th frame from the k-th seek. */
  lemma SavedAtSeeks(v: Video, p: Params, frames: seq<SavedFrame>)
    requires p.numImages != 0
    requires frames == SaveFrom(v, p, Step(v, p), 0, StartFrame(v, p))
    ensures forall k :: 0 <= k < |frames| ==>
              && frames[k].sourceIndex == SeekIndex(v, p, k)
              && frames[k].name == FrameName(k)
              && ReadOk(v, p, k)
              && frames[k].image == Crop(v.read(SeekIndex(v, p, k)).value, p.topCrop, p.bottomCrop)
    ensures |frames| < p.numImages ==> !ReadOk(v, p, |frames|)
  {
    var start, step := StartFrame(v, p), Step(v, p);
    VisitedClosedForm(start, step, |frames|);
    FrameNamesClosedForm(0, |frames|);
    forall k | 0 <= k < |frames|
      ensures frames[k].name == FrameName(k)
      ensures frames[k].sourceIndex == SeekIndex(v, p, k)
      ensures ReadOk(v, p, k)
      ensures frames[k].image == Crop(v.read(SeekIndex(v, p, k)).value, p.topCrop, p.bottomCrop)
    {
      assert SourceIndices(frames)[k] == frames[k].sourceIndex;
      assert Names(frames)[k] == frames[k].name;
      assert ReadAndCropped(v, p, frames[k]);
    }
  }

  /** When exactly the first r seeks succeed (or at least the first r, if r
      reaches `numImages`), the number of saved frames is min(numImages, r). */
  lemma {:induction false} SavedCountIsMin(v: Video, p: Params, r: nat)
    requires v.isOpened && p.numImages > 0
    requires forall k :: 0 <= k < r ==> ReadOk(v, p, k)
    requires r < p.numImages ==> !ReadOk(v, p, r)
    ensures |VideoToImages(v, p).frames| == if r < p.numImages then r else p.numImages
  {
    var n := |VideoToImages(v, p).frames|;
    if n < p.numImages {
      assert !ReadOk(v, p, n);
    }
  }

  /** A span (end - start) in [0, numImages) gives step 0: every seek lands
      on the start frame. */
  lemma ShortSpanRepeatsStart(v: Video, p: Params, k: nat)
    requires p.numImages > 0
    requires 0 <= EndFrame(v, p) - StartFrame(v, p) < p.numImages
    ensures Step(v, p) == 0
    ensures SeekIndex(v, p, k) == StartFrame(v, p)
  {
  }

  /** A negative span (the video is shorter than both skipped margins) gives a
      negative step: seeks walk backwards from the start frame. */
  lemma NegativeSpanWalksBack(v: Video, p: Params, k: nat)
    requires p.numImages > 0
    requires EndFrame(v, p) < StartFrame(v, p)
    ensures Step(v, p) < 0
    ensures SeekIndex(v, p, k + 1) < SeekIndex(v, p, k)
  {
  }

  lemma MulMonotone(a: int, b: int, c: int)
    requires 0 <= a <= b && 0 <= c
    ensures a * c <= b * c
  {
  }

  /** A span of at least numImages frames gives strictly increasing seeks
      that all lie in [start, end). */
  lemma {:induction false} LongSpanStaysInWindow(v: Video, p: Params, k: nat)
    requires p.numImages > 0
    requires EndFrame(v, p) - StartFrame(v, p) >= p.numImages
    requires k < p.numImages
    ensures Step(v, p) >= 1
    ensures StartFrame(v, p) <= SeekIndex(v, p, k) < EndFrame(v, p)
    ensures SeekIndex(v, p, k) < SeekIndex(v, p, k + 1)
  {
    var span := EndFrame(v, p) - StartFrame(v, p);
    var step := Step(v, p);
    assert p.numImages * step <= span < p.numImages * step + p.numImages;
    if step < 1 {
      MulMonotone(step, 0, p.numImages);
      assert false;
    }
    MulMonotone(k, p.numImages - 1, step);
    MulMonotone(0, k, step);
    assert (p.numImages - 1) * step == p.numImages * step - step;
  }

  /** Distinct extraction counters give distinct file names, so one run never
      overwrites its own frames. */
  lemma FrameNamesDistinct(i: nat, j: nat)
    requires i != j
    ensures FrameName(i) != FrameName(j)
  {
    var a := FrameName(i);
    var b := FrameName(j);
    assert a[6..|a| - 4] == Decimal(i);
    assert b[6..|b| - 4] == Decimal(j);
    DecimalInjective(i, j);
  }

  /** The file names of a list of saved frames. */
  function Names(frames: seq<SavedFrame>): seq<string>
  {
    seq(|frames|, k requires 0 <= k < |frames| => frames[k].name)
  }

  predicate NamesDistinct(frames: seq<SavedFrame>)
  {
    forall i, j :: 0 <= i < j < |frames| ==> frames[i].name != frames[j].name
  }

  /** `cv2.imwrite` of every saved frame, in order, into a folder (file name
      to image); files already in the folder are overwritten or kept. */
  function WriteFrames(folder: map<string, Image>, frames: seq<SavedFrame>): (r: map<string, Image>)
    ensures r.Keys == folder.Keys + (set n | n in Names(frames))
    ensures forall n :: n in folder && n !in Names(frames) ==> n in r && r[n] == folder[n]
    ensures NamesDistinct(frames) ==>
              forall k :: 0 <= k < |frames| ==> frames[k].name in r && r[frames[k].name] == frames[k].image
    decreases |frames|
  {
    if |frames| == 0 then folder
    else
      assert Names(frames) == [frames[0].name] + Names(frames[1..]);
      WriteFrames(folder[frames[0].name := frames[0].image], frames[1..])
  }

  /** The output folder after `video_to_images`: unchanged when the capture
      did not open; otherwise frame_k.jpg holds the k-th saved frame and every
      other file (a stale frame of an earlier, longer run among them) is left
      as it was. */
  function ExtractIntoFolder(v: Video, p: Params, folder: map<string, Image>): (after: map<string, Image>)
    requires p.numImages != 0
    ensures !v.isOpened ==> after == folder
    ensures v.isOpened ==>
              var frames := VideoToImages(v, p).frames;
              && after.Keys == folder.Keys + (set n | n in Names(frames))
              && (forall k :: 0 <= k < |frames| ==> FrameName(k) in after && after[FrameName(k)] == frames[k].image)
              && (forall n :: n in folder && n !in Names(frames) ==> n in after && after[n] == folder[n])
  {
    match VideoToImages(v, p)
    case NotOpened => folder
    case Extracted(frames) =>
      forall i, j | 0 <= i < j < |frames| ensures frames[i].name != frames[j].name {
        FrameNamesDistinct(i, j);
      }
      WriteFrames(folder, frames)
  }
}
