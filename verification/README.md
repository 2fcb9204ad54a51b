# Video frame sampling and majority vote of the middle-ear pathology endpoint

This project models the decision logic of the video upload endpoint in
`videotoimage_app/views.py`. The endpoint has two parts:

- **Frame extraction** (`video_to_images`). It computes `start = skip*fps`,
  `end = total - skip*fps` and `step = (end - start) // num_images`. It seeks to
  `start, start + step, ...` and stops when `num_images` frames are saved or a
  read fails. Each frame is cropped to the rows `[top_crop, height - bottom_crop)`
  and saved as `frame_{count}.jpg`.
- **Classification and vote** (`upload_video`). Every `.jpg` in the output
  folder is classified. The vote of a frame is the first argmax label of
  `class_labels = ['aom', 'csom', 'earwax', 'normal']` together with its
  probability. The votes are counted per label. The most confident frame is
  tracked with a strict `>` that starts from 0. The run is rejected (status 400)
  when any counter exceeds 22. Otherwise the answer is the first label, in
  `class_labels` order, with the maximal count, together with the single best
  frame's confidence.

Modules:

- `PyOps` (`py_ops.dfy`): the Python built-ins the code relies on, written out.
  These are floor division `//` for both divisor signs, slicing `s[i:j]` with
  negative and out-of-range bounds, `str(n)` and `endswith`.
- `FrameExtraction` (`frame_extraction.dfy`): the seek schedule, the loop that
  stops early, the crop, the file names, and the output folder after a run.
- `Voting` (`voting.dfy`): argmax, the `.jpg` filter, the counters, best-frame
  tracking, the winner, and the outcome (`NoVideo`, `Rejected`, `InternalError`,
  `Predicted`) with its HTTP status.
- `VotingProperties` (`voting_properties.dfy`): properties that relate several
  runs, plus the pinned scenarios.

Inputs that stand in for I/O:

- The capture is a `Video`. It records whether the capture opened, the frame
  count and frame rate after `int(...)`, and a pure function `read`. Given a
  seek index, `read` returns the decoded frame, or `None` when the read fails.
- The classifier is replaced by its output. The folder listing is a sequence of
  `ListedFile`s, each holding a file name and the 4-entry probability vector
  for that file.
- Confidences are `real`.

Behaviour of the code worth knowing:

- The overlay text on the returned image uses `best_prediction` (views.py:134,
  145). That variable holds the label of the most confident frame. The
  response's `best_prediction` field is `final_prediction` (views.py:143, 159),
  the label with the most votes. The two can differ. `Predicted.overlayLabel`
  is the per-frame label.
- When the capture fails to open, `video_to_images` prints a message and
  returns (views.py:54-56). The upload then goes on to classify whatever `.jpg`
  files are already in the folder (views.py:121).
- The rejection threshold is 22 (views.py:136), although the comment on the
  line above says 20.
- No frame with confidence above 0 leaves `best_prediction` unbound. The code
  then raises at views.py:145, after the rejection check and after the winner
  is computed. This is the `InternalError` outcome.

## Model

| member | source | states |
|---|---|---|
| PyOps.FloorDiv | videotoimage_app/views.py:51 | `//` rounds towards negative infinity for either divisor sign. The quotient satisfies `b*q <= a < b*q + b` for `b > 0`, and the mirrored bounds for `b < 0`. |
| PyOps.PySlice | videotoimage_app/views.py:76 | Python slicing never exceeds the sequence. It equals `s[i..j]` for in-range bounds and is empty when `0 <= j <= i`. Its length is the gap between the normalised bounds, or 0 when they cross. It is always a contiguous run starting at the normalised lower bound. |
| PyOps.DecimalRoundTrip | videotoimage_app/views.py:79 | The count written into a file name reads back as the same number, so `int(str(n)) == n`. |
| FrameExtraction.CropRows | videotoimage_app/views.py:74-76 | With both margins <= 0 the frame is stored unchanged. Otherwise, for margins inside the height, exactly rows `[top, height-bottom)` are kept. Non-negative margins that cover the frame, with the bottom one at most the height, give no rows. A bottom margin above the height makes the stop negative, so Python counts it from the end and rows `[top, 2*height - bottom)` are kept. The length is always that of the normalised slice bounds. Every kept row is an original row, with all its columns. |
| FrameExtraction.UploadCrop | videotoimage_app/views.py:74-114 | With the margins of 50 that the upload passes (line 114), a frame of at least 100 rows keeps rows `[50, height-50)` and a shorter frame keeps none. |
| FrameExtraction.FrameNameIsJpg | videotoimage_app/views.py:79 | Every frame file name ends with `.jpg`, so the upload's filter picks up every frame a run writes. |
| FrameExtraction.SaveFrom | videotoimage_app/views.py:58-85 | The loop from `(count, frameIndex)` saves at most `num_images - count` frames. The j-th one is read at `frameIndex + j*step` and named `frame_{count+j}.jpg`. Its read succeeded and its image is the crop of that read. The loop stops early only on a failed read. |
| FrameExtraction.VideoToImages | videotoimage_app/views.py:35-89 | It returns `NotOpened` exactly when the capture did not open. Otherwise frame k is read at `skip*fps + k*step`, is named `frame_k.jpg` and holds the crop. At most `num_images` frames are saved. Stopping short means the next seek failed. |
| FrameExtraction.VisitedClosedForm | videotoimage_app/views.py:58-84 | After n passes of `frame_index += step`, the loop has visited `frameIndex + j*step` for j < n and stands at `frameIndex + n*step`. |
| FrameExtraction.FrameNamesClosedForm | videotoimage_app/views.py:79-83 | After n saves starting from `count`, the names written are `frame_{count+j}.jpg` in order. |
| FrameExtraction.SavedAtSeeks | videotoimage_app/views.py:44-85 | Frames saved from the start frame with count 0 are, one by one, the seeks `start + k*step`, named `frame_k.jpg`. |
| FrameExtraction.SavedCountIsMin | videotoimage_app/views.py:62-71 | When reads succeed for exactly the first r seeks, the saved count is `min(num_images, r)`. |
| FrameExtraction.ShortSpanRepeatsStart | videotoimage_app/views.py:44-51 | When `0 <= end - start < num_images`, the step is 0 and every seek lands on the start frame. This is not corrected. |
| FrameExtraction.NegativeSpanWalksBack | videotoimage_app/views.py:44-51 | When the video is shorter than both skipped margins, the step is negative and the seeks move backwards from the start frame. |
| FrameExtraction.LongSpanStaysInWindow | videotoimage_app/views.py:44-51 | When `end - start >= num_images`, the step is at least 1. The first `num_images` seeks strictly increase and all lie in `[start, end)`. |
| FrameExtraction.FrameNamesDistinct | videotoimage_app/views.py:79-80 | Different counts give different file names, so a run never overwrites its own frames. |
| FrameExtraction.WriteFrames | videotoimage_app/views.py:79-80 | Writing the frames adds exactly their names to the folder. Names not written keep their old image. With distinct names, each name holds its frame. |
| FrameExtraction.ExtractIntoFolder | videotoimage_app/views.py:54-80 | A capture that did not open leaves the folder untouched. Otherwise the folder gains exactly the saved frames' names, `frame_k.jpg` holds the k-th saved frame, and every other file is kept. That includes stale frames from an earlier, longer run. |
| Voting.ArgmaxFrom | videotoimage_app/views.py:127 | The scan that replaces its candidate only on a strictly greater value ends at the first position of the maximum. |
| Voting.Argmax | videotoimage_app/views.py:127 | `np.argmax` returns the first index that holds the maximum. |
| Voting.FirstMaxUnique | videotoimage_app/views.py:127 | The first-maximum position is unique, so argmax is deterministic. |
| Voting.Classify | videotoimage_app/views.py:126-129 | The vote's label sits at the first maximal probability, and its confidence is that probability. |
| Voting.JpgFiles | videotoimage_app/views.py:121-122 | A listed file is processed if and only if its name ends with `.jpg`. |
| Voting.JpgFilesAppend | videotoimage_app/views.py:121-122 | The filter keeps listing order: filtering a concatenation gives the filtered parts, concatenated. |
| Voting.JpgFilesSingle | videotoimage_app/views.py:121-122 | A single file is kept exactly when its name ends with `.jpg`. Together with `JpgFilesAppend` this fixes the filtered list. |
| Voting.InitialCounters | videotoimage_app/views.py:117 | Every label starts with a counter of 0. |
| Voting.Tally | videotoimage_app/views.py:117-130 | After the loop, every label has a counter, and it equals the number of votes carrying that label. |
| Voting.TrackBest | videotoimage_app/views.py:118-134 | No best frame exists (and the maximum stays 0) if and only if no confidence exceeds 0. Otherwise the best frame's confidence is positive, at least every other confidence, and strictly greater than every earlier one. |
| Voting.Winner | videotoimage_app/views.py:143 | `max(counters, key=counters.get)` picks a label with the maximal count, and every label earlier in `class_labels` has a strictly smaller count. |
| Voting.Aggregate | videotoimage_app/views.py:135-163 | The outcome is `Rejected` if and only if some count exceeds 22. It is `InternalError` if and only if the run is not rejected and no confidence exceeds 0. `Predicted` carries the first label with the maximal count. It also carries a file whose vote has the maximal, positive confidence, first among equals, and that vote's label as the overlay label. |
| Voting.UploadVideo | videotoimage_app/views.py:103-173 | Without a video file the answer is `NoVideo` (500). Status 400 is returned exactly when a count of the processed `.jpg` files exceeds 22. Status 200 means a prediction, whose annotated image is one of the listed `.jpg` files. |
| Voting.BestImageIsListed | videotoimage_app/views.py:121-134 | The file a prediction annotates is a listed `.jpg` file. |
| VotingProperties.CountersSumToFrames | videotoimage_app/views.py:117-130 | The four counters add up to the number of processed `.jpg` files. |
| VotingProperties.MapMultiset | videotoimage_app/views.py:121-130 | Processing files in another order yields the same results per file, reordered. |
| VotingProperties.JpgFilesCount | videotoimage_app/views.py:121-122 | A file is processed as often as it is listed when its name ends with `.jpg`, and never otherwise. |
| VotingProperties.PermutedVotes | videotoimage_app/views.py:121-130 | Listing the same files in another order yields the same votes, as a multiset. |
| VotingProperties.AggregateOrderIndependent | videotoimage_app/views.py:130-160 | Aggregating the same votes in another order gives the same kind of outcome, the same aggregate label and the same returned confidence. |
| VotingProperties.UploadOrderIndependent | videotoimage_app/views.py:121-160 | The listing order cannot change the status, the aggregate label or the returned confidence. |
| VotingProperties.NonPositiveTransfers | videotoimage_app/views.py:131-145 | Whether some frame beat confidence 0 depends only on which votes occur. |
| VotingProperties.SameCountsSameWinner | videotoimage_app/views.py:143 | Equal counts give the same first-maximal label. |
| VotingProperties.SameVotesSameMax | videotoimage_app/views.py:131-132 | The same votes give the same maximal confidence. |
| VotingProperties.PredictionIgnoresConfidences | videotoimage_app/views.py:130-143 | The rejection and the aggregate label depend only on the frames' labels, never on their confidences. |
| VotingProperties.RejectionExample | videotoimage_app/views.py:136-141 | 23 aom frames and 7 normal frames are rejected with status 400, whatever the confidences. |
| VotingProperties.TieCounts | videotoimage_app/views.py:117-130 | 10 normal, 10 aom and 10 csom frames count 10, 10, 10 and 0 earwax. |
| VotingProperties.TieBreakExample | videotoimage_app/views.py:143 | Take 10 normal, then 10 aom, then 10 csom frames. The run is not rejected, and any prediction is aom, the first of the tied labels in `class_labels` order. |
| VotingProperties.DivergenceCounts | videotoimage_app/views.py:117-130 | Votes aom, aom, normal count 2 aom, 1 normal, 0 for the others. |
| VotingProperties.DivergenceFromVotes | videotoimage_app/views.py:131-160 | Take votes aom 0.5, aom 0.5, normal 0.9. The answer is aom with confidence 0.9, and the annotated frame is the normal one, overlaid with "normal". |
| VotingProperties.ClassifyAt | videotoimage_app/views.py:126-129 | A probability vector whose first maximum is at position i votes for the i-th label with that probability. |
| VotingProperties.DivergentListingAllJpg | videotoimage_app/views.py:121-122 | Three files named `frame_0.jpg` to `frame_2.jpg` are all processed, in listing order. |
| VotingProperties.DivergentListingVotes | videotoimage_app/views.py:126-129 | Outputs peaking at aom (0.5), aom (0.5) and normal (0.9) vote aom 0.5, aom 0.5, normal 0.9. |
| VotingProperties.DivergenceExample | videotoimage_app/views.py:103-160 | From those three classifier outputs the endpoint answers aom with confidence 0.9, annotating `frame_2.jpg` with "normal". |

## Left out

- doctor/views.py and doctor/urls.py: framework CRUD, authentication and routing over an ORM model that is not part of this model. They contain no logic of their own to state.
- The Keras model, `preprocess_image_cv` and `preprocess_image_pil` (views.py:19-32), and `model.predict`: opaque library calls. Their output enters as a 4-entry probability vector per listed file.
- OpenCV decoding: seeking is modelled as a pure function of the frame index. Approximate seeking and decoder state are not modelled.
- The float-to-int truncation of `cap.get(...)` (views.py:40-41): the frame count and frame rate enter as integers.
- `os.listdir` (views.py:121): which files the folder holds, and in what order, is an input. `UploadOrderIndependent` states what the order cannot change.
- The fixed shared paths, the chunked upload write (views.py:107-110), `print`, and `cap.release()`: these are I/O.
- `cv2.imwrite` failing on an empty crop: the model stores the empty image.
- `add_text_overlay`, JPEG and base64 encoding, and writing `best_image.jpg` (views.py:92-99, 148-152): `Predicted` names the annotated file, its overlay label and the confidence, not the rendered bytes.
- Exceptions raised inside inference or decoding: only the unbound `best_prediction` case is modelled, as `InternalError`.
- VideoToImages: requires `num_images != 0`, because the code divides by it (views.py:51) and raises otherwise. A negative `num_images` is modelled, and saves no frames.
- Confidences are `real`, so floating-point rounding, NaN and the `float(...)` conversion at views.py:160 are not modelled.
