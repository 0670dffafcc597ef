# Upload text detector: verified model of its deterministic core

The repository is one AWS Lambda handler, `LambdaFunctionHandler`. When an
image is uploaded to an S3 bucket it fetches the object, decodes it, and asks
Amazon Rekognition whether the word "steve" appears in the image, trying up to
four quarter turns of the image. It publishes the outcome to an SNS topic and
returns it as the string "true" or "false", or returns the object key when
something inside its `try` fails.

This project models the three pieces of deterministic logic in that handler
and proves properties about them:

- `raster.dfy` (module `Raster`): the image as a grid of integer pixels, read
  the way `getRGB(x, y)` reads it. It holds the pixel remap of
  `rotateClockwise90` as a method over `array2<int>` with loop invariants, and
  the value-level turn `Rotate` that specifies it.
- `text_match.dfy` (module `TextMatch`): `steveDetected`, the scan of the
  detected text fragments for one that equals "steve" ignoring case. The
  service's answer is a parameter.
- `handler.dfy` (module `Handler`): the rotate-and-retry loop of
  `handleRequest` as a method over the image array, the spec function
  `SearchFrom` that it is proved against, and `handleRequest` itself with its
  return-value rule and the message of `publishResult`.
- `common.dfy` (module `Common`): `Option` and the `Bytes` type.

Storage, image decoding, JPEG encoding, text detection and publishing are
function parameters of the model (oracles). `fetch` yields the object's bytes
or `None` (an exception). `decode` yields an image or `None`; `ImageIO.read`
returning null makes the next `ImageIO.write` throw, and the model treats that
as a decoding failure. `encode` yields bytes or `None` (an exception).
`detect` takes the number of the call (0 to 3) and the bytes. It yields the
fragments, an `AmazonRekognitionException` (`ServiceError`) or any other
exception (`ClientFailure`). Because each call number occurs at most once per
invocation, any sequence of service answers can be expressed, including an
error on one call and a match on the next call with the same bytes
(`ServiceErrorThenMatch`). `publish` yields whether the publish returned
normally. `fetch`, `decode` and `publish` are called at most once, so nothing
is assumed about repeated answers from them.

Where the code and its own description disagree, the model follows the code:

- The method called `rotateClockwise90` sends the pixel at column x, row y to
  column y, row w-1-x. In image coordinates, where y grows downward, that is a
  counter-clockwise quarter turn. `RotateUndoesClockwise`,
  `ClockwiseUndoesRotate` and `RotateDiffersFromClockwise` prove this. The
  loop still sees all four orientations, because four turns are the identity.
- `event.getRecords().get(0)` and `s3.getObject` run before the `try`. A
  missing record or an object that cannot be fetched therefore makes the
  invocation fail. It does not return the key (`RetrievalFailureIsNotCaught`).
- `publishResult` runs inside the `try`. A failed publish therefore returns
  the key.
- After a miss the loop turns the image even on its fourth iteration. When
  nothing matches, the loop makes 4 detection calls and 4 turns.

## Model

| member | source | states |
|---|---|---|
| `Raster.Rotate` | src/main/java/com/amazonaws/lambda/demo/LambdaFunctionHandler.java:139-141 | a turned w-by-h image is h wide and w high |
| `Raster.RotateMapsPixels` | src/main/java/com/amazonaws/lambda/demo/LambdaFunctionHandler.java:142-144 | every source pixel (x, y) reappears unchanged at (y, w-1-x) |
| `Raster.RotateClockwise90` | src/main/java/com/amazonaws/lambda/demo/LambdaFunctionHandler.java:138-146 | the nested loops fill a freshly allocated h-by-w array with dest[y, w-1-x] = src[x, y] for every source pixel; every destination pixel holds the source pixel at the inverse remap of its position; the result's contents equal `Rotate` of the source's; the source array is not in the method's frame, so it is left unchanged |
| `Raster.RemapIsBijection` | src/main/java/com/amazonaws/lambda/demo/LambdaFunctionHandler.java:141-145 | the remap (x, y) to (y, w-1-x) that the loop stores through is injective on the source grid, lands inside the destination grid, and reaches every destination pixel, so each destination pixel is written exactly once |
| `Raster.RotateFourTimes` | src/main/java/com/amazonaws/lambda/demo/LambdaFunctionHandler.java:138-146 | four turns give back the original image, dimensions and every pixel |
| `Raster.RotateUndoesClockwise` | src/main/java/com/amazonaws/lambda/demo/LambdaFunctionHandler.java:133-146 | the turn undoes a true clockwise turn |
| `Raster.ClockwiseUndoesRotate` | src/main/java/com/amazonaws/lambda/demo/LambdaFunctionHandler.java:133-146 | a true clockwise turn undoes the turn, so the turn is counter-clockwise despite the method's name |
| `Raster.RotateDiffersFromClockwise` | src/main/java/com/amazonaws/lambda/demo/LambdaFunctionHandler.java:133-146 | on a two-pixel row, the turn and a clockwise turn give different images |
| `TextMatch.Folded` | src/main/java/com/amazonaws/lambda/demo/LambdaFunctionHandler.java:122 | the folded string has the same length and holds the lower-case form of each character |
| `TextMatch.EqualsIgnoreCaseIsFoldedEquality` | src/main/java/com/amazonaws/lambda/demo/LambdaFunctionHandler.java:122 | two strings are equal ignoring case exactly when their lower-case forms are equal |
| `TextMatch.MatchesIffFoldedIsTarget` | src/main/java/com/amazonaws/lambda/demo/LambdaFunctionHandler.java:120-124 | the fragments match exactly when some fragment's lower-case form is "steve" |
| `TextMatch.SteveDetected` | src/main/java/com/amazonaws/lambda/demo/LambdaFunctionHandler.java:103-131 | with fragments, the answer is true iff some fragment equals "steve" ignoring case; a Rekognition exception gives false; any other exception propagates, and only then |
| `TextMatch.MatchExamples` | src/main/java/com/amazonaws/lambda/demo/LambdaFunctionHandler.java:120-124 | "Steve", "STEVE" and "sTeVe" match; "steve!", "steves", "Steve Jobs" and an empty list do not |
| `TextMatch.MatchesOrderIndependent` | src/main/java/com/amazonaws/lambda/demo/LambdaFunctionHandler.java:120-124 | two fragment lists with the same elements give the same answer, in whatever order |
| `Handler.RotateAndDetect` | src/main/java/com/amazonaws/lambda/demo/LambdaFunctionHandler.java:70-83 | the loop over the image array produces the calls, turns and verdict of `SearchFrom` on the array's image |
| `Handler.SearchShape` | src/main/java/com/amazonaws/lambda/demo/LambdaFunctionHandler.java:70-83 | at most 4 calls; the k-th call sends the encoding of the image turned k times; every call but the last missed on the answer of that call; true means the last orientation tried matched, after one turn per earlier call; false means 4 calls, 4 turns and a miss in every orientation |
| `Handler.ServiceErrorThenMatch` | src/main/java/com/amazonaws/lambda/demo/LambdaFunctionHandler.java:114-130 | a service error on the first call is swallowed as no match, and a match on the second call with the same bytes ends the loop with true after two calls |
| `Handler.SearchStopsAtFirstHit` | src/main/java/com/amazonaws/lambda/demo/LambdaFunctionHandler.java:77-79 | if call k on orientation k is the first to match, the loop makes exactly k+1 calls and k turns and ends with true |
| `Handler.SearchWithoutHit` | src/main/java/com/amazonaws/lambda/demo/LambdaFunctionHandler.java:70-83 | if all four calls miss, the loop makes exactly 4 calls and 4 turns and ends with false |
| `Handler.NoticeDeterminesOutcome` | src/main/java/com/amazonaws/lambda/demo/LambdaFunctionHandler.java:152-158 | the notice goes to the fixed topic; its message is "Was Steve detected : " followed by the outcome; different outcomes give different notices |
| `Handler.HandleRequest` | src/main/java/com/amazonaws/lambda/demo/LambdaFunctionHandler.java:45-95 | the handler's steps, run on a freshly allocated image array, produce exactly the run that `Handle` describes |
| `Handler.HandleReadsFirstRecordOnly` | src/main/java/com/amazonaws/lambda/demo/LambdaFunctionHandler.java:56-57 | records after the first change nothing |
| `Handler.RetrievalFailureIsNotCaught` | src/main/java/com/amazonaws/lambda/demo/LambdaFunctionHandler.java:56-59 | with no record or an object that cannot be fetched, the invocation fails, makes no detection call and publishes nothing |
| `Handler.HandleOutcome` | src/main/java/com/amazonaws/lambda/demo/LambdaFunctionHandler.java:65-94 | after a successful fetch the invocation always returns; it makes at most 4 detection calls and at most one publish, of one of the two outcome notices; it returns the key unless a publish was delivered, and otherwise the published outcome |
| `Handler.ReturnedBooleanIsTheOutcome` | src/main/java/com/amazonaws/lambda/demo/LambdaFunctionHandler.java:85-94 | a returned "true"/"false" that is not the key means the image was decoded and one notice with that outcome was published and delivered; "true" means the last call matched; "false" means 4 calls that all missed |
| `Handler.ReturnChannelAmbiguous` | src/main/java/com/amazonaws/lambda/demo/LambdaFunctionHandler.java:87-94 | an object with key "true" that cannot be decoded makes the handler return "true" without any detection call |

## Left out

- `TextMatch.EqualsIgnoreCase`: folds only the ASCII letters A-Z. Java's `equalsIgnoreCase` also folds other Unicode letters; a fragment with U+017F (LATIN SMALL LETTER LONG S) in place of an "s", for example, matches in Java but not in this model.
- S3 retrieval, the Rekognition client and call, and the SNS client and transport are network services. They are oracle parameters (`fetch`, `detect`, `publish`). `detect` sees the call number as well as the bytes, so its answers may vary between calls; `fetch` and `publish` are called at most once per invocation.
- `Thread.sleep(2000)` and its `InterruptedException` handler (lines 48-53) only wait; the model has no clock.
- `ImageIO` decoding and JPEG encoding are library behaviour. They are the oracle parameters `decode` and `encode`.
- `Handler.SearchFrom`: assumes the JPEG encoder gives the same answer (the same bytes, or the same failure) whenever it is given the same image; only the detection service may answer differently from call to call.
- Colour models inside `getRGB`/`setRGB` are not modelled; a pixel is an `int`. The `BufferedImage` constructor rejecting a custom image type (line 141) is not modelled, so a turn never fails.
- Images always have positive width and height. `BufferedImage` cannot hold an empty image, so `Raster.RotateClockwise90` requires at least one column and one row.
- The S3 event object is reduced to a sequence of bucket/key records.
- Logging through `context.getLogger()` and `printStackTrace` is output only and is not modelled.
