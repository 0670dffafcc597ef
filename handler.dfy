/**
 * handleRequest of LambdaFunctionHandler: fetch the uploaded object, decode it,
 * look for the target word in up to four orientations of the image, publish
 * the outcome, and return it as a string (or the object key on failure).
 *
 * Storage, decoding, JPEG encoding, the detection service and the notification
 * service are outside the model; each is a function parameter (an oracle). The
 * detection service is asked with the call's number as well as the bytes, so
 * its answers may differ from call to call even on the same image.
 */
module Handler {
  import opened Common
  import opened Raster
  import opened TextMatch

  /** How the detection loop ends: with the last boolean steveDetected gave, or
      with an exception that leaves the loop. */
  datatype Verdict = Decided(found: bool) | Thrown

  /** What the detection loop did: the encoded image handed to steveDetected at
      each iteration, in order; how many times the image was turned; and how
      the loop ended. */
  datatype Search = Search(calls: seq<Bytes>, turns: nat, verdict: Verdict)

  /** The i-th and later iterations of the loop of handleRequest, starting from
      the image img: encode it, run steveDetected on the bytes (the i-th call to
      the service, whose answer may depend on the call as well as on the bytes),
      stop on a match or an exception, otherwise turn the image and go on while
      i < 4. */
  function SearchFrom(img: Image, i: nat, encode: Image -> Option<Bytes>, detect: (nat, Bytes) -> TextResponse): Search
    requires i <= 4
    decreases 4 - i
  {
    if i == 4 then Search([], 0, Decided(false))
    else match encode(img)
      case None => Search([], 0, Thrown)
      case Some(bytes) =>
        match Classify(detect(i, bytes))
        case Raised => Search([bytes], 0, Thrown)
        case Answer(found) =>
          if found then Search([bytes], 0, Decided(true))
          else
            var rest := SearchFrom(Rotate(img), i + 1, encode, detect);
            Search([bytes] + rest.calls, rest.turns + 1, rest.verdict)
  }

  /** The orientation o is encoded without error and the n-th call of steveDetected
      (counting from 0) finds no match in it. */
  predicate Miss(o: Image, n: nat, encode: Image -> Option<Bytes>, detect: (nat, Bytes) -> TextResponse) {
    encode(o).Some? && Classify(detect(n, encode(o).value)) == Answer(false)
  }

  /** The orientation o is encoded without error and the n-th call of steveDetected
      (counting from 0) finds a match in it. */
  predicate Hit(o: Image, n: nat, encode: Image -> Option<Bytes>, detect: (nat, Bytes) -> TextResponse) {
    encode(o).Some? && Classify(detect(n, encode(o).value)) == Answer(true)
  }

  /**
   * The shape of every run of the loop from iteration i: at most 4 - i calls;
   * the k-th call carries the encoding of the image turned k times; every call
   * but the last found no match; the image is turned once after each miss; a
   * match is found in the last orientation tried; and "false" comes only after
   * a miss in every remaining orientation.
   */
  lemma {:induction false} SearchShape(img: Image, i: nat, encode: Image -> Option<Bytes>, detect: (nat, Bytes) -> TextResponse)
    requires i <= 4
    ensures var s := SearchFrom(img, i, encode, detect);
      |s.calls| <= 4 - i &&
      (forall k :: 0 <= k < |s.calls| ==> encode(Turned(img, k)) == Some(s.calls[k])) &&
      (forall k :: 0 <= k < |s.calls| - 1 ==> Miss(Turned(img, k), i + k, encode, detect)) &&
      (s.verdict == Decided(true) ==>
        |s.calls| >= 1 && s.turns == |s.calls| - 1 &&
        Hit(Turned(img, |s.calls| - 1), i + |s.calls| - 1, encode, detect)) &&
      (s.verdict == Decided(false) ==>
        |s.calls| == 4 - i && s.turns == 4 - i &&
        forall k :: 0 <= k < 4 - i ==> Miss(Turned(img, k), i + k, encode, detect))
    decreases 4 - i
  {
    if i < 4 && encode(img).Some? {
      var bytes := encode(img).value;
      if Classify(detect(i, bytes)) == Answer(false) {
        var next := Rotate(img);
        SearchShape(next, i + 1, encode, detect);
        var rest := SearchFrom(next, i + 1, encode, detect);
        var s := SearchFrom(img, i, encode, detect);
        assert s.calls == [bytes] + rest.calls;
        forall k | 0 <= k < |s.calls|
          ensures encode(Turned(img, k)) == Some(s.calls[k])
        {
          if k > 0 {
            assert Turned(img, k) == Turned(next, k - 1);
          }
        }
        forall k | 0 <= k < |s.calls| - 1
          ensures Miss(Turned(img, k), i + k, encode, detect)
        {
          if k > 0 {
            assert Turned(img, k) == Turned(next, k - 1);
          }
        }
        if s.verdict == Decided(true) {
          assert Turned(img, |s.calls| - 1) == Turned(next, |rest.calls| - 1);
        }
        if s.verdict == Decided(false) {
          forall k | 0 <= k < 4 - i
            ensures Miss(Turned(img, k), i + k, encode, detect)
          {
            if k > 0 {
              assert Turned(img, k) == Turned(next, k - 1);
            }
          }
        }
      }
    }
  }

  /** Early exit: when the first match is in the k-th orientation, the loop makes
      exactly k + 1 calls and k turns and ends with true; the orientations after
      it are never tried. */
  lemma {:induction false} SearchStopsAtFirstHit(img: Image, i: nat, k: nat, encode: Image -> Option<Bytes>, detect: (nat, Bytes) -> TextResponse)
    requires i + k < 4
    requires forall j :: 0 <= j < k ==> Miss(Turned(img, j), i + j, encode, detect)
    requires Hit(Turned(img, k), i + k, encode, detect)
    ensures var s := SearchFrom(img, i, encode, detect);
      |s.calls| == k + 1 && s.turns == k && s.verdict == Decided(true)
    decreases k
  {
    if k > 0 {
      var next := Rotate(img);
      assert Miss(Turned(img, 0), i, encode, detect);
      forall j | 0 <= j < k - 1
        ensures Miss(Turned(next, j), i + 1 + j, encode, detect)
      {
        assert Turned(img, j + 1) == Turned(next, j);
      }
      assert Turned(img, k) == Turned(next, k - 1);
      SearchStopsAtFirstHit(next, i + 1, k - 1, encode, detect);
    }
  }

  /** No match anywhere: when all four orientations miss, the loop makes exactly
      4 calls and 4 turns (the image is turned after the last miss too) and ends
      with false. */
  lemma {:induction false} SearchWithoutHit(img: Image, i: nat, encode: Image -> Option<Bytes>, detect: (nat, Bytes) -> TextResponse)
    requires i <= 4
    requires forall j :: 0 <= j < 4 - i ==> Miss(Turned(img, j), i + j, encode, detect)
    ensures var s := SearchFrom(img, i, encode, detect);
      |s.calls| == 4 - i && s.turns == 4 - i && s.verdict == Decided(false)
    decreases 4 - i
  {
    if i < 4 {
      var next := Rotate(img);
      assert Miss(Turned(img, 0), i, encode, detect);
      forall j | 0 <= j < 4 - (i + 1)
        ensures Miss(Turned(next, j), i + 1 + j, encode, detect)
      {
        assert Turned(img, j + 1) == Turned(next, j);
      }
      SearchWithoutHit(next, i + 1, encode, detect);
    }
  }

  /** A swallowed service error does not end the search: when the first call
      fails with an AmazonRekognitionException and the second call, on the
      same bytes, finds "Steve", the loop ends with true after two calls. */
  lemma ServiceErrorThenMatch()
    ensures var img: Image := Grid(1, 1, [[0]]);
      SearchFrom(img, 0, (o: Image) => Some([]),
                 (n: nat, bytes: Bytes) => if n == 0 then ServiceError else Detected(["Steve"]))
      == Search([[], []], 1, Decided(true))
  {
    assert EqualsIgnoreCase(["Steve"][0], Target);
  }

  /**
   * The for loop of handleRequest: up to four iterations that encode the
   * current image, call steveDetected, break on a match and otherwise replace
   * the image by its turn. An exception from the encoder or from steveDetected
   * ends the loop with Thrown.
   */
  method RotateAndDetect(image: array2<int>, encode: Image -> Option<Bytes>, detect: (nat, Bytes) -> TextResponse)
    returns (search: Search)
    requires image.Length0 >= 1 && image.Length1 >= 1
    ensures search == SearchFrom(Contents(image), 0, encode, detect)
  {
    var img := image;
    var steveFound := false;
    var calls: seq<Bytes> := [];
    var turns := 0;
    var i := 0;
    while i < 4
      invariant 0 <= i <= 4
      invariant img.Length0 >= 1 && img.Length1 >= 1
      invariant !steveFound
      invariant var rest := SearchFrom(Contents(img), i, encode, detect);
        SearchFrom(Contents(image), 0, encode, detect) == Search(calls + rest.calls, turns + rest.turns, rest.verdict)
    {
      var bytes := encode(Contents(img));
      if bytes.None? {
        return Search(calls, turns, Thrown);
      }
      calls := calls + [bytes.value];
      var checked := SteveDetected(detect(i, bytes.value));
      if checked.Raised? {
        return Search(calls, turns, Thrown);
      }
      steveFound := checked.found;
      if steveFound {
        break;
      }
      img := RotateClockwise90(img);
      turns := turns + 1;
      i := i + 1;
    }
    return Search(calls, turns, Decided(steveFound));
  }

  /** The topic the outcome is published to. */
  const TopicArn: string := "arn:aws:sns:us-east-1:049648601596:SteveDetectedTopic"

  /** The text before the outcome in the published message. */
  const MessagePrefix: string := "Was Steve detected : "

  /** String.valueOf on a boolean. */
  function BoolString(b: bool): string {
    if b then "true" else "false"
  }

  /** One publish request: a topic and a message. */
  datatype Notice = Notice(topic: string, message: string)

  /** What publishResult sends for an outcome. */
  function PublishedNotice(found: bool): Notice {
    Notice(TopicArn, MessagePrefix + BoolString(found))
  }

  /** The published message tells the two outcomes apart: its text after the
      prefix is the outcome, and different outcomes give different notices. */
  lemma NoticeDeterminesOutcome(a: bool, b: bool)
    ensures PublishedNotice(a).topic == TopicArn
    ensures PublishedNotice(a).message[|MessagePrefix|..] == BoolString(a)
    ensures PublishedNotice(a) == PublishedNotice(b) <==> a == b
  {
    var ma, mb := PublishedNotice(a).message, PublishedNotice(b).message;
    assert ma[|MessagePrefix|..] == BoolString(a);
    assert mb[|MessagePrefix|..] == BoolString(b);
  }

  /** One record of the S3 put event. */
  datatype Record = Record(bucket: string, key: string)

  /** How an invocation ends: a returned string, or an exception the handler
      does not catch (the platform reports the invocation as failed). */
  datatype Invocation = Returned(value: string) | Failed

  /** What an invocation did: how it ended, the images it sent to detection and
      the notices it asked to publish. */
  datatype Run = Run(outcome: Invocation, calls: seq<Bytes>, published: seq<Notice>)

  /**
   * handleRequest as a function of the event and the services. Reading the
   * first record and fetching the object come before the try, so a failure
   * there is not caught. Everything after is inside it: a failure to decode,
   * encode, detect or publish returns the object key.
   */
  function Handle(records: seq<Record>, fetch: (string, string) -> Option<Bytes>,
                  decode: Bytes -> Option<Image>, encode: Image -> Option<Bytes>,
                  detect: (nat, Bytes) -> TextResponse, publish: Notice -> bool): Run
  {
    if records == [] then Run(Failed, [], [])
    else
      var key := records[0].key;
      match fetch(records[0].bucket, key)
      case None => Run(Failed, [], [])
      case Some(content) =>
        match decode(content)
        case None => Run(Returned(key), [], [])
        case Some(img) =>
          var s := SearchFrom(img, 0, encode, detect);
          match s.verdict
          case Thrown => Run(Returned(key), s.calls, [])
          case Decided(found) =>
            var notice := PublishedNotice(found);
            Run(Returned(if publish(notice) then BoolString(found) else key), s.calls, [notice])
  }

  /** handleRequest: the handler's steps in order, with the image held in a
      freshly allocated array that the detection loop turns. */
  method HandleRequest(records: seq<Record>, fetch: (string, string) -> Option<Bytes>,
                       decode: Bytes -> Option<Image>, encode: Image -> Option<Bytes>,
                       detect: (nat, Bytes) -> TextResponse, publish: Notice -> bool)
    returns (run: Run)
    ensures run == Handle(records, fetch, decode, encode, detect, publish)
  {
    if records == [] {
      return Run(Failed, [], []);
    }
    var bucket, key := records[0].bucket, records[0].key;
    var fetched := fetch(bucket, key);
    if fetched.None? {
      return Run(Failed, [], []);
    }
    var decoded := decode(fetched.value);
    if decoded.None? {
      return Run(Returned(key), [], []);
    }
    var image := decoded.value;
    var img := new int[image.width, image.height]((x, y) requires 0 <= x < image.width && 0 <= y < image.height => image.px[x][y]);
    SameImage(Contents(img), image);
    var search := RotateAndDetect(img, encode, detect);
    if search.verdict.Thrown? {
      return Run(Returned(key), search.calls, []);
    }
    var steveFound := search.verdict.found;
    var notice := PublishedNotice(steveFound);
    if !publish(notice) {
      return Run(Returned(key), search.calls, [notice]);
    }
    return Run(Returned(BoolString(steveFound)), search.calls, [notice]);
  }

  /** Only the first record of the event is read; the others change nothing. */
  lemma HandleReadsFirstRecordOnly(records: seq<Record>, fetch: (string, string) -> Option<Bytes>,
                                   decode: Bytes -> Option<Image>, encode: Image -> Option<Bytes>,
                                   detect: (nat, Bytes) -> TextResponse, publish: Notice -> bool)
    requires records != []
    ensures Handle(records, fetch, decode, encode, detect, publish)
         == Handle([records[0]], fetch, decode, encode, detect, publish)
  {
  }

  /** An event without records, or an object that cannot be fetched, fails
      before the try: the invocation fails instead of returning the key, and
      nothing is detected or published. */
  lemma RetrievalFailureIsNotCaught(records: seq<Record>, fetch: (string, string) -> Option<Bytes>,
                                    decode: Bytes -> Option<Image>, encode: Image -> Option<Bytes>,
                                    detect: (nat, Bytes) -> TextResponse, publish: Notice -> bool)
    requires records == [] || fetch(records[0].bucket, records[0].key) == None
    ensures Handle(records, fetch, decode, encode, detect, publish) == Run(Failed, [], [])
  {
  }

  /**
   * Once the object is fetched the invocation always returns: every later
   * failure is caught. It makes at most four detection calls and asks for at
   * most one publish, of one of the two outcome notices. It returns the key
   * unless a publish was delivered, and then it returns the published outcome.
   */
  lemma HandleOutcome(records: seq<Record>, fetch: (string, string) -> Option<Bytes>,
                      decode: Bytes -> Option<Image>, encode: Image -> Option<Bytes>,
                      detect: (nat, Bytes) -> TextResponse, publish: Notice -> bool)
    requires records != [] && fetch(records[0].bucket, records[0].key).Some?
    ensures var run := Handle(records, fetch, decode, encode, detect, publish);
      run.outcome.Returned? && |run.calls| <= 4 && |run.published| <= 1 &&
      (run.published != [] ==> run.published[0] in {PublishedNotice(true), PublishedNotice(false)}) &&
      (run.published == [] || !publish(run.published[0]) ==> run.outcome == Returned(records[0].key)) &&
      (run.published != [] && publish(run.published[0]) ==>
        run.outcome == Returned(BoolString(run.published[0] == PublishedNotice(true))))
  {
    var decoded := decode(fetch(records[0].bucket, records[0].key).value);
    if decoded.Some? {
      SearchShape(decoded.value, 0, encode, detect);
      NoticeDeterminesOutcome(true, false);
    }
  }

  /**
   * A returned "true" or "false" that is not the key is the real outcome: the
   * image was decoded, exactly one notice with that outcome was published and
   * delivered, "true" means the last orientation tried matched, and "false"
   * means all four orientations were tried and none matched.
   */
  lemma ReturnedBooleanIsTheOutcome(records: seq<Record>, fetch: (string, string) -> Option<Bytes>,
                                    decode: Bytes -> Option<Image>, encode: Image -> Option<Bytes>,
                                    detect: (nat, Bytes) -> TextResponse, publish: Notice -> bool, b: bool)
    requires records != [] && records[0].key != BoolString(b)
    requires Handle(records, fetch, decode, encode, detect, publish).outcome == Returned(BoolString(b))
    ensures fetch(records[0].bucket, records[0].key).Some?
    ensures var decoded := decode(fetch(records[0].bucket, records[0].key).value);
      var run := Handle(records, fetch, decode, encode, detect, publish);
      decoded.Some? &&
      run.published == [PublishedNotice(b)] && publish(PublishedNotice(b)) &&
      (b ==> 1 <= |run.calls| <= 4 && Hit(Turned(decoded.value, |run.calls| - 1), |run.calls| - 1, encode, detect)) &&
      (!b ==> |run.calls| == 4 && forall k :: 0 <= k < 4 ==> Miss(Turned(decoded.value, k), k, encode, detect))
  {
    var decoded := decode(fetch(records[0].bucket, records[0].key).value);
    SearchShape(decoded.value, 0, encode, detect);
    var s := SearchFrom(decoded.value, 0, encode, detect);
    assert s.verdict == Decided(b);
  }

  /** The return channel is ambiguous: an object whose key is "true" and that
      cannot be decoded makes the handler return "true" without any detection. */
  lemma ReturnChannelAmbiguous()
    ensures var run := Handle([Record("uploads", "true")], (bucket, key) => Some([]),
                              (content: Bytes) => None, (img: Image) => None,
                              (n: nat, bytes: Bytes) => ClientFailure, (notice: Notice) => true);
      run.outcome == Returned(BoolString(true)) && run.calls == [] && run.published == []
  {
  }
}
