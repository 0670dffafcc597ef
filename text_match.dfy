/**
 * steveDetected: the text fragments a detection returns are scanned for one
 * that equals the target word "steve" ignoring case.
 */
module TextMatch {
  /** The word the handler looks for. */
  const Target: string := "steve"

  /** ASCII case folding: an upper-case letter becomes its lower-case letter. */
  function LowerAscii(c: char): char {
    if 'A' <= c <= 'Z' then (c as int - 'A' as int + 'a' as int) as char else c
  }

  /** String.equalsIgnoreCase on ASCII text: same length, and the same letter at
      every position once case is folded. */
  predicate EqualsIgnoreCase(a: string, b: string) {
    |a| == |b| && forall i :: 0 <= i < |a| ==> LowerAscii(a[i]) == LowerAscii(b[i])
  }

  /** The lower-case form of a whole string. */
  function Folded(s: string): (f: string)
    ensures |f| == |s|
    ensures forall i :: 0 <= i < |s| ==> f[i] == LowerAscii(s[i])
  {
    if s == [] then [] else [LowerAscii(s[0])] + Folded(s[1..])
  }

  /** Comparing ignoring case is comparing the lower-case forms, so it is an
      equivalence on strings. */
  lemma EqualsIgnoreCaseIsFoldedEquality(a: string, b: string)
    ensures EqualsIgnoreCase(a, b) <==> Folded(a) == Folded(b)
  {
    if Folded(a) == Folded(b) {
      assert |a| == |Folded(a)| == |Folded(b)| == |b|;
      forall i | 0 <= i < |a|
        ensures LowerAscii(a[i]) == LowerAscii(b[i])
      {
        assert Folded(a)[i] == Folded(b)[i];
      }
    }
  }

  /** Some fragment equals the target word ignoring case. */
  predicate Matches(fragments: seq<string>) {
    exists i :: 0 <= i < |fragments| && EqualsIgnoreCase(fragments[i], Target)
  }

  /** A fragment matches exactly when its lower-case form is "steve", because the
      target is already in lower case: only the folded text of a fragment matters. */
  lemma MatchesIffFoldedIsTarget(fragments: seq<string>)
    ensures Matches(fragments) <==> exists i :: 0 <= i < |fragments| && Folded(fragments[i]) == Target
  {
    assert Folded(Target) == Target;
    forall i | 0 <= i < |fragments|
      ensures EqualsIgnoreCase(fragments[i], Target) <==> Folded(fragments[i]) == Target
    {
      EqualsIgnoreCaseIsFoldedEquality(fragments[i], Target);
    }
  }

  /** What the detection service answers: the detected text fragments, an
      AmazonRekognitionException, or any other exception (raised while building
      the client or on the client side of the call). */
  datatype TextResponse = Detected(fragments: seq<string>) | ServiceError | ClientFailure

  /** What steveDetected gives its caller: a boolean, or an exception it lets
      through. */
  datatype Checked = Answer(found: bool) | Raised

  /** steveDetected as a function of the service's answer. */
  function Classify(response: TextResponse): Checked {
    match response
    case Detected(fragments) => Answer(Matches(fragments))
    case ServiceError => Answer(false)
    case ClientFailure => Raised
  }

  /**
   * steveDetected: walks every fragment and sets the flag when one equals the
   * target ignoring case (no early exit). A service exception is swallowed and
   * reads as no match; any other exception propagates.
   */
  method SteveDetected(response: TextResponse) returns (c: Checked)
    ensures c == Classify(response)
    ensures response.Detected? ==> c == Answer(Matches(response.fragments))
    ensures response.ServiceError? ==> c == Answer(false)
    ensures c == Raised <==> response.ClientFailure?
  {
    if response.ClientFailure? {
      return Raised;
    }
    var steveFound := false;
    if response.Detected? {
      var fragments := response.fragments;
      for k := 0 to |fragments|
        invariant steveFound <==> exists i :: 0 <= i < k && EqualsIgnoreCase(fragments[i], Target)
      {
        if EqualsIgnoreCase(fragments[k], Target) {
          steveFound := true;
        }
      }
    }
    return Answer(steveFound);
  }

  /** Equality, not containment: "Steve" and "STEVE" match; "steve!", "steves"
      and "Steve Jobs" do not. */
  lemma MatchExamples()
    ensures Matches(["Steve"]) && Matches(["STEVE"]) && Matches(["hello", "sTeVe"])
    ensures !Matches(["steve!"]) && !Matches(["steves"]) && !Matches(["Steve Jobs"]) && !Matches([])
  {
    assert EqualsIgnoreCase(["Steve"][0], Target);
    assert EqualsIgnoreCase(["STEVE"][0], Target);
    assert EqualsIgnoreCase(["hello", "sTeVe"][1], Target);
  }

  /** The answer does not depend on the order of the fragments. */
  lemma MatchesOrderIndependent(a: seq<string>, b: seq<string>)
    requires multiset(a) == multiset(b)
    ensures Matches(a) <==> Matches(b)
  {
    if Matches(a) {
      var i :| 0 <= i < |a| && EqualsIgnoreCase(a[i], Target);
      assert a[i] in multiset(b);
      var j :| 0 <= j < |b| && b[j] == a[i];
    }
    if Matches(b) {
      var j :| 0 <= j < |b| && EqualsIgnoreCase(b[j], Target);
      assert b[j] in multiset(a);
      var i :| 0 <= i < |a| && a[i] == b[j];
    }
  }
}
