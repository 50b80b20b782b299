/** The matching part of the `/face` handler, written as the handler's own loops:
    for each probe face, a running best name and distance start at the unknown
    marker and the threshold, and a reference replaces them only when it is
    strictly closer. Image decoding and face encoding are outside the model: the
    handler receives the probe embeddings and the enrolled references directly,
    and the Euclidean norm is the parameter `dist`. */
module FaceHandler {
  import opened Matching
  import MatchingLemmas

  /** The handler's response: the number of faces detected and one result per face. */
  datatype Response = Response(detected: nat, results: seq<Match>)

  /** The inner loop over the enrolled references for one probe. */
  method MatchProbe<E>(probe: E, bank: seq<Reference<E>>, dist: (E, E) -> real) returns (m: Match)
    ensures m == BestMatch(Score(bank, probe, dist))
  {
    ghost var cs := Score(bank, probe, dist);
    var name := UnknownName;
    var best := Threshold;
    var j := 0;
    while j < |bank|
      invariant 0 <= j <= |bank|
      invariant best <= Threshold
      invariant best == CappedMin(cs[..j])
      invariant Match(name, best) == BestMatch(cs[..j])
    {
      var d := dist(probe, bank[j].embedding);
      assert cs[..j + 1] == cs[..j] + [Match(bank[j].name, d)];
      MatchingLemmas.BestMatchStep(cs[..j], Match(bank[j].name, d));
      MatchingLemmas.BestMatchIsCappedMin(cs[..j + 1]);
      if d < best {
        name := bank[j].name;
        best := d;
      }
      j := j + 1;
    }
    assert cs[..j] == cs;
    m := Match(name, best);
  }

  /** The outer loop over the detected faces, collecting one result per face in
      order, and the detected-face count reported beside them. */
  method Recognize<E>(probes: seq<E>, bank: seq<Reference<E>>, dist: (E, E) -> real) returns (resp: Response)
    ensures resp.detected == |probes|
    ensures |resp.results| == |probes|
    ensures forall k :: 0 <= k < |probes| ==> resp.results[k] == BestMatch(Score(bank, probes[k], dist))
    ensures resp.results == BestMatches(probes, bank, dist)
    ensures |bank| == 0 ==> forall k :: 0 <= k < |probes| ==> resp.results[k] == Match(UnknownName, Threshold)
    ensures forall k, l :: 0 <= k < |probes| && 0 <= l < |probes| && probes[k] == probes[l]
              ==> resp.results[k] == resp.results[l]
  {
    var results: seq<Match> := [];
    var k := 0;
    while k < |probes|
      invariant 0 <= k <= |probes|
      invariant |results| == k
      invariant forall i :: 0 <= i < k ==> results[i] == BestMatch(Score(bank, probes[i], dist))
    {
      var m := MatchProbe(probes[k], bank, dist);
      results := results + [m];
      k := k + 1;
    }
    resp := Response(|probes|, results);
  }
}
