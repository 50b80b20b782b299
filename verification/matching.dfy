/** Declarative specification of the identity selection performed by the `/face`
    handler: for one probe face, the enrolled reference with the smallest distance,
    provided that distance is strictly below the threshold, earliest reference first
    on ties; otherwise the unknown marker at the threshold distance.

    Distances are abstracted: a probe is compared with the enrolled references
    through the sequence of their distances, in enrolment order. */
module Matching {

  /** Initial running best distance; only references strictly closer are adopted. */
  const Threshold: real := 0.6

  /** Name reported when no reference is adopted. */
  const UnknownName: string := "Desconhecido"

  datatype Option<T> = None | Some(value: T)

  /** One enrolled face: the stem of its image file and its embedding. */
  datatype Reference<E> = Reference(name: string, embedding: E)

  /** A name with a distance: an enrolled reference scored against the probe being
      matched, and also one entry of the response's result list. */
  datatype Match = Match(name: string, distance: real)

  /** The candidates of one probe: every reference, in enrolment order, with
      its distance to the probe under `dist`. */
  function Score<E>(bank: seq<Reference<E>>, probe: E, dist: (E, E) -> real): (cs: seq<Match>)
  {
    seq(|bank|, j requires 0 <= j < |bank| => Match(bank[j].name, dist(probe, bank[j].embedding)))
  }

  function Min(a: real, b: real): real
  {
    if a <= b then a else b
  }

  /** The smallest distance among the candidates, never above the threshold. */
  function CappedMin(cs: seq<Match>): (m: real)
    ensures m <= Threshold
    ensures forall j :: 0 <= j < |cs| ==> m <= cs[j].distance
    ensures m == Threshold || exists j :: 0 <= j < |cs| && cs[j].distance == m
    decreases |cs|
  {
    if |cs| == 0 then Threshold
    else
      var m := CappedMin(cs[..|cs| - 1]);
      var last := cs[|cs| - 1];
      assert forall j :: 0 <= j < |cs| - 1 ==> cs[..|cs| - 1][j] == cs[j];
      Min(m, last.distance)
  }

  ghost predicate HasDistance(cs: seq<Match>, d: real)
  {
    exists j :: 0 <= j < |cs| && cs[j].distance == d
  }

  /** The earliest candidate at distance `d`. */
  function FirstAt(cs: seq<Match>, d: real): (i: nat)
    requires HasDistance(cs, d)
    ensures i < |cs| && cs[i].distance == d
    ensures forall j :: 0 <= j < i ==> cs[j].distance != d
  {
    if cs[0].distance == d then 0
    else
      var j :| 0 <= j < |cs| && cs[j].distance == d;
      assert cs[1..][j - 1].distance == d;
      1 + FirstAt(cs[1..], d)
  }

  /** Position of the reference the handler adopts, if any: the earliest one at
      the capped minimum, provided that minimum is strictly below the threshold. */
  function Winner(cs: seq<Match>): (w: Option<nat>)
    ensures w.Some? ==> w.value < |cs|
  {
    var m := CappedMin(cs);
    if m < Threshold then Some(FirstAt(cs, m)) else None
  }

  /** The result for one probe, with the best distance before the handler rounds it. */
  function BestMatch(cs: seq<Match>): (r: Match)
  {
    match Winner(cs)
    case None => Match(UnknownName, Threshold)
    case Some(i) => cs[i]
  }

  /** The results reported for a list of probes, one per probe, in probe order. */
  function BestMatches<E>(probes: seq<E>, bank: seq<Reference<E>>, dist: (E, E) -> real): (rs: seq<Match>)
  {
    seq(|probes|, k requires 0 <= k < |probes| => BestMatch(Score(bank, probes[k], dist)))
  }
}
