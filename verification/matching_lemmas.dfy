/** Properties of the identity selection: what the selected name and the best
    distance (before rounding) mean, the threshold cut-off, the first-seen
    tie-break, and the single step that relates the declarative selection to the
    handler's running-best loop. */
module MatchingLemmas {
  import opened Matching

  /** A position at distance `d` with no earlier one at `d` is the one `FirstAt` finds. */
  lemma FirstAtIsUnique(cs: seq<Match>, d: real, i: nat)
    requires i < |cs| && cs[i].distance == d
    requires forall j :: 0 <= j < i ==> cs[j].distance != d
    ensures FirstAt(cs, d) == i
  {
  }

  /** The best distance is the capped minimum. */
  lemma BestMatchIsCappedMin(cs: seq<Match>)
    ensures BestMatch(cs).distance == CappedMin(cs)
  {
  }

  /** One iteration of the handler's inner loop: appending a reference to the bank
      changes the result exactly when the new distance is strictly below the
      current best, and then to that reference. */
  lemma {:induction false} BestMatchStep(cs: seq<Match>, c: Match)
    ensures BestMatch(cs + [c])
         == if c.distance < BestMatch(cs).distance then c else BestMatch(cs)
  {
    var s := cs + [c];
    assert s[..|cs|] == cs;
    assert CappedMin(s) == Min(CappedMin(cs), c.distance);
    BestMatchIsCappedMin(cs);
    BestMatchIsCappedMin(s);
    var m := CappedMin(cs);
    if c.distance < m {
      FirstAtIsUnique(s, c.distance, |cs|);
    } else if m < Threshold {
      var i := FirstAt(cs, m);
      FirstAtIsUnique(s, m, i);
    }
  }

  /** The running best never increases as references are added. */
  lemma RunningBestNeverIncreases(cs: seq<Match>, c: Match)
    ensures BestMatch(cs + [c]).distance <= BestMatch(cs).distance
    ensures BestMatch(cs + [c]).distance <= c.distance
  {
    BestMatchStep(cs, c);
  }

  /** The best distance is the minimum of the threshold and every reference's distance. */
  lemma BestDistanceIsMinimum(cs: seq<Match>)
    ensures BestMatch(cs).distance <= Threshold
    ensures forall j :: 0 <= j < |cs| ==> BestMatch(cs).distance <= cs[j].distance
    ensures BestMatch(cs).distance == Threshold
         || exists j :: 0 <= j < |cs| && cs[j].distance == BestMatch(cs).distance
  {
    BestMatchIsCappedMin(cs);
  }

  /** A reference is adopted exactly when some distance is strictly below the
      threshold; the adopted result is then one of the references, and otherwise
      it is the unknown marker at the threshold. */
  lemma MatchedIffSomeBelow(cs: seq<Match>)
    ensures BestMatch(cs).distance < Threshold <==> exists j :: 0 <= j < |cs| && cs[j].distance < Threshold
    ensures BestMatch(cs).distance < Threshold
        ==> exists j :: 0 <= j < |cs| && cs[j] == BestMatch(cs)
    ensures (forall j :: 0 <= j < |cs| ==> cs[j].distance >= Threshold)
        ==> BestMatch(cs) == Match(UnknownName, Threshold)
  {
    BestMatchIsCappedMin(cs);
    if BestMatch(cs).distance < Threshold {
      var i := Winner(cs).value;
      assert cs[i] == BestMatch(cs);
    }
  }

  /** When no enrolled reference is itself named like the unknown marker, the
      selected name is the marker exactly when no distance is below the threshold. */
  lemma UnknownNameIffNoneBelow(cs: seq<Match>)
    requires forall j :: 0 <= j < |cs| ==> cs[j].name != UnknownName
    ensures BestMatch(cs).name == UnknownName <==> forall j :: 0 <= j < |cs| ==> cs[j].distance >= Threshold
  {
    MatchedIffSomeBelow(cs);
    if BestMatch(cs).distance < Threshold {
      var i := Winner(cs).value;
      assert BestMatch(cs).name == cs[i].name;
    }
  }

  /** A reference at or beyond the threshold, in particular at exactly 0.6, is
      never adopted; a selected name other than the marker comes with a distance
      strictly below the threshold. */
  lemma ThresholdNeverAdopted(cs: seq<Match>)
    ensures forall i :: 0 <= i < |cs| && cs[i].distance >= Threshold ==> Winner(cs) != Some(i)
    ensures BestMatch(cs).name != UnknownName ==> BestMatch(cs).distance < Threshold
  {
  }

  /** The adopted reference is the earliest one at the minimum: every earlier
      reference is strictly farther and no later one is closer. */
  lemma WinnerIsEarliestMinimum(cs: seq<Match>, i: nat)
    requires Winner(cs) == Some(i)
    ensures forall j :: 0 <= j < i ==> cs[j].distance > cs[i].distance
    ensures forall j :: i < j < |cs| ==> cs[j].distance >= cs[i].distance
  {
  }

  /** Tie-break: of two references at the same distance, the later is never adopted. */
  lemma FirstSeenTieBreak(cs: seq<Match>, i: nat, j: nat)
    requires i < j < |cs| && cs[i].distance == cs[j].distance
    ensures Winner(cs) != Some(j)
  {
    if Winner(cs) == Some(j) {
      WinnerIsEarliestMinimum(cs, j);
    }
  }

  /** Each probe is matched on its own: its result depends only on the probe itself,
      not on its position or on the other probes. */
  lemma ProbesMatchedIndependently<E>(ps: seq<E>, qs: seq<E>, bank: seq<Reference<E>>, dist: (E, E) -> real, k: nat, l: nat)
    requires k < |ps| && l < |qs| && ps[k] == qs[l]
    ensures BestMatches(ps, bank, dist)[k] == BestMatches(qs, bank, dist)[l]
  {
  }
}
