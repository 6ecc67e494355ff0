/**
 * The risk scorer and explainer for one clause: the trained risk classifier
 * gives a label and a confidence, and the feature attributions of the
 * explainer, sorted by magnitude and cut to the five largest, are rendered as
 * the justification. The vectorizer, the classifier and the explainer are
 * collaborators given as functions; each may be absent.
 */
module RiskScorer {
  import opened Wrappers
  import opened Text
  import opened Justification

  /** How many attributions the justification explains. */
  const TopCount: nat := 5

  function Min(a: nat, b: nat): nat {
    if a <= b then a else b
  }

  function Abs(x: real): (r: real)
    ensures r >= 0.0 && (r == x || r == -x)
  {
    if x < 0.0 then -x else x
  }

  /** The sort key: the magnitude of the attribution, whatever its sign. */
  function Magnitude(a: Attribution): real {
    Abs(a.1)
  }

  // ---------------------------------------------------------------- pairing

  /** `zip(names, values)`: pairs up to the shorter of the two. */
  function Zip(names: seq<string>, values: seq<real>): (z: seq<Attribution>)
    ensures |z| == Min(|names|, |values|)
    ensures forall i :: 0 <= i < |z| ==> z[i].0 == names[i] && z[i].1 == values[i]
  {
    seq(Min(|names|, |values|), i requires 0 <= i < Min(|names|, |values|) => (names[i], values[i]))
  }

  // ---------------------------------------------------------------- the stable sort

  /** Ordered by non-increasing magnitude. */
  ghost predicate Descending(s: seq<Attribution>) {
    forall i, j :: 0 <= i < j < |s| ==> Magnitude(s[i]) >= Magnitude(s[j])
  }

  /** Places `x` ahead of the first entry whose magnitude is not larger, i.e. after every larger one. */
  function Insert(x: Attribution, s: seq<Attribution>): seq<Attribution> {
    if s == [] then [x]
    else if Magnitude(s[0]) > Magnitude(x) then [s[0]] + Insert(x, s[1..])
    else [x] + s
  }

  /**
   * `sorted(xs, key=lambda a: abs(a[1]), reverse=True)`: descending by
   * magnitude, entries of equal magnitude in their original order.
   */
  function SortByMagnitude(xs: seq<Attribution>): seq<Attribution> {
    if xs == [] then [] else Insert(xs[0], SortByMagnitude(xs[1..]))
  }

  /** The entries of magnitude `m`, in order. */
  function OfMagnitude(s: seq<Attribution>, m: real): seq<Attribution> {
    if s == [] then []
    else (if Magnitude(s[0]) == m then [s[0]] else []) + OfMagnitude(s[1..], m)
  }

  lemma {:induction false} InsertPermutes(x: Attribution, s: seq<Attribution>)
    ensures multiset(Insert(x, s)) == multiset(s) + multiset{x}
  {
    if s != [] && Magnitude(s[0]) > Magnitude(x) {
      InsertPermutes(x, s[1..]);
      assert s == [s[0]] + s[1..];
    }
  }

  /** A bound on the magnitudes of `s` and of `x` bounds those of `Insert(x, s)`. */
  lemma {:induction false} InsertBounded(x: Attribution, s: seq<Attribution>, bound: real)
    requires Magnitude(x) <= bound
    requires forall y :: y in s ==> Magnitude(y) <= bound
    ensures forall y :: y in Insert(x, s) ==> Magnitude(y) <= bound
  {
    InsertPermutes(x, s);
    forall y | y in Insert(x, s) ensures Magnitude(y) <= bound {
      assert y in multiset(Insert(x, s));
      assert y == x || y in multiset(s);
    }
  }

  /** A descending sequence stays descending when an entry at least as large as all of it is put in front. */
  lemma DescendingCons(h: Attribution, tail: seq<Attribution>)
    requires Descending(tail)
    requires forall y :: y in tail ==> Magnitude(y) <= Magnitude(h)
    ensures Descending([h] + tail)
  {
    var s := [h] + tail;
    forall i, j | 0 <= i < j < |s| ensures Magnitude(s[i]) >= Magnitude(s[j]) {
      assert s[j] == tail[j - 1] && tail[j - 1] in tail;
      if i > 0 {
        assert s[i] == tail[i - 1];
      }
    }
  }

  lemma {:induction false} InsertDescending(x: Attribution, s: seq<Attribution>)
    requires Descending(s)
    ensures Descending(Insert(x, s))
    ensures |Insert(x, s)| == |s| + 1
  {
    if s == [] {
    } else if Magnitude(s[0]) > Magnitude(x) {
      var tail := Insert(x, s[1..]);
      InsertDescending(x, s[1..]);
      forall y | y in s[1..] ensures Magnitude(y) <= Magnitude(s[0]) {
        var k :| 0 <= k < |s[1..]| && s[1..][k] == y;
        assert s[k + 1] == y;
      }
      InsertBounded(x, s[1..], Magnitude(s[0]));
      DescendingCons(s[0], tail);
    } else {
      forall y | y in s ensures Magnitude(y) <= Magnitude(x) {
        var k :| 0 <= k < |s| && s[k] == y;
        assert k == 0 || Magnitude(s[0]) >= Magnitude(s[k]);
      }
      DescendingCons(x, s);
    }
  }

  /** The sort only reorders: the result is a permutation of its input. */
  lemma {:induction false} SortPermutes(xs: seq<Attribution>)
    ensures multiset(SortByMagnitude(xs)) == multiset(xs)
  {
    if xs != [] {
      SortPermutes(xs[1..]);
      InsertPermutes(xs[0], SortByMagnitude(xs[1..]));
      assert xs == [xs[0]] + xs[1..];
    }
  }

  /** The sort result is ordered by non-increasing magnitude. */
  lemma {:induction false} SortDescending(xs: seq<Attribution>)
    ensures Descending(SortByMagnitude(xs)) && |SortByMagnitude(xs)| == |xs|
  {
    if xs != [] {
      SortDescending(xs[1..]);
      InsertDescending(xs[0], SortByMagnitude(xs[1..]));
    }
  }

  lemma OfMagnitudeCons(x: Attribution, s: seq<Attribution>, m: real)
    ensures OfMagnitude([x] + s, m) == (if Magnitude(x) == m then [x] else []) + OfMagnitude(s, m)
  {
    assert ([x] + s)[0] == x && ([x] + s)[1..] == s;
  }

  /** Inserting keeps the relative order of the entries of each magnitude, `x` first among its own. */
  lemma {:induction false} InsertStable(x: Attribution, s: seq<Attribution>, m: real)
    ensures OfMagnitude(Insert(x, s), m) == (if Magnitude(x) == m then [x] else []) + OfMagnitude(s, m)
  {
    if s == [] {
      OfMagnitudeCons(x, [], m);
    } else if Magnitude(s[0]) > Magnitude(x) {
      InsertStable(x, s[1..], m);
      OfMagnitudeCons(s[0], Insert(x, s[1..]), m);
      OfMagnitudeCons(s[0], s[1..], m);
      assert s == [s[0]] + s[1..];
    } else {
      OfMagnitudeCons(x, s, m);
    }
  }

  /** The sort is stable: the entries of each magnitude keep their original order. */
  lemma {:induction false} SortStable(xs: seq<Attribution>, m: real)
    ensures OfMagnitude(SortByMagnitude(xs), m) == OfMagnitude(xs, m)
  {
    if xs != [] {
      SortStable(xs[1..], m);
      InsertStable(xs[0], SortByMagnitude(xs[1..]), m);
    }
  }

  /** Filtering by magnitude distributes over concatenation. */
  lemma {:induction false} OfMagnitudeAppend(a: seq<Attribution>, b: seq<Attribution>, m: real)
    ensures OfMagnitude(a + b, m) == OfMagnitude(a, m) + OfMagnitude(b, m)
  {
    if a == [] {
      assert a + b == b;
    } else {
      var h := if Magnitude(a[0]) == m then [a[0]] else [];
      assert OfMagnitude(a + b, m) == h + OfMagnitude(a[1..] + b, m) by {
        assert a + b == [a[0]] + (a[1..] + b);
        OfMagnitudeCons(a[0], a[1..] + b, m);
      }
      assert OfMagnitude(a, m) == h + OfMagnitude(a[1..], m) by {
        assert a == [a[0]] + a[1..];
        OfMagnitudeCons(a[0], a[1..], m);
      }
      OfMagnitudeAppend(a[1..], b, m);
      Regroup(OfMagnitude(a + b, m), OfMagnitude(a[1..] + b, m), OfMagnitude(a, m),
        h, OfMagnitude(a[1..], m), OfMagnitude(b, m));
    }
  }

  /** Moving a common head across a concatenation. */
  lemma Regroup<T>(x: seq<T>, y: seq<T>, z: seq<T>, h: seq<T>, p: seq<T>, q: seq<T>)
    requires x == h + y && y == p + q && z == h + p
    ensures x == z + q
  {
  }

  // ---------------------------------------------------------------- the top features

  /** `sorted(...)[:5]`: the five attributions of largest magnitude, largest first. */
  function TopFeatures(z: seq<Attribution>): seq<Attribution> {
    var s := SortByMagnitude(z);
    s[..Min(TopCount, |s|)]
  }

  /** The top features are at most five entries of the input, the largest first. */
  lemma TopFeaturesOrdered(z: seq<Attribution>)
    ensures var t := TopFeatures(z);
      && |t| == Min(TopCount, |z|)
      && Descending(t)
      && multiset(t) <= multiset(z)
  {
    var s := SortByMagnitude(z);
    var k := Min(TopCount, |s|);
    SortPermutes(z);
    SortDescending(z);
    assert s == s[..k] + s[k..];
    assert multiset(s) == multiset(s[..k]) + multiset(s[k..]);
  }

  /** No entry left out of the top features is larger than an entry selected. */
  lemma TopFeaturesLargest(z: seq<Attribution>)
    ensures var t := TopFeatures(z);
      forall a, b :: a in t && b in multiset(z) - multiset(t) ==> Magnitude(b) <= Magnitude(a)
  {
    var s := SortByMagnitude(z);
    var k := Min(TopCount, |s|);
    var t := TopFeatures(z);
    SortPermutes(z);
    SortDescending(z);
    assert s == t + s[k..];
    assert multiset(z) == multiset(t) + multiset(s[k..]);
    forall a, b | a in t && b in multiset(z) - multiset(t) ensures Magnitude(b) <= Magnitude(a) {
      var i :| 0 <= i < |t| && t[i] == a;
      assert b in multiset(s[k..]);
      var j :| 0 <= j < |s[k..]| && s[k..][j] == b;
      assert s[i] == a && s[k + j] == b;
    }
  }

  /** Among entries of equal magnitude, those selected are the earliest ones, in their original order. */
  lemma TopFeaturesStable(z: seq<Attribution>, m: real)
    ensures OfMagnitude(TopFeatures(z), m) <= OfMagnitude(z, m)
  {
    var s := SortByMagnitude(z);
    var k := Min(TopCount, |s|);
    assert s == s[..k] + s[k..];
    OfMagnitudeAppend(s[..k], s[k..], m);
    SortStable(z, m);
  }

  // ---------------------------------------------------------------- collaborators

  /** The text vectorizer: a clause's feature vector, and the term of each feature. */
  datatype Vectorizer = Vectorizer(transform: string -> seq<real>, featureNames: seq<string>)

  /** The risk classifier: the predicted label, and the largest class probability. */
  datatype RiskClassifier = RiskClassifier(predict: seq<real> -> string, maxProba: seq<real> -> real)

  /** The explainer: one attribution per feature of the vector, or the message of the exception it raises. */
  datatype Explainer = Explainer(explain: seq<real> -> Result<seq<real>>)

  /** The loaded artifacts; any of them may be missing. */
  datatype RiskModels = RiskModels(
    classifier: Option<RiskClassifier>,
    vectorizer: Option<Vectorizer>,
    explainer: Option<Explainer>)

  /** The risk part of a clause's analysis. */
  datatype RiskResult = RiskResult(riskLevel: string, confidence: real, justification: string)

  const NotLoaded: string := "Risk model or vectorizer not loaded."
  const NoExplainer: string := "Explainability not available."
  const ExplainerFailed: string := "Explainability error: "

  /** The result when the classifier or the vectorizer is missing. */
  const Degraded: RiskResult := RiskResult("Unknown", 0.0, NotLoaded)

  /** The justification of a scored clause, given its vector and the feature terms. */
  function Explanation(explainer: Option<Explainer>, vec: seq<real>, names: seq<string>): (j: string)
    ensures |j| > 0
  {
    match explainer
    case None => NoExplainer
    case Some(e) =>
      match e.explain(vec)
      case Raised(msg) => ExplainerFailed + msg
      case Ok(values) =>
        var j := Render(TopFeatures(Zip(names, values)));
        assert |j| > 0 by { RenderSentinelIff(TopFeatures(Zip(names, values))); }
        j
  }

  /** `analyze_risk_with_model`. */
  function AnalyzeRisk(models: RiskModels, clause: string): (r: RiskResult)
    ensures |r.justification| > 0
  {
    if models.classifier.None? || models.vectorizer.None? then Degraded
    else
      var clf, v := models.classifier.value, models.vectorizer.value;
      var vec := v.transform(clause);
      RiskResult(clf.predict(vec), clf.maxProba(vec), Explanation(models.explainer, vec, v.featureNames))
  }

  // ---------------------------------------------------------------- properties

  /** No justification of a scored clause reads like the degraded-mode message. */
  lemma ExplanationNotDegraded(explainer: Option<Explainer>, vec: seq<real>, names: seq<string>)
    ensures Explanation(explainer, vec, names) != NotLoaded
  {
    var j := Explanation(explainer, vec, names);
    if explainer.Some? && explainer.value.explain(vec).Ok? {
      var tw := TopFeatures(Zip(names, explainer.value.explain(vec).value));
      RenderSentinelIff(tw);
      if tw == [] {
        assert j[0] == 'C';
      } else {
        assert |j| >= |Advice| > |NotLoaded|;
      }
    } else {
      assert j[0] == 'E';
    }
  }

  /**
   * Degraded mode: with the classifier or the vectorizer missing the result
   * is exactly the sentinel, and the sentinel's message appears in no other
   * case, so it tells a caller that the models are missing.
   */
  lemma AnalyzeRiskDegraded(models: RiskModels, clause: string)
    ensures models.classifier.None? || models.vectorizer.None? ==> AnalyzeRisk(models, clause) == Degraded
    ensures AnalyzeRisk(models, clause).justification == NotLoaded <==> models.classifier.None? || models.vectorizer.None?
  {
    if models.classifier.Some? && models.vectorizer.Some? {
      var vec := models.vectorizer.value.transform(clause);
      ExplanationNotDegraded(models.explainer, vec, models.vectorizer.value.featureNames);
    }
  }

  /**
   * With both models loaded, the label and the confidence are the
   * classifier's for the clause's vector; when the explainer succeeds, the
   * justification renders the top features of the zipped attributions: at
   * most five, largest first, none smaller than an attribution left out.
   */
  lemma AnalyzeRiskScored(models: RiskModels, clause: string)
    requires models.classifier.Some? && models.vectorizer.Some?
    ensures var r, vec := AnalyzeRisk(models, clause), models.vectorizer.value.transform(clause);
      && r.riskLevel == models.classifier.value.predict(vec)
      && r.confidence == models.classifier.value.maxProba(vec)
      && (models.explainer.None? ==> r.justification == NoExplainer)
      && (models.explainer.Some? && models.explainer.value.explain(vec).Raised? ==>
            r.justification == ExplainerFailed + models.explainer.value.explain(vec).message)
      && (models.explainer.Some? && models.explainer.value.explain(vec).Ok? ==>
            var z := Zip(models.vectorizer.value.featureNames, models.explainer.value.explain(vec).value);
            var t := TopFeatures(z);
            && r.justification == Render(t)
            && |t| == Min(TopCount, |z|) && Descending(t) && multiset(t) <= multiset(z)
            && forall a, b :: a in t && b in multiset(z) - multiset(t) ==> Magnitude(b) <= Magnitude(a))
  {
    var vec := models.vectorizer.value.transform(clause);
    if models.explainer.Some? && models.explainer.value.explain(vec).Ok? {
      var z := Zip(models.vectorizer.value.featureNames, models.explainer.value.explain(vec).value);
      TopFeaturesOrdered(z);
      TopFeaturesLargest(z);
    }
  }
}
