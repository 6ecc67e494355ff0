/**
 * The justification renderer: turns the top feature attributions of a clause
 * (a term and its signed contribution to the risk prediction) into one
 * sentence a reader can follow, using a small dictionary of known
 * risk-relevant terms and quoting every other term as given.
 */
module Justification {
  import opened Text

  /** A feature attribution: a vocabulary term and its signed contribution. */
  type Attribution = (string, real)

  /** The static dictionary of risk-relevant terms, keyed by lower-case term. */
  const WordRiskMap: map<string, string> := map[
    "assignment" := "allows transfer of rights without restrictions",
    "ten" := "contains ambiguous numeric thresholds",
    "business" := "affects multiple business entities, increasing exposure",
    "party" := "unclear responsibilities or obligations",
    "confidential" := "lack of proper confidentiality clauses"
  ]

  /** The text returned when there are no attributions to explain. */
  const Unclear: string := "Clause risk is unclear from the text."

  /** The advice appended after the phrases when there is at least one. */
  const Advice: string := " Suggest clarifying or adding missing terms to reduce risk."

  const Increases: string := "increases"
  const Reduces: string := "reduces"

  /** A positive contribution raises the risk; zero and negative ones count as lowering it. */
  function Direction(v: real): (d: string)
    ensures d == Increases <==> v > 0.0
    ensures d == Reduces <==> v <= 0.0
  {
    if v > 0.0 then Increases else Reduces
  }

  /** What a phrase says about the term: the dictionary description of the lower-cased term, or the term quoted. */
  function Subject(w: string): string {
    if Lower(w) in WordRiskMap then WordRiskMap[Lower(w)] else "'" + w + "'"
  }

  /** What a phrase says about the value: the direction of its effect on the risk. */
  function Effect(v: real): string {
    " (" + Direction(v) + " risk)"
  }

  /** The phrase for one attribution. */
  function Phrase(w: string, v: real): string {
    Subject(w) + Effect(v)
  }

  /** One phrase per attribution, in input order. */
  function Phrases(tw: seq<Attribution>): (ps: seq<string>)
    ensures |ps| == |tw|
  {
    if tw == [] then [] else [Phrase(tw[0].0, tw[0].1)] + Phrases(tw[1..])
  }

  /** `generate_human_readable_justification` as a function of the attributions. */
  function Render(tw: seq<Attribution>): string {
    if tw == [] then Unclear else JoinWith(Phrases(tw), " ") + Advice
  }

  // ---------------------------------------------------------------- the renderer

  /** The body of the renderer's loop: the phrase for one attribution, by dictionary lookup or quoting. */
  method DescribeAttribution(w: string, v: real) returns (phrase: string)
    ensures phrase == Phrase(w, v)
  {
    var key := Lower(w);
    if key in WordRiskMap {
      var direction := if v > 0.0 then Increases else Reduces;
      phrase := WordRiskMap[key] + (" (" + direction + " risk)");
    } else {
      var direction := if v > 0.0 then Increases else Reduces;
      phrase := "'" + w + "'" + (" (" + direction + " risk)");
    }
  }

  /** The loop of the renderer: one phrase appended per attribution, in input order. */
  method CollectPhrases(topWords: seq<Attribution>) returns (explanations: seq<string>)
    ensures explanations == Phrases(topWords)
  {
    explanations := [];
    var i := 0;
    while i < |topWords|
      invariant 0 <= i <= |topWords|
      invariant explanations + Phrases(topWords[i..]) == Phrases(topWords)
    {
      var (w, v) := topWords[i];
      var phrase := DescribeAttribution(w, v);
      assert (explanations + [phrase]) + Phrases(topWords[i + 1..]) == Phrases(topWords) by {
        assert topWords[i..] == [topWords[i]] + topWords[i + 1..];
        PhrasesCons(topWords[i], topWords[i + 1..]);
        CollectStep(explanations, phrase, Phrases(topWords[i + 1..]), Phrases(topWords));
      }
      explanations := explanations + [phrase];
      i := i + 1;
    }
    assert topWords[i..] == [];
  }

  /**
   * `generate_human_readable_justification`: either the sentinel for no
   * phrases, or the phrases joined by single spaces followed by the advice.
   */
  method GenerateJustification(topWords: seq<Attribution>) returns (r: string)
    ensures r == Render(topWords)
  {
    var explanations := CollectPhrases(topWords);
    if explanations == [] {
      return Unclear;
    }
    r := JoinWith(explanations, " ") + Advice;
  }

  /** Moving the head of the phrases still to come to the end of those collected keeps their concatenation. */
  lemma CollectStep(explanations: seq<string>, head: string, later: seq<string>, all: seq<string>)
    requires explanations + ([head] + later) == all
    ensures (explanations + [head]) + later == all
  {
  }

  // ---------------------------------------------------------------- properties

  predicate EndsWith(s: string, suffix: string) {
    |suffix| <= |s| && s[|s| - |suffix|..] == suffix
  }

  /** The sentinel is returned exactly when there is nothing to explain; otherwise the text ends with the advice. */
  lemma RenderSentinelIff(tw: seq<Attribution>)
    ensures Render(tw) == Unclear <==> tw == []
    ensures tw != [] ==> EndsWith(Render(tw), Advice)
  {
    if tw != [] {
      var body := JoinWith(Phrases(tw), " ");
      assert (body + Advice)[|body|..] == Advice;
      assert |Unclear| < |Advice|;
    }
  }

  /** Phrasing works attribution by attribution. */
  lemma PhrasesCons(a: Attribution, rest: seq<Attribution>)
    ensures Phrases([a] + rest) == [Phrase(a.0, a.1)] + Phrases(rest)
  {
    assert ([a] + rest)[0] == a && ([a] + rest)[1..] == rest;
  }

  /**
   * A non-empty rendering is the phrases in input order with one space
   * between neighbours: splitting off the first phrase leaves the rendering
   * of the remaining attributions.
   */
  lemma RenderCons(a: Attribution, rest: seq<Attribution>)
    ensures rest == [] ==> Render([a] + rest) == Phrase(a.0, a.1) + Advice
    ensures rest != [] ==> Render([a] + rest) == Phrase(a.0, a.1) + " " + Render(rest)
  {
    var ps := Phrases([a] + rest);
    PhrasesCons(a, rest);
    assert ps[0] == Phrase(a.0, a.1) && ps[1..] == Phrases(rest);
  }

  /** Two suffixes of one string: the shorter is a suffix of the longer. */
  lemma EndsWithBoth(s: string, a: string, b: string)
    requires EndsWith(s, a) && EndsWith(s, b) && |b| <= |a|
    ensures EndsWith(a, b)
  {
    assert a[|a| - |b|..] == s[|s| - |b|..];
  }

  const RaisesRisk: string := " (increases risk)"
  const LowersRisk: string := " (reduces risk)"

  /** The two texts the effect part can take. */
  lemma EffectText(v: real)
    ensures Effect(v) == (if v > 0.0 then RaisesRisk else LowersRisk)
  {
    if v > 0.0 {
      assert Direction(v) == Increases;
    } else {
      assert Direction(v) == Reduces;
    }
  }

  /** Whatever precedes it, the effect part of a phrase says "increases" exactly for a positive value. */
  lemma EffectDirection(head: string, v: real)
    ensures EndsWith(head + Effect(v), RaisesRisk) <==> v > 0.0
    ensures EndsWith(head + Effect(v), LowersRisk) <==> v <= 0.0
  {
    var p, tail := head + Effect(v), Effect(v);
    EffectText(v);
    assert EndsWith(p, tail) by {
      assert p[|p| - |tail|..] == tail;
    }
    assert !EndsWith(RaisesRisk, LowersRisk) by {
      assert RaisesRisk[|RaisesRisk| - |LowersRisk|] == 'i' != LowersRisk[0];
    }
    if EndsWith(p, RaisesRisk) && EndsWith(p, LowersRisk) {
      EndsWithBoth(p, RaisesRisk, LowersRisk);
      assert false;
    }
  }

  /** The phrase for an attribution records its direction: "increases" exactly for a positive value. */
  lemma PhraseDirection(w: string, v: real)
    ensures EndsWith(Phrase(w, v), RaisesRisk) <==> v > 0.0
    ensures EndsWith(Phrase(w, v), LowersRisk) <==> v <= 0.0
  {
    EffectDirection(Subject(w), v);
  }

  /** `lower()` is idempotent. */
  lemma LowerIdempotent(s: string)
    ensures Lower(Lower(s)) == Lower(s)
  {
    forall i | 0 <= i < |s| ensures Lower(Lower(s))[i] == Lower(s)[i] {
      var c := s[i];
      assert Lower(s)[i] == LowerChar(c);
    }
  }

  /** A dictionary term is found whatever its letter case: its phrase is that of its lower-case form. */
  lemma PhraseCaseInsensitive(w: string, v: real)
    requires Lower(w) in WordRiskMap
    ensures Phrase(w, v) == Phrase(Lower(w), v)
    ensures Phrase(w, v) == WordRiskMap[Lower(w)] + " (" + Direction(v) + " risk)"
  {
    LowerIdempotent(w);
  }

  /** A term outside the dictionary is quoted exactly as given, case included. */
  lemma PhraseUnknownQuoted(w: string, v: real)
    requires Lower(w) !in WordRiskMap
    ensures Phrase(w, v) == "'" + w + "' (" + Direction(v) + " risk)"
  {
  }

  lemma ExampleKnownPhrase()
    ensures Phrase("confidential", 0.5) == "lack of proper confidentiality clauses (increases risk)"
  {
    assert Lower("confidential") == "confidential";
    assert Subject("confidential") == "lack of proper confidentiality clauses";
    EffectText(0.5);
  }

  lemma ExampleUnknownPhrase()
    ensures Phrase("zzz", -0.2) == "'zzz' (reduces risk)"
  {
    assert Lower("zzz") == "zzz";
    assert Subject("zzz") == "'zzz'";
    EffectText(-0.2);
  }

  /** The phrases of the worked example. */
  lemma ExamplePhrases()
    ensures Phrases([("confidential", 0.5), ("zzz", -0.2)])
      == ["lack of proper confidentiality clauses (increases risk)", "'zzz' (reduces risk)"]
  {
    ExampleKnownPhrase();
    ExampleUnknownPhrase();
  }

  /** The worked example: a dictionary term with a positive value and an unknown term with a negative one. */
  lemma RenderExample()
    ensures Render([("confidential", 0.5), ("zzz", -0.2)])
      == "lack of proper confidentiality clauses (increases risk)" + " " + "'zzz' (reduces risk)" + Advice
  {
    var p0 := "lack of proper confidentiality clauses (increases risk)";
    var p1 := "'zzz' (reduces risk)";
    ExamplePhrases();
    assert JoinWith([p0, p1], " ") == p0 + " " + p1;
  }
}
