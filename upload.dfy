/**
 * The upload request: the file-type check, the clause-type classification of
 * one clause, and the assembly of the response from the clauses of the
 * extracted text. The clause-type pipeline, its code-to-label map and the
 * risk models are collaborators given in a registry; the text the extractor
 * yields for the uploaded file is a parameter.
 */
module Upload {
  import opened Wrappers
  import opened Text
  import opened Segmenter
  import opened RiskScorer

  // ---------------------------------------------------------------- the file-type check

  /** The accepted extensions, in lower case. */
  const AllowedExtensions: set<string> := {"pdf", "docx"}

  /** The index of the last '.' in `s`, if there is one. */
  function LastDot(s: string): (r: Option<nat>)
    ensures r.Some? ==> r.value < |s| && s[r.value] == '.' && forall j :: r.value < j < |s| ==> s[j] != '.'
    ensures r.None? ==> forall j :: 0 <= j < |s| ==> s[j] != '.'
  {
    if s == [] then None
    else if s[|s| - 1] == '.' then Some(|s| - 1)
    else
      var r := LastDot(s[..|s| - 1]);
      assert forall j :: 0 <= j < |s| - 1 ==> s[..|s| - 1][j] == s[j];
      r
  }

  /** `allowed_file`: the name has a '.', and the text after the last one, lower-cased, is an accepted extension. */
  function AllowedFile(filename: string): bool {
    match LastDot(filename)
    case None => false
    case Some(i) => Lower(filename[i + 1..]) in AllowedExtensions
  }

  /** A name is accepted exactly when it has a last '.' and what follows it is "pdf" or "docx" in any letter case. */
  lemma AllowedFileIff(filename: string)
    ensures AllowedFile(filename) <==>
      exists i :: 0 <= i < |filename| && filename[i] == '.'
        && (forall j :: i < j < |filename| ==> filename[j] != '.')
        && Lower(filename[i + 1..]) in AllowedExtensions
  {
    var d := LastDot(filename);
    if d.Some? && Lower(filename[d.value + 1..]) in AllowedExtensions {
      assert filename[d.value] == '.';
    }
    forall i | 0 <= i < |filename| && filename[i] == '.' && (forall j :: i < j < |filename| ==> filename[j] != '.')
      ensures d == Some(i)
    {
      assert d.Some?;
      assert !(d.value < i) && !(i < d.value);
    }
  }

  /** The last '.' is the only one at or after which no other '.' follows. */
  lemma LastDotAt(s: string, i: nat)
    requires i < |s| && s[i] == '.' && forall j :: i < j < |s| ==> s[j] != '.'
    ensures LastDot(s) == Some(i)
  {
    var d := LastDot(s);
    assert d.Some?;
    assert !(d.value < i) && !(i < d.value);
  }

  lemma AllowedFileAccepts()
    ensures AllowedFile("contract.pdf") && AllowedFile("Contract.DOCX") && AllowedFile("v1.txt.pdf")
  {
    LastDotAt("contract.pdf", 8);
    assert "contract.pdf"[9..] == "pdf";
    assert Lower("pdf") == "pdf";
    LastDotAt("Contract.DOCX", 8);
    assert "Contract.DOCX"[9..] == "DOCX";
    assert Lower("DOCX") == "docx";
    LastDotAt("v1.txt.pdf", 6);
    assert "v1.txt.pdf"[7..] == "pdf";
  }

  lemma AllowedFileRejects()
    ensures !AllowedFile("contract.txt") && !AllowedFile("a.pdf.txt") && !AllowedFile("pdf") && !AllowedFile("")
  {
    LastDotAt("contract.txt", 8);
    assert "contract.txt"[9..] == "txt";
    assert Lower("txt") == "txt";
    LastDotAt("a.pdf.txt", 5);
    assert "a.pdf.txt"[6..] == "txt";
  }

  // ---------------------------------------------------------------- the clause-type classifier

  /** The clause-type pipeline: the class code of a clause and its largest class probability; either call may raise. */
  datatype ClausePipeline = ClausePipeline(predict: string -> Result<int>, maxProba: string -> Result<real>)

  /** The clause-type part of a clause's analysis. */
  datatype Classification = Classification(clauseType: string, confidence: real)

  /** The classification when the pipeline is missing or its prediction fails. */
  const NotClassified: Classification := Classification("N/A", 0.0)

  /** The label of a class code: its name in the class map, or "Unknown (<code>)". */
  function ClassLabel(classMap: map<int, string>, code: int): string {
    if code in classMap then classMap[code] else "Unknown (" + IntToString(code) + ")"
  }

  /**
   * The phase-1 block of `upload_file`: the defaults stay when there is no
   * pipeline or its prediction raises; when only the probability raises the
   * label has already been set and the confidence stays 0.
   */
  function Classify(pipeline: Option<ClausePipeline>, classMap: map<int, string>, clause: string): Classification {
    match pipeline
    case None => NotClassified
    case Some(p) =>
      if p.predict(clause).Raised? then NotClassified
      else
        var name := ClassLabel(classMap, p.predict(clause).value);
        if p.maxProba(clause).Raised? then Classification(name, 0.0)
        else Classification(name, p.maxProba(clause).value)
  }

  /** An unmapped code is named in its label, so distinct unmapped codes get distinct labels. */
  lemma ClassLabelUnknownNamesCode(classMap: map<int, string>, a: int, b: int)
    requires a !in classMap && b !in classMap
    ensures ClassLabel(classMap, a) == ClassLabel(classMap, b) <==> a == b
  {
    var pre := "Unknown (";
    if ClassLabel(classMap, a) == ClassLabel(classMap, b) {
      var la, lb := ClassLabel(classMap, a), ClassLabel(classMap, b);
      assert la[|pre|..|la| - 1] == IntToString(a);
      assert lb[|pre|..|lb| - 1] == IntToString(b);
      IntToStringInjective(a, b);
    }
  }

  /**
   * Once the pipeline has predicted a code, the label is that code's label
   * whether or not the probability can be computed; otherwise the defaults
   * remain.
   */
  lemma ClassifyOutcomes(pipeline: Option<ClausePipeline>, classMap: map<int, string>, clause: string)
    ensures var c := Classify(pipeline, classMap, clause);
      && (pipeline.None? || pipeline.value.predict(clause).Raised? ==> c == NotClassified)
      && (pipeline.Some? && pipeline.value.predict(clause).Ok? ==>
            c.clauseType == ClassLabel(classMap, pipeline.value.predict(clause).value)
            && (pipeline.value.maxProba(clause).Raised? ==> c.confidence == 0.0)
            && (pipeline.value.maxProba(clause).Ok? ==> c.confidence == pipeline.value.maxProba(clause).value))
  {
  }

  // ---------------------------------------------------------------- the request

  /** The loaded collaborators. */
  datatype Registry = Registry(clausePipeline: Option<ClausePipeline>, classMap: map<int, string>, risk: RiskModels)

  /** The uploaded part of the request: only its name matters here. */
  datatype UploadedFile = UploadedFile(filename: string)

  /** One clause with its two analyses. */
  datatype AnalysisRecord = AnalysisRecord(clause: string, phase1: Classification, phase3: RiskResult)

  /** An error with its status code, or the analysis of every clause with their count. */
  datatype Response =
    | Failure(status: nat, error: string)
    | Success(totalClauses: nat, analysis: seq<AnalysisRecord>)

  /** The record for one clause. */
  function Record(clause: string, reg: Registry): AnalysisRecord {
    AnalysisRecord(clause, Classify(reg.clausePipeline, reg.classMap, clause), AnalyzeRisk(reg.risk, clause))
  }

  /**
   * The phase-1 block of the per-clause loop: starts from the defaults and
   * overwrites the label and then the confidence as each pipeline call
   * succeeds.
   */
  method ClassifyClause(pipeline: Option<ClausePipeline>, classMap: map<int, string>, clause: string)
    returns (c: Classification)
    ensures c == Classify(pipeline, classMap, clause)
  {
    var phase1Pred := "N/A";
    var phase1Conf := 0.0;
    if pipeline.Some? {
      var p := pipeline.value;
      match p.predict(clause)
      case Raised(_) =>
      case Ok(code) =>
        phase1Pred := ClassLabel(classMap, code);
        match p.maxProba(clause)
        case Raised(_) =>
        case Ok(conf) => phase1Conf := conf;
    }
    c := Classification(phase1Pred, phase1Conf);
  }

  /** The per-clause loop of `upload_file`: one record per clause, appended in clause order. */
  method AnalyzeClauses(clauses: seq<string>, reg: Registry) returns (results: seq<AnalysisRecord>)
    ensures |results| == |clauses|
    ensures forall k :: 0 <= k < |clauses| ==> results[k] == Record(clauses[k], reg)
  {
    results := [];
    var i := 0;
    while i < |clauses|
      invariant 0 <= i <= |clauses|
      invariant |results| == i
      invariant forall k :: 0 <= k < i ==> results[k] == Record(clauses[k], reg)
    {
      var clause := clauses[i];
      var phase1 := ClassifyClause(reg.clausePipeline, reg.classMap, clause);
      var riskOutput := AnalyzeRisk(reg.risk, clause);
      results := results + [AnalysisRecord(clause, phase1, riskOutput)];
      i := i + 1;
    }
  }

  /**
   * `upload_file`: rejects a missing file and a name without an accepted
   * extension (400), text that is empty or yields no clauses (422); otherwise
   * one record per clause, in clause order, with their count.
   */
  method UploadFile(file: Option<UploadedFile>, extracted: string, reg: Registry) returns (resp: Response)
    ensures file.None? ==> resp == Failure(400, "No file provided")
    ensures file.Some? && !AllowedFile(file.value.filename) ==> resp == Failure(400, "Invalid file type")
    ensures file.Some? && AllowedFile(file.value.filename) && extracted == [] ==>
      resp == Failure(422, "No readable text found.")
    ensures file.Some? && AllowedFile(file.value.filename) && extracted != [] && Segment(extracted) == [] ==>
      resp == Failure(422, "No clauses detected.")
    ensures file.Some? && AllowedFile(file.value.filename) && extracted != [] && Segment(extracted) != [] ==>
      && resp.Success?
      && resp.totalClauses == |resp.analysis| == |Segment(extracted)|
      && (forall k :: 0 <= k < |resp.analysis| ==> resp.analysis[k] == Record(Segment(extracted)[k], reg))
    ensures resp.Success? ==> forall k :: 0 <= k < |resp.analysis| ==>
      |resp.analysis[k].clause| > MinClauseLength && |resp.analysis[k].phase3.justification| > 0
  {
    if file.None? {
      return Failure(400, "No file provided");
    }
    var filename := file.value.filename;
    if filename == "" || !AllowedFile(filename) {
      return Failure(400, "Invalid file type");
    }
    var text := extracted;
    if text == [] {
      return Failure(422, "No readable text found.");
    }
    var clauses := SplitIntoClauses(text);
    if clauses == [] {
      return Failure(422, "No clauses detected.");
    }
    SegmentClausesWellFormed(text);
    var results := AnalyzeClauses(clauses, reg);
    resp := Success(|clauses|, results);
  }
}
