/** The subreport check of `get_report_file`: every `<subreportExpression>`
    found in the template names a `.jrxml` file between double quotes, and a
    report action `jasper_reports.<file name without its last six
    characters>` must exist for it. The regular-expression search and the
    `ir.action.report` lookup are inputs: the list of matches and the set of
    existing report names. */
module Subreports {
  import opened Wrappers
  import opened Text

  /** Why a subreport expression is refused. */
  datatype SubreportError =
    | IndexError(expression: string)   // `split('"')[1]` on a text without `"`
    | NotFound(reportName: string)     // "SubReport (%s) not find!"

  /** `s.split(sep)[1]`: the text between the first `sep` and the next one (or
      the end); `None` where Python raises IndexError, as there is no `sep`. */
  function SecondField(s: string, sep: char): Option<string>
  {
    var i := Find(s, sep);
    if i == |s| then None
    else
      var rest := s[i + 1..];
      Some(rest[..Find(rest, sep)])
  }

  /** Python's `s[:-n]` for a positive `n`: all but the last `n` characters,
      or nothing when `s` is shorter. */
  function DropLast(s: string, n: nat): string
  {
    s[..if |s| < n then 0 else |s| - n]
  }

  /** The report name a subreport expression refers to. */
  function SubreportReportName(expression: string): (r: Result<string, SubreportError>)
    ensures r.Failure? <==> '"' !in expression
    ensures r.Failure? ==> r.error == IndexError(expression)
    ensures r.Success? ==> |r.value| >= 15 && r.value[..15] == "jasper_reports."
  {
    match SecondField(expression, '"')
    case None => Failure(IndexError(expression))
    case Some(fname) => Success("jasper_reports." + DropLast(fname, 6))
  }

  /** The expression names a subreport for which a report action exists. */
  predicate Found(expression: string, actions: set<string>)
  {
    var r := SubreportReportName(expression);
    r.Success? && r.value in actions
  }

  /** The error raised for an expression that is not found. */
  function ErrorOf(expression: string, actions: set<string>): SubreportError
  {
    match SubreportReportName(expression)
    case Failure(e) => e
    case Success(name) => NotFound(name)
  }

  /** The index of the first expression that is not found, or the length of
      the list when all are found. */
  function FirstFailure(expressions: seq<string>, actions: set<string>): (i: nat)
    ensures i <= |expressions|
    ensures forall j :: 0 <= j < i ==> Found(expressions[j], actions)
    ensures i < |expressions| ==> !Found(expressions[i], actions)
  {
    if expressions == [] then 0
    else if !Found(expressions[0], actions) then 0
    else 1 + FirstFailure(expressions[1..], actions)
  }

  /** The outcome of the check: the error of the first expression that is not
      found, if any. */
  function SubreportsOutcome(expressions: seq<string>, actions: set<string>): Option<SubreportError>
  {
    var i := FirstFailure(expressions, actions);
    if i == |expressions| then None else Some(ErrorOf(expressions[i], actions))
  }

  /** The loop over the matches: the first match that is malformed or names a
      missing report action stops it with that error. */
  method CheckSubreports(subreports: seq<string>, actions: set<string>) returns (err: Option<SubreportError>)
    ensures err == SubreportsOutcome(subreports, actions)
  {
    var k := 0;
    while k < |subreports|
      invariant 0 <= k <= |subreports|
      invariant forall j :: 0 <= j < k ==> Found(subreports[j], actions)
    {
      var sreport := subreports[k];
      var reportFname := SecondField(sreport, '"');
      if reportFname.None? {
        return Some(IndexError(sreport));
      }
      var reportName := "jasper_reports." + DropLast(reportFname.value, 6);
      if reportName !in actions {
        return Some(NotFound(reportName));
      }
      k := k + 1;
    }
    return None;
  }

  /** An expression of the usual shape `$P{SUBREPORT_DIR} + "<name>.jrxml"`
      refers to the report `jasper_reports.<name>`. */
  lemma NameOfJrxmlExpression(pre: string, name: string, post: string)
    requires '"' !in pre && '"' !in name
    ensures SubreportReportName(pre + "\"" + name + ".jrxml\"" + post) == Success("jasper_reports." + name)
  {
    var e := pre + "\"" + name + ".jrxml\"" + post;
    var fname := name + ".jrxml";
    assert e == pre + ['"'] + (fname + "\"" + post);
    FindAfter(pre, '"', fname + "\"" + post);
    var rest := e[|pre| + 1..];
    assert rest == fname + ['"'] + post;
    assert '"' !in fname by {
      assert forall i :: 0 <= i < |fname| ==> fname[i] == '"' ==> i >= |name|;
    }
    FindAfter(fname, '"', post);
    assert rest[..|fname|] == fname;
    assert DropLast(fname, 6) == name;
  }
}
