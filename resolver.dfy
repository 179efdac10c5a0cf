/** `JasperReport.get_report_file`: resolve a report to the path of its
    template on disk, writing the template and one properties file per run of
    translations, and remember the path per report name.

    The class-level cache is the field `cache`. The disk is the log `writes`
    of the files written, in order; `Disk` gives the files it leaves behind.
    The database lookups are inputs: the subreport expressions found in the
    template, the names of the existing report actions, and the translations
    of the report in the order the search returns them. */
module Resolver {
  import opened Wrappers
  import opened PropertiesFile
  import opened Grouping
  import opened FileNames
  import opened Subreports

  /** The fields of an `ir.action.report` record that the resolver reads:
      `name` (the cache key), `report` (the template's path in the module)
      and `report_content`, which may be missing. */
  datatype Report = Report(name: string, report: string, content: Option<string>)

  /** The exceptions `get_report_file` raises. */
  datatype ResolveError =
    | Subreport(cause: SubreportError)   // a subreport expression is refused
    | MissingReportFile                  // "Missing report file!"

  /** One file written: its path and its whole text. */
  datatype FileWrite = FileWrite(path: string, text: string)

  /** `str(report.report_content)`: a missing content prints as `None`, so
      only a present but empty content gives an empty text. */
  function ContentText(content: Option<string>): (r: string)
    ensures r == "" <==> content == Some("")
  {
    match content
    case Some(c) => c
    case None => "None"
  }

  /** The working directory: the `path` argument when it is given and not
      empty, otherwise the fresh directory `tempfile.mkdtemp` returns. */
  function WorkDir(path: Option<string>, tempDir: string): (r: string)
    ensures path.Some? && path.value != "" ==> r == path.value
    ensures path.None? || path.value == "" ==> r == tempDir
  {
    if path.Some? && path.value != "" then path.value else tempDir
  }

  /** The files on disk after the writes `ws`: a later write to a path
      replaces the earlier one. */
  function Disk(ws: seq<FileWrite>): map<string, string>
  {
    if ws == [] then map[]
    else Disk(ws[..|ws| - 1])[ws[|ws| - 1].path := ws[|ws| - 1].text]
  }

  /** The last write to a path decides what the file holds: two languages with
      the same first two letters write the same properties file, and the
      later one wins. */
  lemma {:induction false} DiskLastWins(ws: seq<FileWrite>, i: nat)
    requires i < |ws|
    requires forall j :: i < j < |ws| ==> ws[j].path != ws[i].path
    ensures ws[i].path in Disk(ws) && Disk(ws)[ws[i].path] == ws[i].text
  {
    if i < |ws| - 1 {
      var init := ws[..|ws| - 1];
      forall j | i < j < |init|
        ensures init[j].path != init[i].path
      {
        assert init[j] == ws[j];
      }
      DiskLastWins(init, i);
    }
  }

  /** The paths on disk are exactly the paths written. */
  lemma {:induction false} DiskPaths(ws: seq<FileWrite>)
    ensures forall p :: p in Disk(ws) <==> exists i :: 0 <= i < |ws| && ws[i].path == p
  {
    if ws != [] {
      var init := ws[..|ws| - 1];
      DiskPaths(init);
      forall p
        ensures p in Disk(ws) <==> exists i :: 0 <= i < |ws| && ws[i].path == p
      {
        if exists i :: 0 <= i < |init| && init[i].path == p {
          var i :| 0 <= i < |init| && init[i].path == p;
          assert ws[i] == init[i];
        }
        if exists i :: 0 <= i < |ws| && ws[i].path == p {
          var i :| 0 <= i < |ws| && ws[i].path == p;
          if i < |init| {
            assert init[i] == ws[i];
          }
        }
      }
    }
  }

  /** `ws` are the properties files written at the run ends `ends`: each is
      named after the run's language and holds the dictionary `p` as it stood
      at the end of that run, in some iteration order. */
  ghost predicate PropertiesWritten(ws: seq<FileWrite>, dir: string, basename: string,
                                    ts: seq<Translation>, ends: seq<nat>)
    requires forall a :: 0 <= a < |ends| ==> ends[a] < |ts|
  {
    && |ws| == |ends|
    && forall a :: 0 <= a < |ends| ==>
         && ws[a].path == Join(dir, PropertiesFileName(basename, ts[ends[a]].lang))
         && RendersAs(ws[a].text, FlushEntries(ts, ends[a]))
  }

  lemma PropertiesWrittenExtend(ws: seq<FileWrite>, w: FileWrite, dir: string, basename: string,
                                ts: seq<Translation>, ends: seq<nat>, e: nat)
    requires forall a :: 0 <= a < |ends| ==> ends[a] < |ts|
    requires e < |ts|
    requires PropertiesWritten(ws, dir, basename, ts, ends)
    requires w.path == Join(dir, PropertiesFileName(basename, ts[e].lang))
    requires RendersAs(w.text, FlushEntries(ts, e))
    ensures PropertiesWritten(ws + [w], dir, basename, ts, ends + [e])
  {
    var ws', ends' := ws + [w], ends + [e];
    forall a | 0 <= a < |ends'|
      ensures ws'[a].path == Join(dir, PropertiesFileName(basename, ts[ends'[a]].lang))
      ensures RendersAs(ws'[a].text, FlushEntries(ts, ends'[a]))
    {
      if a < |ends| {
        assert ws'[a] == ws[a] && ends'[a] == ends[a];
      }
    }
  }

  /** With no empty language, the translation loop writes one properties file
      per maximal run of equal languages, and none for no translations. */
  lemma PropertiesFileCount(ws: seq<FileWrite>, dir: string, basename: string, ts: seq<Translation>)
    requires PropertiesWritten(ws, dir, basename, ts, FileEnds(ts))
    requires forall i :: 0 <= i < |ts| ==> ts[i].lang != ""
    ensures |ws| == RunCount(ts)
    ensures ts == [] ==> ws == []
  {
    FileCountIsRunCount(ts);
  }

  /** Two runs whose languages share their first two letters write the same
      path; by `DiskLastWins` the later file is the one left on disk. */
  lemma SharedPrefixSamePath(ws: seq<FileWrite>, dir: string, basename: string, ts: seq<Translation>,
                             a: nat, b: nat)
    requires PropertiesWritten(ws, dir, basename, ts, FileEnds(ts))
    requires a < b < |FileEnds(ts)|
    requires LangPrefix(ts[FileEnds(ts)[a]].lang) == LangPrefix(ts[FileEnds(ts)[b]].lang)
    ensures ws[a].path == ws[b].path
  {
    var ends := FileEnds(ts);
    SameFileIffSamePrefix(basename, ts[ends[a]].lang, ts[ends[b]].lang);
  }

  class JasperReport {
    /** `_get_report_file_cache`: report name to template path. */
    var cache: map<string, string>
    /** Every file written, in order. */
    var writes: seq<FileWrite>

    constructor ()
      ensures cache == map[] && writes == []
    {
      cache := map[];
      writes := [];
    }

    /** `write_properties`: write the escaped lines of `properties` to
        `filename`. */
    method WriteProperties(filename: string, properties: map<string, string>)
      modifies this
      ensures cache == old(cache)
      ensures |writes| == |old(writes)| + 1 && writes[..|old(writes)|] == old(writes)
      ensures writes[|old(writes)|].path == filename
      ensures RendersAs(writes[|old(writes)|].text, properties)
    {
      var text, order := RenderProperties(properties);
      writes := writes + [FileWrite(filename, text)];
    }

    /** `get_report_file`. On a cache hit it returns the cached path and
        writes nothing. Otherwise it checks the subreports and the content,
        failing with nothing written and the cache unchanged; on success it
        writes the template to `<dir>/<fname>`, then the properties files of
        the translation runs, and caches and returns the template's path. */
    method GetReportFile(report: Report, path: Option<string>, tempDir: string,
                         subreports: seq<string>, actions: set<string>,
                         translations: seq<Translation>)
      returns (r: Result<string, ResolveError>)
      modifies this
      ensures report.name in old(cache) ==>
        r == Success(old(cache)[report.name]) && cache == old(cache) && writes == old(writes)
      ensures r.Failure? ==> cache == old(cache) && writes == old(writes)
      ensures report.name !in old(cache) && SubreportsOutcome(subreports, actions).Some? ==>
        r == Failure(Subreport(SubreportsOutcome(subreports, actions).value))
      ensures report.name !in old(cache) && SubreportsOutcome(subreports, actions).None?
              && ContentText(report.content) == "" ==>
        r == Failure(MissingReportFile)
      ensures report.name !in old(cache) && SubreportsOutcome(subreports, actions).None?
              && ContentText(report.content) != "" ==>
        var dir := WorkDir(path, tempDir);
        var fname := Tail(report.report);
        var n := |old(writes)|;
        && r == Success(Join(dir, fname))
        && cache == old(cache)[report.name := Join(dir, fname)]
        && |writes| > n && writes[..n] == old(writes)
        && writes[n] == FileWrite(Join(dir, fname), ContentText(report.content))
        && PropertiesWritten(writes[n + 1..], dir, Basename(fname), translations, FileEnds(translations))
    {
      if report.name in cache {
        return Success(cache[report.name]);
      }
      var dir := WorkDir(path, tempDir);
      var reportContent := ContentText(report.content);
      var subreportError := CheckSubreports(subreports, actions);
      if subreportError.Some? {
        return Failure(Subreport(subreportError.value));
      }
      if reportContent == "" {
        return Failure(MissingReportFile);
      }
      var fname := Tail(report.report);
      var basename := Basename(fname);
      var jrxmlPath := Join(dir, fname);
      ghost var before := writes;
      writes := writes + [FileWrite(jrxmlPath, reportContent)];
      ghost var withTemplate := writes;
      WriteTranslations(dir, basename, translations);
      assert writes[..|before|] == before by {
        assert writes[..|withTemplate|][..|before|] == withTemplate[..|before|];
      }
      assert writes[|before|] == withTemplate[|before|];
      cache := cache[report.name := jrxmlPath];
      return Success(jrxmlPath);
    }

    /** The translation loop of `get_report_file`: walk the translations with
        the current language and the dictionary `p`, writing `p` whenever the
        language changes and once at the end, unless the language left
        behind is empty. `p` is never cleared. */
    method WriteTranslations(dir: string, basename: string, translations: seq<Translation>)
      modifies this
      ensures cache == old(cache)
      ensures |old(writes)| <= |writes| && writes[..|old(writes)|] == old(writes)
      ensures PropertiesWritten(writes[|old(writes)|..], dir, basename, translations, FileEnds(translations))
    {
      ghost var start := |writes|;
      ghost var head := writes;
      var lang: Option<string> := None;
      var p: map<string, string> := map[];
      for k := 0 to |translations|
        invariant lang == if k == 0 then None else Some(translations[k - 1].lang)
        invariant p == Accumulate(translations[..k])
        invariant cache == old(cache)
        invariant start <= |writes| && writes[..start] == head
        invariant PropertiesWritten(writes[start..], dir, basename, translations,
                                    RunEnds(translations, if k == 0 then 0 else k - 1))
      {
        var translation := translations[k];
        if lang != Some(translation.lang) {
          if lang.Some? && lang.value != "" {
            WriteLanguage(dir, basename, lang.value, p, translations, k - 1, start, head);
          }
          lang := Some(translation.lang);
        }
        assert translations[..k + 1][..k] == translations[..k];
        if translation.src.None? || translation.value.None? {
          continue;
        }
        p := p[translation.src.value := translation.value.value];
      }
      if lang.Some? && lang.value != "" {
        WriteLanguage(dir, basename, lang.value, p, translations, |translations| - 1, start, head);
      }
      assert translations[..|translations|] == translations;
    }

    /** One properties file of the translation loop: the file for the run
        that ends at index `e`, written with the dictionary as it stands. */
    method WriteLanguage(dir: string, basename: string, lang: string, p: map<string, string>,
                         ghost ts: seq<Translation>, ghost e: nat, ghost start: nat,
                         ghost head: seq<FileWrite>)
      requires e < |ts| && RunEnd(ts, e) && lang == ts[e].lang && lang != ""
      requires p == FlushEntries(ts, e)
      requires start <= |writes| && writes[..start] == head
      requires PropertiesWritten(writes[start..], dir, basename, ts, RunEnds(ts, e))
      modifies this
      ensures cache == old(cache)
      ensures start <= |writes| && writes[..start] == head
      ensures PropertiesWritten(writes[start..], dir, basename, ts, RunEnds(ts, e + 1))
    {
      ghost var before := writes;
      WriteProperties(Join(dir, PropertiesFileName(basename, lang)), p);
      ghost var w := writes[|before|];
      assert writes == before + [w];
      assert writes[start..] == before[start..] + [w];
      PropertiesWrittenExtend(before[start..], w, dir, basename, ts, RunEnds(ts, e), e);
    }
  }

  /** Resolving the same report twice: the second call returns the path the
      first one returned and writes nothing more. */
  method ResolveTwice(jasper: JasperReport, report: Report, path: Option<string>, tempDir: string,
                      subreports: seq<string>, actions: set<string>, translations: seq<Translation>)
    returns (first: Result<string, ResolveError>, second: Result<string, ResolveError>)
    modifies jasper
    ensures first.Success? ==> second == first
    ensures first.Success? ==> report.name in jasper.cache
    ensures first.Success? && report.name in old(jasper.cache) ==> jasper.writes == old(jasper.writes)
    ensures first.Success? && report.name !in old(jasper.cache) ==>
      |jasper.writes| == |old(jasper.writes)| + 1 + |FileEnds(translations)|
  {
    first := jasper.GetReportFile(report, path, tempDir, subreports, actions, translations);
    ghost var afterFirst := jasper.writes;
    second := jasper.GetReportFile(report, path, tempDir, subreports, actions, translations);
    assert first.Success? ==> jasper.writes == afterFirst;
  }
}
