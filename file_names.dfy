/** The file names `get_report_file` derives: the template's name is the last
    component of the report path, a properties file is named after the part of
    that name before its first dot and the first two letters of a language,
    and both are joined onto the working directory as `os.path.join` does. */
module FileNames {

  /** `os.path.split(p)[-1]`: the longest suffix of `p` without a `/`. */
  function Tail(p: string): (r: string)
    ensures '/' !in r
    ensures |r| <= |p| && r == p[|p| - |r|..]
    ensures |r| < |p| ==> p[|p| - |r| - 1] == '/'
  {
    if p == [] then []
    else if p[|p| - 1] == '/' then []
    else
      var init := Tail(p[..|p| - 1]);
      init + [p[|p| - 1]]
  }

  /** `fname.split('.')[0]`: the longest prefix of `fname` without a dot. */
  function Basename(fname: string): (r: string)
    ensures '.' !in r
    ensures |r| <= |fname| && r == fname[..|r|]
    ensures |r| < |fname| ==> fname[|r|] == '.'
  {
    if fname == [] then []
    else if fname[0] == '.' then []
    else [fname[0]] + Basename(fname[1..])
  }

  /** `os.path.join(dir, name)` on POSIX: an absolute `name` replaces `dir`;
      otherwise a `/` is put between them unless `dir` is empty or already
      ends with one. */
  function Join(dir: string, name: string): string
  {
    if |name| > 0 && name[0] == '/' then name
    else if dir == [] || dir[|dir| - 1] == '/' then dir + name
    else dir + "/" + name
  }

  /** `lang[0:2]`: at most the first two characters. */
  function LangPrefix(lang: string): string
  {
    lang[..if |lang| < 2 then |lang| else 2]
  }

  /** `'%s_%s.properties' % (basename, lang[0:2])`. */
  function PropertiesFileName(basename: string, lang: string): string
  {
    basename + "_" + LangPrefix(lang) + ".properties"
  }

  lemma {:induction false} TailAfterSeparator(dir: string, name: string)
    requires '/' !in name
    requires dir == [] || dir[|dir| - 1] == '/'
    ensures Tail(dir + name) == name
  {
    if name == [] {
      assert dir + name == dir;
    } else {
      var init := name[..|name| - 1];
      assert (dir + name)[..|dir + name| - 1] == dir + init;
      assert name == init + [name[|name| - 1]];
      TailAfterSeparator(dir, init);
    }
  }

  /** A name without `/` joined onto a directory is found again as the last
      component of the result; so the template is written under its own name. */
  lemma JoinThenTail(dir: string, name: string)
    requires '/' !in name
    ensures Tail(Join(dir, name)) == name
  {
    assert name == [] || name[0] != '/' by {
      if name != [] {
        assert name[0] in name;
      }
    }
    if dir == [] || dir[|dir| - 1] == '/' {
      TailAfterSeparator(dir, name);
    } else {
      assert dir + "/" + name == (dir + "/") + name;
      TailAfterSeparator(dir + "/", name);
    }
  }

  /** A relative name joined onto a directory stays inside that directory. */
  lemma JoinKeepsDirectory(dir: string, name: string)
    requires name == [] || name[0] != '/'
    ensures |dir| <= |Join(dir, name)| && Join(dir, name)[..|dir|] == dir
  {
  }

  /** Two languages target the same properties file exactly when their first
      two characters agree: `es_ES` and `es_AR` share `<basename>_es.properties`. */
  lemma SameFileIffSamePrefix(basename: string, lang1: string, lang2: string)
    ensures PropertiesFileName(basename, lang1) == PropertiesFileName(basename, lang2)
        <==> LangPrefix(lang1) == LangPrefix(lang2)
  {
    var p1, p2 := LangPrefix(lang1), LangPrefix(lang2);
    var f1, f2 := PropertiesFileName(basename, lang1), PropertiesFileName(basename, lang2);
    if f1 == f2 {
      var n := |basename| + 1;
      assert |p1| == |p2|;
      assert f1[n..n + |p1|] == p1;
      assert f2[n..n + |p2|] == p2;
    }
  }
}
