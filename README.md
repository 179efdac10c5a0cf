# Jasper report-file resolver

This project models the report-file resolver of the Tryton `jasper_reports`
module (`jasper.py`) and proves properties of the model in Dafny.

`JasperReport.get_report_file` turns an `ir.action.report` record into the path
of its JasperReports template (`.jrxml`) on disk. It first looks the report name
up in a class-level cache. On a miss it picks a working directory, checks every
subreport the template mentions, and refuses an empty template. It then writes
the template under its own file name and walks the report's translations,
writing a `.properties` file for each run of equal languages through
`write_properties`. Last, it caches the template's path and returns it.
`write_properties` writes one `key=value` line per dictionary entry. It
backslash-escapes `:` and space, and it writes the key in place of an empty
value. The helpers `dsn`, `userName` and `password` build the database
connection settings handed to the rendering server.

Modules, one per file:

- `Wrappers` (`wrappers.dfy`): `Option` and `Result`.
- `Text` (`text.dfy`): finding a character in a string.
- `Escaping` (`escaping.dfy`): the escaping, the line format, and a `.properties` reader for one line: splitting a text into lines, finding where a key ends, and undoing the escaping.
- `PropertiesFile` (`properties_file.dfy`): the loop of `write_properties`, and a reader of the whole file.
- `Grouping` (`grouping.dfy`): what the translation loop writes, stated over the whole translation sequence.
- `FileNames` (`file_names.dfy`): `os.path.split`, `os.path.join`, the base name and the properties file name.
- `Subreports` (`subreports.dfy`): subreport name derivation and the check loop.
- `Config` (`config.dfy`): `dsn`, `userName`, `password`.
- `Resolver` (`resolver.dfy`): the class `JasperReport`, with the cache as a `map` field and the disk as a log of file writes.

Behaviour kept as the code has it:

- The dictionary `p` of the translation loop is never cleared. The file written
  for a run therefore holds every surviving pair of all earlier runs, with
  later pairs overriding earlier ones. With sorted input `en, en, fr`, the `fr`
  file also holds the two `en` pairs.
- The loop writes a file whenever the language changes. Input that is not
  sorted by language therefore writes a file for each run, so a language that
  comes back gets a second file.
- A file is named after `lang[0:2]`, not the whole language tag. Languages such
  as `es_AR` and `es_ES` write the same path, and the later file replaces the
  earlier one.
- The code tests `if lang:` before writing, so a run whose language is the empty
  string gets no file.
- `str(report.report_content)` turns a missing content into the text `None`.
  A missing content is therefore not refused as "Missing report file!": the
  text `None` is written as the template. Only an empty content is refused.
- Only `:` and space are escaped. A `.properties` reader ends a key at the
  first unescaped `=`, `:` or blank (space, tab, form feed), so escaping `:`
  and space is what lets such keys read back. Nothing else is escaped, and each
  of these keeps a file from reading back as the dictionary it was written
  from:
  - a line break in a key or a value cuts the entry into two lines of the
    file; so does a `\r`, which the reader modelled here does not treat as a
    line end, though `.properties` readers do;
  - `=`, a tab or a form feed in a key ends the key early;
  - a key starting with `#` or `!` turns its line into a comment;
  - a value starting with a tab or form feed loses it, because blanks before a
    value are skipped;
  - a backslash anywhere is read as an escape.
- The subreport check runs before the empty-content check. A subreport
  expression without a `"` makes `split('"')[1]` raise an IndexError, which is
  modelled as an error of its own.

## Model

| member | source | states |
|---|---|---|
| `Escaping.EscapeIsCharwise` | jasper.py:39-40 | The two chained `replace` calls equal escaping each character on its own: `:` becomes `\:`, space becomes `\ `, and every other character stays as it is |
| `Escaping.EscapeLength` | jasper.py:39-40 | The escaped text is as long as the original plus the number of `:` and space characters |
| `Escaping.EscapeAlphabet` | jasper.py:39-40 | Every character of the escaped text is a backslash or a character of the original |
| `Escaping.UnescapeEscape` | jasper.py:39-40 | A reader that drops each escaping backslash gets the original text back, for any text without a backslash |
| `Escaping.LineRoundTrip` | jasper.py:37-41 | The line written for an entry is a single line of the file and not a blank or comment line, and a `.properties` reader (key ended by the first unescaped `=`, `:` or blank) reads back its key and value, or the key on both sides when the value is empty. Keys may hold `:` and spaces. This needs a key without `=`, tab, form feed, backslash or line break and not starting with `#` or `!`, and a value without backslash or line break and not starting with a tab or form feed |
| `Escaping.UnescapedSeparatorEndsKey` | jasper.py:39-40 | Without the escaping, a `:`, space or `=` after a plain non-empty `a` ends the key: a line `a:b=v` reads back with the key `a` |
| `Escaping.LineBreakSplitsEntry` | jasper.py:39-41 | A line break is not escaped: an entry whose key is `a`, a line break and `b` (plain parts) with a plain value `v` is written as the two file lines `a` and `b=v` |
| `Escaping.EscapeExample` | jasper.py:39-40 | Between parts without `:` or space, a colon is written as `\:` and a space as `\ `, as in `a:b c` written as `a\:b\ c` |
| `Escaping.EscapeUnchanged` | jasper.py:39-40 | A text without `:` or space is written unchanged |
| `Escaping.EscapeAppend` | jasper.py:39-40 | Escaping a concatenation escapes each part on its own |
| `PropertiesFile.RenderProperties` | jasper.py:35-41 | The loop visits every dictionary key exactly once, in some order, and its text is the concatenation of those keys' escaped lines in that order |
| `PropertiesFile.RenderedLines` | jasper.py:35-41 | The text is a concatenation of one entry line per dictionary entry, each of them an entry's line, and every entry's line is there, whatever the iteration order. An entry line is one line of the file only when neither its key nor its value holds a line break |
| `PropertiesFile.ReadRendered` | jasper.py:35-41 | Splitting the written file at its line breaks and reading it as a `.properties` reader does (blank and comment lines skipped, each key ended by its first unescaped `=`, `:` or blank) gives the dictionary back, with the key in place of an empty value, whatever the iteration order. The keys and values must meet the conditions of `Escaping.LineRoundTrip`; keys may hold `:` and spaces |
| `PropertiesFile.EmptyDictionaryEmptyText` | jasper.py:35-41 | An empty dictionary gives an empty file |
| `Grouping.AccumulateKeys` | jasper.py:112-114 | The keys of `p` are exactly the sources of the entries whose source and value are both set |
| `Grouping.AccumulateLastWins` | jasper.py:112-114 | A source maps to the value of its last surviving entry |
| `Grouping.AccumulateGrows` | jasper.py:103-114 | Reading more translations never removes a key from `p` |
| `Grouping.FilesAreCumulative` | jasper.py:102-118 | Each properties file written carries every key of every file written before it |
| `Grouping.FileHoldsEarlierPairs` | jasper.py:102-118 | The file written at the end of a run holds, for each source seen so far in this run or an earlier one, its last surviving value |
| `Grouping.FileCountIsRunCount` | jasper.py:104-118 | With no empty language, one file is written per maximal run of equal languages, and none for no translations |
| `Grouping.EmptyLanguageWritesNothing` | jasper.py:105-117 | A file is written only at the end of a run, and only for a non-empty language |
| `Grouping.TwoLanguagesExample` | jasper.py:102-118 | Sorted `en, en, fr` gives two files, and the `fr` file also holds both `en` pairs |
| `Grouping.ReturningLanguageExample` | jasper.py:102-118 | Unsorted `en, fr, en` gives three files, two of them for `en` |
| `Grouping.SkippedEntryStartsRunExample` | jasper.py:104-114 | An entry with a null source adds nothing to `p` but still starts a run, whose file is then written with an empty dictionary |
| `FileNames.Tail` | jasper.py:86 | The template name is the longest suffix of the report path without `/`, and it is preceded by a `/` unless it is the whole path |
| `FileNames.Basename` | jasper.py:87 | The base name is the longest prefix of the template name without a dot, and it is followed by a dot unless it is the whole name |
| `FileNames.JoinThenTail` | jasper.py:88 | A name without `/` joined onto the directory is found again as the last component of the result |
| `FileNames.JoinKeepsDirectory` | jasper.py:88 | A relative name joined onto a directory gives a path that starts with that directory |
| `FileNames.SameFileIffSamePrefix` | jasper.py:107-108 | Two languages write the same properties file exactly when their first two characters agree |
| `Subreports.SubreportReportName` | jasper.py:69-71 | An expression fails with IndexError exactly when it has no `"`; otherwise the derived name starts with `jasper_reports.` |
| `Subreports.NameOfJrxmlExpression` | jasper.py:69-71 | `... "<name>.jrxml" ...` refers to the report `jasper_reports.<name>` |
| `Subreports.FirstFailure` | jasper.py:68-79 | The index returned is the first expression that is malformed or has no report action, and every expression before it is fine |
| `Subreports.CheckSubreports` | jasper.py:67-79 | The loop fails with the error of the first refused expression, and succeeds when every expression names an existing report action |
| `Config.DsnRoundTrip` | jasper.py:248-253 | For a host without `:` and a port without `/` (after the defaults are applied), the JDBC address reads back as host, port and database name, with `localhost` and `5432` standing in for an unset or empty host and port |
| `Config.UserName` | jasper.py:255-257 | A configured, non-empty database user is the user; an unset or empty one falls back to the system user |
| `Config.Password` | jasper.py:259-261 | `or ''` changes nothing but an unset password, which becomes empty |
| `Resolver.ContentText` | jasper.py:59 | The template text is empty exactly when the content is present and empty; a missing content prints as `None` and so is never refused as missing |
| `Resolver.DiskLastWins` | jasper.py:104-118 | The file at a path holds the text of the last write to that path |
| `Resolver.DiskPaths` | jasper.py:88-93 | The files on disk are exactly the paths written |
| `Resolver.PropertiesFileCount` | jasper.py:102-118 | With no empty language, the log of properties writes has one file per run of languages, and none for no translations |
| `Resolver.SharedPrefixSamePath` | jasper.py:107-108 | Two runs whose languages share their first two letters write the same path |
| `Resolver.JasperReport.constructor` | jasper.py:31 | The cache starts empty and nothing has been written |
| `Resolver.JasperReport.WriteProperties` | jasper.py:34-48 | Appends one write to `filename` whose text is the dictionary's escaped lines in some iteration order; the cache is unchanged |
| `Resolver.JasperReport.GetReportFile` | jasper.py:51-120 | A cache hit returns the cached path with no writes. Otherwise, subreport errors come first and then "Missing report file!", each failing with nothing written and the cache unchanged. On success the template is written to `dir/fname`, the properties files of `FileEnds` follow in order, the cache gains `name -> dir/fname` with the other entries unchanged, and that path is returned |
| `Resolver.JasperReport.WriteTranslations` | jasper.py:95-118 | The loop writes exactly the files of `FileEnds`, in order: each is named `<basename>_<lang[0:2]>.properties` and holds `p` as it stood at the end of its run |
| `Resolver.JasperReport.WriteLanguage` | jasper.py:106-109 | Writing the file for the run that ends at a given index extends the loop's log by that run's file |
| `Resolver.ResolveTwice` | jasper.py:51-120 | After a successful first resolve, a second resolve of the same name returns the same path and writes nothing more. When the first call missed the cache, the two calls together wrote the template plus one file per entry of `FileEnds`; when it hit, nothing was written at all |

## Left out

- `execute` (jasper.py:122-246) is not modelled. It covers CSV generation by the JasperReports library, the XML-RPC call to the rendering server, temporary files, timing and logging. All of it is I/O or foreign calls.
- `systemUserName`, `path` and `addonsPath` query the operating system and the file system. The system user name is a parameter of `Config.UserName`.
- The database searches on `ir.action.report` and `ir.translation` are inputs. The existing report names are a set, and the translations are a sequence in the order the search returns them. The model does not require them to be sorted by language.
- The regular expression that finds the `<subreportExpression>` elements is not modelled. Its matches are an input.
- `tempfile.mkdtemp` is an input. The model does not record that the directory is created before the checks, so it still exists after a failure.
- Encoding is not modelled. Files hold abstract text, and a failure of the `latin1` codec on characters outside Latin-1 is not modelled.
- Write failures (`IOError`) are not modelled. Every write succeeds.
- Paths follow POSIX `os.path` only. On Windows (`os.name == 'nt'`, which jasper.py:265-267 handles), `os.path.split` and `os.path.join` also treat `\` and drive letters as separators. `FileNames.Tail` and `FileNames.Join` do not model that.
- `report.report` is always a string in the model. A null `report.report` makes `os.path.split` at jasper.py:86 raise, and the model has no such error.
- The trytond `Cache` is a plain map. Its per-database keys, its size bound and its invalidation across server processes are not modelled.
- The `CONFIG` defaults at jasper.py:20-27 are not modelled. `db_host`, `db_port`, `db_user` and `db_password` are optional strings, and `db_port` is never an integer.
- The commented-out recursive resolution of subreports (jasper.py:80-81) is not part of the code and is not modelled.
- `Resolver.JasperReport.WriteProperties`: fixes the file's lines but not their order, which is the iteration order of a Python dictionary. `RenderProperties` returns the order it chose.
