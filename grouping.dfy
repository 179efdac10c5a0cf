/** What the translation loop of `JasperReport.get_report_file` writes, stated
    over the whole translation sequence rather than step by step.

    The loop keeps the current language and one dictionary `p` that is never
    cleared. Whenever the language changes, and once after the last
    translation, it writes `p` for the language it was on, unless that
    language is empty. So the file written at the end of a run of equal
    languages holds every surviving pair seen so far, not only that run's. */
module Grouping {
  import opened Wrappers

  /** One row of `ir.translation`; `src` and `value` may be null. */
  datatype Translation = Translation(lang: string, src: Option<string>, value: Option<string>)

  /** An entry with a null source or a null value is skipped. */
  predicate Survives(t: Translation)
  {
    t.src.Some? && t.value.Some?
  }

  /** The dictionary `p` after the translations `ts`: each surviving entry
      sets `src` to `value`, later entries overriding earlier ones. */
  function Accumulate(ts: seq<Translation>): map<string, string>
  {
    if ts == [] then map[]
    else
      var t := ts[|ts| - 1];
      var p := Accumulate(ts[..|ts| - 1]);
      if Survives(t) then p[t.src.value := t.value.value] else p
  }

  /** Index `i` is the last entry of a maximal run of equal languages. */
  predicate RunEnd(ts: seq<Translation>, i: nat)
    requires i < |ts|
  {
    i == |ts| - 1 || ts[i].lang != ts[i + 1].lang
  }

  /** The indices below `n` at which a properties file is written: the ends of
      the runs whose language is not empty, in increasing order. */
  function RunEnds(ts: seq<Translation>, n: nat): (ends: seq<nat>)
    requires n <= |ts|
    ensures forall a :: 0 <= a < |ends| ==> ends[a] < n
    ensures forall a, b :: 0 <= a < b < |ends| ==> ends[a] < ends[b]
  {
    if n == 0 then []
    else RunEnds(ts, n - 1) + (if RunEnd(ts, n - 1) && ts[n - 1].lang != "" then [n - 1] else [])
  }

  /** The indices of all properties files written for `ts`. */
  function FileEnds(ts: seq<Translation>): seq<nat>
  {
    RunEnds(ts, |ts|)
  }

  /** The dictionary of the file written at run end `e`. */
  function FlushEntries(ts: seq<Translation>, e: nat): map<string, string>
    requires e < |ts|
  {
    Accumulate(ts[..e + 1])
  }

  /** The number of maximal runs of equal languages. */
  function RunCount(ts: seq<Translation>): nat
  {
    if ts == [] then 0
    else
      var n := |ts|;
      RunCount(ts[..n - 1]) + (if n >= 2 && ts[n - 2].lang == ts[n - 1].lang then 0 else 1)
  }

  /** The keys of `p` are exactly the sources of the surviving entries. */
  lemma {:induction false} AccumulateKeys(ts: seq<Translation>)
    ensures forall k :: k in Accumulate(ts) <==> exists i :: 0 <= i < |ts| && Survives(ts[i]) && ts[i].src.value == k
  {
    if ts != [] {
      var init := ts[..|ts| - 1];
      AccumulateKeys(init);
      forall k
        ensures k in Accumulate(ts) <==> exists i :: 0 <= i < |ts| && Survives(ts[i]) && ts[i].src.value == k
      {
        if exists i :: 0 <= i < |init| && Survives(init[i]) && init[i].src.value == k {
          var i :| 0 <= i < |init| && Survives(init[i]) && init[i].src.value == k;
          assert ts[i] == init[i];
        }
        if exists i :: 0 <= i < |ts| && Survives(ts[i]) && ts[i].src.value == k {
          var i :| 0 <= i < |ts| && Survives(ts[i]) && ts[i].src.value == k;
          if i < |init| {
            assert init[i] == ts[i];
          }
        }
      }
    }
  }

  /** A later entry with the same source wins: the value of a source in `p`
      is the value of its last surviving entry. */
  lemma {:induction false} AccumulateLastWins(ts: seq<Translation>, i: nat)
    requires i < |ts| && Survives(ts[i])
    requires forall j :: i < j < |ts| && Survives(ts[j]) ==> ts[j].src != ts[i].src
    ensures ts[i].src.value in Accumulate(ts)
    ensures Accumulate(ts)[ts[i].src.value] == ts[i].value.value
  {
    var init := ts[..|ts| - 1];
    if i < |ts| - 1 {
      forall j | i < j < |init| && Survives(init[j])
        ensures init[j].src != init[i].src
      {
        assert init[j] == ts[j];
      }
      AccumulateLastWins(init, i);
    }
  }

  /** A key of `p` stays a key as more translations are read. */
  lemma AccumulateGrows(ts: seq<Translation>, m: nat, n: nat)
    requires m <= n <= |ts|
    ensures Accumulate(ts[..m]).Keys <= Accumulate(ts[..n]).Keys
  {
    AccumulateKeys(ts[..m]);
    AccumulateKeys(ts[..n]);
    forall k | k in Accumulate(ts[..m])
      ensures k in Accumulate(ts[..n])
    {
      var i :| 0 <= i < m && Survives(ts[..m][i]) && ts[..m][i].src.value == k;
      assert ts[..n][i] == ts[i];
    }
  }

  /** The file written for a later run carries every key of the file written
      for an earlier run: `p` is never reset. */
  lemma FilesAreCumulative(ts: seq<Translation>, a: nat, b: nat)
    requires a <= b < |FileEnds(ts)|
    ensures FlushEntries(ts, FileEnds(ts)[a]).Keys <= FlushEntries(ts, FileEnds(ts)[b]).Keys
  {
    var ends := FileEnds(ts);
    AccumulateGrows(ts, ends[a] + 1, ends[b] + 1);
  }

  /** The file written at run end `e` holds the last surviving value of every
      source seen up to `e`, from this run or from any earlier one. */
  lemma FileHoldsEarlierPairs(ts: seq<Translation>, e: nat, i: nat)
    requires e < |ts| && i <= e && Survives(ts[i])
    requires forall j :: i < j <= e && Survives(ts[j]) ==> ts[j].src != ts[i].src
    ensures ts[i].src.value in FlushEntries(ts, e)
    ensures FlushEntries(ts, e)[ts[i].src.value] == ts[i].value.value
  {
    var prefix := ts[..e + 1];
    assert prefix[i] == ts[i];
    forall j | i < j < |prefix| && Survives(prefix[j])
      ensures prefix[j].src != prefix[i].src
    {
      assert prefix[j] == ts[j];
    }
    AccumulateLastWins(prefix, i);
  }

  lemma {:induction false} RunEndsCount(ts: seq<Translation>, n: nat)
    requires 1 <= n <= |ts|
    requires forall i :: 0 <= i < |ts| ==> ts[i].lang != ""
    ensures |RunEnds(ts, n)| + (if RunEnd(ts, n - 1) then 0 else 1) == RunCount(ts[..n])
  {
    assert ts[..n][..n - 1] == ts[..n - 1];
    if n > 1 {
      RunEndsCount(ts, n - 1);
    }
  }

  /** With no empty language, one properties file is written per maximal run
      of equal languages, and none when there are no translations. */
  lemma FileCountIsRunCount(ts: seq<Translation>)
    requires forall i :: 0 <= i < |ts| ==> ts[i].lang != ""
    ensures |FileEnds(ts)| == RunCount(ts)
  {
    if ts != [] {
      RunEndsCount(ts, |ts|);
      assert ts[..|ts|] == ts;
    }
  }

  /** A run whose language is the empty string gets no file: the source tests
      the language for truth before writing. */
  lemma EmptyLanguageWritesNothing(ts: seq<Translation>, a: nat)
    requires a < |FileEnds(ts)|
    ensures ts[FileEnds(ts)[a]].lang != ""
    ensures RunEnd(ts, FileEnds(ts)[a])
  {
    EndsAreNamedRunEnds(ts, |ts|, a);
  }

  lemma {:induction false} EndsAreNamedRunEnds(ts: seq<Translation>, n: nat, a: nat)
    requires n <= |ts| && a < |RunEnds(ts, n)|
    ensures ts[RunEnds(ts, n)[a]].lang != "" && RunEnd(ts, RunEnds(ts, n)[a])
  {
    if a < |RunEnds(ts, n - 1)| {
      EndsAreNamedRunEnds(ts, n - 1, a);
    }
  }

  /** Sorted input with two languages: two files, and the second holds the
      pairs of the first language too. */
  lemma TwoLanguagesExample()
    ensures
      var ts := [Translation("en", Some("Hello"), Some("Bonjour")),
                 Translation("en", Some("Bye"), Some("Au revoir")),
                 Translation("fr", Some("Hi"), Some("Salut"))];
      && FileEnds(ts) == [1, 2]
      && FlushEntries(ts, 1) == map["Hello" := "Bonjour", "Bye" := "Au revoir"]
      && FlushEntries(ts, 2) == map["Hello" := "Bonjour", "Bye" := "Au revoir", "Hi" := "Salut"]
  {
    var ts := [Translation("en", Some("Hello"), Some("Bonjour")),
               Translation("en", Some("Bye"), Some("Au revoir")),
               Translation("fr", Some("Hi"), Some("Salut"))];
    assert RunEnds(ts, 1) == [];
    assert RunEnds(ts, 2) == [1];
    assert RunEnds(ts, 3) == [1, 2];
    assert ts[..1][..0] == [];
    assert Accumulate(ts[..1]) == map["Hello" := "Bonjour"];
    assert ts[..2][..1] == ts[..1];
    assert Accumulate(ts[..2]) == map["Hello" := "Bonjour", "Bye" := "Au revoir"];
    assert ts[..3][..2] == ts[..2];
  }

  /** Unsorted input: a language that comes back starts a new run and gets a
      second file. */
  lemma ReturningLanguageExample()
    ensures
      var ts := [Translation("en", Some("A"), Some("1")),
                 Translation("fr", Some("B"), Some("2")),
                 Translation("en", Some("C"), Some("3"))];
      FileEnds(ts) == [0, 1, 2] && ts[0].lang == ts[2].lang == "en"
  {
    var ts := [Translation("en", Some("A"), Some("1")),
               Translation("fr", Some("B"), Some("2")),
               Translation("en", Some("C"), Some("3"))];
    assert RunEnds(ts, 1) == [0];
    assert RunEnds(ts, 2) == [0, 1];
  }

  /** A skipped entry still starts a new run: its language is written even
      though it adds nothing to the dictionary. */
  lemma SkippedEntryStartsRunExample()
    ensures
      var ts := [Translation("en", None, Some("x")),
                 Translation("fr", Some("a"), Some("1"))];
      FileEnds(ts) == [0, 1] && FlushEntries(ts, 0) == map[]
  {
    var ts := [Translation("en", None, Some("x")),
               Translation("fr", Some("a"), Some("1"))];
    assert RunEnds(ts, 1) == [0];
    assert ts[..1][..0] == [];
  }
}
