/** The text `JasperReport.write_properties` builds from a dictionary: one
    escaped `key=value` line per entry, in dictionary iteration order. */
module PropertiesFile {
  import opened Escaping

  /** `order` is one iteration order of the dictionary: every key exactly once. */
  ghost predicate Enumerates(order: seq<string>, props: map<string, string>)
  {
    && (forall k :: k in props <==> k in order)
    && (forall i, j :: 0 <= i < j < |order| ==> order[i] != order[j])
  }

  /** The lines written for the keys of `order`, in that order. */
  function LinesOf(props: map<string, string>, order: seq<string>): (lines: seq<string>)
    requires forall k :: k in order ==> k in props
    ensures |lines| == |order|
  {
    seq(|order|, i requires 0 <= i < |order| => Line(order[i], props[order[i]]))
  }

  /** The lines joined together. */
  function Concat(lines: seq<string>): string
  {
    if lines == [] then [] else Concat(lines[..|lines| - 1]) + lines[|lines| - 1]
  }

  /** The file text when the dictionary is iterated in the order `order`. */
  function Render(props: map<string, string>, order: seq<string>): string
    requires forall k :: k in order ==> k in props
  {
    if order == [] then []
    else Render(props, order[..|order| - 1]) + Line(order[|order| - 1], props[order[|order| - 1]])
  }

  /** `text` is what `write_properties` may write for `props`, whatever order
      the dictionary is iterated in. */
  ghost predicate RendersAs(text: string, props: map<string, string>)
  {
    exists order :: Enumerates(order, props) && text == Render(props, order)
  }

  /** The loop of `write_properties`: it visits each key once, in an order the
      dictionary chooses, and appends that entry's escaped line to the text. */
  method RenderProperties(props: map<string, string>) returns (text: string, order: seq<string>)
    ensures Enumerates(order, props)
    ensures text == Render(props, order)
  {
    text, order := "", [];
    var rest := props.Keys;
    while rest != {}
      invariant forall k :: k in props <==> k in rest || k in order
      invariant forall k :: k in rest ==> k !in order
      invariant forall i, j :: 0 <= i < j < |order| ==> order[i] != order[j]
      invariant text == Render(props, order)
      decreases rest
    {
      var key :| key in rest;
      var value := props[key];
      if value == "" {
        value := key;
      }
      var escapedKey := Escape(key);
      var escapedValue := Escape(value);
      var line := escapedKey + "=" + escapedValue + "\n";
      assert line == Line(key, props[key]);
      assert (order + [key])[..|order|] == order;
      text := text + line;
      order := order + [key];
      rest := rest - {key};
    }
  }

  lemma {:induction false} DistinctLength(order: seq<string>, keys: set<string>)
    requires forall k :: k in keys <==> k in order
    requires forall i, j :: 0 <= i < j < |order| ==> order[i] != order[j]
    ensures |order| == |keys|
  {
    if order != [] {
      var last := order[|order| - 1];
      var init := order[..|order| - 1];
      assert forall k :: k in keys - {last} <==> k in init by {
        forall k
          ensures k in keys - {last} <==> k in init
        {
          if k in init {
            var i :| 0 <= i < |init| && init[i] == k;
            assert order[i] != last;
          }
          if k in order && k != last {
            var i :| 0 <= i < |order| && order[i] == k;
            assert i < |order| - 1;
            assert init[i] == k;
          }
        }
      }
      DistinctLength(init, keys - {last});
    } else {
      assert forall k :: k !in keys;
      assert keys == {};
    }
  }

  lemma {:induction false} RenderIsConcat(props: map<string, string>, order: seq<string>)
    requires forall k :: k in order ==> k in props
    ensures Render(props, order) == Concat(LinesOf(props, order))
  {
    if order != [] {
      var init := order[..|order| - 1];
      assert LinesOf(props, order)[..|order| - 1] == LinesOf(props, init);
      RenderIsConcat(props, init);
    }
  }

  /** The text written for a dictionary is the concatenation of exactly one
      line per entry: as many lines as entries, each the line of an entry,
      and every entry's line among them. */
  lemma RenderedLines(props: map<string, string>, order: seq<string>)
    requires Enumerates(order, props)
    ensures Render(props, order) == Concat(LinesOf(props, order))
    ensures |LinesOf(props, order)| == |props|
    ensures forall l :: l in LinesOf(props, order) <==> exists k :: k in props && l == Line(k, props[k])
  {
    RenderIsConcat(props, order);
    DistinctLength(order, props.Keys);
    var lines := LinesOf(props, order);
    forall l
      ensures l in lines <==> exists k :: k in props && l == Line(k, props[k])
    {
      if l in lines {
        var i :| 0 <= i < |lines| && lines[i] == l;
        assert order[i] in props && l == Line(order[i], props[order[i]]);
      }
      if exists k :: k in props && l == Line(k, props[k]) {
        var k :| k in props && l == Line(k, props[k]);
        var i :| 0 <= i < |order| && order[i] == k;
        assert lines[i] == l;
      }
    }
  }

  /** An empty dictionary gives an empty file. */
  lemma EmptyDictionaryEmptyText(text: string)
    requires RendersAs(text, map[])
    ensures text == ""
  {
    var order :| Enumerates(order, map[]) && text == Render(map[], order);
    DistinctLength(order, {});
  }
  /** A reader of a whole file: blank and comment lines are skipped, every
      other line is read with `ReadLine`, and a later line for the same key
      overrides an earlier one. */
  function ReadAll(lines: seq<string>): map<string, string>
  {
    if lines == [] then map[]
    else
      var line := lines[|lines| - 1];
      var before := ReadAll(lines[..|lines| - 1]);
      if Ignored(line) then before else before[ReadLine(line).0 := ReadLine(line).1]
  }

  /** The dictionary with the key in place of each empty value. */
  function Filled(props: map<string, string>): map<string, string>
  {
    map k | k in props :: if props[k] == "" then k else props[k]
  }

  /** Every key and value is one that the escaping writes so that it reads back. */
  predicate Plain(props: map<string, string>)
  {
    forall k :: k in props ==> PlainKey(k) && PlainValue(props[k])
  }

  lemma ReadAllAppend(lines: seq<string>, line: string)
    requires !Ignored(line)
    ensures ReadAll(lines + [line]) == ReadAll(lines)[ReadLine(line).0 := ReadLine(line).1]
  {
    assert (lines + [line])[..|lines|] == lines;
  }

  /** The entries of `props` whose keys are in `order`, filled as `Line` fills them. */
  function FilledOn(props: map<string, string>, order: seq<string>): map<string, string>
  {
    map k | k in props && k in order :: if props[k] == "" then k else props[k]
  }

  lemma FilledOnAppend(props: map<string, string>, order: seq<string>, key: string)
    requires key in props
    ensures FilledOn(props, order + [key])
         == FilledOn(props, order)[key := if props[key] == "" then key else props[key]]
  {
    assert forall k :: k in order + [key] <==> k in order || k == key;
  }

  /** The line of an entry, without its line break, as the reader sees it. */
  lemma EntryLine(key: string, value: string) returns (body: string)
    requires PlainKey(key) && PlainValue(value)
    ensures Line(key, value) == body + "\n"
    ensures '\n' !in body && !Ignored(body)
    ensures ReadLine(body) == (key, if value == "" then key else value)
  {
    body := LineBody(key, value);
    LineRoundTrip(key, value);
  }

  /** Appending a line the reader does not skip adds that line's entry. */
  lemma ReadAppendedText(before: string, line: string, key: string, value: string)
    requires before == [] || before[|before| - 1] == '\n'
    requires '\n' !in line && !Ignored(line) && ReadLine(line) == (key, value)
    ensures ReadAll(SplitLines(before + line + "\n")) == ReadAll(SplitLines(before))[key := value]
  {
    SplitLinesAppend(before, line);
    ReadAllAppend(SplitLines(before), line);
  }

  /** The last entry of an order: its line ends the rendered text, the reader
      reads that line as the entry, and the entry extends the expected map. */
  lemma RenderStep(props: map<string, string>, order: seq<string>)
    returns (init: seq<string>, key: string, body: string)
    requires Plain(props)
    requires order != [] && forall k :: k in order ==> k in props
    ensures |init| < |order| && forall k :: k in init ==> k in props
    ensures key in props
    ensures Render(props, order) == Render(props, init) + body + "\n"
    ensures '\n' !in body && !Ignored(body)
    ensures ReadLine(body) == (key, if props[key] == "" then key else props[key])
    ensures FilledOn(props, order) == FilledOn(props, init)[key := if props[key] == "" then key else props[key]]
  {
    init, key := order[..|order| - 1], order[|order| - 1];
    assert order == init + [key];
    assert PlainKey(key) && PlainValue(props[key]);
    body := EntryLine(key, props[key]);
    FilledOnAppend(props, init, key);
  }

  lemma {:induction false} ReadRenderedPrefix(props: map<string, string>, order: seq<string>)
    requires Plain(props)
    requires forall k :: k in order ==> k in props
    ensures var text := Render(props, order); text == [] || text[|text| - 1] == '\n'
    ensures ReadAll(SplitLines(Render(props, order))) == FilledOn(props, order)
    decreases |order|
  {
    if order != [] {
      var init, key, body := RenderStep(props, order);
      ReadRenderedPrefix(props, init);
      ReadAppendedText(Render(props, init), body, key, if props[key] == "" then key else props[key]);
    }
  }

  /** Splitting a written file at its line breaks and reading each line as a
      `.properties` reader does gives the dictionary back, with the key in
      place of an empty value, whatever order the dictionary was iterated in.
      This holds for keys and values that are `PlainKey` and `PlainValue`:
      keys may hold `:` and spaces, which the escaping protects. */
  lemma ReadRendered(text: string, props: map<string, string>)
    requires Plain(props)
    requires RendersAs(text, props)
    ensures ReadAll(SplitLines(text)) == Filled(props)
  {
    var order :| Enumerates(order, props) && text == Render(props, order);
    ReadRenderedPrefix(props, order);
  }
}
