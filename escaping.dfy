/** The escaping that `JasperReport.write_properties` applies to keys and values
    before writing them to a `.properties` file, and the line format it writes. */
module Escaping {
  import opened Text

  /** Python's `s.replace(c, rep)` for a one-character pattern `c`: every
      occurrence of `c`, scanning left to right, is replaced by `rep`. */
  function ReplaceAll(s: string, c: char, rep: string): string
  {
    if s == [] then []
    else (if s[0] == c then rep else [s[0]]) + ReplaceAll(s[1..], c, rep)
  }

  /** The escaping as the source writes it: first every `:` becomes `\:`,
      then every space becomes `\ `. */
  function Escape(s: string): string
  {
    ReplaceAll(ReplaceAll(s, ':', "\\:"), ' ', "\\ ")
  }

  /** The escape of a single character. */
  function EscapeChar(c: char): string
  {
    if c == ':' then "\\:" else if c == ' ' then "\\ " else [c]
  }

  /** A reference escaping that treats each character on its own. */
  function EscapeEach(s: string): string
  {
    if s == [] then [] else EscapeChar(s[0]) + EscapeEach(s[1..])
  }

  /** The number of occurrences of `c` in `s`. */
  function Occurrences(s: string, c: char): nat
  {
    if s == [] then 0 else (if s[0] == c then 1 else 0) + Occurrences(s[1..], c)
  }

  /** A reader that drops each escaping backslash: a backslash stands for
      the character that follows it. */
  function Unescape(t: string): string
  {
    if t == [] then []
    else if t[0] == '\\' && |t| > 1 then [t[1]] + Unescape(t[2..])
    else [t[0]] + Unescape(t[1..])
  }

  lemma {:induction false} ReplaceAllAppend(a: string, b: string, c: char, rep: string)
    ensures ReplaceAll(a + b, c, rep) == ReplaceAll(a, c, rep) + ReplaceAll(b, c, rep)
  {
    if a != [] {
      assert (a + b)[1..] == a[1..] + b;
      ReplaceAllAppend(a[1..], b, c, rep);
    } else {
      assert a + b == b;
    }
  }

  /** The two chained replacements do not interfere: escaping `:` first and
      space second is the same as escaping each character on its own. */
  lemma {:induction false} EscapeIsCharwise(s: string)
    ensures Escape(s) == EscapeEach(s)
  {
    if s != [] {
      var head := if s[0] == ':' then "\\:" else [s[0]];
      var first := ReplaceAll(s, ':', "\\:");
      assert first == head + ReplaceAll(s[1..], ':', "\\:");
      ReplaceAllAppend(head, ReplaceAll(s[1..], ':', "\\:"), ' ', "\\ ");
      assert ReplaceAll(head, ' ', "\\ ") == EscapeChar(s[0]) by {
        if s[0] == ':' {
          assert ReplaceAll(head[1..], ' ', "\\ ") == [':'];
        } else if s[0] == ' ' {
          assert ReplaceAll(head[1..], ' ', "\\ ") == [];
        } else {
          assert ReplaceAll(head[1..], ' ', "\\ ") == [];
        }
      }
      EscapeIsCharwise(s[1..]);
    }
  }

  /** Escaping adds exactly one backslash per `:` and per space and changes
      the length in no other way. */
  lemma {:induction false} EscapeLength(s: string)
    ensures |Escape(s)| == |s| + Occurrences(s, ':') + Occurrences(s, ' ')
  {
    EscapeIsCharwise(s);
    EscapeEachLength(s);
  }

  lemma {:induction false} EscapeEachLength(s: string)
    ensures |EscapeEach(s)| == |s| + Occurrences(s, ':') + Occurrences(s, ' ')
  {
    if s != [] {
      EscapeEachLength(s[1..]);
    }
  }

  /** Every character of an escaped text is a backslash or a character of the
      original text: escaping introduces nothing else. */
  lemma {:induction false} EscapeAlphabet(s: string)
    ensures forall i :: 0 <= i < |Escape(s)| ==> Escape(s)[i] == '\\' || Escape(s)[i] in s
  {
    EscapeIsCharwise(s);
    EscapeEachAlphabet(s);
  }

  lemma {:induction false} EscapeEachAlphabet(s: string)
    ensures forall i :: 0 <= i < |EscapeEach(s)| ==> EscapeEach(s)[i] == '\\' || EscapeEach(s)[i] in s
  {
    if s != [] {
      EscapeEachAlphabet(s[1..]);
      var t := EscapeEach(s);
      var h := EscapeChar(s[0]);
      assert t == h + EscapeEach(s[1..]);
      forall i | 0 <= i < |t|
        ensures t[i] == '\\' || t[i] in s
      {
        if i >= |h| {
          assert t[i] == EscapeEach(s[1..])[i - |h|];
        }
      }
    }
  }

  /** Reading an escaped text back gives the original text, provided the
      text holds no backslash (the escaping leaves backslashes as they are). */
  lemma {:induction false} UnescapeEscape(s: string)
    requires '\\' !in s
    ensures Unescape(Escape(s)) == s
  {
    EscapeIsCharwise(s);
    UnescapeEscapeEach(s);
  }

  lemma {:induction false} UnescapeEscapeEach(s: string)
    requires '\\' !in s
    ensures Unescape(EscapeEach(s)) == s
  {
    if s != [] {
      var rest := EscapeEach(s[1..]);
      var t := EscapeChar(s[0]) + rest;
      assert EscapeEach(s) == t;
      UnescapeEscapeEach(s[1..]);
      if s[0] == ':' || s[0] == ' ' {
        assert t[2..] == rest;
      } else {
        assert t[1..] == rest;
      }
    }
  }

  /** The `key=value` text that `write_properties` writes for one dictionary
      entry, before its line break; an empty value is replaced by the key. */
  function LineBody(key: string, value: string): string
  {
    Escape(key) + "=" + Escape(if value == "" then key else value)
  }

  /** The whole line written for one entry. */
  function Line(key: string, value: string): string
  {
    LineBody(key, value) + "\n"
  }

  /** A reader's first step: cut a text into the lines that end at each line
      break (a last piece without a line break counts as a line too). */
  function SplitLines(text: string): seq<string>
    decreases |text|
  {
    if text == [] then []
    else
      var i := Find(text, '\n');
      if i == |text| then [text] else [text[..i]] + SplitLines(text[i + 1..])
  }

  /** The blanks a `.properties` reader skips and that end a key: space, tab
      and form feed. */
  predicate IsBlank(c: char)
  {
    c == ' ' || c == '\t' || c == '\U{000C}'
  }

  /** A character that ends a key unless a backslash escapes it. */
  predicate EndsKey(c: char)
  {
    c == '=' || c == ':' || IsBlank(c)
  }

  /** The text after its leading blanks. */
  function SkipBlanks(s: string): (r: string)
    ensures r == [] || !IsBlank(r[0])
  {
    if s != [] && IsBlank(s[0]) then SkipBlanks(s[1..]) else s
  }

  /** Where a key ends: at the first `=`, `:` or blank that no backslash
      escapes, or at the end of the line. */
  function KeyEnd(s: string): (i: nat)
    ensures i <= |s|
    ensures i < |s| ==> EndsKey(s[i])
  {
    if s == [] then 0
    else if s[0] == '\\' then (if |s| == 1 then 1 else 2 + KeyEnd(s[2..]))
    else if EndsKey(s[0]) then 0
    else 1 + KeyEnd(s[1..])
  }

  /** The value that follows a key ended by `sep`, given the text after `sep`
      with its leading blanks skipped: a key ended by a blank may still be
      followed by one `=` or `:`, which is skipped with the blanks after it. */
  function ValueAfter(sep: char, rest: string): string
  {
    if IsBlank(sep) && rest != [] && (rest[0] == '=' || rest[0] == ':') then SkipBlanks(rest[1..])
    else rest
  }

  /** A `.properties` reader for one line without its line break: it skips
      leading blanks, ends the key at the first unescaped `=`, `:` or blank,
      takes the value after that separator and its blanks, and unescapes key
      and value. */
  function ReadLine(line: string): (string, string)
  {
    var s := SkipBlanks(line);
    var i := KeyEnd(s);
    if i == |s| then (Unescape(s), "")
    else (Unescape(s[..i]), Unescape(ValueAfter(s[i], SkipBlanks(s[i + 1..]))))
  }

  /** A line the reader skips: blank, or a comment starting with `#` or `!`. */
  predicate Ignored(line: string)
  {
    var s := SkipBlanks(line);
    s == [] || s[0] == '#' || s[0] == '!'
  }

  /** A key that the escaping of `write_properties` writes so that it reads
      back: no `=`, backslash, line break, tab or form feed, and no `#` or `!`
      in front. A `:` or a space is fine, because those are escaped. */
  predicate PlainKey(k: string)
  {
    && '=' !in k && '\\' !in k && '\n' !in k && '\t' !in k && '\U{000C}' !in k
    && (k == [] || (k[0] != '#' && k[0] != '!'))
  }

  /** A value that reads back: no backslash or line break, and no tab or form
      feed in front (the reader skips blanks before a value). */
  predicate PlainValue(v: string)
  {
    '\\' !in v && '\n' !in v && (v == [] || (v[0] != '\t' && v[0] != '\U{000C}'))
  }

  /** A text that starts with a line holding no line break splits into that
      line followed by the lines of the rest. */
  lemma SplitAfterFirst(first: string, rest: string)
    requires '\n' !in first
    ensures SplitLines(first + ['\n'] + rest) == [first] + SplitLines(rest)
  {
    var t := first + ['\n'] + rest;
    FindAfter(first, '\n', rest);
    assert t[..|first|] == first;
    assert t[|first| + 1..] == rest;
  }

  /** A text ending at a line break is its first line, that break, and a
      shorter rest that again is empty or ends at a line break. */
  lemma CutFirstLine(text: string) returns (first: string, rest: string)
    requires text != [] && text[|text| - 1] == '\n'
    ensures '\n' !in first && text == first + ['\n'] + rest
    ensures |rest| < |text| && (rest == [] || rest[|rest| - 1] == '\n')
  {
    var i := Find(text, '\n');
    first, rest := text[..i], text[i + 1..];
    assert text == first + ['\n'] + rest;
  }

  lemma SplitLinesAppendStep(first: string, rest: string, tail: string, line: string)
    requires '\n' !in first
    requires SplitLines(tail) == SplitLines(rest) + [line]
    ensures SplitLines(first + ['\n'] + tail) == SplitLines(first + ['\n'] + rest) + [line]
  {
    SplitAfterFirst(first, tail);
    SplitAfterFirst(first, rest);
    assert [first] + (SplitLines(rest) + [line]) == [first] + SplitLines(rest) + [line];
  }

  lemma AppendAfterCut(text: string, first: string, rest: string, line: string)
    requires text == first + ['\n'] + rest
    ensures text + line + "\n" == first + ['\n'] + (rest + line + "\n")
  {
  }

  /** Appending a line that holds no line break to a text that ends at a
      line break adds exactly that line to the text's lines. */
  lemma {:induction false} SplitLinesAppend(text: string, line: string)
    requires text == [] || text[|text| - 1] == '\n'
    requires '\n' !in line
    ensures SplitLines(text + line + "\n") == SplitLines(text) + [line]
    decreases |text|
  {
    if text == [] {
      assert text + line + "\n" == line + ['\n'] + [];
      SplitAfterFirst(line, []);
    } else {
      var first, rest := CutFirstLine(text);
      SplitLinesAppend(rest, line);
      AppendAfterCut(text, first, rest, line);
      SplitLinesAppendStep(first, rest, rest + line + "\n", line);
    }
  }

  /** The first character of an escaped text: a backslash for `:` and
      space, the character itself otherwise. */
  lemma EscapeFirst(s: string)
    requires s != []
    ensures Escape(s) != [] && Escape(s)[0] == (if s[0] == ':' || s[0] == ' ' then '\\' else s[0])
  {
    EscapeIsCharwise(s);
    assert EscapeEach(s) == EscapeChar(s[0]) + EscapeEach(s[1..]);
  }

  /** An escaped character other than `=`, a backslash, a tab or a form
      feed never ends a key. */
  lemma KeyEndPastChar(c: char, t: string)
    requires c != '=' && c != '\\' && c != '\t' && c != '\U{000C}'
    ensures KeyEnd(EscapeChar(c) + t) == |EscapeChar(c)| + KeyEnd(t)
  {
    var s := EscapeChar(c) + t;
    if c == ':' || c == ' ' {
      assert s[0] == '\\' && |s| > 1 && s[2..] == t;
    } else {
      assert !EndsKey(c);
      assert s[0] == c && s[1..] == t;
    }
  }

  /** In an escaped text without `=`, tab or form feed, every `:` and space
      carries its backslash, so the key runs on past all of it. */
  lemma {:induction false} KeyEndEscaped(k: string, t: string)
    requires '=' !in k && '\\' !in k && '\t' !in k && '\U{000C}' !in k
    ensures KeyEnd(EscapeEach(k) + t) == |EscapeEach(k)| + KeyEnd(t)
  {
    if k == [] {
      assert EscapeEach(k) + t == t;
    } else {
      var tail := EscapeEach(k[1..]) + t;
      assert EscapeEach(k) + t == EscapeChar(k[0]) + tail;
      assert k[0] in k;
      KeyEndPastChar(k[0], tail);
      KeyEndEscaped(k[1..], t);
    }
  }

  /** A line whose key part ends at its `=` reads as its two unescaped halves
      when neither half starts with a blank. */
  lemma ReadSeparated(k: string, v: string)
    requires k == [] || !IsBlank(k[0])
    requires v == [] || !IsBlank(v[0])
    requires KeyEnd(k + "=" + v) == |k|
    ensures ReadLine(k + "=" + v) == (Unescape(k), Unescape(v))
  {
    var s := k + "=" + v;
    assert s[0] == (if k == [] then '=' else k[0]);
    assert SkipBlanks(s) == s;
    assert s[..|k|] == k && s[|k|] == '=' && s[|k| + 1..] == v;
    assert SkipBlanks(v) == v;
    assert ValueAfter('=', v) == v;
  }

  /** The key of an escaped `key=...` text ends at its `=`. */
  lemma KeyEndOfEscaped(key: string, t: string)
    requires '=' !in key && '\\' !in key && '\t' !in key && '\U{000C}' !in key
    ensures KeyEnd(Escape(key) + "=" + t) == |Escape(key)|
  {
    EscapeIsCharwise(key);
    KeyEndEscaped(key, "=" + t);
    assert Escape(key) + "=" + t == EscapeEach(key) + ("=" + t);
    assert KeyEnd("=" + t) == 0;
  }

  /** An escaped text starts with a blank, `#` or `!` only where the original does. */
  lemma EscapeStart(s: string)
    ensures Escape(s) == [] <==> s == []
    ensures s != [] && !IsBlank(s[0]) ==> !IsBlank(Escape(s)[0])
    ensures s != [] && s[0] != '#' && s[0] != '!' ==> Escape(s)[0] != '#' && Escape(s)[0] != '!'
  {
    if s != [] {
      EscapeFirst(s);
    } else {
      assert Escape(s) == [];
    }
  }

  /** The reader recovers key and value from an escaped `key=value` text. */
  lemma ReadBody(key: string, fill: string)
    requires PlainKey(key)
    requires '\\' !in fill && (fill == [] || (fill[0] != '\t' && fill[0] != '\U{000C}'))
    ensures !Ignored(Escape(key) + "=" + Escape(fill))
    ensures ReadLine(Escape(key) + "=" + Escape(fill)) == (key, fill)
  {
    var ek, ev := Escape(key), Escape(fill);
    EscapeStart(key);
    EscapeStart(fill);
    if key != [] {
      assert key[0] != '\t' && key[0] != '\U{000C}' by { assert key[0] in key; }
      EscapeFirst(key);
    }
    var body := ek + "=" + ev;
    assert body[0] == (if ek == [] then '=' else ek[0]);
    KeyEndOfEscaped(key, ev);
    ReadSeparated(ek, ev);
    UnescapeEscape(key);
    UnescapeEscape(fill);
  }

  /** An entry's line read back gives the entry, with the key in place of an
      empty value: the line written is one line of the file, not a blank or
      comment line, and the reader recovers key and value from it. A `:` or a
      space in the key is fine because it is escaped; `=`, a backslash, a line
      break, a tab or form feed, or `#` or `!` in front, are not escaped. */
  lemma LineRoundTrip(key: string, value: string)
    requires PlainKey(key) && PlainValue(value)
    ensures '\n' !in LineBody(key, value)
    ensures SplitLines(Line(key, value)) == [LineBody(key, value)]
    ensures !Ignored(LineBody(key, value))
    ensures ReadLine(LineBody(key, value)) == (key, if value == "" then key else value)
  {
    var v := if value == "" then key else value;
    var body := LineBody(key, value);
    EscapeAlphabet(key);
    EscapeAlphabet(v);
    assert '\n' !in body;
    SplitLinesAppend([], body);
    assert [] + body + "\n" == Line(key, value);
    ReadBody(key, v);
  }

  /** A line whose key part ends at a separator reads its key as that part
      unescaped. */
  lemma ReadKeyAt(k: string, c: char, rest: string)
    requires k != [] && !IsBlank(k[0])
    requires KeyEnd(k + [c] + rest) == |k|
    ensures ReadLine(k + [c] + rest).0 == Unescape(k)
  {
    var s := k + [c] + rest;
    assert s[0] == k[0];
    assert SkipBlanks(s) == s;
    assert s[..|k|] == k;
  }

  /** Without its backslash, a `:`, a space or an `=` ends the key: a line
      `a:b=v` written with no escaping reads back with the key `a`. */
  lemma UnescapedSeparatorEndsKey(a: string, c: char, rest: string)
    requires a != []
    requires '=' !in a && ':' !in a && ' ' !in a && '\t' !in a && '\U{000C}' !in a && '\\' !in a
    requires EndsKey(c)
    ensures ReadLine(a + [c] + rest).0 == a
  {
    assert a[0] in a;
    EscapeUnchanged(a);
    EscapeIsCharwise(a);
    KeyEndEscaped(a, [c] + rest);
    assert a + [c] + rest == EscapeEach(a) + ([c] + rest);
    ReadKeyAt(a, c, rest);
    UnescapeEscape(a);
  }

  /** Replacing a character the text does not hold leaves the text as it is. */
  lemma {:induction false} ReplaceAbsent(s: string, c: char, rep: string)
    requires c !in s
    ensures ReplaceAll(s, c, rep) == s
  {
    if s != [] {
      assert s[0] != c;
      assert s == [s[0]] + s[1..];
      ReplaceAbsent(s[1..], c, rep);
    }
  }

  /** A text without `:` or space is written unchanged. */
  lemma EscapeUnchanged(s: string)
    requires ':' !in s && ' ' !in s
    ensures Escape(s) == s
  {
    ReplaceAbsent(s, ':', "\\:");
    ReplaceAbsent(s, ' ', "\\ ");
  }

  lemma SplitTwoLines(first: string, second: string)
    requires '\n' !in first && '\n' !in second
    ensures SplitLines(first + "\n" + (second + "\n")) == [first, second]
  {
    SplitAfterFirst(first, second + "\n");
    assert second + "\n" == [] + second + "\n";
    SplitLinesAppend([], second);
  }

  lemma LineOfPlainEntry(key: string, value: string)
    requires ':' !in key && ' ' !in key
    requires ':' !in value && ' ' !in value && value != ""
    ensures Line(key, value) == key + "=" + value + "\n"
  {
    EscapeUnchanged(key);
    EscapeUnchanged(value);
  }

  /** A line break is not escaped: a key with a line break in it is written
      as is, and the entry then spans two lines of the file. */
  lemma LineBreakSplitsEntry(a: string, b: string, value: string)
    requires ':' !in a && ' ' !in a && '\n' !in a
    requires ':' !in b && ' ' !in b && '\n' !in b
    requires ':' !in value && ' ' !in value && '\n' !in value && value != ""
    ensures Line(a + "\n" + b, value) == a + "\n" + (b + "=" + value + "\n")
    ensures SplitLines(Line(a + "\n" + b, value)) == [a, b + "=" + value]
  {
    var key := a + "\n" + b;
    assert ':' !in key && ' ' !in key;
    LineOfPlainEntry(key, value);
    assert key + "=" + value + "\n" == a + "\n" + (b + "=" + value + "\n");
    SplitTwoLines(a, b + "=" + value);
  }

  /** Escaping distributes over concatenation. */
  lemma EscapeAppend(a: string, b: string)
    ensures Escape(a + b) == Escape(a) + Escape(b)
  {
    ReplaceAllAppend(a, b, ':', "\\:");
    ReplaceAllAppend(ReplaceAll(a, ':', "\\:"), ReplaceAll(b, ':', "\\:"), ' ', "\\ ");
  }

  /** A colon and a space between plain parts are each escaped with a backslash. */
  lemma EscapeExample(a: string, b: string, c: string)
    requires ':' !in a && ' ' !in a && ':' !in b && ' ' !in b && ':' !in c && ' ' !in c
    ensures Escape(a + ":" + b + " " + c) == a + "\\:" + b + "\\ " + c
  {
    EscapeAppend(a + ":" + b + " ", c);
    EscapeAppend(a + ":" + b, " ");
    EscapeAppend(a + ":", b);
    EscapeAppend(a, ":");
    EscapeUnchanged(a);
    EscapeUnchanged(b);
    EscapeUnchanged(c);
    assert Escape(":") == "\\:";
    assert Escape(" ") == "\\ ";
  }
}
