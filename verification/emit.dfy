/**
 * Assembling the generated Go file (embedded.go:74-107): a package line,
 * a fixed import block, a map literal with one line per table entry, and
 * the fixed text of the loader function. The entries are written in the
 * iteration order of the table, which the model leaves unspecified.
 */
module Emit {

  /** The package clause, followed by an empty line. */
  function PackageLine(packageName: string): string {
    "package " + packageName + "\n\n"
  }

  /** The import block: the base64 codec and the template engine. */
  const ImportBlock: string :=
    "import (\n    \"encoding/base64\"\n    \"text/template\"\n)\n\n"

  /** The opening line of the map literal that holds the table. */
  const MapOpen: string := "var embeddedTemplates = map[string]string{\n"

  /** The closing brace of the map literal, followed by an empty line. */
  const MapClose: string := "}\n\n"

  /** The loader function, written out verbatim; the generator never looks inside it. */
  const Loader: string :=
      "// Parse parses declared templates\n"
    + "\tfunc Parse(t *template.Template) (*template.Template, error) {\n"
    + "\t\tfor name, encoded := range embeddedTemplates {\n"
    + "\t\t\tvar tmpl *template.Template\n"
    + "\t\t\tif t == nil {\n"
    + "\t\t\t\tt = template.New(name)\n"
    + "\t\t\t}\n"
    + "\t\t\tif name == t.Name() {\n"
    + "\t\t\t\ttmpl = t\n"
    + "\t\t\t} else {\n"
    + "\t\t\t\ttmpl = t.New(name)\n"
    + "\t\t\t}\n"
    + "\t\t\tdecoded, err := base64.StdEncoding.DecodeString(encoded)\n"
    + "\t\t\tif err != nil {\n"
    + "\t\t\t\treturn nil, err\n"
    + "\t\t\t}\n"
    + "\t\t\tif _, err := tmpl.Parse(string(decoded)); err != nil {\n"
    + "\t\t\t\treturn nil, err\n"
    + "\t\t\t}\n"
    + "\t\t}\n"
    + "\t\treturn t, nil\n"
    + "\t}"

  /** The map-literal line for one entry; name and encoding are inserted without escaping. */
  function EntryLine(name: string, encoding: string): string {
    "    \"" + name + "\": \"" + encoding + "\",\n"
  }

  predicate Distinct<T(==)>(s: seq<T>) {
    forall i, j :: 0 <= i < j < |s| ==> s[i] != s[j]
  }

  /** `order` is one iteration order of the table: every key exactly once. */
  predicate IsOrdering(order: seq<string>, t: map<string, string>) {
    && (forall i :: 0 <= i < |order| ==> order[i] in t)
    && (forall k :: k in t ==> k in order)
    && Distinct(order)
  }

  /** The map-literal lines of the table, in the given order. */
  function EntryLines(t: map<string, string>, order: seq<string>): (lines: seq<string>)
    requires forall i :: 0 <= i < |order| ==> order[i] in t
  {
    seq(|order|, i requires 0 <= i < |order| => EntryLine(order[i], t[order[i]]))
  }

  /** The lines written one after the other. */
  function Concat(lines: seq<string>): string
    decreases |lines|
  {
    if lines == [] then "" else Concat(lines[..|lines| - 1]) + lines[|lines| - 1]
  }

  /** Writing one more entry's line extends the table section by exactly that line. */
  lemma ConcatEntryLinesAppend(t: map<string, string>, order: seq<string>, name: string)
    requires forall i :: 0 <= i < |order| ==> order[i] in t
    requires name in t
    ensures Concat(EntryLines(t, order + [name])) == Concat(EntryLines(t, order)) + EntryLine(name, t[name])
  {
    var lines := EntryLines(t, order + [name]);
    assert lines[..|order|] == EntryLines(t, order);
  }

  /**
   * The whole generated file for one iteration order of the table, ending in
   * the given loader text (the generator always passes Loader).
   */
  function Render(packageName: string, t: map<string, string>, order: seq<string>, loader: string): string
    requires IsOrdering(order, t)
  {
    PackageLine(packageName) + ImportBlock + MapOpen + Concat(EntryLines(t, order)) + MapClose + loader
  }

  /** `text` is the generated file for some iteration order of the table. */
  ghost predicate IsRendering(text: string, packageName: string, t: map<string, string>) {
    exists order :: IsOrdering(order, t) && text == Render(packageName, t, order, Loader)
  }

  /**
   * The range loop over the table: appends one entry line per key to the
   * buffer, visiting the keys in whatever order the choice makes; the ghost
   * `order` records that order.
   */
  method AppendEntries(buf0: string, t: map<string, string>) returns (buf: string, order: seq<string>)
    ensures IsOrdering(order, t)
    ensures buf == buf0 + Concat(EntryLines(t, order))
  {
    buf := buf0;
    var remaining := t.Keys;
    order := [];
    while remaining != {}
      invariant remaining <= t.Keys
      invariant forall i :: 0 <= i < |order| ==> order[i] in t && order[i] !in remaining
      invariant forall k :: k in t && k !in remaining ==> k in order
      invariant Distinct(order)
      invariant buf == buf0 + Concat(EntryLines(t, order))
      decreases remaining
    {
      var name :| name in remaining;
      ghost var before := order;
      buf := buf + EntryLine(name, t[name]);
      order := order + [name];
      remaining := remaining - {name};
      ConcatEntryLinesAppend(t, before, name);
      assert (buf0 + Concat(EntryLines(t, before))) + EntryLine(name, t[name])
          == buf0 + (Concat(EntryLines(t, before)) + EntryLine(name, t[name]));
      assert name !in before;
    }
  }

  /**
   * Writes the file piece by piece into a buffer: the header, then one line
   * per table entry, then the closing brace and the loader.
   */
  method EmitGenerated(packageName: string, t: map<string, string>) returns (text: string)
    ensures IsRendering(text, packageName, t)
  {
    var buf := "";
    buf := buf + PackageLine(packageName);
    assert buf == PackageLine(packageName);
    buf := buf + ImportBlock;
    buf := buf + MapOpen;
    var order;
    buf, order := AppendEntries(buf, t);
    buf := buf + MapClose;
    buf := buf + Loader;
    text := buf;
    assert text == Render(packageName, t, order, Loader);
  }

  /** A prefix of `a` is still a prefix once `b` is appended. */
  lemma PrefixOfAppend(a: string, b: string, x: string)
    requires |x| <= |a| && a[..|x|] == x
    ensures |x| <= |a + b| && (a + b)[..|x|] == x
  {
    assert (a + b)[..|x|] == a[..|x|];
  }

  lemma EndsWith(a: string, b: string)
    ensures |b| <= |a + b| && (a + b)[|a + b| - |b|..] == b
  {
  }

  /** A suffix `y` of `a`, followed by `b`, is a suffix of `a + b`. */
  lemma SuffixOfAppend(a: string, b: string, y: string)
    requires |y| <= |a| && a[|a| - |y|..] == y
    ensures |y + b| <= |a + b| && (a + b)[|a + b| - |y + b|..] == y + b
  {
    assert (a + b)[|a + b| - |y + b|..] == a[|a| - |y|..] + b;
  }

  /** The generated file opens with the package clause and the import block. */
  lemma RenderStartsWithHeader(packageName: string, t: map<string, string>, order: seq<string>, loader: string)
    requires IsOrdering(order, t)
    ensures var head := "package " + packageName + "\n\n" + ImportBlock;
            |head| <= |Render(packageName, t, order, loader)| &&
            Render(packageName, t, order, loader)[..|head|] == head
  {
    var head := PackageLine(packageName) + ImportBlock;
    var section := Concat(EntryLines(t, order));
    assert head[..|head|] == head;
    PrefixOfAppend(head, MapOpen, head);
    PrefixOfAppend(head + MapOpen, section, head);
    PrefixOfAppend(head + MapOpen + section, MapClose, head);
    PrefixOfAppend(head + MapOpen + section + MapClose, loader, head);
  }

  lemma ClosingTail(body: string, close: string, loader: string)
    ensures var text := body + close + loader;
            |close + loader| <= |text| && text[|text| - |close + loader|..] == close + loader
  {
    EndsWith(body, close);
    SuffixOfAppend(body + close, loader, close);
  }

  /** The generated file closes the map literal with "}" and an empty line, then ends with the loader text. */
  lemma RenderEndsWithLoader(packageName: string, t: map<string, string>, order: seq<string>, loader: string)
    requires IsOrdering(order, t)
    ensures var tail := MapClose + loader;
            var text := Render(packageName, t, order, loader);
            |tail| <= |text| && text[|text| - |tail|..] == tail
  {
    var body := PackageLine(packageName) + ImportBlock + MapOpen + Concat(EntryLines(t, order));
    ClosingTail(body, MapClose, loader);
  }

  /** No table value holds a double quote (base64 text never does). */
  predicate ValuesUnquoted(t: map<string, string>) {
    forall k :: k in t ==> '"' !in t[k]
  }

  /** Where the name and the encoding sit inside an entry line. */
  lemma EntryLineParts(name: string, encoding: string)
    ensures var line := EntryLine(name, encoding);
            && |line| == |name| + |encoding| + 12
            && line[5..5 + |name|] == name
            && line[|name| + 8] == '"'
            && line[|name| + 9..|line| - 3] == encoding
  {
    var line := EntryLine(name, encoding);
    var front := "    \"" + name + "\": \"";
    assert line == front + encoding + "\",\n";
    assert front[5..5 + |name|] == name;
    assert line[|name| + 9..|line| - 3] == encoding;
  }

  /**
   * When encodings hold no double quote, an entry line determines its entry:
   * the name is what precedes the last quote before the trailing `",`.
   */
  lemma EntryLineInjective(n1: string, e1: string, n2: string, e2: string)
    requires '"' !in e1 && '"' !in e2
    requires EntryLine(n1, e1) == EntryLine(n2, e2)
    ensures n1 == n2 && e1 == e2
  {
    var line := EntryLine(n1, e1);
    EntryLineParts(n1, e1);
    EntryLineParts(n2, e2);
  }

  /** A sequence without repetitions has as many distinct elements as it is long. */
  lemma {:induction false} DistinctCard<T>(s: seq<T>)
    requires Distinct(s)
    ensures |set x | x in s| == |s|
    decreases |s|
  {
    if s != [] {
      var init := s[..|s| - 1];
      DistinctCard(init);
      assert (set x | x in s) == (set x | x in init) + {s[|s| - 1]};
    }
  }

  /** A sequence without repetitions, as a multiset, is its set of elements. */
  lemma {:induction false} DistinctMultiset<T>(s: seq<T>)
    requires Distinct(s)
    ensures multiset(s) == multiset(set x | x in s)
    decreases |s|
  {
    if s != [] {
      var init, last := s[..|s| - 1], s[|s| - 1];
      DistinctMultiset(init);
      assert s == init + [last];
      assert last !in init;
      assert (set x | x in s) == (set x | x in init) + {last};
    }
  }

  /** Distinct keys give distinct lines. */
  lemma EntryLinesDistinct(t: map<string, string>, order: seq<string>)
    requires IsOrdering(order, t) && ValuesUnquoted(t)
    ensures Distinct(EntryLines(t, order))
  {
    var lines := EntryLines(t, order);
    forall i, j | 0 <= i < j < |lines|
      ensures lines[i] != lines[j]
    {
      if lines[i] == lines[j] {
        EntryLineInjective(order[i], t[order[i]], order[j], t[order[j]]);
      }
    }
  }

  /** Every entry's line is among the lines, at the position of its key in the order. */
  lemma EntryLinePresent(t: map<string, string>, order: seq<string>, k: string)
    requires IsOrdering(order, t) && k in t
    ensures EntryLine(k, t[k]) in EntryLines(t, order)
  {
    var i :| 0 <= i < |order| && order[i] == k;
    assert EntryLines(t, order)[i] == EntryLine(k, t[k]);
  }

  /**
   * The map literal holds exactly one line per table entry, whatever the
   * order: as many lines as entries, each entry's line among them, every
   * line some entry's, and no line twice.
   */
  lemma EntryLinesOnePerKey(t: map<string, string>, order: seq<string>)
    requires IsOrdering(order, t) && ValuesUnquoted(t)
    ensures |EntryLines(t, order)| == |t|
    ensures forall k :: k in t ==> EntryLine(k, t[k]) in EntryLines(t, order)
    ensures forall i :: 0 <= i < |order| ==> order[i] in t && EntryLines(t, order)[i] == EntryLine(order[i], t[order[i]])
    ensures Distinct(EntryLines(t, order))
  {
    DistinctCard(order);
    assert (set x | x in order) == t.Keys;
    forall k | k in t
      ensures EntryLine(k, t[k]) in EntryLines(t, order)
    {
      EntryLinePresent(t, order, k);
    }
    EntryLinesDistinct(t, order);
  }

  /**
   * Two iteration orders give the same lines, each as often: the emitted map
   * literal is fixed up to the order of its lines.
   */
  lemma EntryLinesOrderIndependent(t: map<string, string>, order1: seq<string>, order2: seq<string>)
    requires IsOrdering(order1, t) && IsOrdering(order2, t) && ValuesUnquoted(t)
    ensures multiset(EntryLines(t, order1)) == multiset(EntryLines(t, order2))
  {
    var lines1, lines2 := EntryLines(t, order1), EntryLines(t, order2);
    EntryLinesDistinct(t, order1);
    EntryLinesDistinct(t, order2);
    DistinctMultiset(lines1);
    DistinctMultiset(lines2);
    forall l | l in lines1
      ensures l in lines2
    {
      var i :| 0 <= i < |lines1| && lines1[i] == l;
      EntryLinePresent(t, order2, order1[i]);
    }
    forall l | l in lines2
      ensures l in lines1
    {
      var i :| 0 <= i < |lines2| && lines2[i] == l;
      EntryLinePresent(t, order1, order2[i]);
    }
    assert (set x | x in lines1) == (set x | x in lines2);
  }
}
