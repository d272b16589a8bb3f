/**
 * One run of the generator (embedded.go:14-116) without its I/O: the
 * command-line values and the visible filesystem go in, and either the
 * output path with the generated text or the fatal error comes out.
 */
module Generator {
  import opened Wrappers
  import opened Base64
  import opened Names
  import opened Table
  import opened Emit

  /** The file a successful run writes: where, and what. */
  datatype Artifact = Artifact(path: string, text: string)

  /**
   * The run: an empty input path is a usage error; otherwise the table is
   * built in single-file or directory mode, any read error ends the run with
   * nothing produced, and on success the output path is normalised and the
   * file text assembled from the table.
   */
  method Generate(input: string, output: string, packageName: string, fs: FileSystem)
    returns (r: Result<Artifact, Error>)
    ensures input == "" ==> r == Failure(UsageError)
    ensures input != "" && TableSpec(input, fs).Failure? ==> r == Failure(TableSpec(input, fs).error)
    ensures input != "" && TableSpec(input, fs).Success? ==>
              && r.Success?
              && r.value.path == NormalizeOutputPath(output)
              && IsRendering(r.value.text, packageName, TableSpec(input, fs).value)
  {
    if input == "" {
      return Failure(UsageError);
    }
    var table;
    if IsTemplateName(input) {
      table := BuildTableSingle(input, fs);
    } else {
      table := BuildTableDir(input, fs);
    }
    if table.Failure? {
      return Failure(table.error);
    }
    var path := NormalizeOutputPath(output);
    var text := EmitGenerated(packageName, table.value);
    return Success(Artifact(path, text));
  }

  /** Base64 text holds no double quote, so no table value does. */
  lemma TableValuesUnquoted(input: string, fs: FileSystem)
    requires TableSpec(input, fs).Success?
    ensures ValuesUnquoted(TableSpec(input, fs).value)
  {
    var t := TableSpec(input, fs).value;
    TableValuesAreBase64(input, fs);
    forall k | k in t
      ensures '"' !in t[k]
    {
      forall i | 0 <= i < |t[k]|
        ensures t[k][i] != '"'
      {
        assert IsAlphabetChar(t[k][i]) || t[k][i] == Pad;
      }
    }
  }

  /**
   * Two runs on the same inputs may write the entries in different orders,
   * but they write the same package clause and imports, the same lines each
   * exactly once, and the same loader.
   */
  lemma RunsAgreeUpToLineOrder(input: string, fs: FileSystem, packageName: string, text1: string, text2: string)
    requires TableSpec(input, fs).Success?
    requires IsRendering(text1, packageName, TableSpec(input, fs).value)
    requires IsRendering(text2, packageName, TableSpec(input, fs).value)
    ensures var t := TableSpec(input, fs).value;
            exists order1, order2 ::
              && IsOrdering(order1, t) && text1 == Render(packageName, t, order1, Loader)
              && IsOrdering(order2, t) && text2 == Render(packageName, t, order2, Loader)
              && multiset(EntryLines(t, order1)) == multiset(EntryLines(t, order2))
  {
    var t := TableSpec(input, fs).value;
    var order1 :| IsOrdering(order1, t) && text1 == Render(packageName, t, order1, Loader);
    var order2 :| IsOrdering(order2, t) && text2 == Render(packageName, t, order2, Loader);
    TableValuesUnquoted(input, fs);
    EntryLinesOrderIndependent(t, order1, order2);
  }

  /** A directory "dir" holding "a.tmpl" with the bytes of "hello" and "b.txt" with the bytes of "ignore". */
  const ScenarioFs: FileSystem :=
    FileSystem(map["dir/a.tmpl" := [104, 101, 108, 108, 111], "dir/b.txt" := [105, 103, 110, 111, 114, 101]],
               map["dir" := ["a.tmpl", "b.txt"]])

  /**
   * Embedding that directory with output "gen" and package "tpl": the table
   * has the one entry "a.tmpl", holding the encoding of "hello", the output
   * path is "gen.gen.go", and the text opens with "package tpl".
   */
  lemma DirectoryScenario()
    ensures TableSpec("dir", ScenarioFs) == Success(map["a.tmpl" := "aGVsbG8="])
    ensures NormalizeOutputPath("gen") == "gen.gen.go"
    ensures forall text :: IsRendering(text, "tpl", map["a.tmpl" := "aGVsbG8="]) ==>
              |"package tpl\n\n"| <= |text| && text[..|"package tpl\n\n"|] == "package tpl\n\n"
  {
    ScenarioNames();
    var names := ScenarioFs.dirs["dir"];
    ScenarioTable();
    assert FirstUnreadable(ScenarioFs, "dir", names) == None;
    forall text | IsRendering(text, "tpl", map["a.tmpl" := "aGVsbG8="])
      ensures |"package tpl\n\n"| <= |text| && text[..|"package tpl\n\n"|] == "package tpl\n\n"
    {
      ScenarioHeader(text);
    }
  }

  /** A rendering of the scenario's table under package "tpl" opens with its package clause. */
  lemma ScenarioHeader(text: string)
    requires IsRendering(text, "tpl", map["a.tmpl" := "aGVsbG8="])
    ensures |"package tpl\n\n"| <= |text| && text[..|"package tpl\n\n"|] == "package tpl\n\n"
  {
    var t := map["a.tmpl" := "aGVsbG8="];
    var order :| IsOrdering(order, t) && text == Render("tpl", t, order, Loader);
    RenderStartsWithHeader("tpl", t, order, Loader);
    var head := "package tpl\n\n" + ImportBlock;
    assert text[..|head|] == head;
    assert text[..|"package tpl\n\n"|] == head[..|"package tpl\n\n"|];
  }

  /** The directory loop over the scenario's listing keeps "a.tmpl" and skips "b.txt". */
  lemma ScenarioTable()
    ensures AllSelectedReadable(ScenarioFs, "dir", ScenarioFs.dirs["dir"])
    ensures DirTable(ScenarioFs, "dir", ScenarioFs.dirs["dir"]) == map["a.tmpl" := "aGVsbG8="]
  {
    var names := ScenarioFs.dirs["dir"];
    ScenarioNames();
    assert EntryPath("dir", "a.tmpl") == "dir/a.tmpl";
    assert SelectedNames(names) == {"a.tmpl"};
    HelloEncoding();
  }

  /** The base64 text of "hello". */
  lemma HelloEncoding()
    ensures Encode([104, 101, 108, 108, 111]) == "aGVsbG8="
  {
  }

  /** The filter and path facts the scenario relies on. */
  lemma ScenarioNames()
    ensures !IsTemplateName("dir") && IsTemplateName("a.tmpl") && !IsTemplateName("b.txt")
    ensures NormalizeOutputPath("gen") == "gen.gen.go"
  {
    assert "a.tmpl"[1..] == TemplateSuffix;
    assert !HasSuffix("gen", GoSuffix);
  }
}
