/**
 * The name tests of the generator: which file names are templates
 * (embedded.go:33, embedded.go:53) and how the output path is given its
 * generated-file suffix (embedded.go:71-73).
 */
module Names {

  /** `s` ends with `suffix`, character by character; agrees with Go's byte-wise strings.HasSuffix on valid UTF-8. */
  predicate HasSuffix(s: string, suffix: string) {
    |suffix| <= |s| && s[|s| - |suffix|..] == suffix
  }

  /** `s` without one trailing `suffix`, or `s` itself when it does not end with it (Go's strings.TrimSuffix). */
  function TrimSuffix(s: string, suffix: string): (r: string)
    ensures HasSuffix(s, suffix) ==> r + suffix == s
    ensures !HasSuffix(s, suffix) ==> r == s
  {
    if HasSuffix(s, suffix) then s[..|s| - |suffix|] else s
  }

  /** HasSuffix agrees with the definition by concatenation: some prefix followed by the suffix. */
  lemma HasSuffixIff(s: string, suffix: string)
    ensures HasSuffix(s, suffix) <==> exists p :: p + suffix == s
  {
    if HasSuffix(s, suffix) {
      assert s[..|s| - |suffix|] + suffix == s;
    }
    if p :| p + suffix == s {
      assert s[|s| - |suffix|..] == (p + suffix)[|p|..];
    }
  }

  lemma AppendedSuffix(p: string, suffix: string)
    ensures HasSuffix(p + suffix, suffix)
  {
    assert (p + suffix)[|p|..] == suffix;
  }

  const TemplateSuffix: string := ".tmpl"
  const HtmlSuffix: string := ".html"
  const GoSuffix: string := ".go"
  const GeneratedSuffix: string := ".gen.go"

  /** The selection filter: a template is a file whose name ends in ".tmpl" or ".html". */
  predicate IsTemplateName(name: string) {
    HasSuffix(name, TemplateSuffix) || HasSuffix(name, HtmlSuffix)
  }

  /** A name is selected exactly when it is some string followed by ".tmpl" or by ".html". */
  lemma TemplateNameIff(name: string)
    ensures IsTemplateName(name) <==>
      (exists p :: p + ".tmpl" == name) || (exists p :: p + ".html" == name)
  {
    HasSuffixIff(name, TemplateSuffix);
    HasSuffixIff(name, HtmlSuffix);
  }

  /**
   * The output path: kept when it already ends in ".gen.go"; otherwise one
   * trailing ".go" is dropped and ".gen.go" appended.
   */
  function NormalizeOutputPath(output: string): (r: string)
    ensures HasSuffix(r, GeneratedSuffix)
    ensures HasSuffix(output, GeneratedSuffix) ==> r == output
    ensures !HasSuffix(output, GeneratedSuffix) && HasSuffix(output, GoSuffix) ==>
      r == output[..|output| - 3] + GeneratedSuffix
    ensures !HasSuffix(output, GoSuffix) ==> r == output + GeneratedSuffix
  {
    if HasSuffix(output, GeneratedSuffix) then output
    else
      AppendedSuffix(TrimSuffix(output, GoSuffix), GeneratedSuffix);
      TrimSuffix(output, GoSuffix) + GeneratedSuffix
  }

  /** Normalising a normalised path changes nothing. */
  lemma NormalizeIdempotent(output: string)
    ensures NormalizeOutputPath(NormalizeOutputPath(output)) == NormalizeOutputPath(output)
  {
  }

  /** A name that does not end in ".go" gets ".gen.go" appended: "widgets" becomes "widgets.gen.go". */
  lemma NormalizeBareName()
    ensures NormalizeOutputPath("widgets") == "widgets.gen.go"
  {
    assert "widgets"[6] != GoSuffix[2];
  }

  /** A ".go" name has that ".go" replaced: "widgets.go" becomes "widgets.gen.go". */
  lemma NormalizeGoName()
    ensures NormalizeOutputPath("widgets.go") == "widgets.gen.go"
  {
    assert "widgets.go"[7..] == GoSuffix;
    assert "widgets.go"[3] != GeneratedSuffix[0];
    assert "widgets.go"[..7] == "widgets";
  }

  /** The empty output path, the default, becomes ".gen.go". */
  lemma NormalizeEmpty()
    ensures NormalizeOutputPath("") == ".gen.go"
  {
  }
}
