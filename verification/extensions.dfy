/** `get_extension`: the download file extension for a language name. */
module Extensions {

  import opened Wrappers

  /** The lookup table of `get_extension`. */
  const Table: map<string, string> := map[
    "Python" := "py",
    "JavaScript" := "js",
    "Java" := "java",
    "Go" := "go",
    "C#" := "cs",
    "TypeScript" := "ts"
  ]

  /** The extension used for languages missing from the table. */
  const Default := "txt"

  /** The choices of the generator's language select box. */
  const UiLanguages: seq<string> := ["Python", "JavaScript", "Java", "Go", "C#", "TypeScript"]

  function GetExtension(language: string): (ext: string)
    ensures ext == Default <==> language !in Table
    ensures ext in {"py", "js", "java", "go", "cs", "ts", "txt"}
  {
    if language in Table then Table[language] else Default
  }

  /** The inverse table, written out independently. */
  function LanguageOf(ext: string): Option<string>
  {
    match ext
    case "py" => Some("Python")
    case "js" => Some("JavaScript")
    case "java" => Some("Java")
    case "go" => Some("Go")
    case "cs" => Some("C#")
    case "ts" => Some("TypeScript")
    case _ => None
  }

  /** The extension identifies the language for every table entry, and says
      nothing for every other name. */
  lemma ExtensionRoundTrip(language: string)
    ensures LanguageOf(GetExtension(language)) == (if language in Table then Some(language) else None)
  {
  }

  /** Distinct known languages get distinct extensions. */
  lemma ExtensionInjective(a: string, b: string)
    requires a in Table && b in Table && a != b
    ensures GetExtension(a) != GetExtension(b)
  {
    ExtensionRoundTrip(a);
    ExtensionRoundTrip(b);
  }

  /** Every language offered in the generator gets its own extension, never
      the default. */
  lemma UiLanguagesCovered()
    ensures forall i :: 0 <= i < |UiLanguages| ==> GetExtension(UiLanguages[i]) != Default
  {
  }
}
