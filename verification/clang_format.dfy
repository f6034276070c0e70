/** The two records of `clang_format.hpp`: one line of the configuration
    being inferred (`clang_format_entry`) and one parameter of the catalog
    with its candidate values (`clang_format_possible_values`). */
module ClangFormat {
  import opened Wrappers
  import opened Strings

  /** An edit distance; `None` is the `size_t(-1)` "unknown / failed" sentinel. */
  type Score = Option<nat>

  /** One configuration entry. The key names an option and, after a '.',
      a sub-option (`BraceWrapping.AfterClass`). `affectedOutput` records
      that at least two values of the option gave different edit
      distances; `failed` that the formatter could not evaluate any value
      (typically the option is unknown to its version). */
  datatype Entry = Entry(
    key: string,
    value: string,
    affectedOutput: bool,
    score: Score,
    failed: bool,
    comment: string)

  /** A default-constructed entry: empty key and value, `affected_output`
      true, the sentinel score, not failed, no comment. */
  function DefaultEntry(): (e: Entry)
    ensures e.key == "" && e.value == "" && e.comment == ""
    ensures e.affectedOutput && !e.failed && e.score.None?
  {
    Entry("", "", true, None, false, "")
  }

  /** An entry the search could not settle: every value failed, or no value
      changed the output. These are the entries the fallback passes visit. */
  predicate Unresolved(e: Entry) {
    e.failed || !e.affectedOutput
  }

  /** The value another parameter must hold for this one to mean anything;
      an empty `key` means no requirement. */
  datatype Requirement = Requirement(key: string, value: string)

  /** Candidate values of one parameter, in declaration order (that order
      breaks ties and supplies the "first option" fallback), with the
      derived requirement, inheritance prefix and default value. */
  datatype PossibleValues = PossibleValues(
    options: seq<string>,
    requirements: Requirement,
    defaultValueFromPrefix: string,
    defaultValue: string)

  /** The constructor from an initializer list: options copied in order,
      every derived field empty. */
  function FromOptions(opts: seq<string>): (pv: PossibleValues)
    ensures pv.options == opts
    ensures pv.requirements.key == "" && pv.defaultValueFromPrefix == "" && pv.defaultValue == ""
  {
    PossibleValues(opts, Requirement("", ""), "", "")
  }

  /** One catalog row: a key with its candidate values. */
  datatype Param = Param(key: string, values: PossibleValues)

  /** The key split at its first '.': the section and the sub-option, or
      `None` for a top-level key. */
  function SplitKey(key: string): (r: Option<(string, string)>)
    ensures r.None? <==> '.' !in key
    ensures r.Some? ==> r.value.0 + "." + r.value.1 == key && '.' !in r.value.0
  {
    match FindFirstOf(key, '.', 0)
    case None => None
    case Some(d) =>
      assert key == key[..d] + "." + key[d + 1..];
      Some((key[..d], key[d + 1..]))
  }
}
