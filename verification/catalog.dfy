/** `generate_clang_format_options`: the literal parameter table followed
    by four derivation loops that fill in, for every row, its requirement,
    its inheritance prefix and its default value. Each loop looks at one
    row at a time, so the derivation is modelled per row (`DeriveParam`)
    and mapped over an arbitrary table (`DeriveCatalog`). */
module Catalog {
  import opened Wrappers
  import opened Strings
  import opened ClangFormat

  const BraceWrappingGroup: string := "BraceWrapping."
  const SpaceBeforeParensGroup: string := "SpaceBeforeParensOptions."

  /** Brace-wrapping sub-options only mean something under a custom brace style. */
  const BraceWrappingRequirement: Requirement := Requirement("BreakBeforeBraces", "BS_Custom")

  /** Space-before-parens sub-options only mean something under the custom style. */
  const SpaceBeforeParensRequirement: Requirement := Requirement("SpaceBeforeParens", "SBPO_Custom")

  /** The prefixes whose members may inherit an undetermined value from each other. */
  const InheritPrefixes: seq<string> := [
    "Align", "AlwaysBreak", "BraceWrapping", "BreakBefore", "Derive", "EmptyLine",
    "Indent", "PenaltyBreak", "SpaceAfter", "SpaceBefore", "SpaceIn"]

  const AffirmativeDefaults: seq<string> := ["true", "Always", "All", "Yes"]

  /** The curated "reasonable default" strings per prefix family, in order. */
  const PrefixDefaults: seq<(string, seq<string>)> := [
    ("Align", ["true", "Always", "Right", "Yes", "Consecutive"]),
    ("Allow", ["false", "Never", "None", "No"]),
    ("AlwaysBreak", AffirmativeDefaults),
    ("BreakBefore", AffirmativeDefaults),
    ("Derive", AffirmativeDefaults),
    ("EmptyLine", AffirmativeDefaults),
    ("Indent", AffirmativeDefaults),
    ("PenaltyBreak", AffirmativeDefaults),
    ("SpaceAfter", AffirmativeDefaults),
    ("SpaceBefore", AffirmativeDefaults),
    ("SpaceIn", AffirmativeDefaults)]

  /** The two requirement loops, run in order on one row: the second loop
      overwrites the first, and a key in neither group keeps `current`. */
  function DeriveRequirements(key: string, current: Requirement): (r: Requirement)
    ensures StartsWith(key, BraceWrappingGroup) ==> r == BraceWrappingRequirement
    ensures StartsWith(key, SpaceBeforeParensGroup) ==> r == SpaceBeforeParensRequirement
    ensures !StartsWith(key, BraceWrappingGroup) && !StartsWith(key, SpaceBeforeParensGroup) ==> r == current
  {
    var afterFirst := if StartsWith(key, BraceWrappingGroup) then BraceWrappingRequirement else current;
    StartsWithIsPrefix(key, BraceWrappingGroup);
    StartsWithIsPrefix(key, SpaceBeforeParensGroup);
    assert StartsWith(key, BraceWrappingGroup) ==> key[0] == 'B';
    assert StartsWith(key, SpaceBeforeParensGroup) ==> key[0] == 'S';
    if StartsWith(key, SpaceBeforeParensGroup) then SpaceBeforeParensRequirement else afterFirst
  }

  /** Position `i` holds the last prefix of `prefixes` that `key` starts with. */
  ghost predicate IsLastMatch(key: string, prefixes: seq<string>, i: int) {
    0 <= i < |prefixes| && StartsWith(key, prefixes[i])
    && forall j :: i < j < |prefixes| ==> !StartsWith(key, prefixes[j])
  }

  /** The inheritance-prefix loop: every matching prefix overwrites the
      field, so the last matching one stays; with no match it keeps `current`. */
  function InheritPrefix(key: string, prefixes: seq<string>, current: string): (r: string)
    ensures (exists i :: IsLastMatch(key, prefixes, i) && r == prefixes[i])
         || ((forall j :: 0 <= j < |prefixes| ==> !StartsWith(key, prefixes[j])) && r == current)
  {
    if |prefixes| == 0 then current
    else if StartsWith(key, prefixes[|prefixes| - 1]) then
      assert IsLastMatch(key, prefixes, |prefixes| - 1);
      prefixes[|prefixes| - 1]
    else
      var r := InheritPrefix(key, prefixes[..|prefixes| - 1], current);
      assert forall i :: IsLastMatch(key, prefixes[..|prefixes| - 1], i) ==> IsLastMatch(key, prefixes, i);
      r
  }

  /** Some option has `d` as a proper suffix (`ends_with(opt, d)`). */
  predicate SuffixOfSomeOption(d: string, options: seq<string>) {
    exists j :: 0 <= j < |options| && EndsWith(options[j], d)
  }

  /** The `find_if` over one family's curated defaults: the first one that
      is a proper suffix of some option. */
  function FirstSuffixDefault(defaults: seq<string>, options: seq<string>): (r: Option<string>)
    ensures r.Some? ==> exists i :: 0 <= i < |defaults| && defaults[i] == r.value
                          && SuffixOfSomeOption(r.value, options)
                          && forall k :: 0 <= k < i ==> !SuffixOfSomeOption(defaults[k], options)
    ensures r.None? ==> forall k :: 0 <= k < |defaults| ==> !SuffixOfSomeOption(defaults[k], options)
  {
    if |defaults| == 0 then None
    else if SuffixOfSomeOption(defaults[0], options) then Some(defaults[0])
    else
      var r := FirstSuffixDefault(defaults[1..], options);
      assert forall k :: 1 <= k < |defaults| ==> defaults[k] == defaults[1..][k - 1];
      r
  }

  /** A family applies to `key` and yields a default for `options`. */
  predicate FamilyHits(family: (string, seq<string>), key: string, options: seq<string>) {
    StartsWith(key, family.0) && FirstSuffixDefault(family.1, options).Some?
  }

  /** Family `i` sets the default to `r`, and no later family applies. */
  ghost predicate DecidedBy(key: string, options: seq<string>, families: seq<(string, seq<string>)>, i: int, r: string) {
    0 <= i < |families| && FamilyHits(families[i], key, options)
    && r == FirstSuffixDefault(families[i].1, options).value
    && forall j :: i < j < |families| ==> !FamilyHits(families[j], key, options)
  }

  /** The default-value loop: every family that applies to the key and
      finds a curated string overwrites the field, so the last such family
      decides; with none, the field keeps `current`. */
  function DefaultValue(key: string, options: seq<string>, families: seq<(string, seq<string>)>, current: string): (r: string)
    ensures (exists i :: DecidedBy(key, options, families, i, r))
         || ((forall j :: 0 <= j < |families| ==> !FamilyHits(families[j], key, options)) && r == current)
  {
    if |families| == 0 then current
    else
      var n := |families| - 1;
      if FamilyHits(families[n], key, options) then
        var r := FirstSuffixDefault(families[n].1, options).value;
        assert DecidedBy(key, options, families, n, r);
        r
      else
        var r := DefaultValue(key, options, families[..n], current);
        DecidedBySkipsLast(key, options, families[..n], families, r);
        r
  }

  /** A family that does not apply can be appended without changing who decides. */
  lemma DecidedBySkipsLast(key: string, options: seq<string>, front: seq<(string, seq<string>)>,
                           families: seq<(string, seq<string>)>, r: string)
    requires |families| == |front| + 1 && front == families[..|front|]
    requires !FamilyHits(families[|front|], key, options)
    ensures forall i :: DecidedBy(key, options, front, i, r) ==> DecidedBy(key, options, families, i, r)
    ensures (forall j :: 0 <= j < |front| ==> !FamilyHits(front[j], key, options))
            ==> forall j :: 0 <= j < |families| ==> !FamilyHits(families[j], key, options)
  {
    assert forall j :: 0 <= j < |front| ==> front[j] == families[j];
  }

  /** The prefix loop run from an empty field over the curated prefixes
      (none of which is empty): the field stays empty exactly when no
      prefix matches, and otherwise holds the last one that does. */
  lemma PrefixField(key: string)
    ensures var r := InheritPrefix(key, InheritPrefixes, "");
      && (r == "" <==> forall j :: 0 <= j < |InheritPrefixes| ==> !StartsWith(key, InheritPrefixes[j]))
      && (r != "" ==> exists i :: IsLastMatch(key, InheritPrefixes, i) && r == InheritPrefixes[i])
  {
    assert forall j :: 0 <= j < |InheritPrefixes| ==> |InheritPrefixes[j]| > 0;
  }

  /** One table row after all four loops. */
  function DeriveParam(key: string, options: seq<string>): (p: Param)
    ensures p.key == key && p.values.options == options
    ensures p.values.requirements ==
      if StartsWith(key, SpaceBeforeParensGroup) then SpaceBeforeParensRequirement
      else if StartsWith(key, BraceWrappingGroup) then BraceWrappingRequirement
      else Requirement("", "")
    ensures p.values.defaultValueFromPrefix == "" <==> forall j :: 0 <= j < |InheritPrefixes| ==> !StartsWith(key, InheritPrefixes[j])
    ensures p.values.defaultValueFromPrefix != "" ==>
      exists i :: IsLastMatch(key, InheritPrefixes, i) && p.values.defaultValueFromPrefix == InheritPrefixes[i]
    ensures (exists i :: DecidedBy(key, options, PrefixDefaults, i, p.values.defaultValue))
         || ((forall j :: 0 <= j < |PrefixDefaults| ==> !FamilyHits(PrefixDefaults[j], key, options))
             && p.values.defaultValue == "")
  {
    var pv := FromOptions(options);
    var requirements := DeriveRequirements(key, pv.requirements);
    var prefix := InheritPrefix(key, InheritPrefixes, pv.defaultValueFromPrefix);
    PrefixField(key);
    var default := DefaultValue(key, options, PrefixDefaults, pv.defaultValue);
    Param(key, PossibleValues(options, requirements, prefix, default))
  }

  /** The whole derivation over a table of `(key, options)` rows. */
  function DeriveCatalog(table: seq<(string, seq<string>)>): (c: seq<Param>)
    ensures |c| == |table|
    ensures forall i :: 0 <= i < |table| ==> c[i] == DeriveParam(table[i].0, table[i].1)
  {
    seq(|table|, i requires 0 <= i < |table| => DeriveParam(table[i].0, table[i].1))
  }

  /** Every requirement names a parameter that comes earlier in the table,
      so the search has already produced its entry when the requirement is
      applied. */
  ghost predicate RequirementsPrecede(c: seq<Param>) {
    forall i :: 0 <= i < |c| && c[i].values.requirements.key != "" ==>
      exists j :: 0 <= j < i && c[j].key == c[i].values.requirements.key
  }

  /** Because `ends_with` is strict, a `{true, false}` parameter never gets
      a default value, whatever its key: "true" and "false" appear in the
      curated lists but can only match themselves. */
  lemma BooleanParamHasNoDefault(key: string)
    ensures DeriveParam(key, ["true", "false"]).values.defaultValue == ""
  {
    BooleanHasNoDefault(key, ["true", "false"]);
  }

  /** The same, with the option list held in a variable. */
  lemma BooleanHasNoDefault(key: string, options: seq<string>)
    requires options == ["true", "false"]
    ensures DeriveParam(key, options).values.defaultValue == ""
  {
    NoCuratedSuffixOfBoolean(PrefixDefaults[0].1, options);
    NoCuratedSuffixOfBoolean(PrefixDefaults[1].1, options);
    NoCuratedSuffixOfBoolean(AffirmativeDefaults, options);
    forall j | 0 <= j < |PrefixDefaults|
      ensures !FamilyHits(PrefixDefaults[j], key, options)
    {
      assert j >= 2 ==> PrefixDefaults[j].1 == AffirmativeDefaults;
    }
    NoFamilyKeepsCurrent(key, options, PrefixDefaults, "");
  }

  /** With no family applying, the default-value loop leaves the field alone. */
  lemma NoFamilyKeepsCurrent(key: string, options: seq<string>, families: seq<(string, seq<string>)>, current: string)
    requires forall j :: 0 <= j < |families| ==> !FamilyHits(families[j], key, options)
    ensures DefaultValue(key, options, families, current) == current
  {
  }

  /** A curated string is "true", "false" or capitalised. */
  predicate BooleanOrCapitalised(d: string) {
    d == "true" || d == "false" || (|d| > 0 && 'A' <= d[0] <= 'Z')
  }

  /** A capitalised string is not a proper suffix of an all-lower-case one. */
  lemma CapitalisedIsNoSuffix(s: string, d: string)
    requires |d| > 0 && 'A' <= d[0] <= 'Z'
    requires forall i :: 0 <= i < |s| ==> 'a' <= s[i] <= 'z'
    ensures !EndsWith(s, d)
  {
  }

  /** A curated string is a proper suffix of neither "true" nor "false". */
  lemma NotBooleanSuffix(d: string)
    requires BooleanOrCapitalised(d)
    ensures !SuffixOfSomeOption(d, ["true", "false"])
  {
    var t, f := "true", "false";
    assert !EndsWith(f, t) by {
      assert f[1..][0] != t[0];
    }
    if d != t && d != f {
      CapitalisedIsNoSuffix(t, d);
      CapitalisedIsNoSuffix(f, d);
    }
    var options := [t, f];
    assert options[0] == t && options[1] == f;
  }

  /** A family none of whose strings is a proper suffix of an option finds
      no default. */
  lemma NoSuffixNoDefault(defaults: seq<string>, options: seq<string>)
    requires forall k :: 0 <= k < |defaults| ==> !SuffixOfSomeOption(defaults[k], options)
    ensures FirstSuffixDefault(defaults, options).None?
  {
  }

  /** No string of a curated list is a proper suffix of "true" or "false". */
  lemma NoCuratedSuffixOfBoolean(defaults: seq<string>, options: seq<string>)
    requires options == ["true", "false"]
    requires forall k :: 0 <= k < |defaults| ==> BooleanOrCapitalised(defaults[k])
    ensures FirstSuffixDefault(defaults, options).None?
  {
    forall k | 0 <= k < |defaults|
      ensures !SuffixOfSomeOption(defaults[k], options)
    {
      NotBooleanSuffix(defaults[k]);
    }
    NoSuffixNoDefault(defaults, options);
  }

  /** A curated default need not be an option itself, only a proper
      suffix of one: an `Allow…` option listing `SBS_Never` (and nothing
      ending in `false`) defaults to `Never`. */
  lemma AllowDefaultsToNever(key: string, options: seq<string>)
    requires StartsWith(key, "Allow")
    requires SuffixOfSomeOption("Never", options) && !SuffixOfSomeOption("false", options)
    ensures DeriveParam(key, options).values.defaultValue == "Never"
  {
    StartsWithIsPrefix(key, "Allow");
    AllowFamilyFindsNever(options);
    NotStartsWithAt(key, PrefixDefaults[0].0, 2);
    NotStartsWithAt(key, PrefixDefaults[2].0, 2);
    forall j | 3 <= j < |PrefixDefaults|
      ensures !FamilyHits(PrefixDefaults[j], key, options)
    {
      NotStartsWithAt(key, PrefixDefaults[j].0, 0);
    }
    DecidedDefault(key, options, PrefixDefaults, "", 1, "Never");
  }

  /** The `Allow` family's first curated string, "false", is skipped when
      no option ends in it, and "Never" is taken. */
  lemma AllowFamilyFindsNever(options: seq<string>)
    requires SuffixOfSomeOption("Never", options) && !SuffixOfSomeOption("false", options)
    ensures FirstSuffixDefault(PrefixDefaults[1].1, options) == Some("Never")
  {
    var defaults := PrefixDefaults[1].1;
    assert defaults[0] == "false" && defaults[1] == "Never";
    assert defaults[1..][0] == "Never";
  }

  /** The family that decides fixes the default, whatever the field held. */
  lemma DecidedDefault(key: string, options: seq<string>, families: seq<(string, seq<string>)>,
                       current: string, i: int, r: string)
    requires DecidedBy(key, options, families, i, r)
    ensures DefaultValue(key, options, families, current) == r
  {
    var d := DefaultValue(key, options, families, current);
    if i' :| DecidedBy(key, options, families, i', d) {
      assert i' == i;
    }
  }

  /** An excerpt of the literal table: the brace-breaking style and its
      brace-wrapping sub-options, then the space-before-parens style and
      its sub-options (one of which is listed twice). */
  const Excerpt: seq<(string, seq<string>)> := [
    ("BreakBeforeBraces", ["BS_Attach", "BS_Linux", "BS_Mozilla", "BS_Stroustrup", "BS_Allman",
                           "BS_Whitesmiths", "BS_GNU", "BS_WebKit", "BS_Custom"]),
    ("BraceWrapping.AfterCaseLabel", ["true", "false"]),
    ("BraceWrapping.AfterClass", ["true", "false"]),
    ("BraceWrapping.AfterControlStatement", ["BWACS_Never", "BWACS_MultiLine", "BWACS_Always"]),
    ("BraceWrapping.AfterEnum", ["true", "false"]),
    ("BraceWrapping.AfterFunction", ["true", "false"]),
    ("BraceWrapping.AfterNamespace", ["true", "false"]),
    ("BraceWrapping.AfterObjCDeclaration", ["true", "false"]),
    ("BraceWrapping.AfterStruct", ["true", "false"]),
    ("BraceWrapping.AfterUnion", ["true", "false"]),
    ("BraceWrapping.AfterExternBlock", ["true", "false"]),
    ("BraceWrapping.BeforeCatch", ["true", "false"]),
    ("BraceWrapping.BeforeElse", ["true", "false"]),
    ("BraceWrapping.BeforeLambdaBody", ["true", "false"]),
    ("BraceWrapping.BeforeWhile", ["true", "false"]),
    ("BraceWrapping.IndentBraces", ["true", "false"]),
    ("BraceWrapping.SplitEmptyFunction", ["true", "false"]),
    ("BraceWrapping.SplitEmptyRecord", ["true", "false"]),
    ("BraceWrapping.SplitEmptyNamespace", ["true", "false"]),
    ("SpaceBeforeParens", ["SBPO_Never", "SBPO_ControlStatements", "SBPO_ControlStatementsExceptControlMacros",
                           "SBPO_NonEmptyParentheses", "SBPO_Always", "SBPO_Custom"]),
    ("SpaceBeforeParensOptions.AfterControlStatements", ["true", "false"]),
    ("SpaceBeforeParensOptions.AfterForeachMacros", ["true", "false"]),
    ("SpaceBeforeParensOptions.AfterFunctionDeclarationName", ["true", "false"]),
    ("SpaceBeforeParensOptions.AfterFunctionDeclarationName", ["true", "false"]),
    ("SpaceBeforeParensOptions.AfterFunctionDefinitionName", ["true", "false"]),
    ("SpaceBeforeParensOptions.AfterIfMacros", ["true", "false"]),
    ("SpaceBeforeParensOptions.AfterOverloadedOperator", ["true", "false"]),
    ("SpaceBeforeParensOptions.AfterRequiresInClause", ["true", "false"]),
    ("SpaceBeforeParensOptions.AfterRequiresInExpression", ["true", "false"]),
    ("SpaceBeforeParensOptions.BeforeNonEmptyParentheses", ["true", "false"])]

  /** Only the two style parameters are ever required. */
  lemma RequirementTargets(key: string, options: seq<string>)
    ensures var r := DeriveParam(key, options).values.requirements;
      r.key == "" || r == BraceWrappingRequirement || r == SpaceBeforeParensRequirement
  {
  }

  /** The derivation puts each requirement target before its dependents
      whenever the table lists the style parameter before the sub-options
      of its group. */
  lemma DerivedRequirementsPrecede(table: seq<(string, seq<string>)>)
    requires forall i :: 0 <= i < |table| && StartsWith(table[i].0, BraceWrappingGroup) ==>
      exists j :: 0 <= j < i && table[j].0 == BraceWrappingRequirement.key
    requires forall i :: 0 <= i < |table| && StartsWith(table[i].0, SpaceBeforeParensGroup) ==>
      exists j :: 0 <= j < i && table[j].0 == SpaceBeforeParensRequirement.key
    ensures RequirementsPrecede(DeriveCatalog(table))
  {
  }

  /** In the excerpt, every `BraceWrapping.` row comes after `BreakBeforeBraces`. */
  lemma ExcerptBraceWrappingAfterTarget()
    ensures forall i :: 0 <= i < |Excerpt| && StartsWith(Excerpt[i].0, BraceWrappingGroup) ==>
      exists j :: 0 <= j < i && Excerpt[j].0 == BraceWrappingRequirement.key
  {
    NotStartsWithAt(Excerpt[0].0, BraceWrappingGroup, 2);
    assert Excerpt[0].0 == BraceWrappingRequirement.key;
  }

  /** In the excerpt, every `SpaceBeforeParensOptions.` row comes after
      `SpaceBeforeParens`. */
  lemma ExcerptSpaceBeforeParensAfterTarget()
    ensures forall i :: 0 <= i < |Excerpt| && StartsWith(Excerpt[i].0, SpaceBeforeParensGroup) ==>
      exists j :: 0 <= j < i && Excerpt[j].0 == SpaceBeforeParensRequirement.key
  {
    forall i | 0 <= i < 19
      ensures !StartsWith(Excerpt[i].0, SpaceBeforeParensGroup)
    {
      assert Excerpt[i].0[0] == 'B';
      NotStartsWithAt(Excerpt[i].0, SpaceBeforeParensGroup, 0);
    }
    StartsWithIsPrefix(Excerpt[19].0, SpaceBeforeParensGroup);
    assert Excerpt[19].0 == SpaceBeforeParensRequirement.key;
  }

  /** In the derived excerpt each requirement target precedes its
      dependents. */
  lemma ExcerptRequirementsPrecede()
    ensures RequirementsPrecede(DeriveCatalog(Excerpt))
  {
    ExcerptBraceWrappingAfterTarget();
    ExcerptSpaceBeforeParensAfterTarget();
    DerivedRequirementsPrecede(Excerpt);
  }

  /** The style each requirement sets is one of its target's options. */
  lemma ExcerptRequiredStylesExist()
    ensures Excerpt[0].0 == BraceWrappingRequirement.key && BraceWrappingRequirement.value in Excerpt[0].1
    ensures Excerpt[19].0 == SpaceBeforeParensRequirement.key && SpaceBeforeParensRequirement.value in Excerpt[19].1
  {
    assert Excerpt[0].1[8] == BraceWrappingRequirement.value;
    assert Excerpt[19].1[5] == SpaceBeforeParensRequirement.value;
  }

  /** Keys in the table are not unique. */
  lemma ExcerptKeysRepeat()
    ensures exists i, j :: 0 <= i < j < |Excerpt| && Excerpt[i].0 == Excerpt[j].0
  {
    assert Excerpt[22].0 == Excerpt[23].0;
  }
}
