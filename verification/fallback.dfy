/** The two passes that run after the search, over the entries it left:
    `inherit_undetermined_values` (an unresolved entry adopts the legal
    value most common among the resolved entries sharing its inheritance
    prefix) and then `set_default_values` (an entry still unresolved takes
    its parameter's static default). Both rewrite the entries in place,
    left to right. */
module Fallback {
  import opened Wrappers
  import opened Strings
  import opened ClangFormat

  // ---------------------------------------------------------------------
  // Catalog lookup

  /** Some catalog parameter has this key. */
  ghost predicate InCatalog(catalog: seq<Param>, key: string) {
    exists i :: 0 <= i < |catalog| && catalog[i].key == key
  }

  /** Every entry belongs to a catalog parameter (the search only creates
      entries for catalog keys, so the lookups below never miss). */
  ghost predicate Covers(catalog: seq<Param>, cf: seq<Entry>) {
    forall j :: 0 <= j < |cf| ==> InCatalog(catalog, cf[j].key)
  }

  /** The candidate values of the FIRST catalog parameter with `key`. */
  function Lookup(catalog: seq<Param>, key: string): (pv: PossibleValues)
    requires InCatalog(catalog, key)
    ensures exists i :: 0 <= i < |catalog| && catalog[i].key == key && catalog[i].values == pv
                        && forall j :: 0 <= j < i ==> catalog[j].key != key
  {
    if catalog[0].key == key then catalog[0].values
    else
      assert InCatalog(catalog[1..], key) by {
        var i :| 0 <= i < |catalog| && catalog[i].key == key;
        assert catalog[1..][i - 1].key == key;
      }
      var pv := Lookup(catalog[1..], key);
      ghost var i :| 0 <= i < |catalog| - 1 && catalog[1..][i].key == key && catalog[1..][i].values == pv
                     && forall j :: 0 <= j < i ==> catalog[1..][j].key != key;
      assert catalog[i + 1].key == key && catalog[i + 1].values == pv;
      assert forall j :: 0 < j < i + 1 ==> catalog[j] == catalog[1..][j - 1];
      pv
  }

  // ---------------------------------------------------------------------
  // Prefix inheritance

  /** An entry whose value can be inherited under `prefix`: resolved by
      the search (or earlier in the pass) and with a key that starts with
      the prefix. */
  predicate IsDonor(e: Entry, prefix: string) {
    !e.failed && e.affectedOutput && StartsWith(e.key, prefix)
  }

  /** How many entries of `cf` are donors under `prefix` holding `v`: the
      weight `v` carries in the count. */
  function DonorsHolding(cf: seq<Entry>, prefix: string, v: string): nat {
    if |cf| == 0 then 0
    else (if IsDonor(cf[0], prefix) && cf[0].value == v then 1 else 0) + DonorsHolding(cf[1..], prefix, v)
  }

  /** Appending one entry adds its own weight to the count. */
  lemma {:induction false} DonorsHoldingSnoc(cf: seq<Entry>, e: Entry, prefix: string, v: string)
    ensures DonorsHolding(cf + [e], prefix, v)
         == DonorsHolding(cf, prefix, v) + (if IsDonor(e, prefix) && e.value == v then 1 else 0)
  {
    if |cf| > 0 {
      assert (cf + [e])[1..] == cf[1..] + [e];
      DonorsHoldingSnoc(cf[1..], e, prefix, v);
    } else {
      assert (cf + [e])[1..] == [];
    }
  }

  /** The values of all donors, in entry order, with repetitions: each
      value occurs exactly as often as there are donor entries holding it. */
  function DonorValues(cf: seq<Entry>, prefix: string): (vals: seq<string>)
    ensures |vals| <= |cf|
    ensures forall v :: v in vals <==> exists j :: 0 <= j < |cf| && IsDonor(cf[j], prefix) && cf[j].value == v
    ensures forall v :: Count(vals, v) == DonorsHolding(cf, prefix, v)
  {
    if |cf| == 0 then []
    else
      var front := DonorValues(cf[..|cf| - 1], prefix);
      var e := cf[|cf| - 1];
      assert forall j :: 0 <= j < |cf| - 1 ==> cf[..|cf| - 1][j] == cf[j];
      assert cf == cf[..|cf| - 1] + [e];
      forall v
        ensures DonorsHolding(cf, prefix, v)
             == DonorsHolding(cf[..|cf| - 1], prefix, v) + (if IsDonor(e, prefix) && e.value == v then 1 else 0)
      {
        DonorsHoldingSnoc(cf[..|cf| - 1], e, prefix, v);
      }
      if IsDonor(e, prefix) then front + [e.value] else front
  }

  /** How many of `vals` equal `v`. */
  function Count(vals: seq<string>, v: string): nat {
    multiset(vals)[v]
  }

  /** `v` is a legal value whose count is maximal among the legal donor
      values. The source sorts the counts with an unstable sort, so among
      values of equal count any one may be chosen. */
  ghost predicate IsMajority(vals: seq<string>, options: seq<string>, v: string) {
    && v in options
    && v in vals
    && forall j :: 0 <= j < |vals| && vals[j] in options ==> Count(vals, vals[j]) <= Count(vals, v)
  }

  /** The first `n` donor values scanned for the legal value with the
      greatest count; among equal counts the first to appear wins (what a
      stable sort would give). */
  function PickFrom(vals: seq<string>, options: seq<string>, n: nat): (r: Option<string>)
    requires n <= |vals|
    ensures r.None? <==> forall j :: 0 <= j < n ==> vals[j] !in options
    ensures r.Some? ==> r.value in options && r.value in vals[..n]
    ensures r.Some? ==> forall j :: 0 <= j < n && vals[j] in options ==> Count(vals, vals[j]) <= Count(vals, r.value)
  {
    if n == 0 then None
    else
      var best := PickFrom(vals, options, n - 1);
      var v := vals[n - 1];
      assert vals[..n] == vals[..n - 1] + [v];
      if v !in options then best
      else if best.None? || Count(vals, best.value) < Count(vals, v) then Some(v)
      else best
  }

  /** The value the inheritance adopts, if any: `None` exactly when no
      donor value is a legal option, otherwise a majority value. */
  function Majority(vals: seq<string>, options: seq<string>): (r: Option<string>)
    ensures r.None? <==> forall j :: 0 <= j < |vals| ==> vals[j] !in options
    ensures r.Some? ==> IsMajority(vals, options, r.value)
  {
    assert vals[..|vals|] == vals;
    PickFrom(vals, options, |vals|)
  }

  /** The comment an inherited entry gets. */
  function InheritedComment(prefix: string): string {
    "inherited from prefix " + prefix
  }

  /** `inherit_undetermined_values` for entry `i` against the entries as
      they are at that point of the pass. A resolved entry, or one whose
      parameter has no inheritance prefix, is left alone; otherwise the
      entry adopts a majority legal donor value and becomes resolved, or
      stays as it was when no donor value is legal. */
  function InheritOne(catalog: seq<Param>, cf: seq<Entry>, i: nat): (e: Entry)
    requires i < |cf| && InCatalog(catalog, cf[i].key)
    ensures e.key == cf[i].key && e.score == cf[i].score
    ensures var pv := Lookup(catalog, cf[i].key);
      var vals := DonorValues(cf, pv.defaultValueFromPrefix);
      && (e != cf[i] <==>
            Unresolved(cf[i]) && pv.defaultValueFromPrefix != "" && exists j :: 0 <= j < |vals| && vals[j] in pv.options)
      && (e != cf[i] ==>
            && IsMajority(vals, pv.options, e.value)
            && e.affectedOutput && !e.failed
            && e.comment == InheritedComment(pv.defaultValueFromPrefix))
  {
    var e := cf[i];
    if !Unresolved(e) then e
    else
      var pv := Lookup(catalog, e.key);
      if pv.defaultValueFromPrefix == "" then e
      else
        match Majority(DonorValues(cf, pv.defaultValueFromPrefix), pv.options)
        case None => e
        case Some(v) =>
          e.(value := v, affectedOutput := true, failed := false,
             comment := InheritedComment(pv.defaultValueFromPrefix))
  }

  /** The inheritance pass from entry `i` on, each entry updated in place
      against the entries as the earlier steps left them. */
  function InheritFrom(catalog: seq<Param>, cf: seq<Entry>, i: nat): (r: seq<Entry>)
    requires i <= |cf| && Covers(catalog, cf)
    ensures |r| == |cf| && r[..i] == cf[..i]
    ensures forall j :: 0 <= j < |cf| ==> r[j].key == cf[j].key && r[j].score == cf[j].score
    decreases |cf| - i
  {
    if i == |cf| then cf
    else
      var next := cf[i := InheritOne(catalog, cf, i)];
      assert Covers(catalog, next);
      var r := InheritFrom(catalog, next, i + 1);
      assert r[..i] == r[..i + 1][..i];
      r
  }

  /** Each step of the pass sees the entries before it as already
      rewritten and the ones after it as the search left them. */
  lemma {:induction false} InheritFromSteps(catalog: seq<Param>, cf: seq<Entry>, i: nat)
    requires i <= |cf| && Covers(catalog, cf)
    ensures var r := InheritFrom(catalog, cf, i);
      forall j :: i <= j < |cf| ==> r[j] == InheritOne(catalog, r[..j] + cf[j..], j)
    decreases |cf| - i
  {
    if i < |cf| {
      var next := cf[i := InheritOne(catalog, cf, i)];
      assert Covers(catalog, next);
      InheritFromSteps(catalog, next, i + 1);
      var r := InheritFrom(catalog, cf, i);
      assert r == InheritFrom(catalog, next, i + 1);
      assert r[..i + 1] == next[..i + 1];
      assert r[i] == next[i];
      PrefixThenRest(r, cf, i);
      forall j | i < j < |cf|
        ensures r[..j] + cf[j..] == r[..j] + next[j..]
      {
        SameTail(r, cf, next, i, j);
      }
    }
  }

  /** Splicing a sequence's own prefix back onto it changes nothing. */
  lemma PrefixThenRest(r: seq<Entry>, cf: seq<Entry>, i: nat)
    requires i <= |cf| && i <= |r| && r[..i] == cf[..i]
    ensures r[..i] + cf[i..] == cf
  {
    assert cf == cf[..i] + cf[i..];
  }

  /** An update at `i` leaves every suffix beyond `i` alone. */
  lemma SameTail(r: seq<Entry>, cf: seq<Entry>, next: seq<Entry>, i: nat, j: nat)
    requires i < j <= |cf| == |next| && j <= |r|
    requires next == cf[i := next[i]]
    ensures r[..j] + cf[j..] == r[..j] + next[j..]
  {
    assert cf[j..] == next[j..];
  }

  /** `inherit_undetermined_values`: the inheritance pass over all entries. */
  function InheritPass(catalog: seq<Param>, cf: seq<Entry>): (r: seq<Entry>)
    requires Covers(catalog, cf)
    ensures |r| == |cf| && Covers(catalog, r)
  {
    var r := InheritFrom(catalog, cf, 0);
    assert forall j :: 0 <= j < |cf| ==> r[j].key == cf[j].key;
    r
  }

  /** The pass rewrites entry `j` exactly as a single inheritance step does
      against the entries before it (already rewritten) and after it
      (untouched); in particular a resolved entry is never changed, and a
      changed one is resolved, holds a legal majority donor value and says
      which prefix it came from. */
  lemma InheritPassSpec(catalog: seq<Param>, cf: seq<Entry>, j: nat)
    requires Covers(catalog, cf) && j < |cf|
    ensures var r := InheritPass(catalog, cf);
      r[j] == InheritOne(catalog, r[..j] + cf[j..], j)
    ensures !Unresolved(cf[j]) ==> InheritPass(catalog, cf)[j] == cf[j]
    ensures Lookup(catalog, cf[j].key).defaultValueFromPrefix == "" ==> InheritPass(catalog, cf)[j] == cf[j]
  {
    InheritFromSteps(catalog, cf, 0);
    var r := InheritPass(catalog, cf);
    var state := r[..j] + cf[j..];
    assert state[j] == cf[j];
  }

  // ---------------------------------------------------------------------
  // Static defaults

  /** The comment an entry set to its static default gets. */
  function DefaultComment(d: string): string {
    "Using default value " + d
  }

  /** `set_default_values` for one entry: an unresolved entry whose
      parameter has a non-empty default takes it and becomes resolved;
      every other entry is left exactly as it was. */
  function DefaultOne(catalog: seq<Param>, e: Entry): (r: Entry)
    requires InCatalog(catalog, e.key)
    ensures var d := Lookup(catalog, e.key).defaultValue;
      && (r != e <==> Unresolved(e) && d != "")
      && (r != e ==> r == e.(value := d, affectedOutput := true, failed := false, comment := DefaultComment(d)))
      && ((!Unresolved(e) || d != "") ==> !Unresolved(r))
  {
    var d := Lookup(catalog, e.key).defaultValue;
    if Unresolved(e) && d != "" then
      e.(value := d, affectedOutput := true, failed := false, comment := DefaultComment(d))
    else e
  }

  /** `set_default_values`: the default pass over all entries. No entry
      depends on another, so the in-place loop is a map. */
  function DefaultPass(catalog: seq<Param>, cf: seq<Entry>): (r: seq<Entry>)
    requires Covers(catalog, cf)
    ensures |r| == |cf| && Covers(catalog, r)
    ensures forall j :: 0 <= j < |cf| ==> r[j].key == cf[j].key && r[j].score == cf[j].score
    ensures forall j :: 0 <= j < |cf| && !Unresolved(cf[j]) ==> r[j] == cf[j]
    ensures forall j :: 0 <= j < |cf| && Unresolved(cf[j]) ==>
      var d := Lookup(catalog, cf[j].key).defaultValue;
      (d == "" ==> r[j] == cf[j]) && (d != "" ==> !Unresolved(r[j]) && r[j].value == d)
  {
    seq(|cf|, j requires 0 <= j < |cf| => DefaultOne(catalog, cf[j]))
  }

  /** A second default pass changes nothing: the first leaves every entry
      either resolved or without a default. */
  lemma DefaultPassIdempotent(catalog: seq<Param>, cf: seq<Entry>)
    requires Covers(catalog, cf)
    ensures DefaultPass(catalog, DefaultPass(catalog, cf)) == DefaultPass(catalog, cf)
  {
    var once := DefaultPass(catalog, cf);
    var twice := DefaultPass(catalog, once);
    forall j | 0 <= j < |cf|
      ensures twice[j] == once[j]
    {
      assert once[j].key == cf[j].key;
    }
  }

  // ---------------------------------------------------------------------
  // Both passes

  /** The fallback resolution: inheritance first, then static defaults. */
  function Resolve(catalog: seq<Param>, cf: seq<Entry>): (r: seq<Entry>)
    requires Covers(catalog, cf)
    ensures |r| == |cf|
  {
    DefaultPass(catalog, InheritPass(catalog, cf))
  }

  /** The order of the two passes: an entry the search resolved is never
      touched; an entry inheritance resolved keeps its inherited value
      (the default is used only when nothing could be inherited); an entry
      still unresolved after both passes has no default, and no legal
      donor value was available when its inheritance step ran. */
  lemma ResolveOrder(catalog: seq<Param>, cf: seq<Entry>, j: nat)
    requires Covers(catalog, cf) && j < |cf|
    ensures !Unresolved(cf[j]) ==> Resolve(catalog, cf)[j] == cf[j]
    ensures Unresolved(cf[j]) && !Unresolved(InheritPass(catalog, cf)[j]) ==>
      Resolve(catalog, cf)[j] == InheritPass(catalog, cf)[j]
      && Resolve(catalog, cf)[j].comment == InheritedComment(Lookup(catalog, cf[j].key).defaultValueFromPrefix)
    ensures Unresolved(Resolve(catalog, cf)[j]) ==>
      var pv := Lookup(catalog, cf[j].key);
      var mid := InheritPass(catalog, cf);
      && pv.defaultValue == ""
      && Resolve(catalog, cf)[j] == cf[j]
      && (pv.defaultValueFromPrefix == "" ||
          forall k :: 0 <= k < |DonorValues(mid[..j] + cf[j..], pv.defaultValueFromPrefix)| ==>
            DonorValues(mid[..j] + cf[j..], pv.defaultValueFromPrefix)[k] !in pv.options)
  {
    InheritPassSpec(catalog, cf, j);
    var mid := InheritPass(catalog, cf);
    var state := mid[..j] + cf[j..];
    assert state[j] == cf[j];
    assert mid[j].key == cf[j].key by {
      assert mid[j] == InheritOne(catalog, state, j);
    }
  }
}
