/** The greedy coordinate search: for one catalog parameter at a time,
    apply its requirement, evaluate every candidate value against the
    formatter, pick the winner, append an entry, and roll the requirement
    back unless it already paid off. The formatter (copying the input tree,
    running clang-format, summing edit distances) is the `oracle`: a
    function from the trial entry list to a cost, `None` when formatting
    failed. The thread-pool fan-out becomes a sequential map over the
    candidates, since every task works on its own copy of the entries and
    the results are consumed in candidate order. */
module Search {
  import opened Wrappers
  import opened Strings
  import opened ClangFormat

  /** The formatter as seen by the search. */
  type Oracle = seq<Entry> -> Option<nat>

  /** `a < b` on `size_t` scores, where `None` is `size_t(-1)` and so
      above every real cost. */
  predicate Below(a: Score, b: Score) {
    a.Some? && (b.None? || a.value < b.value)
  }

  /** The first entry whose key is `key` (`std::find_if` on the key). */
  function FindKey(cf: seq<Entry>, key: string): (r: Option<nat>)
    ensures r.Some? ==> r.value < |cf| && cf[r.value].key == key
    ensures r.Some? ==> forall j :: 0 <= j < r.value ==> cf[j].key != key
    ensures r.None? <==> forall j :: 0 <= j < |cf| ==> cf[j].key != key
  {
    if |cf| == 0 then None
    else if cf[0].key == key then Some(0)
    else match FindKey(cf[1..], key)
      case None => None
      case Some(i) => Some(i + 1)
  }

  // ---------------------------------------------------------------------
  // Requirement override

  /** Whether the requirement was applied, the entry as it was before, and
      the entries with the override in place. */
  datatype Override = Override(applied: bool, prev: Entry, entries: seq<Entry>)

  /** `apply_requirements`: when the parameter names a requirement and an
      entry with that key exists, the FIRST such entry gets the required
      value and is remembered as it was; nothing else changes. */
  function ApplyRequirements(cf: seq<Entry>, req: Requirement): (o: Override)
    ensures o.applied <==> req.key != "" && exists j :: 0 <= j < |cf| && cf[j].key == req.key
    ensures !o.applied ==> o.entries == cf && o.prev == DefaultEntry()
    ensures o.applied ==>
      var i := FindKey(cf, req.key).value;
      && o.prev == cf[i]
      && |o.entries| == |cf|
      && o.entries[i] == cf[i].(value := req.value)
      && (forall j :: 0 <= j < |cf| && j != i ==> o.entries[j] == cf[j])
  {
    if req.key == "" then Override(false, DefaultEntry(), cf)
    else match FindKey(cf, req.key)
      case None => Override(false, DefaultEntry(), cf)
      case Some(i) => Override(true, cf[i], cf[i := cf[i].(value := req.value)])
  }

  // ---------------------------------------------------------------------
  // Fan-out

  /** The entry a trial adds for the candidate it evaluates. */
  function TrialEntry(key: string, value: string): Entry {
    Entry(key, value, true, Some(0), false, "")
  }

  /** The configuration one evaluation task writes: its own copy of the
      current entries plus one entry for the candidate. */
  function Trial(cf: seq<Entry>, key: string, value: string): seq<Entry> {
    cf + [TrialEntry(key, value)]
  }

  /** A trial is a snapshot: it keeps every current entry in place and adds
      exactly the candidate's entry at the end. */
  lemma TrialIsSnapshot(cf: seq<Entry>, key: string, value: string)
    ensures |Trial(cf, key, value)| == |cf| + 1
    ensures Trial(cf, key, value)[..|cf|] == cf
    ensures Trial(cf, key, value)[|cf|] == Entry(key, value, true, Some(0), false, "")
  {
  }

  /** The costs of all candidates, in candidate order. */
  function Outcomes(cf: seq<Entry>, key: string, options: seq<string>, oracle: Oracle): (outs: seq<Option<nat>>)
    ensures |outs| == |options|
    ensures forall i :: 0 <= i < |options| ==> outs[i] == oracle(Trial(cf, key, options[i]))
  {
    seq(|options|, i requires 0 <= i < |options| => oracle(Trial(cf, key, options[i])))
  }

  // ---------------------------------------------------------------------
  // Fan-in: selection

  /** The running state of the fan-in loop: the closest edit distance so
      far, the value that achieved it (`""` while there is none, as in the
      source) and whether the output has been influenced. */
  datatype Tally = Tally(closest: Score, improvement: string, influenced: bool)

  /** One iteration of the fan-in loop. A failed candidate changes nothing;
      a real cost strictly below the closest one improves; the output
      counts as influenced once a real cost differs from a real closest. */
  function Visit(t: Tally, value: string, dist: Option<nat>): Tally {
    if dist.None? then t
    else
      var improved := Below(dist, t.closest);
      var concrete := t.closest.Some?;
      var influenced := t.influenced || (dist != t.closest && concrete);
      if improved then Tally(dist, value, influenced) else t.(influenced := influenced)
  }

  /** The fan-in loop over the first `n` candidates. */
  function Scan(options: seq<string>, outs: seq<Option<nat>>, n: nat): Tally
    requires n <= |options| == |outs|
  {
    if n == 0 then Tally(None, "", false)
    else Visit(Scan(options, outs, n - 1), options[n - 1], outs[n - 1])
  }

  /** No candidate among the first `n` evaluated. */
  ghost predicate AllFailed(outs: seq<Option<nat>>, n: nat)
    requires n <= |outs|
  {
    forall i :: 0 <= i < n ==> outs[i].None?
  }

  /** Candidate `k` has the least real cost among the first `n`, and no
      earlier candidate has that cost. */
  ghost predicate IsFirstMinimum(outs: seq<Option<nat>>, n: nat, k: int)
    requires n <= |outs|
  {
    && 0 <= k < n
    && outs[k].Some?
    && (forall i :: 0 <= i < n && outs[i].Some? ==> outs[k].value <= outs[i].value)
    && (forall i :: 0 <= i < k ==> outs[i] != outs[k])
  }

  /** Two of the first `n` candidates evaluated to different real costs. */
  ghost predicate Varies(outs: seq<Option<nat>>, n: nat)
    requires n <= |outs|
  {
    exists i, j :: 0 <= i < n && 0 <= j < n && outs[i].Some? && outs[j].Some? && outs[i].value != outs[j].value
  }

  /** The closest distance stays the sentinel exactly while every
      candidate has failed, and then there is no improvement value. */
  lemma {:induction false} ScanFailed(options: seq<string>, outs: seq<Option<nat>>, n: nat)
    requires n <= |options| == |outs|
    ensures Scan(options, outs, n).closest.None? <==> AllFailed(outs, n)
    ensures AllFailed(outs, n) ==> Scan(options, outs, n) == Tally(None, "", false)
  {
    if n > 0 {
      ScanFailed(options, outs, n - 1);
    }
  }

  /** Once some candidate evaluated, the closest distance is the least real
      cost and the improvement value is the first candidate achieving it. */
  lemma {:induction false} ScanMinimum(options: seq<string>, outs: seq<Option<nat>>, n: nat) returns (k: nat)
    requires n <= |options| == |outs|
    requires !AllFailed(outs, n)
    ensures IsFirstMinimum(outs, n, k)
    ensures Scan(options, outs, n).closest == outs[k]
    ensures Scan(options, outs, n).improvement == options[k]
  {
    var t := Scan(options, outs, n - 1);
    var d := outs[n - 1];
    if AllFailed(outs, n - 1) {
      ScanFailed(options, outs, n - 1);
      k := n - 1;
    } else {
      var k0 := ScanMinimum(options, outs, n - 1);
      if d.Some? && d.value < t.closest.value {
        k := n - 1;
      } else {
        k := k0;
      }
    }
  }

  /** The output counts as influenced exactly when two real costs differ;
      until then every real cost equals the closest one. */
  lemma {:induction false} ScanInfluence(options: seq<string>, outs: seq<Option<nat>>, n: nat)
    requires n <= |options| == |outs|
    ensures Scan(options, outs, n).influenced <==> Varies(outs, n)
    ensures !Scan(options, outs, n).influenced ==>
      forall i :: 0 <= i < n && outs[i].Some? ==> outs[i] == Scan(options, outs, n).closest
  {
    if n > 0 {
      ScanInfluence(options, outs, n - 1);
      ScanFailed(options, outs, n - 1);
      var t := Scan(options, outs, n - 1);
      var d := outs[n - 1];
      if Varies(outs, n) && !Varies(outs, n - 1) {
        var i, j :| 0 <= i < n && 0 <= j < n && outs[i].Some? && outs[j].Some? && outs[i].value != outs[j].value;
        assert d.Some? && t.closest.Some? && d != t.closest;
      }
      if Varies(outs, n - 1) {
        var i, j :| 0 <= i < n - 1 && 0 <= j < n - 1 && outs[i].Some? && outs[j].Some? && outs[i].value != outs[j].value;
        assert Varies(outs, n);
      }
      if d.Some? && t.closest.Some? && d != t.closest {
        var i := ScanMinimum(options, outs, n - 1);
        assert Varies(outs, n) by {
          assert outs[i].value != outs[n - 1].value;
        }
      }
    }
  }

  /** Some candidate evaluated, so some candidate is the first minimum. */
  lemma ScanHasWinner(options: seq<string>, outs: seq<Option<nat>>)
    requires |options| == |outs|
    ensures !AllFailed(outs, |outs|) ==>
      exists k :: IsFirstMinimum(outs, |outs|, k) && Scan(options, outs, |outs|).closest == outs[k]
                  && Scan(options, outs, |outs|).improvement == options[k]
  {
    if !AllFailed(outs, |outs|) {
      var k := ScanMinimum(options, outs, |outs|);
    }
  }

  /** The fan-in over all candidates: the closest distance is the least
      real cost, or the sentinel exactly when every candidate failed; the
      improvement value is the FIRST candidate achieving it (strict `<`);
      the output is influenced exactly when two real costs differ. */
  function Select(options: seq<string>, outs: seq<Option<nat>>): (t: Tally)
    requires |options| == |outs|
    ensures t.closest.None? <==> AllFailed(outs, |outs|)
    ensures t.closest.None? ==> t.improvement == "" && !t.influenced
    ensures t.closest.Some? ==>
      exists k :: IsFirstMinimum(outs, |outs|, k) && t.closest == outs[k] && t.improvement == options[k]
    ensures t.influenced <==> Varies(outs, |outs|)
    ensures !t.influenced ==> forall i :: 0 <= i < |outs| && outs[i].Some? ==> outs[i] == t.closest
  {
    ScanFailed(options, outs, |outs|);
    ScanHasWinner(options, outs);
    ScanInfluence(options, outs, |outs|);
    Scan(options, outs, |outs|)
  }

  // ---------------------------------------------------------------------
  // Entry construction

  /** The comment of the entry a parameter with a single option gets. */
  const SingleOption: string := "single option"

  /** No candidate value is the empty string (true of the whole catalog);
      an empty winner would be indistinguishable from "no winner". */
  predicate NonEmptyStrings(options: seq<string>) {
    forall i :: 0 <= i < |options| ==> options[i] != ""
  }

  /** The entries after one parameter's evaluation, and the closest edit
      distance it leaves behind (the sentinel for a single option). */
  datatype Evaluation = Evaluation(entries: seq<Entry>, closest: Score)

  /** `evaluate_option_values` without the progress table: a single option
      is accepted unevaluated; otherwise every candidate is evaluated on
      its own trial, the winner is selected, and the entry is built:
      influenced with a winner -> the winner and its score; not influenced
      -> unless influence is required, the winner or else the first
      option, marked failed when every candidate failed. */
  function EvaluateOptionValues(cf: seq<Entry>, key: string, pv: PossibleValues, oracle: Oracle,
                                requireInfluence: bool): (ev: Evaluation)
    requires |pv.options| > 0
    ensures |cf| <= |ev.entries| <= |cf| + 1 && ev.entries[..|cf|] == cf
    ensures |ev.entries| == |cf| + 1 ==> ev.entries[|cf|].key == key && ev.entries[|cf|].value in pv.options
    ensures !requireInfluence && NonEmptyStrings(pv.options) ==> |ev.entries| == |cf| + 1
    ensures |pv.options| == 1 ==>
      ev.closest.None? && ev.entries == cf + [Entry(key, pv.options[0], true, Some(0), false, SingleOption)]
    ensures |pv.options| > 1 ==>
      var outs := Outcomes(cf, key, pv.options, oracle);
      && (ev.closest.None? <==> AllFailed(outs, |outs|))
      && (ev.closest.Some? ==> exists k :: IsFirstMinimum(outs, |outs|, k) && ev.closest == outs[k])
    ensures |pv.options| > 1 ==>
      var outs := Outcomes(cf, key, pv.options, oracle);
      Varies(outs, |outs|) ==>
        exists k :: IsFirstMinimum(outs, |outs|, k)
          && (pv.options[k] != "" ==> ev.entries == cf + [Entry(key, pv.options[k], true, outs[k], false, "")])
          && (pv.options[k] == "" ==> ev.entries == cf)
    ensures |pv.options| > 1 && requireInfluence ==>
      var outs := Outcomes(cf, key, pv.options, oracle);
      !Varies(outs, |outs|) ==> ev.entries == cf
    ensures |pv.options| > 1 && !requireInfluence ==>
      var outs := Outcomes(cf, key, pv.options, oracle);
      AllFailed(outs, |outs|) ==> ev.entries == cf + [Entry(key, pv.options[0], false, None, true, "")]
    ensures |pv.options| > 1 && !requireInfluence ==>
      var outs := Outcomes(cf, key, pv.options, oracle);
      !AllFailed(outs, |outs|) && !Varies(outs, |outs|) ==>
        exists k :: IsFirstMinimum(outs, |outs|, k)
          && ev.entries == cf + [Entry(key, if pv.options[k] == "" then pv.options[0] else pv.options[k],
                                       false, outs[k], false, "")]
  {
    if |pv.options| > 1 then
      var t := Select(pv.options, Outcomes(cf, key, pv.options, oracle));
      var entries :=
        if t.improvement != "" && t.influenced then
          cf + [Entry(key, t.improvement, t.influenced, t.closest, t.closest.None?, "")]
        else if !t.influenced && !requireInfluence then
          var value := if t.improvement == "" then pv.options[0] else t.improvement;
          cf + [Entry(key, value, t.influenced, t.closest, t.closest.None?, "")]
        else
          cf;
      Evaluation(entries, t.closest)
    else
      Evaluation(cf + [Entry(key, pv.options[0], true, Some(0), false, SingleOption)], None)
  }

  // ---------------------------------------------------------------------
  // One parameter, and the whole search

  /** Puts `prev` back in place of the first entry with its key, if any. */
  function RestoreFirst(cf: seq<Entry>, prev: Entry): (r: seq<Entry>)
    ensures FindKey(cf, prev.key).None? ==> r == cf
    ensures FindKey(cf, prev.key).Some? ==> r == cf[FindKey(cf, prev.key).value := prev]
  {
    match FindKey(cf, prev.key)
    case None => cf
    case Some(i) => cf[i := prev]
  }

  /** The entries written to the checkpoint file (before any rollback), the
      entries after the parameter, and its closest edit distance. */
  datatype StepResult = StepResult(checkpoint: seq<Entry>, entries: seq<Entry>, closest: Score)

  /** One iteration of `clang_format_local_search`: apply the requirement,
      evaluate, save the checkpoint, then undo the requirement when the
      entry it overrode had a score strictly below the new closest
      distance. */
  function Step(cf: seq<Entry>, p: Param, oracle: Oracle, requireInfluence: bool): (r: StepResult)
    requires |p.values.options| > 0
    ensures |cf| <= |r.entries| <= |cf| + 1
    ensures |r.entries| == |cf| + 1 ==> r.entries[|cf|].key == p.key
    ensures !requireInfluence && NonEmptyStrings(p.values.options) ==> |r.entries| == |cf| + 1
    ensures |r.checkpoint| == |r.entries| && r.entries[|cf|..] == r.checkpoint[|cf|..]
    ensures forall j :: 0 <= j < |cf| ==> r.entries[j].key == cf[j].key
    ensures var o := ApplyRequirements(cf, p.values.requirements);
      && r.checkpoint[..|cf|] == o.entries
      && (!o.applied ==> r.entries[..|cf|] == cf)
      && (o.applied && Below(o.prev.score, r.closest) ==> r.entries[..|cf|] == cf)
      && (o.applied && !Below(o.prev.score, r.closest) ==> r.entries[..|cf|] == o.entries)
    ensures |p.values.options| == 1 ==> r.closest.None?
    ensures var o := ApplyRequirements(cf, p.values.requirements);
      var ev := EvaluateOptionValues(o.entries, p.key, p.values, oracle, requireInfluence);
      r.checkpoint == ev.entries && r.closest == ev.closest
  {
    var o := ApplyRequirements(cf, p.values.requirements);
    var ev := EvaluateOptionValues(o.entries, p.key, p.values, oracle, requireInfluence);
    var entries := Rollback(cf, p.values.requirements, ev.entries, ev.closest);
    OverrideKeepsKeys(cf, p.values.requirements, entries);
    StepResult(ev.entries, entries, ev.closest)
  }

  /** Entries that start with either the original entries or the
      overridden ones have the original keys there: the override changes a
      value, never a key. */
  lemma OverrideKeepsKeys(cf: seq<Entry>, req: Requirement, entries: seq<Entry>)
    requires |entries| >= |cf|
    requires entries[..|cf|] == cf || entries[..|cf|] == ApplyRequirements(cf, req).entries
    ensures forall j :: 0 <= j < |cf| ==> entries[j].key == cf[j].key
  {
    forall j | 0 <= j < |cf|
      ensures entries[j].key == cf[j].key
    {
      assert entries[j] == entries[..|cf|][j];
    }
  }

  /** The rollback at the end of a step: when the requirement was applied
      and the entry it overrode scored strictly below the new closest
      distance, the override is undone; the entry the step appended is kept
      either way. */
  function Rollback(cf: seq<Entry>, req: Requirement, after: seq<Entry>, closest: Score): (entries: seq<Entry>)
    requires |after| >= |cf| && after[..|cf|] == ApplyRequirements(cf, req).entries
    ensures |entries| == |after| && entries[|cf|..] == after[|cf|..]
    ensures var o := ApplyRequirements(cf, req);
      && (!o.applied ==> entries[..|cf|] == cf)
      && (o.applied && Below(o.prev.score, closest) ==> entries[..|cf|] == cf)
      && (o.applied && !Below(o.prev.score, closest) ==> entries[..|cf|] == o.entries)
  {
    var o := ApplyRequirements(cf, req);
    RollbackRestores(cf, req, after);
    if o.applied && Below(o.prev.score, closest) then RestoreFirst(after, o.prev) else after
  }

  /** Restoring the saved entry after the evaluation undoes the override
      exactly and leaves the appended entry alone. */
  lemma RollbackRestores(cf: seq<Entry>, req: Requirement, after: seq<Entry>)
    requires |after| >= |cf| && after[..|cf|] == ApplyRequirements(cf, req).entries
    ensures ApplyRequirements(cf, req).applied ==>
      var restored := RestoreFirst(after, ApplyRequirements(cf, req).prev);
      |restored| == |after| && restored[..|cf|] == cf && restored[|cf|..] == after[|cf|..]
  {
    var o := ApplyRequirements(cf, req);
    if o.applied {
      var i := FindKey(cf, req.key).value;
      assert forall j :: 0 <= j < |cf| ==> after[j].key == cf[j].key;
      assert FindKey(after, o.prev.key) == Some(i);
      assert after[i := o.prev][..|cf|] == cf;
    }
  }

  /** When no requirement was applied, the remembered entry is a
      default-constructed one, whose sentinel score is below nothing: the
      rollback condition is false whatever the new closest distance. */
  lemma UnappliedNeverRollsBack(cf: seq<Entry>, req: Requirement, closest: Score)
    ensures !ApplyRequirements(cf, req).applied ==> !Below(ApplyRequirements(cf, req).prev.score, closest)
  {
  }

  /** Every parameter has at least one option (`options.front()` is read). */
  ghost predicate Runnable(catalog: seq<Param>) {
    forall i :: 0 <= i < |catalog| ==> |catalog[i].values.options| > 0
  }

  /** The greedy search as a fold: the entries left after running `Step`
      for parameters `i`, `i + 1`, ... of the catalog, starting from `cf`. */
  function Run(catalog: seq<Param>, i: nat, cf: seq<Entry>, oracle: Oracle, requireInfluence: bool): seq<Entry>
    requires i <= |catalog| && Runnable(catalog)
    decreases |catalog| - i
  {
    if i == |catalog| then cf
    else Run(catalog, i + 1, Step(cf, catalog[i], oracle, requireInfluence).entries, oracle, requireInfluence)
  }

  /** One turn of the fold: running from parameter `i` is running `Step`
      on it, then running from `i + 1`. */
  lemma RunStep(catalog: seq<Param>, i: nat, cf: seq<Entry>, oracle: Oracle, requireInfluence: bool)
    requires i < |catalog| && Runnable(catalog)
    ensures Run(catalog, i, cf, oracle, requireInfluence)
         == Run(catalog, i + 1, Step(cf, catalog[i], oracle, requireInfluence).entries, oracle, requireInfluence)
  {
  }

  /** Every candidate value of every parameter is a non-empty string. */
  ghost predicate AllNonEmpty(catalog: seq<Param>) {
    forall i :: 0 <= i < |catalog| ==> NonEmptyStrings(catalog[i].values.options)
  }

  /** Parameter `i` names a requirement whose target parameter comes earlier
      in the catalog. */
  ghost predicate TargetPrecedes(catalog: seq<Param>, i: int)
    requires 0 <= i < |catalog|
  {
    var req := catalog[i].values.requirements;
    req.key != "" && exists j :: 0 <= j < i && catalog[j].key == req.key
  }

  /** Entry `j` belongs to parameter `origin[j]`, one of the first `i`,
      and the entries follow the catalog order. */
  ghost predicate Origins(catalog: seq<Param>, i: nat, cf: seq<Entry>, origin: seq<nat>)
    requires i <= |catalog|
  {
    && |origin| == |cf| <= i
    && (forall j :: 0 <= j < |cf| ==> origin[j] < i && cf[j].key == catalog[origin[j]].key)
  }

  /** Parameter `k`'s requirement was applied only if its target precedes it. */
  ghost predicate AppliedSound(catalog: seq<Param>, applied: seq<bool>)
    requires |applied| <= |catalog|
  {
    forall k :: 0 <= k < |applied| && applied[k] ==> TargetPrecedes(catalog, k)
  }

  /** Every one of the first `i` parameters left exactly its own entry, and
      each requirement was applied exactly when its target precedes it. */
  ghost predicate Exact(catalog: seq<Param>, i: nat, cf: seq<Entry>, origin: seq<nat>, applied: seq<bool>)
    requires |applied| == i <= |catalog| && |origin| == |cf|
  {
    && |cf| == i
    && (forall j :: 0 <= j < i ==> origin[j] == j)
    && (forall k :: 0 <= k < i ==> (applied[k] <==> TargetPrecedes(catalog, k)))
  }

  /** What the search loop keeps after visiting the first `i` parameters:
      `origin[j]` is the parameter entry `j` belongs to, and `applied[k]`
      the `req_applied` flag of parameter `k`. */
  ghost predicate SearchInvariant(catalog: seq<Param>, requireInfluence: bool, i: nat,
                                  cf: seq<Entry>, origin: seq<nat>, applied: seq<bool>)
  {
    && i <= |catalog| && |applied| == i
    && Origins(catalog, i, cf, origin)
    && AppliedSound(catalog, applied)
    && (!requireInfluence && AllNonEmpty(catalog) ==> Exact(catalog, i, cf, origin, applied))
  }

  /** What one step of the search promises about the entries it leaves
      (`next`) and about whether parameter `i`'s requirement was applied. */
  ghost predicate StepShape(catalog: seq<Param>, requireInfluence: bool, i: nat,
                            cf: seq<Entry>, next: seq<Entry>, wasApplied: bool)
    requires i < |catalog|
  {
    var req := catalog[i].values.requirements;
    && |cf| <= |next| <= |cf| + 1
    && (|next| == |cf| + 1 ==> next[|cf|].key == catalog[i].key)
    && (forall j :: 0 <= j < |cf| ==> next[j].key == cf[j].key)
    && (!requireInfluence && NonEmptyStrings(catalog[i].values.options) ==> |next| == |cf| + 1)
    && (wasApplied <==> req.key != "" && exists j :: 0 <= j < |cf| && cf[j].key == req.key)
  }

  lemma OriginsStep(catalog: seq<Param>, requireInfluence: bool, i: nat,
                    cf: seq<Entry>, origin: seq<nat>, next: seq<Entry>, wasApplied: bool)
    requires i < |catalog| && Origins(catalog, i, cf, origin)
    requires StepShape(catalog, requireInfluence, i, cf, next, wasApplied)
    ensures Origins(catalog, i + 1, next, if |next| == |cf| + 1 then origin + [i] else origin)
  {
    var o := if |next| == |cf| + 1 then origin + [i] else origin;
    forall j | 0 <= j < |next|
      ensures o[j] < i + 1 && next[j].key == catalog[o[j]].key
    {
      if j < |cf| {
        assert o[j] == origin[j];
        assert next[j].key == cf[j].key;
      } else {
        assert o[j] == i;
      }
    }
  }

  lemma AppliedSoundStep(catalog: seq<Param>, requireInfluence: bool, i: nat,
                         cf: seq<Entry>, origin: seq<nat>, applied: seq<bool>, next: seq<Entry>, wasApplied: bool)
    requires i < |catalog| && |applied| == i && Origins(catalog, i, cf, origin) && AppliedSound(catalog, applied)
    requires StepShape(catalog, requireInfluence, i, cf, next, wasApplied)
    ensures AppliedSound(catalog, applied + [wasApplied])
  {
    if wasApplied {
      var req := catalog[i].values.requirements;
      var m :| 0 <= m < |cf| && cf[m].key == req.key;
      assert catalog[origin[m]].key == req.key;
    }
  }

  lemma ExactStep(catalog: seq<Param>, requireInfluence: bool, i: nat,
                  cf: seq<Entry>, origin: seq<nat>, applied: seq<bool>, next: seq<Entry>, wasApplied: bool)
    requires i < |catalog| && |applied| == i && Origins(catalog, i, cf, origin)
    requires !requireInfluence && AllNonEmpty(catalog) && Exact(catalog, i, cf, origin, applied)
    requires StepShape(catalog, requireInfluence, i, cf, next, wasApplied)
    ensures Exact(catalog, i + 1, next, origin + [i], applied + [wasApplied])
  {
    if TargetPrecedes(catalog, i) {
      var req := catalog[i].values.requirements;
      var j :| 0 <= j < i && catalog[j].key == req.key;
      assert cf[origin[j]].key == req.key;
    }
  }

  /** One iteration of the search loop keeps its invariant. */
  lemma SearchStep(catalog: seq<Param>, requireInfluence: bool, i: nat,
                   cf: seq<Entry>, origin: seq<nat>, applied: seq<bool>, oracle: Oracle)
    requires i < |catalog| && Runnable(catalog)
    requires SearchInvariant(catalog, requireInfluence, i, cf, origin, applied)
    ensures var r := Step(cf, catalog[i], oracle, requireInfluence);
      var o := ApplyRequirements(cf, catalog[i].values.requirements);
      SearchInvariant(catalog, requireInfluence, i + 1, r.entries,
                      if |r.entries| == |cf| + 1 then origin + [i] else origin, applied + [o.applied])
  {
    var r := Step(cf, catalog[i], oracle, requireInfluence);
    var o := ApplyRequirements(cf, catalog[i].values.requirements);
    assert StepShape(catalog, requireInfluence, i, cf, r.entries, o.applied);
    OriginsStep(catalog, requireInfluence, i, cf, origin, r.entries, o.applied);
    AppliedSoundStep(catalog, requireInfluence, i, cf, origin, applied, r.entries, o.applied);
    if !requireInfluence && AllNonEmpty(catalog) {
      ExactStep(catalog, requireInfluence, i, cf, origin, applied, r.entries, o.applied);
    }
  }

  /** The body of the search loop for parameter `i`: apply its
      requirement, evaluate it and roll back, leaving the entries `Step`
      leaves and keeping the loop's invariant. */
  method VisitParam(catalog: seq<Param>, i: nat, cf: seq<Entry>, ghost origin: seq<nat>, applied: seq<bool>,
               oracle: Oracle, requireInfluence: bool)
    returns (next: seq<Entry>, wasApplied: bool, ghost origin': seq<nat>)
    requires i < |catalog| && Runnable(catalog)
    requires SearchInvariant(catalog, requireInfluence, i, cf, origin, applied)
    ensures SearchInvariant(catalog, requireInfluence, i + 1, next, origin', applied + [wasApplied])
    ensures Run(catalog, i + 1, next, oracle, requireInfluence) == Run(catalog, i, cf, oracle, requireInfluence)
  {
    var r := Step(cf, catalog[i], oracle, requireInfluence);
    wasApplied := ApplyRequirements(cf, catalog[i].values.requirements).applied;
    SearchStep(catalog, requireInfluence, i, cf, origin, applied, oracle);
    RunStep(catalog, i, cf, oracle, requireInfluence);
    origin' := if |r.entries| == |cf| + 1 then origin + [i] else origin;
    next := r.entries;
  }

  /** `clang_format_local_search`: every parameter of the catalog in turn,
      each step starting from the entries the previous one left behind, so
      the result is exactly the fold `Run` of `Step` over the catalog.
      `applied[i]` is the `req_applied` flag of parameter `i`. Every entry
      belongs to some parameter; a requirement can only be applied when its
      target was visited earlier; and without the influence requirement
      every parameter leaves exactly one entry, in catalog order, so a
      requirement is applied exactly when its target precedes it. */
  method LocalSearch(catalog: seq<Param>, oracle: Oracle, requireInfluence: bool)
    returns (cf: seq<Entry>, applied: seq<bool>)
    requires Runnable(catalog)
    ensures cf == Run(catalog, 0, [], oracle, requireInfluence)
    ensures |cf| <= |catalog| && |applied| == |catalog|
    ensures forall j :: 0 <= j < |cf| ==> exists k :: 0 <= k < |catalog| && cf[j].key == catalog[k].key
    ensures forall i :: 0 <= i < |catalog| && applied[i] ==> TargetPrecedes(catalog, i)
    ensures !requireInfluence && AllNonEmpty(catalog) ==>
      && |cf| == |catalog|
      && (forall j :: 0 <= j < |cf| ==> cf[j].key == catalog[j].key)
      && (forall i :: 0 <= i < |catalog| ==> (applied[i] <==> TargetPrecedes(catalog, i)))
  {
    cf := [];
    applied := [];
    ghost var origin: seq<nat> := [];
    var i := 0;
    while i < |catalog|
      invariant SearchInvariant(catalog, requireInfluence, i, cf, origin, applied)
      invariant Run(catalog, i, cf, oracle, requireInfluence) == Run(catalog, 0, [], oracle, requireInfluence)
    {
      var wasApplied;
      cf, wasApplied, origin := VisitParam(catalog, i, cf, origin, applied, oracle, requireInfluence);
      applied := applied + [wasApplied];
      i := i + 1;
    }
    forall j | 0 <= j < |cf|
      ensures exists k :: 0 <= k < |catalog| && cf[j].key == catalog[k].key
    {
      assert cf[j].key == catalog[origin[j]].key;
    }
  }
}
