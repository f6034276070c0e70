/** `save` (and its twin `print`, which writes the same lines to the
    terminal without the header): the inferred entries rendered as a
    `.clang-format` file. Top-level keys are written as `key: value`;
    dotted keys as `  sub: value` under a `section:` line that is emitted
    whenever the section differs from the previous dotted key's; failed
    entries are commented out with `# `; enumerators lose their `XX_`
    prefix; and a trailing comment, aligned at column 50, says where the
    value came from. */
module Serializer {
  import opened Wrappers
  import opened Strings
  import opened ClangFormat

  /** The first line of every saved file. */
  const Header: string :=
    "# .clang-format inferred with clang-unformat (https://www.github.com/alandefreitas/clang-unformat)\n"

  /** The column the trailing comments are aligned to. */
  const CommentColumn: nat := 50

  /** The largest `size_t`, which is what the sentinel score prints as. */
  const SizeMax: nat := SizeLimit - 1

  // ---------------------------------------------------------------------
  // Values and comments

  /** The value as written: the text after its last '_' (`BS_Custom` is
      written `Custom`), or the whole value when it has none. */
  function ShortValue(v: string): (r: string)
    ensures '_' !in r
    ensures |r| <= |v| && r == v[|v| - |r|..]
    ensures '_' !in v ==> r == v
    ensures '_' in v ==> |r| < |v| && v[|v| - |r| - 1] == '_'
  {
    match FindLastOf(v, '_')
    case None => v
    case Some(k) => v[k + 1..]
  }

  /** Shortening strips exactly the enumerator prefix up to the last '_',
      and shortening twice is shortening once. */
  lemma ShortValueOfEnumerator(prefix: string, name: string)
    requires '_' !in name
    ensures ShortValue(prefix + "_" + name) == name
    ensures ShortValue(ShortValue(prefix + "_" + name)) == ShortValue(prefix + "_" + name)
  {
    var v := prefix + "_" + name;
    assert v[|prefix|] == '_';
    var k := FindLastOf(v, '_').value;
    assert k >= |prefix|;
    assert k <= |prefix|;
    assert v[k + 1..] == name;
  }

  /** How `fmt` writes the sentinel score: 2^64 - 1, the largest `size_t`. */
  const SentinelText: string := "18446744073709551615"

  /** A score as `fmt` writes a `size_t`. */
  function ScoreText(s: Score): (t: string)
    ensures |t| > 0 && AllDigits(t)
    ensures s.Some? ==> DigitsValue(t) == s.value
    ensures s.None? ==> DigitsValue(t) == SizeMax
  {
    match s
    case None => SentinelValue(); SentinelText
    case Some(n) => DigitsValueOfNatToString(n); NatToString(n)
  }

  /** Appending a digit to a known prefix of digits multiplies its value
      by ten and adds the digit. */
  lemma LeadingDigits(t: string, k: nat, v: nat, c: char)
    requires AllDigits(t) && k < |t| && DigitsValue(t[..k]) == v && t[k] == c
    ensures DigitsValue(t[..k + 1]) == v * 10 + DigitValue(c)
  {
    assert t[..k + 1][..k] == t[..k];
  }

  /** The sentinel's text is made of digits. */
  lemma SentinelIsDigits(t: string)
    requires t == SentinelText
    ensures AllDigits(t)
  {
  }

  /** The sentinel's text denotes 2^64 - 1, the largest `size_t`. */
  lemma SentinelValue()
    ensures AllDigits(SentinelText) && DigitsValue(SentinelText) == SizeMax
  {
    SentinelDigits(SentinelText);
  }

  lemma SentinelDigits(t: string)
    requires t == SentinelText
    ensures AllDigits(t) && DigitsValue(t) == SizeMax
  {
    SentinelIsDigits(t);
    assert t[..0] == [];
    SentinelDigits0(t);
    SentinelDigits1(t);
    SentinelDigits2(t);
    SentinelDigits3(t);
    assert t[..20] == t;
  }

  /** Digits 0 to 4 of the sentinel. */
  lemma SentinelDigits0(t: string)
    requires AllDigits(t) && |t| >= 5 && DigitsValue(t[..0]) == 0
    requires t[0] == '1' && t[1] == '8' && t[2] == '4' && t[3] == '4' && t[4] == '6'
    ensures DigitsValue(t[..5]) == 18446
  {
    LeadingDigits(t, 0, 0, '1');
    LeadingDigits(t, 1, 1, '8');
    LeadingDigits(t, 2, 18, '4');
    LeadingDigits(t, 3, 184, '4');
    LeadingDigits(t, 4, 1844, '6');
  }

  /** Digits 5 to 9 of the sentinel. */
  lemma SentinelDigits1(t: string)
    requires AllDigits(t) && |t| >= 10 && DigitsValue(t[..5]) == 18446
    requires t[5] == '7' && t[6] == '4' && t[7] == '4' && t[8] == '0' && t[9] == '7'
    ensures DigitsValue(t[..10]) == 1844674407
  {
    LeadingDigits(t, 5, 18446, '7');
    LeadingDigits(t, 6, 184467, '4');
    LeadingDigits(t, 7, 1844674, '4');
    LeadingDigits(t, 8, 18446744, '0');
    LeadingDigits(t, 9, 184467440, '7');
  }

  /** Digits 10 to 14 of the sentinel. */
  lemma SentinelDigits2(t: string)
    requires AllDigits(t) && |t| >= 15 && DigitsValue(t[..10]) == 1844674407
    requires t[10] == '3' && t[11] == '7' && t[12] == '0' && t[13] == '9' && t[14] == '5'
    ensures DigitsValue(t[..15]) == 184467440737095
  {
    LeadingDigits(t, 10, 1844674407, '3');
    LeadingDigits(t, 11, 18446744073, '7');
    LeadingDigits(t, 12, 184467440737, '0');
    LeadingDigits(t, 13, 1844674407370, '9');
    LeadingDigits(t, 14, 18446744073709, '5');
  }

  /** Digits 15 to 19 of the sentinel. */
  lemma SentinelDigits3(t: string)
    requires AllDigits(t) && |t| >= 20 && DigitsValue(t[..15]) == 184467440737095
    requires t[15] == '5' && t[16] == '1' && t[17] == '6' && t[18] == '1' && t[19] == '5'
    ensures DigitsValue(t[..20]) == 18446744073709551615
  {
    LeadingDigits(t, 15, 184467440737095, '5');
    LeadingDigits(t, 16, 1844674407370955, '1');
    LeadingDigits(t, 17, 18446744073709551, '6');
    LeadingDigits(t, 18, 184467440737095516, '1');
    LeadingDigits(t, 19, 1844674407370955161, '5');
  }

  /** The trailing comment, by priority: the entry's own comment; else
      "parameter not available" for a failed entry; else "did not affect
      the output"; else the edit distance when it is not zero; else none. */
  function CommentText(e: Entry): (c: Option<string>)
    ensures e.comment != "" ==> c == Some(e.comment)
    ensures e.comment == "" && e.failed ==> c == Some("parameter not available")
    ensures e.comment == "" && !e.failed && !e.affectedOutput ==> c == Some("did not affect the output")
    ensures e.comment == "" && !Unresolved(e) ==>
      (c.None? <==> e.score == Some(0))
      && (c.Some? ==> c.value == "edit distance " + ScoreText(e.score))
  {
    if e.comment != "" then Some(e.comment)
    else if e.failed then Some("parameter not available")
    else if !e.affectedOutput then Some("did not affect the output")
    else if e.score != Some(0) then Some("edit distance " + ScoreText(e.score))
    else None
  }

  /** Every entry the search could not settle is explained by a comment;
      only a settled, uncommented entry with a perfect score has none. */
  lemma EveryUnresolvedEntryIsExplained(e: Entry)
    ensures Unresolved(e) ==> CommentText(e).Some?
    ensures CommentText(e).None? <==> e.comment == "" && !Unresolved(e) && e.score == Some(0)
  {
  }

  // ---------------------------------------------------------------------
  // One entry

  /** The key as written: the whole key, or two spaces and the sub-option. */
  function KeyText(key: string): (t: string)
    ensures '.' !in key ==> t == key
    ensures '.' in key ==> |t| >= 2 && t[..2] == "  " && key == SplitKey(key).value.0 + "." + t[2..]
  {
    match SplitKey(key)
    case None => key
    case Some((section, sub)) =>
      assert ("  " + sub)[2..] == sub;
      "  " + sub
  }

  /** `entry_width`: key as written, ": " and the value as written, not
      counting the `# ` of a failed entry. */
  function EntryWidth(e: Entry): nat {
    |KeyText(e.key)| + |ShortValue(e.value)| + 2
  }

  /** The two characters a failed entry is commented out with. */
  function Mark(failed: bool): string {
    if failed then "# " else ""
  }

  /** The entry's line up to its value. */
  function EntryBody(e: Entry): (b: string)
    ensures |b| == EntryWidth(e) + |Mark(e.failed)|
  {
    Mark(e.failed) + (KeyText(e.key) + (": " + ShortValue(e.value)))
  }

  /** `comment_padding` as written: `size_t` arithmetic, so the subtraction
      wraps modulo 2^64 when a failed entry is 49 or 50 wide. */
  function PaddingAsWritten(width: nat, failed: bool): (p: nat)
    requires width < SizeLimit
    ensures p < SizeLimit
  {
    if width > CommentColumn then 0
    else (CommentColumn - width - (if failed then 2 else 0)) % SizeLimit
  }

  /** The padding that puts the comment at column 50, or right after the
      body when the body is already wider. */
  function Padding(width: nat, failed: bool): (p: nat)
    ensures width + |Mark(failed)| + p == if width + |Mark(failed)| > CommentColumn then width + |Mark(failed)| else CommentColumn
  {
    var body := width + |Mark(failed)|;
    if body > CommentColumn then 0 else CommentColumn - body
  }

  /** The two paddings agree except for a failed entry 49 or 50 wide, where
      the written one wraps to one of the two largest `size_t` values. */
  lemma PaddingAsWrittenWraps(width: nat, failed: bool)
    requires width < SizeLimit
    ensures PaddingAsWritten(width, failed) != Padding(width, failed) <==> failed && 49 <= width <= 50
    ensures failed && width == 49 ==> PaddingAsWritten(width, failed) == SizeMax
    ensures failed && width == 50 ==> PaddingAsWritten(width, failed) == SizeMax - 1
  {
  }

  /** Any failed top-level entry whose key and shortened value have 47
      characters together is 49 wide, and the written padding asks `fmt`
      for 2^64 - 1 spaces. */
  lemma WrappingEntry(e: Entry)
    requires e.failed && '.' !in e.key && '_' !in e.value && |e.key| + |e.value| == 47
    ensures EntryWidth(e) == 49 && PaddingAsWritten(EntryWidth(e), e.failed) == SizeMax
  {
  }

  /** `n` spaces: `fmt::format("{0: ^{1}}", "", n)`. */
  function Spaces(n: nat): (s: string)
    ensures |s| == n && forall j :: 0 <= j < n ==> s[j] == ' '
  {
    if n == 0 then "" else Spaces(n - 1) + " "
  }

  /** The padding and trailing comment, if there is one. */
  function CommentPart(e: Entry): string {
    match CommentText(e)
    case None => ""
    case Some(c) => Spaces(Padding(EntryWidth(e), e.failed)) + (" # " + c)
  }

  /** The entry's own line. */
  function EntryLine(e: Entry): string {
    EntryBody(e) + (CommentPart(e) + "\n")
  }

  /** An entry line starts with `# ` exactly for failed entries (keys
      never start with '#'). */
  lemma EntryLineMark(e: Entry)
    ensures e.failed ==> EntryLine(e)[0] == '#' && EntryLine(e)[1] == ' '
    ensures !e.failed && (e.key == "" || e.key[0] != '#') ==> EntryLine(e)[0] != '#'
  {
    var b := EntryBody(e);
    assert EntryLine(e)[0] == b[0] && EntryLine(e)[1] == b[1];
    if !e.failed {
      var k := KeyText(e.key);
      assert b[0] == (k + (": " + ShortValue(e.value)))[0];
      if k == "" {
        assert b[0] == ':';
      } else {
        assert b[0] == k[0];
      }
    }
  }

  /** The comment follows padding that ends at column 50, or right after a
      body that is already wider. */
  lemma CommentColumnAligned(e: Entry)
    ensures CommentText(e).None? ==> CommentPart(e) == ""
    ensures CommentText(e).Some? ==>
      exists p: nat :: CommentPart(e) == Spaces(p) + (" # " + CommentText(e).value)
        && |EntryBody(e)| + p == if |EntryBody(e)| > CommentColumn then |EntryBody(e)| else CommentColumn
  {
    if CommentText(e).Some? {
      var p := Padding(EntryWidth(e), e.failed);
      assert CommentPart(e) == Spaces(p) + (" # " + CommentText(e).value);
    }
  }

  // ---------------------------------------------------------------------
  // Sections and the whole file

  /** The section line written before an entry: for a dotted key whose
      section differs from the previous dotted key's, `section:`. */
  function SectionLine(key: string, prev: string): (s: string)
    ensures s != "" <==> '.' in key && SplitKey(key).value.0 != prev
    ensures s != "" ==> s == SplitKey(key).value.0 + ":\n"
  {
    match SplitKey(key)
    case None => ""
    case Some((section, _)) => if section != prev then section + ":\n" else ""
  }

  /** `prev_section` after an entry: only dotted keys update it. */
  function NextSection(key: string, prev: string): string {
    match SplitKey(key)
    case None => prev
    case Some((section, _)) => section
  }

  /** The position of the last dotted key of `cf`, if any. */
  function LastDotted(cf: seq<Entry>): (r: Option<nat>)
    ensures r.Some? ==> r.value < |cf| && '.' in cf[r.value].key
    ensures r.Some? ==> forall k :: r.value < k < |cf| ==> '.' !in cf[k].key
    ensures r.None? ==> forall k :: 0 <= k < |cf| ==> '.' !in cf[k].key
  {
    if |cf| == 0 then None
    else if '.' in cf[|cf| - 1].key then Some(|cf| - 1)
    else LastDotted(cf[..|cf| - 1])
  }

  /** The section of the last dotted key of `cf`, or `prev` if it has none. */
  function LastSection(cf: seq<Entry>, prev: string): (s: string)
    ensures LastDotted(cf).None? ==> s == prev
    ensures LastDotted(cf).Some? ==> s == SplitKey(cf[LastDotted(cf).value].key).value.0
  {
    if |cf| == 0 then prev
    else match SplitKey(cf[|cf| - 1].key)
      case Some((section, _)) => section
      case None => LastSection(cf[..|cf| - 1], prev)
  }

  /** The lines of the entries, starting with `prev` as the previous section. */
  function Body(cf: seq<Entry>, prev: string): string
    decreases |cf|
  {
    if |cf| == 0 then ""
    else SectionLine(cf[0].key, prev) + (EntryLine(cf[0]) + Body(cf[1..], NextSection(cf[0].key, prev)))
  }

  /** `save`: the header and then every entry in order, starting with no
      previous section. */
  function Save(cf: seq<Entry>): (text: string)
    ensures Header <= text
    ensures |cf| == 0 ==> text == Header
  {
    Header + Body(cf, "")
  }

  /** Appending an entry updates the last section the way the loop does. */
  lemma LastSectionSnoc(cf: seq<Entry>, e: Entry, prev: string)
    ensures LastSection(cf + [e], prev) == NextSection(e.key, LastSection(cf, prev))
  {
    assert (cf + [e])[..|cf|] == cf;
  }

  /** Rendering a concatenation renders the first part, then the second part
      with the first part's last section as the previous one. */
  lemma {:induction false} BodyAppend(a: seq<Entry>, b: seq<Entry>, prev: string)
    ensures Body(a + b, prev) == Body(a, prev) + Body(b, LastSection(a, prev))
    decreases |a|
  {
    if |a| == 0 {
      assert a + b == b;
    } else {
      var next := NextSection(a[0].key, prev);
      BodyAppend(a[1..], b, next);
      LastSectionFront(a, prev);
      BodyCons(a, b, prev);
      Regroup(SectionLine(a[0].key, prev), EntryLine(a[0]), Body(a[1..], next), Body(b, LastSection(a, prev)));
    }
  }

  /** One unfolding of `Body` on each side of `BodyAppend`. */
  lemma BodyCons(a: seq<Entry>, b: seq<Entry>, prev: string)
    requires |a| > 0
    ensures var next := NextSection(a[0].key, prev);
      && Body(a + b, prev) == SectionLine(a[0].key, prev) + (EntryLine(a[0]) + Body(a[1..] + b, next))
      && Body(a, prev) == SectionLine(a[0].key, prev) + (EntryLine(a[0]) + Body(a[1..], next))
  {
    assert (a + b)[0] == a[0] && (a + b)[1..] == a[1..] + b;
  }

  /** Concatenation regrouped. */
  lemma Regroup(w: string, x: string, y: string, z: string)
    ensures w + (x + (y + z)) == (w + (x + y)) + z
  {
  }

  /** The last section of `cf` is that of its tail once the first entry has
      been seen. */
  lemma {:induction false} LastSectionFront(cf: seq<Entry>, prev: string)
    requires |cf| > 0
    ensures LastSection(cf, prev) == LastSection(cf[1..], NextSection(cf[0].key, prev))
    decreases |cf|
  {
    if |cf| > 1 {
      var init := cf[..|cf| - 1];
      assert init[1..] == cf[1..][..|cf| - 2];
      assert init[0] == cf[0];
      if SplitKey(cf[|cf| - 1].key).None? {
        LastSectionFront(init, prev);
      }
    }
  }

  /** In the saved file, entry `j` is written as its own line, preceded by
      a section line exactly when its key is dotted and its section differs
      from that of the last dotted key before it (top-level keys in
      between do not reset it). */
  lemma SaveLayout(cf: seq<Entry>, j: nat)
    requires j < |cf|
    ensures var before := LastSection(cf[..j], "");
      Save(cf) == Header + (Body(cf[..j], "") + (SectionLine(cf[j].key, before) + (EntryLine(cf[j])
                  + Body(cf[j + 1..], NextSection(cf[j].key, before)))))
  {
    var before := LastSection(cf[..j], "");
    assert cf == cf[..j] + cf[j..];
    BodyAppend(cf[..j], cf[j..], "");
    BodyFront(cf[j..], before);
    assert cf[j..][0] == cf[j] && cf[j..][1..] == cf[j + 1..];
  }

  /** One unfolding of `Body`. */
  lemma BodyFront(cf: seq<Entry>, prev: string)
    requires |cf| > 0
    ensures Body(cf, prev) == SectionLine(cf[0].key, prev) + (EntryLine(cf[0]) + Body(cf[1..], NextSection(cf[0].key, prev)))
  {
  }
}
