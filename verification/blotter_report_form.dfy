/**
 * The blotter status screen (`BlotterReportForm`): a list of reports seeded
 * with demonstration data, a grid bound to that list or to a filtered copy
 * of it, a search box that shows a grey `Search` placeholder while empty, and
 * a Delete button for the selected report.
 *
 * The screen is the list, the rows the grid shows and the search box. The
 * random choices `Seed` makes are parameters; the selected report is its
 * position in the list.
 */
module BlotterReportForm {
  import opened Wrappers
  import opened Text
  import opened Calendar
  import opened Seqs
  import Codes

  /** The `BlotterReport` view model. */
  datatype BlotterReport = BlotterReport(
    caseNo: Option<string>, incidentType: Option<string>, complainant: Option<string>,
    dateReported: DateTime, status: Option<string>, actions: Option<string>)

  const CasePrefix := "BL-"
  const SeedCount := 25
  const SeedTypes: seq<string> := ["Theft", "Physical Injury", "Vandalism", "Harassment"]
  const UnderInvestigation := "Under Investigation"
  const ForPickup := "For Pickup"
  const Pending := "Pending"
  const SeedActions := "View Details, Edit Status"
  const Placeholder := "Search"

  /** What `Random` picks for one seeded report: a type, a complainant number and the day it was reported. */
  datatype SeedRoll = SeedRoll(typeIndex: nat, complainantNumber: nat, dateReported: DateTime)

  /** `rng.Next(types.Length)` and `rng.Next(20, 100)` stay in their ranges. */
  predicate RollInRange(roll: SeedRoll) {
    roll.typeIndex < |SeedTypes| && 20 <= roll.complainantNumber < 100
  }

  /** The status of the `n`-th seeded report (counting from 1). */
  function SeedStatus(n: nat): (s: string)
    ensures s in {UnderInvestigation, ForPickup, Pending}
  {
    if n % 5 == 0 then UnderInvestigation else if n % 7 == 0 then ForPickup else Pending
  }

  /** The `n`-th seeded report (counting from 1). */
  function SeedReport(n: nat, roll: SeedRoll): BlotterReport
    requires RollInRange(roll)
  {
    BlotterReport(
      Some(Codes.FormatCode(CasePrefix, 1000 + n)), Some(SeedTypes[roll.typeIndex]),
      Some("Complainant " + DecimalDigits(roll.complainantNumber)), roll.dateReported,
      Some(SeedStatus(n)), Some(SeedActions))
  }

  /**
   * `Seed`: 25 reports numbered `BL-1001` to `BL-1025` in order, each with one
   * of the four demonstration types, a complainant `Complainant NN`, and the
   * status every fifth report is `Under Investigation`, otherwise every
   * seventh `For Pickup`, otherwise `Pending`.
   */
  function Seed(rolls: seq<SeedRoll>): (r: seq<BlotterReport>)
    requires |rolls| == SeedCount && forall i :: 0 <= i < |rolls| ==> RollInRange(rolls[i])
    ensures |r| == SeedCount
    ensures forall i :: 0 <= i < |r| ==>
      && r[i].caseNo.Some? && Codes.CodeNumber(CasePrefix, r[i].caseNo.value) == Some(1001 + i)
      && r[i].incidentType.Some? && r[i].incidentType.value in SeedTypes
      && r[i].status == Some(if (i + 1) % 5 == 0 then UnderInvestigation else if (i + 1) % 7 == 0 then ForPickup else Pending)
      && r[i].dateReported == rolls[i].dateReported
  {
    var r := seq(SeedCount, i requires 0 <= i < SeedCount => SeedReport(i + 1, rolls[i]));
    forall i | 0 <= i < |r|
      ensures Codes.CodeNumber(CasePrefix, r[i].caseNo.value) == Some(1001 + i)
      ensures r[i].incidentType.Some? && r[i].incidentType.value in SeedTypes
    {
      var x := SeedReport(i + 1, rolls[i]);
      assert r[i] == x;
      Codes.CodeNumberOfFormat(CasePrefix, 1000 + (i + 1));
      assert x.incidentType.value == SeedTypes[rolls[i].typeIndex];
    }
    r
  }

  /** No two seeded reports share a case number. */
  lemma SeedCaseNumbersDiffer(rolls: seq<SeedRoll>, i: nat, j: nat)
    requires |rolls| == SeedCount && forall k :: 0 <= k < |rolls| ==> RollInRange(rolls[k])
    requires i < j < SeedCount
    ensures Seed(rolls)[i].caseNo != Seed(rolls)[j].caseNo
  {
    var r := Seed(rolls);
    assert Codes.CodeNumber(CasePrefix, r[i].caseNo.value) != Codes.CodeNumber(CasePrefix, r[j].caseNo.value);
  }

  /** The first seeded report is `BL-1001` and the last `BL-1025`. */
  lemma SeedEnds(rolls: seq<SeedRoll>)
    requires |rolls| == SeedCount && forall k :: 0 <= k < |rolls| ==> RollInRange(rolls[k])
    ensures Seed(rolls)[0].caseNo == Some("BL-1001")
    ensures Seed(rolls)[SeedCount - 1].caseNo == Some("BL-1025")
  {
    var r := Seed(rolls);
    assert r[0] == SeedReport(1, rolls[0]);
    assert r[SeedCount - 1] == SeedReport(25, rolls[24]);
    Digits1001();
    Digits1025();
  }

  lemma Digits1001()
    ensures Codes.FormatCode(CasePrefix, 1001) == "BL-1001"
  {
    assert DecimalDigits(1) == ['1'];
    assert DecimalDigits(10) == ['1', '0'];
    assert DecimalDigits(100) == ['1', '0', '0'];
    assert DecimalDigits(1001) == ['1', '0', '0', '1'];
  }

  lemma Digits1025()
    ensures Codes.FormatCode(CasePrefix, 1025) == "BL-1025"
  {
    assert DecimalDigits(1) == ['1'];
    assert DecimalDigits(10) == ['1', '0'];
    assert DecimalDigits(102) == ['1', '0', '2'];
    assert DecimalDigits(1025) == ['1', '0', '2', '5'];
  }

  /** Among the seeded reports the first is pending, the fifth under investigation and the seventh for pickup. */
  lemma SeedStatuses(rolls: seq<SeedRoll>)
    requires |rolls| == SeedCount && forall k :: 0 <= k < |rolls| ==> RollInRange(rolls[k])
    ensures Seed(rolls)[0].status == Some(Pending)
    ensures Seed(rolls)[4].status == Some(UnderInvestigation)
    ensures Seed(rolls)[6].status == Some(ForPickup)
  {
    var r := Seed(rolls);
    assert (0 + 1) % 5 != 0 && (0 + 1) % 7 != 0;
    assert (4 + 1) % 5 == 0;
    assert (6 + 1) % 5 != 0 && (6 + 1) % 7 == 0;
  }

  /** The `ApplyFilter` lambda: the query occurs, ignoring case, in the case number, the type or the complainant. */
  predicate Matches(x: BlotterReport, q: string) {
    || ContainsIgnoreCase(OrEmpty(x.caseNo), q)
    || ContainsIgnoreCase(OrEmpty(x.incidentType), q)
    || ContainsIgnoreCase(OrEmpty(x.complainant), q)
  }

  /**
   * `ApplyFilter(q)`: every report for a blank query; otherwise the reports
   * that match it (untrimmed), in list order.
   */
  function ApplyFilter(items: seq<BlotterReport>, q: string): (r: seq<BlotterReport>)
    ensures IsSubsequence(r, items)
    ensures IsBlank(q) ==> r == items
    ensures !IsBlank(q) ==> forall i :: 0 <= i < |items| ==> (items[i] in r <==> Matches(items[i], q))
    ensures !IsBlank(q) ==> forall i :: 0 <= i < |r| ==> Matches(r[i], q)
  {
    if IsBlank(q) then
      assert IsSubsequence(items, items) by { SubsequenceRefl(items); }
      items
    else
      var p := (x: BlotterReport) => Matches(x, q);
      var r := Filter(items, p);
      forall i | 0 <= i < |items| ensures items[i] in r <==> Matches(items[i], q) {
        FilterMember(items, p, items[i]);
      }
      r
  }

  /** Filtering what a filter already showed changes nothing. */
  lemma ApplyFilterIdempotent(items: seq<BlotterReport>, q: string)
    ensures ApplyFilter(ApplyFilter(items, q), q) == ApplyFilter(items, q)
  {
    if !IsBlank(q) {
      var r := ApplyFilter(items, q);
      FilterAll(r, (x: BlotterReport) => Matches(x, q));
    }
  }

  /** A text contains itself, whatever the case. */
  lemma ContainsIgnoreCaseSelf(s: string)
    ensures ContainsIgnoreCase(s, s)
  {
    var l := ToLower(s);
    assert OccursAt(l, l, 0) by { assert l[0..|l|] == l; }
  }

  /** Searching for a report's own case number keeps it on the grid. */
  lemma CaseNumberFindsReport(items: seq<BlotterReport>, i: nat)
    requires i < |items| && items[i].caseNo.Some? && !IsBlank(items[i].caseNo.value)
    ensures items[i] in ApplyFilter(items, items[i].caseNo.value)
  {
    ContainsIgnoreCaseSelf(items[i].caseNo.value);
  }

  /** The search box: its text, whether it has the focus, and whether it is grey (showing the placeholder). */
  datatype SearchBox = SearchBox(text: string, focused: bool, grey: bool)

  /** The screen: the list, the rows bound to the grid, and the search box. */
  datatype Screen = Screen(items: seq<BlotterReport>, view: seq<BlotterReport>, box: SearchBox)

  /** The query the grid is meant to reflect: nothing while the placeholder shows. */
  function Query(b: SearchBox): (q: string)
    ensures b.grey ==> q == []
    ensures !b.grey ==> q == b.text
  {
    if b.grey then [] else b.text
  }

  /** The placeholder is grey text in a box without the focus; a box with the focus is never grey. */
  ghost predicate BoxValid(b: SearchBox) {
    b.grey ==> b.text == Placeholder && !b.focused
  }

  /** The grid shows exactly the list filtered by the search box's query. */
  ghost predicate Consistent(s: Screen) {
    BoxValid(s.box) && s.view == ApplyFilter(s.items, Query(s.box))
  }

  /** After `Seed`: the whole list, and the grey placeholder in a box without the focus. */
  function Initial(items: seq<BlotterReport>): (s: Screen)
    ensures Consistent(s)
    ensures s.view == items && s.box.text == Placeholder
  {
    Screen(items, items, SearchBox(Placeholder, false, true))
  }

  /** The `TextChanged` handler: filter by the text, unless the box lacks the focus and shows `Search`. */
  function TextChanged(s: Screen): (r: Screen)
    ensures r.items == s.items && r.box == s.box
    ensures s.box.focused || s.box.text != Placeholder ==> r.view == ApplyFilter(s.items, s.box.text)
    ensures !s.box.focused && s.box.text == Placeholder ==> r.view == s.view
  {
    if s.box.focused || s.box.text != Placeholder then s.(view := ApplyFilter(s.items, s.box.text)) else s
  }

  /** Setting the box's text; `TextChanged` fires only when the text differs. */
  function SetText(s: Screen, text: string, grey: bool): (r: Screen)
    ensures r.items == s.items && r.box == s.box.(text := text, grey := grey)
    ensures text == s.box.text ==> r.view == s.view
    ensures text != s.box.text ==> r == TextChanged(s.(box := s.box.(text := text, grey := grey)))
  {
    var s1 := s.(box := s.box.(text := text, grey := grey));
    if text == s.box.text then s1 else TextChanged(s1)
  }

  /** `GotFocus`: the box takes the focus; text equal to `Search` is cleared and turns dark. */
  function Focus(s: Screen): (r: Screen)
    ensures r.items == s.items && r.box.focused && !r.box.grey
    ensures Consistent(s) ==> Consistent(r)
  {
    var s1 := s.(box := s.box.(focused := true));
    if s.box.text == Placeholder then
      var r := SetText(s1, [], false);
      assert IsBlank([]);
      r
    else
      s1.(box := s1.box.(grey := false))
  }

  /** `LostFocus`: the box loses the focus; blank text is replaced by the grey placeholder. */
  function Blur(s: Screen): (r: Screen)
    ensures r.items == s.items && !r.box.focused
    ensures IsBlank(s.box.text) ==> r.box.text == Placeholder && r.box.grey
    ensures !IsBlank(s.box.text) ==> r.box.text == s.box.text && r.box.grey == s.box.grey
    ensures Consistent(s) ==> Consistent(r)
  {
    var s1 := s.(box := s.box.(focused := false));
    assert Placeholder[0] == 'S';
    if IsBlank(s.box.text) then SetText(s1, Placeholder, true) else s1
  }

  /** Typing into the box, which has the focus. */
  function Type(s: Screen, text: string): (r: Screen)
    requires s.box.focused
    ensures r.items == s.items && r.box.text == text && r.box.focused
    ensures Consistent(s) ==> Consistent(r)
  {
    SetText(s, text, false)
  }

  /** Leaving the search box empty puts the placeholder back and the grid shows every report. */
  lemma ClearingSearchShowsAll(s: Screen)
    requires Consistent(s) && s.box.focused
    ensures var r := Blur(Type(s, []));
      r.view == s.items && r.box.text == Placeholder && r.box.grey
  {
  }

  /**
   * `DeleteSelected` as written: with no selection nothing happens; otherwise
   * the selected report leaves the list and the grid is filtered again by the
   * box's text, which is `Search` while the placeholder shows.
   */
  function DeleteSelectedAsWritten(s: Screen, selected: Option<nat>): (r: Screen)
    requires selected.Some? ==> selected.value < |s.items|
    ensures selected.None? ==> r == s
    ensures selected.Some? ==>
      && r.items == s.items[..selected.value] + s.items[selected.value + 1..]
      && r.view == ApplyFilter(r.items, s.box.text)
  {
    match selected
    case None => s
    case Some(k) =>
      var items := s.items[..k] + s.items[k + 1..];
      s.(items := items, view := ApplyFilter(items, s.box.text))
  }

  /** Deleting with the placeholder showing empties the grid even though a report is left in the list. */
  lemma DeleteUnderPlaceholderHidesRest(d: DateTime)
    ensures var kept := BlotterReport(Some("BL-1002"), Some("Theft"), Some("Complainant 42"), d, Some(Pending), Some(SeedActions));
      var gone := kept.(caseNo := Some("BL-1001"));
      var s := Initial([gone, kept]);
      var r := DeleteSelectedAsWritten(s, Some(0));
      Consistent(s) && r.items == [kept] && r.view == [] && !Consistent(r)
  {
    var kept := BlotterReport(Some("BL-1002"), Some("Theft"), Some("Complainant 42"), d, Some(Pending), Some(SeedActions));
    var gone := kept.(caseNo := Some("BL-1001"));
    var s := Initial([gone, kept]);
    var r := DeleteSelectedAsWritten(s, Some(0));
    assert r.items == [kept];
    PlaceholderMisses(kept);
    assert !IsBlank(Placeholder) by { assert Placeholder[0] == 'S'; }
    assert kept !in r.view;
    assert Query(r.box) == [];
  }

  /** No field of the kept report contains an `s`, which `search` does. */
  lemma PlaceholderMisses(kept: BlotterReport)
    requires kept.caseNo == Some("BL-1002") && kept.incidentType == Some("Theft") && kept.complainant == Some("Complainant 42")
    ensures !Matches(kept, Placeholder)
  {
    var lq := ToLower(Placeholder);
    assert lq[0] == 's';
    NoLetterNoMatch("BL-1002", Placeholder, 's');
    NoLetterNoMatch("Theft", Placeholder, 's');
    NoLetterNoMatch("Complainant 42", Placeholder, 's');
  }

  /** A text that lacks, after lower-casing, a letter of the lower-cased query does not contain the query. */
  lemma NoLetterNoMatch(s: string, q: string, c: char)
    requires c in ToLower(q) && forall i :: 0 <= i < |s| ==> ToLowerChar(s[i]) != c
    ensures !ContainsIgnoreCase(s, q)
  {
  }

  /** `DeleteSelected` refiltering by the query the grid reflects: the placeholder counts as no query. */
  function DeleteSelected(s: Screen, selected: Option<nat>): (r: Screen)
    requires selected.Some? ==> selected.value < |s.items|
    ensures selected.None? ==> r == s
    ensures selected.Some? ==>
      && r.box == s.box
      && r.items == s.items[..selected.value] + s.items[selected.value + 1..]
      && multiset(r.items) == multiset(s.items) - multiset{s.items[selected.value]}
    ensures Consistent(s) ==> Consistent(r)
  {
    match selected
    case None => s
    case Some(k) =>
      var items := s.items[..k] + s.items[k + 1..];
      assert s.items == s.items[..k] + [s.items[k]] + s.items[k + 1..];
      s.(items := items, view := ApplyFilter(items, Query(s.box)))
  }

  /** With a real query (no placeholder) the corrected and the written deletion agree. */
  lemma DeleteAgreesWithoutPlaceholder(s: Screen, selected: Option<nat>)
    requires selected.Some? ==> selected.value < |s.items|
    requires !s.box.grey
    ensures DeleteSelected(s, selected) == DeleteSelectedAsWritten(s, selected)
  {
  }

  /** After a deletion from the full listing the grid again shows the whole (shorter) list. */
  lemma DeleteFromSeedShowsRest(items: seq<BlotterReport>, k: nat)
    requires k < |items|
    ensures var r := DeleteSelected(Initial(items), Some(k));
      r.view == r.items && |r.view| == |items| - 1
  {
  }
}
