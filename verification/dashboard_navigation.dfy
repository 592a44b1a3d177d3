/**
 * The side bar of `DashboardForm`: each navigation panel is registered with
 * the page it opens, exactly one panel at a time carries the active flag
 * (its `Tag`), and a click on a panel shows its page and moves the flag.
 *
 * Panels are numbers. The registration map is kept in insertion order, which
 * is the order `Dictionary` enumerates it in when nothing is removed.
 * `GetNavPanelFromSender`'s climb from a clicked child to its panel is
 * replaced by the panel itself, or `None` when the click is outside every
 * registered panel.
 */
module DashboardNavigation {
  import opened Wrappers

  /** `DashboardPage`. */
  datatype DashboardPage = Dashboard | Services | Requirements | Feedback | About

  /** The page controls `BuildPages` creates, one per page. */
  datatype PageView = DashboardView | ServicesView | RequirementsView | FeedbackView | AboutView

  /** One entry of `_navMap`. */
  datatype NavEntry = NavEntry(panel: nat, page: DashboardPage)

  /**
   * The navigation state: `_navMap`, `_activeNavPanel`, the panels whose
   * active flag is set, `_activePage`, and the page control on screen (none
   * before the first `ShowPage`).
   */
  datatype Nav = Nav(entries: seq<NavEntry>, active: Option<nat>, flagged: set<nat>, page: DashboardPage, shown: Option<PageView>)

  /** `_navMap.ContainsKey(nav)`. */
  predicate Registered(entries: seq<NavEntry>, nav: nat) {
    exists i :: 0 <= i < |entries| && entries[i].panel == nav
  }

  /** `_navMap[nav]`, `None` for a panel not in the map. */
  function Lookup(entries: seq<NavEntry>, nav: nat): (r: Option<DashboardPage>)
    ensures r.Some? <==> Registered(entries, nav)
    ensures r.Some? ==> exists i :: 0 <= i < |entries| && entries[i] == NavEntry(nav, r.value)
  {
    if entries == [] then None
    else if entries[0].panel == nav then Some(entries[0].page)
    else
      var r := Lookup(entries[1..], nav);
      assert forall i :: 1 <= i < |entries| ==> entries[i] == entries[1..][i - 1];
      assert Registered(entries[1..], nav) ==> Registered(entries, nav) by {
        if Registered(entries[1..], nav) {
          var i :| 0 <= i < |entries[1..]| && entries[1..][i].panel == nav;
          assert entries[i + 1].panel == nav;
        }
      }
      r
  }

  /** `_navMap.FirstOrDefault(kv => kv.Value == page).Key`: the first panel registered for the page. */
  function FirstPanelFor(entries: seq<NavEntry>, page: DashboardPage): (r: Option<nat>)
    ensures r.Some? <==> exists i :: 0 <= i < |entries| && entries[i].page == page
    ensures r.Some? ==> exists i :: 0 <= i < |entries| && entries[i] == NavEntry(r.value, page)
  {
    if entries == [] then None
    else if entries[0].page == page then Some(entries[0].panel)
    else
      var r := FirstPanelFor(entries[1..], page);
      assert forall i :: 1 <= i < |entries| ==> entries[i] == entries[1..][i - 1];
      r
  }

  /** No panel is registered twice: `_navMap`'s keys. */
  ghost predicate DistinctPanels(entries: seq<NavEntry>) {
    forall i, j :: 0 <= i < j < |entries| ==> entries[i].panel != entries[j].panel
  }

  /** In a map with distinct keys, a panel's entry is the one `Lookup` returns. */
  lemma LookupOfEntry(entries: seq<NavEntry>, i: nat)
    requires DistinctPanels(entries) && i < |entries|
    ensures Lookup(entries, entries[i].panel) == Some(entries[i].page)
  {
    var nav := entries[i].panel;
    var j :| 0 <= j < |entries| && entries[j] == NavEntry(nav, Lookup(entries, nav).value);
    assert i == j;
  }

  /** The panel `FirstPanelFor` finds opens that page. */
  lemma FirstPanelOpensPage(entries: seq<NavEntry>, page: DashboardPage)
    requires DistinctPanels(entries) && FirstPanelFor(entries, page).Some?
    ensures Lookup(entries, FirstPanelFor(entries, page).value) == Some(page)
  {
    var i :| 0 <= i < |entries| && entries[i] == NavEntry(FirstPanelFor(entries, page).value, page);
    LookupOfEntry(entries, i);
  }

  /**
   * The navigation invariant: keys are distinct, the active panel is
   * registered, and the active flag is set on the active panel and nowhere
   * else.
   */
  ghost predicate Valid(s: Nav) {
    && DistinctPanels(s.entries)
    && (s.active.Some? ==> Registered(s.entries, s.active.value))
    && s.flagged == (if s.active.Some? then {s.active.value} else {})
  }

  /** `SetNavActive(nav, on)`: a null panel is ignored. */
  function SetNavActive(flagged: set<nat>, nav: Option<nat>, on: bool): (r: set<nat>)
    ensures nav.None? ==> r == flagged
    ensures nav.Some? && on ==> r == flagged + {nav.value}
    ensures nav.Some? && !on ==> r == flagged - {nav.value}
  {
    match nav
    case None => flagged
    case Some(p) => if on then flagged + {p} else flagged - {p}
  }

  /** The state before `SetupNavigation`: nothing registered, active or shown. */
  const Empty := Nav([], None, {}, Dashboard, None)

  /**
   * `RegisterNavPanel(nav, page)`: a null or already registered panel
   * changes nothing; otherwise the panel is added with its flag cleared, and
   * the first `Dashboard` panel registered while none is active becomes active.
   */
  function RegisterNavPanel(s: Nav, nav: Option<nat>, page: DashboardPage): (r: Nav)
    ensures nav.None? || Registered(s.entries, nav.value) ==> r == s
    ensures |r.entries| >= |s.entries| && r.entries[..|s.entries|] == s.entries
    ensures nav.Some? && !Registered(s.entries, nav.value) ==>
      && r.entries == s.entries + [NavEntry(nav.value, page)]
      && r.page == s.page && r.shown == s.shown
      && (s.active.None? && page == Dashboard ==> r.active == nav)
      && (s.active.Some? || page != Dashboard ==> r.active == s.active)
    ensures Valid(s) ==> Valid(r)
  {
    match nav
    case None => s
    case Some(p) =>
      if Registered(s.entries, p) then s
      else
        var entries := s.entries + [NavEntry(p, page)];
        assert entries[|s.entries|].panel == p;
        assert forall i :: 0 <= i < |s.entries| ==> entries[i] == s.entries[i];
        var flagged := SetNavActive(s.flagged, nav, false);
        if s.active.None? && page == Dashboard then
          s.(entries := entries, active := nav, flagged := SetNavActive(flagged, nav, true))
        else
          s.(entries := entries, flagged := flagged)
  }

  /** `PageFromEnum`: the page control of each page. */
  function PageFromEnum(page: DashboardPage): (v: PageView)
    ensures page == Dashboard <==> v == DashboardView
  {
    match page
    case Dashboard => DashboardView
    case Services => ServicesView
    case Requirements => RequirementsView
    case Feedback => FeedbackView
    case About => AboutView
  }

  /** Different pages show different controls. */
  lemma PageFromEnumInjective(a: DashboardPage, b: DashboardPage)
    ensures PageFromEnum(a) == PageFromEnum(b) ==> a == b
  {
  }

  /** `SyncActiveNavToPage`: the first panel registered for the page takes the flag, if it lacks it. */
  function SyncActiveNavToPage(s: Nav, page: DashboardPage): (r: Nav)
    ensures r.entries == s.entries && r.page == s.page && r.shown == s.shown
    ensures FirstPanelFor(s.entries, page).None? ==> r == s
    ensures FirstPanelFor(s.entries, page).Some? ==> r.active == FirstPanelFor(s.entries, page)
    ensures Valid(s) ==> Valid(r)
  {
    var target := FirstPanelFor(s.entries, page);
    if target.Some? && target != s.active then
      s.(flagged := SetNavActive(SetNavActive(s.flagged, s.active, false), target, true), active := target)
    else s
  }

  /** `ShowPage(page, immediate: true)`: the page becomes the active one and the only one visible. */
  function ShowPage(s: Nav, page: DashboardPage): (r: Nav)
    ensures r.page == page && r.shown == Some(PageFromEnum(page))
    ensures r.entries == s.entries
    ensures FirstPanelFor(s.entries, page).Some? ==> r.active == FirstPanelFor(s.entries, page)
    ensures Valid(s) ==> Valid(r)
  {
    SyncActiveNavToPage(s.(page := page), page).(shown := Some(PageFromEnum(page)))
  }

  /**
   * `Nav_Click`: a click outside every registered panel changes nothing;
   * otherwise the previous panel loses the flag, the clicked one takes it,
   * and its page is shown.
   */
  function NavClick(s: Nav, nav: Option<nat>): (r: Nav)
    ensures nav.None? || !Registered(s.entries, nav.value) ==> r == s
    ensures nav.Some? && Registered(s.entries, nav.value) ==>
      && r.entries == s.entries
      && r.page == Lookup(s.entries, nav.value).value
      && r.shown == Some(PageFromEnum(r.page))
    ensures Valid(s) ==> Valid(r)
  {
    match nav
    case None => s
    case Some(p) =>
      match Lookup(s.entries, p)
      case None => s
      case Some(target) =>
        var flagged := if s.active.Some? && s.active != nav then SetNavActive(s.flagged, s.active, false) else s.flagged;
        var clicked := s.(flagged := SetNavActive(flagged, nav, true), active := nav, page := target);
        ShowPage(clicked, target)
  }

  /** After a click on a registered panel, exactly one panel is flagged and it opens the page on screen. */
  lemma ClickLeavesOneActive(s: Nav, nav: nat)
    requires Valid(s) && Registered(s.entries, nav)
    ensures var r := NavClick(s, Some(nav));
      && r.active.Some? && r.flagged == {r.active.value}
      && Lookup(r.entries, r.active.value) == Some(r.page)
  {
    var r := NavClick(s, Some(nav));
    var target := Lookup(s.entries, nav).value;
    FirstPanelOpensPage(s.entries, target);
  }

  /** A panel registered first for its page is the one a click on it leaves active. */
  lemma ClickOnFirstPanelKeepsIt(s: Nav, nav: nat)
    requires Valid(s) && Registered(s.entries, nav)
    requires FirstPanelFor(s.entries, Lookup(s.entries, nav).value) == Some(nav)
    ensures NavClick(s, Some(nav)).active == Some(nav)
  {
  }

  /**
   * The constructor's `SetupNavigation`, `HookServicesNavFallback` and
   * `ShowPage(Dashboard)`: the five named panels (null when the designer
   * lacks one), then the fallback `Services` panel, if one was found.
   */
  function Setup(dashboard: Option<nat>, services: Option<nat>, requirements: Option<nat>, feedback: Option<nat>, about: Option<nat>, fallback: Option<nat>): (r: Nav)
    ensures Valid(r)
    ensures r.page == Dashboard && r.shown == Some(DashboardView)
  {
    var s1 := RegisterNavPanel(Empty, dashboard, Dashboard);
    var s2 := RegisterNavPanel(s1, services, Services);
    var s3 := RegisterNavPanel(s2, requirements, Requirements);
    var s4 := RegisterNavPanel(s3, feedback, Feedback);
    var s5 := RegisterNavPanel(s4, about, About);
    var s6 := RegisterNavPanel(s5, fallback, Services);
    ShowPage(s6, Dashboard)
  }

  /** With a `navDashboard` panel present, it is active and flagged after construction. */
  lemma SetupActivatesDashboardPanel(dashboard: nat, services: Option<nat>, requirements: Option<nat>, feedback: Option<nat>, about: Option<nat>, fallback: Option<nat>)
    ensures var r := Setup(Some(dashboard), services, requirements, feedback, about, fallback);
      r.active == Some(dashboard) && r.flagged == {dashboard}
  {
    var s0 := RegisterNavPanel(Empty, Some(dashboard), Dashboard);
    assert s0.entries == [NavEntry(dashboard, Dashboard)];
    var s := RegisterNavPanel(s0, services, Services);
    s := RegisterNavPanel(s, requirements, Requirements);
    s := RegisterNavPanel(s, feedback, Feedback);
    s := RegisterNavPanel(s, about, About);
    s := RegisterNavPanel(s, fallback, Services);
    assert s.entries[..1] == s0.entries;
    assert s.entries[0] == NavEntry(dashboard, Dashboard);
    assert FirstPanelFor(s.entries, Dashboard) == Some(dashboard);
  }
}
