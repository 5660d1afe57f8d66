/**
 * The bottom navigation bar's scroll-spy: it remembers which page section
 * is active and, on every scroll (and once when mounted), makes active the
 * first section, in navigation order, whose vertical span contains the
 * centre of the viewport. The document is replaced by a layout map from
 * section id to the element's measured geometry; a section that is not in
 * the map has no element.
 */
module Navigation {
  import opened Wrappers

  /** The navigation entries' ids, in declaration order. */
  const NavIds: seq<string> := ["home", "about", "skills", "projects", "contact"]

  /** The section that is active before the first scroll check. */
  const InitialSection: string := "home"

  /** An element's `offsetTop` and `offsetHeight`, both whole CSS pixels. */
  datatype Geometry = Geometry(offsetTop: int, offsetHeight: int)

  type Layout = map<string, Geometry>

  /**
   * The probe point: the scroll offset plus half the viewport height, that
   * is, the point as far from the viewport's top edge as from its bottom edge.
   */
  function ProbePoint(scrollY: real, innerHeight: real): (probe: real)
    ensures probe - scrollY == (scrollY + innerHeight) - probe
  {
    scrollY + innerHeight / 2.0
  }

  /** The half-open span test `offsetTop <= probe < offsetTop + offsetHeight`. */
  predicate Contains(g: Geometry, probe: real) {
    g.offsetTop as real <= probe < (g.offsetTop + g.offsetHeight) as real
  }

  /** The section with this id has an element and that element's span contains the probe. */
  predicate Matches(layout: Layout, id: string, probe: real) {
    id in layout && Contains(layout[id], probe)
  }

  /** The position in `ids` of the first matching section, if any. */
  function FirstMatch(ids: seq<string>, layout: Layout, probe: real): Option<nat>
  {
    if ids == [] then None
    else if Matches(layout, ids[0], probe) then Some(0)
    else match FirstMatch(ids[1..], layout, probe)
      case None => None
      case Some(k) => Some(k + 1)
  }

  /** The active section after one scroll check: the first match, or the previous value when none matches. */
  function NextSection(current: string, layout: Layout, probe: real): string
  {
    match FirstMatch(NavIds, layout, probe)
    case Some(k) => if k < |NavIds| then NavIds[k] else current
    case None => current
  }

  /** `isActive` for every entry of `ids`, in order. */
  function ActiveFlags(ids: seq<string>, activeSection: string): (flags: seq<bool>)
    ensures |flags| == |ids|
    ensures forall k :: 0 <= k < |ids| ==> (flags[k] <==> ids[k] == activeSection)
  {
    if ids == [] then [] else [ids[0] == activeSection] + ActiveFlags(ids[1..], activeSection)
  }

  function CountTrue(flags: seq<bool>): nat
  {
    if flags == [] then 0 else (if flags[0] then 1 else 0) + CountTrue(flags[1..])
  }

  predicate Distinct(ids: seq<string>) {
    forall j, k :: 0 <= j < k < |ids| ==> ids[j] != ids[k]
  }

  /**
   * FirstMatch finds exactly the first matching position: Some(k) iff the
   * k-th section matches and none before it does, and None iff none matches.
   */
  lemma {:induction false} FirstMatchIsFirst(ids: seq<string>, layout: Layout, probe: real)
    ensures FirstMatch(ids, layout, probe).Some? ==>
      var k := FirstMatch(ids, layout, probe).value;
      && k < |ids|
      && Matches(layout, ids[k], probe)
      && forall j :: 0 <= j < k ==> !Matches(layout, ids[j], probe)
    ensures FirstMatch(ids, layout, probe).None? <==>
      forall j :: 0 <= j < |ids| ==> !Matches(layout, ids[j], probe)
  {
    if ids != [] && !Matches(layout, ids[0], probe) {
      FirstMatchIsFirst(ids[1..], layout, probe);
      assert forall j :: 1 <= j < |ids| ==> ids[j] == ids[1..][j - 1];
    }
  }

  /** The converse direction: a match with no earlier match is what FirstMatch returns. */
  lemma FirstMatchAt(ids: seq<string>, layout: Layout, probe: real, k: nat)
    requires k < |ids| && Matches(layout, ids[k], probe)
    requires forall j :: 0 <= j < k ==> !Matches(layout, ids[j], probe)
    ensures FirstMatch(ids, layout, probe) == Some(k)
  {
    FirstMatchIsFirst(ids, layout, probe);
    var r := FirstMatch(ids, layout, probe);
    assert r.Some? by {
      assert !(forall j :: 0 <= j < |ids| ==> !Matches(layout, ids[j], probe));
    }
  }

  /** A probe exactly at a section's end lies outside it. */
  lemma EndIsExclusive(g: Geometry)
    ensures !Contains(g, (g.offsetTop + g.offsetHeight) as real)
    ensures g.offsetHeight > 0 ==> Contains(g, g.offsetTop as real)
  {
  }

  /** The active section is always one of the navigation ids. */
  lemma NextSectionIsNavId(current: string, layout: Layout, probe: real)
    requires current in NavIds
    ensures NextSection(current, layout, probe) in NavIds
  {
  }

  /** When no section contains the probe, the active section stays as it was. */
  lemma NoMatchKeepsSection(current: string, layout: Layout, probe: real)
    requires forall j :: 0 <= j < |NavIds| ==> !Matches(layout, NavIds[j], probe)
    ensures NextSection(current, layout, probe) == current
  {
    FirstMatchIsFirst(NavIds, layout, probe);
  }

  /**
   * First match wins: the chosen section is the earliest one, in navigation
   * order, that contains the probe, so a later overlapping or zero-height
   * section is never chosen over it.
   */
  lemma EarliestMatchWins(current: string, layout: Layout, probe: real, k: nat)
    requires k < |NavIds| && Matches(layout, NavIds[k], probe)
    requires forall j :: 0 <= j < k ==> !Matches(layout, NavIds[j], probe)
    ensures NextSection(current, layout, probe) == NavIds[k]
  {
    FirstMatchAt(NavIds, layout, probe, k);
  }

  /** A section id without an element is never chosen. */
  lemma MissingSectionNeverChosen(current: string, layout: Layout, probe: real, id: string)
    requires id !in layout && id != current
    ensures NextSection(current, layout, probe) != id
  {
    FirstMatchIsFirst(NavIds, layout, probe);
  }

  /**
   * The page's own layout: every section has an element of non-negative
   * height, and the sections follow each other down the page in navigation
   * order without overlapping.
   */
  ghost predicate InPageOrder(layout: Layout) {
    && (forall k :: 0 <= k < |NavIds| ==> NavIds[k] in layout && layout[NavIds[k]].offsetHeight >= 0)
    && (forall j, k :: 0 <= j < k < |NavIds| ==>
          layout[NavIds[j]].offsetTop + layout[NavIds[j]].offsetHeight <= layout[NavIds[k]].offsetTop)
  }

  /** On a page in order, the chosen section is the one whose span contains the probe. */
  lemma ContainingSectionChosen(current: string, layout: Layout, probe: real, k: nat)
    requires InPageOrder(layout)
    requires k < |NavIds| && Contains(layout[NavIds[k]], probe)
    ensures NextSection(current, layout, probe) == NavIds[k]
  {
    forall j | 0 <= j < k
      ensures !Matches(layout, NavIds[j], probe)
    {
      assert layout[NavIds[j]].offsetTop + layout[NavIds[j]].offsetHeight <= layout[NavIds[k]].offsetTop;
    }
    EarliestMatchWins(current, layout, probe, k);
  }

  /**
   * Scrolling down never moves the highlight back up the list: on a page in
   * order, a lower probe inside section j and a higher one inside section k
   * activate sections j and k, and j <= k.
   */
  lemma ScrollingDownMovesForward(layout: Layout, current1: string, probe1: real, current2: string, probe2: real, j: nat, k: nat)
    requires InPageOrder(layout)
    requires probe1 <= probe2
    requires j < |NavIds| && Contains(layout[NavIds[j]], probe1)
    requires k < |NavIds| && Contains(layout[NavIds[k]], probe2)
    ensures NextSection(current1, layout, probe1) == NavIds[j]
    ensures NextSection(current2, layout, probe2) == NavIds[k]
    ensures j <= k
  {
    ContainingSectionChosen(current1, layout, probe1, j);
    ContainingSectionChosen(current2, layout, probe2, k);
  }

  /**
   * After scrolling a section's top to the viewport's top, the next scroll
   * check activates that section, provided half the viewport fits in it.
   */
  lemma ScrollToThenSpy(current: string, layout: Layout, k: nat, innerHeight: real)
    requires InPageOrder(layout)
    requires k < |NavIds|
    requires 0.0 <= innerHeight < 2.0 * layout[NavIds[k]].offsetHeight as real
    ensures NextSection(current, layout, ProbePoint(layout[NavIds[k]].offsetTop as real, innerHeight)) == NavIds[k]
  {
    ContainingSectionChosen(current, layout, ProbePoint(layout[NavIds[k]].offsetTop as real, innerHeight), k);
  }

  /**
   * The half-viewport condition above cannot be dropped: with `home` at
   * [0, 100), `about` at [100, 900) and an 800-pixel viewport, scrolling to
   * the top of `home` probes 400 and activates `about`.
   */
  lemma ShortSectionNotActivated()
    ensures var layout := map["home" := Geometry(0, 100), "about" := Geometry(100, 800)];
      NextSection("home", layout, ProbePoint(0.0, 800.0)) == "about"
  {
    var layout := map["home" := Geometry(0, 100), "about" := Geometry(100, 800)];
    assert ProbePoint(0.0, 800.0) == 400.0;
    assert !Matches(layout, NavIds[0], 400.0) && Matches(layout, NavIds[1], 400.0);
    EarliestMatchWins("home", layout, 400.0, 1);
  }

  /** The navigation ids are pairwise distinct. */
  lemma NavIdsDistinct()
    ensures Distinct(NavIds)
  {
  }

  /** Over distinct ids, the number of active entries is one if the active section is among them and zero otherwise. */
  lemma {:induction false} CountActive(ids: seq<string>, activeSection: string)
    requires Distinct(ids)
    ensures CountTrue(ActiveFlags(ids, activeSection)) == if activeSection in ids then 1 else 0
  {
    if ids != [] {
      var f := ActiveFlags(ids, activeSection);
      assert f[1..] == ActiveFlags(ids[1..], activeSection);
      assert Distinct(ids[1..]) by {
        forall j, k | 0 <= j < k < |ids[1..]|
          ensures ids[1..][j] != ids[1..][k]
        {
          assert ids[1..][j] == ids[j + 1] && ids[1..][k] == ids[k + 1];
        }
      }
      CountActive(ids[1..], activeSection);
      assert activeSection in ids <==> activeSection == ids[0] || activeSection in ids[1..] by {
        assert ids == [ids[0]] + ids[1..];
      }
      if activeSection == ids[0] {
        assert activeSection !in ids[1..] by {
          forall k | 0 <= k < |ids[1..]|
            ensures ids[1..][k] != activeSection
          {
            assert ids[1..][k] == ids[k + 1];
          }
        }
      }
    }
  }

  /** Exactly one navigation button is active when the active section is a navigation id. */
  lemma ExactlyOneActive(activeSection: string)
    requires activeSection in NavIds
    ensures CountTrue(ActiveFlags(NavIds, activeSection)) == 1
  {
    NavIdsDistinct();
    CountActive(NavIds, activeSection);
  }

  class BottomNavbar {
    var activeSection: string

    ghost predicate Valid()
      reads this
    {
      activeSection in NavIds
    }

    /** The state before the mount effect: `home`. */
    constructor ()
      ensures Valid()
      ensures activeSection == InitialSection
    {
      activeSection := InitialSection;
    }

    /** `isActive` for the entry with this id. */
    function IsActive(id: string): bool
      reads this
    {
      activeSection == id
    }

    /** In every reachable state, exactly one navigation button is active. */
    lemma OneButtonActive()
      requires Valid()
      ensures exists k :: 0 <= k < |NavIds| && IsActive(NavIds[k])
      ensures forall j, k :: 0 <= j < |NavIds| && 0 <= k < |NavIds| && IsActive(NavIds[j]) && IsActive(NavIds[k]) ==> j == k
      ensures CountTrue(ActiveFlags(NavIds, activeSection)) == 1
    {
      NavIdsDistinct();
      ExactlyOneActive(activeSection);
    }

    /**
     * The matching loop of the scroll handler: test the sections in
     * navigation order, skip those without an element, and make the first
     * whose span contains the probe active.
     */
    method OnScroll(probe: real, layout: Layout)
      requires Valid()
      modifies this
      ensures Valid()
      ensures activeSection == NextSection(old(activeSection), layout, probe)
    {
      var i := 0;
      while i < |NavIds|
        invariant 0 <= i <= |NavIds|
        invariant activeSection == old(activeSection)
        invariant forall j :: 0 <= j < i ==> !Matches(layout, NavIds[j], probe)
      {
        var sectionId := NavIds[i];
        if sectionId in layout {
          var element := layout[sectionId];
          if probe >= element.offsetTop as real && probe < (element.offsetTop + element.offsetHeight) as real {
            FirstMatchAt(NavIds, layout, probe, i);
            activeSection := sectionId;
            break;
          }
        }
        i := i + 1;
      }
      if i == |NavIds| {
        NoMatchKeepsSection(old(activeSection), layout, probe);
      }
    }

    /** `handleScroll`: the probe is the viewport's centre, then the matching loop runs. */
    method HandleScroll(scrollY: real, innerHeight: real, layout: Layout)
      requires Valid()
      modifies this
      ensures Valid()
      ensures activeSection == NextSection(old(activeSection), layout, ProbePoint(scrollY, innerHeight))
    {
      var scrollPosition := scrollY + innerHeight / 2.0;
      OnScroll(scrollPosition, layout);
    }

    /**
     * `scrollToSection`: where the smooth scroll is headed (the element's
     * top), or nothing when the element is missing. It never changes the
     * active section; the next scroll check does.
     */
    method ScrollToSection(sectionId: string, layout: Layout) returns (target: Option<int>)
      ensures target.Some? <==> sectionId in layout
      ensures target.Some? ==> target.value == layout[sectionId].offsetTop
    {
      if sectionId in layout {
        target := Some(layout[sectionId].offsetTop);
      } else {
        target := None;
      }
    }
  }

  /** The mount sequence: the initial state is `home`, then one scroll check runs at the current position. */
  method Mount(scrollY: real, innerHeight: real, layout: Layout) returns (navbar: BottomNavbar)
    ensures navbar.Valid()
    ensures navbar.activeSection == NextSection(InitialSection, layout, ProbePoint(scrollY, innerHeight))
  {
    navbar := new BottomNavbar();
    navbar.HandleScroll(scrollY, innerHeight, layout);
  }
}
