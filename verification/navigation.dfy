/** Navigation: the mobile menu toggle and its links (`initNavigation`), the
    navbar's "scrolled" state, and the navigation link highlighted for the
    section under the scroll position (`highlightCurrentSection`). */
module Navigation {

  // ---------------------------------------------------------------------
  // Mobile menu
  // ---------------------------------------------------------------------

  /** The menu's `active` class, the two classes of the toggle icon, and
      whether the page body's scrolling is locked (`overflow: hidden`). */
  datatype Menu = Menu(open: bool, barsIcon: bool, timesIcon: bool, scrollLocked: bool)

  /** The page as loaded: menu closed, "bars" icon, body scrolls. */
  const Closed: Menu := Menu(false, true, false, false)

  /** The icon shows "times" exactly while the menu is open, and the body is
      locked exactly while the menu is open. */
  predicate Consistent(m: Menu) {
    m.barsIcon == !m.open && m.timesIcon == m.open && m.scrollLocked == m.open
  }

  /** A click on the toggle: each of the three classes flips, and the body is
      locked exactly when the menu is now open. */
  function Toggle(m: Menu): (r: Menu)
    ensures r.open != m.open && r.barsIcon != m.barsIcon && r.timesIcon != m.timesIcon
    ensures r.scrollLocked <==> r.open
    ensures Consistent(m) ==> Consistent(r)
  {
    Menu(!m.open, !m.barsIcon, !m.timesIcon, !m.open)
  }

  /** A click on a menu link: closed, "bars" icon, body unlocked, whatever
      the state before. */
  function LinkClicked(m: Menu): (r: Menu)
    ensures Consistent(r) && !r.open
  {
    Menu(false, true, false, false)
  }

  datatype MenuEvent = ToggleClick | LinkClick

  function Step(m: Menu, e: MenuEvent): Menu {
    match e
    case ToggleClick => Toggle(m)
    case LinkClick => LinkClicked(m)
  }

  function Replay(m: Menu, events: seq<MenuEvent>): Menu
    decreases |events|
  {
    if events == [] then m else Replay(Step(m, events[0]), events[1..])
  }

  /** From a consistent state, such as `Closed`, every sequence of toggle
      and link clicks keeps the icon and the body lock in step with the menu. */
  lemma {:induction false} MenuStaysConsistent(m: Menu, events: seq<MenuEvent>)
    requires Consistent(m)
    ensures Consistent(Replay(m, events))
    decreases |events|
  {
    if events != [] {
      MenuStaysConsistent(Step(m, events[0]), events[1..]);
    }
  }

  /** Two toggle clicks restore the menu. */
  lemma ToggleTwice(m: Menu)
    requires Consistent(m)
    ensures Toggle(Toggle(m)) == m
  {
  }

  // ---------------------------------------------------------------------
  // Navbar
  // ---------------------------------------------------------------------

  const ScrolledThreshold: int := 50

  /** The navbar carries the `scrolled` class past 50 pixels of scrolling. */
  predicate NavbarScrolled(scrollY: int) {
    scrollY > ScrolledThreshold
  }

  /** The navbar's `scrolled` class after one scroll event: added past the
      threshold and removed otherwise, whatever it was before. */
  function ScrollEvent(scrolled: bool, scrollY: int): bool {
    NavbarScrolled(scrollY)
  }

  /** The navbar's `scrolled` class after the scroll events at `positions`,
      first event first. */
  function ScrollReplay(scrolled: bool, positions: seq<int>): bool
    decreases |positions|
  {
    if positions == [] then scrolled else ScrollReplay(ScrollEvent(scrolled, positions[0]), positions[1..])
  }

  /** The navbar keeps no memory of earlier scrolling: after any non-empty
      run of scroll events it carries the `scrolled` class exactly when the
      last position is past the threshold, and with no event the class is
      as the page left it. */
  lemma {:induction false} NavbarFollowsLastPosition(scrolled: bool, positions: seq<int>)
    ensures positions == [] ==> ScrollReplay(scrolled, positions) == scrolled
    ensures positions != [] ==>
      (ScrollReplay(scrolled, positions) <==> positions[|positions| - 1] > ScrolledThreshold)
    decreases |positions|
  {
    if |positions| > 1 {
      NavbarFollowsLastPosition(ScrollEvent(scrolled, positions[0]), positions[1..]);
    }
  }

  // ---------------------------------------------------------------------
  // Section highlighting
  // ---------------------------------------------------------------------

  /** A `section[id]` element: its id, `offsetTop` and `clientHeight`. */
  datatype Section = Section(id: string, top: int, height: int)

  /** How far below the scroll position a section may start and still count. */
  const Lookahead: int := 100

  /** The position `scrollY + 100` lies within the section. */
  predicate Covers(s: Section, scrollY: int) {
    s.top <= scrollY + Lookahead < s.top + s.height
  }

  /** The index of the last section in page order that covers the position,
      or -1 when none does. */
  function LastCovering(sections: seq<Section>, scrollY: int): (k: int)
    ensures -1 <= k < |sections|
    ensures k >= 0 ==> Covers(sections[k], scrollY)
    ensures forall j | k < j < |sections| :: !Covers(sections[j], scrollY)
    decreases |sections|
  {
    if sections == [] then -1
    else if Covers(sections[|sections| - 1], scrollY) then |sections| - 1
    else LastCovering(sections[..|sections| - 1], scrollY)
  }

  /** The link flags after one covering section has been processed: exactly
      the links whose `href` is `#` followed by the section's id. */
  function MarkFor(hrefs: seq<string>, id: string): (r: seq<bool>)
    ensures |r| == |hrefs|
    ensures forall j | 0 <= j < |r| :: r[j] <==> hrefs[j] == "#" + id
  {
    seq(|hrefs|, j requires 0 <= j < |hrefs| => hrefs[j] == "#" + id)
  }

  /** One scroll tick of `highlightCurrentSection`: the sections are visited
      in page order and every covering one resets the links' `active` flags,
      so the last covering section decides; with none covering, the flags
      stay as they were. */
  function Highlight(sections: seq<Section>, scrollY: int, hrefs: seq<string>, active: seq<bool>): (r: seq<bool>)
    requires |active| == |hrefs|
    ensures |r| == |hrefs|
    ensures (forall k | 0 <= k < |sections| :: !Covers(sections[k], scrollY)) ==> r == active
    ensures forall k | 0 <= k < |sections| && Covers(sections[k], scrollY) ::
      (forall j | k < j < |sections| :: !Covers(sections[j], scrollY)) ==>
        forall j | 0 <= j < |r| :: r[j] <==> hrefs[j] == "#" + sections[k].id
    decreases |sections|
  {
    if sections == [] then active
    else
      var next := if Covers(sections[0], scrollY) then MarkFor(hrefs, sections[0].id) else active;
      var rest := sections[1..];
      var r := Highlight(rest, scrollY, hrefs, next);
      assert forall k | 1 <= k < |sections| :: sections[k] == rest[k - 1];
      assert (forall k | 1 <= k < |sections| :: !Covers(sections[k], scrollY)) ==> r == next by {
        if forall k | 1 <= k < |sections| :: !Covers(sections[k], scrollY) {
          assert forall k | 0 <= k < |rest| :: !Covers(rest[k], scrollY);
        }
      }
      r
  }

  /** The handler is registered three times on the same scroll event; running
      it again at the same position changes nothing. */
  lemma HighlightIdempotent(sections: seq<Section>, scrollY: int, hrefs: seq<string>, active: seq<bool>)
    requires |active| == |hrefs|
    ensures var once := Highlight(sections, scrollY, hrefs, active);
      Highlight(sections, scrollY, hrefs, once) == once
  {
  }

  /** With distinct link targets and a link for the section that decides,
      exactly one link is active after the tick. */
  lemma HighlightExactlyOne(sections: seq<Section>, scrollY: int, hrefs: seq<string>, active: seq<bool>, link: nat)
    requires |active| == |hrefs|
    requires forall a, b | 0 <= a < b < |hrefs| :: hrefs[a] != hrefs[b]
    requires LastCovering(sections, scrollY) >= 0
    requires link < |hrefs| && hrefs[link] == "#" + sections[LastCovering(sections, scrollY)].id
    ensures var r := Highlight(sections, scrollY, hrefs, active);
      r[link] && forall j | 0 <= j < |r| && j != link :: !r[j]
  {
  }
}
