/** The site-wide navigation bar: which item is highlighted for the current
    path, and the mobile menu's open flag. */
module Navigation {
  import opened Text

  datatype NavItem = NavItem(name: string, path: string)

  /** `navItems`, in display order. */
  const NavItems: seq<NavItem> := [
    NavItem("Home", "/"),
    NavItem("Past Papers", "/past-papers"),
    NavItem("Video Lessons", "/video-lessons"),
    NavItem("Resources", "/resources"),
    NavItem("Study Tips", "/study-tips"),
    NavItem("Contact", "/contact")
  ]

  /** `isActive(path)`: the home item only on `/` itself, any other item on
      every path that starts with its own. */
  predicate IsActive(pathname: string, path: string) {
    if path == "/" then pathname == "/" else StartsWith(pathname, path)
  }

  /** Two prefixes of one string are prefixes of each other. */
  lemma PrefixesComparable(a: string, b: string, s: string)
    requires a <= s && b <= s && |a| <= |b|
    ensures a <= b
  {
    assert a == s[..|a|] && b == s[..|b|];
    assert b[..|a|] == s[..|a|];
  }

  /** No item's path starts another's: the second characters all differ. */
  lemma PathsIncomparable(i: nat, j: nat)
    requires 1 <= i < |NavItems| && 1 <= j < |NavItems| && i != j
    ensures !(NavItems[i].path <= NavItems[j].path)
  {
    assert NavItems[i].path[1] != NavItems[j].path[1];
  }

  /** Whatever the path, at most one item is highlighted. */
  lemma AtMostOneActive(pathname: string, i: nat, j: nat)
    requires i < |NavItems| && j < |NavItems|
    requires IsActive(pathname, NavItems[i].path) && IsActive(pathname, NavItems[j].path)
    ensures i == j
  {
    if i != j && i != 0 && j != 0 {
      if |NavItems[i].path| <= |NavItems[j].path| {
        PrefixesComparable(NavItems[i].path, NavItems[j].path, pathname);
        PathsIncomparable(i, j);
      } else {
        PrefixesComparable(NavItems[j].path, NavItems[i].path, pathname);
        PathsIncomparable(j, i);
      }
    }
  }

  /** The booking page, linked from the bar's button, highlights no item. */
  lemma BookSessionActivatesNone(i: nat)
    requires i < |NavItems|
    ensures !IsActive("/book-session", NavItems[i].path)
  {
    assert "/book-session"[1] == 'b';
  }

  /** A page under an item's path, such as `/resources/x`, highlights that
      item. */
  lemma SubpathActivates(i: nat, rest: string)
    requires 1 <= i < |NavItems|
    ensures IsActive(NavItems[i].path + rest, NavItems[i].path)
  {
  }

  /** The menu button flips `isOpen`. */
  function Toggle(isOpen: bool): (r: bool)
    ensures r != isOpen
  {
    !isOpen
  }

  /** Two presses of the menu button restore the menu. */
  lemma ToggleTwice(isOpen: bool)
    ensures Toggle(Toggle(isOpen)) == isOpen
  {
  }

  /** Following any link in the open mobile menu, the six items or "Book
      Session", closes it. */
  function FollowMobileLink(isOpen: bool): (r: bool)
    ensures !r
  {
    false
  }
}
