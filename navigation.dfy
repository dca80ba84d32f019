/**
 * components/navigation.tsx: which entry of the top navigation bar is highlighted for
 * the current path, and the letter shown in the avatar when the user has no picture.
 */
module Navigation {
  import opened Wrappers
  import opened Text

  datatype NavItem = NavItem(name: string, href: string)

  /** The navigation bar, in display order. */
  const Items: seq<NavItem> := [
    NavItem("Dashboard", "/dashboard"),
    NavItem("Essays", "/essays"),
    NavItem("Upload", "/upload"),
    NavItem("Compare", "/compare"),
    NavItem("Lessons", "/lessons"),
    NavItem("Profile", "/profile")
  ]

  /**
   * `pathname === item.href || pathname?.startsWith(item.href + '/')`: the item is active on
   * its own page and on every page below it; a missing pathname activates nothing.
   */
  function IsActive(pathname: Option<string>, href: string): (active: bool)
    ensures pathname.None? ==> !active
    ensures active <==> pathname.Some? && (pathname.value == href || StartsWith(pathname.value, href + "/"))
  {
    pathname == Some(href) || (pathname.Some? && StartsWith(pathname.value, href + "/"))
  }

  /** A path that merely shares a prefix with the entry does not activate it; a path below it does. */
  lemma EssaysExamples()
    ensures !IsActive(Some("/essaysX"), "/essays")
    ensures IsActive(Some("/essays/123"), "/essays")
    ensures IsActive(Some("/essays"), "/essays")
  {
    assert "/essays/123"[..8] == "/essays/";
    assert "/essaysX"[7] != ("/essays" + "/")[7];
  }

  /** An href of one path segment: a '/' and then a non-empty name without '/'. */
  predicate SingleSegment(href: string) {
    |href| >= 2 && href[0] == '/' && forall i :: 1 <= i < |href| ==> href[i] != '/'
  }

  /** An active entry is a prefix of the path, followed there by '/' unless the path ends. */
  lemma ActivePrefix(p: string, h: string)
    ensures IsActive(Some(p), h) ==> |h| <= |p| && p[..|h|] == h && (|h| < |p| ==> p[|h|] == '/')
  {
    if IsActive(Some(p), h) && p != h {
      assert p[..|h| + 1] == h + "/";
      assert p[..|h|] == (h + "/")[..|h|];
    }
  }

  lemma PrefixIndex(p: string, h: string, k: nat)
    ensures |h| <= |p| && p[..|h|] == h && k < |h| ==> h[k] == p[k]
  {
  }

  /** Two different single-segment entries are never active together. */
  lemma AtMostOneActive(p: string, h1: string, h2: string)
    requires SingleSegment(h1) && SingleSegment(h2) && h1 != h2
    ensures !(IsActive(Some(p), h1) && IsActive(Some(p), h2))
  {
    ActivePrefix(p, h1);
    ActivePrefix(p, h2);
    PrefixIndex(p, h1, |h2|);
    PrefixIndex(p, h2, |h1|);
  }

  /** For every path, at most one entry of the navigation bar is highlighted. */
  lemma AtMostOneItemActive(pathname: Option<string>, i: nat, j: nat)
    requires i < j < |Items|
    ensures !(IsActive(pathname, Items[i].href) && IsActive(pathname, Items[j].href))
  {
    assert forall k :: 0 <= k < |Items| ==> SingleSegment(Items[k].href);
    if pathname.Some? {
      AtMostOneActive(pathname.value, Items[i].href, Items[j].href);
    }
  }

  /**
   * `session.user.name?.charAt(0).toUpperCase() || 'U'`: the upper-cased first character of
   * the name, or "U" when the name is missing or empty.
   */
  function AvatarInitial(name: Option<string>): (r: string)
    ensures |r| == 1 && !IsLowerAscii(r[0])
    ensures name.None? || name.value == [] ==> r == "U"
    ensures name.Some? && name.value != [] ==> r[0] == UpperChar(name.value[0])
  {
    if name.Some? && name.value != [] then [UpperChar(name.value[0])] else "U"
  }

  /** The avatar letter does not depend on how the name is capitalised. */
  lemma AvatarIgnoresCase(name: string)
    ensures AvatarInitial(Some(ToLower(name))) == AvatarInitial(Some(name))
  {
  }
}
