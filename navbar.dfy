/**
 * The navigation bar: which of its three links (home, tags, write) is highlighted for
 * the current path.
 */
module Navbar {
  import Tags
  import CreatePost

  /** `s` begins with `prefix`, as `String.prototype.startsWith`. */
  predicate StartsWith(s: string, prefix: string) {
    |prefix| <= |s| && s[..|prefix|] == prefix
  }

  /** A link's own path is the current path, exactly. */
  predicate IsActive(pathname: string, path: string) {
    pathname == path
  }

  /** The home link is highlighted on the root path. */
  predicate HomeActive(pathname: string) {
    IsActive(pathname, "/")
  }

  /** The tags link is highlighted on the tag index and on every page below `/tags/`. */
  predicate TagsActive(pathname: string) {
    IsActive(pathname, "/tags") || StartsWith(pathname, "/tags/")
  }

  /** The write link is highlighted on the composition page. */
  predicate CreateActive(pathname: string) {
    IsActive(pathname, "/create")
  }

  /**
   * The routes of the app and the link each highlights: the root only the home link,
   * the composition page only the write link, and a post page no link at all.
   */
  lemma ExactLinks(id: string)
    ensures HomeActive("/") && !TagsActive("/") && !CreateActive("/")
    ensures CreateActive("/create") && !HomeActive("/create") && !TagsActive("/create")
    ensures !HomeActive(CreatePost.PostPath(id)) && !TagsActive(CreatePost.PostPath(id))
    ensures !CreateActive(CreatePost.PostPath(id))
  {
    var p := CreatePost.PostPath(id);
    assert p[1] == 'b';
    assert |"/create"| == 7 && "/create"[1] == 'c';
  }

  /** The tags link is highlighted exactly on `/tags` and on `/tags/` followed by anything. */
  lemma TagsActiveExactly(pathname: string)
    ensures TagsActive(pathname) <==> pathname == "/tags" || exists rest :: pathname == "/tags/" + rest
  {
    if StartsWith(pathname, "/tags/") {
      assert pathname == "/tags/" + pathname[6..];
    }
  }

  /** Every tag's page highlights the tags link. */
  lemma TagPagesHighlightTags(slug: string)
    ensures TagsActive(Tags.TagHref(slug))
  {
  }

  /** A path that continues `/tags` with anything but a slash (such as `/tagsx`) does not highlight the tags link. */
  lemma TagsPrefixNeedsSlash(c: char, rest: string)
    requires c != '/'
    ensures !TagsActive("/tags" + [c] + rest)
  {
    var p := "/tags" + [c] + rest;
    assert p[5] == c;
  }

  /** At most one of the three links is highlighted, whatever the path. */
  lemma AtMostOneActive(pathname: string)
    ensures !(HomeActive(pathname) && TagsActive(pathname))
    ensures !(HomeActive(pathname) && CreateActive(pathname))
    ensures !(TagsActive(pathname) && CreateActive(pathname))
  {
    if CreateActive(pathname) {
      assert pathname[1] == 'c';
    }
    if HomeActive(pathname) {
      assert |pathname| == 1;
    }
  }
}
