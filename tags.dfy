/**
 * The tag cloud: each tag's post count, the size and colour tier it is drawn in, the
 * page it links to, and the counter above the cloud.
 */
module Tags {
  import opened Wrappers

  /** One row of a tag's joined `post_tags` aggregate; its `count` may be absent (null). */
  datatype TagCount = TagCount(count: Option<nat>)

  /** A tag as the store returns it; `postTags` is absent when the join returned nothing. */
  datatype Tag = Tag(id: string, name: string, slug: string, postTags: Option<seq<TagCount>>)

  /** The three tiers a tag can be drawn in, smallest first. */
  datatype Tier = Small | Medium | Large

  /** A link of the cloud: its target and its class list. */
  datatype CloudLink = CloudLink(href: string, className: string)

  /**
   * The number shown next to a tag: the count of the first aggregate row, and 0 when
   * there is no aggregate, no first row, or no count in it.
   */
  function PostCount(t: Tag): (n: nat)
    ensures t.postTags.None? ==> n == 0
    ensures t.postTags.Some? && t.postTags.value == [] ==> n == 0
    ensures t.postTags.Some? && t.postTags.value != [] && t.postTags.value[0].count.None? ==> n == 0
    ensures t.postTags.Some? && t.postTags.value != [] && t.postTags.value[0].count.Some? ==>
      n == t.postTags.value[0].count.value
  {
    match t.postTags
    case None => 0
    case Some(rows) =>
      if rows == [] then 0
      else match rows[0].count
        case None => 0
        case Some(c) => c
  }

  /** The text size class: `text-lg` above 10 posts, `text-base` above 5, `text-sm` otherwise. */
  function SizeClass(postCount: nat): string {
    if postCount > 10 then "text-lg" else if postCount > 5 then "text-base" else "text-sm"
  }

  /** The colour class, chosen by the same thresholds. */
  function ColorClass(postCount: nat): string {
    if postCount > 10 then "text-primary-600" else if postCount > 5 then "text-primary-500" else "text-primary-400"
  }

  /** The tier a post count falls in, stated by ranges. */
  function TierOf(postCount: nat): (t: Tier)
    ensures t == Large <==> 10 < postCount
    ensures t == Medium <==> 5 < postCount <= 10
    ensures t == Small <==> postCount <= 5
  {
    if postCount <= 5 then Small else if postCount <= 10 then Medium else Large
  }

  /** The order of the tiers. */
  function Rank(t: Tier): nat {
    match t
    case Small => 0
    case Medium => 1
    case Large => 2
  }

  function TierSize(t: Tier): string {
    match t
    case Small => "text-sm"
    case Medium => "text-base"
    case Large => "text-lg"
  }

  function TierColor(t: Tier): string {
    match t
    case Small => "text-primary-400"
    case Medium => "text-primary-500"
    case Large => "text-primary-600"
  }

  /** The size class picks `text-lg` exactly above 10, `text-base` exactly from 6 to 10, `text-sm` exactly up to 5. */
  lemma SizeClassRanges(postCount: nat)
    ensures SizeClass(postCount) == "text-lg" <==> postCount > 10
    ensures SizeClass(postCount) == "text-base" <==> 5 < postCount <= 10
    ensures SizeClass(postCount) == "text-sm" <==> postCount <= 5
  {
    assert "text-lg" != "text-base" && "text-lg" != "text-sm" by {
      assert "text-lg"[5] != "text-base"[5] && "text-lg"[5] != "text-sm"[5];
    }
    assert "text-base" != "text-sm";
  }

  /** Size and colour always come from the same tier: 600 with lg, 500 with base, 400 with sm. */
  lemma SameTier(postCount: nat)
    ensures SizeClass(postCount) == TierSize(TierOf(postCount))
    ensures ColorClass(postCount) == TierColor(TierOf(postCount))
  {
  }

  /** More posts never mean a smaller tier. */
  lemma TierMonotone(m: nat, n: nat)
    requires m <= n
    ensures Rank(TierOf(m)) <= Rank(TierOf(n))
  {
  }

  /** The page a tag links to. */
  function TagHref(slug: string): (r: string)
    ensures |r| == |"/tags/"| + |slug| && r[..|"/tags/"|] == "/tags/" && r[|"/tags/"|..] == slug
  {
    "/tags/" + slug
  }

  /** The cloud's class list for a tag with `postCount` posts. */
  function CloudClass(postCount: nat): string {
    SizeClass(postCount) + " " + ColorClass(postCount) + " hover:text-primary-700 transition-colors"
  }

  /** The cloud: one link per tag, in the store's order. */
  function Cloud(tags: seq<Tag>): (r: seq<CloudLink>)
    ensures |r| == |tags|
    ensures forall i :: 0 <= i < |tags| ==>
      r[i] == CloudLink(TagHref(tags[i].slug), CloudClass(PostCount(tags[i])))
    decreases |tags|
  {
    if tags == [] then []
    else [CloudLink(TagHref(tags[0].slug), CloudClass(PostCount(tags[0])))] + Cloud(tags[1..])
  }

  /** The counter above the cloud. */
  function Counter(tags: seq<Tag>): nat {
    |tags|
  }

  /** The counter equals the number of links in the cloud, and each link leads to its own tag's page. */
  lemma CounterCountsCloud(tags: seq<Tag>)
    ensures Counter(tags) == |Cloud(tags)|
    ensures forall i, j :: 0 <= i < j < |tags| && tags[i].slug != tags[j].slug ==>
      Cloud(tags)[i].href != Cloud(tags)[j].href
  {
    forall i, j | 0 <= i < j < |tags| && tags[i].slug != tags[j].slug
      ensures Cloud(tags)[i].href != Cloud(tags)[j].href
    {
      var a, b := TagHref(tags[i].slug), TagHref(tags[j].slug);
      assert a[|"/tags/"|..] == tags[i].slug && b[|"/tags/"|..] == tags[j].slug;
    }
  }
}
