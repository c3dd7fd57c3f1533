/** The sitemap transformer: it drops paginated listing URLs and gives every
    remaining URL a crawl priority chosen by an ordered table of URL prefixes.
    Priorities are kept in tenths (10 stands for 1.0, 5 for 0.5). */
module Sitemap {
  import opened Strings
  import opened Seqs
  import opened Records

  datatype Option<T> = None | Some(value: T)

  /** A sitemap entry: its URL, an optional priority in tenths, everything else. */
  datatype SitemapItem = SitemapItem(url: string, priority: Option<nat>, extra: Extra)

  /** URLs of paginated listings contain this segment. */
  const PageSegment: string := "/page/"

  const DefaultPriority: nat := 5

  /** A paginated listing: `/page/` occurs somewhere in the URL. */
  predicate IsPaginated(item: SitemapItem)
    ensures IsPaginated(item) <==> exists i :: OccursAt(item.url, PageSegment, i)
  {
    Contains(item.url, PageSegment)
  }

  predicate IsListed(item: SitemapItem) {
    !IsPaginated(item)
  }

  // ---------------------------------------------------------------------
  // The priority table
  // ---------------------------------------------------------------------

  /** The priority the callback's if/else chain assigns to `url`. */
  function PriorityFor(url: string): (p: nat)
    ensures p in {4, 5, 6, 7, 8, 10}
  {
    if url == "/" then 10
    else if StartsWith(url, "/docs") || StartsWith(url, "/packages") then 8
    else if StartsWith(url, "/api") || StartsWith(url, "/rest") then 7
    else if StartsWith(url, "/blog") then 6
    else if StartsWith(url, "/news") then 6
    else if StartsWith(url, "/community") then 4
    else DefaultPriority
  }

  /** One row of the priority table: a URL test and the priority it yields. */
  datatype Rule = Exact(path: string, tenths: nat) | Prefix(prefix: string, tenths: nat)

  predicate Matches(rule: Rule, url: string) {
    match rule
    case Exact(path, _) => url == path
    case Prefix(prefix, _) => StartsWith(url, prefix)
  }

  /** The priority table, in the order the callback tests it. */
  const Rules: seq<Rule> := [
    Exact("/", 10),
    Prefix("/docs", 8), Prefix("/packages", 8),
    Prefix("/api", 7), Prefix("/rest", 7),
    Prefix("/blog", 6),
    Prefix("/news", 6),
    Prefix("/community", 4)
  ]

  /** First-match lookup in an ordered table, with a default for no match. */
  function FirstMatch(rules: seq<Rule>, url: string, default: nat): (p: nat)
    ensures (exists k :: 0 <= k < |rules| && Matches(rules[k], url)) || p == default
    ensures forall k :: (&& 0 <= k < |rules| && Matches(rules[k], url)
                         && (forall j :: 0 <= j < k ==> !Matches(rules[j], url))) ==> p == rules[k].tenths
  {
    if |rules| == 0 then default
    else if Matches(rules[0], url) then rules[0].tenths
    else
      var p := FirstMatch(rules[1..], url, default);
      assert forall k :: 1 <= k < |rules| ==> rules[k] == rules[1..][k - 1];
      p
  }

  /** The if/else chain is exactly a first-match lookup in the table. */
  lemma PriorityIsFirstMatch(url: string)
    ensures PriorityFor(url) == FirstMatch(Rules, url, DefaultPriority)
  {
    var k := if url == "/" then 0
      else if StartsWith(url, "/docs") then 1
      else if StartsWith(url, "/packages") then 2
      else if StartsWith(url, "/api") then 3
      else if StartsWith(url, "/rest") then 4
      else if StartsWith(url, "/blog") then 5
      else if StartsWith(url, "/news") then 6
      else if StartsWith(url, "/community") then 7
      else 8;
    if k == 8 {
      assert forall j :: 0 <= j < |Rules| ==> !Matches(Rules[j], url);
    } else {
      assert Matches(Rules[k], url);
      assert forall j :: 0 <= j < k ==> !Matches(Rules[j], url);
    }
  }

  /** A URL shares its second character with each of its prefixes; the
      prefixes of the table differ there, so no URL starts with two of them. */
  lemma SecondCharOfPrefixes(url: string)
    ensures forall q :: |q| >= 2 && StartsWith(url, q) ==> url[1] == q[1]
  {
    forall q | |q| >= 2 && StartsWith(url, q) ensures url[1] == q[1] {
      assert url[..|q|][1] == q[1];
    }
  }

  /** At most one row of the table matches any URL, so the order of the
      rows does not matter: the priority is that of whichever row matches. */
  lemma PriorityOfMatchingRule(url: string, k: nat)
    requires k < |Rules| && Matches(Rules[k], url)
    ensures forall j :: 0 <= j < |Rules| && Matches(Rules[j], url) ==> j == k
    ensures PriorityFor(url) == Rules[k].tenths
  {
    SecondCharOfPrefixes(url);
    OnlyOneRuleMatches(url, k);
    if k == 0 {
    } else if k == 1 {
      assert StartsWith(url, "/docs");
    } else if k == 2 {
      assert StartsWith(url, "/packages");
    } else if k == 3 {
      assert StartsWith(url, "/api");
    } else if k == 4 {
      assert StartsWith(url, "/rest");
    } else if k == 5 {
      assert StartsWith(url, "/blog");
    } else if k == 6 {
      assert StartsWith(url, "/news");
    } else {
      assert StartsWith(url, "/community");
    }
  }

  /** No URL matches two rows of the table: `/` is shorter than every
      prefix, and the prefixes differ in their second character. */
  lemma OnlyOneRuleMatches(url: string, k: nat)
    requires k < |Rules| && Matches(Rules[k], url)
    ensures forall j :: 0 <= j < |Rules| && Matches(Rules[j], url) ==> j == k
  {
    SecondCharOfPrefixes(url);
    forall j | 0 <= j < |Rules| && j != k ensures !Matches(Rules[j], url) {
      if k == 0 {
        assert |url| < |Rules[j].prefix|;
      } else if j == 0 {
        assert |url| >= |Rules[k].prefix| > 1;
      } else {
        assert url[1] == Rules[k].prefix[1] != Rules[j].prefix[1];
      }
    }
  }

  /** The default priority is assigned exactly to the URLs no row matches. */
  lemma DefaultIffNoRuleMatches(url: string)
    ensures PriorityFor(url) == DefaultPriority <==> forall k :: 0 <= k < |Rules| ==> !Matches(Rules[k], url)
  {
    if exists k :: 0 <= k < |Rules| && Matches(Rules[k], url) {
      var k :| 0 <= k < |Rules| && Matches(Rules[k], url);
      PriorityOfMatchingRule(url, k);
    } else {
      PriorityIsFirstMatch(url);
    }
  }

  // ---------------------------------------------------------------------
  // The whole transformer
  // ---------------------------------------------------------------------

  /** Overwrites the item's priority with the one its URL earns. */
  function AssignPriority(item: SitemapItem): (r: SitemapItem)
    ensures r.url == item.url && r.extra == item.extra
    ensures r.priority.Some? && r.priority.value in {4, 5, 6, 7, 8, 10}
  {
    item.(priority := Some(PriorityFor(item.url)))
  }

  /** Drops the paginated listings, keeping the order of the rest. */
  function DropPaginated(items: seq<SitemapItem>): (r: seq<SitemapItem>)
    ensures |r| <= |items|
    ensures forall i :: 0 <= i < |r| ==> !Contains(r[i].url, PageSegment)
    ensures forall x :: x in r <==> x in items && !IsPaginated(x)
    ensures IsSubsequence(r, items)
  {
    Filter(IsListed, items)
  }

  /** No other order-preserving selection of unpaginated items is as long:
      the filter keeps exactly the unpaginated items. */
  lemma DropPaginatedIsExact(items: seq<SitemapItem>, t: seq<SitemapItem>)
    requires IsSubsequence(t, items)
    requires forall i :: 0 <= i < |t| ==> !IsPaginated(t[i])
    requires |t| >= |DropPaginated(items)|
    ensures t == DropPaginated(items)
  {
    FilterUnique(IsListed, t, items);
  }

  /** The sitemap items the callback returns for the framework's defaults:
      item by item, the listed inputs with their priorities reassigned. */
  function CreateSitemapItems(items: seq<SitemapItem>): (r: seq<SitemapItem>)
    ensures |r| == |DropPaginated(items)| <= |items|
    ensures forall i :: 0 <= i < |r| ==>
      && r[i].url == DropPaginated(items)[i].url
      && r[i].extra == DropPaginated(items)[i].extra
      && r[i].priority == Some(PriorityFor(r[i].url))
    ensures forall i :: 0 <= i < |r| ==> !Contains(r[i].url, PageSegment)
    ensures forall x :: x in items && !IsPaginated(x) ==> AssignPriority(x) in r
  {
    var kept := DropPaginated(items);
    var r := seq(|kept|, i requires 0 <= i < |kept| => AssignPriority(kept[i]));
    assert forall x :: x in items && !IsPaginated(x) ==> AssignPriority(x) in r by {
      forall x | x in items && !IsPaginated(x) ensures AssignPriority(x) in r {
        var k :| 0 <= k < |kept| && kept[k] == x;
        assert r[k] == AssignPriority(x);
      }
    }
    r
  }

  /** Running the transformer over its own output changes nothing. */
  lemma CreateSitemapItemsIdempotent(items: seq<SitemapItem>)
    ensures CreateSitemapItems(CreateSitemapItems(items)) == CreateSitemapItems(items)
  {
    var r := CreateSitemapItems(items);
    FilterAllPass(IsListed, r);
    var rr := CreateSitemapItems(r);
    assert |rr| == |r|;
    forall i | 0 <= i < |r| ensures rr[i] == r[i] {
      assert rr[i].url == r[i].url;
    }
  }

  /** The URLs of a worked example get the documented tiers. */
  lemma ExamplePriorities()
    ensures PriorityFor("/") == 10
    ensures PriorityFor("/docs/intro") == 8
    ensures PriorityFor("/api/foo") == 7
    ensures PriorityFor("/blog/post") == 6
    ensures PriorityFor("/news/x") == 6
    ensures PriorityFor("/community/y") == 4
    ensures PriorityFor("/random") == 5
  {
    PriorityOfMatchingRule("/docs/intro", 1);
    PriorityOfMatchingRule("/api/foo", 3);
    PriorityOfMatchingRule("/blog/post", 5);
    PriorityOfMatchingRule("/news/x", 6);
    PriorityOfMatchingRule("/community/y", 7);
    ExampleDefault();
  }

  lemma ExampleDefault()
    ensures PriorityFor("/random") == 5
  {
    SecondCharOfPrefixes("/random");
    assert "/random"[1] == 'r';
    assert !StartsWith("/random", "/rest") by {
      assert "/random"[2] != "/rest"[2];
    }
  }

  /** A paginated docs listing leaves no entry behind. */
  lemma ExamplePaginationDropped(extra: Extra)
    ensures CreateSitemapItems([SitemapItem("/docs/page/2", None, extra)]) == []
  {
    assert OccursAt("/docs/page/2", PageSegment, 5);
  }
}
