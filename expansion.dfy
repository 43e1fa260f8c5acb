/**
 * Target expansion (the first loop of `monitor_websites` in monitor.py): every configured
 * site becomes one target, or, when it discovers links, one target per discovered link.
 */
module Targets {
  import opened Wrappers
  import opened Text
  import opened Discovery

  /** The `link_pattern` key of a site: missing, present as `None`, or a string. */
  datatype PatternEntry = Missing | NullPattern | Pattern(value: string)

  /** One entry of the `WEBSITES` configuration. */
  datatype SiteConfig = SiteConfig(
    url: string,
    name: string,
    discoverLinks: bool,
    linkPattern: PatternEntry,
    selector: Option<string>)

  /** One page to check: an entry of `urls_to_check`. */
  datatype Target = Target(url: string, name: string, selector: Option<string>)

  /** `site.get('link_pattern', '')`: a missing pattern is the empty string, a `None` stays `None`. */
  function PatternOf(site: SiteConfig): Option<string> {
    match site.linkPattern
    case Missing => Some("")
    case NullPattern => None
    case Pattern(p) => Some(p)
  }

  /** The display name of a discovered page (`name` of monitor.py:155). */
  function DiscoveredName(siteName: string, url: string): string {
    siteName + " - " + Take(LastSegment(url), 50)
  }

  /** A discovered page is named the site's name, " - ", then the first 50 characters of the
      last path segment of its URL (all of it when it is shorter), which contain no '/'. */
  lemma DiscoveredNameShape(siteName: string, url: string)
    ensures var r := DiscoveredName(siteName, url);
      && |r| == |siteName| + 3 + (if |LastSegment(url)| <= 50 then |LastSegment(url)| else 50)
      && r[..|siteName| + 3] == siteName + " - "
      && '/' !in r[|siteName| + 3..]
      && IsPrefix(r[|siteName| + 3..], LastSegment(url))
  {
    var segment := LastSegment(url);
    LastSegmentIsSuffix(url);
    var kept := Take(segment, 50);
    assert IsPrefix(kept, segment);
    assert '/' !in kept by {
      forall i | 0 <= i < |kept| ensures kept[i] != '/' {
        assert kept[i] == segment[i];
      }
    }
    var lead := siteName + " - ";
    assert DiscoveredName(siteName, url) == lead + kept;
    assert (lead + kept)[..|lead|] == lead;
    assert (lead + kept)[|lead|..] == kept;
  }

  /** The target of a discovered URL of `site`. */
  function DiscoveredTarget(site: SiteConfig, url: string): Target {
    Target(url, DiscoveredName(site.name, url), site.selector)
  }

  /** One target per link, in link order. */
  function DiscoveredTargets(site: SiteConfig, links: seq<string>): seq<Target>
    decreases |links|
  {
    if links == [] then []
    else DiscoveredTargets(site, links[..|links| - 1]) + [DiscoveredTarget(site, links[|links| - 1])]
  }

  /** The k-th discovered target is that of the k-th link. */
  lemma {:induction false} DiscoveredTargetsAt(site: SiteConfig, links: seq<string>)
    ensures |DiscoveredTargets(site, links)| == |links|
    ensures forall k :: 0 <= k < |links| ==> DiscoveredTargets(site, links)[k] == DiscoveredTarget(site, links[k])
    decreases |links|
  {
    if links != [] {
      var init := links[..|links| - 1];
      DiscoveredTargetsAt(site, init);
      forall k | 0 <= k < |init| ensures init[k] == links[k] {
      }
    }
  }

  /** The targets one site contributes. `pages` gives, per URL, the hrefs that fetching and
      parsing that page yields, or `None` on failure. */
  function SiteTargets(site: SiteConfig, pages: string -> Option<seq<string>>,
                       resolve: (string, string) -> Option<string>): seq<Target>
  {
    if site.discoverLinks then
      DiscoveredTargets(site, Discovered(site.url, PatternOf(site), pages(site.url), resolve))
    else
      [Target(site.url, site.name, site.selector)]
  }

  /** All targets of a configuration, site by site. */
  function Expansion(sites: seq<SiteConfig>, pages: string -> Option<seq<string>>,
                     resolve: (string, string) -> Option<string>): seq<Target>
    decreases |sites|
  {
    if sites == [] then []
    else Expansion(sites[..|sites| - 1], pages, resolve) + SiteTargets(sites[|sites| - 1], pages, resolve)
  }

  /** The targets of a discovering site: discover its links, then one target per link. */
  method DiscoverSiteTargets(site: SiteConfig, pages: string -> Option<seq<string>>,
                             resolve: (string, string) -> Option<string>)
    returns (targets: seq<Target>)
    requires site.discoverLinks
    ensures targets == SiteTargets(site, pages, resolve)
  {
    var found := DiscoverLinks(site.url, PatternOf(site), pages(site.url), resolve);
    targets := [];
    var j := 0;
    while j < |found|
      invariant 0 <= j <= |found|
      invariant targets == DiscoveredTargets(site, found[..j])
    {
      assert found[..j + 1][..j] == found[..j];
      targets := targets + [DiscoveredTarget(site, found[j])];
      j := j + 1;
    }
    assert found[..j] == found;
  }

  /** The loop that builds `urls_to_check`. */
  method ExpandTargets(sites: seq<SiteConfig>, pages: string -> Option<seq<string>>,
                       resolve: (string, string) -> Option<string>)
    returns (targets: seq<Target>)
    ensures targets == Expansion(sites, pages, resolve)
  {
    targets := [];
    var i := 0;
    while i < |sites|
      invariant 0 <= i <= |sites|
      invariant targets == Expansion(sites[..i], pages, resolve)
    {
      var site := sites[i];
      assert sites[..i + 1][..i] == sites[..i];
      if site.discoverLinks {
        var discovered := DiscoverSiteTargets(site, pages, resolve);
        targets := targets + discovered;
      } else {
        targets := targets + [Target(site.url, site.name, site.selector)];
      }
      i := i + 1;
    }
    assert sites[..i] == sites;
  }

  /** Expansion follows the configuration order: the targets of a concatenation of
      configurations are the targets of each, one after the other. */
  lemma {:induction false} ExpansionAppend(a: seq<SiteConfig>, b: seq<SiteConfig>,
                                           pages: string -> Option<seq<string>>,
                                           resolve: (string, string) -> Option<string>)
    ensures Expansion(a + b, pages, resolve) == Expansion(a, pages, resolve) + Expansion(b, pages, resolve)
    decreases |b|
  {
    if b == [] {
      assert a + b == a;
    } else {
      var b', last := b[..|b| - 1], b[|b| - 1];
      assert (a + b)[..|a + b| - 1] == a + b';
      assert (a + b)[|a + b| - 1] == last;
      calc {
        Expansion(a + b, pages, resolve);
        Expansion(a + b', pages, resolve) + SiteTargets(last, pages, resolve);
        { ExpansionAppend(a, b', pages, resolve); }
        Expansion(a, pages, resolve) + Expansion(b', pages, resolve) + SiteTargets(last, pages, resolve);
      }
    }
  }

  /** A site that does not discover yields exactly itself; a discovering site yields one
      target per discovered link, in discovery order, with distinct URLs that all contain
      its pattern, each named after the site and carrying the site's selector. */
  lemma SiteTargetsSpec(site: SiteConfig, pages: string -> Option<seq<string>>,
                        resolve: (string, string) -> Option<string>)
    ensures var ts := SiteTargets(site, pages, resolve);
      && (!site.discoverLinks ==> ts == [Target(site.url, site.name, site.selector)])
      && (site.discoverLinks ==>
            var links := Discovered(site.url, PatternOf(site), pages(site.url), resolve);
            && |ts| == |links|
            && (forall k :: 0 <= k < |ts| ==> ts[k].url == links[k] && ts[k].selector == site.selector)
            && (forall k :: 0 <= k < |ts| ==> PatternOf(site).Some? && Contains(ts[k].url, PatternOf(site).value))
            && (forall k :: 0 <= k < |ts| ==> ts[k].name == DiscoveredName(site.name, links[k]))
            && (forall i, j :: 0 <= i < j < |ts| ==> ts[i].url != ts[j].url))
  {
    if site.discoverLinks {
      var links := Discovered(site.url, PatternOf(site), pages(site.url), resolve);
      assert SiteTargets(site, pages, resolve) == DiscoveredTargets(site, links);
      DiscoveredTargetsAt(site, links);
      DiscoveredDistinctMatching(site.url, PatternOf(site), pages(site.url), resolve);
    }
  }
}
