/**
 * Link discovery (`discover_links` in monitor.py): the hrefs of a page's anchors are made
 * absolute when they start with '/', kept only when they contain the link pattern, and
 * deduplicated in first-seen order. The HTTP fetch and the HTML parse are an input `page`:
 * the page's href values in document order, or `None` when fetching or parsing failed.
 * `resolve` stands for `urljoin` and gives `None` where it raises. Any exception inside
 * the loop makes the whole call return the empty list.
 */
module Discovery {
  import opened Wrappers
  import opened Text

  /** `s` holds no element twice. */
  predicate NoDuplicates<T(==)>(s: seq<T>) {
    forall i, j :: 0 <= i < j < |s| ==> s[i] != s[j]
  }

  /** The href as the pattern test sees it: resolved against the page URL when it starts
      with '/', verbatim otherwise; `None` when resolving raises. */
  function Absolute(pageUrl: string, href: string, resolve: (string, string) -> Option<string>): Option<string> {
    if IsPrefix("/", href) then resolve(pageUrl, href) else Some(href)
  }

  /** Every href that starts with '/' resolves without raising. */
  predicate ResolvesAll(pageUrl: string, hrefs: seq<string>, resolve: (string, string) -> Option<string>) {
    forall i :: 0 <= i < |hrefs| ==> Absolute(pageUrl, hrefs[i], resolve).Some?
  }

  /** The hrefs that pass the pattern test, in page order, duplicates included. */
  function Accepted(pageUrl: string, pattern: string, hrefs: seq<string>,
                    resolve: (string, string) -> Option<string>): seq<string>
    decreases |hrefs|
  {
    if hrefs == [] then []
    else
      var earlier := Accepted(pageUrl, pattern, hrefs[..|hrefs| - 1], resolve);
      match Absolute(pageUrl, hrefs[|hrefs| - 1], resolve)
      case Some(href) => if Contains(href, pattern) then earlier + [href] else earlier
      case None => earlier
  }

  /** The first occurrence of each element of `xs`, in the order of those occurrences. */
  function Dedup<T(==)>(xs: seq<T>): seq<T>
    decreases |xs|
  {
    if xs == [] then []
    else
      var earlier := Dedup(xs[..|xs| - 1]);
      if xs[|xs| - 1] in earlier then earlier else earlier + [xs[|xs| - 1]]
  }

  /** The index of the first occurrence of `x` in `xs`. */
  function FirstIndex<T(==)>(xs: seq<T>, x: T): (r: nat)
    requires x in xs
    ensures r < |xs| && xs[r] == x && x !in xs[..r]
    decreases |xs|
  {
    var init := xs[..|xs| - 1];
    if x in init then
      var r := FirstIndex(init, x);
      assert xs[..r] == init[..r];
      r
    else |xs| - 1
  }

  /** What `discover_links` returns for a page: nothing when the page could not be
      fetched or parsed, when the pattern is `None` (the `in` test raises), or when some
      href fails to resolve; else the accepted hrefs without repeats. */
  function Discovered(pageUrl: string, pattern: Option<string>, page: Option<seq<string>>,
                      resolve: (string, string) -> Option<string>): seq<string>
  {
    match page
    case None => []
    case Some(hrefs) =>
      if pattern.None? then []
      else if !ResolvesAll(pageUrl, hrefs, resolve) then []
      else Dedup(Accepted(pageUrl, pattern.GetOr(""), hrefs, resolve))
  }

  /** The loop of `discover_links`: append each accepted href not yet in `links`; an
      exception on any href gives the empty list. */
  method DiscoverLinks(pageUrl: string, pattern: Option<string>, page: Option<seq<string>>,
                       resolve: (string, string) -> Option<string>)
    returns (links: seq<string>)
    ensures page.None? ==> links == []
    ensures page.Some? && pattern.None? ==> links == []
    ensures page.Some? && !ResolvesAll(pageUrl, page.value, resolve) ==> links == []
    ensures links == Discovered(pageUrl, pattern, page, resolve)
  {
    links := [];
    if page.None? {
      return;
    }
    var hrefs := page.value;
    var i := 0;
    while i < |hrefs|
      invariant 0 <= i <= |hrefs|
      invariant i > 0 ==> pattern.Some?
      invariant ResolvesAll(pageUrl, hrefs[..i], resolve)
      invariant links == Dedup(Accepted(pageUrl, pattern.GetOr(""), hrefs[..i], resolve))
    {
      var href := hrefs[i];
      if IsPrefix("/", href) {
        var resolved := resolve(pageUrl, href);
        if resolved.None? {
          return [];
        }
        href := resolved.value;
      }
      if pattern.None? {
        return [];
      }
      assert hrefs[..i + 1][..i] == hrefs[..i];
      assert Absolute(pageUrl, hrefs[i], resolve) == Some(href);
      ghost var accepted := Accepted(pageUrl, pattern.value, hrefs[..i], resolve);
      if Contains(href, pattern.value) {
        assert Accepted(pageUrl, pattern.value, hrefs[..i + 1], resolve) == accepted + [href];
        assert (accepted + [href])[..|accepted|] == accepted;
        if href !in links {
          links := links + [href];
        }
      }
      i := i + 1;
    }
    assert hrefs[..i] == hrefs;
  }

  /** Deduplication keeps exactly the elements of its input. */
  lemma {:induction false} DedupElements<T>(xs: seq<T>)
    ensures forall x :: x in Dedup(xs) <==> x in xs
    decreases |xs|
  {
    if xs != [] {
      var init := xs[..|xs| - 1];
      DedupElements(init);
      assert xs == init + [xs[|xs| - 1]];
    }
  }

  /** Deduplication leaves no element twice. */
  lemma {:induction false} DedupNoDuplicates<T>(xs: seq<T>)
    ensures NoDuplicates(Dedup(xs))
    decreases |xs|
  {
    if xs != [] {
      DedupNoDuplicates(xs[..|xs| - 1]);
    }
  }

  /** Deduplication lists its elements in the order of their first occurrences in the input. */
  lemma {:induction false} DedupFirstOrder<T>(xs: seq<T>)
    ensures forall x :: x in Dedup(xs) ==> x in xs
    ensures forall i, j :: 0 <= i < j < |Dedup(xs)| ==>
              FirstIndex(xs, Dedup(xs)[i]) < FirstIndex(xs, Dedup(xs)[j])
    decreases |xs|
  {
    DedupElements(xs);
    if xs != [] {
      var init := xs[..|xs| - 1];
      var last := xs[|xs| - 1];
      var d, d' := Dedup(xs), Dedup(init);
      DedupFirstOrder(init);
      DedupElements(init);
      forall y | y in d' ensures FirstIndex(xs, y) == FirstIndex(init, y) {
      }
      forall i, j | 0 <= i < j < |d| ensures FirstIndex(xs, d[i]) < FirstIndex(xs, d[j]) {
        if j < |d'| {
          assert d[i] == d'[i] && d[j] == d'[j];
        } else {
          assert d[j] == last && last !in init;
          assert d[i] == d'[i];
        }
      }
    }
  }

  /** Every accepted href is the absolute form of some href of the page that contains the
      pattern, and every such absolute form is accepted. */
  lemma {:induction false} AcceptedMembers(pageUrl: string, pattern: string, hrefs: seq<string>,
                                           resolve: (string, string) -> Option<string>)
    ensures forall x :: x in Accepted(pageUrl, pattern, hrefs, resolve) <==>
              exists i :: 0 <= i < |hrefs| && Absolute(pageUrl, hrefs[i], resolve) == Some(x) && Contains(x, pattern)
    decreases |hrefs|
  {
    if hrefs != [] {
      var init := hrefs[..|hrefs| - 1];
      AcceptedMembers(pageUrl, pattern, init, resolve);
      forall x ensures x in Accepted(pageUrl, pattern, hrefs, resolve) <==>
                  exists i :: 0 <= i < |hrefs| && Absolute(pageUrl, hrefs[i], resolve) == Some(x) && Contains(x, pattern)
      {
        if exists i :: 0 <= i < |hrefs| && Absolute(pageUrl, hrefs[i], resolve) == Some(x) && Contains(x, pattern) {
          var i :| 0 <= i < |hrefs| && Absolute(pageUrl, hrefs[i], resolve) == Some(x) && Contains(x, pattern);
          if i < |init| {
            assert init[i] == hrefs[i];
          }
        }
      }
    }
  }

  /** The links `discover_links` returns when no exception occurs: no repeats, each
      contains the pattern, exactly the absolute forms of the page's hrefs that contain the
      pattern (a href not starting with '/' is compared and returned verbatim). When some
      href fails to resolve, nothing is returned. */
  lemma DiscoveredLinks(pageUrl: string, pattern: string, hrefs: seq<string>,
                        resolve: (string, string) -> Option<string>)
    ensures var links := Discovered(pageUrl, Some(pattern), Some(hrefs), resolve);
      && NoDuplicates(links)
      && (forall k :: 0 <= k < |links| ==> Contains(links[k], pattern))
      && (!ResolvesAll(pageUrl, hrefs, resolve) ==> links == [])
      && (ResolvesAll(pageUrl, hrefs, resolve) ==>
            forall x :: x in links <==>
              exists i :: 0 <= i < |hrefs| && Absolute(pageUrl, hrefs[i], resolve) == Some(x) && Contains(x, pattern))
      && (ResolvesAll(pageUrl, hrefs, resolve) ==>
            forall i :: 0 <= i < |hrefs| && !IsPrefix("/", hrefs[i]) && Contains(hrefs[i], pattern) ==>
              hrefs[i] in links)
  {
    var accepted := Accepted(pageUrl, pattern, hrefs, resolve);
    DedupElements(accepted);
    DedupNoDuplicates(accepted);
    AcceptedMembers(pageUrl, pattern, hrefs, resolve);
  }

  /** Whatever the inputs, the links have no repeats and each contains the pattern. */
  lemma DiscoveredDistinctMatching(pageUrl: string, pattern: Option<string>, page: Option<seq<string>>,
                                   resolve: (string, string) -> Option<string>)
    ensures var links := Discovered(pageUrl, pattern, page, resolve);
      && NoDuplicates(links)
      && forall k :: 0 <= k < |links| ==> pattern.Some? && Contains(links[k], pattern.value)
  {
    if page.Some? && pattern.Some? {
      DiscoveredLinks(pageUrl, pattern.value, page.value, resolve);
    }
  }

  /** The links come in the order in which the page first offers each of them. */
  lemma DiscoveredOrder(pageUrl: string, pattern: string, hrefs: seq<string>,
                        resolve: (string, string) -> Option<string>)
    ensures var accepted := Accepted(pageUrl, pattern, hrefs, resolve);
      var links := Discovered(pageUrl, Some(pattern), Some(hrefs), resolve);
      && (forall x :: x in links ==> x in accepted)
      && (forall i, j :: 0 <= i < j < |links| ==>
            FirstIndex(accepted, links[i]) < FirstIndex(accepted, links[j]))
  {
    DedupFirstOrder(Accepted(pageUrl, pattern, hrefs, resolve));
  }
}
