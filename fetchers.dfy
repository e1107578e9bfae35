/**
 * The cache-first fetchers: one request cache shared by the package.json
 * and README fetchers, read before any request and written after a
 * successful one; the GitHub fetcher bypasses it. `requests` records, in
 * order, every URL the fetchers send a request for.
 */
module Fetchers {
  import opened Wrappers
  import opened Strings
  import opened Sources

  /** The README file names tried, in this order. */
  const ReadmeFilenames: seq<string> :=
    ["README.md", "readme.md", "Readme.md", "README.markdown", "readme.markdown", "README.mkd", "readme.mkd"]

  /** What the cache holds: a package.json body, or a README with its URL. */
  datatype Cached = NpmBody(npm: NpmData) | ReadmeBody(readme: ReadmeData)

  function PackageJsonUrl(root: string): string {
    UrlJoin(root, "package.json")
  }

  /** Every name joined to the root, in order. */
  function JoinEach(root: string, names: seq<string>): (urls: seq<string>)
    ensures |urls| == |names|
    ensures forall i :: 0 <= i < |names| ==> urls[i] == UrlJoin(root, names[i])
  {
    if names == [] then [] else [UrlJoin(root, names[0])] + JoinEach(root, names[1..])
  }

  /** The README URLs under a package root, in the order they are tried. */
  function ReadmeUrls(root: string): seq<string> {
    JoinEach(root, ReadmeFilenames)
  }

  /** A package.json URL ends in `/package.json`. */
  predicate IsPackageJsonKey(k: string) {
    IsSuffix("/package.json", k)
  }

  /** Package.json bodies sit exactly under package.json URLs; this is how
      the fetchers fill the cache, and so how a persisted cache reads back. */
  predicate WellKeyed(cache: map<string, Cached>) {
    forall k :: k in cache ==> (cache[k].NpmBody? <==> IsPackageJsonKey(k))
  }

  lemma PackageJsonUrlIsKey(root: string)
    ensures IsPackageJsonKey(PackageJsonUrl(root))
  {
    assert "package.json"[0] == 'p';
    UrlJoinEndsWithPart(root, "package.json");
    assert "/" + "package.json" == "/package.json";
  }

  /** The README file names are distinct, none starts with `/`, and none has
      the `o` of `.json` as its last character but one. */
  lemma ReadmeNamesShape()
    ensures forall i :: 0 <= i < |ReadmeFilenames| ==>
      |ReadmeFilenames[i]| >= 2 && ReadmeFilenames[i][0] != '/' && ReadmeFilenames[i][|ReadmeFilenames[i]| - 2] != 'o'
    ensures forall i, j :: 0 <= i < j < |ReadmeFilenames| ==> ReadmeFilenames[i] != ReadmeFilenames[j]
  {
  }

  /** No README URL is a package.json URL. */
  lemma ReadmeUrlNotPackageJson(root: string, i: nat)
    requires i < |ReadmeUrls(root)|
    ensures !IsPackageJsonKey(ReadmeUrls(root)[i])
  {
    ReadmeNamesShape();
    var name := ReadmeFilenames[i];
    UrlJoinShape(root, name);
    var u := ReadmeUrls(root)[i];
    assert u == UrlJoin(root, name);
    assert u[|u| - 2] == name[|name| - 2];
    assert "/package.json"[11] == 'o';
  }

  /** Different README names give different URLs under one root. */
  lemma ReadmeUrlsDistinct(root: string, i: nat, j: nat)
    requires i < |ReadmeFilenames| && j < |ReadmeFilenames| && i != j
    ensures ReadmeUrls(root)[i] != ReadmeUrls(root)[j]
  {
    ReadmeNamesShape();
    if ReadmeUrls(root)[i] == ReadmeUrls(root)[j] {
      UrlJoinInjective(root, ReadmeFilenames[i], ReadmeFilenames[j]);
    }
  }

  predicate DistinctUrls(urls: seq<string>) {
    forall i, j :: 0 <= i < j < |urls| ==> urls[i] != urls[j]
  }

  /** The README URLs of one root are seven distinct URLs, none of them a
      package.json URL. */
  lemma ReadmeUrlsShape(root: string)
    ensures |ReadmeUrls(root)| == 7
    ensures DistinctUrls(ReadmeUrls(root))
    ensures forall i :: 0 <= i < |ReadmeUrls(root)| ==> !IsPackageJsonKey(ReadmeUrls(root)[i])
  {
    forall i, j | 0 <= i < j < |ReadmeFilenames| ensures ReadmeUrls(root)[i] != ReadmeUrls(root)[j] {
      ReadmeUrlsDistinct(root, i, j);
    }
    forall i | 0 <= i < |ReadmeFilenames| ensures !IsPackageJsonKey(ReadmeUrls(root)[i]) {
      ReadmeUrlNotPackageJson(root, i);
    }
  }

  /** The cached package.json body under the package root. */
  function CachedNpm(root: string, cache: map<string, Cached>): NpmData
    requires WellKeyed(cache) && PackageJsonUrl(root) in cache
  {
    PackageJsonUrlIsKey(root);
    cache[PackageJsonUrl(root)].npm
  }

  /** The cached README under the `i`-th file name. */
  function CachedReadme(root: string, cache: map<string, Cached>, i: nat): ReadmeData
    requires WellKeyed(cache) && i < |ReadmeUrls(root)| && ReadmeUrls(root)[i] in cache
  {
    ReadmeUrlNotPackageJson(root, i);
    cache[ReadmeUrls(root)[i]].readme
  }

  // ---------------------------------------------------------------------------
  // The two scans over a list of URLs

  /** The first index from `from` on whose URL is cached. */
  function FirstCached(urls: seq<string>, cache: map<string, Cached>, from: nat): (r: Option<nat>)
    requires from <= |urls|
    ensures r.Some? ==> from <= r.value < |urls| && urls[r.value] in cache
    decreases |urls| - from
  {
    if from == |urls| then None
    else if urls[from] in cache then Some(from)
    else FirstCached(urls, cache, from + 1)
  }

  /** The hit `FirstCached` reports is the first: no earlier URL is cached,
      and a miss means that none is. */
  lemma {:induction false} FirstCachedSpec(urls: seq<string>, cache: map<string, Cached>, from: nat)
    requires from <= |urls|
    ensures var r := FirstCached(urls, cache, from);
      && (r.Some? ==> forall i :: from <= i < r.value ==> urls[i] !in cache)
      && (r.None? ==> forall i :: from <= i < |urls| ==> urls[i] !in cache)
    decreases |urls| - from
  {
    if from < |urls| && urls[from] !in cache {
      FirstCachedSpec(urls, cache, from + 1);
    }
  }

  /** The first index from `from` on whose URL the network serves text. */
  function FirstServed(urls: seq<string>, net: Network, from: nat): (r: Option<nat>)
    requires from <= |urls|
    ensures r.Some? ==> from <= r.value < |urls| && net.text(urls[r.value]).Some?
    decreases |urls| - from
  {
    if from == |urls| then None
    else if net.text(urls[from]).Some? then Some(from)
    else FirstServed(urls, net, from + 1)
  }

  /** The URL `FirstServed` reports is the first served: every earlier
      request failed, and a miss means that all of them did. */
  lemma {:induction false} FirstServedSpec(urls: seq<string>, net: Network, from: nat)
    requires from <= |urls|
    ensures var r := FirstServed(urls, net, from);
      && (r.Some? ==> forall i :: from <= i < r.value ==> net.text(urls[i]).None?)
      && (r.None? ==> forall i :: from <= i < |urls| ==> net.text(urls[i]).None?)
    decreases |urls| - from
  {
    if from < |urls| && net.text(urls[from]).None? {
      FirstServedSpec(urls, net, from + 1);
    }
  }

  /** `FirstCached` depends only on which of the URLs are cached. */
  lemma {:induction false} FirstCachedSameKeys(urls: seq<string>, c1: map<string, Cached>, c2: map<string, Cached>, from: nat)
    requires from <= |urls|
    requires forall i :: from <= i < |urls| ==> (urls[i] in c1 <==> urls[i] in c2)
    ensures FirstCached(urls, c1, from) == FirstCached(urls, c2, from)
    decreases |urls| - from
  {
    if from < |urls| {
      FirstCachedSameKeys(urls, c1, c2, from + 1);
    }
  }

  /** Once one URL of a list none of whose URLs is cached is stored, the
      scan finds that one first. */
  lemma StoredFoundFirst(urls: seq<string>, cache: map<string, Cached>, j: nat, d: Cached)
    requires j < |urls| && DistinctUrls(urls) && FirstCached(urls, cache, 0).None?
    ensures FirstCached(urls, cache[urls[j] := d], 0) == Some(j)
  {
    var c := cache[urls[j] := d];
    FirstCachedSpec(urls, cache, 0);
    FirstCachedSpec(urls, c, 0);
  }

  // ---------------------------------------------------------------------------
  // What a store does to later fetches

  /** Storing a README keeps the cache well keyed. */
  lemma StoreReadmeWellKeyed(root: string, cache: map<string, Cached>, j: nat, d: ReadmeData)
    requires WellKeyed(cache) && j < |ReadmeUrls(root)|
    ensures WellKeyed(cache[ReadmeUrls(root)[j] := ReadmeBody(d)])
  {
    ReadmeUrlNotPackageJson(root, j);
  }

  /** Storing a package.json body keeps the cache well keyed. */
  lemma StoreNpmWellKeyed(root: string, cache: map<string, Cached>, d: NpmData)
    requires WellKeyed(cache)
    ensures WellKeyed(cache[PackageJsonUrl(root) := NpmBody(d)])
  {
    PackageJsonUrlIsKey(root);
  }

  /** Once a README is stored after a full miss, the next README fetch for
      the root is served from the cache, with that README. */
  lemma StoredReadmeFoundFirst(root: string, cache: map<string, Cached>, j: nat, d: ReadmeData)
    requires WellKeyed(cache) && j < |ReadmeUrls(root)| && FirstCached(ReadmeUrls(root), cache, 0).None?
    ensures var c := cache[ReadmeUrls(root)[j] := ReadmeBody(d)];
      && WellKeyed(c)
      && FirstCached(ReadmeUrls(root), c, 0) == Some(j)
      && CachedReadme(root, c, j) == d
  {
    ReadmeUrlsShape(root);
    StoreReadmeWellKeyed(root, cache, j, d);
    StoredFoundFirst(ReadmeUrls(root), cache, j, ReadmeBody(d));
  }

  /** Once stored, the package.json body is what the next fetch of the same
      package root finds, without a request; README lookups are untouched. */
  lemma StoredNpmFound(root: string, cache: map<string, Cached>, d: NpmData)
    requires WellKeyed(cache)
    ensures WellKeyed(cache[PackageJsonUrl(root) := NpmBody(d)])
    ensures CachedNpm(root, cache[PackageJsonUrl(root) := NpmBody(d)]) == d
    ensures FirstCached(ReadmeUrls(root), cache[PackageJsonUrl(root) := NpmBody(d)], 0)
         == FirstCached(ReadmeUrls(root), cache, 0)
  {
    StoreNpmWellKeyed(root, cache, d);
    PackageJsonUrlIsKey(root);
    ReadmeUrlsShape(root);
    var urls := ReadmeUrls(root);
    var c := cache[PackageJsonUrl(root) := NpmBody(d)];
    forall i | 0 <= i < |urls| ensures (urls[i] in c <==> urls[i] in cache) {
      assert urls[i] != PackageJsonUrl(root);
    }
    FirstCachedSameKeys(urls, cache, c, 0);
  }

  class Fetcher {
    var cache: map<string, Cached>
    ghost var requests: seq<string>

    ghost predicate Valid()
      reads this
    {
      WellKeyed(cache)
    }

    /** A fetcher over the cache read back from disk. */
    constructor (initial: map<string, Cached>)
      requires WellKeyed(initial)
      ensures Valid() && cache == initial && requests == []
    {
      cache := initial;
      requests := [];
    }

    /** `fetchNpm(packageRoot)`: a cached body is returned without a request;
        otherwise package.json is requested and, when served, stored under
        its URL and nowhere else. */
    method FetchNpm(root: string, net: Network) returns (r: Option<NpmData>)
      requires Valid()
      modifies this
      ensures Valid()
      ensures PackageJsonUrl(root) in old(cache) ==>
        r == Some(CachedNpm(root, old(cache))) && cache == old(cache) && requests == old(requests)
      ensures PackageJsonUrl(root) !in old(cache) ==>
        && r == net.npm(PackageJsonUrl(root))
        && requests == old(requests) + [PackageJsonUrl(root)]
        && cache == (if r.Some? then old(cache)[PackageJsonUrl(root) := NpmBody(r.value)] else old(cache))
    {
      var key := PackageJsonUrl(root);
      if key in cache {
        r := Some(CachedNpm(root, cache));
        return;
      }
      requests := requests + [key];
      r := net.npm(key);
      if r.Some? {
        StoreNpmWellKeyed(root, cache, r.value);
        cache := cache[key := NpmBody(r.value)];
      }
    }

    /** `fetchGithub(repo)`: `{}` without a request when the slug is missing
        or empty, otherwise the repository API's answer. The cache is
        neither read nor written. */
    method FetchGithub(repo: Option<string>, net: Network) returns (r: Option<GithubData>)
      modifies this`requests
      ensures r == GithubRequest(repo, net)
      ensures cache == old(cache)
      ensures requests == old(requests) + (if Truthy(repo) then [RepoInfoUrl(repo.value)] else [])
      ensures !Truthy(repo) ==> r == Some(EmptyGithub)
    {
      if !Truthy(repo) {
        r := Some(EmptyGithub);
        return;
      }
      var url := RepoInfoUrl(repo.value);
      requests := requests + [url];
      r := net.github(url);
    }

    /** The cache scan over a list of URLs, in order: the first one cached,
        with none cached before it, or none at all. */
    method ScanCache(urls: seq<string>) returns (hit: Option<nat>)
      ensures hit == FirstCached(urls, cache, 0)
      ensures hit.Some? ==> hit.value < |urls| && urls[hit.value] in cache
      ensures hit.Some? ==> forall i :: 0 <= i < hit.value ==> urls[i] !in cache
      ensures hit.None? ==> forall i :: 0 <= i < |urls| ==> urls[i] !in cache
    {
      var i := 0;
      while i < |urls|
        invariant 0 <= i <= |urls|
        invariant forall k :: 0 <= k < i ==> urls[k] !in cache
        invariant FirstCached(urls, cache, 0) == FirstCached(urls, cache, i)
      {
        if urls[i] in cache {
          return Some(i);
        }
        i := i + 1;
      }
      return None;
    }

    /** The requests for a list of URLs, in order, until one is served;
        nothing is stored here. */
    method RequestInTurn(urls: seq<string>, net: Network) returns (got: Option<nat>)
      modifies this`requests
      ensures got == FirstServed(urls, net, 0)
      ensures got.Some? ==> requests == old(requests) + urls[..got.value + 1]
      ensures got.None? ==> requests == old(requests) + urls
    {
      var i := 0;
      while i < |urls|
        invariant 0 <= i <= |urls|
        invariant FirstServed(urls, net, 0) == FirstServed(urls, net, i)
        invariant requests == old(requests) + urls[..i]
      {
        assert urls[..i + 1] == urls[..i] + [urls[i]];
        requests := requests + [urls[i]];
        if net.text(urls[i]).Some? {
          return Some(i);
        }
        i := i + 1;
      }
      assert urls[..i] == urls;
      return None;
    }

    /** The README fetch over a list of URLs, none of them a package.json
        URL: the first URL that is cached is served from the cache without
        a request; otherwise the URLs are requested in order until one is
        served, which is stored under that URL; when none is served nothing
        is returned and nothing stored. */
    method FetchFirst(urls: seq<string>, net: Network) returns (r: Option<ReadmeData>)
      requires Valid()
      requires forall i :: 0 <= i < |urls| ==> !IsPackageJsonKey(urls[i])
      modifies this
      ensures Valid()
      ensures var hit := FirstCached(urls, old(cache), 0);
        hit.Some? ==>
          && r == Some(old(cache)[urls[hit.value]].readme)
          && cache == old(cache) && requests == old(requests)
      ensures var hit := FirstCached(urls, old(cache), 0);
        var got := FirstServed(urls, net, 0);
        hit.None? && got.Some? ==>
          && r == Some(ReadmeData(net.text(urls[got.value]).value, urls[got.value]))
          && cache == old(cache)[urls[got.value] := ReadmeBody(r.value)]
          && requests == old(requests) + urls[..got.value + 1]
      ensures var hit := FirstCached(urls, old(cache), 0);
        var got := FirstServed(urls, net, 0);
        hit.None? && got.None? ==>
          r.None? && cache == old(cache) && requests == old(requests) + urls
    {
      var hit := ScanCache(urls);
      if hit.Some? {
        r := Some(cache[urls[hit.value]].readme);
        return;
      }
      var got := RequestInTurn(urls, net);
      if got.None? {
        r := None;
        return;
      }
      var url := urls[got.value];
      var d := ReadmeData(net.text(url).value, url);
      cache := cache[url := ReadmeBody(d)];
      r := Some(d);
    }

    /** `fetchReadme(packageRoot)`: the README fetch over the README URLs of
        the package root. */
    method FetchReadme(root: string, net: Network) returns (r: Option<ReadmeData>)
      requires Valid()
      modifies this
      ensures Valid()
      ensures var hit := FirstCached(ReadmeUrls(root), old(cache), 0);
        hit.Some? ==>
          && r == Some(CachedReadme(root, old(cache), hit.value))
          && cache == old(cache) && requests == old(requests)
      ensures var hit := FirstCached(ReadmeUrls(root), old(cache), 0);
        var got := FirstServed(ReadmeUrls(root), net, 0);
        hit.None? && got.Some? ==>
          var url := ReadmeUrls(root)[got.value];
          && r == Some(ReadmeData(net.text(url).value, url))
          && cache == old(cache)[url := ReadmeBody(r.value)]
          && requests == old(requests) + ReadmeUrls(root)[..got.value + 1]
      ensures var hit := FirstCached(ReadmeUrls(root), old(cache), 0);
        var got := FirstServed(ReadmeUrls(root), net, 0);
        hit.None? && got.None? ==>
          r.None? && cache == old(cache) && requests == old(requests) + ReadmeUrls(root)
    {
      ReadmeUrlsShape(root);
      r := FetchFirst(ReadmeUrls(root), net);
    }
  }
}
