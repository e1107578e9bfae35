/**
 * What the registry scripts receive from the outside world: the fields they
 * read from a package.json, from the GitHub repository API and from a README,
 * and the network itself, replaced by three functions from URL to response.
 */
module Sources {
  import opened Wrappers
  import opened Strings

  /** The package CDN (the `CDN` configuration value). */
  const Cdn := "https://unpkg.com/"

  const GithubApi := "https://api.github.com/"

  /** Where the GitHub repository API describes `owner/repo`. */
  function RepoInfoUrl(slug: string): string {
    UrlJoin(UrlJoin(GithubApi, "repos/"), slug)
  }

  /** The `repository` field of a package.json. */
  datatype Repository =
    | NoRepository                    // absent or null
    | RepoString(text: string)        // "owner/repo" or a URL
    | RepoObject(url: Option<string>) // { url: ... }

  /** The package.json fields the scripts read. `author` is None when it is
      absent or is not a string (an object has no `trim`). */
  datatype NpmData = NpmData(
    author: Option<string>,
    description: Option<string>,
    license: Option<string>,
    repository: Repository)

  /** The GitHub repository fields the scripts read; each may be missing. */
  datatype GithubData = GithubData(
    createdAt: Option<string>,
    updatedAt: Option<string>,
    htmlUrl: Option<string>,
    stargazersCount: Option<int>)

  /** `{}`: what the GitHub fetch yields when no repository is known. */
  const EmptyGithub := GithubData(None, None, None, None)

  /** README text together with the URL it was read from. */
  datatype ReadmeData = ReadmeData(text: string, url: string)

  /** The network: for a URL, the parsed package.json body, the parsed GitHub
      body, or the raw response text; None when the request fails. */
  datatype Network = Network(
    npm: string -> Option<NpmData>,
    github: string -> Option<GithubData>,
    text: string -> Option<string>)

  /** JavaScript truthiness of a string value that may be missing. */
  predicate Truthy(s: Option<string>) {
    s.Some? && s.value != ""
  }

  /** The GitHub step as the cached fetchers take it: a missing or empty slug
      yields `{}` without a request, any other slug the repository API's
      answer for it. */
  function GithubRequest(repo: Option<string>, net: Network): Option<GithubData> {
    if Truthy(repo) then net.github(RepoInfoUrl(repo.value)) else Some(EmptyGithub)
  }
}
