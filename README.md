# A-Frame registry build, modelled in Dafny

The A-Frame registry is a YAML list of components. For each component it
gives a display name and, per A-Frame major version, one of three things: a
pinned npm release (`version`, `path` of the built file, optional `image`),
an explicit `null` ("incompatible with this A-Frame version"), or nothing.
The build script walks every component through the A-Frame versions
`0.2.0` and `0.3.0`, oldest first. A pinned release is turned into a flat
metadata record. A missing entry inherits the previous version's record,
marked with `fallbackVersion`. An incompatible one is left out. The records
are collected in one output object per A-Frame version.

A record is assembled from three sources:

- the package's `package.json` on the unpkg CDN;
- the GitHub repository API, with the repository inferred from the
  `repository` field of `package.json`;
- the package's README, from which a preview image is read with two regular
  expressions (Markdown first, then HTML).

A second set of fetchers serves the same three requests. Its `fetchNpm`
and `fetchReadme` share a cache keyed by URL, and `fetchReadme` tries seven
README file names in turn. Its `fetchGithub` does not use the cache: it
requests whenever a repository slug is given.

The project has these modules:

- `Wrappers` (`wrappers.dfy`): `Option`.
- `Strings` (`strings.dfy`): the JavaScript string operations the source
  uses (`trim`, `split`/`join`, `indexOf`), the `url-join` package, and
  `path.basename`.
- `Sources` (`sources.dfy`): the data served by npm, GitHub and the CDN. The
  network is a value: three functions from URL to an optional body.
- `ImageRegex` (`image_regex.dfy`): the two image patterns. Each is a
  declarative match predicate plus a scanner proved to return the capture a
  backtracking regular-expression engine reports.
- `Metadata` (`metadata.dfy`): the package root, the record fields,
  `inferGithubRepository`, `parseImgFromText` and `fetchMetadata`.
- `Fetchers` (`fetchers.dfy`): class `Fetcher`. Its `fetchNpm` and
  `fetchReadme` read and update the `cache` map, and its `fetchGithub`
  leaves the cache alone. A ghost request log records which URLs were
  requested.
- `Build` (`build.dfy`): `Resolve` states the record of component `n` at
  version `k`. Class `Builder` holds the `OUTPUT` map and fills it version
  by version, and its methods are proved to produce exactly `Resolve`.

## Model

| member | source | states |
|---|---|---|
| Build.StepFor | scripts/build.js:63-87 | a version is skipped exactly when it is marked `null`, fetched exactly when pinned, given up exactly when absent at the first version, and inherited exactly when absent later |
| Build.StepAsWrittenDiffersOnNull | scripts/build.js:65-69 | the written `null` guard can never hold; the written step differs from the intended one exactly on a `null` entry, which it treats like a missing one |
| Build.Inherit | scripts/build.js:83-85 | an inherited record exists exactly when the previous one does; it names the previous version in `fallbackVersion` and equals the previous record in every other field |
| Build.ResolvePinned | scripts/build.js:89-94 | a pinned version's record is the metadata fetched for its entry |
| Build.ResolveFirstAbsent | scripts/build.js:73-74 | a component missing at the first version has no record there |
| Build.ResolveFallBack | scripts/build.js:76-86 | a missing entry later in the list gives the previous version's record with `fallbackVersion` set to that version, and nothing when the previous version has none |
| Build.ResolveIncompatible | scripts/build.js:64-69 | an explicit `null` gives no record, whatever earlier versions resolved to |
| Build.ResolveFailedFetch | scripts/build.js:89-94 | a pinned entry whose package.json is not served gives no record |
| Build.Origin | scripts/build.js:71-87 | the last version at or before `i` with an entry, with every version after it up to `i` missing; none when all up to `i` are missing |
| Build.ResolveViaOrigin | scripts/build.js:71-87 | a record at `i` is the fetch of the nearest earlier entry, inherited through the cascade and marked with version `i-1`; a `null` there or no entry at all gives none |
| Build.FallBackExample | tests/index.js:111-118 | `test`, pinned at 0.2.0 and missing at 0.3.0, resolves at 0.3.0 to the 0.2.0 record with the same file and `fallbackVersion` 0.2.0 |
| Build.IncompatibleExample | tests/index.js:120-131 | with `null` at 0.3.0, `test` has no 0.3.0 record; the written guard would inherit the 0.2.0 record instead |
| Build.LookupPut | scripts/build.js:91 | storing a record changes that component at that version and nothing else, and keeps the version files |
| Build.PutFrame | scripts/build.js:84 | a step that stores at most one record leaves every other (version, component) pair unchanged |
| Build.Builder.constructor | scripts/build.js:39-42 | one output file per A-Frame version, each with an empty component map |
| Build.Builder.ProcessVersion | scripts/build.js:63-95 | the new output is the old one plus the record the version step yields, if any |
| Build.Builder.ProcessComponent | scripts/build.js:50-61 | after the loop over versions, every version holds the component's resolved record, and every other component is unchanged |
| Build.Builder.BuildAll | scripts/build.js:49-96 | after all components, each version holds for every component exactly its resolved record |
| Build.RunBuild | scripts/build.js:35-96 | the output has exactly the two A-Frame versions as keys; each version's components are the registered ones that resolve there, with their resolved records |
| Metadata.NpmUrl | scripts/metadata.js:52 | the npm link is `https://npmjs.com/package/` followed by the package name |
| Metadata.BuildScriptNpmUrlMissesHost | scripts/build.js:147 | the build script's copy writes `https://npmjs/package/test`, which differs from the intended `https://npmjs.com/package/test` |
| Metadata.AuthorName | scripts/metadata.js:38 | the author name holds no `<` and is trimmed |
| Metadata.AuthorNameOfNameAndMail | scripts/metadata.js:38 | for `name <mail`, with the name trimmed and free of `<`, the author name is exactly the name |
| Metadata.AuthorExample | tests/index.js:253-259 | `Test Test <test@test.com>` has author name `Test Test` |
| Metadata.AuthorExampleTrim | tests/index.js:256 | `Test Test <test@test.com>` is kept whole by the author trim |
| Metadata.LastTwoSegments | scripts/metadata.js:141 | the kept slug is a suffix of the input with at most one `/`; an input without `/` is kept whole |
| Metadata.LastTwoOfPath | scripts/metadata.js:141 | any path ending in `owner/repo` gives `owner/repo` |
| Metadata.StripDotGit | scripts/metadata.js:141 | a trailing `.git` is removed |
| Metadata.NotGitEnding | scripts/metadata.js:141 | a URL whose last character is not `t` is not changed by the `.git` removal |
| Metadata.InferFromUrl | scripts/metadata.js:139-141 | a `{url}` ending in `owner/repo`, with or without `.git`, gives `owner/repo` |
| Metadata.InferFromUrlString | scripts/metadata.js:135-137 | a repository string holding `http` and `github.com` gives the same slug as the `{url}` form |
| Metadata.InferAsWrittenElsewhereAgrees | scripts/metadata.js:127-143 | wherever the written inference does not throw, the corrected one returns the same slug or the same absence |
| Metadata.InferredSlugShape | scripts/metadata.js:127-143 | no repository, or an empty string, gives none; a string without `http` but with `/` is kept whole; any other string gives a slug exactly when it contains `github.com`, and a `{url}` exactly when the url is truthy; such a slug has at most one `/` and ends the input once `.git` is stripped |
| Metadata.InferFromGitUrl | tests/index.js:313-314 | `{url: 'git+https://github.com/aframevr/aframe'}`, with or without `.git`, gives `aframevr/aframe` |
| Metadata.InferFromHttpsUrl | tests/index.js:315 | `{url: 'https://github.com/aframevr/aframe'}` gives `aframevr/aframe` |
| Metadata.InferFromHostPath | tests/index.js:316 | `{url: 'github.com/aframevr/aframe'}` gives `aframevr/aframe` |
| Metadata.InferFromSlugUrl | tests/index.js:317 | `{url: 'aframevr/aframe'}` gives `aframevr/aframe` |
| Metadata.UrlStringsThrowAsWritten | scripts/metadata.js:136-137 | as written, the three GitHub URL strings reach the undeclared `githubUrl` and throw |
| Metadata.InferFromUrlStrings | tests/index.js:322-324 | corrected, the three GitHub URL strings give `aframevr/aframe` |
| Metadata.SlugStringKept | tests/index.js:326 | the string `aframevr/aframe` is kept as the slug |
| Metadata.HostPathStringKeptWhole | scripts/metadata.js:132-134 | the string `github.com/aframevr/aframe` has no `http` but has a `/`, so it is kept whole |
| Metadata.HostPathStringKeptWholeAsWritten | scripts/metadata.js:132-134 | the written inference also keeps `github.com/aframevr/aframe` whole, without throwing |
| Metadata.ParseImgEmptyIffNoMatch | scripts/metadata.js:154-160 | the image is empty exactly when neither pattern matches anywhere in the README |
| Metadata.ParseImgPrecedence | scripts/metadata.js:154-166 | a Markdown match wins; the HTML capture is used only when there is none; the capture is cut at its first space and made absolute |
| Metadata.AbsolutifyMeaning | scripts/metadata.js:166 | a source starting with `http` is kept, and any other is joined to the package root |
| Metadata.NoSpaceKept | scripts/metadata.js:163 | a source without a space is kept whole by the cut |
| Metadata.TitleCut | scripts/metadata.js:162-163 | `/test.png "TEST"` is cut to `/test.png` |
| Metadata.ParseImgOfMarkdownImage | scripts/metadata.js:149-168 | for any README line `pre ![alt](src) post` meeting the stated conditions, the image is `src` cut and made absolute |
| Metadata.ParseImgOfHtmlImage | scripts/metadata.js:148-168 | for any README without `!` holding one `<img src="src"...>` tag meeting the stated conditions, the image is `src` cut and made absolute |
| Metadata.ParseImgMarkdownAbsolute | tests/index.js:331-334 | the Markdown README yields `https://test.com/test.png` |
| Metadata.ParseImgMarkdownRelative | tests/index.js:336-340 | `![test](/test.png)` yields the CDN URL of `test@1.2.3/test.png` |
| Metadata.ParseImgMarkdownWithTitle | tests/index.js:342-346 | `![test](/test.png "TEST")` yields the same URL without the title |
| Metadata.ParseImgHtml | tests/index.js:348-352 | the HTML README yields `https://test.com/test.png` |
| Metadata.BuildRecord | scripts/metadata.js:36-54 | a record is made exactly when the author and the path are present, because `trim` and `path.basename` throw otherwise; it is never marked as a fallback |
| Metadata.BuildRecordFields | scripts/metadata.js:36-54 | the author is trimmed and the author name holds no `<`; the file is the package root without trailing slashes, one `/`, then the path without leading slashes, and nothing else; the filename is the last piece of the path; the image is the registry's own, else the one read from the README; every other field is copied from the fetched data |
| Metadata.RecordFileUnderCdn | scripts/metadata.js:24-41 | the file URL of `dir/name` is `dir/name` under `CDN/npmName@version`, and its filename is `name` |
| Metadata.PackageRootExample | tests/index.js:338 | the package root of `test` at `1.2.3` is `https://unpkg.com/test@1.2.3` |
| Metadata.RecordFileExample | tests/index.js:103-109 | `dist/test.js` of `test@1.2.3` is filed at `https://unpkg.com/test@1.2.3/dist/test.js` |
| Metadata.FilenameExample | scripts/metadata.js:41 | the filename of `dist/test.js` is `test.js` |
| Metadata.AssembleRecord | scripts/metadata.js:29-54 | a record is made only when the GitHub data and the README are both served |
| Metadata.FetchMetadata | scripts/metadata.js:22-58 | a record is made only when package.json is served |
| Metadata.FetchMetadataAsWritten | scripts/metadata.js:22-58 | as written, a record is also made only when package.json is served |
| Metadata.FetchMetadataSucceeds | scripts/metadata.js:22-58 | a record exists exactly when package.json, the GitHub data and the README are served and the author and path are present; it is then the record built from what was served |
| Metadata.NoRepositoryStillRecorded | scripts/fetchers.js:43 | a package without a repository still gets a record, with all GitHub fields missing |
| Metadata.NoRepositoryNoRecordAsWritten | scripts/metadata.js:88 | as written, a package without a repository gets no record |
| Metadata.FetchMetadataAgreesOnSlugs | scripts/metadata.js:84-98 | wherever the written inference gives a non-empty slug, the written and corrected fetches agree |
| ImageRegex.MdMatchAt | scripts/metadata.js:149 | the match found at a start position is a Markdown candidate and the one the pattern prefers: the rightmost `](`, then the first `)`; none exactly when there is no candidate |
| ImageRegex.FirstMdMatch | scripts/metadata.js:154 | the scan stops at the leftmost start where the Markdown pattern matches |
| ImageRegex.MarkdownSource | scripts/metadata.js:149 | no capture exactly when the Markdown pattern has no candidate anywhere |
| ImageRegex.MarkdownSourceIs | scripts/metadata.js:149 | the capture is the text between `](` and `)` of the leftmost, then preferred, candidate |
| ImageRegex.NoBangNoMarkdown | scripts/metadata.js:149 | a README without `!` has no Markdown image |
| ImageRegex.MarkdownSourceOfImage | scripts/metadata.js:149 | one Markdown image on a line, meeting the stated conditions, captures its source |
| ImageRegex.HtmlMatchAtSpec | scripts/metadata.js:148 | the match found at a start position is an HTML candidate with the first `"` and the first `>` after it; none exactly when there is no candidate |
| ImageRegex.FirstHtmlMatch | scripts/metadata.js:157 | the scan stops at the leftmost start where the HTML pattern matches |
| ImageRegex.HtmlSource | scripts/metadata.js:148 | no capture exactly when the HTML pattern has no candidate anywhere |
| ImageRegex.HtmlSourceIs | scripts/metadata.js:148 | the capture is the text between `src="` and the first `"` of the leftmost candidate |
| ImageRegex.HtmlSourceOfImage | scripts/metadata.js:148 | one `<img src="...">` tag, meeting the stated conditions, captures its source |
| Strings.Trim | scripts/metadata.js:37 | the trimmed string is no longer than the input and neither starts nor ends with whitespace |
| Strings.TrimOfPadded | scripts/metadata.js:37 | whitespace padding on both sides is removed and the core kept exactly |
| Strings.TrimIdempotent | scripts/metadata.js:37 | trimming twice equals trimming once |
| Strings.Basename | scripts/metadata.js:41 | the base name holds no `/` and, once trailing slashes are dropped, is either the whole path or exactly what follows its last `/` |
| Strings.BasenameOfName | scripts/metadata.js:41 | a path without `/` is its own base name |
| Strings.BasenameTrailingSlash | scripts/metadata.js:41 | a trailing `/` does not change the base name |
| Strings.UrlJoinShape | scripts/metadata.js:40 | the joined URL is the base without trailing slashes, one `/`, then the part without leading slashes |
| Strings.UrlJoinInjective | scripts/fetchers.js:74 | one root joined with two different file names gives two different URLs |
| Fetchers.ReadmeUrlsShape | scripts/fetchers.js:68-70 | there are seven README URLs; they are pairwise distinct, and none is a package.json key |
| Fetchers.FirstCachedSpec | scripts/fetchers.js:73-76 | the cache scan returns the first README URL in the cache, or none when none is cached |
| Fetchers.FirstServedSpec | scripts/fetchers.js:81-99 | the retry chain stops at the first README URL the CDN serves, or at none |
| Fetchers.StoredReadmeFoundFirst | scripts/fetchers.js:73-76 | after a README is stored on a miss, the next scan finds it, and the cache stays well keyed |
| Fetchers.StoredNpmFound | scripts/fetchers.js:19-25 | after package.json is stored, the next npm lookup returns it and no README scan finds it |
| Fetchers.Fetcher.constructor | scripts/fetchers.js:5 | the fetcher starts from the given cache, with nothing requested |
| Fetchers.Fetcher.FetchNpm | scripts/fetchers.js:14-32 | a cached body is returned with no request; otherwise package.json is requested and, when served, stored under its URL and nowhere else |
| Fetchers.Fetcher.FetchGithub | scripts/fetchers.js:40-61 | a missing or empty slug gives `{}` with no request; otherwise the repository URL is requested once and its answer returned; the cache is untouched |
| Fetchers.Fetcher.ScanCache | scripts/fetchers.js:73-76 | the first cached URL of the list, with none before it cached, or none at all |
| Fetchers.Fetcher.RequestInTurn | scripts/fetchers.js:81-104 | URLs are requested in order up to and including the first one served, or all of them |
| Fetchers.Fetcher.FetchFirst | scripts/fetchers.js:72-104 | a cache hit is returned with no request; else the first served README is returned and stored with the requests made; else nothing is returned or stored |
| Fetchers.Fetcher.FetchReadme | scripts/fetchers.js:67-105 | the same over the seven README URLs of the package root |

## Left out

- Shader entries are not modelled. The tests expect a `shaders` map per
  version (tests/index.js:94-101), but scripts/build.js builds only
  `components`.
- Persistence of the fetchers' cache (`scripts/cache.js`), the
  configuration (`scripts/config.js`), the standalone
  `scripts/fetchMetadata.js`, and the site generator (`scripts/site.js`,
  `site/generate.js`) are not part of this model.
- Reading `registry.yml` and writing `build/<version>.json`
  (scripts/build.js:44-46, 99-108) are I/O. The registry is a parameter of
  `Build.RunBuild`, and the output map is its result.
- HTTP requests are a `Network` value of three total functions. A failed
  request is `None`. The GitHub access token (`addToken`) is left out, and
  GitHub answers are keyed by the URL before the token is added.
- Promises and concurrency: the versions of one component run in list
  order, and components run one after the other in any order. A promise
  that never settles, because an error is only logged, is modelled as
  "no record". The real build then never reaches its write step.
- Logging (`console.log`, `console.error`) is not modelled.
- The `githubCreatedPretty` and `githubUpdatedPretty` fields (`moment` date
  formatting) are not modelled.
- The README excerpt of the build script's own resolver is not modelled.
- `Metadata.AuthorName`: an `author` given as an object rather than a string
  is not modelled separately; it is treated as absent, which gives no record
  because `trim` would throw on it.
- The `image` argument of `fetchReadme` (scripts/metadata.js:108) is unused
  by the source and is dropped.
- `deepExtend` (scripts/build.js:83) is a value copy of the record. Aliasing
  cannot arise because records are values.
- The build uses `Metadata.FetchMetadata`, the resolver with its findings
  corrected. The copy of the resolver inside scripts/build.js (lines
  110-265) is the same code. Its differences are the findings below and
  `Metadata.BuildScriptNpmUrlMissesHost`. Its uncached fetchers are the
  network itself.
- `Strings.UrlJoin` models `url-join` for two pieces only: trailing slashes
  of the base and leading slashes of the part collapse to one `/`. The
  package's protocol and query-string handling is not modelled.
  `Sources.RepoInfoUrl` joins its three pieces pairwise.
- `Strings.Basename` models POSIX `path.basename` without an extension
  argument.
- `ImageRegex`: the two regular expressions are modelled by scanners proved
  against declarative match predicates, not by a general regex engine.
  `.` excludes the line terminators `\n`, `\r`, U+2028 and U+2029.
- `Fetchers.Fetcher`: the cache tests truthiness of the cached value, and
  the model tests presence of the key. These agree because every stored
  value is an object.
- `Sources.Truthy` covers strings only. A numeric or boolean repository
  field is not modelled.

## Findings

| source | as written | input that shows it | evidently intended | confidence | as-written member | corrected member |
|---|---|---|---|---|---|---|
| scripts/build.js:65-66 | the incompatibility guard asks for an entry that is truthy and `null` at once, so it never fires and a `null` entry falls back to the previous version | `{'0.2.0': {...}, '0.3.0': null}`: 0.3.0 inherits the 0.2.0 record | an explicit `null` leaves the component out of that version | high, not executed | Build.StepAsWrittenDiffersOnNull | Build.ResolveIncompatible |
| scripts/metadata.js:137 | the `github.com` branch reads `githubUrl`, which is never declared, so it throws a ReferenceError (the same at scripts/build.js:233) | repository string `'https://github.com/aframevr/aframe'` | the slug of the repository string itself, `aframevr/aframe` | high, not executed | Metadata.UrlStringsThrowAsWritten | Metadata.InferFromUrlStrings |
| scripts/metadata.js:88 | `new Promise.resolve({})` throws, because `Promise.resolve` is not a constructor, so a package without a repository gets no record (the same at scripts/build.js:184) | a package.json with no `repository` field | `Promise.resolve({})`: empty GitHub data and a record | high, not executed | Metadata.NoRepositoryNoRecordAsWritten | Metadata.NoRepositoryStillRecorded |
| scripts/build.js:147 | the npm link is built on `https://npmjs/package/`, which has no `.com` | package `test` gets `https://npmjs/package/test` | `https://npmjs.com/package/test` | high, not executed | Metadata.BuildScriptNpmUrlMissesHost | Metadata.NpmUrl |

The code and its test file also disagree in one place. The test at
tests/index.js:325 expects the repository string `github.com/aframevr/aframe`
to give `aframevr/aframe`. The code's slug branch (scripts/metadata.js:132-134)
returns that string whole, because it holds a `/` but no `http`. The model
follows the code (`Metadata.HostPathStringKeptWhole`). The tests also expect
an `npmName` field (tests/index.js:275-280), which the record does not
have. The model follows the code here too.
