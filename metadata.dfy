/**
 * The metadata resolver: how one pinned registry entry becomes a flat
 * metadata record, from the package.json, GitHub and README data fetched
 * for it.
 */
module Metadata {
  import opened Wrappers
  import opened Strings
  import opened Sources
  import opened ImageRegex

  /** One pinned entry of a component's `versions` map. */
  datatype VersionEntry = VersionEntry(version: string, path: Option<string>, image: Option<string>)

  /** A component declaration of the registry: its display `name` and, per
      A-Frame version, a pinned entry (Some) or an explicit `null` (None). */
  datatype ModuleDecl = ModuleDecl(name: Option<string>, versions: map<string, Option<VersionEntry>>)

  /** The record stored for one component at one A-Frame version.
      `fallbackVersion` is set only on records inherited from an earlier version. */
  datatype Record = Record(
    author: string,
    authorName: string,
    description: Option<string>,
    file: string,
    filename: string,
    githubCreated: Option<string>,
    githubUpdated: Option<string>,
    githubUrl: Option<string>,
    githubStars: Option<int>,
    image: string,
    license: Option<string>,
    name: Option<string>,
    npmUrl: string,
    readmeUrl: string,
    fallbackVersion: Option<string>)

  // ---------------------------------------------------------------------------
  // URLs

  /** The CDN directory of one published package version. */
  function PackageRoot(npmName: string, version: string): string {
    UrlJoin(Cdn, npmName + "@" + version)
  }

  const NpmPackageBase := "https://npmjs.com/package/"

  /** The npm page of a package. */
  function NpmUrl(npmName: string): (r: string)
    ensures (npmName == [] || npmName[0] != '/') ==> r == NpmPackageBase + npmName
  {
    UrlJoin(NpmPackageBase, npmName)
  }

  /** The npm page as the build script's own copy of the resolver writes it. */
  function BuildScriptNpmUrl(npmName: string): string {
    UrlJoin("https://npmjs/package/", npmName)
  }

  /** The build script's base URL has no `.com`, so its npm links miss the
      npm host: for the package `test` it gives `https://npmjs/package/test`. */
  lemma BuildScriptNpmUrlMissesHost()
    ensures BuildScriptNpmUrl("test") == "https://npmjs/package/test"
    ensures NpmUrl("test") == "https://npmjs.com/package/test"
    ensures BuildScriptNpmUrl("test") != NpmUrl("test")
  {
    UrlJoinShape("https://npmjs/package/", "test");
  }

  // ---------------------------------------------------------------------------
  // Author

  /** `author.split('<')[0].trim()`: the name in front of an e-mail address. */
  function AuthorName(author: string): (r: string)
    ensures '<' !in r
    ensures r == [] || (!IsWhitespace(r[0]) && !IsWhitespace(r[|r| - 1]))
  {
    TrimAddsNothing(Before(author, '<'), '<');
    Trim(Before(author, '<'))
  }

  /** `Name <mail>` splits into the author string as given and the bare name. */
  lemma AuthorNameOfNameAndMail(name: string, mail: string)
    requires '<' !in name
    requires name == [] || (!IsWhitespace(name[0]) && !IsWhitespace(name[|name| - 1]))
    ensures AuthorName(name + " <" + mail) == name
  {
    var s := name + " <" + mail;
    forall i | 0 <= i < |name| + 1 ensures s[i] != '<' {
      if i < |name| {
        assert s[i] == name[i];
        assert name[i] in name;
      }
    }
    BeforeUpTo(s, '<', |name| + 1);
    assert s[..|name| + 1] == [] + name + " ";
    TrimOfPadded([], name, " ");
  }

  /** The author of the package used in the registry's tests: the author
      string is kept whole and the name is what stands before the address. */
  lemma AuthorExample()
    ensures AuthorName("Test Test <test@test.com>") == "Test Test"
  {
    assert "Test Test <test@test.com>" == "Test Test" + " <" + "test@test.com>";
    AuthorNameOfNameAndMail("Test Test", "test@test.com>");
  }

  lemma AuthorExampleTrim()
    ensures Trim("Test Test <test@test.com>") == "Test Test <test@test.com>"
  {
    assert "Test Test <test@test.com>" == [] + "Test Test <test@test.com>" + [];
    TrimOfPadded([], "Test Test <test@test.com>", []);
  }

  // ---------------------------------------------------------------------------
  // GitHub repository slug

  /** `u.replace(/.git$/, '')`: one character other than a line terminator,
      then `git`, at the very end, is removed. */
  function StripGitSuffix(u: string): string {
    if |u| >= 4 && u[|u| - 3..] == "git" && !IsLineTerminator(u[|u| - 4]) then u[..|u| - 4] else u
  }

  predicate AtMostOneSlash(s: string) {
    forall i, j :: 0 <= i < j < |s| && s[i] == '/' ==> s[j] != '/'
  }

  lemma NoSlash(s: string)
    requires '/' !in s
    ensures AtMostOneSlash(s)
  {
    forall i | 0 <= i < |s| ensures s[i] != '/' {
      assert s[i] in s;
    }
  }

  lemma OneSlash(x: string, y: string)
    requires '/' !in x && '/' !in y
    ensures AtMostOneSlash(x + "/" + y)
  {
    var s := x + "/" + y;
    forall k | 0 <= k < |x| ensures s[k] != '/' {
      assert s[k] == x[k] && x[k] in x;
    }
    forall k | |x| < k < |s| ensures s[k] != '/' {
      assert s[k] == y[k - |x| - 1] && y[k - |x| - 1] in y;
    }
  }

  /** `s.split('/').slice(-2).join('/')`: the last two `/`-separated pieces. */
  function LastTwoSegments(s: string): (r: string)
    ensures IsSuffix(r, s)
    ensures AtMostOneSlash(r)
    ensures '/' !in s ==> r == s
  {
    SplitWithoutSep(s, '/');
    var parts := Split(s, '/');
    var k := if |parts| >= 2 then |parts| - 2 else 0;
    JoinTailIsSuffix(parts, '/', k);
    var kept := parts[k..];
    assert |kept| == 1 || |kept| == 2;
    assert '/' !in kept[0] && '/' !in kept[|kept| - 1];
    var r := Join(kept, '/');
    assert |kept| == 2 ==> r == kept[0] + "/" + kept[1] by {
      if |kept| == 2 {
        assert kept[1..] == [kept[1]];
        assert Join(kept[1..], '/') == kept[1];
        assert r == kept[0] + ['/'] + Join(kept[1..], '/');
      }
    }
    if |kept| == 2 then
      OneSlash(kept[0], kept[1]);
      r
    else
      NoSlash(r);
      r
  }

  /** The slug of any path that ends in `owner/repo` is `owner/repo`. */
  lemma LastTwoOfPath(prefix: string, owner: string, repo: string)
    requires '/' !in owner && '/' !in repo
    ensures LastTwoSegments(prefix + "/" + owner + "/" + repo) == owner + "/" + repo
    ensures LastTwoSegments(owner + "/" + repo) == owner + "/" + repo
  {
    SplitJoin([owner], '/');
    SplitJoin([repo], '/');
    SplitConcat(owner, repo, '/');
    assert owner + "/" + repo == owner + ['/'] + repo;
    var tail := Split(owner + "/" + repo, '/');
    assert tail == [owner, repo];
    assert Join([owner, repo], '/') == owner + "/" + repo by {
      assert [owner, repo][1..] == [repo];
    }
    assert prefix + "/" + owner + "/" + repo == prefix + ['/'] + (owner + "/" + repo);
    SplitConcat(prefix, owner + "/" + repo, '/');
    var all := Split(prefix, '/') + tail;
    assert all[|all| - 2..] == [owner, repo];
  }

  /** `url.replace(/.git$/, '').split('/').slice(-2).join('/')`. */
  function SlugFromUrl(u: string): string {
    LastTwoSegments(StripGitSuffix(u))
  }

  /** What the repository inference of the source returns, or that it throws. */
  datatype Inferred = Slug(slug: string) | NoSlug | ThrowsReferenceError

  /** `inferGithubRepository` as written: its `github.com` branch reads a
      variable `githubUrl` that is never declared, so it throws. */
  function InferGithubRepositoryAsWritten(repository: Repository): Inferred {
    match repository
    case NoRepository => NoSlug
    case RepoString(s) =>
      if s == "" then NoSlug
      else if !Contains(s, "http") && Contains(s, "/") then Slug(s)
      else if Contains(s, "github.com") then ThrowsReferenceError
      else NoSlug
    case RepoObject(url) =>
      if Truthy(url) then Slug(SlugFromUrl(url.value)) else NoSlug
  }

  /** `inferGithubRepository` with the `github.com` branch reading the
      repository string itself, as the URL branch does. */
  function InferGithubRepository(repository: Repository): Option<string> {
    match repository
    case NoRepository => None
    case RepoString(s) =>
      if s == "" then None
      else if !Contains(s, "http") && Contains(s, "/") then Some(s)
      else if Contains(s, "github.com") then Some(SlugFromUrl(s))
      else None
    case RepoObject(url) =>
      if Truthy(url) then Some(SlugFromUrl(url.value)) else None
  }

  /** A repository string holding both `http` and `github.com` is read as a
      URL: its slug is what the `{url: ...}` form gives. */
  lemma InferFromUrlString(s: string)
    requires Contains(s, "http") && Contains(s, "github.com")
    ensures InferGithubRepository(RepoString(s)) == Some(SlugFromUrl(s))
    ensures InferGithubRepository(RepoString(s)) == InferGithubRepository(RepoObject(Some(s)))
  {
    assert s != "" by {
      assert OccursAt(s, "http", IndexOf(s, "http"));
    }
  }

  /** Elsewhere the two agree: the only difference is the branch that throws. */
  lemma InferAsWrittenElsewhereAgrees(repository: Repository)
    requires InferGithubRepositoryAsWritten(repository) != ThrowsReferenceError
    ensures InferGithubRepository(repository) ==
      (match InferGithubRepositoryAsWritten(repository)
       case Slug(s) => Some(s)
       case _ => None)
  {
  }

  /** A falsy repository field gives no slug; a string without `http` but
      with a `/` is taken as the slug unchanged; any other string gives a
      slug exactly when it names `github.com`, and a `{url}` exactly when the
      url is truthy. Such a slug keeps at most one `/` and ends what it came
      from once the `.git` ending is stripped. */
  lemma InferredSlugShape(repository: Repository)
    ensures (repository.NoRepository? || repository == RepoString("")) ==> InferGithubRepository(repository).None?
    ensures repository.RepoString? && !Contains(repository.text, "http") && Contains(repository.text, "/") ==>
      InferGithubRepository(repository) == Some(repository.text)
    ensures repository.RepoObject? && InferGithubRepository(repository).Some? ==>
      AtMostOneSlash(InferGithubRepository(repository).value)
    ensures repository.RepoObject? ==> (InferGithubRepository(repository).Some? <==> Truthy(repository.url))
    ensures repository.RepoObject? && InferGithubRepository(repository).Some? ==>
      IsSuffix(InferGithubRepository(repository).value, StripGitSuffix(repository.url.value))
    ensures (repository.RepoString? && repository.text != "" &&
             (Contains(repository.text, "http") || !Contains(repository.text, "/"))) ==>
      && (InferGithubRepository(repository).Some? <==> Contains(repository.text, "github.com"))
      && (InferGithubRepository(repository).Some? ==>
            && AtMostOneSlash(InferGithubRepository(repository).value)
            && IsSuffix(InferGithubRepository(repository).value, StripGitSuffix(repository.text)))
  {
  }

  /** A trailing `.git` is what the replacement removes. */
  lemma StripDotGit(u: string)
    ensures StripGitSuffix(u + ".git") == u
  {
    var v := u + ".git";
    assert v[|v| - 3..] == "git";
    assert v[|v| - 4] == '.';
    assert v[..|v| - 4] == u;
  }

  /** A URL whose last character is not `t` has no `.git` to remove. */
  lemma NotGitEnding(u: string)
    requires u != [] && u[|u| - 1] != 't'
    ensures StripGitSuffix(u) == u
  {
    if |u| >= 4 {
      assert u[|u| - 3..][2] == u[|u| - 1];
    }
  }

  /** A URL ending in `owner/repo`, with or without `.git`, gives the slug
      `owner/repo`. */
  lemma InferFromUrl(prefix: string, owner: string, repo: string)
    requires '/' !in owner && '/' !in repo && repo != []
    requires StripGitSuffix(prefix + "/" + owner + "/" + repo) == prefix + "/" + owner + "/" + repo
    ensures InferGithubRepository(RepoObject(Some(prefix + "/" + owner + "/" + repo + ".git"))) == Some(owner + "/" + repo)
    ensures InferGithubRepository(RepoObject(Some(prefix + "/" + owner + "/" + repo))) == Some(owner + "/" + repo)
    ensures SlugFromUrl(prefix + "/" + owner + "/" + repo) == owner + "/" + repo
  {
    var u := prefix + "/" + owner + "/" + repo;
    StripDotGit(u);
    LastTwoOfPath(prefix, owner, repo);
    assert SlugFromUrl(u) == owner + "/" + repo;
    assert Truthy(Some(u)) && Truthy(Some(u + ".git"));
  }

  // The repository shapes of the registry's tests, all naming aframevr/aframe.

  const TestOwner := "aframevr"
  const TestRepo := "aframe"
  /** `aframevr/aframe` */
  const TestSlug := TestOwner + "/" + TestRepo
  const GithubHost := "github.com"
  /** `https://github.com` */
  const HttpsGithub := "https://" + GithubHost
  /** `git+https://github.com` */
  const GitPlus := "git+"
  const GitHttpsGithub := GitPlus + HttpsGithub
  /** `https://github.com/aframevr/aframe` */
  const GithubUrlString := HttpsGithub + "/" + TestSlug
  /** `github.com/aframevr/aframe` */
  const HostPathString := GithubHost + "/" + TestSlug

  /** Any URL ending in `/aframevr/aframe`, with or without `.git`, gives the
      slug `aframevr/aframe`. */
  lemma SlugOfTestPath(prefix: string)
    ensures SlugFromUrl(prefix + "/" + TestSlug) == TestSlug
    ensures InferGithubRepository(RepoObject(Some(prefix + "/" + TestSlug))) == Some(TestSlug)
    ensures InferGithubRepository(RepoObject(Some(prefix + "/" + TestSlug + ".git"))) == Some(TestSlug)
  {
    assert '/' !in TestOwner && '/' !in TestRepo && TestRepo[|TestRepo| - 1] == 'e';
    var u := prefix + "/" + TestOwner + "/" + TestRepo;
    assert prefix + "/" + TestSlug == u;
    NotGitEnding(u);
    InferFromUrl(prefix, TestOwner, TestRepo);
  }

  /** The `{url: ...}` forms of the registry's tests give `aframevr/aframe`. */
  lemma InferFromGitUrl()
    ensures InferGithubRepository(RepoObject(Some(GitHttpsGithub + "/" + TestSlug + ".git"))) == Some(TestSlug)
    ensures InferGithubRepository(RepoObject(Some(GitHttpsGithub + "/" + TestSlug))) == Some(TestSlug)
  {
    SlugOfTestPath(GitHttpsGithub);
  }

  lemma InferFromHttpsUrl()
    ensures InferGithubRepository(RepoObject(Some(GithubUrlString))) == Some(TestSlug)
  {
    SlugOfTestPath(HttpsGithub);
  }

  lemma InferFromHostPath()
    ensures InferGithubRepository(RepoObject(Some(HostPathString))) == Some(TestSlug)
  {
    SlugOfTestPath(GithubHost);
  }

  lemma InferFromSlugUrl()
    ensures InferGithubRepository(RepoObject(Some(TestSlug))) == Some(TestSlug)
  {
    assert '/' !in TestOwner && '/' !in TestRepo && TestRepo[|TestRepo| - 1] == 'e';
    NotGitEnding(TestSlug);
    LastTwoOfPath("", TestOwner, TestRepo);
  }

  /** Both GitHub URL prefixes hold `http` and `github.com`. */
  lemma HttpsGithubContains()
    ensures Contains(HttpsGithub, "http") && Contains(HttpsGithub, "github.com")
  {
    assert HttpsGithub == "" + "http" + ("s://" + GithubHost);
    OccursAfter("", "http", "s://" + GithubHost);
    assert HttpsGithub == "https://" + GithubHost + "";
    OccursAfter("https://", GithubHost, "");
  }

  lemma GitHttpsGithubContains()
    ensures Contains(GitHttpsGithub, "http") && Contains(GitHttpsGithub, "github.com")
  {
    var rest := "s://" + GithubHost;
    assert GitHttpsGithub == GitPlus + "http" + rest;
    OccursAfter(GitPlus, "http", rest);
    var front := GitPlus + "https://";
    assert GitHttpsGithub == front + GithubHost + "";
    OccursAfter(front, GithubHost, "");
  }

  /** A repository string made of a prefix holding `http` and `github.com`,
      then `/aframevr/aframe`, with or without `.git`, throws as written,
      and the corrected inference reads it as a URL and gives
      `aframevr/aframe`. */
  lemma UrlStringForm(prefix: string)
    requires Contains(prefix, "http") && Contains(prefix, "github.com")
    ensures InferGithubRepositoryAsWritten(RepoString(prefix + "/" + TestSlug)) == ThrowsReferenceError
    ensures InferGithubRepository(RepoString(prefix + "/" + TestSlug)) == Some(TestSlug)
    ensures InferGithubRepositoryAsWritten(RepoString(prefix + "/" + TestSlug + ".git")) == ThrowsReferenceError
    ensures InferGithubRepository(RepoString(prefix + "/" + TestSlug + ".git")) == Some(TestSlug)
  {
    var u := prefix + "/" + TestSlug;
    ContainsExtended(prefix, "/" + TestSlug, "http");
    ContainsExtended(prefix, "/" + TestSlug, "github.com");
    assert u == prefix + ("/" + TestSlug);
    ContainsExtended(prefix, "/" + TestSlug + ".git", "http");
    ContainsExtended(prefix, "/" + TestSlug + ".git", "github.com");
    assert u + ".git" == prefix + ("/" + TestSlug + ".git");
    InferFromUrlString(u);
    InferFromUrlString(u + ".git");
    SlugOfTestPath(prefix);
  }

  /** The URL forms of the registry's tests, given as plain strings:
      `git+https://github.com/aframevr/aframe.git`,
      `git+https://github.com/aframevr/aframe` and
      `https://github.com/aframevr/aframe`. As written each of them throws;
      the corrected inference gives `aframevr/aframe`. */
  lemma UrlStringsThrowAsWritten()
    ensures InferGithubRepositoryAsWritten(RepoString(GitHttpsGithub + "/" + TestSlug + ".git")) == ThrowsReferenceError
    ensures InferGithubRepositoryAsWritten(RepoString(GitHttpsGithub + "/" + TestSlug)) == ThrowsReferenceError
    ensures InferGithubRepositoryAsWritten(RepoString(GithubUrlString)) == ThrowsReferenceError
  {
    HttpsGithubContains();
    GitHttpsGithubContains();
    UrlStringForm(GitHttpsGithub);
    UrlStringForm(HttpsGithub);
  }

  lemma InferFromUrlStrings()
    ensures InferGithubRepository(RepoString(GitHttpsGithub + "/" + TestSlug + ".git")) == Some(TestSlug)
    ensures InferGithubRepository(RepoString(GitHttpsGithub + "/" + TestSlug)) == Some(TestSlug)
    ensures InferGithubRepository(RepoString(GithubUrlString)) == Some(TestSlug)
  {
    HttpsGithubContains();
    GitHttpsGithubContains();
    UrlStringForm(GitHttpsGithub);
    UrlStringForm(HttpsGithub);
  }

  /** The string form `aframevr/aframe` is taken as the slug unchanged. */
  lemma SlugStringKept()
    ensures InferGithubRepository(RepoString(TestSlug)) == Some(TestSlug)
  {
    assert 'p' !in TestSlug;
    MissingCharNotContained(TestSlug, "http", 'p');
    OccursAfter(TestOwner, "/", TestRepo);
  }

  /** The string form `github.com/aframevr/aframe` has no `http` and has a
      `/`, so it is taken for a slug and kept whole, where the registry's
      tests expect `aframevr/aframe`. */
  lemma HostPathStringKeptWhole()
    ensures InferGithubRepository(RepoString(HostPathString)) == Some(HostPathString)
  {
    HostPathStringIsSlugShaped();
  }

  /** The code as written does the same. */
  lemma HostPathStringKeptWholeAsWritten()
    ensures InferGithubRepositoryAsWritten(RepoString(HostPathString)) == Slug(HostPathString)
  {
    HostPathStringIsSlugShaped();
  }

  lemma HostPathStringIsSlugShaped()
    ensures !Contains(HostPathString, "http") && Contains(HostPathString, "/")
  {
    assert 'p' !in HostPathString;
    MissingCharNotContained(HostPathString, "http", 'p');
    OccursAfter(GithubHost, "/", TestSlug);
  }

  // ---------------------------------------------------------------------------
  // README image

  /** The image source the README yields: the Markdown pattern's capture, or
      else the HTML pattern's. */
  function ImageSource(text: string): Option<string> {
    match MarkdownSource(text)
    case Some(src) => Some(src)
    case None => HtmlSource(text)
  }

  /** A source not starting with `http` is taken relative to the package root. */
  function Absolutify(image: string, packageRoot: string): string {
    if IndexOf(image, "http") != 0 then UrlJoin(packageRoot, image) else image
  }

  /** `parseImgFromText`. */
  function ParseImgFromText(text: string, packageRoot: string): string {
    match ImageSource(text)
    case None => ""
    case Some(src) => Absolutify(Before(src, ' '), packageRoot)
  }

  /** The result is empty exactly when neither pattern matches anywhere. */
  lemma ParseImgEmptyIffNoMatch(text: string, packageRoot: string)
    ensures ParseImgFromText(text, packageRoot) == "" <==>
      (forall s: nat, j: nat, k: nat :: s <= |text| ==> !MdCandidate(text, s, j, k)) &&
      (forall s: nat, p: nat, q: nat, k: nat, m: nat :: s <= |text| ==> !HtmlCandidate(text, s, p, q, k, m))
  {
    match ImageSource(text)
    case None =>
    case Some(src) =>
      var image := Before(src, ' ');
      if IndexOf(image, "http") != 0 {
        UrlJoinShape(packageRoot, image);
      } else {
        assert OccursAt(image, "http", 0);
      }
  }

  /** A Markdown image wins over an HTML one; the HTML pattern is consulted
      only when the Markdown one finds nothing. Either way the source is cut
      at its first space and made absolute unless it starts with `http`. */
  lemma ParseImgPrecedence(text: string, packageRoot: string)
    ensures MarkdownSource(text).Some? ==>
      ParseImgFromText(text, packageRoot) == Absolutify(Before(MarkdownSource(text).value, ' '), packageRoot)
    ensures MarkdownSource(text).None? && HtmlSource(text).Some? ==>
      ParseImgFromText(text, packageRoot) == Absolutify(Before(HtmlSource(text).value, ' '), packageRoot)
  {
  }

  /** The cut source is kept as it is when it starts with `http` and is
      otherwise joined to the package root. */
  lemma AbsolutifyMeaning(image: string, packageRoot: string)
    ensures IsPrefix("http", image) ==> Absolutify(image, packageRoot) == image
    ensures !IsPrefix("http", image) ==> Absolutify(image, packageRoot) == UrlJoin(packageRoot, image)
  {
    IndexOfZeroIffPrefix(image, "http");
  }

  /** A source without a space is kept whole by the cut. */
  lemma NoSpaceKept(src: string)
    requires ' ' !in src
    ensures Before(src, ' ') == src
  {
    BeforeUpTo(src, ' ', |src|);
    assert src[..|src|] == src;
  }

  /** The image of a README line holding one Markdown image. */
  lemma ParseImgOfMarkdownImage(pre: string, alt: string, src: string, post: string, packageRoot: string)
    requires '!' !in pre && ']' !in alt && ']' !in src && ']' !in post && ')' !in src
    requires forall i :: 0 <= i < |alt| ==> !IsLineTerminator(alt[i])
    requires forall i :: 0 <= i < |src| ==> !IsLineTerminator(src[i])
    ensures ParseImgFromText(pre + "![" + alt + "](" + src + ")" + post, packageRoot) == Absolutify(Before(src, ' '), packageRoot)
  {
    MarkdownSourceOfImage(pre, alt, src, post);
  }

  /** The image of a README holding no `!` and one HTML image. */
  lemma ParseImgOfHtmlImage(pre: string, w1: string, w2: string, src: string, mid: string, post: string, packageRoot: string)
    requires '!' !in HtmlImageText(pre, w1, w2, src, mid, post)
    requires '<' !in pre && '"' !in src
    requires AllWhitespace(w1) && AllWhitespace(w2)
    requires forall i :: 0 <= i < |src| ==> !IsLineTerminator(src[i])
    requires forall i :: 0 <= i < |mid| ==> !IsLineTerminator(mid[i])
    ensures ParseImgFromText(HtmlImageText(pre, w1, w2, src, mid, post), packageRoot) == Absolutify(Before(src, ' '), packageRoot)
  {
    NoBangNoMarkdown(HtmlImageText(pre, w1, w2, src, mid, post));
    HtmlSourceOfImage(pre, w1, w2, src, mid, post);
  }

  // The README texts of the registry's image tests.

  const TestImageUrl := "https://test.com/test.png"

  /** `test test \n ![test](https://test.com/test.png) \n test.` */
  const MarkdownReadme := "test test \n " + "![" + "test" + "](" + TestImageUrl + ")" + " \n test."

  /** A relative image source, and the same source followed by a title. */
  const RelativeImageName := "test.png"
  const RelativeImage := "/" + RelativeImageName
  const TitledImage := RelativeImage + " \"TEST\""

  /** `test test \n ![test](/test.png) \n test.` */
  const RelativeReadme := "test test \n " + "![" + "test" + "](" + RelativeImage + ")" + " \n test."

  /** `test test \n ![test](/test.png "TEST") \n test.` */
  const TitledReadme := "test test \n " + "![" + "test" + "](" + TitledImage + ")" + " \n test."

  /** `test test \n <img src="https://test.com/test.png" data=""> \n test.` */
  const HtmlReadme := HtmlImageText("test test \n ", "", " ", TestImageUrl, " data=\"\"", " \n test.")

  lemma TestImageUrlKept(packageRoot: string)
    ensures Absolutify(Before(TestImageUrl, ' '), packageRoot) == TestImageUrl
  {
    NoSpaceKept(TestImageUrl);
    TestImageUrlAbsolute(packageRoot);
  }

  lemma TestImageUrlAbsolute(packageRoot: string)
    ensures Absolutify(TestImageUrl, packageRoot) == TestImageUrl
  {
    assert TestImageUrl[..4] == "http";
    AbsolutifyMeaning(TestImageUrl, packageRoot);
  }

  lemma RelativeImageJoined(packageRoot: string)
    ensures Absolutify(RelativeImage, packageRoot) == UrlJoin(packageRoot, RelativeImageName)
  {
    assert RelativeImage[0] == '/';
    AbsolutifyMeaning(RelativeImage, packageRoot);
    UrlJoinLeadingSlash(packageRoot, RelativeImageName);
  }

  lemma RelativeImageUnderRoot()
    ensures Absolutify(RelativeImage, PackageRoot("test", "1.2.3")) == TestPackageRoot + RelativeImage
  {
    PackageRootExample();
    RelativeImageJoined(TestPackageRoot);
    JoinUnderTestRoot(RelativeImageName);
  }

  lemma MarkdownReadmeSource(packageRoot: string)
    ensures ParseImgFromText(MarkdownReadme, packageRoot) == Absolutify(Before(TestImageUrl, ' '), packageRoot)
  {
    ParseImgOfMarkdownImage("test test \n ", "test", TestImageUrl, " \n test.", packageRoot);
  }

  /** An absolute Markdown image comes out as it is, whatever the root. */
  lemma ParseImgMarkdownAbsolute(packageRoot: string)
    ensures ParseImgFromText(MarkdownReadme, packageRoot) == TestImageUrl
  {
    MarkdownReadmeSource(packageRoot);
    TestImageUrlKept(packageRoot);
  }

  lemma RelativeReadmeSource(packageRoot: string)
    ensures ParseImgFromText(RelativeReadme, packageRoot) == Absolutify(Before(RelativeImage, ' '), packageRoot)
  {
    ParseImgOfMarkdownImage("test test \n ", "test", RelativeImage, " \n test.", packageRoot);
  }

  /** A relative Markdown image is placed under the package root. */
  lemma ParseImgMarkdownRelative()
    ensures ParseImgFromText(RelativeReadme, PackageRoot("test", "1.2.3")) == TestPackageRoot + RelativeImage
  {
    var root := PackageRoot("test", "1.2.3");
    RelativeReadmeSource(root);
    RelativeImageUncut(root);
    RelativeImageUnderRoot();
  }

  lemma RelativeImageUncut(packageRoot: string)
    ensures Absolutify(Before(RelativeImage, ' '), packageRoot) == Absolutify(RelativeImage, packageRoot)
  {
    NoSpaceKept(RelativeImage);
  }

  lemma TitledReadmeSource(packageRoot: string)
    ensures ParseImgFromText(TitledReadme, packageRoot) == Absolutify(Before(TitledImage, ' '), packageRoot)
  {
    ParseImgOfMarkdownImage("test test \n ", "test", TitledImage, " \n test.", packageRoot);
  }

  lemma TitleCut()
    ensures Before(TitledImage, ' ') == RelativeImage
  {
    assert TitledImage[..9] == RelativeImage && TitledImage[9] == ' ';
    BeforeUpTo(TitledImage, ' ', 9);
  }

  /** A title after the source is cut off at the space. */
  lemma ParseImgMarkdownWithTitle()
    ensures ParseImgFromText(TitledReadme, PackageRoot("test", "1.2.3")) == TestPackageRoot + RelativeImage
  {
    var root := PackageRoot("test", "1.2.3");
    TitledReadmeSource(root);
    TitleCut();
    RelativeImageUnderRoot();
  }

  lemma HtmlReadmeHasNoBang()
    ensures '!' !in HtmlReadme
  {
  }

  lemma HtmlReadmeSource(packageRoot: string)
    ensures ParseImgFromText(HtmlReadme, packageRoot) == Absolutify(Before(TestImageUrl, ' '), packageRoot)
  {
    HtmlReadmeHasNoBang();
    ParseImgOfHtmlImage("test test \n ", "", " ", TestImageUrl, " data=\"\"", " \n test.", packageRoot);
  }

  /** Without a Markdown image the HTML `<img src="...">` is used. */
  lemma ParseImgHtml(packageRoot: string)
    ensures ParseImgFromText(HtmlReadme, packageRoot) == TestImageUrl
  {
    HtmlReadmeSource(packageRoot);
    TestImageUrlKept(packageRoot);
  }

  // ---------------------------------------------------------------------------
  // Record construction

  /** The record built from the data fetched for one pinned entry. It fails
      (None) where the source throws: an author that is not a string has no
      `trim`, and `path.basename` refuses a missing path. */
  function BuildRecord(npmName: string, decl: ModuleDecl, entry: VersionEntry,
                       npm: NpmData, github: GithubData, readme: ReadmeData): (r: Option<Record>)
    ensures r.Some? <==> npm.author.Some? && entry.path.Some?
    ensures r.Some? ==> r.value.fallbackVersion.None?
  {
    if npm.author.None? || entry.path.None? then None
    else
      var root := PackageRoot(npmName, entry.version);
      Some(Record(
        author := Trim(npm.author.value),
        authorName := AuthorName(npm.author.value),
        description := npm.description,
        file := UrlJoin(root, entry.path.value),
        filename := Basename(entry.path.value),
        githubCreated := github.createdAt,
        githubUpdated := github.updatedAt,
        githubUrl := github.htmlUrl,
        githubStars := github.stargazersCount,
        image := if Truthy(entry.image) then entry.image.value else ParseImgFromText(readme.text, root),
        license := npm.license,
        name := decl.name,
        npmUrl := NpmUrl(npmName),
        readmeUrl := readme.url,
        fallbackVersion := None))
  }

  /** What the record says about its inputs: the author string trimmed, the
      bare author name, the file under the package root, the file name as the
      last piece of the path, and every other field copied from the fetched
      data; the image is the registry's own when it names one and is
      otherwise read from the README against the package root. */
  lemma BuildRecordFields(npmName: string, decl: ModuleDecl, entry: VersionEntry,
                          npm: NpmData, github: GithubData, readme: ReadmeData)
    requires npm.author.Some? && entry.path.Some?
    ensures var r := BuildRecord(npmName, decl, entry, npm, github, readme).value;
      var root := PackageRoot(npmName, entry.version);
      && r.author == Trim(npm.author.value) && '<' !in r.authorName
      && IsPrefix(StripTrailingSlashes(root) + "/", r.file)
      && IsSuffix(StripLeadingSlashes(entry.path.value), r.file)
      && |r.file| == |StripTrailingSlashes(root)| + 1 + |StripLeadingSlashes(entry.path.value)|
      && IsSuffix(r.filename, StripTrailingSlashes(entry.path.value)) && '/' !in r.filename
      && (Truthy(entry.image) ==> r.image == entry.image.value)
      && (!Truthy(entry.image) ==> r.image == ParseImgFromText(readme.text, root))
      && r.description == npm.description && r.license == npm.license && r.name == decl.name
      && r.githubCreated == github.createdAt && r.githubUpdated == github.updatedAt
      && r.githubUrl == github.htmlUrl && r.githubStars == github.stargazersCount
      && r.readmeUrl == readme.url && r.npmUrl == NpmUrl(npmName)
  {
    var root := PackageRoot(npmName, entry.version);
    var r := BuildRecord(npmName, decl, entry, npm, github, readme).value;
    assert r.file == UrlJoin(root, entry.path.value);
    assert r.filename == Basename(entry.path.value);
    UrlJoinShape(root, entry.path.value);
  }

  /** For a package name and version with no slash at either end and a
      relative path, the file URL is the path under `CDN/name@version`. */
  lemma RecordFileUnderCdn(npmName: string, version: string, dir: string, name: string)
    requires npmName != [] && npmName[0] != '/'
    requires version != [] && version[|version| - 1] != '/'
    requires dir != [] && dir[0] != '/' && '/' !in name && name != []
    ensures UrlJoin(PackageRoot(npmName, version), dir + "/" + name) == UrlJoin(Cdn, npmName + "@" + version + "/" + dir + "/" + name)
    ensures Basename(dir + "/" + name) == name
  {
    var b := npmName + "@" + version;
    assert b[0] == npmName[0] && b[|b| - 1] == version[|version| - 1];
    var c := dir + "/" + name;
    assert c[0] == dir[0];
    UrlJoinTwice(Cdn, b, c);
    assert b + "/" + c == npmName + "@" + version + "/" + dir + "/" + name;
    BasenameOfPath(dir, name);
  }

  /** A relative part joined to the CDN lands right after its host. */
  lemma CdnJoin(part: string)
    requires part == [] || part[0] != '/'
    ensures UrlJoin(Cdn, part) == "https://unpkg.com/" + part
  {
    assert Cdn == "https://unpkg.com" + "/";
    assert StripTrailingSlashes("https://unpkg.com") == "https://unpkg.com";
    assert StripTrailingSlashes(Cdn) == "https://unpkg.com";
    UrlJoinShape(Cdn, part);
  }

  const TestPackageRoot := "https://unpkg.com/test@1.2.3"

  /** The package root of the registry's test package, `test` at 1.2.3. */
  lemma PackageRootExample()
    ensures PackageRoot("test", "1.2.3") == TestPackageRoot
  {
    assert "test" + "@" + "1.2.3" == "test@1.2.3";
    CdnJoin("test@1.2.3");
  }

  const TestFile := "dist/test.js"

  /** Its file `dist/test.js`, as the registry's tests expect it. */
  lemma RecordFileExample()
    ensures UrlJoin(PackageRoot("test", "1.2.3"), TestFile) == TestPackageRoot + "/" + TestFile
  {
    PackageRootExample();
    JoinUnderTestRoot(TestFile);
  }

  /** The test root ends in a version digit, so a part is joined with one `/`. */
  lemma JoinUnderTestRoot(part: string)
    requires part == [] || part[0] != '/'
    ensures UrlJoin(TestPackageRoot, part) == TestPackageRoot + "/" + part
  {
    assert TestPackageRoot[|TestPackageRoot| - 1] == '3';
    UrlJoinPlain(TestPackageRoot, part);
  }

  lemma FilenameExample()
    ensures Basename("dist/test.js") == "test.js"
  {
    assert "dist/test.js" == "dist" + "/" + "test.js";
    BasenameOfPath("dist", "test.js");
  }

  // ---------------------------------------------------------------------------
  // Fetching the inputs of one record

  /** The GitHub step as this file writes it: a slug that is missing or empty
      reaches `new Promise.resolve({})`, which throws because
      `Promise.resolve` is not a constructor, and the inference itself may
      throw; either way no record is made. */
  function GithubRequestAsWritten(repo: Inferred, net: Network): Option<GithubData> {
    match repo
    case Slug(slug) => if slug == "" then None else net.github(RepoInfoUrl(slug))
    case NoSlug => None
    case ThrowsReferenceError => None
  }

  /** Where the README is read: `README.md` under the package root. */
  function ReadmeUrlOf(root: string): string {
    UrlJoin(root, "README.md")
  }

  /** The record once the package.json and the GitHub data are in: the
      README is requested and the record built from the three. */
  function AssembleRecord(npmName: string, decl: ModuleDecl, entry: VersionEntry,
                          npm: NpmData, github: Option<GithubData>, net: Network): (r: Option<Record>)
    ensures r.Some? ==> github.Some? && net.text(ReadmeUrlOf(PackageRoot(npmName, entry.version))).Some?
  {
    var root := PackageRoot(npmName, entry.version);
    match github
    case None => None
    case Some(g) =>
      match net.text(ReadmeUrlOf(root))
      case None => None
      case Some(text) => BuildRecord(npmName, decl, entry, npm, g, ReadmeData(text, ReadmeUrlOf(root)))
  }

  /** `fetchMetadata` with the GitHub step of the cached fetchers and the
      corrected repository inference. */
  function FetchMetadata(npmName: string, decl: ModuleDecl, entry: VersionEntry, net: Network): (r: Option<Record>)
    ensures r.Some? ==> net.npm(UrlJoin(PackageRoot(npmName, entry.version), "package.json")).Some?
  {
    match net.npm(UrlJoin(PackageRoot(npmName, entry.version), "package.json"))
    case None => None
    case Some(npm) =>
      AssembleRecord(npmName, decl, entry, npm, GithubRequest(InferGithubRepository(npm.repository), net), net)
  }

  /** `fetchMetadata` as written. */
  function FetchMetadataAsWritten(npmName: string, decl: ModuleDecl, entry: VersionEntry, net: Network): (r: Option<Record>)
    ensures r.Some? ==> net.npm(UrlJoin(PackageRoot(npmName, entry.version), "package.json")).Some?
  {
    match net.npm(UrlJoin(PackageRoot(npmName, entry.version), "package.json"))
    case None => None
    case Some(npm) =>
      AssembleRecord(npmName, decl, entry, npm, GithubRequestAsWritten(InferGithubRepositoryAsWritten(npm.repository), net), net)
  }

  /** A record is made exactly when package.json, the GitHub data (if a
      repository is named) and the README are all served and the author and
      path are present; it is then the record built from what was served. */
  lemma FetchMetadataSucceeds(npmName: string, decl: ModuleDecl, entry: VersionEntry, net: Network)
    ensures var root := PackageRoot(npmName, entry.version);
      var npm := net.npm(UrlJoin(root, "package.json"));
      var readme := net.text(ReadmeUrlOf(root));
      FetchMetadata(npmName, decl, entry, net).Some? <==>
        && npm.Some? && npm.value.author.Some? && entry.path.Some?
        && GithubRequest(InferGithubRepository(npm.value.repository), net).Some?
        && readme.Some?
    ensures var root := PackageRoot(npmName, entry.version);
      FetchMetadata(npmName, decl, entry, net).Some? ==>
        FetchMetadata(npmName, decl, entry, net) == BuildRecord(npmName, decl, entry,
          net.npm(UrlJoin(root, "package.json")).value,
          GithubRequest(InferGithubRepository(net.npm(UrlJoin(root, "package.json")).value.repository), net).value,
          ReadmeData(net.text(ReadmeUrlOf(root)).value, ReadmeUrlOf(root)))
  {
  }

  /** A package.json without a repository still gives a record once the
      README is served: the GitHub fields are then all missing. */
  lemma NoRepositoryStillRecorded(npmName: string, decl: ModuleDecl, entry: VersionEntry, net: Network)
    requires var npm := net.npm(UrlJoin(PackageRoot(npmName, entry.version), "package.json"));
      npm.Some? && npm.value.repository == NoRepository && npm.value.author.Some?
    requires entry.path.Some? && net.text(ReadmeUrlOf(PackageRoot(npmName, entry.version))).Some?
    ensures FetchMetadata(npmName, decl, entry, net).Some?
    ensures var r := FetchMetadata(npmName, decl, entry, net).value;
      r.githubUrl.None? && r.githubStars.None? && r.githubCreated.None? && r.githubUpdated.None?
  {
  }

  /** As written, the same package gives no record at all. */
  lemma NoRepositoryNoRecordAsWritten(npmName: string, decl: ModuleDecl, entry: VersionEntry, net: Network)
    requires var npm := net.npm(UrlJoin(PackageRoot(npmName, entry.version), "package.json"));
      npm.Some? && npm.value.repository == NoRepository
    ensures FetchMetadataAsWritten(npmName, decl, entry, net).None?
  {
  }

  /** Where the written inference yields a non-empty slug the two agree. */
  lemma FetchMetadataAgreesOnSlugs(npmName: string, decl: ModuleDecl, entry: VersionEntry, net: Network)
    requires var npm := net.npm(UrlJoin(PackageRoot(npmName, entry.version), "package.json"));
      npm.Some? && InferGithubRepositoryAsWritten(npm.value.repository).Slug? &&
      InferGithubRepositoryAsWritten(npm.value.repository).slug != ""
    ensures FetchMetadataAsWritten(npmName, decl, entry, net) == FetchMetadata(npmName, decl, entry, net)
  {
    var npm := net.npm(UrlJoin(PackageRoot(npmName, entry.version), "package.json")).value;
    var w := InferGithubRepositoryAsWritten(npm.repository);
    InferAsWrittenElsewhereAgrees(npm.repository);
    assert InferGithubRepository(npm.repository) == Some(w.slug);
    assert GithubRequestAsWritten(w, net) == GithubRequest(Some(w.slug), net);
  }
}
