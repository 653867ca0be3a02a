/** `parse_github_url` of src/git/remote.rs: owner and repository name from
    the URL of the `origin` remote, in the SSH form or, through a URL parser,
    the HTTPS form. The URL parser of the `url` crate is not modelled; what
    it yields for the URL at hand is a parameter. */
module Remote {
  import opened Errors
  import opened Text

  const SshPrefix := "git@github.com:"
  const GithubHost := "github.com"
  const GitSuffix := ".git"
  const InvalidUrlMessage := "Invalid GitHub URL"

  function UnparsableMessage(url: string): string {
    "Could not parse GitHub URL: " + url
  }

  /** What the URL parser gives for a URL: a parse error, a URL that cannot
      be a base and so has no path segments, or its path segments. */
  datatype ParsedUrl = ParseError(message: string) | CannotBeABase | Segments(segments: seq<string>)

  /** The SSH form: everything after the (repeated) prefix, split on '/';
      the first two segments, ".git" stripped from the second, when there
      are at least two. */
  function SshOwnerRepo(url: string): (r: Option<(string, string)>) {
    var parts := Split(TrimStartMatches(url, SshPrefix), '/');
    if |parts| >= 2 then Some((parts[0], TrimEndMatches(parts[1], GitSuffix))) else None
  }

  /** The HTTPS branch on its own: the first two path segments, ".git"
      stripped from the second; each way the parser can fail has its own
      error. */
  function HttpsOwnerRepo(url: string, parsed: ParsedUrl): (r: Result<(string, string)>)
    ensures r.Ok? <==> parsed.Segments? && |parsed.segments| >= 2
    ensures r.Ok? ==>
      r.value.0 == parsed.segments[0] && StartsWith(parsed.segments[1], r.value.1) && !EndsWith(r.value.1, GitSuffix)
    ensures parsed.ParseError? ==> r == Err(Url(parsed.message))
    ensures parsed.CannotBeABase? ==> r == Err(Config(InvalidUrlMessage))
    ensures parsed.Segments? && |parsed.segments| < 2 ==> r == Err(Config(UnparsableMessage(url)))
  {
    match parsed
    case ParseError(m) => Err(Url(m))
    case CannotBeABase => Err(Config(InvalidUrlMessage))
    case Segments(segs) =>
      if |segs| >= 2 then Ok((segs[0], TrimEndMatches(segs[1], GitSuffix)))
      else Err(Config(UnparsableMessage(url)))
  }

  /** `parse_github_url`, given what the URL parser makes of `url`. */
  function ParseGithubUrl(url: string, parsed: ParsedUrl): (r: Result<(string, string)>)
    ensures r.Ok? ==> Contains(url, GithubHost) && !EndsWith(r.value.1, GitSuffix)
  {
    if StartsWith(url, SshPrefix) && SshOwnerRepo(url).Some? then
      PrefixHasHost(url);
      Ok(SshOwnerRepo(url).value)
    else if Contains(url, GithubHost) then HttpsOwnerRepo(url, parsed)
    else Err(Config(UnparsableMessage(url)))
  }

  /** A URL in the SSH form mentions the host. */
  lemma PrefixHasHost(url: string)
    requires StartsWith(url, SshPrefix)
    ensures Contains(url, GithubHost)
  {
    assert url[4..4 + |GithubHost|] == SshPrefix[4..14];
    ContainsAt(url, GithubHost, 4);
  }

  /** `git@github.com:<owner>/<rest>`: the owner, and `rest` with every
      trailing ".git" stripped. */
  lemma SshParts(owner: string, rest: string, parsed: ParsedUrl)
    requires ':' !in owner && '/' !in owner && '/' !in rest
    ensures ParseGithubUrl(SshPrefix + owner + "/" + rest, parsed) == Ok((owner, TrimEndMatches(rest, GitSuffix)))
  {
    var url := SshPrefix + owner + "/" + rest;
    assert url[..|SshPrefix|] == SshPrefix;
    SshPathParts(owner, rest);
  }

  lemma SshPathParts(owner: string, rest: string)
    requires ':' !in owner && '/' !in owner && '/' !in rest
    ensures SshOwnerRepo(SshPrefix + owner + "/" + rest) == Some((owner, TrimEndMatches(rest, GitSuffix)))
  {
    var path := owner + "/" + rest;
    NotPrefixed(owner, rest);
    TrimStartMatchesOnce(SshPrefix, path);
    assert SshPrefix + owner + "/" + rest == SshPrefix + path;
    assert path == owner + ['/'] + rest;
    SplitPair(owner, rest, '/');
  }

  /** The path after the prefix does not repeat it: an owner holds no ':'. */
  lemma NotPrefixed(owner: string, rest: string)
    requires ':' !in owner
    ensures !StartsWith(owner + "/" + rest, SshPrefix)
  {
    var path := owner + "/" + rest;
    var j := if |owner| < |SshPrefix| then |owner| else 14;
    assert path[j] != SshPrefix[j];
    if |path| >= |SshPrefix| {
      assert path[..|SshPrefix|][j] != SshPrefix[j];
    }
  }

  /** `git@github.com:<owner>/<repo>.git` gives back owner and repository. */
  lemma SshRoundTrip(owner: string, repo: string, parsed: ParsedUrl)
    requires ':' !in owner && '/' !in owner && '/' !in repo && !EndsWith(repo, GitSuffix)
    ensures ParseGithubUrl(SshPrefix + owner + "/" + (repo + GitSuffix), parsed) == Ok((owner, repo))
  {
    SshParts(owner, repo + GitSuffix, parsed);
    TrimEndMatchesOnce(repo, GitSuffix);
  }

  /** The suffix is stripped as often as it repeats: "<repo>.git.git" gives
      "<repo>". */
  lemma RepeatedSuffixStripped(owner: string, repo: string, parsed: ParsedUrl)
    requires ':' !in owner && '/' !in owner && '/' !in repo && !EndsWith(repo, GitSuffix)
    ensures ParseGithubUrl(SshPrefix + owner + "/" + (repo + GitSuffix + GitSuffix), parsed) == Ok((owner, repo))
  {
    SshParts(owner, repo + GitSuffix + GitSuffix, parsed);
    SuffixTwice(repo);
  }

  lemma SuffixTwice(repo: string)
    requires !EndsWith(repo, GitSuffix)
    ensures TrimEndMatches(repo + GitSuffix + GitSuffix, GitSuffix) == repo
  {
    TrimEndMatchesStep(repo + GitSuffix, GitSuffix);
    TrimEndMatchesOnce(repo, GitSuffix);
  }

  /** A URL that does not mention the host is refused with its own text in
      the message, whatever the parser would make of it. */
  lemma ForeignHostRefused(url: string, parsed: ParsedUrl)
    requires !Contains(url, GithubHost)
    ensures ParseGithubUrl(url, parsed) == Err(Config(UnparsableMessage(url)))
  {
    if StartsWith(url, SshPrefix) {
      PrefixHasHost(url);
    }
  }

  /** An SSH URL with fewer than two segments falls through to the parser. */
  lemma ShortSshFallsThrough(url: string, parsed: ParsedUrl)
    requires StartsWith(url, SshPrefix) && '/' !in TrimStartMatches(url, SshPrefix)
    ensures ParseGithubUrl(url, parsed) == HttpsOwnerRepo(url, parsed)
  {
    SplitNone(TrimStartMatches(url, SshPrefix), '/');
    PrefixHasHost(url);
  }

  /** Any URL outside the SSH form that mentions the host is read through
      the parser: the first segment is the owner, the second with every
      trailing ".git" stripped is the repository, and segments past the
      second are ignored; fewer than two segments, a parse error and a URL
      that cannot be a base are refused each with its own error. */
  lemma HttpsForm(url: string, parsed: ParsedUrl)
    requires !StartsWith(url, SshPrefix) && Contains(url, GithubHost)
    ensures ParseGithubUrl(url, parsed) == HttpsOwnerRepo(url, parsed)
    ensures parsed.Segments? && |parsed.segments| >= 2 ==>
      ParseGithubUrl(url, parsed) == Ok((parsed.segments[0], TrimEndMatches(parsed.segments[1], GitSuffix)))
    ensures parsed.Segments? && |parsed.segments| < 2 ==>
      ParseGithubUrl(url, parsed) == Err(Config(UnparsableMessage(url)))
    ensures parsed.ParseError? ==> ParseGithubUrl(url, parsed) == Err(Url(parsed.message))
    ensures parsed.CannotBeABase? ==> ParseGithubUrl(url, parsed) == Err(Config(InvalidUrlMessage))
  {
  }

  /** In the SSH form the segments past the second are ignored:
      `git@github.com:<owner>/<repo>/<extra>` gives the owner and `repo`
      with every trailing ".git" stripped, whatever `extra` is. */
  lemma SshExtraSegmentsIgnored(owner: string, repo: string, extra: string, parsed: ParsedUrl)
    requires ':' !in owner && '/' !in owner && '/' !in repo
    ensures ParseGithubUrl(SshPrefix + owner + "/" + (repo + "/" + extra), parsed)
      == Ok((owner, TrimEndMatches(repo, GitSuffix)))
  {
    var url := SshPrefix + owner + "/" + (repo + "/" + extra);
    assert url[..|SshPrefix|] == SshPrefix;
    SshPathAfterPrefix(owner, repo + "/" + extra);
    SplitOwnerRepo(owner, repo, extra);
  }

  /** What follows the prefix of an SSH URL. */
  lemma SshPathAfterPrefix(owner: string, tail: string)
    requires ':' !in owner
    ensures TrimStartMatches(SshPrefix + owner + "/" + tail, SshPrefix) == owner + ['/'] + tail
  {
    NotPrefixed(owner, tail);
    TrimStartMatchesOnce(SshPrefix, owner + "/" + tail);
    assert SshPrefix + owner + "/" + tail == SshPrefix + (owner + "/" + tail);
    assert owner + "/" + tail == owner + ['/'] + tail;
  }

  /** Split on '/', the path starts with the owner and the repository. */
  lemma SplitOwnerRepo(owner: string, repo: string, extra: string)
    requires '/' !in owner && '/' !in repo
    ensures var parts := Split(owner + ['/'] + (repo + "/" + extra), '/');
      |parts| >= 2 && parts[0] == owner && parts[1] == repo
  {
    SplitFirst(owner, repo + "/" + extra, '/');
    assert repo + "/" + extra == repo + ['/'] + extra;
    SplitFirst(repo, extra, '/');
  }
}
