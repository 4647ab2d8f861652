/**
 * `convertToRawUrls` (src/pages/api/gh.ts:8-31): the raw-content URLs a
 * GitHub page URL is fetched from, tried in order. Every rewrite is a
 * `String.prototype.replace` with a string pattern, which replaces the first
 * occurrence only.
 */
module RawUrls {
  import opened Text

  const GitHubHost := "github.com"
  const RawHost := "raw.githubusercontent.com"
  const RefsHeads := "/refs/heads/"

  /** Method 1, the `refs/heads/` form (gh.ts:12-15). */
  function RefsHeadsUrl(url: string): string {
    ReplaceFirst(ReplaceFirst(ReplaceFirst(url, GitHubHost, RawHost), "/blob/", RefsHeads), "/tree/", RefsHeads)
  }

  /** Method 2, the direct-branch form (gh.ts:19-22). */
  function DirectUrl(url: string): string {
    ReplaceFirst(ReplaceFirst(ReplaceFirst(url, GitHubHost, RawHost), "/blob/", "/"), "/tree/", "/")
  }

  /** The candidate list: the `refs/heads/` form, the direct form and, when
      the input already names the raw host, the input itself. */
  function ConvertToRawUrls(url: string): (urls: seq<string>)
    ensures |urls| == (if Contains(url, RawHost) then 3 else 2)
    ensures urls[0] == RefsHeadsUrl(url) && urls[1] == DirectUrl(url)
    ensures |urls| == 3 ==> urls[2] == url
  {
    [RefsHeadsUrl(url), DirectUrl(url)] + (if Contains(url, RawHost) then [url] else [])
  }

  const Scheme := "https://"

  /** `https://github.com/<owner>/<repo>/blob/<path>`, the form of a GitHub
      file page. */
  function BlobUrl(owner: string, repo: string, path: string): string {
    Scheme + (GitHubHost + ("/" + (owner + ("/" + (repo + ("/blob/" + path))))))
  }

  /** `https://github.com/<owner>/<repo>/tree/<path>`, the form of a GitHub
      directory page. */
  function TreeUrl(owner: string, repo: string, path: string): string {
    Scheme + (GitHubHost + ("/" + (owner + ("/" + (repo + ("/tree/" + path))))))
  }

  /** `https://raw.githubusercontent.com/<owner>/<repo>` */
  function RawRepo(owner: string, repo: string): string {
    Scheme + (RawHost + ("/" + (owner + ("/" + repo))))
  }

  /** The owner and repository are single path segments other than the two
      keywords, and neither they nor the path hold the raw host. */
  predicate PlainRepo(owner: string, repo: string, path: string) {
    && '/' !in owner && '/' !in repo
    && owner != "blob" && repo != "blob" && owner != "tree" && repo != "tree"
    && !Contains(owner, RawHost) && !Contains(repo, RawHost) && !Contains(path, RawHost)
  }

  /** For a file page whose path has no `tree` segment, the candidates are the
      raw file under `refs/heads/` and then directly under the branch; there is
      no third candidate. */
  lemma BlobUrlCandidates(owner: string, repo: string, path: string)
    requires PlainRepo(owner, repo, path) && !Contains("/" + path, "/tree/")
    ensures ConvertToRawUrls(BlobUrl(owner, repo, path))
      == [RawRepo(owner, repo) + (RefsHeads + path), RawRepo(owner, repo) + ("/" + path)]
  {
    var url := BlobUrl(owner, repo, path);
    var repoPart := "/" + (owner + ("/" + (repo + ("/blob/" + path))));
    assert ReplaceFirst(url, GitHubHost, RawHost) == Scheme + (RawHost + repoPart) by {
      HostReplaced(repoPart);
    }
    assert RefsHeadsUrl(url) == RawRepo(owner, repo) + (RefsHeads + path) by {
      SegmentReplaced(owner, repo, "/blob/", path, RefsHeads);
      RawRepoAppend(owner, repo, RefsHeads + path);
      RefsHeadsHasNoTree(owner, repo, path);
    }
    assert DirectUrl(url) == RawRepo(owner, repo) + ("/" + path) by {
      SegmentReplaced(owner, repo, "/blob/", path, "/");
      RawRepoAppend(owner, repo, "/" + path);
      PrefixHasNoTree(owner, repo, "/" + path);
    }
    assert !Contains(url, RawHost) by {
      NoRawHost(owner, repo, path);
    }
  }

  /** For a directory page whose path has no `blob` segment, the `/blob/`
      rewrite finds nothing and the `/tree/` rewrite turns the page into the
      same two candidates as a file page. */
  lemma TreeUrlCandidates(owner: string, repo: string, path: string)
    requires PlainRepo(owner, repo, path) && !Contains("/" + path, "/blob/")
    ensures ConvertToRawUrls(TreeUrl(owner, repo, path))
      == [RawRepo(owner, repo) + (RefsHeads + path), RawRepo(owner, repo) + ("/" + path)]
  {
    var url := TreeUrl(owner, repo, path);
    var repoPart := "/" + (owner + ("/" + (repo + ("/tree/" + path))));
    var raw := Scheme + (RawHost + repoPart);
    assert ReplaceFirst(url, GitHubHost, RawHost) == raw by {
      HostReplaced(repoPart);
    }
    assert ReplaceFirst(raw, "/blob/", RefsHeads) == raw && ReplaceFirst(raw, "/blob/", "/") == raw by {
      NoBlobInTree(owner, repo, path);
    }
    assert RefsHeadsUrl(url) == RawRepo(owner, repo) + (RefsHeads + path) by {
      SegmentReplaced(owner, repo, "/tree/", path, RefsHeads);
      RawRepoAppend(owner, repo, RefsHeads + path);
    }
    assert DirectUrl(url) == RawRepo(owner, repo) + ("/" + path) by {
      SegmentReplaced(owner, repo, "/tree/", path, "/");
      RawRepoAppend(owner, repo, "/" + path);
    }
    assert !Contains(url, RawHost) by {
      NoRawHostInTree(owner, repo, path);
    }
  }

  /** The host is the first `github.com`: the scheme holds no `g`. */
  lemma HostReplaced(rest: string)
    ensures ReplaceFirst(Scheme + (GitHubHost + rest), GitHubHost, RawHost) == Scheme + (RawHost + rest)
  {
    NoneStartInByHead(Scheme, GitHubHost + rest, GitHubHost);
    ReplaceFirstSkip(Scheme, GitHubHost + rest, GitHubHost, RawHost);
    ReplaceFirstHere(GitHubHost, rest, RawHost);
  }

  /** No `/x…` with `x` other than `/` and `r` starts in `https://raw.githubusercontent.com`. */
  lemma RawHostSkip(rest: string, pat: string, rep: string)
    requires |pat| >= 2 && pat[0] == '/' && pat[1] != '/' && pat[1] != 'r'
    ensures ReplaceFirst(Scheme + (RawHost + rest), pat, rep) == Scheme + (RawHost + ReplaceFirst(rest, pat, rep))
    ensures Contains(Scheme + (RawHost + rest), pat) <==> Contains(rest, pat)
  {
    var h := RawHost + rest;
    assert ReplaceFirst(h, pat, rep) == RawHost + ReplaceFirst(rest, pat, rep) && (Contains(h, pat) <==> Contains(rest, pat)) by {
      NoneStartInByHead(RawHost, rest, pat);
      ReplaceFirstSkip(RawHost, rest, pat, rep);
    }
    SchemeSkip(h, pat, rep);
  }

  /** The scheme `https://` is skipped when the text after it does not continue `pat`. */
  lemma SchemeSkip(h: string, pat: string, rep: string)
    requires |pat| >= 2 && pat[0] == '/' && pat[1] != '/' && h != [] && h[0] != pat[1]
    ensures ReplaceFirst(Scheme + h, pat, rep) == Scheme + ReplaceFirst(h, pat, rep)
    ensures Contains(Scheme + h, pat) <==> Contains(h, pat)
  {
    var h1 := "/" + h;
    var h2 := "/" + h1;
    assert ReplaceFirst(h1, pat, rep) == "/" + ReplaceFirst(h, pat, rep) && (Contains(h1, pat) <==> Contains(h, pat)) by {
      NoneStartInBySecond('/', h, pat);
      ReplaceFirstSkip("/", h, pat, rep);
    }
    assert ReplaceFirst(h2, pat, rep) == "/" + ReplaceFirst(h1, pat, rep) && (Contains(h2, pat) <==> Contains(h1, pat)) by {
      NoneStartInBySecond('/', h1, pat);
      ReplaceFirstSkip("/", h1, pat, rep);
    }
    assert ReplaceFirst("https:" + h2, pat, rep) == "https:" + ReplaceFirst(h2, pat, rep) && (Contains("https:" + h2, pat) <==> Contains(h2, pat)) by {
      NoneStartInByHead("https:", h2, pat);
      ReplaceFirstSkip("https:", h2, pat, rep);
    }
    SchemeSplit(h);
    SchemeSplit(ReplaceFirst(h, pat, rep));
  }

  lemma SchemeSplit(x: string)
    ensures Scheme + x == "https:" + ("/" + ("/" + x))
  {
    assert Scheme == "https:" + "/" + "/";
    AppendAssoc("https:" + "/", "/", x);
    AppendAssoc("https:", "/", "/" + x);
  }

  /** Re-associates `RawRepo(owner, repo) + x`. */
  lemma RawRepoAppend(owner: string, repo: string, x: string)
    ensures Scheme + (RawHost + ("/" + (owner + ("/" + (repo + x))))) == RawRepo(owner, repo) + x
  {
    var a := "/" + repo;
    var b := owner + a;
    var c := "/" + b;
    var d := RawHost + c;
    AppendAssoc("/", repo, x);
    AppendAssoc(owner, a, x);
    AppendAssoc("/", b, x);
    AppendAssoc(RawHost, c, x);
    AppendAssoc(Scheme, d, x);
  }

  /** `/<owner>/<repo>` is skipped by a search for `/w/` when neither segment is `w`. */
  lemma RepoSkip(owner: string, repo: string, rest: string, w: string, rep: string)
    requires '/' !in owner && '/' !in repo && '/' !in w && owner != w && repo != w
    requires rest == [] || rest[0] == '/'
    ensures ReplaceFirst("/" + (owner + ("/" + (repo + rest))), "/" + w + "/", rep)
      == "/" + (owner + ("/" + (repo + ReplaceFirst(rest, "/" + w + "/", rep))))
    ensures Contains("/" + (owner + ("/" + (repo + rest))), "/" + w + "/") <==> Contains(rest, "/" + w + "/")
  {
    var pat := "/" + w + "/";
    var a := repo + rest;
    var b := "/" + a;
    var c := owner + b;
    NoneStartInByHead(repo, rest, pat);
    ReplaceFirstSkip(repo, rest, pat, rep);
    NoneStartInSegment(repo, rest, w);
    ReplaceFirstSkip("/", a, pat, rep);
    NoneStartInByHead(owner, b, pat);
    ReplaceFirstSkip(owner, b, pat, rep);
    NoneStartInSegment(owner, b, w);
    ReplaceFirstSkip("/", c, pat, rep);
  }

  /** The first `/blob/` or `/tree/` is the one right after the repository,
      whatever the path holds. */
  lemma SegmentReplaced(owner: string, repo: string, seg: string, path: string, rep: string)
    requires PlainRepo(owner, repo, path) && (seg == "/blob/" || seg == "/tree/")
    ensures ReplaceFirst(Scheme + (RawHost + ("/" + (owner + ("/" + (repo + (seg + path)))))), seg, rep)
      == Scheme + (RawHost + ("/" + (owner + ("/" + (repo + (rep + path))))))
  {
    var w := if seg == "/blob/" then "blob" else "tree";
    assert seg == "/" + w + "/";
    RawHostSkip("/" + (owner + ("/" + (repo + (seg + path)))), seg, rep);
    RepoSkip(owner, repo, seg + path, w, rep);
    ReplaceFirstHere(seg, path, rep);
  }

  /** A directory page without a `blob` segment in its path holds no `/blob/`. */
  lemma NoBlobInTree(owner: string, repo: string, path: string)
    requires PlainRepo(owner, repo, path) && !Contains("/" + path, "/blob/")
    ensures !Contains(Scheme + (RawHost + ("/" + (owner + ("/" + (repo + ("/tree/" + path)))))), "/blob/")
  {
    var rest := "/tree/" + path;
    assert "/" + "blob" + "/" == "/blob/";
    assert !Contains(rest, "/blob/") by {
      TreeSplit(path);
      NoContainsSegment("tree", "/" + path, "blob");
    }
    RawHostSkip("/" + (owner + ("/" + (repo + rest))), "/blob/", []);
    RepoSkip(owner, repo, rest, "blob", []);
  }

  lemma TreeSplit(path: string)
    ensures "/tree/" + path == "/" + ("tree" + ("/" + path))
  {
    assert "/tree/" == "/" + "tree" + "/";
  }

  /** A directory page does not already name the raw host. */
  lemma NoRawHostInTree(owner: string, repo: string, path: string)
    requires PlainRepo(owner, repo, path)
    ensures !Contains(TreeUrl(owner, repo, path), RawHost)
  {
    assert !Contains("/tree/" + path, RawHost) by {
      NoContainsByHead("/", path, RawHost);
      ShortNoContains("tree", RawHost);
      NoContainsSlashFree("tree", "/" + path, RawHost);
      NoContainsByHead("/", "tree" + ("/" + path), RawHost);
      TreeSplit(path);
    }
    NoRawHostAfter(owner, repo, "/tree/" + path);
  }

  /** Nothing before the path holds `/tree/`. */
  lemma PrefixHasNoTree(owner: string, repo: string, rest: string)
    requires PlainRepo(owner, repo, []) && !Contains(rest, "/tree/")
    requires rest == [] || rest[0] == '/'
    ensures !Contains(RawRepo(owner, repo) + rest, "/tree/")
  {
    assert "/" + "tree" + "/" == "/tree/";
    RawHostSkip("/" + (owner + ("/" + (repo + rest))), "/tree/", []);
    RepoSkip(owner, repo, rest, "tree", []);
    RawRepoAppend(owner, repo, rest);
  }

  /** `/refs/heads/` holds no `/tree/`. */
  lemma RefsHeadsHasNoTree(owner: string, repo: string, path: string)
    requires PlainRepo(owner, repo, path) && !Contains("/" + path, "/tree/")
    ensures !Contains(RawRepo(owner, repo) + (RefsHeads + path), "/tree/")
  {
    var p := "/" + path;
    assert "/" + "tree" + "/" == "/tree/";
    var r := "/" + ("refs" + ("/" + ("heads" + p)));
    assert !Contains(r, "/tree/") by {
      NoContainsSegment("heads", p, "tree");
      NoContainsSegment("refs", "/" + ("heads" + p), "tree");
    }
    RefsHeadsSplit(path);
    PrefixHasNoTree(owner, repo, r);
  }

  lemma RefsHeadsSplit(path: string)
    ensures RefsHeads + path == "/" + ("refs" + ("/" + ("heads" + ("/" + path))))
  {
    assert RefsHeads == "/" + "refs" + "/" + "heads" + "/";
  }

  /** A file page does not already name the raw host. */
  lemma NoRawHost(owner: string, repo: string, path: string)
    requires PlainRepo(owner, repo, path)
    ensures !Contains(BlobUrl(owner, repo, path), RawHost)
  {
    NoContainsByHead("/blob/", path, RawHost);
    NoRawHostAfter(owner, repo, "/blob/" + path);
  }

  /** The raw host occurs in a page URL only in what follows the repository. */
  lemma NoRawHostAfter(owner: string, repo: string, rest: string)
    requires PlainRepo(owner, repo, []) && !Contains(rest, RawHost)
    requires rest == [] || rest[0] == '/'
    ensures !Contains(Scheme + (GitHubHost + ("/" + (owner + ("/" + (repo + rest))))), RawHost)
  {
    var pat := RawHost;
    var t2 := "/" + (repo + rest);
    var t0 := "/" + (owner + t2);
    assert !Contains(t2, pat) by {
      NoContainsSlashFree(repo, rest, pat);
      NoContainsByHead("/", repo + rest, pat);
    }
    assert !Contains(t0, pat) by {
      NoContainsSlashFree(owner, t2, pat);
      NoContainsByHead("/", owner + t2, pat);
    }
    NoContainsByHead(GitHubHost, t0, pat);
    NoContainsByHead(Scheme, GitHubHost + t0, pat);
  }

  /** The cookbook's own README page: its two candidates are the raw file
      under `refs/heads/main` and directly under `main`. */
  lemma CookbookReadme()
    ensures ConvertToRawUrls(BlobUrl("groq", "groq-api-cookbook", "main/README.md"))
      == [RawRepo("groq", "groq-api-cookbook") + (RefsHeads + "main/README.md"),
          RawRepo("groq", "groq-api-cookbook") + ("/" + "main/README.md")]
  {
    var owner, repo, path := "groq", "groq-api-cookbook", "main/README.md";
    ReadmePathHasNoTree();
    ShortNoContains(owner, RawHost);
    ShortNoContains(repo, RawHost);
    ShortNoContains(path, RawHost);
    BlobUrlCandidates(owner, repo, path);
  }

  /** `/main/README.md` has no `tree` segment. */
  lemma ReadmePathHasNoTree()
    ensures !Contains("/" + "main/README.md", "/tree/")
  {
    var pat, f := "/tree/", "README.md";
    assert "/" + "main/README.md" == "/" + ("main" + ("/" + (f + [])));
    assert "/" + "tree" + "/" == pat;
    NoneStartInByHead(f, [], pat);
    ReplaceFirstSkip(f, [], pat, []);
    NoneStartInSegment(f, [], "tree");
    ReplaceFirstSkip("/", f + [], pat, []);
    NoneStartInByHead("main", "/" + (f + []), pat);
    ReplaceFirstSkip("main", "/" + (f + []), pat, []);
    NoneStartInSegment("main", "/" + (f + []), "tree");
    ReplaceFirstSkip("/", "main" + ("/" + (f + [])), pat, []);
  }

  /** A text containing none of the three patterns comes back unchanged, twice. */
  lemma NoPatternsUnchanged(url: string)
    requires !Contains(url, GitHubHost) && !Contains(url, "/blob/") && !Contains(url, "/tree/")
    ensures ConvertToRawUrls(url)[0] == url && ConvertToRawUrls(url)[1] == url
  {
  }
}
