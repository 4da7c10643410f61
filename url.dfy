/**
 * The rewrite that turns a repository page address into the address of
 * the raw file (app.py:65-75): a `github.com` address gets the raw host,
 * loses its `/blob/` segment and is pointed at `index.html`; any other
 * address is used as it is.
 */
module UrlRewrite {
  import opened Strings

  const GithubHost := "github.com"
  const RawHost := "raw.githubusercontent.com"
  const BlobSegment := "/blob/"
  const IndexFile := "index.html"

  /** The two `replace` calls: raw host for repository host, `/` for `/blob/`. */
  function Rewrite(u: string): string {
    ReplaceAll(ReplaceAll(u, GithubHost, RawHost), BlobSegment, "/")
  }

  /** Append `index.html`, with a `/` before it unless one is already there. */
  function PointAtIndex(m: string): (r: string)
    ensures StartsWith(r, m) && EndsWith(r, IndexFile)
    ensures r == m <==> EndsWith(m, IndexFile)
    ensures !EndsWith(m, IndexFile) && EndsWith(m, "/") ==> r == m + IndexFile
    ensures !EndsWith(m, IndexFile) && !EndsWith(m, "/") ==> r == m + "/" + IndexFile
  {
    if EndsWith(m, IndexFile) then m
    else if EndsWith(m, "/") then m + IndexFile
    else m + "/" + IndexFile
  }

  /** The address that is fetched for the address the student entered. */
  function RawUrl(u: string): string {
    if Contains(u, GithubHost) then PointAtIndex(Rewrite(u)) else u
  }

  /** The rewrite as the source performs it, one reassignment at a time. */
  method ToRawUrl(githubUrl: string) returns (url: string)
    ensures url == RawUrl(githubUrl)
    ensures !Contains(githubUrl, GithubHost) ==> url == githubUrl
    ensures Contains(githubUrl, GithubHost) ==>
      EndsWith(url, IndexFile) && Contains(url, RawHost) && !Contains(url, GithubHost)
  {
    url := githubUrl;
    if Contains(url, GithubHost) {
      url := ReplaceAll(url, GithubHost, RawHost);
      url := ReplaceAll(url, BlobSegment, "/");
      if !EndsWith(url, IndexFile) {
        if EndsWith(url, "/") {
          url := url + IndexFile;
        } else {
          url := url + "/" + IndexFile;
        }
      }
    }
    RawUrlShape(githubUrl);
  }

  /** Characters of the host names that rule out forged or split matches. */
  lemma HostChars()
    ensures |GithubHost| == 10 && 'g' in GithubHost && '/' !in GithubHost
    ensures RawHost[0] == 'r' && RawHost[|RawHost| - 1] == 'm' && '/' !in RawHost
    ensures 'r' !in GithubHost[1..] && 'm' !in GithubHost[..9] && 'r' !in BlobSegment
    ensures 'g' !in IndexFile && 'g' !in "/" && |BlobSegment| > 0 && BlobSegment[0] == '/'
  {
  }

  /**
   * The raw host in three pieces: the one before, within and after `github`.
   * This lemma and the other `...Spelled` and `...Groups` lemmas below each state one
   * equality between a literal and its pieces, or one regrouping of a concatenation,
   * so that it is proved on its own rather than inside a larger replacement argument.
   */
  lemma RawHostSpelled(a: string, b: string, c: string, r: string)
    requires a == "raw." && b == "githubus" && c == "ercontent.com" && r == RawHost
    ensures r == a + b + c
  {
  }

  /** Neither of the first two pieces, nor their seam, holds the repository host. */
  lemma RawHostHead(a: string, b: string, g: string)
    requires a == "raw." && b == "githubus" && g == GithubHost
    ensures !Contains(a + b, g) && (a + b)[|a + b| - 1] == 's'
  {
    ShortMisses(a, g);
    ShortMisses(b, g);
    NoSeam(a, b, g);
  }

  /** The last piece has no `g`, and the `s` before it cannot start a match. */
  lemma RawHostTail(ab: string, c: string, g: string)
    requires !Contains(ab, g) && |ab| > 0 && ab[|ab| - 1] == 's'
    requires c == "ercontent.com" && g == GithubHost
    ensures !Contains(ab + c, g)
  {
    MissingChar(c, g, 'g');
    NoSeam(ab, c, g);
  }

  /** The raw host does not contain the repository host. */
  lemma RawHostLacksGithub()
    ensures !Contains(RawHost, GithubHost)
  {
    var a, b, c := "raw.", "githubus", "ercontent.com";
    RawHostHead(a, b, GithubHost);
    RawHostTail(a + b, c, GithubHost);
    RawHostSpelled(a, b, c, RawHost);
  }

  /** After the two replacements no repository host is left. */
  lemma RewriteRemovesHost(u: string)
    ensures !Contains(Rewrite(u), GithubHost)
  {
    HostChars();
    RawHostLacksGithub();
    ReplaceAllRemoves(u, GithubHost, RawHost);
    ReplaceKeepsAbsent(ReplaceAll(u, GithubHost, RawHost), BlobSegment, "/", GithubHost);
  }

  /** A repository address rewrites to one on the raw host. */
  lemma RewriteIntroducesRawHost(u: string)
    requires Contains(u, GithubHost)
    ensures Contains(Rewrite(u), RawHost)
  {
    HostChars();
    ReplaceAllIntroduces(u, GithubHost, RawHost);
    ReplaceKeepsPresent(ReplaceAll(u, GithubHost, RawHost), BlobSegment, "/", RawHost);
  }

  /** Pointing at `index.html` cannot spell out the repository host. */
  lemma PointAtIndexKeepsHostOut(m: string)
    requires !Contains(m, GithubHost)
    ensures !Contains(PointAtIndex(m), GithubHost)
  {
    HostChars();
    MissingChar(IndexFile, GithubHost, 'g');
    if EndsWith(m, IndexFile) {
    } else if EndsWith(m, "/") {
      assert m[|m| - 1] == '/';
      NoSeam(m, IndexFile, GithubHost);
    } else {
      MissingChar("/", GithubHost, 'g');
      NoSeam(m, "/", GithubHost);
      NoSeam(m + "/", IndexFile, GithubHost);
    }
  }

  /**
   * A repository address ends up on the raw host, pointed at `index.html`
   * and free of the repository host; any other address is left alone.
   */
  lemma RawUrlShape(u: string)
    ensures !Contains(u, GithubHost) ==> RawUrl(u) == u
    ensures Contains(u, GithubHost) ==>
      EndsWith(RawUrl(u), IndexFile) && Contains(RawUrl(u), RawHost) && !Contains(RawUrl(u), GithubHost)
  {
    if Contains(u, GithubHost) {
      var m := Rewrite(u);
      RewriteRemovesHost(u);
      PointAtIndexKeepsHostOut(m);
      RewriteIntroducesRawHost(u);
      PointAtIndexKeeps(m, RawHost);
    }
  }

  /** Pointing at `index.html` keeps whatever the address already contains. */
  lemma PointAtIndexKeeps(m: string, p: string)
    requires Contains(m, p)
    ensures Contains(PointAtIndex(m), p)
  {
    var r := PointAtIndex(m);
    ContainsExtends([], m, r[|m|..], p);
    assert [] + m + r[|m|..] == r;
  }

  /** Rewriting a rewritten address changes nothing. */
  lemma RawUrlIdempotent(u: string)
    ensures RawUrl(RawUrl(u)) == RawUrl(u)
  {
    RawUrlShape(u);
  }

  /**
   * The first replacement on an address with one `github.com`, after a
   * scheme without `g`: the host is swapped and the rest is kept.
   */
  lemma HostReplaced(a: string, b: string)
    requires 'g' !in a && !Contains(b, GithubHost)
    ensures ReplaceAll(a + GithubHost + b, GithubHost, RawHost) == a + RawHost + b
  {
    assert GithubHost[0] == 'g';
    ReplaceAllOnce(a, b, GithubHost, RawHost);
  }

  /** Two pieces meeting at a `/` hold the repository host only if one of them does. */
  lemma SlashSeam(a: string, b: string)
    requires !Contains(a, GithubHost) && !Contains(b, GithubHost)
    requires (|a| > 0 && a[|a| - 1] == '/') || (|b| > 0 && b[0] == '/')
    ensures !Contains(a + b, GithubHost)
  {
    HostChars();
    NoSeam(a, b, GithubHost);
  }

  /** The fixed parts of a page address hold no repository host. */
  lemma FixedPartsLackHost()
    ensures !Contains("/", GithubHost) && !Contains("://", GithubHost)
    ensures !Contains(BlobSegment, GithubHost) && !Contains(IndexFile, GithubHost)
  {
    HostChars();
    MissingChar("/", GithubHost, 'g');
    MissingChar("://", GithubHost, 'g');
    MissingChar(BlobSegment, GithubHost, 'g');
    MissingChar(IndexFile, GithubHost, 'g');
  }

  /** Only the segment `blob` can make `/segment/...` begin with `/blob/`. */
  lemma BlobStartShape(w: string, z: string)
    requires '/' !in w && |z| > 0 && z[0] == '/'
    ensures StartsWith("/" + w + z, BlobSegment) ==> w == "blob"
  {
    var s := "/" + w + z;
    assert s[|w| + 1] == '/';
    assert |w| >= 5 ==> s[5] == w[4] && w[4] in w;
    assert StartsWith(s, BlobSegment) ==> s[..6] == "/blob/";
    assert StartsWith(s, BlobSegment) && |w| < 5 ==> s[|w| + 1] == "/blob/"[|w| + 1];
    if StartsWith(s, BlobSegment) {
      assert |w| == 4;
      assert w == s[1..5];
    }
  }

  /** A path segment other than `blob` survives the second replacement. */
  lemma SegmentKept(w: string, z: string)
    requires '/' !in w && w != "blob" && |z| > 0 && z[0] == '/'
    ensures ReplaceAll("/" + w + z, BlobSegment, "/") == "/" + w + ReplaceAll(z, BlobSegment, "/")
  {
    HostChars();
    BlobStartShape(w, z);
    assert ("/" + w)[1..] == w;
    ReplaceAllStep("/" + w, z, BlobSegment, "/");
  }

  /**
   * The branch and the file name after `/blob/` survive the second replacement
   * when together they hold no `/blob/`: no segment of the branch but its first is `blob`.
   */
  lemma BranchKept(branch: string)
    requires !Contains(branch + "/" + IndexFile, BlobSegment)
    ensures ReplaceAll(branch + "/" + IndexFile, BlobSegment, "/") == branch + "/" + IndexFile
  {
    ReplaceAllAbsent(branch + "/" + IndexFile, BlobSegment, "/");
  }

  /** The `/index.html` tail holds no `/blob/`. */
  lemma IndexTailKept(t: string)
    requires t == "/" + IndexFile
    ensures !Contains(t, BlobSegment) && BlobSegment[0] == '/'
  {
    MissingChar(t, BlobSegment, 'b');
  }

  /** A branch of one segment holds no `/blob/` together with the file name, even one named `blob`. */
  lemma PlainBranchClear(branch: string)
    requires '/' !in branch
    ensures !Contains(branch + "/" + IndexFile, BlobSegment)
  {
    var t := "/" + IndexFile;
    IndexTailKept(t);
    SlashFreeBefore(branch, t, BlobSegment);
    TailGroups(branch, "/", IndexFile);
  }

  /** A part without `/` cannot hold or start a block that begins with `/`. */
  lemma SlashFreeBefore(a: string, t: string, p: string)
    requires '/' !in a && |p| > 0 && p[0] == '/' && !Contains(t, p)
    ensures !Contains(a + t, p)
  {
    ContainsSkip(a, t, p);
  }

  lemma TailGroups(a: string, b: string, c: string)
    ensures a + b + c == a + (b + c)
  {
  }

  /** A path `/segment/...` with no `/` in the segment starts with `/blob/` exactly when the segment is `blob`. */
  lemma LeadingSegment(w: string, t: string)
    requires '/' !in w && |t| > 0 && t[0] == '/'
    ensures StartsWith("/" + w + t, BlobSegment) <==> w == "blob"
  {
    BlobStartShape(w, t);
    if w == "blob" {
      assert ("/" + w + t)[..6] == BlobSegment;
    }
  }

  /** Containment in a non-empty string: at its start or after its first character. */
  lemma ContainsUnfold(x: string, p: string)
    requires |x| > 0
    ensures Contains(x, p) <==> StartsWith(x, p) || Contains(x[1..], p)
  {
  }

  lemma SlashTail(w: string, t: string)
    ensures ("/" + w + t)[1..] == w + t
  {
    assert ("/" + w + t)[1..] == (w + t);
  }

  /** A branch `b1/b2` holds no `/blob/` together with the file name unless `b2` is `blob`. */
  lemma NestedBranchClear(b1: string, b2: string)
    requires '/' !in b1 && '/' !in b2
    ensures !Contains(b1 + "/" + b2 + "/" + IndexFile, BlobSegment) <==> b2 != "blob"
  {
    HostChars();
    var t := "/" + IndexFile;
    var x := "/" + b2 + t;
    LeadingSegment(b2, t);
    PlainBranchClear(b2);
    TailGroups(b2, "/", IndexFile);
    SlashTail(b2, t);
    ContainsUnfold(x, BlobSegment);
    ContainsSkip(b1, x, BlobSegment);
    NestedGroups(b1, b2, t);
    TailGroups(b1 + "/" + b2, "/", IndexFile);
  }

  lemma NestedGroups(b1: string, b2: string, t: string)
    ensures b1 + "/" + b2 + t == b1 + ("/" + b2 + t)
  {
  }

  /** The path of a page address, grouped from the back. */
  lemma PathGroups(owner: string, repo: string, branch: string)
    ensures "/" + owner + "/" + repo + BlobSegment + branch + "/" + IndexFile
         == "/" + owner + ("/" + repo + (BlobSegment + (branch + "/" + IndexFile)))
    ensures "/" + owner + "/" + repo + "/" + branch + "/" + IndexFile
         == "/" + owner + ("/" + repo + ("/" + (branch + "/" + IndexFile)))
  {
  }

  /** The path of a page address loses `/blob/` and keeps owner, repository and branch. */
  lemma PathRewritten(owner: string, repo: string, branch: string)
    requires '/' !in owner && '/' !in repo && !Contains(branch + "/" + IndexFile, BlobSegment)
    requires owner != "blob" && repo != "blob"
    ensures ReplaceAll("/" + owner + "/" + repo + BlobSegment + branch + "/" + IndexFile, BlobSegment, "/")
         == "/" + owner + "/" + repo + "/" + branch + "/" + IndexFile
  {
    HostChars();
    var rest := branch + "/" + IndexFile;
    BranchKept(branch);
    ReplaceAllHere(rest, BlobSegment, "/");
    var s1 := BlobSegment + rest;
    SegmentKept(repo, s1);
    var s2 := "/" + repo + s1;
    SegmentKept(owner, s2);
    PathGroups(owner, repo, branch);
  }

  /** `PathRewritten` for a branch of one segment. */
  lemma PlainPathRewritten(owner: string, repo: string, branch: string)
    requires '/' !in owner && '/' !in repo && '/' !in branch
    requires owner != "blob" && repo != "blob"
    ensures ReplaceAll("/" + owner + "/" + repo + BlobSegment + branch + "/" + IndexFile, BlobSegment, "/")
         == "/" + owner + "/" + repo + "/" + branch + "/" + IndexFile
  {
    PlainBranchClear(branch);
    PathRewritten(owner, repo, branch);
  }

  /** The path of a page address holds no `github.com` when its parts hold none. */
  lemma PathLacksHost(owner: string, repo: string, branch: string)
    requires !Contains(owner, GithubHost) && !Contains(repo, GithubHost) && !Contains(branch, GithubHost)
    ensures !Contains("/" + owner + "/" + repo + BlobSegment + branch + "/" + IndexFile, GithubHost)
  {
    FixedPartsLackHost();
    var s1 := "/" + owner;
    SlashSeam("/", owner);
    SlashSeam(s1, "/");
    SlashSeam(s1 + "/", repo);
    var s2 := s1 + "/" + repo;
    SlashSeam(s2, BlobSegment);
    SlashSeam(s2 + BlobSegment, branch);
    SlashSeam(s2 + BlobSegment + branch, "/");
    SlashSeam(s2 + BlobSegment + branch + "/", IndexFile);
  }

  /** The scheme and the host before a path survive the second replacement. */
  lemma SchemeKept(scheme: string, host: string, path: string)
    requires '/' !in scheme && '/' !in host && host != "blob" && |path| > 0 && path[0] == '/'
    ensures ReplaceAll(scheme + "://" + host + path, BlobSegment, "/")
         == scheme + "://" + host + ReplaceAll(path, BlobSegment, "/")
  {
    HostChars();
    SegmentKept(host, path);
    var z := "/" + host + path;
    SegmentKept("", z);
    assert "/" + "" + z == "/" + z;
    var a := scheme + ":";
    assert '/' !in a;
    ReplaceAllSkip(a, "/" + z, BlobSegment, "/");
    SchemeGroups(scheme, host, path);
    SchemeGroups(scheme, host, ReplaceAll(path, BlobSegment, "/"));
  }

  /** An address grouped from the back, after the scheme's colon. */
  lemma SchemeGroups(scheme: string, host: string, path: string)
    ensures scheme + "://" + host + path == scheme + ":" + ("/" + ("/" + host + path))
  {
  }

  /**
   * A repository page address `<scheme>://github.com/<owner>/<repo>/blob/<branch>/index.html`
   * becomes `<scheme>://raw.githubusercontent.com/<owner>/<repo>/<branch>/index.html`,
   * for a scheme without `/` or `g`, an owner and repository without `/`, `github.com`
   * or the name `blob`, and a branch without `github.com` that, followed by `/index.html`,
   * holds no `/blob/`.
   */
  lemma PageAddressRaw(scheme: string, owner: string, repo: string, branch: string)
    requires '/' !in scheme && 'g' !in scheme
    requires '/' !in owner && '/' !in repo && !Contains(branch + "/" + IndexFile, BlobSegment)
    requires !Contains(owner, GithubHost) && !Contains(repo, GithubHost) && !Contains(branch, GithubHost)
    requires owner != "blob" && repo != "blob"
    ensures RawUrl(scheme + "://" + GithubHost + "/" + owner + "/" + repo + BlobSegment + branch + "/" + IndexFile)
         == scheme + "://" + RawHost + "/" + owner + "/" + repo + "/" + branch + "/" + IndexFile
  {
    HostChars();
    var path := "/" + owner + "/" + repo + BlobSegment + branch + "/" + IndexFile;
    var raw := "/" + owner + "/" + repo + "/" + branch + "/" + IndexFile;
    var a := scheme + "://";
    assert 'g' !in a;
    PathLacksHost(owner, repo, branch);
    HostReplaced(a, path);
    ContainsWitness(a, GithubHost, path);
    SchemeKept(scheme, RawHost, path);
    PathRewritten(owner, repo, branch);
    AddressGroups(a, GithubHost, owner, repo, branch);
    AddressGroups(a, RawHost, owner, repo, branch);
    IndexEnd(a + RawHost + raw, a + RawHost + "/" + owner + "/" + repo + "/" + branch + "/");
  }

  /**
   * A page address whose branch has two segments, such as `feature/x`, becomes the
   * intended raw address unless the second segment is `blob`.
   */
  lemma NestedBranchRaw(scheme: string, owner: string, repo: string, b1: string, b2: string)
    requires '/' !in scheme && 'g' !in scheme
    requires '/' !in owner && '/' !in repo && '/' !in b1 && '/' !in b2 && b2 != "blob"
    requires !Contains(owner, GithubHost) && !Contains(repo, GithubHost)
    requires !Contains(b1, GithubHost) && !Contains(b2, GithubHost)
    requires owner != "blob" && repo != "blob"
    ensures RawUrl(scheme + "://" + GithubHost + "/" + owner + "/" + repo + BlobSegment + (b1 + "/" + b2) + "/" + IndexFile)
         == scheme + "://" + RawHost + "/" + owner + "/" + repo + "/" + (b1 + "/" + b2) + "/" + IndexFile
  {
    FixedPartsLackHost();
    NestedBranchClear(b1, b2);
    SlashSeam(b1, "/");
    SlashSeam(b1 + "/", b2);
    PageAddressRaw(scheme, owner, repo, b1 + "/" + b2);
  }

  /** An address split after its host. */
  lemma AddressGroups(a: string, host: string, owner: string, repo: string, branch: string)
    ensures a + host + "/" + owner + "/" + repo + BlobSegment + branch + "/" + IndexFile
         == a + host + ("/" + owner + "/" + repo + BlobSegment + branch + "/" + IndexFile)
    ensures a + host + "/" + owner + "/" + repo + "/" + branch + "/" + IndexFile
         == a + host + ("/" + owner + "/" + repo + "/" + branch + "/" + IndexFile)
  {
  }

  /** An address that ends in `index.html` is not changed by `PointAtIndex`. */
  lemma IndexEnd(m: string, front: string)
    requires m == front + IndexFile
    ensures PointAtIndex(m) == m
  {
    assert m[|m| - |IndexFile|..] == IndexFile;
  }

  /** An address with two hosts, grouped from the back. */
  lemma TwoHostGroups(a: string, h: string, m: string, b: string)
    ensures a + h + m + h + b == a + (h + (m + h + b))
    ensures a + h + m + h + b == a + h + (m + h + b)
  {
  }

  /** The first replacement on an address with `github.com` twice, each after a part without `g`. */
  lemma HostReplacedTwice(a: string, m: string, b: string)
    requires 'g' !in a && 'g' !in m && !Contains(b, GithubHost)
    ensures ReplaceAll(a + GithubHost + m + GithubHost + b, GithubHost, RawHost) == a + RawHost + m + RawHost + b
  {
    HostChars();
    HostReplaced(m, b);
    ReplaceAllHere(m + GithubHost + b, GithubHost, RawHost);
    ReplaceAllSkip(a, GithubHost + (m + GithubHost + b), GithubHost, RawHost);
    TwoHostGroups(a, GithubHost, m, b);
    TwoHostGroups(a, RawHost, m, b);
  }

  /** The part of a page address from `/blob/` on holds no `github.com` when the branch holds none. */
  lemma BlobTailLacksHost(branch: string)
    requires !Contains(branch, GithubHost)
    ensures !Contains(BlobSegment + branch + "/" + IndexFile, GithubHost)
  {
    FixedPartsLackHost();
    HostChars();
    SlashSeam(BlobSegment, branch);
    SlashSeam(BlobSegment + branch, "/");
    SlashSeam(BlobSegment + branch + "/", IndexFile);
  }

  /** The scheme with its `://` has no `g` and no host. */
  lemma SchemeFront(scheme: string)
    requires '/' !in scheme && 'g' !in scheme
    ensures 'g' !in scheme + "://"
  {
  }

  /** The owner part of a user-site address, and the renamed repository, as the lemmas need them. */
  lemma UserSiteParts(owner: string)
    requires '/' !in owner && 'g' !in owner
    ensures 'g' !in "/" + owner + "/" + owner + "."
    ensures '/' !in owner + "." + RawHost && owner + "." + RawHost != "blob"
  {
    HostChars();
    assert |owner + "." + RawHost| > 4;
  }

  /** A user-site address split at its two hosts, and after its host. */
  lemma UserSiteGroups(a: string, host: string, owner: string, branch: string)
    ensures a + host + "/" + owner + "/" + owner + "." + host + BlobSegment + branch + "/" + IndexFile
         == a + host + ("/" + owner + "/" + owner + ".") + host + (BlobSegment + branch + "/" + IndexFile)
    ensures a + host + ("/" + owner + "/" + owner + ".") + host + (BlobSegment + branch + "/" + IndexFile)
         == a + host + ("/" + owner + "/" + (owner + "." + host) + BlobSegment + branch + "/" + IndexFile)
  {
  }

  /** The raw address of a user-site repository, split after its host. */
  lemma UserSiteRawGroups(a: string, owner: string, branch: string)
    ensures a + RawHost + ("/" + owner + "/" + (owner + "." + RawHost) + "/" + branch + "/" + IndexFile)
         == a + RawHost + "/" + owner + "/" + owner + "." + RawHost + "/" + branch + "/" + IndexFile
  {
  }

  /**
   * `replace` changes every `github.com`, so a repository named in the
   * user-site style `<owner>.github.com` comes out renamed
   * `<owner>.raw.githubusercontent.com`, and the raw address names a
   * repository that the page address does not.
   */
  lemma UserSiteRenamed(scheme: string, owner: string, branch: string)
    requires '/' !in scheme && 'g' !in scheme && '/' !in owner && 'g' !in owner && owner != "blob"
    requires '/' !in branch && !Contains(branch, GithubHost)
    ensures RawUrl(scheme + "://" + GithubHost + "/" + owner + "/" + owner + "." + GithubHost + BlobSegment + branch + "/" + IndexFile)
         == scheme + "://" + RawHost + "/" + owner + "/" + owner + "." + RawHost + "/" + branch + "/" + IndexFile
  {
    var a, m, b := scheme + "://", "/" + owner + "/" + owner + ".", BlobSegment + branch + "/" + IndexFile;
    SchemeFront(scheme);
    UserSiteParts(owner);
    BlobTailLacksHost(branch);
    HostReplacedTwice(a, m, b);
    TwoHostGroups(a, GithubHost, m, b);
    ContainsWitness(a, GithubHost, m + GithubHost + b);
    var repo := owner + "." + RawHost;
    var path := "/" + owner + "/" + repo + BlobSegment + branch + "/" + IndexFile;
    UserSiteGroups(a, GithubHost, owner, branch);
    UserSiteGroups(a, RawHost, owner, branch);
    SchemeKept(scheme, RawHost, path);
    PlainPathRewritten(owner, repo, branch);
    UserSiteRawGroups(a, owner, branch);
    IndexEnd(a + RawHost + ("/" + owner + "/" + repo + "/" + branch + "/" + IndexFile),
             a + RawHost + ("/" + owner + "/" + repo + "/" + branch + "/"));
  }

  /** A page address whose owner is `blob`, split after its host. */
  lemma BlobOwnerGroups(a: string, host: string, repo: string, branch: string)
    ensures a + host + "/blob/" + repo + BlobSegment + branch + "/" + IndexFile
         == a + host + (BlobSegment + repo + BlobSegment + branch + "/" + IndexFile)
    ensures BlobSegment + repo + BlobSegment + branch + "/" + IndexFile
         == BlobSegment + (repo + (BlobSegment + (branch + "/" + IndexFile)))
    ensures a + host + ("/" + (repo + ("/" + (branch + "/" + IndexFile))))
         == a + host + "/" + repo + "/" + branch + "/" + IndexFile
  {
  }

  /** The path of a page address whose owner is `blob` holds no `github.com`. */
  lemma BlobOwnerPathLacksHost(repo: string, branch: string)
    requires !Contains(repo, GithubHost) && !Contains(branch, GithubHost)
    ensures !Contains(BlobSegment + repo + BlobSegment + branch + "/" + IndexFile, GithubHost)
  {
    FixedPartsLackHost();
    BlobTailLacksHost(branch);
    SlashSeam(BlobSegment, repo);
    SlashSeam(BlobSegment + repo, BlobSegment + branch + "/" + IndexFile);
    FourGroups(BlobSegment + repo, BlobSegment, branch, "/", IndexFile);
  }

  lemma FourGroups(x: string, a: string, b: string, c: string, d: string)
    ensures x + a + b + c + d == x + (a + b + c + d)
  {
  }

  /** The path of a page address whose owner is `blob` loses the owner segment. */
  lemma BlobOwnerPath(repo: string, branch: string)
    requires '/' !in repo && '/' !in branch
    ensures ReplaceAll(BlobSegment + (repo + (BlobSegment + (branch + "/" + IndexFile))), BlobSegment, "/")
         == "/" + (repo + ("/" + (branch + "/" + IndexFile)))
  {
    HostChars();
    var rest := branch + "/" + IndexFile;
    ReplaceAllHere(repo + (BlobSegment + rest), BlobSegment, "/");
    ReplaceAllSkip(repo, BlobSegment + rest, BlobSegment, "/");
    ReplaceAllHere(rest, BlobSegment, "/");
    PlainBranchClear(branch);
    BranchKept(branch);
  }

  /**
   * `replace` removes every `/blob/`, so for an owner named `blob` the
   * owner segment after the host goes as well, and the raw address puts
   * the repository where the owner belongs and the branch where the
   * repository belongs.
   */
  lemma BlobOwnerDropped(scheme: string, repo: string, branch: string)
    requires '/' !in scheme && 'g' !in scheme
    requires '/' !in repo && !Contains(repo, GithubHost) && '/' !in branch && !Contains(branch, GithubHost)
    ensures RawUrl(scheme + "://" + GithubHost + "/blob/" + repo + BlobSegment + branch + "/" + IndexFile)
         == scheme + "://" + RawHost + "/" + repo + "/" + branch + "/" + IndexFile
  {
    var a := scheme + "://";
    var path := BlobSegment + repo + BlobSegment + branch + "/" + IndexFile;
    SchemeFront(scheme);
    BlobOwnerGroups(a, GithubHost, repo, branch);
    BlobOwnerGroups(a, RawHost, repo, branch);
    BlobOwnerPathLacksHost(repo, branch);
    HostReplaced(a, path);
    ContainsWitness(a, GithubHost, path);
    SchemeKept(scheme, RawHost, path);
    BlobOwnerPath(repo, branch);
    IndexEnd(a + RawHost + ("/" + (repo + ("/" + (branch + "/" + IndexFile)))),
             a + RawHost + "/" + repo + "/" + branch + "/");
  }

  /** The worked example's page address in segments. */
  lemma ExampleAddressSpelled(u: string, scheme: string, owner: string, repo: string, branch: string)
    requires u == "https://github.com/user/repo/blob/main/index.html"
    requires scheme == "https" && owner == "user" && repo == "repo" && branch == "main"
    ensures u == scheme + "://" + GithubHost + "/" + owner + "/" + repo + BlobSegment + branch + "/" + IndexFile
  {
    var x, y := "https://github.com/user/repo", "/blob/main/index.html";
    SplitSpelled(u, x, y);
    assert x == scheme + "://" + GithubHost + "/" + owner + "/" + repo;
    assert y == BlobSegment + branch + "/" + IndexFile;
  }

  lemma SplitSpelled(u: string, x: string, y: string)
    requires u == "https://github.com/user/repo/blob/main/index.html"
    requires x == "https://github.com/user/repo" && y == "/blob/main/index.html"
    ensures u == x + y
  {
  }

  /** The worked example's raw address in segments. */
  lemma ExampleRawSpelled(r: string, scheme: string, owner: string, repo: string, branch: string)
    requires r == "https://raw.githubusercontent.com/user/repo/main/index.html"
    requires scheme == "https" && owner == "user" && repo == "repo" && branch == "main"
    ensures r == scheme + "://" + RawHost + "/" + owner + "/" + repo + "/" + branch + "/" + IndexFile
  {
    var x, y := "https://raw.githubusercontent.com/user/repo", "/main/index.html";
    RawSplitSpelled(r, x, y);
    var x1, x2 := "https://raw.githubusercontent.com", "/user/repo";
    RawHostSplitSpelled(x, x1, x2);
    SchemeHostSpelled(x1, scheme);
    assert x2 == "/" + owner + "/" + repo;
    assert y == "/" + branch + "/" + IndexFile;
  }

  lemma SchemeHostSpelled(x1: string, scheme: string)
    requires x1 == "https://raw.githubusercontent.com" && scheme == "https"
    ensures x1 == scheme + "://" + RawHost
  {
  }

  lemma RawHostSplitSpelled(x: string, x1: string, x2: string)
    requires x == "https://raw.githubusercontent.com/user/repo"
    requires x1 == "https://raw.githubusercontent.com" && x2 == "/user/repo"
    ensures x == x1 + x2
  {
  }

  lemma RawSplitSpelled(r: string, x: string, y: string)
    requires r == "https://raw.githubusercontent.com/user/repo/main/index.html"
    requires x == "https://raw.githubusercontent.com/user/repo" && y == "/main/index.html"
    ensures r == x + y
  {
  }

  /** The segments of the worked example meet the conditions of `PageAddressRaw`. */
  lemma ExampleSegments(scheme: string, owner: string, repo: string, branch: string)
    requires scheme == "https" && owner == "user" && repo == "repo" && branch == "main"
    ensures '/' !in scheme && 'g' !in scheme
    ensures '/' !in owner && '/' !in repo && '/' !in branch
    ensures !Contains(owner, GithubHost) && !Contains(repo, GithubHost) && !Contains(branch, GithubHost)
    ensures owner != "blob" && repo != "blob"
  {
    ShortMisses(owner, GithubHost);
    ShortMisses(repo, GithubHost);
    ShortMisses(branch, GithubHost);
  }

  /**
   * The address a student is asked for, the repository page of
   * `index.html`, becomes the raw address of that file.
   */
  lemma PageAddressExample(u: string, r: string)
    requires u == "https://github.com/user/repo/blob/main/index.html"
    requires r == "https://raw.githubusercontent.com/user/repo/main/index.html"
    ensures RawUrl(u) == r
  {
    var scheme, owner, repo, branch := "https", "user", "repo", "main";
    ExampleAddressSpelled(u, scheme, owner, repo, branch);
    ExampleRawSpelled(r, scheme, owner, repo, branch);
    ExampleSegments(scheme, owner, repo, branch);
    PlainBranchClear(branch);
    PageAddressRaw(scheme, owner, repo, branch);
  }
}
