/** Speckle URL parsing: `IFCExtractor.parse_url`, which turns a model URL into
    `(server, project_id, model_id)`, and `get_commit_id_from_preview_url`,
    which finds the commit id in a model's preview URL.

    The Python code uses regular expressions. Here each one is written out as
    a scanner: a literal marker at a position, followed by a greedy run of
    `[a-f0-9]`, searched for leftmost-first as `re.search` does. */
module SpeckleUrl {
  import opened Wrappers

  const HttpScheme: string := "http://"
  const HttpsScheme: string := "https://"
  const ProjectsMarker: string := "/projects/"
  const ModelsMarker: string := "/models/"
  const StreamsMarker: string := "/streams/"
  const CommitsMarker: string := "/commits/"

  /** The character class `[a-f0-9]`. */
  predicate IsHexDigit(c: char) {
    '0' <= c <= '9' || 'a' <= c <= 'f'
  }

  /** What a capture group `([a-f0-9]+)` can hold. */
  predicate IsHexId(s: string) {
    |s| > 0 && forall k :: 0 <= k < |s| ==> IsHexDigit(s[k])
  }

  /** The two character classes the regular expressions repeat: `[a-f0-9]` and `[^/]`. */
  datatype CharClass = Hex | NotSlash

  predicate InClass(c: char, cls: CharClass) {
    match cls
    case Hex => IsHexDigit(c)
    case NotSlash => c != '/'
  }

  /** Length of the longest run of class `cls` in `s` from position `i`:
      what a greedy repetition of that class consumes there. */
  function RunLength(s: string, i: nat, cls: CharClass): (n: nat)
    requires i <= |s|
    ensures i + n <= |s|
    ensures forall k :: i <= k < i + n ==> InClass(s[k], cls)
    ensures i + n == |s| || !InClass(s[i + n], cls)
    decreases |s| - i
  {
    if i < |s| && InClass(s[i], cls) then 1 + RunLength(s, i + 1, cls) else 0
  }

  /** The literal `lit` occurs in `s` at position `i`. */
  predicate HasAt(s: string, i: nat, lit: string) {
    i + |lit| <= |s| && s[i..i + |lit|] == lit
  }

  /** Position `j` ends a hex run: it is the end of `s` or holds no hex digit. */
  predicate EndsHexRun(s: string, j: nat) {
    j >= |s| || !IsHexDigit(s[j])
  }

  /** `id` is the whole hex run of `s` that starts at `j`. */
  predicate HexIdAt(s: string, j: nat, id: string) {
    HasAt(s, j, id) && IsHexId(id) && EndsHexRun(s, j + |id|)
  }

  /** The hex run of `s` starting at `j` (empty when there is none). */
  function HexFrom(s: string, j: nat): string
    requires j <= |s|
  {
    s[j..j + RunLength(s, j, Hex)]
  }

  lemma HexIdAtIff(s: string, j: nat, id: string)
    requires j <= |s|
    ensures HexIdAt(s, j, id) <==> RunLength(s, j, Hex) > 0 && id == HexFrom(s, j)
  {
    var n := RunLength(s, j, Hex);
    if HexIdAt(s, j, id) {
      forall k | j <= k < j + |id|
        ensures IsHexDigit(s[k])
      {
        assert s[k] == s[j..j + |id|][k - j];
      }
      assert n == |id|;
    }
    if n > 0 && id == HexFrom(s, j) {
      forall k | 0 <= k < |id|
        ensures IsHexDigit(id[k])
      {
        assert id[k] == s[j + k];
      }
    }
  }

  /** The three regular expressions searched for. */
  datatype Pattern =
    | ProjectModel  // /projects/([a-f0-9]+)/models/([a-f0-9]+)
    | Stream        // /streams/([a-f0-9]+)
    | Commit        // /commits/([a-f0-9]+)

  /** `marker` at `i`, followed by at least one hex digit. */
  predicate MarkedHexAt(s: string, i: nat, marker: string) {
    HasAt(s, i, marker) && RunLength(s, i + |marker|, Hex) > 0
  }

  /** Where the first group of a `ProjectModel` match at `i` ends. A shorter
      group cannot be followed by '/', so the greedy run is the only choice. */
  function ProjectEnd(s: string, i: nat): nat
    requires HasAt(s, i, ProjectsMarker)
  {
    i + |ProjectsMarker| + RunLength(s, i + |ProjectsMarker|, Hex)
  }

  /** The regular expression of `pattern` matches `s` starting at `i`. */
  predicate MatchesAt(s: string, i: nat, pattern: Pattern) {
    match pattern
    case ProjectModel =>
      MarkedHexAt(s, i, ProjectsMarker) && MarkedHexAt(s, ProjectEnd(s, i), ModelsMarker)
    case Stream => MarkedHexAt(s, i, StreamsMarker)
    case Commit => MarkedHexAt(s, i, CommitsMarker)
  }

  /** The leftmost position at or after `from` where `pattern` matches. */
  function Search(s: string, pattern: Pattern, from: nat): (r: Option<nat>)
    requires from <= |s|
    ensures r.Some? ==> from <= r.value <= |s| && MatchesAt(s, r.value, pattern)
    ensures r.Some? ==> forall k :: from <= k < r.value ==> !MatchesAt(s, k, pattern)
    ensures r.None? ==> forall k :: from <= k <= |s| ==> !MatchesAt(s, k, pattern)
    decreases |s| - from
  {
    if MatchesAt(s, from, pattern) then Some(from)
    else if from == |s| then None
    else Search(s, pattern, from + 1)
  }

  /** The first group of a `ProjectModel` match at `i`. */
  function ProjectIdAt(s: string, i: nat): string
    requires MatchesAt(s, i, ProjectModel)
  {
    HexFrom(s, i + |ProjectsMarker|)
  }

  /** The second group of a `ProjectModel` match at `i`. */
  function ModelIdAt(s: string, i: nat): string
    requires MatchesAt(s, i, ProjectModel)
  {
    HexFrom(s, ProjectEnd(s, i) + |ModelsMarker|)
  }

  /** `/projects/<project>/models/<model>` occurs at `i`, each id a whole hex run. */
  predicate ProjectModelAt(s: string, i: nat, project: string, model: string) {
    MarkedIdAt(s, i, ProjectsMarker, project) && MarkedIdAt(s, i + |ProjectsMarker| + |project|, ModelsMarker, model)
  }

  /** `<marker><id>` occurs at `i`, `id` a whole hex run. */
  predicate MarkedIdAt(s: string, i: nat, marker: string, id: string) {
    HasAt(s, i, marker) && HexIdAt(s, i + |marker|, id)
  }

  lemma ProjectModelMatched(s: string, i: nat)
    requires MatchesAt(s, i, ProjectModel)
    ensures ProjectModelAt(s, i, ProjectIdAt(s, i), ModelIdAt(s, i))
  {
    var project, model := ProjectIdAt(s, i), ModelIdAt(s, i);
    MarkedIdMatch(s, i, ProjectsMarker, project);
    assert ProjectEnd(s, i) == i + |ProjectsMarker| + |project|;
    MarkedIdMatch(s, ProjectEnd(s, i), ModelsMarker, model);
  }

  lemma ProjectModelMatches(s: string, i: nat, project: string, model: string)
    requires ProjectModelAt(s, i, project, model)
    ensures MatchesAt(s, i, ProjectModel) && project == ProjectIdAt(s, i) && model == ModelIdAt(s, i)
  {
    MarkedIdMatch(s, i, ProjectsMarker, project);
    assert ProjectEnd(s, i) == i + |ProjectsMarker| + |project|;
    MarkedIdMatch(s, ProjectEnd(s, i), ModelsMarker, model);
  }

  lemma MarkedIdMatch(s: string, i: nat, marker: string, id: string)
    ensures MarkedHexAt(s, i, marker) && id == HexFrom(s, i + |marker|) <==> MarkedIdAt(s, i, marker, id)
  {
    if HasAt(s, i, marker) {
      HexIdAtIff(s, i + |marker|, id);
    }
  }

  /** `url.rstrip('/')`: the longest prefix of `s` that does not end in '/'. */
  function StripTrailingSlashes(s: string): (r: string)
    ensures r <= s
    ensures r == [] || r[|r| - 1] != '/'
    ensures forall k :: |r| <= k < |s| ==> s[k] == '/'
  {
    if s != [] && s[|s| - 1] == '/' then StripTrailingSlashes(s[..|s| - 1]) else s
  }

  /** `server` is `scheme` followed by a nonempty host that holds no '/'. */
  predicate SchemeAndHost(server: string, scheme: string) {
    && |scheme| < |server|
    && server[..|scheme|] == scheme
    && forall k :: |scheme| <= k < |server| ==> server[k] != '/'
  }

  /** `server` is what `re.match(r'(https?://[^/]+)', u).group(1)` gives: a prefix
      of `u` made of a scheme and a host that the next character of `u` cannot extend. */
  predicate IsServerOf(server: string, u: string) {
    && (SchemeAndHost(server, HttpScheme) || SchemeAndHost(server, HttpsScheme))
    && server <= u
    && (|server| == |u| || u[|server|] == '/')
  }

  /** The server part of `u`, or None when `u` does not start with `http(s)://host`. */
  function Server(u: string): (r: Option<string>)
    ensures r.Some? ==> IsServerOf(r.value, u)
  {
    var schemeLength :=
      if HasAt(u, 0, HttpsScheme) then |HttpsScheme|
      else if HasAt(u, 0, HttpScheme) then |HttpScheme|
      else 0;
    if schemeLength == 0 then None
    else
      var hostLength := RunLength(u, schemeLength, NotSlash);
      if hostLength == 0 then None
      else
        var server := u[..schemeLength + hostLength];
        assert server[..schemeLength] == u[..schemeLength];
        Some(server)
  }

  /** What `parse_url` returns. `projectId` is None for the legacy stream format,
      whose single id is returned as the model id. */
  datatype Location = Location(server: string, projectId: Option<string>, modelId: string)

  datatype UrlError =
    | NoServer           // no `http(s)://host` prefix: `re.match` gives None and `.group(1)` raises
    | UnsupportedFormat  // neither URL format occurs: "Unsupported URL format"

  /** `IFCExtractor.parse_url`. */
  function ParseUrl(url: string): (r: Result<Location, UrlError>)
    ensures r.Success? ==> IsServerOf(r.value.server, StripTrailingSlashes(url))
    ensures r.Success? ==> IsHexId(r.value.modelId)
    ensures r.Success? && r.value.projectId.Some? ==> IsHexId(r.value.projectId.value)
  {
    var u := StripTrailingSlashes(url);
    match Server(u)
    case None => Failure(NoServer)
    case Some(server) =>
      match Search(u, ProjectModel, 0)
      case Some(i) =>
        ProjectModelMatched(u, i);
        Success(Location(server, Some(ProjectIdAt(u, i)), ModelIdAt(u, i)))
      case None =>
        match Search(u, Stream, 0)
        case Some(i) =>
          MarkedIdMatch(u, i, StreamsMarker, HexFrom(u, i + |StreamsMarker|));
          Success(Location(server, None, HexFrom(u, i + |StreamsMarker|)))
        case None => Failure(UnsupportedFormat)
  }

  /** `pattern` matches at `i` and nowhere before it. */
  predicate FirstMatch(s: string, i: nat, pattern: Pattern) {
    i <= |s| && MatchesAt(s, i, pattern) && forall k :: 0 <= k < i ==> !MatchesAt(s, k, pattern)
  }

  /** `pattern` matches nowhere in `s`. */
  predicate NoMatch(s: string, pattern: Pattern) {
    forall k :: 0 <= k <= |s| ==> !MatchesAt(s, k, pattern)
  }

  lemma ServerUnique(a: string, b: string, u: string)
    requires IsServerOf(a, u) && IsServerOf(b, u)
    ensures a == b
  {
    assert a[4] == u[4] == b[4];
    var la := if SchemeAndHost(a, HttpScheme) then |HttpScheme| else |HttpsScheme|;
    var lb := if SchemeAndHost(b, HttpScheme) then |HttpScheme| else |HttpsScheme|;
    assert la == lb;
  }

  /** `Server` finds a server whenever `u` has one. */
  lemma ServerFound(u: string, server: string)
    requires IsServerOf(server, u)
    ensures Server(u).Some?
  {
    assert server[..|HttpScheme|] == u[..|HttpScheme|];
    if SchemeAndHost(server, HttpsScheme) {
      assert server[..|HttpsScheme|] == u[..|HttpsScheme|];
      assert HasAt(u, 0, HttpsScheme);
      assert u[|HttpsScheme|] == server[|HttpsScheme|];
    } else {
      assert u[4] == server[4];
      assert HasAt(u, 0, HttpScheme);
      assert u[|HttpScheme|] == server[|HttpScheme|];
    }
  }

  lemma ServerIs(u: string, server: string)
    requires IsServerOf(server, u)
    ensures Server(u) == Some(server)
  {
    ServerFound(u, server);
    ServerUnique(Server(u).value, server, u);
  }

  /** `Server` fails exactly when `u` has no server prefix. */
  lemma ServerExists(u: string)
    ensures Server(u).None? <==> forall server :: !IsServerOf(server, u)
  {
    if exists server :: IsServerOf(server, u) {
      var server :| IsServerOf(server, u);
      ServerIs(u, server);
    }
  }

  lemma SearchFinds(s: string, pattern: Pattern, i: nat)
    requires FirstMatch(s, i, pattern)
    ensures Search(s, pattern, 0) == Some(i)
  {
  }

  /** A URL in the project/model format parses to its server and both ids,
      whatever else (a `/streams/` segment, say) occurs in it. */
  lemma ParseUrlProjectFormat(url: string, server: string, project: string, model: string)
    ensures var u := StripTrailingSlashes(url);
      ParseUrl(url) == Success(Location(server, Some(project), model))
      <==> IsServerOf(server, u) && exists i :: FirstMatch(u, i, ProjectModel) && ProjectModelAt(u, i, project, model)
  {
    var u := StripTrailingSlashes(url);
    if ParseUrl(url) == Success(Location(server, Some(project), model)) {
      ParsedProject(url, server, project, model);
    }
    if IsServerOf(server, u) && exists i :: FirstMatch(u, i, ProjectModel) && ProjectModelAt(u, i, project, model) {
      var i :| FirstMatch(u, i, ProjectModel) && ProjectModelAt(u, i, project, model);
      ProjectParsed(url, server, project, model, i);
    }
  }

  lemma ParseUrlProjectStep(url: string, server: string, project: string, model: string)
    ensures var u := StripTrailingSlashes(url);
      ParseUrl(url) == Success(Location(server, Some(project), model))
      <==> && Server(u) == Some(server) && Search(u, ProjectModel, 0).Some?
           && project == ProjectIdAt(u, Search(u, ProjectModel, 0).value)
           && model == ModelIdAt(u, Search(u, ProjectModel, 0).value)
  {
  }

  lemma ParsedProject(url: string, server: string, project: string, model: string)
    requires ParseUrl(url) == Success(Location(server, Some(project), model))
    ensures var u := StripTrailingSlashes(url);
      IsServerOf(server, u) && exists i :: FirstMatch(u, i, ProjectModel) && ProjectModelAt(u, i, project, model)
  {
    var u := StripTrailingSlashes(url);
    ParseUrlProjectStep(url, server, project, model);
    var i := Search(u, ProjectModel, 0).value;
    ProjectModelMatched(u, i);
    assert FirstMatch(u, i, ProjectModel);
  }

  lemma ProjectParsed(url: string, server: string, project: string, model: string, i: nat)
    requires var u := StripTrailingSlashes(url);
      IsServerOf(server, u) && FirstMatch(u, i, ProjectModel) && ProjectModelAt(u, i, project, model)
    ensures ParseUrl(url) == Success(Location(server, Some(project), model))
  {
    var u := StripTrailingSlashes(url);
    ServerIs(u, server);
    SearchFinds(u, ProjectModel, i);
    ProjectModelMatches(u, i, project, model);
    ParseUrlProjectStep(url, server, project, model);
  }

  lemma ParseUrlStreamStep(url: string, server: string, stream: string)
    ensures var u := StripTrailingSlashes(url);
      ParseUrl(url) == Success(Location(server, None, stream))
      <==> && Server(u) == Some(server) && Search(u, ProjectModel, 0).None? && Search(u, Stream, 0).Some?
           && stream == HexFrom(u, Search(u, Stream, 0).value + |StreamsMarker|)
  {
  }

  /** A URL in the legacy format, with no project/model segment, parses to its
      server, no project id, and the stream id as model id. */
  lemma ParseUrlStreamFormat(url: string, server: string, stream: string)
    ensures var u := StripTrailingSlashes(url);
      ParseUrl(url) == Success(Location(server, None, stream))
      <==> && IsServerOf(server, u) && NoMatch(u, ProjectModel)
           && exists i :: FirstMatch(u, i, Stream) && MarkedIdAt(u, i, StreamsMarker, stream)
  {
    var u := StripTrailingSlashes(url);
    if ParseUrl(url) == Success(Location(server, None, stream)) {
      ParsedStream(url, server, stream);
    }
    if && IsServerOf(server, u) && NoMatch(u, ProjectModel)
       && exists i :: FirstMatch(u, i, Stream) && MarkedIdAt(u, i, StreamsMarker, stream)
    {
      var i :| FirstMatch(u, i, Stream) && MarkedIdAt(u, i, StreamsMarker, stream);
      StreamParsed(url, server, stream, i);
    }
  }

  lemma ParsedStream(url: string, server: string, stream: string)
    requires ParseUrl(url) == Success(Location(server, None, stream))
    ensures var u := StripTrailingSlashes(url);
      && IsServerOf(server, u) && NoMatch(u, ProjectModel)
      && exists i :: FirstMatch(u, i, Stream) && MarkedIdAt(u, i, StreamsMarker, stream)
  {
    var u := StripTrailingSlashes(url);
    ParseUrlStreamStep(url, server, stream);
    var i := Search(u, Stream, 0).value;
    MarkedIdMatch(u, i, StreamsMarker, stream);
    assert FirstMatch(u, i, Stream);
  }

  lemma StreamParsed(url: string, server: string, stream: string, i: nat)
    requires var u := StripTrailingSlashes(url);
      && IsServerOf(server, u) && NoMatch(u, ProjectModel)
      && FirstMatch(u, i, Stream) && MarkedIdAt(u, i, StreamsMarker, stream)
    ensures ParseUrl(url) == Success(Location(server, None, stream))
  {
    var u := StripTrailingSlashes(url);
    ServerIs(u, server);
    SearchFinds(u, Stream, i);
    MarkedIdMatch(u, i, StreamsMarker, stream);
    ParseUrlStreamStep(url, server, stream);
  }

  /** "Unsupported URL format" is raised exactly when the URL has a server but
      neither format occurs in it. */
  lemma ParseUrlUnsupported(url: string)
    ensures var u := StripTrailingSlashes(url);
      ParseUrl(url) == Failure(UnsupportedFormat)
      <==> (exists server :: IsServerOf(server, u)) && NoMatch(u, ProjectModel) && NoMatch(u, Stream)
  {
    var u := StripTrailingSlashes(url);
    if exists server :: IsServerOf(server, u) {
      var server :| IsServerOf(server, u);
      ServerIs(u, server);
    }
  }

  lemma ParseUrlNoServerStep(url: string)
    ensures ParseUrl(url) == Failure(NoServer) <==> Server(StripTrailingSlashes(url)).None?
  {
  }

  /** Without an `http(s)://host` prefix the call fails before any format is tried. */
  lemma ParseUrlNoServer(url: string)
    ensures ParseUrl(url) == Failure(NoServer) <==> forall server :: !IsServerOf(server, StripTrailingSlashes(url))
  {
    ParseUrlNoServerStep(url);
    ServerExists(StripTrailingSlashes(url));
  }

  /** Trailing slashes make no difference. */
  lemma ParseUrlTrailingSlash(url: string)
    ensures ParseUrl(url + "/") == ParseUrl(url)
  {
    assert (url + "/")[..|url|] == url;
  }

  /** `n` copies of '/'. */
  function Slashes(n: nat): (r: string)
    ensures |r| == n && forall k :: 0 <= k < n ==> r[k] == '/'
  {
    seq(n, _ => '/')
  }

  lemma StripSlashes(u: string, n: nat)
    requires u == [] || u[|u| - 1] != '/'
    ensures StripTrailingSlashes(u + Slashes(n)) == u
  {
    if n > 0 {
      assert (u + Slashes(n))[..|u| + n - 1] == u + Slashes(n - 1);
      StripSlashes(u, n - 1);
    } else {
      assert u + Slashes(n) == u;
    }
  }

  /** A literal of the form `/word/`, with no other '/'. */
  predicate IsSegmentMarker(marker: string) {
    && |marker| >= 3
    && marker[0] == '/' && marker[|marker| - 1] == '/'
    && forall j :: 0 < j < |marker| - 1 ==> marker[j] != '/'
  }

  /** Inside the server part a `/word/` marker can only start at the second '/'
      of the scheme, and then it ends at the '/' after the host; when no hex digit
      follows that '/', the marker has no id. */
  lemma NoMarkerInServer(u: string, server: string, marker: string, k: nat)
    requires IsServerOf(server, u) && IsSegmentMarker(marker) && k < |server|
    requires EndsHexRun(u, |server| + 1)
    ensures !MarkedHexAt(u, k, marker)
  {
    var scheme := if SchemeAndHost(server, HttpScheme) then HttpScheme else HttpsScheme;
    var L := |scheme|;
    assert server[..L] == scheme;
    assert forall j :: 0 <= j < L - 2 ==> server[j] == scheme[j] != '/';
    assert server[L - 1] == scheme[L - 1] == '/';
    assert forall j :: 0 <= j < |server| ==> u[j] == server[j];
    if HasAt(u, k, marker) {
      var e := k + |marker| - 1;
      assert u[k] == u[k..k + |marker|][0] == '/';
      assert u[e] == u[k..k + |marker|][|marker| - 1] == '/';
      assert forall j :: k < j < e ==> u[j] == u[k..k + |marker|][j - k] != '/';
      assert u[k + 1] != '/';
      assert k == L - 1;
      assert e == |server|;
    }
  }

  /** The server part of a URL built as scheme, host and a '/'-led tail. */
  lemma ServerOfBuiltUrl(scheme: string, host: string, tail: string)
    requires scheme == HttpScheme || scheme == HttpsScheme
    requires host != [] && forall k :: 0 <= k < |host| ==> host[k] != '/'
    requires tail != [] && tail[0] == '/'
    ensures IsServerOf(scheme + host, scheme + host + tail)
  {
    var server := scheme + host;
    assert server[..|scheme|] == scheme;
    assert SchemeAndHost(server, scheme);
    assert (server + tail)[..|server|] == server;
    assert (server + tail)[|server|] == tail[0];
  }

  lemma ProjectModelAtBuilt(server: string, project: string, model: string)
    requires IsHexId(project) && IsHexId(model)
    ensures var u := server + ProjectsMarker + project + ModelsMarker + model;
      ProjectModelAt(u, |server|, project, model) && EndsHexRun(u, |server| + 1)
  {
    var u := server + ProjectsMarker + project + ModelsMarker + model;
    var a := |server|;
    var b := a + |ProjectsMarker|;
    var c := b + |project|;
    var d := c + |ModelsMarker|;
    assert u[a..b] == ProjectsMarker;
    assert u[b..c] == project;
    assert u[c..d] == ModelsMarker;
    assert u[d..] == model;
    assert u[c] == '/';
    assert u[a + 1] == 'p';
  }

  lemma StreamAtBuilt(server: string, stream: string)
    requires IsHexId(stream)
    ensures var u := server + StreamsMarker + stream;
      MarkedIdAt(u, |server|, StreamsMarker, stream) && EndsHexRun(u, |server| + 1)
  {
    var u := server + StreamsMarker + stream;
    var a := |server|;
    var b := a + |StreamsMarker|;
    assert u[a..b] == StreamsMarker;
    assert u[b..] == stream;
    assert u[a + 1] == 's';
  }

  /** After the server, a `/streams/<id>` tail holds no `/projects/`. */
  lemma NoProjectsInStreamTail(server: string, stream: string, k: nat)
    requires IsHexId(stream)
    requires |server| <= k
    ensures !HasAt(server + StreamsMarker + stream, k, ProjectsMarker)
  {
    var u := server + StreamsMarker + stream;
    var a := |server|;
    var b := a + |StreamsMarker|;
    if k + |ProjectsMarker| <= |u| {
      var w := u[k..k + |ProjectsMarker|];
      assert w[0] == u[k] && w[1] == u[k + 1];
      if k < b {
        assert u[k] == StreamsMarker[k - a];
        assert u[k + 1] == if k + 1 < b then StreamsMarker[k + 1 - a] else stream[0];
      } else {
        assert u[k] == stream[k - b];
      }
    }
  }

  /** A URL of the project/model shape shown in the tool's usage text parses back
      to its server and ids, with any number of trailing slashes. */
  lemma ParseProjectUrl(scheme: string, host: string, project: string, model: string, slashes: nat)
    requires scheme == HttpScheme || scheme == HttpsScheme
    requires host != [] && forall k :: 0 <= k < |host| ==> host[k] != '/'
    requires IsHexId(project) && IsHexId(model)
    ensures ParseUrl(scheme + host + ProjectsMarker + project + ModelsMarker + model + Slashes(slashes))
         == Success(Location(scheme + host, Some(project), model))
  {
    var server := scheme + host;
    var tail := ProjectsMarker + project + ModelsMarker + model;
    var u := server + ProjectsMarker + project + ModelsMarker + model;
    assert u == server + tail;
    assert scheme + host + ProjectsMarker + project + ModelsMarker + model + Slashes(slashes) == u + Slashes(slashes);
    ServerOfBuiltUrl(scheme, host, tail);
    ProjectModelAtBuilt(server, project, model);
    assert u[|u| - 1] == model[|model| - 1];
    ParsesProject(u, server, project, model, slashes);
  }

  /** The project/model format found right after the server. */
  lemma ParsesProject(u: string, server: string, project: string, model: string, slashes: nat)
    requires IsServerOf(server, u) && ProjectModelAt(u, |server|, project, model)
    requires EndsHexRun(u, |server| + 1)
    requires u == [] || u[|u| - 1] != '/'
    ensures ParseUrl(u + Slashes(slashes)) == Success(Location(server, Some(project), model))
  {
    StripSlashes(u, slashes);
    forall k | 0 <= k < |server|
      ensures !MatchesAt(u, k, ProjectModel)
    {
      NoMarkerInServer(u, server, ProjectsMarker, k);
    }
    ProjectModelMatches(u, |server|, project, model);
    assert FirstMatch(u, |server|, ProjectModel);
    ProjectParsed(u + Slashes(slashes), server, project, model, |server|);
  }

  /** A URL of the legacy `/streams/<id>` shape parses back to its server and id. */
  lemma ParseStreamUrl(scheme: string, host: string, stream: string, slashes: nat)
    requires scheme == HttpScheme || scheme == HttpsScheme
    requires host != [] && forall k :: 0 <= k < |host| ==> host[k] != '/'
    requires IsHexId(stream)
    ensures ParseUrl(scheme + host + StreamsMarker + stream + Slashes(slashes))
         == Success(Location(scheme + host, None, stream))
  {
    var server := scheme + host;
    var tail := StreamsMarker + stream;
    var u := server + StreamsMarker + stream;
    assert u == server + tail;
    assert scheme + host + StreamsMarker + stream + Slashes(slashes) == u + Slashes(slashes);
    ServerOfBuiltUrl(scheme, host, tail);
    StreamAtBuilt(server, stream);
    assert u[|u| - 1] == stream[|stream| - 1];
    forall k | |server| <= k <= |u|
      ensures !HasAt(u, k, ProjectsMarker)
    {
      NoProjectsInStreamTail(server, stream, k);
    }
    ParsesStream(u, server, stream, slashes);
  }

  /** The stream format found right after the server, with no project/model
      segment after it. */
  lemma ParsesStream(u: string, server: string, stream: string, slashes: nat)
    requires IsServerOf(server, u) && MarkedIdAt(u, |server|, StreamsMarker, stream)
    requires EndsHexRun(u, |server| + 1)
    requires u == [] || u[|u| - 1] != '/'
    requires forall k :: |server| <= k <= |u| ==> !HasAt(u, k, ProjectsMarker)
    ensures ParseUrl(u + Slashes(slashes)) == Success(Location(server, None, stream))
  {
    StripSlashes(u, slashes);
    forall k | 0 <= k < |server|
      ensures !MatchesAt(u, k, Stream)
    {
      NoMarkerInServer(u, server, StreamsMarker, k);
    }
    forall k | 0 <= k <= |u|
      ensures !MatchesAt(u, k, ProjectModel)
    {
      if k < |server| {
        NoMarkerInServer(u, server, ProjectsMarker, k);
      }
    }
    MarkedIdMatch(u, |server|, StreamsMarker, stream);
    assert FirstMatch(u, |server|, Stream);
    StreamParsed(u + Slashes(slashes), server, stream, |server|);
  }

  /** `get_commit_id_from_preview_url`. `previewUrl` is None when the model has
      no `preview_url` attribute or it is None. */
  function CommitIdFromPreviewUrl(previewUrl: Option<string>): (r: Option<string>)
    ensures r.Some? ==> IsHexId(r.value)
  {
    match previewUrl
    case None => None
    case Some(s) =>
      if s == "" then None
      else
        match Search(s, Commit, 0)
        case None => None
        case Some(i) =>
          MarkedIdMatch(s, i, CommitsMarker, HexFrom(s, i + |CommitsMarker|));
          Some(HexFrom(s, i + |CommitsMarker|))
  }

  /** The commit id is the hex run after the first `/commits/` followed by a hex digit. */
  lemma CommitIdFound(previewUrl: string, commit: string)
    ensures CommitIdFromPreviewUrl(Some(previewUrl)) == Some(commit)
            <==> exists i :: FirstMatch(previewUrl, i, Commit) && MarkedIdAt(previewUrl, i, CommitsMarker, commit)
  {
    if CommitIdFromPreviewUrl(Some(previewUrl)) == Some(commit) {
      FoundCommit(previewUrl, commit);
    }
    if exists i :: FirstMatch(previewUrl, i, Commit) && MarkedIdAt(previewUrl, i, CommitsMarker, commit) {
      var i :| FirstMatch(previewUrl, i, Commit) && MarkedIdAt(previewUrl, i, CommitsMarker, commit);
      CommitFound(previewUrl, commit, i);
    }
  }

  lemma FoundCommit(previewUrl: string, commit: string)
    requires CommitIdFromPreviewUrl(Some(previewUrl)) == Some(commit)
    ensures exists i :: FirstMatch(previewUrl, i, Commit) && MarkedIdAt(previewUrl, i, CommitsMarker, commit)
  {
    CommitIdStep(previewUrl, commit);
    var i := Search(previewUrl, Commit, 0).value;
    MarkedIdMatch(previewUrl, i, CommitsMarker, commit);
    assert FirstMatch(previewUrl, i, Commit);
  }

  lemma CommitFound(previewUrl: string, commit: string, i: nat)
    requires FirstMatch(previewUrl, i, Commit) && MarkedIdAt(previewUrl, i, CommitsMarker, commit)
    ensures CommitIdFromPreviewUrl(Some(previewUrl)) == Some(commit)
  {
    SearchFinds(previewUrl, Commit, i);
    MarkedIdMatch(previewUrl, i, CommitsMarker, commit);
    assert previewUrl != "";
    CommitIdStep(previewUrl, commit);
  }

  lemma CommitIdStep(previewUrl: string, commit: string)
    ensures CommitIdFromPreviewUrl(Some(previewUrl)) == Some(commit)
            <==> && previewUrl != "" && Search(previewUrl, Commit, 0).Some?
                 && commit == HexFrom(previewUrl, Search(previewUrl, Commit, 0).value + |CommitsMarker|)
  {
  }

  /** There is no commit id when the preview URL is missing, empty, or has no `/commits/<hex>`. */
  lemma CommitIdMissing(previewUrl: Option<string>)
    ensures CommitIdFromPreviewUrl(previewUrl).None?
            <==> previewUrl.None? || NoMatch(previewUrl.value, Commit)
  {
    if previewUrl.Some? && previewUrl.value == "" {
      assert !MatchesAt(previewUrl.value, 0, Commit);
    }
  }
}
