/** The normaliser of Icecast's `status-json.xsl` payload
    (`parse_mount_source` and `parse_icecast_json`,
    scraper/scrape_and_push.py:148-238): a loosely shaped decoded payload
    becomes a map from mount identity to one record per mount. */
module StatusJson {
  import opened JsonValues
  import opened IntParsing
  import opened Text

  /** The fields a JSON source carries beyond what the towers use; the HTML
      parser leaves them out. */
  datatype Details = Details(
    description: Json,
    bitrate: Option<int>,
    genre: Json,
    streamStart: Json,
    connected: Option<int>)

  /** One mount's record: listeners falls back to 0, so it is always there. */
  datatype MountInfo = MountInfo(
    mountpoint: Json,
    listeners: int,
    peak: Option<int>,
    title: Json,
    details: Option<Details>)

  /** The `mounts` dict: its keys compare as Python dict keys do. */
  type Mounts = map<Key, MountInfo>

  predicate IsAsciiLetter(c: char)
  {
    'a' <= c <= 'z' || 'A' <= c <= 'Z'
  }

  /** The characters of a URL scheme. */
  predicate IsSchemeChar(c: char)
  {
    IsAsciiLetter(c) || IsDigit(c) || c == '+' || c == '-' || c == '.'
  }

  /** The schemes whose paths may carry `;params`. */
  const UsesParams: set<string> := {"", "ftp", "hdl", "prospero", "http", "imap", "https",
    "shttp", "rtsp", "rtsps", "rtspu", "sip", "sips", "mms", "sftp", "tel"}

  predicate IsNetlocEnd(c: char)
  {
    c == '/' || c == '?' || c == '#'
  }

  /** The path without its `;params`: cut at the first ';' after the last
      '/' (or at the first ';' when there is no '/'). */
  function DropParams(u: string): (r: string)
    ensures |r| <= |u| && r == u[..|r|]
  {
    var slash := RFind(u, '/');
    u[..FindFrom(u, if slash < 0 then 0 else slash, c => c == ';')]
  }

  /** What is left of a URL after its scheme and network location, cut at
      the fragment, then at the query, then at the parameters. */
  function PathOf(scheme: string, rest: string): (path: string)
    ensures |path| <= |rest| && path == rest[..|path|]
  {
    var noFragment := rest[..Find(rest, '#')];
    var noQuery := noFragment[..Find(noFragment, '?')];
    assert noQuery == rest[..|noQuery|];
    if scheme in UsesParams && ';' in noQuery then
      var r := DropParams(noQuery);
      assert r == rest[..|r|];
      r
    else noQuery
  }

  /** The URL opens with a scheme that the colon at `colon` ends. */
  predicate SchemeEndsAt(url: string, colon: nat)
  {
    0 < colon < |url| && IsAsciiLetter(url[0])
      && forall j :: 0 <= j < colon ==> IsSchemeChar(url[j])
  }

  /** `urlparse(url).path`, or None where the model's urlparse raises
      ValueError: when the network location opens a '[' it does not close,
      or the converse. The other checks newer Pythons make on the network
      location are not modelled. */
  function UrlPath(url: string): (r: Option<string>)
    ensures r.Some? ==> |r.value| <= |url|
    ensures r.None? ==> '[' in url || ']' in url
  {
    var colon := Find(url, ':');
    var hasScheme := SchemeEndsAt(url, colon);
    var scheme := if hasScheme then Lower(url[..colon]) else [];
    var rest := if hasScheme then url[colon + 1..] else url;
    if |rest| >= 2 && rest[0] == '/' && rest[1] == '/' then
      var end := FindFrom(rest, 2, IsNetlocEnd);
      var netloc := rest[2..end];
      if ('[' in netloc) != (']' in netloc) then None
      else Some(PathOf(scheme, rest[end..]))
    else
      Some(PathOf(scheme, rest))
  }

  /** `re.search(r"(/[^/]+)$", url).group(1)`: the last '/' of the URL with
      everything after it, provided something follows it. */
  function RegexTail(url: string): (t: Option<string>)
    ensures t.Some? ==> |t.value| >= 2 && t.value[0] == '/'
    ensures t.Some? ==> forall j :: 1 <= j < |t.value| ==> t.value[j] != '/'
    ensures t.Some? ==> |t.value| <= |url| && url[|url| - |t.value|..] == t.value
    ensures t.None? <==> url == [] || url[|url| - 1] == '/' || '/' !in url
  {
    var j := RFind(url, '/');
    if 0 <= j < |url| - 1 then Some(url[j..]) else None
  }

  /** The mountpoint a text `listenurl` gives: its path, or the regex's
      tail when urlparse raises; None (JNull) when neither yields one. */
  function UrlMount(url: string): (r: Json)
    ensures r.JNull? || (r.JStr? && |r.s| <= |url|)
    ensures UrlPath(url).Some? ==> r == JStr(UrlPath(url).value)
  {
    match UrlPath(url)
    case Some(p) => JStr(p)
    case None =>
      match RegexTail(url)
      case Some(t) => JStr(t)
      case None => JNull
  }

  /** `parse_mount_source(source)`. A truthy `listenurl` that is not text
      makes urlparse raise, and then the regex fallback raise too; the
      outer handler turns that into None. */
  function ParseMountSource(source: Json): (r: Option<MountInfo>)
    ensures r.Some? ==> source.JObj? && source.fields != map[]
    ensures r.Some? ==> Truthy(r.value.mountpoint) && r.value.details.Some?
  {
    if !source.JObj? || source.fields == map[] then None
    else
      var f := source.fields;
      var url := Get(f, "listenurl");
      if Truthy(url) && !url.JStr? then None
      else
        var fromUrl := if Truthy(url) then UrlMount(url.s) else JNull;
        var mountpoint := Or(fromUrl, Get(f, "mount"));
        if !Truthy(mountpoint) then None
        else
          Some(MountInfo(
            mountpoint,
            SafeInt(Get(f, "listeners"), Some(0)).value,
            SafeInt(Get(f, "listener_peak"), None),
            Or(Get(f, "title"), Get(f, "yp_currently_playing")),
            Some(Details(
              Get(f, "server_description"),
              SafeInt(Get(f, "bitrate"), None),
              Get(f, "genre"),
              Get(f, "stream_start_iso8601"),
              SafeInt(Get(f, "connected"), None)))))
  }

  /** The list the normaliser walks: `icestats.source` as a list, a lone
      object as a one-element list, and nothing for any other shape (a
      payload or `icestats` that is not an object makes `.get` raise, which
      the handler swallows). */
  function SourcesOf(data: Json): seq<Json>
  {
    if !data.JObj? then []
    else
      var icestats := if "icestats" in data.fields then data.fields["icestats"] else JObj(map[]);
      if !icestats.JObj? then []
      else
        match Get(icestats.fields, "source")
        case JObj(f) => [JObj(f)]
        case JArr(items) => items
        case _ => []
  }

  /** Where the walk stands: the mounts so far, and whether an unhashable
      mountpoint has stopped it (the TypeError leaves the loop, and the
      handler keeps what was stored). */
  datatype Collected = Collected(mounts: Mounts, aborted: bool)

  /** The key a parsed source is stored under; None when the source was
      dropped or its mountpoint cannot be a key. */
  function StoredKey(parsed: Option<MountInfo>): Option<Key>
  {
    match parsed
    case None => None
    case Some(info) => KeyOf(info.mountpoint)
  }

  /** A parsed source whose mountpoint is a list or a dict: storing it
      raises TypeError. */
  predicate Raises(parsed: Option<MountInfo>)
  {
    parsed.Some? && KeyOf(parsed.value.mountpoint).None?
  }

  /** One iteration of the loop, given what `parse_mount_source` returned
      for the source. */
  function Step(c: Collected, parsed: Option<MountInfo>): Collected
  {
    if c.aborted then c
    else
      match parsed
      case None => c
      case Some(info) =>
        match KeyOf(info.mountpoint)
        case None => Collected(c.mounts, true)
        case Some(k) => Collected(c.mounts[k := info], false)
  }

  /** The loop over the parsed sources, from the first to the last. */
  function Walk(parsed: seq<Option<MountInfo>>): Collected
    decreases |parsed|
  {
    if parsed == [] then Collected(map[], false)
    else Step(Walk(parsed[..|parsed| - 1]), parsed[|parsed| - 1])
  }

  /** What `parse_mount_source` makes of each source; it has no effects,
      so parsing them all before storing any changes nothing. */
  function ParseEach(sources: seq<Json>): seq<Option<MountInfo>>
  {
    seq(|sources|, i requires 0 <= i < |sources| => ParseMountSource(sources[i]))
  }

  /** The walk over a list of sources. */
  function CollectAll(sources: seq<Json>): Collected
  {
    Walk(ParseEach(sources))
  }

  /** `parse_icecast_json(data)["mounts"]` */
  function Normalize(data: Json): Mounts
  {
    CollectAll(SourcesOf(data)).mounts
  }

  /** The key a source is stored under. */
  function MountKeyOf(source: Json): Option<Key>
  {
    StoredKey(ParseMountSource(source))
  }

  /** A source whose mountpoint is a list or a dict. */
  predicate Unhashable(source: Json)
  {
    Raises(ParseMountSource(source))
  }

  /** `parse_icecast_json`, as the loop that fills the `mounts` dict. */
  method ParseIcecastJson(data: Json) returns (mounts: Mounts)
    ensures mounts == Normalize(data)
  {
    var sources := SourcesOf(data);
    ghost var parsed := ParseEach(sources);
    mounts := map[];
    var i := 0;
    while i < |sources|
      invariant 0 <= i <= |sources|
      invariant Walk(parsed[..i]) == Collected(mounts, false)
    {
      assert parsed[..i + 1][..i] == parsed[..i];
      var info := ParseMountSource(sources[i]);
      if info.Some? {
        var key := KeyOf(info.value.mountpoint);
        if key.None? {
          WalkAbortedStays(parsed, i + 1);
          return;
        }
        mounts := mounts[key.value := info.value];
      }
      i := i + 1;
    }
    assert parsed[..i] == parsed;
  }

  /** Once the walk has stopped, the later sources change nothing. */
  lemma {:induction false} WalkAbortedStays(p: seq<Option<MountInfo>>, j: nat)
    requires j <= |p| && Walk(p[..j]).aborted
    ensures Walk(p) == Walk(p[..j])
    decreases |p| - j
  {
    if j < |p| {
      var p' := p[..|p| - 1];
      assert p'[..j] == p[..j];
      WalkAbortedStays(p', j);
    } else {
      assert p[..j] == p;
    }
  }

  /** Without an unhashable mountpoint the walk runs to the end. */
  lemma {:induction false} WalkNoAbort(p: seq<Option<MountInfo>>)
    requires forall i :: 0 <= i < |p| ==> !Raises(p[i])
    ensures !Walk(p).aborted
    decreases |p|
  {
    if p != [] {
      WalkNoAbort(p[..|p| - 1]);
    }
  }

  /** The walk stops at the first unhashable mountpoint and keeps what it
      had stored before it. */
  lemma WalkRaises(p: seq<Option<MountInfo>>, j: nat)
    requires j < |p| && Raises(p[j])
    requires forall i :: 0 <= i < j ==> !Raises(p[i])
    ensures Walk(p).mounts == Walk(p[..j]).mounts
  {
    WalkNoAbort(p[..j]);
    var q := p[..j + 1];
    assert q[..|q| - 1] == p[..j];
    assert q[|q| - 1] == p[j];
    WalkAbortedStays(p, j + 1);
  }

  /** A key is stored exactly when some parsed source has it. */
  lemma {:induction false} WalkIdentity(p: seq<Option<MountInfo>>, k: Key)
    requires forall i :: 0 <= i < |p| ==> !Raises(p[i])
    ensures k in Walk(p).mounts <==> exists i :: 0 <= i < |p| && StoredKey(p[i]) == Some(k)
    decreases |p|
  {
    if p != [] {
      var p' := p[..|p| - 1];
      WalkNoAbort(p');
      WalkIdentity(p', k);
      if k in Walk(p).mounts && StoredKey(p[|p| - 1]) != Some(k) {
        var i :| 0 <= i < |p'| && StoredKey(p'[i]) == Some(k);
        assert p[i] == p'[i];
      }
      if exists i :: 0 <= i < |p| && StoredKey(p[i]) == Some(k) {
        var i :| 0 <= i < |p| && StoredKey(p[i]) == Some(k);
        if i < |p'| {
          assert p'[i] == p[i];
        }
      }
    }
  }

  /** Of the parsed sources stored under one key, the last is kept. */
  lemma {:induction false} WalkLaterWins(p: seq<Option<MountInfo>>, j: nat, k: Key)
    requires forall i :: 0 <= i < |p| ==> !Raises(p[i])
    requires j < |p| && StoredKey(p[j]) == Some(k)
    requires forall i :: j < i < |p| ==> StoredKey(p[i]) != Some(k)
    ensures k in Walk(p).mounts && Walk(p).mounts[k] == p[j].value
    decreases |p|
  {
    var p' := p[..|p| - 1];
    WalkNoAbort(p');
    if j < |p| - 1 {
      forall i | j < i < |p'|
        ensures StoredKey(p'[i]) != Some(k)
      {
        assert p'[i] == p[i];
      }
      WalkLaterWins(p', j, k);
    }
  }

  /** A source that parses to nothing leaves the walk as it was. */
  lemma {:induction false} WalkDropped(a: seq<Option<MountInfo>>, b: seq<Option<MountInfo>>)
    ensures Walk(a + [None] + b) == Walk(a + b)
    decreases |b|
  {
    if b == [] {
      assert (a + [None] + b)[..|a|] == a;
      assert a + b == a;
    } else {
      var b' := b[..|b| - 1];
      assert (a + [None] + b)[..|a + [None] + b| - 1] == a + [None] + b';
      assert (a + b)[..|a + b| - 1] == a + b';
      WalkDropped(a, b');
    }
  }

  lemma ParseEachPrefix(s: seq<Json>, j: nat)
    requires j <= |s|
    ensures ParseEach(s[..j]) == ParseEach(s)[..j]
  {
  }

  lemma ParseEachAppend(a: seq<Json>, b: seq<Json>)
    ensures ParseEach(a + b) == ParseEach(a) + ParseEach(b)
  {
  }

  /** Sources after an unhashable mountpoint are lost; those before it are
      kept as if the list ended there. */
  lemma UnhashableStopsWalk(s: seq<Json>, j: nat)
    requires j < |s| && Unhashable(s[j])
    requires forall i :: 0 <= i < j ==> !Unhashable(s[i])
    ensures CollectAll(s).mounts == CollectAll(s[..j]).mounts
  {
    var p := ParseEach(s);
    assert forall i :: 0 <= i < j ==> !Raises(p[i]);
    WalkRaises(p, j);
    ParseEachPrefix(s, j);
  }

  /** Mount identity: a key is in the result exactly when some source is
      stored under it. */
  lemma MountIdentity(s: seq<Json>, k: Key)
    requires forall i :: 0 <= i < |s| ==> !Unhashable(s[i])
    ensures k in CollectAll(s).mounts <==> exists i :: 0 <= i < |s| && MountKeyOf(s[i]) == Some(k)
  {
    var p := ParseEach(s);
    assert forall i :: 0 <= i < |s| ==> !Raises(p[i]);
    WalkIdentity(p, k);
    assert forall i :: 0 <= i < |s| ==> StoredKey(p[i]) == MountKeyOf(s[i]);
  }

  /** Later wins: of the sources stored under one key, the last is kept. */
  lemma LaterWins(s: seq<Json>, j: nat, k: Key)
    requires forall i :: 0 <= i < |s| ==> !Unhashable(s[i])
    requires j < |s| && MountKeyOf(s[j]) == Some(k)
    requires forall i :: j < i < |s| ==> MountKeyOf(s[i]) != Some(k)
    ensures k in CollectAll(s).mounts
    ensures CollectAll(s).mounts[k] == ParseMountSource(s[j]).value
  {
    var p := ParseEach(s);
    assert forall i :: 0 <= i < |s| ==> !Raises(p[i]) && StoredKey(p[i]) == MountKeyOf(s[i]);
    WalkLaterWins(p, j, k);
  }

  /** A source that parses to nothing leaves its siblings' result as it was. */
  lemma DroppedSourceIgnored(a: seq<Json>, x: Json, b: seq<Json>)
    requires ParseMountSource(x).None?
    ensures CollectAll(a + [x] + b) == CollectAll(a + b)
  {
    ParseEachAppend(a + [x], b);
    ParseEachAppend(a, [x]);
    ParseEachAppend(a, b);
    assert ParseEach([x]) == [None];
    WalkDropped(ParseEach(a), ParseEach(b));
  }

  /** A lone source object is read as the one-element list holding it,
      whatever else the payload and `icestats` hold. */
  lemma LoneSourceIsList(data: Json, f: map<string, Json>)
    requires data.JObj? && "icestats" in data.fields && data.fields["icestats"].JObj?
    requires Get(data.fields["icestats"].fields, "source") == JObj(f)
    ensures var ice := data.fields["icestats"].fields;
      Normalize(data) == Normalize(JObj(data.fields["icestats" := JObj(ice["source" := JArr([JObj(f)])])]))
  {
    var ice := data.fields["icestats"].fields;
    var listed := JObj(data.fields["icestats" := JObj(ice["source" := JArr([JObj(f)])])]);
    assert SourcesOf(data) == [JObj(f)];
    assert SourcesOf(listed) == [JObj(f)];
  }

  /** A payload without `icestats`, or without `source`, or whose `source`
      is neither a list nor an object, has no mounts. */
  lemma MissingSourcesGiveNoMounts(data: Json)
    requires || !data.JObj?
             || "icestats" !in data.fields
             || (var ice := data.fields["icestats"];
                 !ice.JObj? || "source" !in ice.fields
                 || !(ice.fields["source"].JObj? || ice.fields["source"].JArr?))
    ensures Normalize(data) == map[]
  {
  }

  /** With a non-empty text `listenurl` whose path is not empty, the
      mountpoint is that path. */
  lemma MountFromListenUrl(f: map<string, Json>, url: string, path: string)
    requires "listenurl" in f && f["listenurl"] == JStr(url) && url != []
    requires UrlPath(url) == Some(path) && path != []
    ensures ParseMountSource(JObj(f)).Some?
    ensures ParseMountSource(JObj(f)).value.mountpoint == JStr(path)
  {
    assert f != map[];
  }

  /** Without a usable `listenurl` (none, a falsy one, or text that yields
      no mountpoint, such as "http://host:8000" with its empty path) the
      `mount` field names the mount, and a source without either is
      dropped. */
  lemma MountFromMountField(f: map<string, Json>)
    requires f != map[]
    requires var u := Get(f, "listenurl"); !Truthy(u) || (u.JStr? && !Truthy(UrlMount(u.s)))
    ensures ParseMountSource(JObj(f)).Some? <==> Truthy(Get(f, "mount"))
    ensures ParseMountSource(JObj(f)).Some? ==> ParseMountSource(JObj(f)).value.mountpoint == Get(f, "mount")
  {
  }

  /** The counts of a stored mount are `int()` of their fields, and a
      missing or unparseable one falls back: listeners to 0, the peak, the
      bitrate and the connected time to None. */
  lemma MountDefaults(f: map<string, Json>)
    requires ParseMountSource(JObj(f)).Some?
    ensures var m := ParseMountSource(JObj(f)).value;
      && (IntOf(Get(f, "listeners")).Some? ==> m.listeners == IntOf(Get(f, "listeners")).value)
      && (IntOf(Get(f, "listeners")).None? ==> m.listeners == 0)
      && m.peak == IntOf(Get(f, "listener_peak"))
      && m.details.Some?
      && m.details.value.bitrate == IntOf(Get(f, "bitrate"))
      && m.details.value.connected == IntOf(Get(f, "connected"))
  {
  }

  /** A scheme of ASCII letters. */
  predicate LetterScheme(scheme: string)
  {
    scheme != [] && forall i :: 0 <= i < |scheme| ==> IsAsciiLetter(scheme[i])
  }

  /** A host and port: no character that ends or brackets a network location. */
  predicate PlainHost(host: string)
  {
    forall i :: 0 <= i < |host| ==> host[i] !in "/?#[]"
  }

  /** An absolute path without query, fragment or parameters. */
  predicate PlainMountPath(path: string)
  {
    path != [] && path[0] == '/' && forall i :: 0 <= i < |path| ==> path[i] !in "?#;"
  }

  /** An Icecast `listenurl`, `scheme://host:port/mount`, gives its path. */
  lemma UrlPathOfListenUrl(scheme: string, host: string, path: string)
    requires LetterScheme(scheme) && PlainHost(host) && PlainMountPath(path)
    ensures UrlPath(scheme + "://" + host + path) == Some(path)
  {
    assert scheme + "://" + host + path == scheme + ":" + ("//" + host + path);
    UrlPathOfAuthority(scheme, host, path);
    PlainPath(Lower(scheme), path);
  }

  /** The typical Icecast `listenurl`, `http://host:port/mount`, names
      the mount by its path. */
  lemma MountOfUrlWithPort(scheme: string, host: string, port: string, path: string)
    requires LetterScheme(scheme) && PlainHost(host) && AllDigits(port) && PlainMountPath(path)
    ensures UrlMount(scheme + "://" + (host + ":" + port) + path) == JStr(path)
  {
    var hostPort := host + ":" + port;
    HostWithPort(host, port);
    UrlPathOfListenUrl(scheme, hostPort, path);
    MountOfPath(scheme + "://" + hostPort + path, path);
  }

  lemma MountOfPath(url: string, path: string)
    requires UrlPath(url) == Some(path)
    ensures UrlMount(url) == JStr(path)
  {
  }

  /** A port of digits after a ':' keeps a host plain. */
  lemma HostWithPort(host: string, port: string)
    requires PlainHost(host) && AllDigits(port)
    ensures PlainHost(host + ":" + port)
  {
    var hp := host + ":" + port;
    forall i | 0 <= i < |hp|
      ensures hp[i] !in "/?#[]"
    {
      if i < |host| {
        assert hp[i] == host[i];
      } else if i > |host| {
        assert hp[i] == port[i - |host| - 1];
      }
    }
  }

  /** A `listenurl` that stops after the network location has an empty
      path, so it yields no mountpoint and the `mount` field decides. */
  lemma MountOfUrlWithoutPath(scheme: string, host: string)
    requires LetterScheme(scheme) && PlainHost(host)
    ensures UrlPath(scheme + "://" + host) == Some("")
    ensures !Truthy(UrlMount(scheme + "://" + host))
  {
    var rest := "//" + host;
    SchemeSplit(scheme, rest);
    NetlocOnly(host);
    UrlPathWithAuthority(scheme + ":" + rest, |scheme|, |rest|);
    assert scheme + "://" + host == scheme + ":" + rest;
    MountOfPath(scheme + "://" + host, "");
  }

  /** A network location with nothing after it runs to the end. */
  lemma NetlocOnly(host: string)
    requires PlainHost(host)
    ensures var rest := "//" + host;
      && FindFrom(rest, 2, IsNetlocEnd) == |rest|
      && rest[2..|rest|] == host
      && '[' !in host && ']' !in host
  {
    var rest := "//" + host;
    assert forall j :: 2 <= j < |rest| ==> rest[j] == host[j - 2];
    assert rest[2..|rest|] == host;
  }

  /** `scheme://host` before a path: the path is what follows the host. */
  lemma UrlPathOfAuthority(scheme: string, host: string, path: string)
    requires LetterScheme(scheme) && PlainHost(host) && path != [] && path[0] == '/'
    ensures UrlPath(scheme + ":" + ("//" + host + path)) == Some(PathOf(Lower(scheme), path))
  {
    var rest := "//" + host + path;
    SchemeSplit(scheme, rest);
    NetlocSplit(host, path);
    UrlPathWithAuthority(scheme + ":" + rest, |scheme|, 2 + |host|);
  }

  /** The path of a URL with a scheme and a network location. */
  lemma UrlPathWithAuthority(url: string, colon: nat, end: nat)
    requires Find(url, ':') == colon && SchemeEndsAt(url, colon)
    requires var rest := url[colon + 1..];
      && |rest| >= 2 && rest[0] == '/' && rest[1] == '/'
      && FindFrom(rest, 2, IsNetlocEnd) == end
      && ('[' in rest[2..end]) == (']' in rest[2..end])
    ensures UrlPath(url) == Some(PathOf(Lower(url[..colon]), url[colon + 1..][end..]))
  {
  }

  /** A scheme of letters ends at the first colon. */
  lemma SchemeSplit(scheme: string, rest: string)
    requires LetterScheme(scheme)
    ensures Find(scheme + ":" + rest, ':') == |scheme|
    ensures SchemeEndsAt(scheme + ":" + rest, |scheme|)
    ensures (scheme + ":" + rest)[..|scheme|] == scheme
    ensures (scheme + ":" + rest)[|scheme| + 1..] == rest
  {
    var url := scheme + ":" + rest;
    assert forall j :: 0 <= j < |scheme| ==> url[j] == scheme[j];
    assert url[|scheme|] == ':';
  }

  /** The network location `//host` ends at the '/' that opens the path. */
  lemma NetlocSplit(host: string, path: string)
    requires PlainHost(host)
    requires path != [] && path[0] == '/'
    ensures var rest := "//" + host + path;
      && |rest| >= 2 && rest[0] == '/' && rest[1] == '/'
      && FindFrom(rest, 2, IsNetlocEnd) == 2 + |host|
      && rest[2..2 + |host|] == host
      && rest[2 + |host|..] == path
    ensures '[' !in host && ']' !in host
  {
    var rest := "//" + host + path;
    assert forall j :: 2 <= j < 2 + |host| ==> rest[j] == host[j - 2];
    assert rest[2 + |host|] == '/';
    assert rest[2..2 + |host|] == host;
    assert rest[2 + |host|..] == path;
  }

  /** A path without '?', '#' or ';' is kept whole. */
  lemma PlainPath(scheme: string, path: string)
    requires PlainMountPath(path)
    ensures PathOf(scheme, path) == path
  {
    assert Find(path, '#') == |path|;
    assert path[..|path|] == path;
    assert Find(path, '?') == |path|;
  }
}
