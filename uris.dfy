/**
 * The URI and path helpers of `datacube/utils/uris.py`: the URL classifier
 * `is_url`, the `file:` URI to path converter `uri_to_local_path`, the part
 * codec `mk_part_uri` / `get_part_from_uri`, the pass-through of `as_url`,
 * the launch-directory decision `default_base_dir` and the lexical
 * normaliser `normalise_path`.
 */
module Uris {
  import opened Wrappers
  import opened Text
  import opened Decimal
  import opened UrlParse
  import opened PosixPath

  // ---------------------------------------------------------------------------
  // is_url

  /** Any Python value `is_url` may be handed: a string, or anything else. */
  datatype Value = Str(s: string) | Other

  /** Python's `\s` on ASCII characters: tab to carriage return, the four
      separator controls and the space. */
  predicate IsSpace(c: char) { 9 <= c as int <= 13 || 28 <= c as int <= 32 }

  /** The class `[\w\d\+]` on ASCII characters: letters, digits, `_` and `+`. */
  predicate IsWordChar(c: char) { 'a' <= c <= 'z' || 'A' <= c <= 'Z' || '0' <= c <= '9' || c == '_' || c == '+' }

  ghost predicate AllSpace(s: string) { forall k :: 0 <= k < |s| ==> IsSpace(s[k]) }

  ghost predicate AllWord(s: string) { forall k :: 0 <= k < |s| ==> IsWordChar(s[k]) }

  /** Length of the longest prefix of whitespace. */
  function SpaceRun(s: string): (n: nat)
    ensures n <= |s|
    ensures forall j :: 0 <= j < n ==> IsSpace(s[j])
    ensures n < |s| ==> !IsSpace(s[n])
  {
    if s == [] || !IsSpace(s[0]) then 0 else 1 + SpaceRun(s[1..])
  }

  /** Length of the longest prefix of word characters. */
  function WordRun(s: string): (n: nat)
    ensures n <= |s|
    ensures forall j :: 0 <= j < n ==> IsWordChar(s[j])
    ensures n < |s| ==> !IsWordChar(s[n])
  {
    if s == [] || !IsWordChar(s[0]) then 0 else 1 + WordRun(s[1..])
  }

  /** `is_url(v)`: `URL_RE.match(v) is not None`, and `False` where `re` raises
      `TypeError` because `v` is not a string. The two runs of the pattern cannot
      overlap, so matching them greedily decides the match. */
  predicate IsUrl(v: Value)
    ensures IsUrl(v) ==> v.Str? && |v.s| >= 4
  {
    match v
    case Other => false
    case Str(s) =>
      var k := SpaceRun(s);
      var m := k + WordRun(s[k..]);
      k < m && SchemeSeparator(s, m)
  }

  /** `s` holds `://` at index `m`. */
  predicate SchemeSeparator(s: string, m: nat)
  {
    m + 3 <= |s| && s[m] == ':' && s[m + 1] == '/' && s[m + 2] == '/'
  }

  /** The pattern `\A\s*[\w\d\+]+://` as a property of the string. */
  ghost predicate MatchesUrlPattern(s: string)
  {
    exists k, m :: 0 <= k < m && SchemeSeparator(s, m) && AllSpace(s[..k]) && AllWord(s[k..m])
  }

  /** The scan stops at the first character that is not whitespace. */
  lemma {:induction false} SpaceRunIs(s: string, k: nat)
    requires k < |s| && !IsSpace(s[k])
    requires forall j :: 0 <= j < k ==> IsSpace(s[j])
    ensures SpaceRun(s) == k
  {
    if k > 0 {
      assert IsSpace(s[0]);
      SpaceRunIs(s[1..], k - 1);
    }
  }

  /** The scan stops at the first character that is not a word character. */
  lemma {:induction false} WordRunIs(s: string, k: nat)
    requires k < |s| && !IsWordChar(s[k])
    requires forall j :: 0 <= j < k ==> IsWordChar(s[j])
    ensures WordRun(s) == k
  {
    if k > 0 {
      assert IsWordChar(s[0]);
      WordRunIs(s[1..], k - 1);
    }
  }

  /** Whitespace, then word characters, then `://` is a URL, however the string goes on. */
  lemma IsUrlFromRuns(s: string, k: nat, m: nat)
    requires k < m && SchemeSeparator(s, m)
    requires forall j :: 0 <= j < k ==> IsSpace(s[j])
    requires forall j :: k <= j < m ==> IsWordChar(s[j])
    ensures IsUrl(Str(s))
  {
    SpaceRunIs(s, k);
    var t := s[k..];
    forall j | 0 <= j < m - k
      ensures IsWordChar(t[j])
    {
      assert t[j] == s[k + j];
    }
    assert t[m - k] == ':';
    WordRunIs(t, m - k);
  }

  lemma IsUrlSound(s: string)
    requires IsUrl(Str(s))
    ensures MatchesUrlPattern(s)
  {
    var k := SpaceRun(s);
    var m := k + WordRun(s[k..]);
    assert AllSpace(s[..k]) by {
      forall j | 0 <= j < k ensures IsSpace(s[..k][j]) {
        assert s[..k][j] == s[j];
      }
    }
    assert AllWord(s[k..m]) by {
      forall j | 0 <= j < m - k ensures IsWordChar(s[k..m][j]) {
        assert s[k..m][j] == s[k..][j];
      }
    }
  }

  lemma IsUrlComplete(s: string)
    requires MatchesUrlPattern(s)
    ensures IsUrl(Str(s))
  {
    var k, m :| 0 <= k < m && SchemeSeparator(s, m) && AllSpace(s[..k]) && AllWord(s[k..m]);
    forall j | 0 <= j < k ensures IsSpace(s[j]) {
      assert s[..k][j] == s[j];
    }
    forall j | k <= j < m ensures IsWordChar(s[j]) {
      assert s[k..m][j - k] == s[j];
    }
    IsUrlFromRuns(s, k, m);
  }

  /** `is_url` holds of a string exactly when the pattern matches it. */
  lemma IsUrlMatchesPattern(s: string)
    ensures IsUrl(Str(s)) <==> MatchesUrlPattern(s)
  {
    if IsUrl(Str(s)) {
      IsUrlSound(s);
    }
    if MatchesUrlPattern(s) {
      IsUrlComplete(s);
    }
  }

  /** A scheme token followed by `://` is a URL, whatever follows. */
  lemma IsUrlSchemeForm(scheme: string, rest: string)
    requires |scheme| > 0 && AllWord(scheme)
    ensures IsUrl(Str(scheme + "://" + rest))
  {
    var s := scheme + "://" + rest;
    assert s[|scheme|] == ':' && s[|scheme| + 1] == '/' && s[|scheme| + 2] == '/';
    assert forall j :: 0 <= j < |scheme| ==> s[j] == scheme[j];
    IsUrlFromRuns(s, 0, |scheme|);
  }

  /** The URLs among the examples in the documentation of `is_url`: a `file` URI, an
      `http` URL and an `s3` URI. */
  lemma IsUrlAcceptsFile(s: string)
    requires s == "file:///etc/blah"
    ensures IsUrl(Str(s))
  {
    SchemeExample(s, 4);
  }

  lemma IsUrlAcceptsHttp(s: string)
    requires s == "http://greg.com/greg.txt"
    ensures IsUrl(Str(s))
  {
    SchemeExample(s, 4);
  }

  lemma IsUrlAcceptsS3(s: string)
    requires s == "s3:///etc/blah"
    ensures IsUrl(Str(s))
  {
    SchemeExample(s, 2);
  }

  lemma SchemeExample(s: string, n: nat)
    requires 0 < n && SchemeSeparator(s, n)
    requires forall j :: 0 <= j < n ==> 'a' <= s[j] <= 'z' || '0' <= s[j] <= '9'
    ensures IsUrl(Str(s))
  {
    IsUrlFromRuns(s, 0, n);
  }

  /** The paths among the examples in the documentation of `is_url`, a POSIX path and
      a Windows drive path, are not URLs. */
  lemma IsUrlRejectsExamples(s: string)
    requires s == "/etc/blah" || s == "C:/etc/blah"
    ensures !IsUrl(Str(s))
  {
    var m := if s[0] == 'C' then 1 else 0;
    SpaceRunIs(s, 0);
    WordRunIs(s, m);
  }

  /** A value that is not a string is not a URL: the `TypeError` is caught. */
  lemma IsUrlRejectsOther()
    ensures !IsUrl(Other)
  {
  }

  // ---------------------------------------------------------------------------
  // uri_to_local_path

  /** The host's `os.name`: only Windows (`nt`) gives a network location a meaning. */
  datatype OsName = Posix | Nt

  /** The two `ValueError`s of `uri_to_local_path`. */
  datatype UriError =
    | UnsupportedScheme(scheme: string)   // not a `file` URI
    | NetlocNotSupported                  // a network location on a host other than Windows

  /** `pathlib.Path(text)` on the host: a POSIX path is normalised as `PurePosixPath`
      does; a Windows path is kept as text. */
  function LocalPath(os: OsName, text: string): string
  {
    if os == Nt then text else PurePath(text)
  }

  /** `uri_to_local_path(local_uri)`: the text of the returned `pathlib.Path`, or
      `None` for a missing or empty argument. A network location becomes the UNC
      path `//netloc/path` on Windows and an error elsewhere. */
  function UriToLocalPath(localUri: Option<string>, os: OsName): (r: Result<Option<string>, UriError>)
    ensures localUri == None || localUri == Some("") ==> r == Ok(None)
    ensures r.Err? && r.error.UnsupportedScheme? <==>
              localUri.Some? && localUri.value != "" && UrlSplit(localUri.value).scheme != "file"
    ensures r.Err? && r.error.UnsupportedScheme? ==> r.error.scheme == UrlSplit(localUri.value).scheme
    ensures r == Err(NetlocNotSupported) <==>
              localUri.Some? && localUri.value != "" && UrlSplit(localUri.value).scheme == "file"
              && UrlSplit(localUri.value).netloc != "" && os != Nt
    ensures r.Ok? && r.value.Some? ==> UrlSplit(localUri.value).scheme == "file"
    ensures r.Ok? && r.value.Some? && os == Posix ==>
              r.value.value != "" && PurePath(r.value.value) == r.value.value
              && IsAbsolute(r.value.value) == IsAbsolute(UrlSplit(localUri.value).path)
  {
    match localUri
    case None => Ok(None)
    case Some(uri) =>
      if uri == "" then Ok(None)
      else
        var components := UrlSplit(uri);
        if components.scheme != "file" then Err(UnsupportedScheme(components.scheme))
        else
          var path := components.path;
          PurePathIdempotent(path);
          PurePathAbsolute(path);
          if components.netloc == "" then Ok(Some(LocalPath(os, path)))
          else if os == Nt then Ok(Some(LocalPath(os, "//" + components.netloc + path)))
          else Err(NetlocNotSupported)
  }

  /** A `file` URI with an absolute path and no network location maps to that path on
      any host; with a network location it maps to `//netloc/path` on Windows and
      raises elsewhere. */
  lemma UriToLocalPathFileForm(netloc: string, path: string, os: OsName)
    requires forall k :: 0 <= k < |netloc| ==> !IsAuthorityEnd(netloc[k])
    requires path == "" || path[0] == '/'
    requires '?' !in path && '#' !in path
    ensures var r := UriToLocalPath(Some("file://" + netloc + path), os);
            && (netloc == "" ==> r == Ok(Some(LocalPath(os, path))))
            && (netloc != "" && os == Nt ==> r == Ok(Some("//" + netloc + path)))
            && (netloc != "" && os == Posix ==> r == Err(NetlocNotSupported))
  {
    FileScheme("file", netloc, path);
    SplitAuthorityForm("file", netloc, path);
    UriToLocalPathOfSplit("file://" + netloc + path, netloc, path, os);
  }

  /** A fragment, such as the one `mk_part_uri` appends, does not change the local path. */
  lemma UriToLocalPathDropsFragment(netloc: string, path: string, fragment: string, os: OsName)
    requires forall k :: 0 <= k < |netloc| ==> !IsAuthorityEnd(netloc[k])
    requires path == "" || path[0] == '/'
    requires '?' !in path && '#' !in path
    ensures UriToLocalPath(Some("file://" + netloc + path + "#" + fragment), os)
              == UriToLocalPath(Some("file://" + netloc + path), os)
  {
    FileScheme("file", netloc, path);
    FileFragmentText(netloc, path, fragment);
    SplitAuthorityFragment("file", netloc, path, fragment);
    SplitAuthorityForm("file", netloc, path);
    UriToLocalPathOfSplit("file://" + netloc + path + "#" + fragment, netloc, path, os);
    UriToLocalPathOfSplit("file://" + netloc + path, netloc, path, os);
  }

  /** `"file" + "://"` is the literal `"file://"`, regrouped for the fragment form.
      Kept as a lemma of its own: stated inline, this equality of string literals and
      concatenations makes the caller's proof far more expensive for the solver. */
  lemma FileFragmentText(netloc: string, path: string, fragment: string)
    ensures "file" + "://" + netloc + path + "#" + fragment == "file://" + netloc + path + "#" + fragment
  {
  }

  /** `file` is a scheme `urlsplit` accepts and keeps as it is. The literal is passed in
      through the requires so that these facts are proved once, about a parameter.
      Kept as a lemma of its own: stated inline, this equality of string literals and
      concatenations makes the caller's proof far more expensive for the solver. */
  lemma FileScheme(scheme: string, netloc: string, path: string)
    requires scheme == "file"
    ensures |scheme| > 0 && IsAsciiLetter(scheme[0])
    ensures forall k :: 0 <= k < |scheme| ==> IsSchemeChar(scheme[k])
    ensures Lower(scheme) == scheme
    ensures scheme + "://" + netloc + path == "file://" + netloc + path
  {
  }

  /** `uri_to_local_path` of any `file` URI, in terms of its network location and its path;
      a query and a fragment are dropped. */
  lemma UriToLocalPathOfSplit(uri: string, netloc: string, path: string, os: OsName)
    requires uri != "" && UrlSplit(uri).scheme == "file"
    requires UrlSplit(uri).netloc == netloc && UrlSplit(uri).path == path
    ensures netloc == "" ==> UriToLocalPath(Some(uri), os) == Ok(Some(LocalPath(os, path)))
    ensures netloc != "" && os == Nt ==> UriToLocalPath(Some(uri), os) == Ok(Some("//" + netloc + path))
    ensures netloc != "" && os == Posix ==> UriToLocalPath(Some(uri), os) == Err(NetlocNotSupported)
  {
    if netloc == "" {
      NoNetlocCase(uri, path, os);
    } else if os == Nt {
      UncCase(uri, netloc, path);
    } else {
      NetlocRejectedCase(uri, netloc, path);
    }
  }

  lemma NoNetlocCase(uri: string, path: string, os: OsName)
    requires uri != "" && UrlSplit(uri).scheme == "file"
    requires UrlSplit(uri).netloc == "" && UrlSplit(uri).path == path
    ensures UriToLocalPath(Some(uri), os) == Ok(Some(LocalPath(os, path)))
  {
  }

  lemma UncCase(uri: string, netloc: string, path: string)
    requires uri != "" && netloc != "" && UrlSplit(uri).scheme == "file"
    requires UrlSplit(uri).netloc == netloc && UrlSplit(uri).path == path
    ensures UriToLocalPath(Some(uri), Nt) == Ok(Some("//" + netloc + path))
  {
  }

  lemma NetlocRejectedCase(uri: string, netloc: string, path: string)
    requires uri != "" && netloc != "" && UrlSplit(uri).scheme == "file"
    requires UrlSplit(uri).netloc == netloc && UrlSplit(uri).path == path
    ensures UriToLocalPath(Some(uri), Posix) == Err(NetlocNotSupported)
  {
  }

  /** The example in the documentation of `uri_to_local_path`: `file:///tmp/something.txt`
      is `/tmp/something.txt` on POSIX. */
  lemma UriToLocalPathExample(dir: string, name: string)
    requires dir == "tmp" && name == "something.txt"
    ensures UriToLocalPath(Some("file:///" + dir + "/" + name), Posix) == Ok(Some("/" + dir + "/" + name))
  {
    var path := "/" + dir + "/" + name;
    ExamplePath(dir, name);
    UriToLocalPathFileForm("", path, Posix);
    ExampleUri(dir, name);
  }

  lemma ExamplePath(dir: string, name: string)
    requires dir == "tmp" && name == "something.txt"
    ensures PurePath("/" + dir + "/" + name) == "/" + dir + "/" + name
    ensures var path := "/" + dir + "/" + name; path[0] == '/' && '?' !in path && '#' !in path
  {
    ExampleParts(dir, name);
    RenderTwo(dir, name);
    PurePathOfRender(1, [dir, name]);
  }

  lemma ExampleParts(dir: string, name: string)
    requires dir == "tmp" && name == "something.txt"
    ensures WellFormed([dir, name])
    ensures '?' !in dir && '#' !in dir && '?' !in name && '#' !in name
  {
  }

  /** An absolute path of two parts. */
  lemma RenderTwo(dir: string, name: string)
    ensures Render(1, [dir, name]) == "/" + dir + "/" + name
  {
    assert [dir, name][1..] == [name];
    assert Join([dir, name], '/') == dir + "/" + name;
  }

  /** The example URI is `file://` followed by the example path.
      Kept as a lemma of its own: stated inline, this equality of string literals and
      concatenations makes the caller's proof far more expensive for the solver. */
  lemma ExampleUri(dir: string, name: string)
    ensures "file://" + "" + ("/" + dir + "/" + name) == "file:///" + dir + "/" + name
  {
  }

  /** A URI of another scheme raises, naming the scheme in lower case. */
  lemma UriToLocalPathOtherScheme(scheme: string, rest: string, os: OsName)
    requires |scheme| > 0 && IsAsciiLetter(scheme[0])
    requires forall k :: 0 <= k < |scheme| ==> IsSchemeChar(scheme[k])
    requires Lower(scheme) != "file"
    ensures UriToLocalPath(Some(scheme + ":" + rest), os) == Err(UnsupportedScheme(Lower(scheme)))
  {
    SchemeColon(scheme, rest);
  }

  // ---------------------------------------------------------------------------
  // mk_part_uri / get_part_from_uri

  /** What `get_part_from_uri` returns: `None`, an `int`, or the raw string. */
  datatype PartSelector = NoPart | PartIndex(index: int) | PartText(text: string)

  /** `mk_part_uri(uri, idx)`: appends the fragment `#part=<idx>`; `None` where formatting
      an index of more than `MaxStrDigits` digits raises `ValueError`. */
  function MkPartUri(uri: string, idx: int): (r: Option<string>)
    ensures r.Some? <==> FitsDigitLimit(idx)
    ensures r.Some? ==> |r.value| > |uri| + 6 && r.value[..|uri|] == uri
    ensures r.Some? ==> r.value[|uri|..|uri| + 6] == "#part=" && IsIntLiteral(r.value[|uri| + 6..])
  {
    if FitsDigitLimit(idx) then
      FormatIntShape(idx);
      var r := uri + "#part=" + FormatInt(idx);
      assert r[|uri| + 6..] == FormatInt(idx);
      Some(r)
    else None
  }

  /** `dict(pairs)`: its keys are the keys of the pairs, and each key's value is the
      value of some pair with that key. */
  function ToDict(pairs: seq<(string, string)>): (m: map<string, string>)
    ensures forall k :: 0 <= k < |pairs| ==> pairs[k].0 in m
    ensures forall key :: key in m ==> exists k :: 0 <= k < |pairs| && pairs[k] == (key, m[key])
  {
    if pairs == [] then map[]
    else
      var init := pairs[..|pairs| - 1];
      var last := pairs[|pairs| - 1];
      assert forall k :: 0 <= k < |init| ==> init[k] == pairs[k];
      ToDict(init)[last.0 := last.1]
  }

  /** A later pair overwrites an earlier one with the same key: the value of a key is
      the value of the last pair with that key. */
  lemma {:induction false} ToDictLast(pairs: seq<(string, string)>, k: nat)
    requires k < |pairs|
    requires forall j :: k < j < |pairs| ==> pairs[j].0 != pairs[k].0
    ensures ToDict(pairs)[pairs[k].0] == pairs[k].1
  {
    if k < |pairs| - 1 {
      var init := pairs[..|pairs| - 1];
      assert init[k] == pairs[k];
      ToDictLast(init, k);
    }
  }

  /** The options in the fragment of `uri`: `dict(parse_qsl(urlparse(uri).fragment))`. */
  function FragmentOptions(uri: string): map<string, string>
  {
    ToDict(ParseQsl(UrlSplit(uri).fragment))
  }

  /** `maybe_int(v)`: `None` stays `None`, an integer literal becomes its value and
      anything else is returned as it is. */
  function MaybeInt(v: Option<string>): (r: PartSelector)
    ensures r == NoPart <==> v == None
    ensures r.PartIndex? ==> ParseInt(v.value) == Some(r.index)
    ensures r.PartText? ==> r.text == v.value && !IsIntLiteral(r.text)
  {
    match v
    case None => NoPart
    case Some(text) =>
      ParseIntAccepts(text);
      match ParseInt(text)
      case Some(n) => PartIndex(n)
      case None => PartText(text)
  }

  /** `opts.get(key, None)`. */
  function Get(opts: map<string, string>, key: string): Option<string>
  {
    if key in opts then Some(opts[key]) else None
  }

  /** `get_part_from_uri(uri)`: the `part` option of the fragment, as an integer when
      it is one and as the raw string otherwise; `None` when there is no `part`. */
  function GetPartFromUri(uri: string): (r: PartSelector)
    ensures r == NoPart <==> "part" !in FragmentOptions(uri)
  {
    MaybeInt(Get(FragmentOptions(uri), "part"))
  }

  /** The options of a fragment all have non-empty values, so a raw part is never empty. */
  lemma FragmentOptionValues(uri: string, key: string)
    requires key in FragmentOptions(uri)
    ensures FragmentOptions(uri)[key] != ""
  {
    ParseQslValues(UrlSplit(uri).fragment);
  }

  /** What `get_part_from_uri` returns, in terms of the options of the fragment: `None`
      exactly when there is no `part`; otherwise the integer it spells, or else the raw
      text, which is never empty. */
  lemma GetPartCases(uri: string)
    ensures var opts := FragmentOptions(uri);
            && (GetPartFromUri(uri) == NoPart <==> "part" !in opts)
            && (GetPartFromUri(uri).PartIndex? ==> ParseInt(opts["part"]) == Some(GetPartFromUri(uri).index))
            && (GetPartFromUri(uri).PartText? ==>
                  GetPartFromUri(uri).text == opts["part"] && GetPartFromUri(uri).text != ""
                  && !IsIntLiteral(GetPartFromUri(uri).text))
  {
    if "part" in FragmentOptions(uri) {
      FragmentOptionValues(uri, "part");
    }
  }

  /** The options of a URI whose fragment is known. */
  lemma FragmentOptionsOf(uri: string, frag: string, pairs: seq<(string, string)>)
    requires UrlSplit(uri).fragment == frag && ParseQsl(frag) == pairs
    ensures FragmentOptions(uri) == ToDict(pairs)
  {
  }

  /** A fragment of one `key=value` field, with a non-empty value, has exactly that option. */
  lemma FragmentOptionsSingle(uri: string, key: string, value: string)
    requires '#' !in uri && value != "" && '&' !in value && '=' !in key && '&' !in key
    ensures FragmentOptions(uri + "#" + (key + "=" + value)) == map[key := value]
  {
    var frag := key + "=" + value;
    FragmentAfterFirstHash(uri, frag);
    ParseQslSingle(key, value);
    FragmentOptionsOf(uri + "#" + frag, frag, [(key, value)]);
  }

  /** A field appended to the fragment overrides every earlier field of the same key. */
  lemma LastOptionWins(uri: string, fragment: string, key: string, value: string)
    requires '#' !in uri && value != "" && '&' !in value && '=' !in key && '&' !in key
    ensures var opts := FragmentOptions(uri + "#" + (fragment + "&" + (key + "=" + value)));
            key in opts && opts[key] == value
  {
    var frag := fragment + "&" + (key + "=" + value);
    FragmentAfterFirstHash(uri, frag);
    ParseQslAppend(fragment, key + "=" + value);
    ParseQslSingle(key, value);
    var pairs := ParseQsl(fragment) + [(key, value)];
    FragmentOptionsOf(uri + "#" + frag, frag, pairs);
    ToDictLast(pairs, |pairs| - 1);
  }

  /** How the text `&part=<value>` (or `#part=<value>`) associates.
      Kept as a lemma of its own: stated inline, this equality of string literals and
      concatenations makes the caller's proof far more expensive for the solver. */
  lemma PartFieldText(uri: string, fragment: string, value: string)
    ensures uri + "#part=" + value == uri + "#" + ("part" + "=" + value)
    ensures uri + "#" + fragment + "&part=" + value == uri + "#" + (fragment + "&" + ("part" + "=" + value))
  {
  }

  /** The fragment `part=<value>` with a value that holds no `&` has the option `part`
      with exactly that value. */
  lemma PartFragmentOptions(uri: string, value: string)
    requires '#' !in uri && value != "" && '&' !in value
    ensures FragmentOptions(uri + "#part=" + value) == map["part" := value]
  {
    FragmentOptionsSingle(uri, "part", value);
    PartFieldText(uri, "", value);
  }

  /** The round trip of the part codec: for a URI without a fragment, the part read back
      is the integer written, negative, zero or positive, whenever writing it succeeds. */
  lemma PartRoundTrip(uri: string, n: int)
    requires '#' !in uri
    ensures MkPartUri(uri, n).Some? ==> GetPartFromUri(MkPartUri(uri, n).value) == PartIndex(n)
  {
    if FitsDigitLimit(n) {
      var text := FormatInt(n);
      FormatIntShape(n);
      assert '&' !in text;
      PartFragmentOptions(uri, text);
      assert MkPartUri(uri, n).value == uri + "#part=" + text;
      ParseFormat(n);
    }
  }

  /** The round trip needs a URI without a fragment: `mk_part_uri` appends a second
      `#`, which then belongs to the first fragment's last field, so the part is lost. */
  lemma PartAfterFragmentLost(a: string, b: string, n: int)
    requires '#' !in a && '=' !in b && '&' !in b
    ensures MkPartUri(a + "#" + b, n).Some? ==> GetPartFromUri(MkPartUri(a + "#" + b, n).value) == NoPart
  {
    if FitsDigitLimit(n) {
      var text := FormatInt(n);
      FormatIntShape(n);
      var u := MkPartUri(a + "#" + b, n).value;
      PartAfterFragmentText(a, b, text);
      assert u == a + "#" + ((b + "#part") + "=" + text);
      SecondHashNoPart(a, b, text);
    }
  }

  lemma SecondHashNoPart(a: string, b: string, text: string)
    requires '#' !in a && '=' !in b && '&' !in b && text != "" && '&' !in text
    ensures GetPartFromUri(a + "#" + ((b + "#part") + "=" + text)) == NoPart
  {
    var u := a + "#" + ((b + "#part") + "=" + text);
    SecondHashOptions(a, b, text);
    PartAfterFragmentText(a, b, text);
    assert "part" !in FragmentOptions(u);
    NoPartWithout(u);
  }

  lemma SecondHashOptions(a: string, b: string, text: string)
    requires '#' !in a && '=' !in b && '&' !in b && text != "" && '&' !in text
    ensures FragmentOptions(a + "#" + ((b + "#part") + "=" + text)) == map[b + "#part" := text]
  {
    PartAfterFragmentText(a, b, text);
    FragmentOptionsSingle(a, b + "#part", text);
  }

  /** No `part` option, no part. */
  lemma NoPartWithout(uri: string)
    requires "part" !in FragmentOptions(uri)
    ensures GetPartFromUri(uri) == NoPart
  {
  }

  /** How `mk_part_uri`'s text regroups when the URI already has the fragment `b`: the key
      of the last field becomes `b#part`, which is not `part` and keeps `b`'s characters.
      Kept as a lemma of its own: stated inline, this equality of string literals and
      concatenations makes the caller's proof far more expensive for the solver. */
  lemma PartAfterFragmentText(a: string, b: string, text: string)
    ensures a + "#" + b + "#part=" + text == a + "#" + ((b + "#part") + "=" + text)
    ensures b + "#part" != "part"
    ensures '=' !in b ==> '=' !in b + "#part"
    ensures '&' !in b ==> '&' !in b + "#part"
  {
  }

  /** A `part` value that is not an integer is read back as the raw string, without raising.
      The value holds nothing that `urlsplit` removes or `parse_qsl` decodes: no tab, line
      feed or carriage return, no `+` and no `%`. */
  lemma PartTextRoundTrip(uri: string, value: string)
    requires '#' !in uri && value != "" && '&' !in value && !IsIntLiteral(value)
    requires '+' !in value && '%' !in value && '\t' !in value && '\n' !in value && '\r' !in value
    ensures GetPartFromUri(uri + "#part=" + value) == PartText(value)
  {
    PartFragmentOptions(uri, value);
    ParseIntAccepts(value);
  }

  /** A URI without a fragment has no part. */
  lemma NoFragmentNoPart(uri: string)
    requires '#' !in uri
    ensures GetPartFromUri(uri) == NoPart
  {
    NoHashNoFragment(uri);
    ParseQslEmpty(UrlSplit(uri).fragment);
    assert FragmentOptions(uri) == map[];
    NoPartWithout(uri);
  }

  /** Of several `part` options the last one wins: appending `&part=<n>` to any fragment
      makes the part `n`, or, beyond the digit limit, the text of `n`. */
  lemma LastPartWins(uri: string, fragment: string, n: int)
    requires '#' !in uri
    ensures GetPartFromUri(uri + "#" + fragment + "&part=" + FormatInt(n))
              == if FitsDigitLimit(n) then PartIndex(n) else PartText(FormatInt(n))
  {
    var text := FormatInt(n);
    FormatIntShape(n);
    LastOptionWins(uri, fragment, "part", text);
    PartFieldText(uri, fragment, text);
    ParseFormat(n);
  }

  // ---------------------------------------------------------------------------
  // as_url

  /** `as_url(v)`: a value `is_url` accepts is returned unchanged; anything else goes
      through `fileUri`, which stands for `pathlib.Path(v).absolute().as_uri()`. */
  function AsUrl(v: Value, fileUri: Value -> string): (r: string)
    ensures IsUrl(v) ==> r == v.s
  {
    if IsUrl(v) then v.s else fileUri(v)
  }

  /** When the path branch yields a `file://` URI, `as_url` always yields a URL, and
      applying it again changes nothing. */
  lemma AsUrlIsUrl(v: Value, fileUri: Value -> string, again: Value -> string)
    requires !IsUrl(v) ==> |fileUri(v)| >= 7 && fileUri(v)[..7] == "file://"
    ensures IsUrl(Str(AsUrl(v, fileUri)))
    ensures AsUrl(Str(AsUrl(v, fileUri)), again) == AsUrl(v, fileUri)
  {
    if !IsUrl(v) {
      var u := fileUri(v);
      assert AllWord(u[..4]);
      assert u == u[..4] + "://" + u[7..];
      IsUrlSchemeForm(u[..4], u[7..]);
    }
  }

  // ---------------------------------------------------------------------------
  // default_base_dir

  /** What `default_base_dir` reads from its host: the text of the resolved current
      directory `Path('.').resolve()`, the `PWD` environment variable, and `resolve`
      on an absolute path, which fails (`None`) where it would raise `IOError`. */
  datatype Host = Host(cwd: AbsPath, pwd: Option<string>, resolve: string -> Option<string>)

  /** An absolute path text, as `resolve` always returns. */
  type AbsPath = s: string | IsAbsolute(s) witness "/"

  /** `default_base_dir()`: the path in `PWD` when it is set, absolute, resolvable and
      resolves to the current directory; the resolved current directory otherwise.
      Both are `Path` values, compared as such. */
  function DefaultBaseDir(host: Host): (r: string)
    ensures r == PurePath(host.cwd) || (host.pwd.Some? && r == PurePath(host.pwd.value))
    ensures r == PurePath(host.cwd)
              || (host.pwd.Some? && r == PurePath(host.pwd.value) && IsAbsolute(r)
                  && host.resolve(r).Some? && PurePath(host.resolve(r).value) == PurePath(host.cwd))
    ensures (&& host.pwd.Some? && IsAbsolute(host.pwd.value)
             && host.resolve(PurePath(host.pwd.value)).Some?
             && PurePath(host.resolve(PurePath(host.pwd.value)).value) == PurePath(host.cwd))
            ==> r == PurePath(host.pwd.value)
    ensures IsAbsolute(r)
    ensures PurePath(r) == r
  {
    var cwd := PurePath(host.cwd);
    PurePathIdempotent(host.cwd);
    PurePathAbsolute(host.cwd);
    match host.pwd
    case None => cwd
    case Some(text) =>
      var pwd := PurePath(text);
      PurePathIdempotent(text);
      PurePathAbsolute(text);
      if !IsAbsolute(pwd) then cwd
      else
        match host.resolve(pwd)
        case None => cwd
        case Some(resolved) =>
          if cwd != PurePath(resolved) then cwd else pwd
  }

  /** Without `PWD`, or with a `PWD` that is relative, cannot be resolved or resolves
      elsewhere, the result is the current directory. */
  lemma DefaultBaseDirCwd(host: Host)
    requires || host.pwd == None
             || !IsAbsolute(host.pwd.value)
             || host.resolve(PurePath(host.pwd.value)) == None
             || PurePath(host.resolve(PurePath(host.pwd.value)).value) != PurePath(host.cwd)
    ensures DefaultBaseDir(host) == PurePath(host.cwd)
  {
    if host.pwd.Some? {
      PurePathAbsolute(host.pwd.value);
    }
  }

  // ---------------------------------------------------------------------------
  // normalise_path

  /** The two argument types `normalise_path` asserts: `str` or `pathlib.Path`,
      the latter given by its text. */
  datatype PathLike = StrArg(text: string) | PathArg(text: string)

  /** The `ValueError` of `normalise_path`. */
  datatype PathError = RelativeBase

  /** `Path(p)` for a string, or the `Path` itself, as text. */
  function AsPath(p: PathLike): (r: string)
    ensures PurePath(r) == r
    ensures IsAbsolute(r) == IsAbsolute(p.text)
  {
    PurePathIdempotent(p.text);
    PurePathAbsolute(p.text);
    PurePath(p.text)
  }

  /** The inner `norm(p)`: `Path(os.path.normpath(str(p)))`. */
  function Norm(p: string): (r: string)
    ensures r == NormPath(p)
  {
    PurePathOfNormPath(p);
    PurePath(NormPath(p))
  }

  /** `normalise_path(p, base)`: an absolute `p` is normalised as it is; a relative
      one is joined onto `base`, or onto `default_base_dir()` when there is none, and
      then normalised. A relative `base` raises. */
  function NormalisePath(p: PathLike, base: Option<PathLike>, host: Host): (r: Result<string, PathError>)
    ensures r.Err? <==> !IsAbsolute(p.text) && base.Some? && !IsAbsolute(base.value.text)
  {
    var path := AsPath(p);
    if IsAbsolute(path) then Ok(Norm(path))
    else
      match base
      case None => Ok(Norm(Div(DefaultBaseDir(host), path)))
      case Some(b) =>
        var dir := AsPath(b);
        if !IsAbsolute(dir) then Err(RelativeBase)
        else Ok(Norm(Div(dir, path)))
  }

  /** An absolute path is its own `normpath`, whatever the base. */
  lemma NormaliseAbsolute(p: PathLike, base: Option<PathLike>, host: Host)
    requires IsAbsolute(p.text)
    ensures NormalisePath(p, base, host) == Ok(NormPath(p.text))
  {
    NormPathOfPurePath(p.text);
  }

  /** A relative path joined onto an absolute base is `normpath(base / p)`, which
      is the `normpath` of the two texts joined. */
  lemma NormaliseJoin(p: PathLike, base: PathLike, host: Host)
    requires !IsAbsolute(p.text) && IsAbsolute(base.text)
    ensures NormalisePath(p, Some(base), host) == Ok(NormPath(JoinPath(base.text, p.text)))
  {
    NormPathOfDiv(base.text, p.text);
  }

  /** Without a base, a relative path is joined onto `default_base_dir()`. */
  lemma NormaliseDefaultBase(p: PathLike, host: Host)
    requires !IsAbsolute(p.text)
    ensures NormalisePath(p, None, host) == Ok(NormPath(JoinPath(DefaultBaseDir(host), p.text)))
  {
    var dir := DefaultBaseDir(host);
    NormPathOfDiv(dir, p.text);
  }

  /** Every result is absolute and holds no empty, `.` or `..` segment. */
  lemma NormaliseIsNormal(p: PathLike, base: Option<PathLike>, host: Host)
    requires NormalisePath(p, base, host).Ok?
    ensures IsNormalAbsolute(NormalisePath(p, base, host).value)
  {
    if IsAbsolute(p.text) {
      NormaliseAbsolute(p, base, host);
      NormPathAbsoluteClean(p.text);
    } else if base.None? {
      NormaliseDefaultBase(p, host);
      JoinPathRoot(DefaultBaseDir(host), p.text);
      NormPathAbsoluteClean(JoinPath(DefaultBaseDir(host), p.text));
    } else {
      NormaliseJoin(p, base.value, host);
      JoinPathRoot(base.value.text, p.text);
      NormPathAbsoluteClean(JoinPath(base.value.text, p.text));
    }
  }

  /** Normalising a result again, as a string or as a `Path` and against any base,
      changes nothing. */
  lemma NormaliseIdempotent(p: PathLike, base: Option<PathLike>, host: Host, again: PathLike, base': Option<PathLike>, host': Host)
    requires NormalisePath(p, base, host).Ok?
    requires again.text == NormalisePath(p, base, host).value
    ensures NormalisePath(again, base', host') == NormalisePath(p, base, host)
  {
    var r := NormalisePath(p, base, host).value;
    NormaliseIsNormal(p, base, host);
    NormaliseAbsolute(again, base', host');
    if IsAbsolute(p.text) {
      NormaliseAbsolute(p, base, host);
      NormPathIdempotent(p.text);
    } else if base.None? {
      NormaliseDefaultBase(p, host);
      NormPathIdempotent(JoinPath(DefaultBaseDir(host), p.text));
    } else {
      NormaliseJoin(p, base.value, host);
      NormPathIdempotent(JoinPath(base.value.text, p.text));
    }
  }
}
