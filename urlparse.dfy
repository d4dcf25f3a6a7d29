/**
 * The part of Python's `urllib.parse` the URI code relies on: `urlsplit`
 * (scheme, network location, path, query, fragment) and `parse_qsl`
 * (`&`-separated `key=value` fields), without percent-decoding.
 */
module UrlParse {
  import opened Text

  datatype SplitResult = SplitResult(scheme: string, netloc: string, path: string, query: string, fragment: string)

  predicate IsAsciiLetter(c: char) { 'a' <= c <= 'z' || 'A' <= c <= 'Z' }

  /** Characters allowed in a scheme name (section 3.1 of RFC 3986). */
  predicate IsSchemeChar(c: char) { IsAsciiLetter(c) || '0' <= c <= '9' || c == '+' || c == '-' || c == '.' }

  /** Characters that end the network location. */
  predicate IsAuthorityEnd(c: char) { c == '/' || c == '?' || c == '#' }

  function LowerChar(c: char): char
  {
    if 'A' <= c <= 'Z' then ((c as int) + 32) as char else c
  }

  function Lower(s: string): (r: string)
    ensures |r| == |s|
    ensures forall k :: 0 <= k < |s| ==> r[k] == LowerChar(s[k])
  {
    seq(|s|, k requires 0 <= k < |s| => LowerChar(s[k]))
  }
  /** A scheme is recognised when the text before the first `:` is non-empty,
      starts with a letter and holds only scheme characters. */
  predicate HasScheme(url: string)
  {
    var i := IndexOf(url, ':');
    0 < i < |url| && IsAsciiLetter(url[0]) && forall k :: 0 <= k < i ==> IsSchemeChar(url[k])
  }

  /** Length of the scheme together with its `:` (0 when there is no scheme);
      nothing in it is a `#`. */
  function SchemeLength(url: string): (n: nat)
    ensures n <= |url|
    ensures n > 0 <==> HasScheme(url)
    ensures forall k :: 0 <= k < n ==> url[k] != '#'
  {
    if HasScheme(url) then IndexOf(url, ':') + 1 else 0
  }

  /** The scheme, lower-cased: the text before the `:`, or empty. */
  function Scheme(url: string): (scheme: string)
    ensures scheme != "" <==> HasScheme(url)
    ensures forall k :: 0 <= k < |scheme| ==> IsSchemeChar(scheme[k]) && !('A' <= scheme[k] <= 'Z')
  {
    var n := SchemeLength(url);
    if n == 0 then "" else Lower(url[..n - 1])
  }

  /** Index of the first character that ends a network location, or `|s|`. */
  function AuthorityEnd(s: string): (e: nat)
    ensures e <= |s|
    ensures e < |s| ==> IsAuthorityEnd(s[e])
    ensures forall j :: 0 <= j < e ==> !IsAuthorityEnd(s[j])
  {
    if s == [] || IsAuthorityEnd(s[0]) then 0 else 1 + AuthorityEnd(s[1..])
  }

  /** Where the network location that starts at `start` stops: when `//` follows, it runs up
      to the first `/`, `?` or `#`; otherwise there is none and it stops where it starts. */
  function AuthorityStop(url: string, start: nat): (e: nat)
    requires start <= |url|
    ensures start <= e <= |url|
    ensures forall k :: start <= k < e ==> url[k] != '#'
    ensures e > start ==> start + 2 <= e && url[start] == '/' && url[start + 1] == '/'
    ensures forall k :: start + 2 <= k < e ==> !IsAuthorityEnd(url[k])
  {
    if start + 2 <= |url| && url[start] == '/' && url[start + 1] == '/' then
      start + 2 + AuthorityEnd(url[start + 2..])
    else start
  }

  /** Where the path starts: after the scheme and the network location; no `#` comes before. */
  function PathStart(url: string): (n: nat)
    ensures n <= |url|
    ensures forall k :: 0 <= k < n ==> url[k] != '#'
  {
    AuthorityStop(url, SchemeLength(url))
  }

  /** Splits at the first occurrence of `c`: the text before it and the text after it
      (empty when `c` does not occur). */
  function SplitAt(s: string, c: char): (r: (string, string))
    ensures c !in r.0
    ensures |r.0| <= |s| && r.0 == s[..|r.0|]
    ensures c in s ==> s == r.0 + [c] + r.1
    ensures c !in s ==> r == (s, "")
  {
    var i := IndexOf(s, c);
    if i < |s| then
      assert s == s[..i] + [c] + s[i + 1..];
      (s[..i], s[i + 1..])
    else (s, "")
  }

  /** `urlsplit(url)`. */
  function UrlSplit(url: string): (r: SplitResult)
    ensures forall k :: 0 <= k < |r.netloc| ==> !IsAuthorityEnd(r.netloc[k])
    ensures '#' !in r.path && '?' !in r.path
  {
    var start := SchemeLength(url);
    var stop := AuthorityStop(url, start);
    var netloc := if stop == start then "" else url[start + 2..stop];
    var (beforeFragment, fragment) := SplitAt(url[stop..], '#');
    var (path, query) := SplitAt(beforeFragment, '?');
    SplitResult(Scheme(url), netloc, path, query, fragment)
  }

  /** Splitting at the first `c` of `x + [c] + y`, where `x` has none, gives `x` and `y`. */
  lemma SplitAtFirst(x: string, c: char, y: string)
    requires c !in x
    ensures SplitAt(x + [c] + y, c) == (x, y)
  {
    IndexOfAppend(x, y, c);
    assert IndexOf(x, c) == |x|;
    assert (x + [c] + y)[..|x|] == x && (x + [c] + y)[|x| + 1..] == y;
  }

  /** A suffix cut from `a + "#" + f` at a point before which there is no `#`
      keeps the whole fragment. */
  lemma SuffixKeepsFragment(url: string, a: string, f: string, n: nat)
    requires url == a + "#" + f && '#' !in a
    requires n <= |url| && forall k :: 0 <= k < n ==> url[k] != '#'
    ensures n <= |a| && url[n..] == a[n..] + "#" + f
  {
    assert url[|a|] == '#';
  }

  /** The fragment is everything after the first `#`. */
  lemma FragmentAfterFirstHash(a: string, f: string)
    requires '#' !in a
    ensures UrlSplit(a + "#" + f).fragment == f
  {
    var url := a + "#" + f;
    var n := PathStart(url);
    SuffixKeepsFragment(url, a, f, n);
    SplitAtFirst(a[n..], '#', f);
  }

  /** Without a `#` there is no fragment. */
  lemma NoHashNoFragment(url: string)
    requires '#' !in url
    ensures UrlSplit(url).fragment == ""
  {
    var n := PathStart(url);
    SuffixNoHash(url, n);
    assert SplitAt(url[n..], '#') == (url[n..], "");
  }

  lemma SuffixNoHash(s: string, n: nat)
    requires n <= |s| && '#' !in s
    ensures '#' !in s[n..]
  {
    assert forall k :: 0 <= k < |s| - n ==> s[n..][k] == s[n + k];
  }

  /** An empty query string has no pairs. */
  lemma ParseQslEmpty(qs: string)
    requires qs == ""
    ensures ParseQsl(qs) == []
  {
    SplitNoSep(qs, '&');
    assert FieldPair(qs) == [];
    assert Pairs([qs]) == FieldPair(qs) + Pairs([]);
  }

  /** A scheme followed by `:` is recognised, whatever follows. */
  lemma SchemePrefix(scheme: string, rest: string)
    requires |scheme| > 0 && IsAsciiLetter(scheme[0])
    requires forall k :: 0 <= k < |scheme| ==> IsSchemeChar(scheme[k])
    ensures SchemeLength(scheme + ":" + rest) == |scheme| + 1
    ensures (scheme + ":" + rest)[..|scheme|] == scheme
  {
    var url := scheme + ":" + rest;
    assert url[|scheme|] == ':';
    assert forall k :: 0 <= k < |scheme| ==> url[k] == scheme[k];
    assert IndexOf(url, ':') == |scheme|;
  }

  /** A scheme followed by `:` is split off and lower-cased, whatever follows. */
  lemma SchemeColon(scheme: string, rest: string)
    requires |scheme| > 0 && IsAsciiLetter(scheme[0])
    requires forall k :: 0 <= k < |scheme| ==> IsSchemeChar(scheme[k])
    ensures UrlSplit(scheme + ":" + rest).scheme == Lower(scheme)
  {
    SchemePrefix(scheme, rest);
  }

  /** `scheme://netloc/path` splits into its scheme (lower-cased), its network location and
      its path, with no query and no fragment. */
  lemma SplitAuthorityForm(scheme: string, netloc: string, path: string)
    requires |scheme| > 0 && IsAsciiLetter(scheme[0])
    requires forall k :: 0 <= k < |scheme| ==> IsSchemeChar(scheme[k])
    requires forall k :: 0 <= k < |netloc| ==> !IsAuthorityEnd(netloc[k])
    requires path == "" || path[0] == '/'
    requires '?' !in path && '#' !in path
    ensures UrlSplit(scheme + "://" + netloc + path) == SplitResult(Lower(scheme), netloc, path, "", "")
  {
    var url := scheme + "://" + netloc + path;
    AuthorityPrefix(url, scheme, netloc, path);
    assert SplitAt(path, '#') == (path, "");
    assert SplitAt(path, '?') == (path, "");
  }

  /** `scheme://netloc/path#fragment` splits as `scheme://netloc/path` does, with that fragment. */
  lemma SplitAuthorityFragment(scheme: string, netloc: string, path: string, fragment: string)
    requires |scheme| > 0 && IsAsciiLetter(scheme[0])
    requires forall k :: 0 <= k < |scheme| ==> IsSchemeChar(scheme[k])
    requires forall k :: 0 <= k < |netloc| ==> !IsAuthorityEnd(netloc[k])
    requires path == "" || path[0] == '/'
    requires '?' !in path && '#' !in path
    ensures UrlSplit(scheme + "://" + netloc + path + "#" + fragment)
              == SplitResult(Lower(scheme), netloc, path, "", fragment)
  {
    var url := scheme + "://" + netloc + path + "#" + fragment;
    var rest := path + "#" + fragment;
    assert url == scheme + "://" + netloc + rest;
    AuthorityPrefix(url, scheme, netloc, rest);
    SplitAtFirst(path, '#', fragment);
    assert SplitAt(path, '?') == (path, "");
  }

  /** Scheme and network location of `scheme://netloc` followed by text that starts where a
      network location stops: that text is what the path, query and fragment are cut from. */
  lemma AuthorityPrefix(url: string, scheme: string, netloc: string, rest: string)
    requires url == scheme + "://" + netloc + rest
    requires |scheme| > 0 && IsAsciiLetter(scheme[0])
    requires forall k :: 0 <= k < |scheme| ==> IsSchemeChar(scheme[k])
    requires forall k :: 0 <= k < |netloc| ==> !IsAuthorityEnd(netloc[k])
    requires rest == "" || IsAuthorityEnd(rest[0])
    ensures UrlSplit(url).scheme == Lower(scheme) && UrlSplit(url).netloc == netloc
    ensures PathStart(url) <= |url| && url[PathStart(url)..] == rest
  {
    var tail := "//" + netloc + rest;
    assert url == scheme + ":" + tail;
    SchemePrefix(scheme, tail);
    var s := |scheme| + 1;
    assert url[s..] == tail;
    NetlocStop(url, s, netloc, rest);
  }

  /** After `//`, a network location stops at the first `/`, `?` or `#`, or at the end. */
  lemma NetlocStop(url: string, s: nat, netloc: string, path: string)
    requires s <= |url| && url[s..] == "//" + netloc + path
    requires forall k :: 0 <= k < |netloc| ==> !IsAuthorityEnd(netloc[k])
    requires path == "" || IsAuthorityEnd(path[0])
    ensures AuthorityStop(url, s) == s + 2 + |netloc|
    ensures url[s + 2..s + 2 + |netloc|] == netloc && url[s + 2 + |netloc|..] == path
  {
    var tail := netloc + path;
    assert url[s] == '/' && url[s + 1] == '/';
    assert url[s + 2..] == tail;
    assert forall k :: 0 <= k < |netloc| ==> tail[k] == netloc[k];
    assert path != "" ==> tail[|netloc|] == path[0];
    assert AuthorityEnd(tail) == |netloc|;
  }

  /** One field of a query string: `(key, value)` for `key=value` with a non-empty value. */
  function FieldPair(field: string): seq<(string, string)>
  {
    var (key, value) := SplitAt(field, '=');
    if field == "" || '=' !in field || value == "" then [] else [(key, value)]
  }

  /** A field gives at most one pair; the pair's key is the text before the first `=`
      and its value, never empty, the text after it. */
  lemma FieldPairShape(field: string)
    ensures |FieldPair(field)| <= 1
    ensures |FieldPair(field)| == 1 ==>
              var (key, value) := FieldPair(field)[0];
              '=' !in key && value != "" && field == key + "=" + value
  {
  }

  /** The pairs of a list of fields, in order. */
  function Pairs(fields: seq<string>): (r: seq<(string, string)>)
    ensures |r| <= |fields|
  {
    if fields == [] then [] else FieldPair(fields[0]) + Pairs(fields[1..])
  }

  /** `parse_qsl(qs)`: fields separated by `&`; a field that is empty, has no `=`,
      or has an empty value is dropped. */
  function ParseQsl(qs: string): (r: seq<(string, string)>)
    ensures |r| <= |Split(qs, '&')|
  {
    Pairs(Split(qs, '&'))
  }

  /** Every pair comes from one `&`-separated field `key=value` with a non-empty value. */
  lemma {:induction false} ParseQslFields(fields: seq<string>, k: nat)
    requires k < |Pairs(fields)|
    ensures '=' !in Pairs(fields)[k].0 && Pairs(fields)[k].1 != ""
    ensures Pairs(fields)[k].0 + "=" + Pairs(fields)[k].1 in fields
  {
    var head := FieldPair(fields[0]);
    FieldPairShape(fields[0]);
    if k >= |head| {
      ParseQslFields(fields[1..], k - |head|);
      assert Pairs(fields)[k] == Pairs(fields[1..])[k - |head|];
    }
  }

  /** Fields are read independently: the pairs of two lists are the pairs of each, in order. */
  lemma {:induction false} PairsAppend(a: seq<string>, b: seq<string>)
    ensures Pairs(a + b) == Pairs(a) + Pairs(b)
  {
    if a != [] {
      assert (a + b)[0] == a[0];
      assert (a + b)[1..] == a[1..] + b;
      PairsAppend(a[1..], b);
    } else {
      assert a + b == b;
    }
  }

  /** A query string of one `key=value` field, with a non-empty value, parses to that pair. */
  lemma ParseQslSingle(key: string, value: string)
    requires '=' !in key && value != "" && '&' !in key && '&' !in value
    ensures ParseQsl(key + "=" + value) == [(key, value)]
  {
    var field := key + "=" + value;
    assert field == key + ['='] + value;
    assert '&' !in field;
    SplitNoSep(field, '&');
    SplitAtFirst(key, '=', value);
    assert field[|field| - 1] == value[|value| - 1];
    assert FieldPair(field) == [(key, value)];
    assert Pairs([field]) == FieldPair(field) + Pairs([]);
  }

  /** The pairs of `a&b` are those of `a`, then those of `b`. */
  lemma ParseQslAppend(a: string, b: string)
    ensures ParseQsl(a + "&" + b) == ParseQsl(a) + ParseQsl(b)
  {
    assert a + "&" + b == a + ['&'] + b;
    SplitAppend(a, b, '&');
    PairsAppend(Split(a, '&'), Split(b, '&'));
  }

  /** Every pair of a query string has a non-empty value. */
  lemma ParseQslValues(qs: string)
    ensures forall k :: 0 <= k < |ParseQsl(qs)| ==> ParseQsl(qs)[k].1 != ""
  {
    forall k | 0 <= k < |ParseQsl(qs)| ensures ParseQsl(qs)[k].1 != "" {
      ParseQslFields(Split(qs, '&'), k);
    }
  }
}
