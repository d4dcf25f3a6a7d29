# URI and path helpers of datacube-core, modelled in Dafny

This project models `datacube/utils/uris.py`, the module of the Open Data Cube
core that reconciles URIs with local file-system paths. It covers:

- **`is_url`**: a classifier that recognises a scheme prefix. The prefix is
  optional whitespace, one or more word characters or `+`, then `://`.
- **`uri_to_local_path`**: turns a `file:` URI into a path. A network
  location becomes a UNC-style `//netloc/path` on Windows and an error on any
  other host.
- **The part codec**: `mk_part_uri` writes `#part=<n>` and `get_part_from_uri`
  reads it back, together with its inner `maybe_int`.
- **`as_url`**: the branch that passes a URL through unchanged.
- **`default_base_dir`**: the choice between the resolved current directory
  and the shell's `PWD`.
- **`normalise_path`**: the lexical path normaliser, with its inner `norm`.

The modelled functions compute their results without changing anything, and
the model is made of datatypes, functions and lemmas. Where they read the host,
what they read becomes a parameter: the operating system's name, the current
directory, the `PWD` variable and `resolve`.

The model describes the library calls the module leans on by the subset of
their behaviour that matters here, as CPython 3.12 implements them:

- **`urllib.parse.urlsplit`**: a scheme of letters, digits, `+`, `-` and `.`
  that starts with a letter and is lower-cased. A network location follows
  `//` and runs up to the first `/`, `?` or `#`. The fragment is everything
  after the first `#` and the query everything after the first `?` before it.
- **`parse_qsl`**: `&`-separated fields. A field that is empty, has no `=` or
  has an empty value is dropped.
- **`dict`**: the last of several pairs with the same key wins.
- **`int` and `'{:d}'`**: an optional sign, then ASCII digits. Both raise
  `ValueError` for a number of more than 4300 digits, the default of
  `sys.get_int_max_str_digits()`.
- **`pathlib.PurePosixPath`**: a root of none, one or two slashes, then the
  parts without empty and `.` ones.
- **`posixpath.join` and `posixpath.normpath`**: `normpath` is a fold over
  the segments. Empty and `.` segments vanish. `..` removes the previous name;
  under a root it vanishes, and otherwise it is kept. A leading `//` is kept,
  as IEEE Std 1003.1, section 4.13 allows.

The modules are:

| file | module | contents |
|---|---|---|
| `wrappers.dfy` | `Wrappers` | `Option` and `Result` |
| `text.dfy` | `Text` | `find`, `split` and `join` on one separator character |
| `decimal.dfy` | `Decimal` | decimal formatting and `int()` parsing |
| `urlparse.dfy` | `UrlParse` | `urlsplit` and `parse_qsl` |
| `posixpath.dfy` | `PosixPath` | path texts, `join` and `normpath` |
| `uris.dfy` | `Uris` | the functions of `uris.py` |

## Model

| member | source | states |
|---|---|---|
| Uris.IsUrl | datacube/utils/uris.py:12-30 | the definition of `is_url`, by the greedy whitespace and word-character runs followed by `://`; its contract only says a URL is a string of at least four characters, and Uris.IsUrlMatchesPattern relates it to the pattern |
| Uris.IsUrlMatchesPattern | datacube/utils/uris.py:9-30 | a string is a URL exactly when it matches the pattern: leading whitespace, then one or more word characters or `+`, then `://` (both directions) |
| Uris.IsUrlSchemeForm | datacube/utils/uris.py:9-28 | any non-empty run of word characters followed by `://` makes a URL, whatever follows |
| Uris.IsUrlAcceptsFile | datacube/utils/uris.py:16-17 | `file:///etc/blah` is a URL |
| Uris.IsUrlAcceptsHttp | datacube/utils/uris.py:18-19 | `http://greg.com/greg.txt` is a URL |
| Uris.IsUrlAcceptsS3 | datacube/utils/uris.py:20-21 | `s3:///etc/blah` is a URL |
| Uris.IsUrlRejectsExamples | datacube/utils/uris.py:22-25 | `/etc/blah` and the drive path `C:/etc/blah` are not URLs |
| Uris.IsUrlRejectsOther | datacube/utils/uris.py:27-30 | a value that is not a string is not a URL, and no error escapes |
| Uris.UriToLocalPath | datacube/utils/uris.py:33-64 | a missing or empty URI gives `None`; the scheme error is raised exactly when the scheme is not `file`, and names that scheme; the network-location error is raised exactly for a `file` URI with a network location on a host other than Windows; a POSIX result is a non-empty `Path` text, absolute exactly when the URI's path is |
| Uris.UriToLocalPathFileForm | datacube/utils/uris.py:52-64 | `file://netloc/path`: without a network location the result is `Path(path)` on any host; with one it is `//netloc/path` on Windows and the network-location error elsewhere |
| Uris.UriToLocalPathOfSplit | datacube/utils/uris.py:56-64 | the same three outcomes for any URI whose scheme is `file`, in terms of its network location and its path, whatever its query and fragment |
| Uris.UriToLocalPathDropsFragment | datacube/utils/uris.py:52-64 | a fragment, such as the one `mk_part_uri` appends, does not change the result |
| Uris.UriToLocalPathExample | datacube/utils/uris.py:40-41 | `file:///tmp/something.txt` is `/tmp/something.txt` on POSIX |
| Uris.UriToLocalPathOtherScheme | datacube/utils/uris.py:52-54 | a URI with any other scheme raises, naming the scheme in lower case |
| Uris.MkPartUri | datacube/utils/uris.py:67-70 | the `ValueError` is raised exactly when the index has more digits than the limit; otherwise the result is the URI, then `#part=`, then an integer literal |
| Uris.MaybeInt | datacube/utils/uris.py:80-86 | `None` exactly for `None`; an integer literal becomes its value; anything else is returned unchanged and is not a literal |
| Uris.ToDict | datacube/utils/uris.py:88 | every key of the pairs is in the dictionary, and each value is the value of one of that key's pairs |
| Uris.ToDictLast | datacube/utils/uris.py:88 | the value of a key is the value of its last pair |
| Uris.FragmentOptionValues | datacube/utils/uris.py:88 | no option of a fragment has an empty value |
| Uris.FragmentOptionsSingle | datacube/utils/uris.py:88 | a fragment of one `key=value` field has exactly that option |
| Uris.LastOptionWins | datacube/utils/uris.py:88 | a field appended to any fragment overrides earlier fields with the same key |
| Uris.GetPartFromUri | datacube/utils/uris.py:73-89 | the definition of `get_part_from_uri`: `None` exactly when the fragment has no `part` option |
| Uris.GetPartCases | datacube/utils/uris.py:73-89 | the part is `None` exactly when the fragment has no `part` option; otherwise it is the integer that option spells, or else its raw text, which is never empty |
| Uris.PartRoundTrip | datacube/utils/uris.py:67-89 | for a URI without `#` and any integer `n`, negative, zero or positive, reading back `mk_part_uri(uri, n)` gives `n` whenever writing it succeeds |
| Uris.PartTextRoundTrip | datacube/utils/uris.py:80-89 | a non-empty `part` value that is not an integer literal `int()` accepts, and holds nothing `urlsplit` removes or `parse_qsl` splits on or decodes (`&`, `+`, `%`, tab, line feed, carriage return), is read back as that exact text, without raising |
| Uris.NoFragmentNoPart | datacube/utils/uris.py:88-89 | a URI without `#` has no part |
| Uris.LastPartWins | datacube/utils/uris.py:80-89 | appending `&part=<n>` to any fragment makes the part `n`, or the text of `n` when `n` has more digits than the limit and `int()` raises |
| Uris.PartAfterFragmentLost | datacube/utils/uris.py:67-89 | on a URI that already has a fragment whose text holds no `=` or `&`, the part written by `mk_part_uri` is not read back: the result is `None` |
| Uris.AsUrl | datacube/utils/uris.py:92-94 | a value `is_url` accepts is returned unchanged |
| Uris.AsUrlIsUrl | datacube/utils/uris.py:92-96 | when the path branch yields a `file://` URI, the result is always a URL and a second `as_url` changes nothing |
| Uris.DefaultBaseDir | datacube/utils/uris.py:99-128 | the result is the current directory or `PWD`; it is `PWD` only when `PWD` is set, absolute, resolvable and resolves to the current directory, and it is `PWD` whenever all four hold; it is always absolute, and is a `Path` text |
| Uris.DefaultBaseDirCwd | datacube/utils/uris.py:110-126 | when `PWD` is missing, relative, unresolvable or resolves elsewhere, the result is the current directory |
| Uris.AsPath | datacube/utils/uris.py:164-168 | `Path(p)` is a `Path` text, absolute exactly when `p` is |
| Uris.Norm | datacube/utils/uris.py:161-162 | `Path(normpath(str(p)))` is `normpath(p)`: building the `Path` changes nothing |
| Uris.NormalisePath | datacube/utils/uris.py:150-178 | the `ValueError` is raised exactly when `p` is relative and a relative base is given |
| Uris.NormaliseAbsolute | datacube/utils/uris.py:170-171 | an absolute `p` gives `normpath(p)`, whatever the base |
| Uris.NormaliseJoin | datacube/utils/uris.py:173-178 | a relative `p` with an absolute base gives `normpath(join(base, p))` |
| Uris.NormaliseDefaultBase | datacube/utils/uris.py:173-178 | a relative `p` without a base gives `normpath(join(default_base_dir(), p))` |
| Uris.NormaliseIsNormal | datacube/utils/uris.py:150-178 | every result is absolute, with no empty, `.` or `..` segment |
| Uris.NormaliseIdempotent | datacube/utils/uris.py:150-178 | normalising a result again, as a string or a `Path` and against any base, gives it back |
| UrlParse.UrlSplit | datacube/utils/uris.py:52 | the network location holds no `/`, `?` or `#`, and the path holds no `?` or `#` |
| UrlParse.SplitAt | datacube/utils/uris.py:52 | the text before the first separator holds none, and the two pieces with the separator make up the input |
| UrlParse.FragmentAfterFirstHash | datacube/utils/uris.py:88 | the fragment is everything after the first `#` |
| UrlParse.NoHashNoFragment | datacube/utils/uris.py:88 | without `#` the fragment is empty |
| UrlParse.SplitAuthorityForm | datacube/utils/uris.py:52 | `scheme://netloc/path` splits into the lower-cased scheme, the network location and the path |
| UrlParse.SplitAuthorityFragment | datacube/utils/uris.py:52 | `scheme://netloc/path#fragment` splits into the same parts, with that fragment |
| UrlParse.SchemeColon | datacube/utils/uris.py:52-53 | a scheme followed by `:` is split off and lower-cased, whatever follows |
| UrlParse.ParseQsl | datacube/utils/uris.py:88 | the definition of `parse_qsl`: at most one pair per `&`-separated field |
| UrlParse.FieldPairShape | datacube/utils/uris.py:88 | a field gives at most one pair, whose key is the text before the first `=` and whose value, never empty, is the text after it |
| UrlParse.ParseQslFields | datacube/utils/uris.py:88 | every pair comes from one field `key=value` with a non-empty value |
| UrlParse.ParseQslSingle | datacube/utils/uris.py:88 | one `key=value` field parses to exactly that pair |
| UrlParse.ParseQslAppend | datacube/utils/uris.py:88 | the pairs of `a&b` are those of `a`, then those of `b` |
| UrlParse.ParseQslValues | datacube/utils/uris.py:88 | no pair has an empty value |
| UrlParse.ParseQslEmpty | datacube/utils/uris.py:88 | the empty string has no pairs |
| Decimal.FormatInt | datacube/utils/uris.py:70 | the decimal text of `n` is non-empty and starts with `-` exactly when `n` is negative |
| Decimal.ParseInt | datacube/utils/uris.py:84 | the definition of `int()` on text: it succeeds only on integer literals |
| Decimal.ParseIntAccepts | datacube/utils/uris.py:84 | `int()` succeeds exactly on an optional sign followed by one to 4300 digits |
| Decimal.ParseFormat | datacube/utils/uris.py:70-84 | `int('{:d}'.format(n)) == n` for every integer within the digit limit; beyond it `int()` raises |
| Decimal.FormatIntShape | datacube/utils/uris.py:70 | the formatted text is made of digits and at most a leading `-`, and is a literal `int()` accepts exactly within the digit limit |
| PosixPath.NormPath | datacube/utils/uris.py:162 | the definition of `os.path.normpath` as a fold over the segments; the result is never empty |
| PosixPath.PurePath | datacube/utils/uris.py:164-165 | the definition of the text of `pathlib.Path(p)`; it is never empty |
| PosixPath.Div | datacube/utils/uris.py:178 | the definition of `Path(a) / Path(b)`; it is never empty |
| PosixPath.NormPathIdempotent | datacube/utils/uris.py:162 | `normpath` is idempotent |
| PosixPath.NormPathRoot | datacube/utils/uris.py:162 | `normpath` keeps the root and so keeps a path absolute or relative |
| PosixPath.NormPathAbsoluteClean | datacube/utils/uris.py:162 | the `normpath` of an absolute path has no empty, `.` or `..` segment |
| PosixPath.NormPathOfRender | datacube/utils/uris.py:162 | a path already in normal form is its own `normpath` |
| PosixPath.CollapseNormal | datacube/utils/uris.py:162 | the fold over the segments keeps the accumulated parts in normal form |
| PosixPath.CollapseOfNormal | datacube/utils/uris.py:162 | the fold appends parts that are already in normal form unchanged |
| PosixPath.NormPathOfPurePath | datacube/utils/uris.py:162-171 | building a `Path` first does not change `normpath` |
| PosixPath.PurePathOfNormPath | datacube/utils/uris.py:162 | the `Path` of a `normpath` result has that result as its text |
| PosixPath.PurePathIdempotent | datacube/utils/uris.py:164-165 | building a `Path` from the text of a `Path` changes nothing |
| PosixPath.PurePathAbsolute | datacube/utils/uris.py:164-170 | building a `Path` keeps a path absolute or relative |
| PosixPath.JoinPathRoot | datacube/utils/uris.py:178 | joining a relative path onto an absolute one keeps the root of the first |
| PosixPath.JoinPathClean | datacube/utils/uris.py:178 | the parts of the join are those of the base, then those of the path |
| PosixPath.NormPathOfDiv | datacube/utils/uris.py:178 | `normpath(Path(a) / Path(b))` is `normpath(join(a, b))` |

## Left out

- `without_lineage_sources` is not modelled. It deep-copies a document and
  calls into a product or metadata type that is not part of this model.
- The path branch of `as_url` is a parameter. It stands for
  `pathlib.Path(v).absolute().as_uri()`, which reads the current directory and
  percent-encodes.
- Percent-decoding by `parse_qsl` and `parse_qsl`'s `+` to space are not
  modelled; `urlsplit` decodes nothing.
- `url2pathname` is the identity. On POSIX it is `unquote`, so a `%xx` escape
  in a `file:` path is kept as written (`file:///tmp/a%20b` gives `/tmp/a%20b`
  where the program gives `/tmp/a b`). Windows drive-letter rewriting and `/`
  to `\` are not modelled either.
- `pathlib.Path` on Windows is the raw text; Windows path normalisation is not
  modelled.
- From `urlsplit`, these are not modelled:
  - the stripping of leading control characters and spaces;
  - the removal of tabs and newlines;
  - the `ValueError` for malformed IPv6 brackets;
  - the `ValueError` of its network-location check for a non-ASCII network
    location whose NFKC form holds `/`, `?`, `#`, `@` or `:` (for example
    `file://℀/x`), which `uri_to_local_path` and `get_part_from_uri` would
    let propagate;
  - `urlparse`'s `;` parameters, which never affect the fragment.
- `int()`'s whitespace, `_` separators and non-ASCII digits are not modelled.
- `\s` and `\w` cover ASCII characters only.
- `normalise_path` and `default_base_dir` are modelled with POSIX paths.
- `os.name` is `nt` or anything else, and anything else behaves as POSIX.
- Uris.DefaultBaseDir: `resolve` either succeeds or fails with an `IOError`,
  which gives the current directory. The `RuntimeError` that CPython 3.12's
  `Path.resolve()` raises for a symbolic-link loop is not modelled; the
  program lets it propagate out of `default_base_dir` and `normalise_path`.
- The current directory, the `PWD` variable and `resolve` are inputs.
  `resolve` returns `None` where it would raise `IOError`. A `Path` value is
  represented by its text, and `Path` equality by text equality.
- The `isinstance` assertions of `normalise_path` are replaced by the argument
  type, a string or a `Path`.
- The current directory is an absolute path text, as `resolve` guarantees.
- The digit limit is the default one; a limit changed with
  `sys.set_int_max_str_digits` is not modelled.
- Uris.PartRoundTrip: requires a URI without `#`. With an existing fragment,
  the part is lost (Uris.PartAfterFragmentLost).
