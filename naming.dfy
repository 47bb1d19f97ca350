/**
 * The names `process_record` derives from the link: the S3 object key, the two
 * job paths, and the DynamoDB key computed by `get_unique_id_from_url`. All of
 * them are pure functions of the URL string.
 */
module Naming {
  import opened Wrappers
  import opened Text
  import opened Url
  import opened Dates

  const InputBucket: string := "judgement-pdfs"
  const OutputBucket: string := "judgement-jsons"
  const KeyPrefix: string := "judgements/"

  // ---------------------------------------------------------------------------
  // Object key

  /** Appends `.pdf` to a file name that does not already end with it. */
  function WithPdfSuffix(name: string): (f: string)
    ensures EndsWith(f, ".pdf")
    ensures f == name || f == name + ".pdf"
    ensures f == name <==> EndsWith(name, ".pdf")
  {
    if EndsWith(name, ".pdf") then name else name + ".pdf"
  }

  /** Adding the suffix a second time changes nothing. */
  lemma WithPdfSuffixIdempotent(name: string)
    ensures WithPdfSuffix(WithPdfSuffix(name)) == WithPdfSuffix(name)
  {
  }

  /** `os.path.basename(path)`, with `.pdf` appended when missing. */
  function PathFilename(path: string): (f: string)
    ensures '/' !in f && EndsWith(f, ".pdf")
  {
    var name := LastSegment(path, '/');
    assert '/' !in name + ".pdf";
    WithPdfSuffix(name)
  }

  /** `os.path.basename(urlparse(url).path)`, with `.pdf` appended when missing. */
  function ObjectFilename(url: string): (f: string)
    ensures '/' !in f && EndsWith(f, ".pdf")
  {
    PathFilename(UrlPath(url))
  }

  /** The key under which the document is stored in the input bucket. */
  function ObjectKey(url: string): (key: string)
    ensures |key| >= |KeyPrefix| + 4 && key[..|KeyPrefix|] == KeyPrefix
    ensures '/' !in key[|KeyPrefix|..] && EndsWith(key, ".pdf")
  {
    var f := ObjectFilename(url);
    assert (KeyPrefix + f)[|KeyPrefix|..] == f;
    KeyPrefix + f
  }

  /**
   * An ordinary URL: scheme, host, a path that ends in `/name`, maybe a query
   * or fragment, and no tab, carriage return or line feed anywhere.
   */
  predicate IsOrdinaryUrl(scheme: string, host: string, dirs: string, name: string, tail: string)
  {
    && |scheme| > 0 && IsAsciiLetter(scheme[0])
    && (forall k :: 0 <= k < |scheme| ==> IsSchemeChar(scheme[k]))
    && (forall k :: 0 <= k < |host| ==> host[k] !in {'/', '?', '#'})
    && (|dirs| == 0 || dirs[0] == '/')
    && (forall k :: 0 <= k < |dirs| ==> dirs[k] !in {'?', '#', ';'})
    && (forall k :: 0 <= k < |name| ==> name[k] !in {'/', '?', '#', ';'})
    && (|tail| == 0 || tail[0] == '?' || tail[0] == '#')
    && '/' !in tail
    && NoTabOrNewline(host) && NoTabOrNewline(dirs) && NoTabOrNewline(name) && NoTabOrNewline(tail)
  }

  /**
   * For `scheme://host/dirs/name?query`, the key is `judgements/` followed by
   * `name`, with `.pdf` appended only when `name` lacks it; but the raw last
   * `/` segment that `get_unique_id_from_url` reads still carries the query.
   */
  lemma SegmentsOfOrdinaryUrl(scheme: string, host: string, dirs: string, name: string, tail: string)
    requires IsOrdinaryUrl(scheme, host, dirs, name, tail)
    ensures var url := scheme + "://" + host + dirs + "/" + name + tail;
      && ObjectKey(url) == KeyPrefix + (if EndsWith(name, ".pdf") then name else name + ".pdf")
      && LastSegment(url, '/') == name + tail
  {
    var url := scheme + "://" + host + dirs + "/" + name + tail;
    KeyOfOrdinaryUrl(url, scheme, host, dirs, name, tail);
    RawSegmentOfOrdinaryUrl(url, scheme, host, dirs, name, tail);
  }

  lemma KeyOfOrdinaryUrl(url: string, scheme: string, host: string, dirs: string, name: string, tail: string)
    requires IsOrdinaryUrl(scheme, host, dirs, name, tail)
    requires url == scheme + "://" + host + dirs + "/" + name + tail
    ensures ObjectKey(url) == KeyPrefix + WithPdfSuffix(name)
  {
    PathOfOrdinaryUrl(url, scheme, host, dirs, name, tail);
    KeyFromPath(url, dirs + "/" + name, dirs, name);
  }

  lemma RawSegmentOfOrdinaryUrl(url: string, scheme: string, host: string, dirs: string, name: string, tail: string)
    requires IsOrdinaryUrl(scheme, host, dirs, name, tail)
    requires url == scheme + "://" + host + dirs + "/" + name + tail
    ensures LastSegment(url, '/') == name + tail
  {
    assert '/' !in name + tail by {
      forall k | 0 <= k < |name + tail| ensures (name + tail)[k] != '/' {
        if k < |name| { assert (name + tail)[k] == name[k]; }
        else { assert (name + tail)[k] == tail[k - |name|]; }
      }
    }
    assert url == (scheme + "://" + host + dirs) + ['/'] + (name + tail);
    LastSegmentAfter(scheme + "://" + host + dirs, name + tail, '/');
  }

  lemma PathOfOrdinaryUrl(url: string, scheme: string, host: string, dirs: string, name: string, tail: string)
    requires IsOrdinaryUrl(scheme, host, dirs, name, tail)
    requires url == scheme + "://" + host + dirs + "/" + name + tail
    ensures UrlPath(url) == dirs + "/" + name
    ensures '/' !in name
  {
    var path := dirs + "/" + name;
    assert path[0] == '/';
    assert forall k :: 0 <= k < |path| ==> path[k] !in {'?', '#', ';'} by {
      forall k | 0 <= k < |path| ensures path[k] !in {'?', '#', ';'} {
        if k < |dirs| { assert path[k] == dirs[k]; }
        else if k > |dirs| { assert path[k] == name[k - |dirs| - 1]; }
      }
    }
    assert scheme + "://" + host + dirs + "/" + name + tail == scheme + "://" + host + path + tail;
    OrdinaryUrlPath(scheme, host, path, tail);
    assert '/' !in name by {
      forall k | 0 <= k < |name| ensures name[k] != '/' { }
    }
  }

  lemma KeyFromPath(url: string, path: string, dirs: string, name: string)
    requires '/' !in name
    requires UrlPath(url) == path && path == dirs + "/" + name
    ensures ObjectKey(url) == KeyPrefix + WithPdfSuffix(name)
  {
    LastSegmentAfter(dirs, name, '/');
  }

  /**
   * A URL with no path at all gives the degenerate key `judgements/.pdf`,
   * while its raw last `/` segment is the host.
   */
  lemma BareHostUrl(scheme: string, host: string)
    requires IsOrdinaryUrl(scheme, host, "", "", "")
    ensures ObjectKey(scheme + "://" + host) == "judgements/.pdf"
    ensures LastSegment(scheme + "://" + host, '/') == host
  {
    var url := scheme + "://" + host;
    BareHostPath(url, scheme, host);
    EmptyPathKey(url);
    BareHostSegment(url, scheme, host);
  }

  lemma BareHostPath(url: string, scheme: string, host: string)
    requires IsOrdinaryUrl(scheme, host, "", "", "")
    requires url == scheme + "://" + host
    ensures UrlPath(url) == ""
  {
    assert url == scheme + "://" + host + "" + "";
    OrdinaryUrlPath(scheme, host, "", "");
  }

  lemma BareHostSegment(url: string, scheme: string, host: string)
    requires IsOrdinaryUrl(scheme, host, "", "", "")
    requires url == scheme + "://" + host
    ensures LastSegment(url, '/') == host
  {
    assert url == (scheme + ":/") + ['/'] + host;
    LastSegmentAfter(scheme + ":/", host, '/');
  }

  /**
   * The key is read from the URL after the leading control characters and
   * spaces are stripped and every tab and newline is deleted.
   */
  lemma KeyOfSanitizedUrl(url: string)
    ensures ObjectKey(url) == ObjectKey(Sanitized(url))
  {
    UrlPathOfSanitized(url);
  }

  /**
   * A URL that becomes an ordinary one once sanitized has the key of that
   * ordinary URL.
   */
  lemma KeyOfSanitizedOrdinaryUrl(url: string, scheme: string, host: string, dirs: string, name: string, tail: string)
    requires IsOrdinaryUrl(scheme, host, dirs, name, tail)
    requires Sanitized(url) == scheme + "://" + host + dirs + "/" + name + tail
    ensures ObjectKey(url) == KeyPrefix + WithPdfSuffix(name)
  {
    KeyOfSanitizedUrl(url);
    KeyOfOrdinaryUrl(Sanitized(url), scheme, host, dirs, name, tail);
  }

  /**
   * A tab, carriage return or line feed inside the file name is deleted
   * before the URL is split: the key is that of the name without it.
   */
  lemma ControlCharInName(scheme: string, host: string, dirs: string, a: string, c: char, b: string, tail: string)
    requires IsOrdinaryUrl(scheme, host, dirs, a + b, tail)
    requires c == '\t' || c == '\r' || c == '\n'
    ensures ObjectKey(scheme + "://" + host + dirs + "/" + a + [c] + b + tail) == KeyPrefix + WithPdfSuffix(a + b)
  {
    SanitizedWithoutControlChar(scheme, host, dirs, a, c, b, tail);
    KeyOfSanitizedOrdinaryUrl(scheme + "://" + host + dirs + "/" + a + [c] + b + tail, scheme, host, dirs, a + b, tail);
  }

  lemma SanitizedWithoutControlChar(scheme: string, host: string, dirs: string, a: string, c: char, b: string, tail: string)
    requires IsOrdinaryUrl(scheme, host, dirs, a + b, tail)
    requires c == '\t' || c == '\r' || c == '\n'
    ensures Sanitized(scheme + "://" + host + dirs + "/" + a + [c] + b + tail)
         == scheme + "://" + host + dirs + "/" + (a + b) + tail
  {
    var p := scheme + "://" + host + dirs + "/" + a;
    NameLayout(scheme, host, dirs, a, c, b, tail);
    CleanAroundName(scheme, host, dirs, a, b, tail);
    SanitizedDeletes(p, c, b + tail);
  }

  lemma CleanAroundName(scheme: string, host: string, dirs: string, a: string, b: string, tail: string)
    requires IsOrdinaryUrl(scheme, host, dirs, a + b, tail)
    ensures var p := scheme + "://" + host + dirs + "/" + a;
      |p| > 0 && p[0] > ' ' && NoTabOrNewline(p) && NoTabOrNewline(b + tail)
  {
    SchemeHasNoTab(scheme);
    var p := scheme + "://" + host + dirs + "/" + a;
    assert p[0] == scheme[0];
  }

  lemma NameLayout(scheme: string, host: string, dirs: string, a: string, c: char, b: string, tail: string)
    ensures scheme + "://" + host + dirs + "/" + a + [c] + b + tail
         == (scheme + "://" + host + dirs + "/" + a) + [c] + (b + tail)
    ensures (scheme + "://" + host + dirs + "/" + a) + (b + tail)
         == scheme + "://" + host + dirs + "/" + (a + b) + tail
  {
  }

  /** Control characters and spaces in front of the URL do not change its key. */
  lemma KeyAfterBlanks(blanks: string, url: string)
    requires AllBlank(blanks)
    requires url == "" || url[0] > ' '
    ensures ObjectKey(blanks + url) == ObjectKey(url)
  {
    SanitizedAfterBlanks(blanks, url);
    KeyOfSanitizedUrl(blanks + url);
    KeyOfSanitizedUrl(url);
  }

  /** So ` https://host`, say, still gets the degenerate key of a bare host. */
  lemma BlanksBeforeBareHost(blanks: string, scheme: string, host: string)
    requires AllBlank(blanks)
    requires IsOrdinaryUrl(scheme, host, "", "", "")
    ensures ObjectKey(blanks + (scheme + "://" + host)) == "judgements/.pdf"
  {
    assert (scheme + "://" + host)[0] == scheme[0];
    KeyAfterBlanks(blanks, scheme + "://" + host);
    BareHostUrl(scheme, host);
  }

  lemma EmptyPathKey(url: string)
    requires UrlPath(url) == ""
    ensures ObjectKey(url) == "judgements/.pdf"
  {
    EmptyNameFilename();
    DegenerateKeySpelling();
  }

  lemma EmptyNameFilename()
    ensures WithPdfSuffix(LastSegment("", '/')) == ".pdf"
  {
    assert Split("", '/') == [""];
  }

  lemma DegenerateKeySpelling()
    ensures KeyPrefix + ".pdf" == "judgements/.pdf"
  {
  }

  // ---------------------------------------------------------------------------
  // Job paths

  /** `s3://bucket/key`. */
  function S3Uri(bucket: string, key: string): string
  {
    "s3://" + bucket + "/" + key
  }

  /** Reads an `s3://bucket/key` URI back into its bucket and key. */
  function ParseS3Uri(uri: string): Option<(string, string)>
  {
    if |uri| >= 5 && uri[..5] == "s3://" then
      var rest := uri[5..];
      var i := IndexOfAny(rest, {'/'});
      if i < |rest| then Some((rest[..i], rest[i + 1..])) else None
    else None
  }

  lemma S3UriRoundTrip(bucket: string, key: string)
    requires '/' !in bucket
    ensures ParseS3Uri(S3Uri(bucket, key)) == Some((bucket, key))
  {
    var uri := S3Uri(bucket, key);
    assert uri[5..] == bucket + "/" + key;
    IndexOfAnyAt(bucket + "/" + key, {'/'}, |bucket|);
    assert (bucket + "/" + key)[..|bucket|] == bucket;
    assert (bucket + "/" + key)[|bucket| + 1..] == key;
  }

  /** The job's `input_file_path`: the stored object, `judgements/<filename>` in the input bucket. */
  function InputPath(filename: string): (p: string)
    ensures ParseS3Uri(p) == Some((InputBucket, KeyPrefix + filename))
  {
    S3UriRoundTrip(InputBucket, KeyPrefix + filename);
    S3Uri(InputBucket, KeyPrefix + filename)
  }

  /** The job's `output_file_path`: the same `judgements/<filename>`, in the output bucket. */
  function OutputPath(filename: string): (p: string)
    ensures ParseS3Uri(p) == Some((OutputBucket, KeyPrefix + filename))
  {
    S3UriRoundTrip(OutputBucket, KeyPrefix + filename);
    S3Uri(OutputBucket, KeyPrefix + filename)
  }

  /**
   * The two paths of a job never coincide, and each determines the file name:
   * different documents get different paths.
   */
  lemma JobPathsDistinct(f: string, g: string)
    ensures InputPath(f) != OutputPath(g)
    ensures InputPath(f) == InputPath(g) <==> f == g
    ensures OutputPath(f) == OutputPath(g) <==> f == g
  {
    if InputPath(f) == InputPath(g) {
      assert KeyPrefix + f == KeyPrefix + g;
      assert f == (KeyPrefix + f)[|KeyPrefix|..];
    }
    if OutputPath(f) == OutputPath(g) {
      assert KeyPrefix + f == KeyPrefix + g;
      assert f == (KeyPrefix + f)[|KeyPrefix|..];
    }
  }

  // ---------------------------------------------------------------------------
  // Unique id

  /** Why `get_unique_id_from_url` raises. */
  datatype IdError =
    | MissingPart   // `split[1]` of a file name without `_`: IndexError
    | BadDate       // `format_date` of the last part: ValueError

  /**
   * `get_unique_id_from_url`: the first two `_`-separated parts of the raw
   * last `/` segment, run together, then `_` and the date that the last part,
   * less its final four characters, spells.
   */
  function UniqueId(url: string): (r: Result<string, IdError>)
    ensures r == Failure(MissingPart) <==> '_' !in LastSegment(url, '/')
    ensures r.Success? ==> var id := r.value;
      && |id| >= 11 && id[|id| - 11] == '_'
      && '_' !in id[..|id| - 11]
      && IsIsoShaped(id[|id| - 10..])
  {
    var parts := Split(LastSegment(url, '/'), '_');
    if |parts| < 2 then Failure(MissingPart)
    else
      match FormatDate(DropLast(Last(parts), 4))
      case None => Failure(BadDate)
      case Some(date) =>
        var diary := parts[0] + parts[1];
        assert '_' !in diary by {
          forall k | 0 <= k < |diary| ensures diary[k] != '_' {
            if k < |parts[0]| { assert diary[k] == parts[0][k]; }
            else { assert diary[k] == parts[1][k - |parts[0]|]; }
          }
        }
        var id := diary + "_" + date;
        assert id[..|id| - 11] == diary && id[|id| - 10..] == date;
        Success(id)
  }

  /** No character of a canonically written date is a `/` or a `_`. */
  lemma CanonicalHasNoSeparators(d: Date)
    requires 1 <= d.month <= 12 && 0 <= d.day && 0 <= d.year
    ensures '/' !in Canonical(d) && '_' !in Canonical(d)
  {
    PadAllDigits(d.day, 2);
    PadAllDigits(d.year, 4);
    var c := Canonical(d);
    var dd, mm, yy := Pad(d.day, 2), MonthAbbreviations[d.month - 1], Pad(d.year, 4);
    assert '/' !in mm && '_' !in mm;
    forall k | 0 <= k < |c| ensures c[k] != '/' && c[k] != '_' {
      if k < 2 { assert c[k] == dd[k]; }
      else if 2 < k < 6 { assert c[k] == mm[k - 3]; }
      else if 6 < k { assert c[k] == yy[k - 7]; }
    }
  }

  /** A name `a_b_last` whose three parts hold no `_` splits into exactly those parts. */
  lemma SplitThree(name: string, a: string, b: string, last: string)
    requires '_' !in a && '_' !in b && '_' !in last
    requires name == a + "_" + b + "_" + last
    ensures Split(name, '_') == [a, b, last]
  {
    var rest := b + ['_'] + last;
    assert Split(rest, '_') == [b, last] by {
      SplitAfterPiece(b, last, '_');
    }
    assert name == a + ['_'] + rest;
    SplitAfterPiece(a, rest, '_');
  }

  /**
   * A document named `<a>_<b>_<date><ext>`, with a four-character extension
   * that is not checked, gets the id `<a><b>_<iso>` when `format_date` turns
   * `date` into `iso`.
   */
  lemma UniqueIdOfName(dirs: string, name: string, a: string, b: string, date: string, ext: string, iso: string)
    requires '_' !in a && '_' !in b && '/' !in a && '/' !in b
    requires '_' !in date && '/' !in date && FormatDate(date) == Some(iso)
    requires |ext| == 4 && '_' !in ext && '/' !in ext
    requires name == a + "_" + b + "_" + (date + ext)
    ensures UniqueId(dirs + "/" + name) == Success(a + b + "_" + iso)
  {
    SplitThree(name, a, b, date + ext);
    assert DropLast(date + ext, 4) == date;
    UniqueIdOfPath(dirs, name, a, b, date + ext, iso);
  }

  /** The id of a path whose file name splits into three parts. */
  lemma UniqueIdOfPath(dirs: string, name: string, a: string, b: string, last: string, iso: string)
    requires '/' !in name && Split(name, '_') == [a, b, last]
    requires FormatDate(DropLast(last, 4)) == Some(iso)
    ensures UniqueId(dirs + "/" + name) == Success(a + b + "_" + iso)
  {
    assert dirs + "/" + name == dirs + ['/'] + name;
    LastSegmentAfter(dirs, name, '/');
    UniqueIdOfThreeParts(dirs + "/" + name, a, b, last, iso);
  }

  /**
   * In particular a document named `<a>_<b>_<dd-Mon-yyyy><ext>` gets the id
   * `<a><b>_<yyyy-mm-dd>` whenever the date exists.
   */
  lemma UniqueIdOfDatedName(dirs: string, name: string, a: string, b: string, d: Date, ext: string)
    requires '_' !in a && '_' !in b && '/' !in a && '/' !in b
    requires |ext| == 4 && '_' !in ext && '/' !in ext
    requires IsValid(d)
    requires name == a + "_" + b + "_" + (Canonical(d) + ext)
    ensures UniqueId(dirs + "/" + name) == Success(a + b + "_" + IsoFormat(d))
  {
    CanonicalHasNoSeparators(d);
    FormatDateAcceptsValid(d);
    UniqueIdOfName(dirs, name, a, b, Canonical(d), ext, IsoFormat(d));
  }

  lemma UniqueIdOfThreeParts(url: string, a: string, b: string, last: string, date: string)
    requires Split(LastSegment(url, '/'), '_') == [a, b, last]
    requires FormatDate(DropLast(last, 4)) == Some(date)
    ensures UniqueId(url) == Success(a + b + "_" + date)
  {
  }

  /**
   * The id in terms of the `_`-parts of the raw last segment: the first two
   * run together and the date of the last; `BadDate` exactly when that date
   * does not parse.
   */
  lemma UniqueIdOfParts(url: string, parts: seq<string>)
    requires Split(LastSegment(url, '/'), '_') == parts && |parts| >= 2
    ensures var iso := FormatDate(DropLast(Last(parts), 4));
      UniqueId(url) == if iso.Some? then Success(parts[0] + parts[1] + "_" + iso.value) else Failure(BadDate)
  {
  }

  /**
   * A name `<a>_<b>_<rest>` with any number of further parts: only the last
   * `_`-part of `rest` is read as the date.
   */
  lemma UniqueIdOfLongName(dirs: string, name: string, a: string, b: string, rest: string)
    requires '_' !in a && '_' !in b && '/' !in name
    requires name == a + "_" + b + "_" + rest
    ensures var iso := FormatDate(DropLast(LastSegment(rest, '_'), 4));
      UniqueId(dirs + "/" + name) == if iso.Some? then Success(a + b + "_" + iso.value) else Failure(BadDate)
  {
    SplitLong(name, a, b, rest);
    var parts := [a, b] + Split(rest, '_');
    assert Last(parts) == Last(Split(rest, '_'));
    assert dirs + "/" + name == dirs + ['/'] + name;
    LastSegmentAfter(dirs, name, '/');
    UniqueIdOfParts(dirs + "/" + name, parts);
  }

  lemma SplitLong(name: string, a: string, b: string, rest: string)
    requires '_' !in a && '_' !in b
    requires name == a + "_" + b + "_" + rest
    ensures Split(name, '_') == [a, b] + Split(rest, '_')
  {
    var tail := b + ['_'] + rest;
    assert Split(tail, '_') == [b] + Split(rest, '_') by {
      SplitAfterPiece(b, rest, '_');
    }
    UnderscoreLayout(a, b, rest);
    SplitAfterPiece(a, tail, '_');
    assert [a] + ([b] + Split(rest, '_')) == [a, b] + Split(rest, '_');
  }

  lemma UnderscoreLayout(a: string, b: string, rest: string)
    ensures a + "_" + b + "_" + rest == a + ['_'] + (b + ['_'] + rest)
  {
  }

  /**
   * A name `<a>_<b>` with just two parts: the second is both half of the
   * diary number and the date.
   */
  lemma UniqueIdOfTwoParts(dirs: string, name: string, a: string, b: string)
    requires '_' !in a && '_' !in b && '/' !in name
    requires name == a + "_" + b
    ensures var iso := FormatDate(DropLast(b, 4));
      UniqueId(dirs + "/" + name) == if iso.Some? then Success(a + b + "_" + iso.value) else Failure(BadDate)
  {
    assert name == a + ['_'] + b;
    SplitAfterPiece(a, b, '_');
    assert Split(name, '_') == [a, b];
    assert dirs + "/" + name == dirs + ['/'] + name;
    LastSegmentAfter(dirs, name, '/');
    UniqueIdOfParts(dirs + "/" + name, [a, b]);
  }

  /** With two parts and a valid date behind the first `_`, that whole part enters the diary number. */
  lemma UniqueIdOfTwoDatedParts(dirs: string, name: string, a: string, d: Date, ext: string)
    requires '_' !in a && '/' !in a
    requires |ext| == 4 && '_' !in ext && '/' !in ext
    requires IsValid(d)
    requires name == a + "_" + (Canonical(d) + ext)
    ensures UniqueId(dirs + "/" + name) == Success(a + (Canonical(d) + ext) + "_" + IsoFormat(d))
  {
    CanonicalHasNoSeparators(d);
    FormatDateAcceptsValid(d);
    assert DropLast(Canonical(d) + ext, 4) == Canonical(d);
    UniqueIdOfTwoParts(dirs, name, a, Canonical(d) + ext);
  }

  /** `.../CR_07-Jan-2023.pdf` gets the id `CR07-Jan-2023.pdf_2023-01-07`. */
  lemma ExampleTwoParts(dirs: string)
    ensures UniqueId(dirs + "/" + "CR_07-Jan-2023.pdf") == Success("CR07-Jan-2023.pdf_2023-01-07")
  {
    Spelling20230107();
    SpellingCR2();
    UniqueIdOfTwoDatedParts(dirs, "CR_07-Jan-2023.pdf", "CR", Date(2023, 1, 7), ".pdf");
  }

  lemma SpellingCR2()
    ensures "CR_07-Jan-2023.pdf" == "CR" + "_" + ("07-Jan-2023" + ".pdf")
    ensures "CR07-Jan-2023.pdf_2023-01-07" == "CR" + ("07-Jan-2023" + ".pdf") + "_" + "2023-01-07"
  {
  }

  /** An example: `.../CRLA1_2345_07-Jan-2023.pdf` has the id `CRLA12345_2023-01-07`. */
  lemma ExampleUniqueId(dirs: string)
    ensures UniqueId(dirs + "/" + "CRLA1_2345_07-Jan-2023.pdf") == Success("CRLA12345_2023-01-07")
  {
    Spelling20230107();
    SpellingCRLA1();
    UniqueIdOfDatedName(dirs, "CRLA1_2345_07-Jan-2023.pdf", "CRLA1", "2345", Date(2023, 1, 7), ".pdf");
  }

  // The file names and ids of the examples, spelled out one lemma each.

  lemma SpellingCRLA1()
    ensures "CRLA1_2345_07-Jan-2023.pdf" == "CRLA1" + "_" + "2345" + "_" + ("07-Jan-2023" + ".pdf")
    ensures "CRLA12345_2023-01-07" == "CRLA1" + "2345" + "_" + "2023-01-07"
  {
  }

  lemma SpellingCR100()
    ensures "CR_100_07-Jan-2023.pdf" == "CR" + "_" + "100" + "_" + ("07-Jan-2023" + ".pdf")
    ensures "CR100_2023-01-07" == "CR" + "100" + "_" + "2023-01-07"
  {
  }

  lemma SpellingCR1()
    ensures "CR1_00_07-Jan-2023.pdf" == "CR1" + "_" + "00" + "_" + ("07-Jan-2023" + ".pdf")
    ensures "CR100_2023-01-07" == "CR1" + "00" + "_" + "2023-01-07"
  {
  }

  /**
   * Only the concatenation of the first two parts enters the id: two
   * different documents whose parts run together the same way share a key.
   */
  lemma ExampleIdsCollide(dirs: string)
    ensures UniqueId(dirs + "/" + "CR_100_07-Jan-2023.pdf") == Success("CR100_2023-01-07")
    ensures UniqueId(dirs + "/" + "CR1_00_07-Jan-2023.pdf") == Success("CR100_2023-01-07")
  {
    Spelling20230107();
    SpellingCR100();
    SpellingCR1();
    UniqueIdOfDatedName(dirs, "CR_100_07-Jan-2023.pdf", "CR", "100", Date(2023, 1, 7), ".pdf");
    UniqueIdOfDatedName(dirs, "CR1_00_07-Jan-2023.pdf", "CR1", "00", Date(2023, 1, 7), ".pdf");
  }

  /** A file name without `_` has no second part. */
  lemma ExampleMissingPart(dirs: string)
    ensures UniqueId(dirs + "/" + "onlyonepart.pdf") == Failure(MissingPart)
  {
    var name := "onlyonepart.pdf";
    assert dirs + "/" + name == dirs + ['/'] + name;
    LastSegmentAfter(dirs, name, '/');
    assert '_' !in name;
  }
}
