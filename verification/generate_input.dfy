/** The URL list generator: the `is_valid_url` test and the
    `filter(is_valid_url)` then `take(n)` pipeline over streamed records. */
module GenerateInput {
  import opened Wrappers
  import opened Text
  import Seqs
  import Downloader

  /** `VALID_EXTENSIONS` */
  const ValidExtensions: seq<string> := [".jpg", ".jpeg", ".png"]

  /** One streamed record after `select_columns` and `rename_column`: column
      name to value, `None` for a null. */
  type Record = map<string, Option<string>>

  /** `x.get("img_url")`: `None` when the column is missing or null. */
  function ImgUrl(x: Record): (r: Option<string>)
    ensures r.Some? <==> "img_url" in x && x["img_url"].Some?
    ensures r.Some? ==> x["img_url"] == Some(r.value)
  {
    if "img_url" in x then x["img_url"] else None
  }

  /** `is_valid_url`: a non-empty URL whose lower-cased text ends with one of
      `VALID_EXTENSIONS`. Only the literal end of the string is looked at,
      so a query string or fragment after the extension makes it invalid. */
  function IsValidUrl(x: Record): (ok: bool)
    ensures ok <==>
      && ImgUrl(x).Some?
      && (|| EndsWith(Lower(ImgUrl(x).value), ".jpg")
          || EndsWith(Lower(ImgUrl(x).value), ".jpeg")
          || EndsWith(Lower(ImgUrl(x).value), ".png"))
    ensures ImgUrl(x) == None || ImgUrl(x) == Some("") ==> !ok
  {
    var u := ImgUrl(x);
    assert ValidExtensions[0] == ".jpg" && ValidExtensions[1] == ".jpeg" && ValidExtensions[2] == ".png";
    u.Some? && u.value != [] && EndsWithAny(Lower(u.value), ValidExtensions)
  }

  /** A record holding just the URL column. */
  function UrlRecord(url: string): Record {
    map["img_url" := Some(url)]
  }

  /** Upper and lower case are not told apart. */
  lemma CaseInsensitive(u1: string, u2: string)
    requires Lower(u1) == Lower(u2)
    ensures IsValidUrl(UrlRecord(u1)) == IsValidUrl(UrlRecord(u2))
  {
  }

  /** Upper- and mixed-case extensions pass. */
  lemma UpperCaseAccepted()
    ensures IsValidUrl(UrlRecord("X.JPG"))
    ensures IsValidUrl(UrlRecord("x.Png"))
  {
    assert Lower("X.JPG") == "x.jpg";
    assert Lower("x.Png") == "x.png";
  }

  /** A URL whose last character is not the last character of any valid
      extension does not pass. */
  lemma WrongLastCharRejected(url: string)
    requires url == Lower(url) && |url| > 0 && url[|url| - 1] != 'g'
    ensures !IsValidUrl(UrlRecord(url))
  {
    assert forall p :: EndsWith(url, p) && |p| > 0 ==> url[|url| - 1] == p[|p| - 1];
    assert ".jpg"[3] == 'g' && ".jpeg"[4] == 'g' && ".png"[3] == 'g';
  }

  /** A query after the extension, or another extension, does not pass. */
  lemma QueryOrOtherExtensionRejected()
    ensures !IsValidUrl(UrlRecord("a.jpg?w=1"))
    ensures !IsValidUrl(UrlRecord("b.gif"))
  {
    assert Lower("a.jpg?w=1") == "a.jpg?w=1";
    WrongLastCharRejected("a.jpg?w=1");
    assert Lower("b.gif") == "b.gif";
    WrongLastCharRejected("b.gif");
  }

  /** Lines 28-29 of `main`: `dataset.filter(is_valid_url).take(n)`. */
  function Select(records: seq<Record>, n: nat): (r: seq<Record>)
    ensures forall i :: 0 <= i < |r| ==> IsValidUrl(r[i])
    ensures Seqs.IsSubseq(r, records)
    ensures var valid := Seqs.Count(records, IsValidUrl);
      |r| == if n <= valid then n else valid
    ensures r <= Seqs.Filter(IsValidUrl, records)
  {
    var kept := Seqs.Filter(IsValidUrl, records);
    var r := Seqs.Take(kept, n);
    TakeOfSubseq(kept, records, n);
    r
  }

  /** A prefix of a subsequence is a subsequence. */
  lemma {:induction false} PrefixOfSubseq(a: seq<Record>, b: seq<Record>, k: nat)
    requires Seqs.IsSubseq(a, b) && k <= |a|
    ensures Seqs.IsSubseq(a[..k], b)
    decreases |b|
  {
    if k > 0 {
      if a[0] == b[0] {
        PrefixOfSubseq(a[1..], b[1..], k - 1);
        assert a[..k][1..] == a[1..][..k - 1];
      } else {
        PrefixOfSubseq(a, b[1..], k);
      }
    }
  }

  lemma TakeOfSubseq(a: seq<Record>, b: seq<Record>, n: nat)
    requires Seqs.IsSubseq(a, b)
    ensures Seqs.IsSubseq(Seqs.Take(a, n), b)
  {
    if n <= |a| {
      PrefixOfSubseq(a, b, n);
    }
  }

  /** The pipeline as the stream runs it: walk the records in order, keep a
      valid one while fewer than `n` have been kept, stop at `n`. */
  function FirstValid(records: seq<Record>, n: nat): seq<Record>
    decreases |records|
  {
    if n == 0 || |records| == 0 then []
    else if IsValidUrl(records[0]) then [records[0]] + FirstValid(records[1..], n - 1)
    else FirstValid(records[1..], n)
  }

  /** Filtering then truncating keeps exactly the first `n` valid records. */
  lemma {:induction false} SelectIsFirstValid(records: seq<Record>, n: nat)
    ensures Select(records, n) == FirstValid(records, n)
    decreases |records|
  {
    var kept := Seqs.Filter(IsValidUrl, records);
    if n == 0 {
      assert Select(records, n) == kept[..0];
    } else if |records| > 0 {
      var tail := records[1..];
      SelectIsFirstValid(tail, if IsValidUrl(records[0]) then n - 1 else n);
      if IsValidUrl(records[0]) {
        var rest := Seqs.Filter(IsValidUrl, tail);
        assert kept == [records[0]] + rest;
        assert Seqs.Take(kept, n) == [records[0]] + Seqs.Take(rest, n - 1);
      } else {
        assert kept == Seqs.Filter(IsValidUrl, tail);
      }
    }
  }

  /** A string with a '.' at `|u| - k - 1` and none after it has the last `k`
      characters as its downloader extension. */
  lemma LastDotSuffixAt(u: string, k: nat)
    requires k < |u| && u[|u| - k - 1] == '.' && '.' !in u[|u| - k..]
    ensures Downloader.LastDotSuffix(u) == u[|u| - k..]
  {
    var e := Downloader.LastDotSuffix(u);
    assert '.' in u by { assert u[|u| - k - 1] == '.'; }
  }

  /** When the lower-cased URL ends with a '.' followed by dot-free text, and
      there is no '?', the downloader's extension is that text up to case. */
  lemma ExtensionOfDotSuffix(url: string, suffix: string)
    requires '?' !in url && EndsWith(Lower(url), suffix)
    requires |suffix| >= 1 && suffix[0] == '.' && '.' !in suffix[1..]
    ensures Lower(Downloader.Extension(url)) == suffix[1..]
  {
    var k := |suffix| - 1;
    var low := Lower(url);
    assert Downloader.BeforeQuery(url) == url;
    assert low[|url| - k - 1] == suffix[0] == '.';
    assert url[|url| - k - 1] == '.';
    assert '.' !in url[|url| - k..] by {
      forall j | |url| - k <= j < |url| ensures url[j] != '.' {
        assert low[j] == suffix[1..][j - (|url| - k)];
      }
    }
    LastDotSuffixAt(url, k);
    LowerSuffix(url, |url| - k);
    assert low[|url| - k..] == suffix[1..];
  }

  /** Each of `VALID_EXTENSIONS` is a '.' followed by a dot-free image word. */
  lemma ValidExtensionShape(i: nat)
    requires i < |ValidExtensions|
    ensures var s := ValidExtensions[i];
      && |s| >= 1 && s[0] == '.' && '.' !in s[1..]
      && s[1..] in ["jpg", "jpeg", "png"]
  {
    assert ".jpg"[1..] == "jpg";
    assert ".jpeg"[1..] == "jpeg";
    assert ".png"[1..] == "png";
  }

  /** A kept URL with no '?' is stored by the downloader under its own image
      extension: the text after its last '.', `jpg`, `jpeg` or `png` once
      lower-cased. */
  lemma KeptUrlKeepsExtension(url: string)
    requires IsValidUrl(UrlRecord(url)) && '?' !in url
    ensures Lower(Downloader.Extension(url)) in ["jpg", "jpeg", "png"]
  {
    assert ImgUrl(UrlRecord(url)) == Some(url);
    var i :| 0 <= i < |ValidExtensions| && EndsWith(Lower(url), ValidExtensions[i]);
    ValidExtensionShape(i);
    ExtensionOfDotSuffix(url, ValidExtensions[i]);
  }
}
