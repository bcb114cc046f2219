/**
 * `parse_sitemaps`: folds the `<loc>` texts of the sitemap documents
 * (sitemaps.org schema 0.9) into one collection of URLs without duplicates.
 * The XML parser is not modelled: each file is given as the outcome of
 * reading and parsing it.
 */
module Sitemaps {
  import opened Wrappers
  import opened Text

  /**
   * What reading one sitemap file yields. For a well-formed document, one
   * entry per `url` child of the root, holding the text of its first `loc`
   * child, or `None` when that child is missing or has no text.
   */
  datatype SitemapFile =
    | Document(locs: seq<Option<string>>)
    | Malformed   // the XML parser raised ParseError
    | Missing     // opening the file raised FileNotFoundError
    | Unreadable  // any other error while reading; parse_sitemaps does not catch it

  /** The URL one `loc` entry adds: a missing or empty text adds nothing, any other text is added stripped. */
  function LocUrl(loc: Option<string>): Option<string> {
    if loc.Some? && loc.value != "" then Some(Strip(loc.value)) else None
  }

  /** The URLs one document's entries add. */
  function LocUrls(locs: seq<Option<string>>): set<string> {
    if locs == [] then {}
    else
      var last := LocUrl(locs[|locs| - 1]);
      LocUrls(locs[..|locs| - 1]) + (if last.Some? then {last.value} else {})
  }

  /** The URLs one file adds; a file that could not be parsed or found adds none. */
  function FileUrls(f: SitemapFile): set<string> {
    if f.Document? then LocUrls(f.locs) else {}
  }

  /** The set of URLs that `parse_sitemaps` collects from `files`. */
  function SitemapUrls(files: seq<SitemapFile>): set<string> {
    if files == [] then {}
    else SitemapUrls(files[..|files| - 1]) + FileUrls(files[|files| - 1])
  }

  /** Some file raises an error that `parse_sitemaps` does not catch. */
  predicate Aborts(files: seq<SitemapFile>) {
    exists i :: 0 <= i < |files| && files[i].Unreadable?
  }

  predicate NoDuplicates(s: seq<string>) {
    forall i, j :: 0 <= i < j < |s| ==> s[i] != s[j]
  }

  lemma {:induction false} NoDuplicatesCard(s: seq<string>)
    requires NoDuplicates(s)
    ensures |set x | x in s| == |s|
  {
    if s != [] {
      var init := s[..|s| - 1];
      NoDuplicatesCard(init);
      assert (set x | x in s) == (set x | x in init) + {s[|s| - 1]};
      assert s[|s| - 1] !in init;
    }
  }

  /**
   * Models `parse_sitemaps(file_paths)`. `None` stands for the error that
   * escapes from an unreadable file; otherwise the result lists every
   * collected URL exactly once (in no promised order).
   */
  method ParseSitemaps(files: seq<SitemapFile>) returns (r: Option<seq<string>>)
    ensures r.None? <==> Aborts(files)
    ensures r.Some? ==> NoDuplicates(r.value)
    ensures r.Some? ==> forall u :: u in r.value <==> u in SitemapUrls(files)
    ensures r.Some? ==> |r.value| == |SitemapUrls(files)|
  {
    var urls: seq<string> := [];
    for i := 0 to |files|
      invariant NoDuplicates(urls)
      invariant forall u :: u in urls <==> u in SitemapUrls(files[..i])
      invariant forall k :: 0 <= k < i ==> !files[k].Unreadable?
    {
      assert files[..i + 1][..i] == files[..i];
      match files[i]
      case Unreadable =>
        return None;
      case Malformed =>
      case Missing =>
      case Document(locs) =>
        for j := 0 to |locs|
          invariant NoDuplicates(urls)
          invariant forall u :: u in urls <==> u in SitemapUrls(files[..i]) + LocUrls(locs[..j])
        {
          assert locs[..j + 1][..j] == locs[..j];
          var loc := locs[j];
          if loc.Some? && loc.value != "" {
            var u := Strip(loc.value);
            if u !in urls {
              urls := urls + [u];
            }
          }
        }
        assert locs[..|locs|] == locs;
    }
    assert files[..|files|] == files;
    NoDuplicatesCard(urls);
    assert (set x | x in urls) == SitemapUrls(files);
    r := Some(urls);
  }

  /** A URL is collected exactly when some entry of some parsed document yields it. */
  lemma {:induction false} LocUrlsMembership(locs: seq<Option<string>>, u: string)
    ensures u in LocUrls(locs) <==> exists j :: 0 <= j < |locs| && LocUrl(locs[j]) == Some(u)
  {
    if locs != [] {
      var init := locs[..|locs| - 1];
      LocUrlsMembership(init, u);
      if j :| 0 <= j < |init| && LocUrl(init[j]) == Some(u) {
        assert locs[j] == init[j];
      }
      if j :| 0 <= j < |locs| - 1 && LocUrl(locs[j]) == Some(u) {
        assert init[j] == locs[j];
      }
    }
  }

  /** Entry `j` of file `i` is a parsed `loc` that yields `u`. */
  predicate YieldsAt(files: seq<SitemapFile>, u: string, i: int, j: int) {
    0 <= i < |files| && files[i].Document? && 0 <= j < |files[i].locs| && LocUrl(files[i].locs[j]) == Some(u)
  }

  /** The URLs of all files are those of the files before the last and those of the last. */
  lemma SitemapUrlsLast(files: seq<SitemapFile>)
    requires files != []
    ensures SitemapUrls(files) == SitemapUrls(files[..|files| - 1]) + FileUrls(files[|files| - 1])
  {
  }

  lemma {:induction false} SitemapUrlsMembership(files: seq<SitemapFile>, u: string)
    ensures u in SitemapUrls(files) <==> exists i, j :: YieldsAt(files, u, i, j)
  {
    if files != [] {
      var n := |files| - 1;
      var init := files[..n];
      SitemapUrlsMembership(init, u);
      SitemapUrlsLast(files);
      assert forall i, j :: 0 <= i < n ==> (YieldsAt(init, u, i, j) <==> YieldsAt(files, u, i, j));
      if files[n].Document? {
        LocUrlsMembership(files[n].locs, u);
        assert forall j :: YieldsAt(files, u, n, j) <==> 0 <= j < |files[n].locs| && LocUrl(files[n].locs[j]) == Some(u);
      }
    }
  }

  /** A missing `loc` or an empty text adds nothing; whitespace-only text adds the empty string. */
  lemma LocUrlCases(loc: Option<string>)
    ensures loc.None? ==> LocUrl(loc).None?
    ensures loc == Some("") ==> LocUrl(loc).None?
    ensures LocUrl(loc) == Some("") <==> loc.Some? && loc.value != "" && AllSpace(loc.value)
  {
    if loc.Some? {
      StripEmpty(loc.value);
    }
  }

  /** The empty string is collected exactly when some parsed entry's non-empty text is all whitespace. */
  lemma LocUrlsEmptyString(locs: seq<Option<string>>)
    ensures "" in LocUrls(locs) <==>
      exists j :: 0 <= j < |locs| && locs[j].Some? && locs[j].value != "" && AllSpace(locs[j].value)
  {
    LocUrlsMembership(locs, "");
    forall j | 0 <= j < |locs| ensures LocUrl(locs[j]) == Some("") <==> locs[j].Some? && locs[j].value != "" && AllSpace(locs[j].value) {
      LocUrlCases(locs[j]);
    }
  }

  lemma TwoLocs(x: string, y: string)
    requires x != "" && y != "" && Strip(x) == x && Strip(y) == y
    ensures LocUrls([Some(x), Some(y)]) == {x, y}
  {
    var locs := [Some(x), Some(y)];
    assert locs[..1] == [Some(x)];
    assert LocUrl(Some(x)) == Some(x) && LocUrl(Some(y)) == Some(y);
    assert LocUrls([Some(x)]) == {x} by {
      assert [Some(x)][..0] == [];
    }
    assert LocUrls(locs) == LocUrls(locs[..1]) + {y};
  }

  /**
   * Two sitemaps listing three distinct URLs, one of them in both, yield
   * three URLs.
   */
  lemma TwoSitemapsExample(a: string, b: string, c: string)
    requires a != "" && b != "" && c != ""
    requires Strip(a) == a && Strip(b) == b && Strip(c) == c
    requires a != b && b != c && a != c
    ensures SitemapUrls([Document([Some(a), Some(b)]), Document([Some(b), Some(c)])]) == {a, b, c}
    ensures |SitemapUrls([Document([Some(a), Some(b)]), Document([Some(b), Some(c)])])| == 3
  {
    var files := [Document([Some(a), Some(b)]), Document([Some(b), Some(c)])];
    TwoLocs(a, b);
    TwoLocs(b, c);
    SitemapUrlsAppend([files[0]], [files[1]]);
    assert files == [files[0]] + [files[1]];
    assert SitemapUrls([files[0]]) == {a, b} by {
      assert [files[0]][..0] == [];
    }
    assert SitemapUrls([files[1]]) == {b, c} by {
      assert [files[1]][..0] == [];
    }
  }

  /** Collecting from two runs of files is collecting from each and joining. */
  lemma {:induction false} SitemapUrlsAppend(a: seq<SitemapFile>, b: seq<SitemapFile>)
    ensures SitemapUrls(a + b) == SitemapUrls(a) + SitemapUrls(b)
    decreases |b|
  {
    if b == [] {
      assert a + b == a;
    } else {
      var init := b[..|b| - 1];
      assert (a + b)[..|a + b| - 1] == a + init;
      SitemapUrlsAppend(a, init);
    }
  }

  /** A file that fails to parse or is missing contributes nothing and does not stop the others. */
  lemma SkippedFileAddsNothing(before: seq<SitemapFile>, f: SitemapFile, after: seq<SitemapFile>)
    requires f.Malformed? || f.Missing?
    ensures SitemapUrls(before + [f] + after) == SitemapUrls(before + after)
  {
    SitemapUrlsAppend(before + [f], after);
    SitemapUrlsAppend(before, [f]);
    SitemapUrlsAppend(before, after);
    assert [f][..0] == [];
  }

  /** The collected set does not depend on the order of the files, nor on a file being read twice. */
  lemma SitemapUrlsOrderFree(a: seq<SitemapFile>, b: seq<SitemapFile>)
    ensures SitemapUrls(a + b) == SitemapUrls(b + a)
    ensures SitemapUrls(a + a) == SitemapUrls(a)
  {
    SitemapUrlsAppend(a, b);
    SitemapUrlsAppend(b, a);
    SitemapUrlsAppend(a, a);
  }
}
