/**
 * The search endpoint: building a query URL from a term and a page, reading
 * the term back out of a URL, and the "last searches" view derived from the
 * log of issued URLs. The term is inserted without any escaping.
 */
module Urls {
  import opened JsText
  import opened Seqs

  const ApiBase := "https://hn.algolia.com/api/v1"
  const ApiSearch := "/search"
  const ParamSearch := "query="
  const ParamPage := "page="

  /** `getUrl`: base, path, `?query=<term>&page=<page>`. */
  function GetUrl(searchTerm: string, page: int): string
  {
    ApiBase + ApiSearch + "?" + ParamSearch + searchTerm + "&" + ParamPage + IntToString(page)
  }

  /** `extractSearchTerm`: the text between the last `?` and the last `&`, minus the first `query=`. */
  function ExtractSearchTerm(url: string): (r: string)
    ensures |r| <= |url|
  {
    ReplaceFirst(Substring(url, LastIndexOf(url, '?') + 1, LastIndexOf(url, '&')), ParamSearch, "")
  }

  /** A rendered page number holds neither `?` nor `&`. */
  lemma PageTextHasNoSeparators(digits: string)
    requires forall k :: 0 <= k < |digits| ==> digits[k] == '-' || '0' <= digits[k] <= '9'
    ensures '?' !in ParamPage + digits && '&' !in ParamPage + digits
  {
    assert ParamPage == ['p', 'a', 'g', 'e', '='];
  }

  /**
   * Whatever precedes the `?`, the term comes back when it holds no `?` and
   * the page text holds no separator.
   */
  lemma ExtractBetween(head: string, searchTerm: string, digits: string)
    requires '?' !in searchTerm
    requires forall k :: 0 <= k < |digits| ==> digits[k] == '-' || '0' <= digits[k] <= '9'
    ensures ExtractSearchTerm(head + "?" + ParamSearch + searchTerm + "&" + ParamPage + digits) == searchTerm
  {
    var mid := ParamSearch + searchTerm;
    assert '?' !in ParamSearch;
    assert head + "?" + ParamSearch + searchTerm + "&" + ParamPage + digits == head + "?" + mid + "&" + ParamPage + digits;
    ExtractAfterLastQuestion(head, mid, digits);
    ReplaceFirstAtStart(ParamSearch, searchTerm, "");
  }

  /** A term without `?` survives the round trip through a URL, whatever the page. */
  lemma RoundTrip(searchTerm: string, page: int)
    requires '?' !in searchTerm
    ensures ExtractSearchTerm(GetUrl(searchTerm, page)) == searchTerm
  {
    ExtractBetween(ApiBase + ApiSearch, searchTerm, IntToString(page));
  }

  /** In particular the empty term comes back empty. */
  lemma EmptyTermRoundTrip(page: int)
    ensures ExtractSearchTerm(GetUrl([], page)) == []
  {
    RoundTrip([], page);
  }

  /**
   * What lies between the last `?` and the `&` before the page parameter is
   * read, minus its first `query=`.
   */
  lemma ExtractAfterLastQuestion(head: string, v: string, digits: string)
    requires '?' !in v
    requires forall k :: 0 <= k < |digits| ==> digits[k] == '-' || '0' <= digits[k] <= '9'
    ensures ExtractSearchTerm(head + "?" + v + "&" + ParamPage + digits) == ReplaceFirst(v, ParamSearch, "")
  {
    var tail := ParamPage + digits;
    var url := head + "?" + v + "&" + ParamPage + digits;
    PageTextHasNoSeparators(digits);
    assert url == head + ['?'] + (v + ['&'] + tail);
    LastIndexOfSeparator(head, '?', v + ['&'] + tail);
    assert url == (head + ['?'] + v) + ['&'] + tail;
    LastIndexOfSeparator(head + ['?'] + v, '&', tail);
    SubstringInRange(url, |head| + 1, |head| + 1 + |v|);
    assert url[|head| + 1..|head| + 1 + |v|] == v;
  }

  /**
   * A term holding a `?` never survives the round trip: the last `?` of the
   * URL is the term's own, so only the part after it is read, and that part
   * is shorter than the term.
   */
  lemma QuestionMarkBreaksRoundTrip(searchTerm: string, page: int)
    requires '?' in searchTerm
    ensures ExtractSearchTerm(GetUrl(searchTerm, page)) != searchTerm
  {
    var j := LastIndexOf(searchTerm, '?');
    LastIndexOfFindsLast(searchTerm, '?');
    var u, v := searchTerm[..j], searchTerm[j + 1..];
    assert searchTerm == u + "?" + v;
    assert '?' !in v by {
      forall k | 0 <= k < |v|
        ensures v[k] != '?'
      {
        assert v[k] == searchTerm[j + 1 + k];
      }
    }
    var digits := IntToString(page);
    var head := ApiBase + ApiSearch + "?" + ParamSearch + u;
    assert GetUrl(searchTerm, page) == head + "?" + v + "&" + ParamPage + digits;
    ExtractAfterLastQuestion(head, v, digits);
    ReplaceFirstShortens(v, ParamSearch);
  }

  /** The round trip holds exactly for the terms without `?`. */
  lemma RoundTripExactly(searchTerm: string, page: int)
    ensures ExtractSearchTerm(GetUrl(searchTerm, page)) == searchTerm <==> '?' !in searchTerm
  {
    if '?' in searchTerm {
      QuestionMarkBreaksRoundTrip(searchTerm, page);
    } else {
      RoundTrip(searchTerm, page);
    }
  }

  // ----- the "last searches" view -----

  /** The term of every URL of the log, in log order. */
  function Terms(urls: seq<string>): (r: seq<string>)
    ensures |r| == |urls|
  {
    if urls == [] then [] else Terms(urls[..|urls| - 1]) + [ExtractSearchTerm(urls[|urls| - 1])]
  }

  lemma {:induction false} TermsAt(urls: seq<string>, i: nat)
    requires i < |urls|
    ensures Terms(urls)[i] == ExtractSearchTerm(urls[i])
  {
    var n := |urls| - 1;
    if i < n {
      TermsAt(urls[..n], i);
    }
  }

  /**
   * One step of the `reduce`, once the URL's term has been read: the first URL
   * always adds its term, a later one only when its term differs from the
   * last kept term.
   */
  function KeepTerm(result: seq<string>, searchTerm: string, index: nat): (r: seq<string>)
    // nothing kept is dropped, at most the new term is added, and it is always the last one kept
    ensures r == result || r == result + [searchTerm]
    ensures |r| > 0 && r[|r| - 1] == searchTerm
    ensures index == 0 ==> r == result + [searchTerm]
    // a later term equal to the last kept one is skipped; a different one is added
    ensures index > 0 && |result| > 0 && searchTerm == result[|result| - 1] ==> r == result
    ensures index > 0 && (|result| == 0 || searchTerm != result[|result| - 1]) ==> r == result + [searchTerm]
  {
    if index == 0 then result + [searchTerm]
    else if |result| > 0 && searchTerm == result[|result| - 1] then result
    else result + [searchTerm]
  }

  /** The `reduce` over terms read from the log, in log order. */
  function Collapse(terms: seq<string>): (r: seq<string>)
    ensures terms == [] <==> r == []
    ensures |r| <= |terms|
  {
    if terms == [] then []
    else KeepTerm(Collapse(terms[..|terms| - 1]), terms[|terms| - 1], |terms| - 1)
  }

  /**
   * `getLastSearches`: the `reduce` over the log of URLs. Its callback first
   * reads the URL's term and then decides on the term alone, so the model reads
   * all terms first and then folds.
   */
  function GetLastSearches(urls: seq<string>): (r: seq<string>)
    ensures urls == [] <==> r == []
    ensures |r| <= |urls|
  {
    Collapse(Terms(urls))
  }

  predicate NoAdjacentDuplicates(s: seq<string>)
  {
    forall i :: 0 < i < |s| ==> s[i - 1] != s[i]
  }

  /**
   * The collapsed view starts with the first term and ends with the last,
   * never shows the same term twice in a row, and lists terms in their order.
   */
  lemma {:induction false} CollapseShape(terms: seq<string>)
    requires terms != []
    ensures Collapse(terms)[0] == terms[0]
    ensures Collapse(terms)[|Collapse(terms)| - 1] == terms[|terms| - 1]
    ensures NoAdjacentDuplicates(Collapse(terms))
    ensures IsSubsequence(Collapse(terms), terms)
  {
    var n := |terms| - 1;
    var t := terms[n];
    var r := Collapse(terms);
    assert terms == terms[..n] + [t];
    if n == 0 {
      assert r == [t];
      SubsequenceOfSelf([t]);
    } else {
      var prev := Collapse(terms[..n]);
      CollapseShape(terms[..n]);
      if t == prev[|prev| - 1] {
        assert r == prev;
        SubsequenceSnocRight(prev, terms[..n], t);
      } else {
        assert r == prev + [t];
        SubsequenceSnocBoth(prev, terms[..n], t);
      }
    }
  }

  /**
   * The last searches: empty exactly for an empty log, never longer than the
   * log, starting with the first URL's term and ending with the last URL's,
   * with no term twice in a row, and made of the log's terms in log order.
   */
  lemma LastSearchesShape(urls: seq<string>)
    ensures urls == [] <==> GetLastSearches(urls) == []
    ensures |GetLastSearches(urls)| <= |urls|
    ensures urls != [] ==> GetLastSearches(urls)[0] == ExtractSearchTerm(urls[0])
    ensures urls != [] ==>
      GetLastSearches(urls)[|GetLastSearches(urls)| - 1] == ExtractSearchTerm(urls[|urls| - 1])
    ensures NoAdjacentDuplicates(GetLastSearches(urls))
    ensures IsSubsequence(GetLastSearches(urls), Terms(urls))
  {
    if urls != [] {
      CollapseShape(Terms(urls));
      TermsAt(urls, 0);
      TermsAt(urls, |urls| - 1);
    }
  }

  /**
   * Reference view: a term is shown exactly when it is the first one or
   * differs from the term just before it in the log.
   */
  function DropRepeats(terms: seq<string>): seq<string>
  {
    if |terms| <= 1 then terms
    else
      var n := |terms| - 1;
      if terms[n] == terms[n - 1] then DropRepeats(terms[..n]) else DropRepeats(terms[..n]) + [terms[n]]
  }

  /** Comparing with the last kept term is the same as comparing with the previous URL's term. */
  lemma {:induction false} CollapseDropsRepeats(terms: seq<string>)
    ensures Collapse(terms) == DropRepeats(terms)
  {
    if |terms| > 1 {
      var n := |terms| - 1;
      CollapseDropsRepeats(terms[..n]);
      CollapseShape(terms[..n]);
    }
  }

  lemma CollapseExample(a: string, b: string)
    requires a != b
    ensures Collapse([a, a, b]) == [a, b]
  {
    assert [a][..0] == [];
    assert Collapse([a]) == [a];
    assert [a, a][..1] == [a];
    assert Collapse([a, a]) == [a];
    assert [a, a, b][..2] == [a, a];
  }

  /**
   * A search for `a`, a "more" on it, then a search for a different `b`:
   * the view shows `[a, b]`.
   */
  lemma LastSearchesExample(a: string, b: string)
    requires '?' !in a && '?' !in b && a != b
    ensures GetLastSearches([GetUrl(a, 0), GetUrl(a, 1), GetUrl(b, 0)]) == [a, b]
  {
    var urls := [GetUrl(a, 0), GetUrl(a, 1), GetUrl(b, 0)];
    var terms := Terms(urls);
    assert terms[0] == a by { TermsAt(urls, 0); RoundTrip(a, 0); }
    assert terms[1] == a by { TermsAt(urls, 1); RoundTrip(a, 1); }
    assert terms[2] == b by { TermsAt(urls, 2); RoundTrip(b, 0); }
    assert terms == [a, a, b];
    CollapseExample(a, b);
  }
}
