/**
 * The image-search address built from a search term: spaces become '+',
 * every other character is kept as it is (no further escaping is done),
 * and the result is wrapped in a fixed prefix and suffix.
 */
module SearchUrls {
  import opened Strings

  const Prefix := "https://www.google.com/search?q="
  const Suffix := "&tbm=isch"

  /** `s.replace(from, to)` for single characters: every `from` becomes `to`, nothing else changes. */
  function ReplaceChar(s: string, from: char, to: char): (r: string)
    ensures |r| == |s|
    ensures forall i :: 0 <= i < |r| ==> r[i] == (if s[i] == from then to else s[i])
  {
    if s == [] then [] else [if s[0] == from then to else s[0]] + ReplaceChar(s[1..], from, to)
  }

  /** `term.replace(' ', '+')` */
  function ReplaceSpaces(term: string): string
  {
    ReplaceChar(term, ' ', '+')
  }

  /** The query part of an address: what lies between the fixed prefix and suffix. */
  function QueryOf(url: string): string
    requires |url| >= |Prefix| + |Suffix|
  {
    url[|Prefix|..|url| - |Suffix|]
  }

  /** `f"https://www.google.com/search?q={search_term.replace(' ', '+')}&tbm=isch"` */
  function SearchUrl(term: string): (url: string)
    ensures |url| == |Prefix| + |term| + |Suffix|
    ensures StartsWith(url, Prefix) && EndsWith(url, Suffix)
    ensures QueryOf(url) == ReplaceSpaces(term)
  {
    var url := Prefix + ReplaceSpaces(term) + Suffix;
    assert url[..|Prefix|] == Prefix;
    assert url[|url| - |Suffix|..] == Suffix;
    assert url[|Prefix|..|url| - |Suffix|] == ReplaceSpaces(term);
    url
  }

  /** Reading '+' as a space, as the form encoding of a query does. */
  function RestoreSpaces(q: string): string
  {
    ReplaceChar(q, '+', ' ')
  }

  /** The query carries no space, and a term without '+' is recovered from its address. */
  lemma SearchTermRecovered(term: string)
    ensures ' ' !in QueryOf(SearchUrl(term))
    ensures '+' !in term ==> RestoreSpaces(QueryOf(SearchUrl(term))) == term
  {
    var q := QueryOf(SearchUrl(term));
    if '+' !in term {
      assert forall i :: 0 <= i < |term| ==> RestoreSpaces(q)[i] == term[i];
    }
  }

  /** Two terms that differ only in ' ' against '+' share one address. */
  lemma SpaceAndPlusCollide()
    ensures SearchUrl("sate ayam") == SearchUrl("sate+ayam")
  {
    assert ReplaceSpaces("sate ayam") == ReplaceSpaces("sate+ayam");
  }
}
