/** The ordered site list `websites` and the guard of `add_website`. */
module Registry {

  /** The list after `add_website(url)`: `url` is appended only when it is
      non-empty and not already listed. */
  function Register(ws: seq<string>, url: string): (r: seq<string>)
    ensures ws <= r
    ensures |r| <= |ws| + 1
    ensures |r| == |ws| + 1 <==> url != "" && url !in ws
    ensures url != "" ==> url in r
    ensures forall x :: x in r ==> x in ws || x == url
  {
    if url != "" && url !in ws then ws + [url] else ws
  }

  predicate Distinct(ws: seq<string>) {
    forall i, j :: 0 <= i < j < |ws| ==> ws[i] != ws[j]
  }

  /** Adding the same URL a second time changes nothing. */
  lemma RegisterIdempotent(ws: seq<string>, url: string)
    ensures Register(Register(ws, url), url) == Register(ws, url)
  {
  }

  /** A list without duplicates stays without duplicates. */
  lemma RegisterKeepsDistinct(ws: seq<string>, url: string)
    requires Distinct(ws)
    ensures Distinct(Register(ws, url))
  {
  }

  /** Adding never creates a second copy: a new non-empty URL occurs once,
      and the count of a URL already listed is unchanged. */
  lemma RegisterOccurrences(ws: seq<string>, url: string)
    ensures multiset(Register(ws, url))[url] ==
              if url == "" || url in ws then multiset(ws)[url] else 1
  {
  }
}
