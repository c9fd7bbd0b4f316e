/** The search box: a Riot ID ("name#tag") typed by the user is trimmed,
    checked, and, when accepted, recorded among the recent searches before
    the page navigates to that player's profile. */
module Search {
  import opened Text
  import opened Recent

  /** Why an input was refused; each reason shows its own notification. */
  datatype SearchError =
    | EmptyInput   // nothing but whitespace was typed
    | MissingHash  // no '#' between name and tag

  /** The outcome of the input checks: the trimmed ID to search for, or the
      reason it was refused. */
  datatype Checked = Accepted(id: string) | Rejected(error: SearchError)

  /** The guards of the search: trim, refuse an empty result, refuse one
      without '#'. Seen from the raw input, an ID is accepted exactly when
      the input holds a '#', refused as empty exactly when it is all
      whitespace, and an accepted ID carries no surrounding whitespace. */
  function CheckRiotId(raw: string): (r: Checked)
    ensures r.Accepted? <==> '#' in raw
    ensures r == Rejected(EmptyInput) <==> forall k :: 0 <= k < |raw| ==> IsWhitespace(raw[k])
    ensures r == Rejected(MissingHash) <==>
              '#' !in raw && exists k :: 0 <= k < |raw| && !IsWhitespace(raw[k])
    ensures r.Accepted? ==>
              r.id == Trim(raw) && '#' in r.id &&
              !IsWhitespace(r.id[0]) && !IsWhitespace(r.id[|r.id| - 1])
  {
    var riotId := Trim(raw);
    HashSurvivesTrim(raw);
    if riotId == [] then Rejected(EmptyInput)
    else if '#' !in riotId then Rejected(MissingHash)
    else Accepted(riotId)
  }

  /** '#' is not whitespace, so trimming neither removes nor creates one. */
  lemma HashSurvivesTrim(raw: string)
    ensures '#' in Trim(raw) <==> '#' in raw
  {
    assert !IsWhitespace('#');
    TrimKeepsCharacters(raw);
  }

  /** A search from the input box. An accepted ID is added to the recent
      list and returned as the profile to open; a refused input leaves the
      list as it was. */
  method SearchSummoner(recent: RecentSearches, raw: string) returns (r: Checked)
    modifies recent
    ensures r == CheckRiotId(raw)
    ensures r.Accepted? ==> recent.items == Added(old(recent.items), r.id)
    ensures r.Rejected? ==> recent.items == old(recent.items)
    ensures r.Accepted? ==> recent.items[0] == Trim(raw)
  {
    r := CheckRiotId(raw);
    if r.Accepted? {
      recent.Add(r.id);
    }
  }

  /** Clicking a suggested ID: the ID is put into the input box and searched
      exactly as if it had been typed. */
  method SearchSpecific(recent: RecentSearches, riotId: string) returns (r: Checked)
    modifies recent
    ensures r == CheckRiotId(riotId)
    ensures r.Accepted? ==> recent.items == Added(old(recent.items), r.id)
    ensures r.Rejected? ==> recent.items == old(recent.items)
  {
    r := SearchSummoner(recent, riotId);
  }
}
