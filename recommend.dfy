/**
 * The travel assistant's recommendation page (recommendapp.py): which row
 * of the recommendation table is shown for a state, how a row's app names
 * and app links are paired into a numbered list, and how a reverse-geocoded
 * position becomes a state name.
 *
 * A cell of the table is `None` when pandas reads it as missing.
 */
module Recommend {
  import opened Wrappers
  import opened Text

  // ---- App lists ----

  /** One line of an app card: `{number}. 👉 [{app}]({link})`. */
  datatype AppEntry = AppEntry(number: nat, app: string, link: string)

  /** What an app card shows: numbered entries, or "No apps available". */
  datatype AppList = Listed(entries: seq<AppEntry>) | NoAppsAvailable

  /** `[p.strip() for p in pieces]`. */
  function StripAll(pieces: seq<string>): (r: seq<string>)
    ensures |r| == |pieces|
    ensures forall i :: 0 <= i < |r| ==> r[i] == Strip(pieces[i])
  {
    seq(|pieces|, i requires 0 <= i < |pieces| => Strip(pieces[i]))
  }

  /** `min(a, b)`. */
  function Min(a: nat, b: nat): nat {
    if a < b then a else b
  }

  /**
   * The pairing of `render_app_list`: when both cells are present, the
   * comma-separated names and the `|`-separated links are stripped, zipped
   * up to the shorter list and numbered from 1.
   */
  function RenderAppList(apps: Option<string>, links: Option<string>): (listing: AppList)
    ensures listing.NoAppsAvailable? <==> apps.None? || links.None?
    ensures listing.Listed? ==> forall k :: 0 <= k < |listing.entries| ==> listing.entries[k].number == k + 1
  {
    if apps.None? || links.None? then NoAppsAvailable
    else
      var names := StripAll(Split(apps.value, ','));
      var urls := StripAll(Split(links.value, '|'));
      var n := Min(|names|, |urls|);
      Listed(seq(n, k requires 0 <= k < n => AppEntry(k + 1, names[k], urls[k])))
  }

  /**
   * With both cells present, the card has one entry per position the two
   * split lists share, so at least one; entry `k` is numbered `k + 1` and
   * pairs the stripped `k`-th name with the stripped `k`-th link, neither
   * with surrounding whitespace.
   */
  lemma AppListPairs(apps: string, links: string)
    ensures var listing := RenderAppList(Some(apps), Some(links));
      && listing.Listed?
      && |listing.entries| == Min(Count(apps, ',') + 1, Count(links, '|') + 1)
      && |listing.entries| >= 1
      && forall k :: 0 <= k < |listing.entries| ==>
           && listing.entries[k].number == k + 1
           && listing.entries[k].app == Strip(Split(apps, ',')[k])
           && listing.entries[k].link == Strip(Split(links, '|')[k])
           && Trimmed(listing.entries[k].app) && Trimmed(listing.entries[k].link)
  {
    var names := StripAll(Split(apps, ','));
    var urls := StripAll(Split(links, '|'));
    assert |names| == Count(apps, ',') + 1 && |urls| == Count(links, '|') + 1;
    var listing := RenderAppList(Some(apps), Some(links));
    assert listing.entries == seq(Min(|names|, |urls|), k requires 0 <= k < Min(|names|, |urls|) => AppEntry(k + 1, names[k], urls[k]));
  }

  /** Stripping pieces that are already trimmed changes nothing. */
  lemma StripAllOfTrimmed(pieces: seq<string>)
    requires forall i :: 0 <= i < |pieces| ==> Trimmed(pieces[i])
    ensures StripAll(pieces) == pieces
  {
    forall i | 0 <= i < |pieces| ensures Strip(pieces[i]) == pieces[i] {
      StripOfTrimmed(pieces[i]);
    }
  }

  /**
   * Joining equally many trimmed, separator-free names and links with
   * their separators stores a list the card shows back entry for entry.
   */
  lemma AppListRoundTrip(names: seq<string>, urls: seq<string>)
    requires |names| == |urls| >= 1
    requires forall i :: 0 <= i < |names| ==> ',' !in names[i] && Trimmed(names[i])
    requires forall i :: 0 <= i < |urls| ==> '|' !in urls[i] && Trimmed(urls[i])
    ensures var listing := RenderAppList(Some(Join(names, ',')), Some(Join(urls, '|')));
      && listing.Listed? && |listing.entries| == |names|
      && forall k :: 0 <= k < |names| ==> listing.entries[k] == AppEntry(k + 1, names[k], urls[k])
  {
    SplitJoin(names, ',');
    SplitJoin(urls, '|');
    StripAllOfTrimmed(names);
    StripAllOfTrimmed(urls);
  }

  // ---- The recommendation row ----

  /** A row of the recommendation table: its "State/UT" cell and the rest of its cells by column. */
  datatype Row = Row(state: Option<string>, cells: map<string, Option<string>>)

  /** `df["State/UT"].str.lower() == state.lower()` for one row; a missing cell never matches. */
  predicate MatchesState(row: Row, state: string) {
    row.state.Some? && Lower(row.state.value) == Lower(state)
  }

  /** The position of the first row matching `state`, if any. */
  function FirstMatch(rows: seq<Row>, state: string): (found: Option<nat>)
    ensures found.Some? ==> found.value < |rows| && MatchesState(rows[found.value], state)
    ensures found.Some? ==> forall k :: 0 <= k < found.value ==> !MatchesState(rows[k], state)
    ensures found.None? ==> forall k :: 0 <= k < |rows| ==> !MatchesState(rows[k], state)
  {
    if rows == [] then None
    else if MatchesState(rows[0], state) then Some(0)
    else match FirstMatch(rows[1..], state)
      case None => None
      case Some(i) => Some(i + 1)
  }

  /**
   * Line 71: the first row whose state matches case-insensitively;
   * `.iloc[0]` of an empty selection raises `IndexError`.
   */
  function SelectRow(rows: seq<Row>, state: string): (row: Result<Row>)
    ensures row.Ok? <==> exists k :: 0 <= k < |rows| && MatchesState(rows[k], state)
    ensures row.Ok? ==> exists k :: && 0 <= k < |rows| && rows[k] == row.value
                                    && MatchesState(rows[k], state)
                                    && forall j :: 0 <= j < k ==> !MatchesState(rows[j], state)
  {
    match FirstMatch(rows, state)
    case None => Err("IndexError: single positional indexer is out-of-bounds")
    case Some(i) => Ok(rows[i])
  }

  /** What the page does for a chosen state. */
  datatype Page = NoRecommendations | Recommendations(row: Row) | Failed(error: string)

  /**
   * Lines 69-71: nothing is shown without a state (`None` or the empty
   * string); otherwise the selected row is shown, or the page fails.
   */
  function ShowRecommendations(rows: seq<Row>, state: Option<string>): (page: Page)
    ensures page.NoRecommendations? <==> state.None? || state.value == ""
    ensures page.Recommendations? ==> state.Some? && MatchesState(page.row, state.value) && page.row in rows
    ensures page.Recommendations? ==> SelectRow(rows, state.value) == Ok(page.row)
    ensures page.Failed? <==> state.Some? && state.value != "" && forall k :: 0 <= k < |rows| ==> !MatchesState(rows[k], state.value)
  {
    if state.None? || state.value == "" then NoRecommendations
    else match SelectRow(rows, state.value)
      case Ok(row) => Recommendations(row)
      case Err(e) => Failed(e)
  }

  /** Changing the letter case of the chosen state does not change the row shown. */
  lemma SelectRowIgnoresCase(rows: seq<Row>, state: string, other: string)
    requires Lower(state) == Lower(other)
    ensures SelectRow(rows, state) == SelectRow(rows, other)
  {
    assert forall r :: MatchesState(r, state) <==> MatchesState(r, other);
    FirstMatchSamePredicate(rows, state, other);
  }

  lemma {:induction false} FirstMatchSamePredicate(rows: seq<Row>, state: string, other: string)
    requires forall r :: MatchesState(r, state) <==> MatchesState(r, other)
    ensures FirstMatch(rows, state) == FirstMatch(rows, other)
  {
    if rows != [] {
      FirstMatchSamePredicate(rows[1..], state, other);
    }
  }

  // ---- Reverse geocoding ----

  /** The outcome of `geolocator.reverse(...)`: it raised, found nothing, or found a place. */
  datatype Geocoded = Raised | NoPlace | Place(address: Option<map<string, string>>)

  /** The lookup found a place whose address names a state. */
  predicate HasState(outcome: Geocoded) {
    outcome.Place? && outcome.address.Some? && "state" in outcome.address.value
  }

  /**
   * `get_state_from_coords`: the "state" of the found place's address;
   * the fallback when the lookup raised, found nothing, has no address or
   * has no state in it.
   */
  function StateFromCoords(outcome: Geocoded, fallback: Option<string>): (state: Option<string>)
    ensures HasState(outcome) ==> state == Some(outcome.address.value["state"])
    ensures !HasState(outcome) ==> state == fallback
  {
    match outcome
    case Raised => fallback
    case NoPlace => fallback
    case Place(address) =>
      if address.None? then fallback
      else if "state" in address.value then Some(address.value["state"])
      else fallback
  }
}
