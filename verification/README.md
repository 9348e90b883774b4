# project5-map: the search and marker logic of the map widget, in Dafny

The widget shows a catalog of points of interest on a map. Each catalog
entry is `[name, lat, lng]`, and its checkbox value, the *identifier*, is the
entry joined with `,`. Knockout holds three pieces of state:

- `names`, the working catalog;
- `filter`, the checked identifiers;
- `itemToSearch`, the search box.

A computed (`self.markers`) redraws the markers whenever `filter` changes. It
closes the single info window and takes every marker ever created off the
map; the global list `marks` is never emptied. It then creates one marker per
identifier in `filter`.

Each new marker asks Wikipedia for a summary. When an answer arrives, the
marker gets a click listener. A click resets the icon and animation of every
marker, toggles the clicked marker to the yellow pushpin and the bounce, and
opens the info window on it. The window's content is built from the answer.

The search (`searchPOI`) runs in three steps:

1. It tests each entry's lower-cased identifier for the lower-cased term. For
   each miss, it removes the identifier from `filter` and records the
   entry's position.
2. It reverses the recorded positions and splices them out of `names`.
3. It clears the search box.

The model has five modules:

- `Text`:
  - ASCII `toLowerCase`;
  - `indexOf`, with its first-occurrence contract;
  - `join()` with `,` and `split(',')`, with both round trips.
- `Catalog`: entries and identifiers, plus a pure specification of the
  search:
  - which entries match;
  - which positions the scan records;
  - what splicing them leaves (`Without`);
  - which identifiers leave the filter list (`KeepIds`, `Remove`, `PrunedIds`).
- `Popup`: the info-window HTML, built from an opensearch answer.
- `Markers`: the page-wide state as a class `MapState`. It holds `marks`, a
  sequence of marker states, and the info window. Its methods are:
  - `AddMarker` for `MapMarker` and `marks.push`;
  - `LookupDone` for the lookup's completion;
  - `DetachAll`, `ResetAll`, `Click` and `ClickListener`.

  `marks` only ever grows, so a marker is identified by its position in it.
- `App`: the view-model as a class `ViewModel`, with `names`, `filter` and
  `itemToSearch`. Its methods are:
  - `Recompute`, the computed, with its marker loop `PlaceAll`;
  - `RemoveId`, for `filter.remove`, which re-evaluates the computed when it
    removes something;
  - `SearchPOI`, with its first loop `Scan`/`ScanEntry` and its second loop
    `Prune`/`SpliceOut`.

  Each method is proved against the functions of `Catalog` and `Markers`.

Main results:

- After a search, `names` is exactly the matching entries, in their original
  order (`SearchPOI`, `SurvivorsMembers`, `SurvivorsOrder`). The descending
  splices remove exactly the recorded positions (`SpliceOut`,
  `SpliceBelowRemoved`, `WithoutMissesIsSurvivors`).
- No identifier of a pruned entry is left in `filter`. A matching entry's
  identifier stays exactly when it was there, and the remaining identifiers
  keep their order (`SearchFilter`, `KeepIdsOrder`).
- The empty term prunes nothing (`SurvivorsEmptyTerm`, `PrunedIdsEmptyTerm`).
- After a search, the page has not changed if `filter` did not change.
  Otherwise the info window is closed and the titles on the map are exactly
  those of the remaining identifiers, in order. Every old marker is still in
  `marks`, only taken off the map, and at most one marker stays selected
  (`SearchPOI`, `RedrawnAfterRecompute`, `RedrawnSelected`).
- A recomputation keeps every old marker, detached, and appends one marker
  per identifier. The markers on the map are then exactly the new ones. It
  preserves "at most one marker selected" and is idempotent.
- After a click on a marker with a listener, that marker is the only one
  showing the pushpin or the bounce.
- For a comma-free entry, splitting the identifier gives the entry back. So
  a marker made from a catalog identifier is titled with the entry's name.

## Model

| member | source | states |
|---|---|---|
| Text.Lower | js/app.js:220 | an upper-case ASCII letter becomes its lower-case letter, any other character is kept, and the result is never an upper-case letter |
| Text.LowerStr | js/app.js:220 | `toLowerCase` keeps the length and lower-cases each character in place |
| Text.Join | js/app.js:219 | `join()` puts `,` between the fields; with `Split` it makes the two round trips below |
| Text.LowerStrIdempotent | js/app.js:220 | lower-casing an already lower-cased string changes nothing |
| Text.IndexOf | js/app.js:220-221 | the result is non-negative exactly when the term occurs, and is then its first position; otherwise it is -1 |
| Text.IndexOfEmpty | js/app.js:220-221 | `indexOf("")` is 0, so the empty term is never a miss |
| Text.Split | js/app.js:198 | `split(',')` gives at least one piece and no piece holds a comma |
| Text.SplitJoin | js/app.js:198 | splitting the join of comma-free fields gives the fields back |
| Text.JoinSplit | js/app.js:219 | joining the pieces of any split gives the string back |
| Catalog.IdRoundTrip | js/app.js:198 | for a comma-free entry, splitting its identifier gives `[name, lat, lng]`, so the first piece is the name |
| Catalog.Matches | js/app.js:219-221 | an entry matches when its lower-cased identifier contains the lower-cased term, so `indexOf` is not negative |
| Catalog.MatchesIgnoresTermCase | js/app.js:220 | whether an entry matches does not depend on the case of the term |
| Catalog.MatchesEmptyTerm | js/app.js:220-221 | every entry matches the empty term |
| Catalog.SurvivorsMembers | js/app.js:218-238 | the search keeps exactly the entries that match the term, and never more entries than there were |
| Catalog.SurvivorsOrder | js/app.js:235-238 | the kept entries are in their original relative order |
| Catalog.SurvivorsEmptyTerm | js/app.js:218-238 | the empty term keeps the whole catalog |
| Catalog.MissIndicesSpec | js/app.js:218-229 | every position the scan records is below the scan's bound and holds a non-matching entry, and the positions are strictly increasing |
| Catalog.MissIndicesComplete | js/app.js:218-229 | the scan records every non-matching position |
| Catalog.Reversed | js/app.js:235 | `reverse()` keeps the length, and element k comes from position length-1-k |
| Catalog.ReversedMembers | js/app.js:235 | reversal keeps exactly the same elements |
| Catalog.ReversedMisses | js/app.js:228-235 | after reversal, a position is recorded exactly when its entry does not match |
| Catalog.ReversedMissesDescend | js/app.js:232-235 | after reversal, the recorded positions are valid catalog positions in strictly decreasing order |
| Catalog.Splice | js/app.js:237 | `splice(k, 1)` with a non-negative k removes the element at k, and does nothing past the end |
| Catalog.SpliceShifts | js/app.js:237 | after `splice(k, 1)` at an existing position, the elements before k stay in place and the later ones move down by one. Past the end, nothing changes |
| Catalog.SpliceBelowRemoved | js/app.js:236-238 | `splice(r[i], 1)` removes exactly the entry at `r[i]` when every position removed before it is higher |
| Catalog.WithoutMissesIsSurvivors | js/app.js:236-238 | removing exactly the non-matching positions leaves the matching entries in order |
| Catalog.KeepIds | js/app.js:227 | an identifier is left exactly when it was in the list and is not dropped, and the list never grows |
| Catalog.KeepIdsOrder | js/app.js:227 | the identifiers left keep their relative order |
| Catalog.Remove | js/app.js:227 | `remove(x)` removes every occurrence of x and keeps every other identifier |
| Catalog.RemoveAbsent | js/app.js:227 | removing an identifier that is not in the list leaves the list unchanged |
| Catalog.RemovePresent | js/app.js:227 | removing an identifier that is in the list shortens it |
| Catalog.KeepIdsThenRemove | js/app.js:218-227 | removing identifiers one after another during the loop is the same as dropping them all at once |
| Catalog.PrunedIdsMisses | js/app.js:219-227 | the identifier of every non-matching entry is passed to remove |
| Catalog.PrunedIdsSpareMatches | js/app.js:219-227 | the identifier of a matching entry is never passed to remove |
| Catalog.ScanStep | js/app.js:219-227 | handling entry i removes its identifier from the filter list exactly when the entry does not match |
| Catalog.SearchFilter | js/app.js:218-230 | after the scan, no identifier of a non-matching entry is in filter, and a matching entry's identifier is in filter exactly when it was before |
| Catalog.PrunedIdsEmptyTerm | js/app.js:220-227 | with the empty term no identifier is removed |
| Popup.Content | js/app.js:108-112 | the content is the header naming `data[0]`, then the optional heading, the description paragraph and the link, then `</div>`; the four lemmas below state its shape |
| Popup.ContentFrame | js/app.js:108-112 | the content starts with the `infoWindow` div and the header naming `data[0]`, and ends with `</div>` |
| Popup.ContentHeading | js/app.js:109 | right after the header, an `<h1>` heading holding the first title appears exactly when the first title is present (non-empty) |
| Popup.ContentDescription | js/app.js:110 | the content holds the first description paragraph, or "No description available" when there is none |
| Popup.ContentLink | js/app.js:111-112 | the content ends with a link to the first URL, or with "No URL available", and then `</div>` |
| Markers.MarkerState.Reset | js/app.js:120-123 | `setIcon(null)` and `setAnimation(null)` give the default icon and no animation, and nothing else about the marker changes |
| Markers.Placed | js/app.js:84-89 | a new marker is on the map, titled `loc[0]`, with the default icon, the drop animation and no listener |
| Markers.MarkerState.Toggled | js/app.js:125-126 | the toggle swaps the pushpin. A marker with no animation starts to bounce, and any other animation stops. Nothing else changes |
| Markers.Detach | js/app.js:194-196 | every marker is taken off the map and nothing else about it changes |
| Markers.AttachedTitlesDetached | js/app.js:194-196 | after the detach loop, no marker is on the map |
| Markers.AttachedTitlesAfterDetached | js/app.js:194-200 | detached old markers add no titles in front of the new ones |
| Markers.AtMostOneSelectedDetach | js/app.js:194-196 | detaching keeps at most one marker selected |
| Markers.AtMostOneSelectedAppend | js/app.js:197-200 | appending new, unselected markers keeps at most one marker selected |
| Markers.SoleSelection | js/app.js:120-126 | when every marker but one is reset, at most one marker shows the pushpin and at most one bounces |
| Markers.MapState.constructor | js/app.js:34-41 | the list `marks` starts empty, and the info window starts closed and empty |
| Markers.MapState.AddMarker | js/app.js:73-154 | `MapMarker` appends one marker to `marks` that is on the map, titled `loc[0]`, with the default icon and the drop animation. The info window is untouched |
| Markers.MapState.LookupDone | js/app.js:102-138 | on success the marker gets a listener showing the content built from the answer. On failure nothing changes, and no other marker changes |
| Markers.MapState.DetachAll | js/app.js:194-196 | `marks` becomes `Detach` of its old value, and the info window is untouched |
| Markers.MapState.ResetAll | js/app.js:120-123 | every marker loses its pushpin and animation, and nothing else changes |
| Markers.MapState.Click | js/app.js:114-134 | a click on a marker that is on the map and has no listener changes nothing. With a listener, every other marker is reset and otherwise unchanged. The clicked marker gets the pushpin and the bounce and nothing else about it changes. The window opens on it with the captured content, and it is the only selected marker |
| Markers.MapState.ClickListener | js/app.js:114-134 | every other marker is reset. The clicked one ends with the pushpin and the bounce, the window is open on it with the content, and at most one marker is selected |
| App.Titles | js/app.js:197-199 | there is one title per filter identifier: the identifier's first comma-separated piece |
| App.Placements | js/app.js:197-199 | one placed marker per filter identifier, in filter order, titled with the identifier's first piece |
| App.TitlesOfIds | js/app.js:198 | markers made from the identifiers of comma-free entries are titled with those entries' names |
| App.AttachedTitlesPlacements | js/app.js:197-200 | the newly created markers are all on the map, titled in filter order |
| App.Recomputed | js/app.js:192-202 | after a recomputation the titles on the map are exactly those of filter, in order, and at most one marker stays selected |
| App.RecomputeIdempotent | js/app.js:192-202 | recomputing twice with the same filter shows the same titles as recomputing once |
| App.RecomputedShape | js/app.js:192-200 | after a recomputation, `marks` holds the old markers, only taken off the map, followed by the new ones, none of them selected |
| App.RedrawnAfterRecompute | js/app.js:192-227 | during a search, each further recomputation caused by `filter.remove` leaves `marks` as a redraw of the starting list: every starting marker is kept and only taken off the map, the markers made since are unselected and off the map except the last ones, and the last ones are the markers just placed for the current filter |
| App.RedrawnSelected | js/app.js:192-202 | after any redraw, at most one marker is selected if at most one was before |
| App.ViewModel.constructor | js/app.js:180-202 | the view-model starts with the catalog, an empty filter and an empty search box. The first evaluation of the computed closes the window and detaches every marker |
| App.ViewModel.Recompute | js/app.js:192-202 | `marks` becomes the old markers, detached, followed by one placed marker per identifier. The window is closed, the page shows exactly the filter's titles, and "at most one selected" is preserved |
| App.ViewModel.PlaceAll | js/app.js:197-200 | one marker per identifier, titled with the first comma-piece, is appended to `marks` in filter order |
| App.ViewModel.SearchPOI | js/app.js:216-240 | names becomes the matching entries, filter loses the pruned identifiers, and the search box is cleared. If filter did not change, the page is unchanged. Otherwise the window is closed and the page shows the remaining filter. `marks` is then a redraw of its old value: every old marker is kept and only taken off the map, the markers made during the search are unselected and off the map except the last ones, and the last ones are the markers placed for the remaining filter. `marks` never shrinks, and at most one marker stays selected |
| App.ViewModel.RemoveId | js/app.js:227 | filter loses every occurrence of id. If one was there, the computed runs again and the page shows the new filter; otherwise nothing changes |
| App.ViewModel.Scan | js/app.js:217-230 | the recorded positions are the non-matching ones in increasing order, and filter loses exactly the pruned identifiers. The page is unchanged while filter is. Once filter has lost an identifier, the window is closed, the page shows the current filter, and `marks` is a redraw of its starting value for the current filter |
| App.ViewModel.ScanEntry | js/app.js:219-229 | one step of the first loop extends the recorded positions and the pruned identifiers by entry i exactly when it does not match |
| App.ViewModel.Prune | js/app.js:231-238 | reversing the recorded positions and splicing them out leaves exactly the matching entries in order |
| App.ViewModel.SpliceOut | js/app.js:236-238 | splicing positions given from the highest down removes exactly those positions |

## Left out

- Google Maps is not modelled: the map object, marker rendering, `LatLng`
  positions, `LatLngBounds.extend`, `fitBounds` and `panTo` (js/app.js:47-65,
  77, 145-149). These are foreign calls with floating-point geometry. A
  marker is reduced to its title, an on-map flag, a pushpin flag, its
  animation and its click listener.
- Markers are kept as values in `marks`, and a marker is named by its
  position there. The source's marker objects are addressed through the
  `marker` variable captured by the listener closure. Since `marks` only
  grows, the position is a stable name for the same marker. Object aliasing
  is not modelled.
- The JSONP request to Wikipedia, `encodeURIComponent` and the error
  callback's `console.log` (js/app.js:96-101, 136-141) are I/O. The request's
  outcome is a parameter of `LookupDone`. When several lookups complete is
  up to the caller.
- `infoWindow.maxWidth` (js/app.js:40, 131) is a rendering setting and is not
  modelled.
- `Offline.options` and the touchstart expand/collapse handler
  (js/app.js:6-13, 162-171) are UI configuration.
- Knockout's dependency tracking is not modelled in general.
  - `RemoveId` runs the computed again only when the removal changed
    `filter`, which is when Knockout notifies.
  - The constructor performs the computed's first evaluation.
  - Edits to `filter` made through the checkboxes are not modelled, since
    that binding lives in HTML.
- `toLowerCase` is modelled for ASCII letters only; other Unicode case
  mappings are not part of this model.
- `Prune` and `SpliceOut` splice only at non-negative positions. Every
  position the scan records is one, so negative `splice` starts never arise.
- Markers.MapState.AddMarker requires at least one piece in `loc`.
  `split(',')` always gives one, so the marker loop meets this.
- `Markers.MapState.Click` requires the clicked marker to be on the map.
  Google Maps delivers clicks only to markers it shows, and a marker taken
  off by `setMap(null)` (js/app.js:195) cannot be clicked.
- `Markers.MapState.ClickListener` takes the clicked marker's position in
  `marks`, so that marker is always in the list. In the source it is there
  because `marks.push` runs synchronously before any lookup can complete.
- Catalog entries and answers are assumed well-formed (three string fields;
  four lists). A malformed Wikipedia answer that makes the source throw is
  not modelled.
- The code creates one marker per identifier in `filter`, whether or not
  that identifier still names an entry of `names`. It does not restrict the
  markers to identifiers present in the catalog. The model follows the code.
  The search keeps the two consistent by removing pruned identifiers from
  `filter`.
