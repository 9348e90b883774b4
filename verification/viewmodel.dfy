/** The Knockout view-model: the working catalog `names`, the checked
    identifiers `filter`, the search box `itemToSearch`, the marker
    recomputation that follows the filter, and the search that prunes the
    catalog. */
module App {
  import opened Text
  import opened Catalog
  import opened Markers

  /** The title a marker made from each identifier gets: the first piece of
      the identifier split on ','. */
  function Titles(f: seq<string>): (r: seq<string>)
    ensures |r| == |f|
  {
    if f == [] then [] else Titles(f[..|f| - 1]) + [Split(f[|f| - 1])[0]]
  }

  /** The markers created for the identifiers of f, in order. */
  function Placements(f: seq<string>): (r: seq<MarkerState>)
    ensures |r| == |f| && forall k :: 0 <= k < |f| ==> r[k] == Placed(Split(f[k])[0])
  {
    if f == [] then [] else Placements(f[..|f| - 1]) + [Placed(Split(f[|f| - 1])[0])]
  }

  /** The identifiers of a list of entries. */
  function Ids(es: seq<Entry>): (r: seq<string>)
    ensures |r| == |es|
    ensures forall k :: 0 <= k < |es| ==> r[k] == Id(es[k])
  {
    if es == [] then [] else Ids(es[..|es| - 1]) + [Id(es[|es| - 1])]
  }

  /** A filter list made of the identifiers of comma-free entries yields
      markers titled with those entries' names. */
  lemma {:induction false} TitlesOfIds(es: seq<Entry>)
    requires forall k :: 0 <= k < |es| ==> CommaFree(es[k])
    ensures Titles(Ids(es)) == seq(|es|, k requires 0 <= k < |es| => es[k].name)
  {
    if es != [] {
      var init := es[..|es| - 1];
      TitlesOfIds(init);
      IdRoundTrip(es[|es| - 1]);
      assert Ids(es)[..|es| - 1] == Ids(init);
    }
  }

  /** Freshly placed markers are all on the map, titled after f. */
  lemma {:induction false} AttachedTitlesPlacements(f: seq<string>)
    ensures AttachedTitles(Placements(f)) == Titles(f)
  {
    if f != [] {
      AttachedTitlesPlacements(f[..|f| - 1]);
      assert Placements(f)[..|f| - 1] == Placements(f[..|f| - 1]);
    }
  }

  /** After a recomputation, the titles of the markers on the map are those
      of the filter identifiers, in order; and if at most one marker was
      selected before, at most one is after. */
  lemma Recomputed(ss: seq<MarkerState>, f: seq<string>)
    ensures AttachedTitles(Detach(ss) + Placements(f)) == Titles(f)
    ensures AtMostOneSelected(ss) ==> AtMostOneSelected(Detach(ss) + Placements(f))
  {
    AttachedTitlesAfterDetached(ss, Placements(f));
    AttachedTitlesPlacements(f);
    if AtMostOneSelected(ss) {
      AtMostOneSelectedDetach(ss);
      AtMostOneSelectedAppend(Detach(ss), Placements(f));
    }
  }

  /** Recomputing twice with the same filter list shows the same titles as
      recomputing once. */
  lemma RecomputeIdempotent(ss: seq<MarkerState>, f: seq<string>)
    ensures AttachedTitles(Detach(Detach(ss) + Placements(f)) + Placements(f)) == AttachedTitles(Detach(ss) + Placements(f))
  {
    Recomputed(ss, f);
    Recomputed(Detach(ss) + Placements(f), f);
  }

  /** The marker list m after one or more recomputations starting from m0,
      the last one for filter list f: every marker of m0 is still there,
      only taken off the map; the markers created since are unselected and,
      apart from the last |f|, off the map; the last |f| are the markers
      just placed for f. */
  predicate Redrawn(m0: seq<MarkerState>, m: seq<MarkerState>, f: seq<string>)
  {
    |m0| + |f| <= |m| &&
    (forall k :: 0 <= k < |m0| ==> m[k] == m0[k].(attached := false)) &&
    (forall k :: |m0| <= k < |m| ==> !m[k].pushpin && m[k].animation != Bounce) &&
    (forall k :: |m0| <= k < |m| - |f| ==> !m[k].attached) &&
    m[|m| - |f|..] == Placements(f)
  }

  /** A redraw keeps at most one marker selected. */
  lemma RedrawnSelected(m0: seq<MarkerState>, m: seq<MarkerState>, f: seq<string>)
    requires Redrawn(m0, m, f) && AtMostOneSelected(m0)
    ensures AtMostOneSelected(m)
  {
    forall k | 0 <= k < |m|
      ensures m[k].pushpin ==> k < |m0| && m0[k].pushpin
      ensures m[k].animation == Bounce ==> k < |m0| && m0[k].animation == Bounce
    {
      if k < |m0| {
        assert m[k] == m0[k].(attached := false);
      }
    }
  }

  /** Where the page stands after part of a search, relative to the view
      v0 and filter list f0 it started from: the filter list has not grown;
      while it is unchanged, so is the page; once it has lost an identifier,
      the info window is closed, the page shows the current filter list, and
      the marker list is a redraw of the starting one for that list. */
  predicate Rendered(v: PageView, v0: PageView, f: seq<string>, f0: seq<string>)
  {
    |f| <= |f0| &&
    (f == f0 ==> v == v0) &&
    (f != f0 ==> |f| < |f0| && Displays(v, Titles(f)) && Redrawn(v0.marks, v.marks, f))
  }

  /** One more recomputation, for a shorter filter list, during a search
      that started from v0 and f0: the new marker list m' is again a redraw
      of the starting one, now for the shorter list. */
  lemma RedrawnAfterRecompute(v0: PageView, f0: seq<string>, v: PageView, f: seq<string>, m': seq<MarkerState>, f': seq<string>)
    requires Rendered(v, v0, f, f0)
    requires |f'| < |f|
    requires m' == Detach(v.marks) + Placements(f')
    ensures Redrawn(v0.marks, m', f')
  {
    if f != f0 {
      RedrawnAgrees(v0.marks, v.marks, f);
    }
    RecomputedShape(v.marks, f');
    RedrawAgain(v0.marks, v.marks, f', m');
  }

  /** A redraw of m0 agrees with m0 up to the on-map flag, and the markers
      it added are unselected. */
  lemma RedrawnAgrees(m0: seq<MarkerState>, m: seq<MarkerState>, f: seq<string>)
    requires Redrawn(m0, m, f)
    ensures |m0| <= |m|
    ensures forall k :: 0 <= k < |m0| ==> m[k].(attached := false) == m0[k].(attached := false)
    ensures forall k :: |m0| <= k < |m| ==> !m[k].pushpin && m[k].animation != Bounce
  {
    forall k | 0 <= k < |m0|
      ensures m[k].(attached := false) == m0[k].(attached := false)
    {
      assert m[k] == m0[k].(attached := false);
    }
  }

  /** The marker list after a recomputation: the old markers, each only
      taken off the map, then the new ones, none of them selected. */
  lemma RecomputedShape(m: seq<MarkerState>, f: seq<string>)
    ensures |Detach(m) + Placements(f)| == |m| + |f|
    ensures forall k :: 0 <= k < |m| ==> (Detach(m) + Placements(f))[k] == m[k].(attached := false)
    ensures forall k :: |m| <= k < |m| + |f| ==>
              !(Detach(m) + Placements(f))[k].pushpin && (Detach(m) + Placements(f))[k].animation != Bounce
    ensures (Detach(m) + Placements(f))[|m|..] == Placements(f)
  {
    var d, p := Detach(m), Placements(f);
    var m' := d + p;
    assert m'[|m|..] == p;
    forall k | |m| <= k < |m'|
      ensures !m'[k].pushpin && m'[k].animation != Bounce
    {
      assert m'[k] == p[k - |m|];
    }
  }

  /** Recomputing over markers whose first |m0| agree with m0 up to the
      on-map flag, and whose later ones are unselected, is a redraw of m0. */
  lemma RedrawAgain(m0: seq<MarkerState>, m: seq<MarkerState>, f: seq<string>, m': seq<MarkerState>)
    requires |m0| <= |m|
    requires forall k :: 0 <= k < |m0| ==> m[k].(attached := false) == m0[k].(attached := false)
    requires forall k :: |m0| <= k < |m| ==> !m[k].pushpin && m[k].animation != Bounce
    requires |m'| == |m| + |f|
    requires forall k :: 0 <= k < |m| ==> m'[k] == m[k].(attached := false)
    requires forall k :: |m| <= k < |m'| ==> !m'[k].pushpin && m'[k].animation != Bounce
    requires m'[|m'| - |f|..] == Placements(f)
    ensures Redrawn(m0, m', f)
  {
  }

  class ViewModel {
    var names: seq<Entry>
    var filter: seq<string>
    var itemToSearch: string
    /** The page-wide markers and info window the view-model draws on. */
    const page: MapState

    /** Starts with the given catalog, nothing checked and an empty search
        box; creating the computed marker set evaluates it once, which
        closes the info window and takes every existing marker off the
        map. */
    constructor (catalog: seq<Entry>, page: MapState)
      modifies page
      ensures this.page == page && names == catalog && filter == [] && itemToSearch == ""
      ensures page.marks == Detach(old(page.marks)) && !page.popupOpen
      ensures page.popupContent == old(page.popupContent) && page.popupAnchor == old(page.popupAnchor)
    {
      names := catalog;
      filter := [];
      itemToSearch := "";
      this.page := page;
      new;
      Recompute();
      assert Detach(old(page.marks)) + Placements([]) == Detach(old(page.marks));
    }

    /** The computed marker set: closes the info window, takes every marker
        ever created off the map (marks is never emptied), then appends one
        new marker per identifier in filter, in filter order. Afterwards
        the page shows exactly the filter's titles, and if at most one
        marker was selected before, at most one is after. */
    method Recompute()
      modifies page
      ensures page.marks == Detach(old(page.marks)) + Placements(filter)
      ensures !page.popupOpen && page.popupContent == old(page.popupContent) && page.popupAnchor == old(page.popupAnchor)
      ensures Displays(page.View(), Titles(filter))
      ensures AtMostOneSelected(old(page.marks)) ==> AtMostOneSelected(page.marks)
    {
      ghost var before := page.marks;
      page.popupOpen := false;
      page.DetachAll();
      PlaceAll();
      Recomputed(before, filter);
    }

    /** The second loop of the computed marker set: one new marker per
        identifier in filter, titled with the identifier's first
        comma-separated piece, pushed onto marks in filter order. */
    method PlaceAll()
      modifies page
      ensures page.marks == old(page.marks) + Placements(filter)
      ensures page.popupOpen == old(page.popupOpen) && page.popupContent == old(page.popupContent)
      ensures page.popupAnchor == old(page.popupAnchor)
    {
      var i := 0;
      while i < |filter|
        invariant 0 <= i <= |filter|
        invariant page.marks == old(page.marks) + Placements(filter[..i])
        invariant page.popupOpen == old(page.popupOpen) && page.popupContent == old(page.popupContent)
        invariant page.popupAnchor == old(page.popupAnchor)
      {
        var loc := Split(filter[i]);
        var k := page.AddMarker(loc);
        assert filter[..i + 1][..i] == filter[..i];
        i := i + 1;
      }
      assert filter[..i] == filter;
    }

    /** The search form's submit action. Every entry whose lower-cased
        identifier does not contain the lower-cased term has its identifier
        removed from filter and its position recorded; the recorded
        positions are then spliced out of names from the highest down, and
        the search box is cleared. The page is left alone when the filter
        did not change, and shows the remaining filter otherwise. */
    method SearchPOI()
      modifies this, page
      ensures names == Survivors(old(names), old(itemToSearch))
      ensures filter == KeepIds(old(filter), PrunedIds(old(names), old(itemToSearch)))
      ensures itemToSearch == ""
      ensures filter != old(filter) ==> Displays(page.View(), Titles(filter))
      ensures filter != old(filter) ==> Redrawn(old(page.marks), page.marks, filter)
      ensures filter == old(filter) ==> page.View() == old(page.View())
      ensures |old(page.marks)| <= |page.marks|
      ensures AtMostOneSelected(old(page.marks)) ==> AtMostOneSelected(page.marks)
    {
      var term := itemToSearch;
      var removeIndex := Scan();
      Prune(removeIndex, term);
      itemToSearch := "";
      if filter != old(filter) && AtMostOneSelected(old(page.marks)) {
        RedrawnSelected(old(page.marks), page.marks, filter);
      }
    }

    /** observableArray.remove on filter: every occurrence of id leaves the
        list and, when there was one, the computed marker set, which depends
        on filter, is evaluated again at once. */
    method RemoveId(id: string)
      modifies this, page
      ensures names == old(names) && itemToSearch == old(itemToSearch)
      ensures filter == Remove(old(filter), id)
      ensures id in old(filter) ==> |filter| < |old(filter)| && Displays(page.View(), Titles(filter))
      ensures id in old(filter) ==> page.marks == Detach(old(page.marks)) + Placements(filter)
      ensures id !in old(filter) ==> filter == old(filter) && page.View() == old(page.View())
    {
      if id in filter {
        RemovePresent(filter, id);
        filter := Remove(filter, id);
        Recompute();
      } else {
        RemoveAbsent(filter, id);
      }
    }

    /** The first loop of the search: every entry whose lower-cased
        identifier does not contain the lower-cased term has its identifier
        removed from filter and its position recorded, in ascending order. */
    method Scan() returns (removeIndex: seq<int>)
      modifies this, page
      ensures names == old(names) && itemToSearch == old(itemToSearch)
      ensures removeIndex == MissIndices(names, itemToSearch, |names|)
      ensures filter == KeepIds(old(filter), PrunedIds(names, itemToSearch))
      ensures Rendered(page.View(), old(page.View()), filter, old(filter))
    {
      ghost var f0, v0 := filter, page.View();
      removeIndex := [];
      KeepIdsNothing(f0);
      var i := 0;
      var len := |names|;
      while i < len
        invariant 0 <= i <= len == |names| && names == old(names) && itemToSearch == old(itemToSearch)
        invariant removeIndex == MissIndices(names, itemToSearch, i)
        invariant filter == KeepIds(f0, PrunedIds(names[..i], itemToSearch))
        invariant Rendered(page.View(), v0, filter, f0)
      {
        removeIndex := ScanEntry(i, removeIndex, f0, v0);
        i := i + 1;
      }
      assert names[..i] == names;
    }

    /** The body of the first loop for entry i: its identifier, joined with
        ',', is looked for case-insensitively; when the term is not found the
        identifier is removed from filter and the entry reported as a miss. */
    method ScanEntry(i: nat, removeIndex: seq<int>, ghost f0: seq<string>, ghost v0: PageView)
      returns (removeIndex': seq<int>)
      requires i < |names|
      requires removeIndex == MissIndices(names, itemToSearch, i)
      requires filter == KeepIds(f0, PrunedIds(names[..i], itemToSearch))
      requires Rendered(page.View(), v0, filter, f0)
      modifies this, page
      ensures names == old(names) && itemToSearch == old(itemToSearch)
      ensures removeIndex' == MissIndices(names, itemToSearch, i + 1)
      ensures filter == KeepIds(f0, PrunedIds(names[..i + 1], itemToSearch))
      ensures Rendered(page.View(), v0, filter, f0)
    {
      var poiData := Id(names[i]);
      var index := IndexOf(LowerStr(poiData), LowerStr(itemToSearch));
      ScanStep(f0, names, itemToSearch, i);
      removeIndex' := removeIndex;
      if index < 0 {
        ghost var v, f := page.View(), filter;
        RemoveId(poiData);
        if poiData in f {
          RedrawnAfterRecompute(v0, f0, v, f, page.marks, filter);
        }
        removeIndex' := removeIndex + [i];
      }
    }

    /** The end of the search: the positions recorded by the scan are
        reversed, so that they run from the highest down, and spliced out of
        names one after the other; what is left is exactly the entries that
        match the term, in their original order. */
    method Prune(ascending: seq<int>, term: string)
      requires ascending == MissIndices(names, term, |names|)
      modifies this
      ensures names == Survivors(old(names), term)
      ensures filter == old(filter) && itemToSearch == old(itemToSearch)
    {
      ghost var orig := names;
      var removeIndex := Reversed(ascending);
      ReversedMissesDescend(orig, term);
      SpliceOut(removeIndex);
      ReversedMisses(orig, term);
      WithoutMissesIsSurvivors(orig, term, removeIndex, 0);
      assert orig[0..] == orig;
    }

    /** The second loop of the search: splices out of names, one after the
        other, the positions recorded in removeIndex, which run from the
        highest down so that no splice moves a position still to come. */
    method SpliceOut(removeIndex: seq<int>)
      requires forall p :: 0 <= p < |removeIndex| ==> 0 <= removeIndex[p] < |names|
      requires forall p, q :: 0 <= p < q < |removeIndex| ==> removeIndex[p] > removeIndex[q]
      modifies this
      ensures names == Without(old(names), removeIndex)
      ensures filter == old(filter) && itemToSearch == old(itemToSearch)
    {
      WithoutNothing(names);
      assert removeIndex[..0] == [];
      var i := 0;
      while i < |removeIndex|
        invariant 0 <= i <= |removeIndex|
        invariant names == Without(old(names), removeIndex[..i])
        invariant filter == old(filter) && itemToSearch == old(itemToSearch)
      {
        SpliceBelowRemoved(old(names), removeIndex, i);
        names := Splice(names, removeIndex[i]);
        i := i + 1;
      }
      assert removeIndex[..i] == removeIndex;
    }
  }
}
