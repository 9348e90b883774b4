/** Map markers and the two pieces of page-wide state they share: the list
    `marks` of every marker ever created, and the single info window. The
    map itself is reduced to a per-marker "attached" flag. A marker is
    never taken out of `marks`, so its position there identifies it. */
module Markers {
  import opened Popup

  /** The marker animations the widget uses: none, the drop played when a
      marker is created, and the bounce of the selected marker. */
  datatype Animation = NoAnimation | Drop | Bounce

  /** Outcome of the Wikipedia lookup issued for a marker. */
  datatype Lookup = Failed | Answered(data: WikiData)

  /** The click listener a marker carries: none until its lookup succeeds,
      then one that shows the content built from the answer. */
  datatype Listener = NoListener | ShowPopup(content: string)

  /** Everything the model records about a marker: its hover title, whether
      it is on the map, whether its icon is the yellow pushpin rather than
      the default icon, its animation and its click listener. */
  datatype MarkerState = MarkerState(title: string, attached: bool, pushpin: bool, animation: Animation, listener: Listener)
  {
    /** The same marker after `setIcon(null)` and `setAnimation(null)`:
        default icon, no animation, and nothing else changed. */
    function Reset(): (r: MarkerState)
      ensures !r.pushpin && r.animation == NoAnimation
      ensures r.(pushpin := pushpin, animation := animation) == this
    {
      this.(pushpin := false, animation := NoAnimation)
    }

    /** The clicked marker's own toggle: the pushpin icon is swapped with
        the default one, and a running animation is stopped or, when there
        is none, the bounce is started. */
    function Toggled(): (r: MarkerState)
      ensures r.pushpin != pushpin
      ensures r.animation == Bounce <==> animation == NoAnimation
      ensures r.animation != Bounce ==> r.animation == NoAnimation
      ensures r.(pushpin := pushpin, animation := animation) == this
    {
      this.(pushpin := !pushpin, animation := if animation != NoAnimation then NoAnimation else Bounce)
    }
  }

  /** A marker just created for the given title: on the map, default icon,
      dropping in, no listener yet. */
  function Placed(title: string): MarkerState
  {
    MarkerState(title, true, false, Drop, NoListener)
  }

  /** At most one marker shows the pushpin, and at most one bounces. */
  predicate AtMostOneSelected(ss: seq<MarkerState>)
  {
    (forall i, j :: 0 <= i < |ss| && 0 <= j < |ss| && ss[i].pushpin && ss[j].pushpin ==> i == j) &&
    (forall i, j :: 0 <= i < |ss| && 0 <= j < |ss| && ss[i].animation == Bounce && ss[j].animation == Bounce ==> i == j)
  }

  /** Every marker taken off the map, nothing else changed. */
  function Detach(ss: seq<MarkerState>): (r: seq<MarkerState>)
    ensures |r| == |ss| && forall k :: 0 <= k < |ss| ==> r[k] == ss[k].(attached := false)
  {
    if ss == [] then [] else Detach(ss[..|ss| - 1]) + [ss[|ss| - 1].(attached := false)]
  }

  /** The titles of the markers that are on the map, in list order. */
  function AttachedTitles(ss: seq<MarkerState>): seq<string>
  {
    if ss == [] then []
    else AttachedTitles(ss[..|ss| - 1]) + (if ss[|ss| - 1].attached then [ss[|ss| - 1].title] else [])
  }

  /** Markers that are all off the map have no attached titles. */
  lemma {:induction false} AttachedTitlesDetached(ss: seq<MarkerState>)
    ensures AttachedTitles(Detach(ss)) == []
  {
    if ss != [] {
      AttachedTitlesDetached(ss[..|ss| - 1]);
      assert Detach(ss)[..|ss| - 1] == Detach(ss[..|ss| - 1]);
    }
  }

  /** Detached markers in front contribute no titles. */
  lemma {:induction false} AttachedTitlesAfterDetached(ss: seq<MarkerState>, ts: seq<MarkerState>)
    ensures AttachedTitles(Detach(ss) + ts) == AttachedTitles(ts)
    decreases |ts|
  {
    if ts == [] {
      AttachedTitlesDetached(ss);
      assert Detach(ss) + ts == Detach(ss);
    } else {
      var us := Detach(ss) + ts;
      AttachedTitlesAfterDetached(ss, ts[..|ts| - 1]);
      assert us[..|us| - 1] == Detach(ss) + ts[..|ts| - 1];
    }
  }

  /** Appending markers that show neither the pushpin nor the bounce keeps
      at most one marker selected. */
  lemma AtMostOneSelectedAppend(ss: seq<MarkerState>, ts: seq<MarkerState>)
    requires AtMostOneSelected(ss)
    requires forall k :: 0 <= k < |ts| ==> !ts[k].pushpin && ts[k].animation != Bounce
    ensures AtMostOneSelected(ss + ts)
  {
    var us := ss + ts;
    assert forall k :: 0 <= k < |ss| ==> us[k] == ss[k];
    assert forall k :: |ss| <= k < |us| ==> us[k] == ts[k - |ss|];
  }

  /** Taking markers off the map changes neither icons nor animations. */
  lemma AtMostOneSelectedDetach(ss: seq<MarkerState>)
    requires AtMostOneSelected(ss)
    ensures AtMostOneSelected(Detach(ss))
  {
    var ds := Detach(ss);
    assert forall k :: 0 <= k < |ss| ==> ds[k].pushpin == ss[k].pushpin && ds[k].animation == ss[k].animation;
  }

  /** When every marker but the one at position sel has the default icon
      and no animation, at most one marker is selected. */
  lemma SoleSelection(ss: seq<MarkerState>, sel: int)
    requires forall k :: 0 <= k < |ss| && k != sel ==> !ss[k].pushpin && ss[k].animation == NoAnimation
    ensures AtMostOneSelected(ss)
  {
  }

  /** A snapshot of the page: each marker's state, and the info window
      (open or closed, its content, and the position of the marker it is
      anchored to, -1 before it is first opened). */
  datatype PageView = PageView(marks: seq<MarkerState>, popupOpen: bool, popupContent: string, popupAnchor: int)

  /** The page shows the given titles: the info window is closed and the
      titles of the markers on the map are those, in order. */
  predicate Displays(v: PageView, titles: seq<string>)
  {
    !v.popupOpen && AttachedTitles(v.marks) == titles
  }

  /** The page-wide state: the list `marks` of every marker created so far,
      and the shared info window. */
  class MapState {
    var marks: seq<MarkerState>
    var popupOpen: bool
    var popupContent: string
    var popupAnchor: int

    /** What a caller can observe of the page. */
    function View(): PageView
      reads this
    {
      PageView(marks, popupOpen, popupContent, popupAnchor)
    }

    /** No marker yet, and a closed, empty info window. */
    constructor ()
      ensures View() == PageView([], false, "", -1)
    {
      marks := [];
      popupOpen := false;
      popupContent := "";
      popupAnchor := -1;
    }

    /** MapMarker: places a marker titled with the first piece of loc and
        appends it to marks; k is its position. The position on the map
        (the other pieces), the viewport fitting and the lookup request are
        not part of this model. */
    method AddMarker(loc: seq<string>) returns (k: nat)
      requires |loc| >= 1
      modifies this
      ensures marks == old(marks) + [Placed(loc[0])] && k == |old(marks)| && marks[k].title == loc[0]
      ensures popupOpen == old(popupOpen) && popupContent == old(popupContent) && popupAnchor == old(popupAnchor)
    {
      k := |marks|;
      marks := marks + [Placed(loc[0])];
    }

    /** The completion of the lookup issued for marker k: on success a click
        listener showing the content built from the answer is attached; on
        failure the marker is left as it is. */
    method LookupDone(k: nat, result: Lookup)
      requires k < |marks|
      modifies this
      ensures |marks| == |old(marks)|
      ensures forall j :: 0 <= j < |marks| && j != k ==> marks[j] == old(marks[j])
      ensures marks[k] == if result.Answered? then old(marks[k]).(listener := ShowPopup(Content(result.data)))
                          else old(marks[k])
      ensures popupOpen == old(popupOpen) && popupContent == old(popupContent) && popupAnchor == old(popupAnchor)
    {
      if result.Answered? {
        marks := marks[k := marks[k].(listener := ShowPopup(Content(result.data)))];
      }
    }

    /** Takes every marker in marks off the map (`setMap(null)`), leaving
        every other marker field and the info window as they were. */
    method DetachAll()
      modifies this
      ensures marks == Detach(old(marks))
      ensures popupOpen == old(popupOpen) && popupContent == old(popupContent) && popupAnchor == old(popupAnchor)
    {
      var j := 0;
      while j < |marks|
        invariant 0 <= j <= |marks| == |old(marks)|
        invariant forall k :: 0 <= k < j ==> marks[k] == old(marks[k]).(attached := false)
        invariant forall k :: j <= k < |marks| ==> marks[k] == old(marks[k])
        invariant popupOpen == old(popupOpen) && popupContent == old(popupContent) && popupAnchor == old(popupAnchor)
      {
        marks := marks[j := marks[j].(attached := false)];
        j := j + 1;
      }
    }

    /** Gives every marker in marks the default icon and no animation
        (`setIcon(null)`, `setAnimation(null)`). */
    method ResetAll()
      modifies this
      ensures |marks| == |old(marks)| && forall k :: 0 <= k < |marks| ==> marks[k] == old(marks[k]).Reset()
      ensures popupOpen == old(popupOpen) && popupContent == old(popupContent) && popupAnchor == old(popupAnchor)
    {
      var j := 0;
      while j < |marks|
        invariant 0 <= j <= |marks| == |old(marks)|
        invariant forall k :: 0 <= k < j ==> marks[k] == old(marks[k]).Reset()
        invariant forall k :: j <= k < |marks| ==> marks[k] == old(marks[k])
        invariant popupOpen == old(popupOpen) && popupContent == old(popupContent) && popupAnchor == old(popupAnchor)
      {
        marks := marks[j := marks[j].Reset()];
        j := j + 1;
      }
    }

    /** A click on marker k, which only a marker on the map can receive:
        with no listener attached nothing happens; otherwise the listener
        runs with the content it captured. */
    method Click(k: nat)
      requires k < |marks| && marks[k].attached
      modifies this
      ensures |marks| == |old(marks)|
      ensures old(marks[k]).listener.NoListener? ==> View() == old(View())
      ensures old(marks[k]).listener.ShowPopup? ==>
                (forall j :: 0 <= j < |marks| && j != k ==> marks[j] == old(marks[j]).Reset()) &&
                marks[k] == old(marks[k]).(pushpin := true, animation := Bounce)
      ensures old(marks[k]).listener.ShowPopup? ==>
                popupOpen && popupContent == old(marks[k]).listener.content && popupAnchor == k &&
                AtMostOneSelected(marks)
    {
      if marks[k].listener.ShowPopup? {
        ClickListener(k, marks[k].listener.content);
      }
    }

    /** The body of the click listener of marker k, with the content that
        listener captured: every marker in marks loses its pushpin and
        animation, marker k's icon and animation are then toggled, and the
        info window opens on marker k with the content. As marker k was just
        reset, the toggle always ends on pushpin and bounce, and marker k is
        then the only selected marker. */
    method ClickListener(k: nat, content: string)
      requires k < |marks|
      modifies this
      ensures |marks| == |old(marks)|
      ensures forall j :: 0 <= j < |marks| && j != k ==> marks[j] == old(marks[j]).Reset()
      ensures marks[k] == old(marks[k]).(pushpin := true, animation := Bounce)
      ensures popupOpen && popupContent == content && popupAnchor == k
      ensures AtMostOneSelected(marks)
    {
      ResetAll();
      marks := marks[k := marks[k].Toggled()];
      popupContent := content;
      popupOpen := true;
      popupAnchor := k;
      SoleSelection(marks, k);
    }
  }
}
