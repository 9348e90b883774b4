/** The point-of-interest catalog and the pure specification of what a
    search does to it: which entries match a term, which positions the scan
    records, what splicing those positions leaves, and which checkbox
    identifiers the scan drops from the filter list. */
module Catalog {
  import opened Text

  /** One catalog entry `[name, lat, lng]`; latitude and longitude are kept
      as the strings the catalog holds. */
  datatype Entry = Entry(name: string, lat: string, lng: string)

  /** The entry's identifier: its three fields joined with ','. Checkbox
      values in the filter list have this form. */
  function Id(e: Entry): string
  {
    Join([e.name, e.lat, e.lng])
  }

  predicate CommaFree(e: Entry)
  {
    ',' !in e.name && ',' !in e.lat && ',' !in e.lng
  }

  /** Splitting an identifier on ',' gives the entry's fields back, so the
      first piece, which becomes a marker's title, is the entry's name. */
  lemma IdRoundTrip(e: Entry)
    requires CommaFree(e)
    ensures Split(Id(e)) == [e.name, e.lat, e.lng]
    ensures Split(Id(e))[0] == e.name
  {
    SplitJoin([e.name, e.lat, e.lng]);
  }

  /** The search test: the lower-cased identifier contains the lower-cased
      term. */
  predicate Matches(e: Entry, term: string)
  {
    Contains(LowerStr(Id(e)), LowerStr(term))
  }

  /** Matching ignores ASCII case in the term. */
  lemma MatchesIgnoresTermCase(e: Entry, term: string)
    ensures Matches(e, term) <==> Matches(e, LowerStr(term))
  {
    LowerStrIdempotent(term);
  }

  /** Every entry matches the empty term. */
  lemma MatchesEmptyTerm(e: Entry)
    ensures Matches(e, "")
  {
    assert OccursAt(LowerStr(Id(e)), LowerStr(""), 0);
  }

  /** The entries of s that match term, in their original order. */
  function Survivors(s: seq<Entry>, term: string): seq<Entry>
  {
    if s == [] then []
    else (if Matches(s[0], term) then [s[0]] else []) + Survivors(s[1..], term)
  }

  /** What survives the search is exactly the matching entries, and never
      more than there were. */
  lemma {:induction false} SurvivorsMembers(s: seq<Entry>, term: string)
    ensures |Survivors(s, term)| <= |s|
    ensures forall e :: e in Survivors(s, term) <==> e in s && Matches(e, term)
  {
    if s != [] {
      SurvivorsMembers(s[1..], term);
      assert s == [s[0]] + s[1..];
    }
  }

  /** r is s with some elements left out, the rest in their original
      order. */
  predicate Subsequence<T(==)>(r: seq<T>, s: seq<T>)
    decreases |s|
  {
    if r == [] then true
    else if s == [] then false
    else (r[0] == s[0] && Subsequence(r[1..], s[1..])) || Subsequence(r, s[1..])
  }

  /** The survivors keep their relative order. */
  lemma {:induction false} SurvivorsOrder(s: seq<Entry>, term: string)
    ensures Subsequence(Survivors(s, term), s)
  {
    if s != [] {
      SurvivorsOrder(s[1..], term);
      var r := Survivors(s, term);
      if Matches(s[0], term) {
        assert r[0] == s[0] && r[1..] == Survivors(s[1..], term);
      } else {
        assert r == Survivors(s[1..], term);
      }
    }
  }

  /** The empty term keeps the whole catalog. */
  lemma {:induction false} SurvivorsEmptyTerm(s: seq<Entry>)
    ensures Survivors(s, "") == s
  {
    if s != [] {
      MatchesEmptyTerm(s[0]);
      SurvivorsEmptyTerm(s[1..]);
      assert s == [s[0]] + s[1..];
    }
  }

  /** The positions below i whose entries do not match, in increasing
      order: what the scan of searchPOI pushes onto removeIndex. */
  function MissIndices(s: seq<Entry>, term: string, i: nat): seq<int>
    requires i <= |s|
  {
    if i == 0 then []
    else MissIndices(s, term, i - 1) + (if Matches(s[i - 1], term) then [] else [i - 1])
  }

  /** The recorded positions are non-matching positions below i, in
      strictly increasing order. */
  lemma {:induction false} MissIndicesSpec(s: seq<Entry>, term: string, i: nat)
    requires i <= |s|
    ensures forall p :: 0 <= p < |MissIndices(s, term, i)| ==>
              0 <= MissIndices(s, term, i)[p] < i && !Matches(s[MissIndices(s, term, i)[p]], term)
    ensures forall p, q :: 0 <= p < q < |MissIndices(s, term, i)| ==>
              MissIndices(s, term, i)[p] < MissIndices(s, term, i)[q]
  {
    if i > 0 {
      MissIndicesSpec(s, term, i - 1);
      var prev := MissIndices(s, term, i - 1);
      if Matches(s[i - 1], term) {
        assert MissIndices(s, term, i) == prev;
      } else {
        var r := prev + [i - 1];
        assert MissIndices(s, term, i) == r;
      }
    }
  }

  /** ... and none of the non-matching positions below i is missed. */
  lemma {:induction false} MissIndicesComplete(s: seq<Entry>, term: string, i: nat)
    requires i <= |s|
    ensures forall k :: 0 <= k < i && !Matches(s[k], term) ==> k in MissIndices(s, term, i)
  {
    if i > 0 {
      MissIndicesComplete(s, term, i - 1);
    }
  }

  /** Array.prototype.reverse on the recorded positions. */
  function Reversed(xs: seq<int>): (r: seq<int>)
    ensures |r| == |xs|
    ensures forall k :: 0 <= k < |xs| ==> r[k] == xs[|xs| - 1 - k]
  {
    if xs == [] then [] else Reversed(xs[1..]) + [xs[0]]
  }

  /** Reversal keeps exactly the same elements. */
  lemma ReversedMembers(xs: seq<int>)
    ensures forall x :: x in Reversed(xs) <==> x in xs
  {
    var r := Reversed(xs);
    forall x | x in r
      ensures x in xs
    {
      var p :| 0 <= p < |r| && r[p] == x;
      assert xs[|xs| - 1 - p] == x;
    }
    forall x | x in xs
      ensures x in r
    {
      var q :| 0 <= q < |xs| && xs[q] == x;
      assert r[|xs| - 1 - q] == x;
    }
  }

  /** The recorded positions, once reversed, are exactly the non-matching
      ones. */
  lemma ReversedMisses(s: seq<Entry>, term: string)
    ensures forall k :: 0 <= k < |s| ==> (k in Reversed(MissIndices(s, term, |s|)) <==> !Matches(s[k], term))
  {
    var miss := MissIndices(s, term, |s|);
    MissIndicesSpec(s, term, |s|);
    MissIndicesComplete(s, term, |s|);
    ReversedMembers(miss);
    forall k | 0 <= k < |s| && k in miss
      ensures !Matches(s[k], term)
    {
      var p :| 0 <= p < |miss| && miss[p] == k;
    }
  }

  /** After reversal the recorded positions are valid positions running
      strictly from the highest down. */
  lemma ReversedMissesDescend(s: seq<Entry>, term: string)
    ensures forall p :: 0 <= p < |Reversed(MissIndices(s, term, |s|))| ==>
              0 <= Reversed(MissIndices(s, term, |s|))[p] < |s|
    ensures forall p, q :: 0 <= p < q < |Reversed(MissIndices(s, term, |s|))| ==>
              Reversed(MissIndices(s, term, |s|))[p] > Reversed(MissIndices(s, term, |s|))[q]
  {
    MissIndicesSpec(s, term, |s|);
  }

  /** Array.prototype.splice(k, 1) for a non-negative start: removes the
      element at k, and does nothing when k is past the end. */
  function Splice<T>(s: seq<T>, k: int): seq<T>
    requires 0 <= k
  {
    if k < |s| then s[..k] + s[k + 1..] else s
  }

  /** Splicing at an existing position shortens the sequence by one: the
      elements before k stay where they are and the later ones move down by
      one; past the end nothing changes. */
  lemma SpliceShifts<T>(s: seq<T>, k: nat)
    ensures k < |s| ==> |Splice(s, k)| == |s| - 1 &&
                        (forall j :: 0 <= j < k ==> Splice(s, k)[j] == s[j]) &&
                        (forall j :: k <= j < |s| - 1 ==> Splice(s, k)[j] == s[j + 1])
    ensures k >= |s| ==> Splice(s, k) == s
  {
  }

  /** The elements of s at positions i and after whose position is not
      recorded in D. */
  function WithoutFrom<T>(s: seq<T>, D: seq<int>, i: nat): seq<T>
    decreases |s| - i
  {
    if i >= |s| then []
    else (if i in D then [] else [s[i]]) + WithoutFrom(s, D, i + 1)
  }

  /** The elements of s whose position is not recorded in D, in order. */
  function Without<T>(s: seq<T>, D: seq<int>): seq<T>
  {
    WithoutFrom(s, D, 0)
  }

  /** With nothing recorded, everything is kept. */
  lemma WithoutNothing<T>(s: seq<T>)
    ensures Without(s, []) == s
  {
    WithoutFromKeeps(s, [], 0, |s|);
  }

  /** A stretch of positions none of which is recorded is kept whole. */
  lemma {:induction false} WithoutFromKeeps<T>(s: seq<T>, D: seq<int>, i: nat, p: nat)
    requires i <= p <= |s|
    requires forall k :: i <= k < p ==> k !in D
    ensures WithoutFrom(s, D, i) == s[i..p] + WithoutFrom(s, D, p)
    decreases p - i
  {
    if i < p {
      WithoutFromKeeps(s, D, i + 1, p);
      assert i !in D;
      calc {
        WithoutFrom(s, D, i);
        [s[i]] + WithoutFrom(s, D, i + 1);
        [s[i]] + (s[i + 1..p] + WithoutFrom(s, D, p));
        { assert s[i..p] == [s[i]] + s[i + 1..p]; }
        s[i..p] + WithoutFrom(s, D, p);
      }
    }
  }

  /** Only the recorded positions at or after i matter to WithoutFrom. */
  lemma {:induction false} WithoutFromAgree<T>(s: seq<T>, D1: seq<int>, D2: seq<int>, i: nat)
    requires forall k :: i <= k < |s| ==> (k in D1 <==> k in D2)
    ensures WithoutFrom(s, D1, i) == WithoutFrom(s, D2, i)
    decreases |s| - i
  {
    if i < |s| {
      WithoutFromAgree(s, D1, D2, i + 1);
    }
  }

  /** Splicing out position r[i], when every position already removed
      (r[..i]) lies above it, is the same as also recording r[i]: the
      positions below r[i] have not moved, so the splice removes exactly
      the element at r[i]. */
  lemma SpliceBelowRemoved<T>(s: seq<T>, r: seq<int>, i: nat)
    requires i < |r| && 0 <= r[i] < |s|
    requires forall p :: 0 <= p < i ==> r[p] > r[i]
    ensures Without(s, r[..i + 1]) == Splice(Without(s, r[..i]), r[i])
  {
    var D, D', k := r[..i], r[..i + 1], r[i];
    assert D' == D + [k];
    WithoutFromKeeps(s, D, 0, k);
    WithoutFromKeeps(s, D', 0, k);
    assert k !in D;
    WithoutFromAgree(s, D, D', k + 1);
    var tail := WithoutFrom(s, D, k + 1);
    assert Without(s, D) == s[..k] + [s[k]] + tail;
    assert Without(s, D') == s[..k] + tail;
  }

  /** Removing exactly the non-matching positions leaves the matching
      entries in their original order. */
  lemma {:induction false} WithoutMissesIsSurvivors(s: seq<Entry>, term: string, D: seq<int>, i: nat)
    requires i <= |s|
    requires forall k :: i <= k < |s| ==> (k in D <==> !Matches(s[k], term))
    ensures WithoutFrom(s, D, i) == Survivors(s[i..], term)
    decreases |s| - i
  {
    if i < |s| {
      WithoutMissesIsSurvivors(s, term, D, i + 1);
      assert s[i..][1..] == s[i + 1..];
    }
  }

  /** The filter list without every identifier recorded in drop, keeping
      the order of the rest. */
  function KeepIds(f: seq<string>, drop: seq<string>): (r: seq<string>)
    ensures |r| <= |f|
    ensures forall y :: y in r <==> y in f && y !in drop
  {
    if f == [] then []
    else (if f[0] in drop then [] else [f[0]]) + KeepIds(f[1..], drop)
  }

  /** The identifiers left in the filter list keep their relative order. */
  lemma {:induction false} KeepIdsOrder(f: seq<string>, drop: seq<string>)
    ensures Subsequence(KeepIds(f, drop), f)
  {
    if f != [] {
      KeepIdsOrder(f[1..], drop);
      var r := KeepIds(f, drop);
      if f[0] in drop {
        assert r == KeepIds(f[1..], drop);
      } else {
        assert r[0] == f[0] && r[1..] == KeepIds(f[1..], drop);
      }
    }
  }

  /** observableArray.remove(x): every occurrence of x leaves the list. */
  function Remove(f: seq<string>, x: string): (r: seq<string>)
    ensures x !in r
    ensures forall y :: y != x ==> (y in r <==> y in f)
  {
    KeepIds(f, [x])
  }

  /** Removing an identifier that is not in the list changes nothing. */
  lemma {:induction false} RemoveAbsent(f: seq<string>, x: string)
    requires x !in f
    ensures Remove(f, x) == f
  {
    if f != [] {
      RemoveAbsent(f[1..], x);
      assert f == [f[0]] + f[1..];
    }
  }

  /** Removing an identifier that is in the list shortens it. */
  lemma {:induction false} RemovePresent(f: seq<string>, x: string)
    requires x in f
    ensures |Remove(f, x)| < |f|
  {
    if f[0] != x {
      RemovePresent(f[1..], x);
    }
  }

  /** Removing one identifier after another is removing them all at once. */
  lemma {:induction false} KeepIdsThenRemove(f: seq<string>, drop: seq<string>, x: string)
    ensures Remove(KeepIds(f, drop), x) == KeepIds(f, drop + [x])
  {
    if f != [] {
      var rest := KeepIds(f[1..], drop);
      KeepIdsThenRemove(f[1..], drop, x);
      if f[0] in drop {
        assert KeepIds(f, drop) == rest;
      } else {
        assert KeepIds(f, drop) == [f[0]] + rest;
        assert ([f[0]] + rest)[1..] == rest;
      }
    }
  }

  /** Nothing to drop leaves the filter list as it was. */
  lemma {:induction false} KeepIdsNothing(f: seq<string>)
    ensures KeepIds(f, []) == f
  {
    if f != [] {
      KeepIdsNothing(f[1..]);
      assert f == [f[0]] + f[1..];
    }
  }

  /** The identifiers of the non-matching entries, in catalog order: what
      the scan passes to remove. */
  function PrunedIds(s: seq<Entry>, term: string): seq<string>
  {
    if s == [] then []
    else PrunedIds(s[..|s| - 1], term) + (if Matches(s[|s| - 1], term) then [] else [Id(s[|s| - 1])])
  }

  /** The identifier of every non-matching entry is pruned. */
  lemma {:induction false} PrunedIdsMisses(s: seq<Entry>, term: string)
    ensures forall k :: 0 <= k < |s| && !Matches(s[k], term) ==> Id(s[k]) in PrunedIds(s, term)
  {
    if s != [] {
      var init := s[..|s| - 1];
      PrunedIdsMisses(init, term);
      assert forall k :: 0 <= k < |init| ==> init[k] == s[k];
    }
  }

  /** Every pruned identifier is the identifier of a non-matching entry,
      so an entry that matches never has its identifier pruned. */
  lemma {:induction false} PrunedIdsSpareMatches(s: seq<Entry>, term: string, e: Entry)
    requires Matches(e, term)
    ensures Id(e) !in PrunedIds(s, term)
  {
    if s != [] {
      PrunedIdsSpareMatches(s[..|s| - 1], term, e);
    }
  }

  /** One step of the scan: taking entry i into account removes its
      identifier from the filter list exactly when it does not match. */
  lemma ScanStep(f: seq<string>, s: seq<Entry>, term: string, i: nat)
    requires i < |s|
    ensures KeepIds(f, PrunedIds(s[..i + 1], term)) ==
              if Matches(s[i], term) then KeepIds(f, PrunedIds(s[..i], term))
              else Remove(KeepIds(f, PrunedIds(s[..i], term)), Id(s[i]))
  {
    var done := PrunedIds(s[..i], term);
    assert s[..i + 1][..i] == s[..i];
    if Matches(s[i], term) {
      assert PrunedIds(s[..i + 1], term) == done + [];
      assert done + [] == done;
    } else {
      assert PrunedIds(s[..i + 1], term) == done + [Id(s[i])];
      KeepIdsThenRemove(f, done, Id(s[i]));
    }
  }

  /** The filter list a search leaves: no identifier of a non-matching
      entry is left in it, and the identifier of a matching entry is left
      in it exactly when it was there before. */
  lemma SearchFilter(f: seq<string>, s: seq<Entry>, term: string)
    ensures forall k :: 0 <= k < |s| && !Matches(s[k], term) ==> Id(s[k]) !in KeepIds(f, PrunedIds(s, term))
    ensures forall e :: Matches(e, term) ==> (Id(e) in KeepIds(f, PrunedIds(s, term)) <==> Id(e) in f)
  {
    PrunedIdsMisses(s, term);
    forall e | Matches(e, term)
      ensures Id(e) !in PrunedIds(s, term)
    {
      PrunedIdsSpareMatches(s, term, e);
    }
  }

  /** With the empty term nothing is pruned. */
  lemma {:induction false} PrunedIdsEmptyTerm(s: seq<Entry>)
    ensures PrunedIds(s, "") == []
  {
    if s != [] {
      MatchesEmptyTerm(s[|s| - 1]);
      PrunedIdsEmptyTerm(s[..|s| - 1]);
    }
  }
}
