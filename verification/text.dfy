/** String operations the map widget relies on: ASCII case folding
    (toLowerCase), substring search (indexOf), and the comma join/split pair
    that turns a catalog entry into a checkbox identifier and back. */
module Text {

  /** Case folding of one character, restricted to ASCII letters. */
  function Lower(c: char): (r: char)
    ensures 'A' <= c <= 'Z' ==> r as int == c as int + 32
    ensures !('A' <= c <= 'Z') ==> r == c
    ensures !('A' <= r <= 'Z')
  {
    if 'A' <= c <= 'Z' then (c as int + 32) as char else c
  }

  /** toLowerCase over a whole string, character by character. */
  function LowerStr(s: string): (r: string)
    ensures |r| == |s|
    ensures forall i :: 0 <= i < |s| ==> r[i] == Lower(s[i])
  {
    if s == [] then [] else [Lower(s[0])] + LowerStr(s[1..])
  }

  /** Folding twice is folding once. */
  lemma LowerStrIdempotent(s: string)
    ensures LowerStr(LowerStr(s)) == LowerStr(s)
  {
    var once := LowerStr(s);
    var twice := LowerStr(once);
    forall i | 0 <= i < |s|
      ensures twice[i] == once[i]
    {
      assert !('A' <= once[i] <= 'Z');
    }
  }

  /** t occurs in s starting at position k. */
  predicate OccursAt(s: string, t: string, k: int)
  {
    0 <= k && k + |t| <= |s| && s[k..k + |t|] == t
  }

  predicate Contains(s: string, t: string)
  {
    exists k :: 0 <= k <= |s| && OccursAt(s, t, k)
  }

  /** t is a suffix of s. */
  predicate EndsWith(s: string, t: string)
  {
    |t| <= |s| && s[|s| - |t|..] == t
  }

  /** indexOf searching from position `from`: the first occurrence at or
      after `from`, or -1 when there is none. */
  function IndexOfFrom(s: string, t: string, from: nat): (r: int)
    ensures r == -1 || (from <= r && OccursAt(s, t, r))
    ensures r == -1 ==> forall k :: from <= k ==> !OccursAt(s, t, k)
    ensures r >= 0 ==> forall k :: from <= k < r ==> !OccursAt(s, t, k)
    decreases |s| - from
  {
    if from + |t| > |s| then -1
    else if s[from..from + |t|] == t then from
    else IndexOfFrom(s, t, from + 1)
  }

  /** String.prototype.indexOf: non-negative exactly when t is a substring
      of s, and then the first position where it occurs. */
  function IndexOf(s: string, t: string): (r: int)
    ensures r >= 0 <==> Contains(s, t)
    ensures r >= 0 ==> OccursAt(s, t, r) && forall k :: 0 <= k < r ==> !OccursAt(s, t, k)
    ensures r < 0 ==> r == -1
  {
    IndexOfFrom(s, t, 0)
  }

  /** The empty string occurs at position 0 of every string. */
  lemma IndexOfEmpty(s: string)
    ensures IndexOf(s, "") == 0
  {
    assert OccursAt(s, "", 0);
  }

  /** Array.prototype.join with its default separator ",". */
  function Join(fields: seq<string>): string
  {
    if |fields| == 0 then ""
    else if |fields| == 1 then fields[0]
    else fields[0] + "," + Join(fields[1..])
  }

  /** String.prototype.split(','): the pieces between commas, at least one. */
  function Split(s: string): (r: seq<string>)
    ensures |r| >= 1
    ensures forall k :: 0 <= k < |r| ==> ',' !in r[k]
  {
    if s == [] then [""]
    else if s[0] == ',' then [""] + Split(s[1..])
    else
      var rest := Split(s[1..]);
      [[s[0]] + rest[0]] + rest[1..]
  }

  /** A comma-free prefix glues onto the first piece of the split. */
  lemma {:induction false} SplitCommaFreePrefix(a: string, s: string)
    requires ',' !in a
    ensures Split(a + s) == [a + Split(s)[0]] + Split(s)[1..]
  {
    if a != [] {
      assert (a + s)[0] == a[0];
      assert (a + s)[1..] == a[1..] + s;
      SplitCommaFreePrefix(a[1..], s);
      assert [a[0]] + (a[1..] + Split(s)[0]) == a + Split(s)[0];
    } else {
      assert a + s == s && a + Split(s)[0] == Split(s)[0];
      assert Split(s) == [Split(s)[0]] + Split(s)[1..];
    }
  }

  /** Round trip: joining comma-free fields and splitting on ',' gives the
      fields back. */
  lemma {:induction false} SplitJoin(fields: seq<string>)
    requires |fields| >= 1
    requires forall k :: 0 <= k < |fields| ==> ',' !in fields[k]
    ensures Split(Join(fields)) == fields
  {
    if |fields| == 1 {
      SplitCommaFreePrefix(fields[0], "");
      assert fields[0] + "" == fields[0];
    } else {
      var tail := Join(fields[1..]);
      SplitJoin(fields[1..]);
      assert fields[0] + "," + tail == fields[0] + ("," + tail);
      SplitCommaFreePrefix(fields[0], "," + tail);
      assert ("," + tail)[1..] == tail;
      assert fields[0] + "" == fields[0];
      assert fields == [fields[0]] + fields[1..];
    }
  }

  /** The other round trip: splitting any string on ',' and joining the
      pieces with ',' gives the string back. */
  lemma {:induction false} JoinSplit(s: string)
    ensures Join(Split(s)) == s
  {
    if s != [] {
      var rest := Split(s[1..]);
      JoinSplit(s[1..]);
      if s[0] == ',' {
        assert Split(s) == [""] + rest;
        assert ([""] + rest)[1..] == rest;
        assert s == [','] + s[1..];
      } else {
        var first := [s[0]] + rest[0];
        assert Split(s) == [first] + rest[1..];
        if |rest| == 1 {
          assert s == [s[0]] + s[1..];
        } else {
          assert ([first] + rest[1..])[1..] == rest[1..];
          assert rest == [rest[0]] + rest[1..];
          assert s == [s[0]] + (rest[0] + "," + Join(rest[1..]));
        }
      }
    }
  }
}
