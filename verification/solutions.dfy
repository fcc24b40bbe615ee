/**
 * Solution records, the list-view rows built from them, and the filter the
 * dialog applies to its cache as the user types.
 */
module Solutions {
  import opened Text

  /** A solution as the dialog reads it: `friendlyname`, `version` and the publisher reference's name. */
  datatype Solution = Solution(name: string, version: string, publisherName: string)

  /** A list-view row: its text, its two sub-items, and the record kept in its `Tag`. */
  datatype Row = Row(name: string, version: string, publisher: string, tag: Solution)

  /** The row displays the three columns of `s` and is tagged with `s` itself. */
  predicate Shows(row: Row, s: Solution) {
    row.name == s.name && row.version == s.version && row.publisher == s.publisherName && row.tag == s
  }

  /** The row the handlers add for `s`: its three columns, and `s` as its tag. */
  function MakeRow(s: Solution): (row: Row)
    ensures Shows(row, s)
  {
    Row(s.name, s.version, s.publisherName, s)
  }

  /** One row per record, in order, each showing its record. */
  function Rows(records: seq<Solution>): (rows: seq<Row>)
    ensures |rows| == |records|
    ensures forall i :: 0 <= i < |records| ==> Shows(rows[i], records[i])
  {
    seq(|records|, i requires 0 <= i < |records| => MakeRow(records[i]))
  }

  /** The records held in the rows' tags, in row order. */
  function Tags(rows: seq<Row>): (tags: seq<Solution>)
    ensures |tags| == |rows|
  {
    seq(|rows|, i requires 0 <= i < |rows| => rows[i].tag)
  }

  /** The tags of the rows built from some records give those records back. */
  lemma TagsOfRows(records: seq<Solution>)
    ensures Tags(Rows(records)) == records
  {
  }

  /** Rows built in two batches are the rows of the two batches joined. */
  lemma RowsAppend(a: seq<Solution>, b: seq<Solution>)
    ensures Rows(a + b) == Rows(a) + Rows(b)
  {
  }

  /** `ToLower().Trim()`, as applied both to the query and to each solution name. */
  function Normalize(s: string): (r: string)
    ensures |r| <= |s|
    ensures r == [] || (!IsWhiteSpace(r[0]) && !IsWhiteSpace(r[|r| - 1]))
  {
    Trim(ToLower(s))
  }

  /** A normalised string holds no upper-case letter. */
  lemma NormalizedHasNoUpper(s: string)
    ensures forall i :: 0 <= i < |Normalize(s)| ==> !IsUpper(Normalize(s)[i])
  {
    var lowered := ToLower(s);
    var r, a := Normalize(s), TrimOffset(lowered);
    forall i | 0 <= i < |r|
      ensures !IsUpper(r[i])
    {
      assert r[i] == lowered[a + i] == LowerChar(s[a + i]);
    }
  }

  /** The match test of the filter: the normalised name contains the query. */
  predicate Matches(s: Solution, query: string)
    ensures Matches(s, query) <==> IsSubstring(query, Normalize(s.name))
  {
    Contains(Normalize(s.name), query)
  }

  /** The filter's predicate on records for a given query. */
  function MatchesQuery(query: string): (keep: Solution -> bool)
    ensures forall s :: keep(s) <==> IsSubstring(query, Normalize(s.name))
  {
    s => Matches(s, query)
  }

  /** LINQ `Where`: the elements that satisfy `keep`, in their original order. */
  function Where<T(!new)>(xs: seq<T>, keep: T -> bool): (r: seq<T>)
    ensures |r| <= |xs|
    ensures forall x :: x in r ==> x in xs
  {
    if xs == [] then []
    else
      (if keep(xs[0]) then [xs[0]] else []) + Where(xs[1..], keep)
  }

  /** An element is in the result of `Where` exactly when it is in `xs` and satisfies `keep`. */
  lemma {:induction false} WhereKeeps<T(!new)>(xs: seq<T>, keep: T -> bool)
    ensures forall x :: x in Where(xs, keep) <==> x in xs && keep(x)
  {
    if xs != [] {
      WhereKeeps(xs[1..], keep);
      assert xs == [xs[0]] + xs[1..];
    }
  }

  /** `Where` keeps every copy of each element that satisfies `keep`, and no copy of any other. */
  lemma {:induction false} WhereCounts<T(!new)>(xs: seq<T>, keep: T -> bool, x: T)
    ensures multiset(Where(xs, keep))[x] == if keep(x) then multiset(xs)[x] else 0
  {
    if xs != [] {
      WhereCounts(xs[1..], keep, x);
      assert xs == [xs[0]] + xs[1..];
    }
  }

  /** Every position moved one place to the right. */
  function Shift(idx: seq<nat>): (r: seq<nat>)
    ensures |r| == |idx| && forall k :: 0 <= k < |idx| ==> r[k] == idx[k] + 1
  {
    seq(|idx|, k requires 0 <= k < |idx| => idx[k] + 1)
  }

  /** The positions of `xs` whose element satisfies `keep`, in increasing order. */
  ghost function Positions<T(!new)>(xs: seq<T>, keep: T -> bool): seq<nat>
  {
    if xs == [] then []
    else (if keep(xs[0]) then [0] else []) + Shift(Positions(xs[1..], keep))
  }

  /** The positions pick the result of `Where` out of `xs`. */
  lemma {:induction false} PositionsPick<T(!new)>(xs: seq<T>, keep: T -> bool)
    ensures |Positions(xs, keep)| == |Where(xs, keep)|
    ensures forall k :: 0 <= k < |Positions(xs, keep)| ==>
      Positions(xs, keep)[k] < |xs| && Where(xs, keep)[k] == xs[Positions(xs, keep)[k]]
  {
    if xs != [] {
      var tail := xs[1..];
      PositionsPick(tail, keep);
      var p, pt := Positions(xs, keep), Positions(tail, keep);
      var w, wt := Where(xs, keep), Where(tail, keep);
      var d := if keep(xs[0]) then 1 else 0;
      assert |p| == d + |pt| && |w| == d + |wt|;
      forall k | d <= k < |p|
        ensures p[k] < |xs| && w[k] == xs[p[k]]
      {
        assert p[k] == pt[k - d] + 1 && w[k] == wt[k - d];
      }
    }
  }

  /** The positions are strictly increasing. */
  lemma {:induction false} PositionsIncrease<T(!new)>(xs: seq<T>, keep: T -> bool)
    ensures forall k, l :: 0 <= k < l < |Positions(xs, keep)| ==> Positions(xs, keep)[k] < Positions(xs, keep)[l]
  {
    if xs != [] {
      PositionsIncrease(xs[1..], keep);
      var p, pt := Positions(xs, keep), Positions(xs[1..], keep);
      var d := if keep(xs[0]) then 1 else 0;
      assert forall k :: d <= k < |p| ==> p[k] == pt[k - d] + 1;
    }
  }

  /** The shifted positions are the old ones plus one. */
  lemma ShiftMembers(idx: seq<nat>)
    ensures forall j :: j in Shift(idx) <==> j >= 1 && j - 1 in idx
  {
    forall j | j in Shift(idx)
      ensures j >= 1 && j - 1 in idx
    {
      var k :| 0 <= k < |idx| && Shift(idx)[k] == j;
    }
    forall j | j >= 1 && j - 1 in idx
      ensures j in Shift(idx)
    {
      var k :| 0 <= k < |idx| && idx[k] == j - 1;
      assert Shift(idx)[k] == j;
    }
  }

  /** A position is listed exactly when its element satisfies `keep`. */
  lemma {:induction false} PositionsExact<T(!new)>(xs: seq<T>, keep: T -> bool)
    ensures forall i :: 0 <= i < |xs| ==> (i in Positions(xs, keep) <==> keep(xs[i]))
  {
    if xs != [] {
      var tail := xs[1..];
      PositionsExact(tail, keep);
      ShiftMembers(Positions(tail, keep));
      forall i | 1 <= i < |xs|
        ensures i in Positions(xs, keep) <==> keep(xs[i])
      {
        assert xs[i] == tail[i - 1];
      }
    }
  }

  /**
   * `Where` keeps exactly the positions whose element satisfies `keep`, in
   * order: there is a strictly increasing list of positions, holding every
   * such position and no other, that picks the result out of `xs`.
   */
  lemma WherePositions<T(!new)>(xs: seq<T>, keep: T -> bool) returns (idx: seq<nat>)
    ensures |idx| == |Where(xs, keep)|
    ensures forall k :: 0 <= k < |idx| ==> idx[k] < |xs| && Where(xs, keep)[k] == xs[idx[k]]
    ensures forall k, l :: 0 <= k < l < |idx| ==> idx[k] < idx[l]
    ensures forall i :: 0 <= i < |xs| ==> (i in idx <==> keep(xs[i]))
  {
    idx := Positions(xs, keep);
    PositionsPick(xs, keep);
    PositionsIncrease(xs, keep);
    PositionsExact(xs, keep);
  }

  /** The query length, in UTF-16 code units, below which the filter shows the whole cache. */
  const MinQueryLength := 3

  /**
   * The records the dialog shows for the text in the filter box: all of
   * them while the normalised text is shorter than three UTF-16 code units,
   * otherwise those whose name contains it.
   */
  function Filter(cache: seq<Solution>, text: string): (r: seq<Solution>)
    ensures Utf16Length(Normalize(text)) < MinQueryLength ==> r == cache
    ensures |r| <= |cache| && forall x :: x in r ==> x in cache
  {
    var query := Normalize(text);
    if Utf16Length(query) < MinQueryLength then cache else Where(cache, MatchesQuery(query))
  }

  /**
   * For a query of three code units or more, a record is shown exactly when
   * it is cached and its normalised name contains the query.
   */
  lemma FilterShowsMatching(cache: seq<Solution>, text: string)
    requires Utf16Length(Normalize(text)) >= MinQueryLength
    ensures forall x :: x in Filter(cache, text) <==> x in cache && Matches(x, Normalize(text))
  {
    WhereKeeps(cache, MatchesQuery(Normalize(text)));
  }

  /**
   * For a query of three code units or more the filter shows exactly the
   * matching records, in cache order: a strictly increasing list of cache
   * positions, holding every matching position and no other, picks the
   * visible records out of the cache.
   */
  lemma FilterPositions(cache: seq<Solution>, text: string) returns (idx: seq<nat>)
    requires Utf16Length(Normalize(text)) >= MinQueryLength
    ensures |idx| == |Filter(cache, text)|
    ensures forall k :: 0 <= k < |idx| ==> idx[k] < |cache| && Filter(cache, text)[k] == cache[idx[k]]
    ensures forall k, l :: 0 <= k < l < |idx| ==> idx[k] < idx[l]
    ensures forall i :: 0 <= i < |cache| ==> (i in idx <==> Matches(cache[i], Normalize(text)))
  {
    idx := WherePositions(cache, MatchesQuery(Normalize(text)));
  }

  /** For a query of three code units or more, every copy of a matching record is shown and no copy of another. */
  lemma FilterCounts(cache: seq<Solution>, text: string, x: Solution)
    requires Utf16Length(Normalize(text)) >= MinQueryLength
    ensures multiset(Filter(cache, text))[x] == if Matches(x, Normalize(text)) then multiset(cache)[x] else 0
  {
    WhereCounts(cache, MatchesQuery(Normalize(text)), x);
  }

  /** Normalising the query a second time changes nothing. */
  lemma NormalizeIdempotent(s: string)
    ensures Normalize(Normalize(s)) == Normalize(s)
  {
    calc {
      Normalize(Normalize(s));
    ==
      Trim(ToLower(Trim(ToLower(s))));
    == { TrimToLowerCommute(ToLower(s)); }
      Trim(Trim(ToLower(ToLower(s))));
    == { ToLowerIdempotent(s); TrimIdempotent(ToLower(s)); }
      Trim(ToLower(s));
    }
  }

  /** The filter ignores the case of the query. */
  lemma FilterIgnoresCase(cache: seq<Solution>, text: string)
    ensures Filter(cache, ToLower(text)) == Filter(cache, text)
  {
    ToLowerIdempotent(text);
  }

  /** The filter ignores white space around the query. */
  lemma FilterIgnoresSurroundingSpace(cache: seq<Solution>, text: string)
    ensures Filter(cache, Trim(text)) == Filter(cache, text)
  {
    calc {
      Normalize(Trim(text));
    ==
      Trim(ToLower(Trim(text)));
    == { TrimToLowerCommute(text); }
      Trim(Trim(ToLower(text)));
    == { TrimIdempotent(ToLower(text)); }
      Normalize(text);
    }
  }
}
