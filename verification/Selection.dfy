/** Choosing non-overlapping spans among all candidate hits, and replacing them in one pass. */
module Selection {
  import opened Text
  import opened Occurrences

  type Span = Hit

  /** Strict order of the sort key: earlier start, then longer, then smaller rule id. */
  predicate Before(a: Hit, b: Hit) {
    || a.start < b.start
    || (a.start == b.start && (
          || Length(a) > Length(b)
          || (Length(a) == Length(b) && StringLess(a.ruleId, b.ruleId))))
  }

  function Length(h: Hit): int {
    h.end - h.start
  }

  predicate NonEmptyHits(raw: seq<Hit>) {
    forall h :: h in raw ==> h.start < h.end
  }

  // ---------- Specification: recursive leftmost, longest, least rule id ----------

  /** The first hit, in list order, that no other hit comes before. */
  function Best(raw: seq<Hit>): (best: Hit)
    requires raw != []
    ensures best in raw
    ensures forall h :: h in raw ==> !Before(h, best)
  {
    var n := |raw| - 1;
    StringLessIrreflexive(raw[n].ruleId);
    if n == 0 then raw[0]
    else
      var best := Best(raw[..n]);
      assert raw == raw[..n] + [raw[n]];
      if Before(raw[n], best) then
        BeforeExcludes(raw[..n], raw[n], best);
        raw[n]
      else best
  }

  lemma BeforeExcludes(raw: seq<Hit>, x: Hit, best: Hit)
    requires Before(x, best) && forall h :: h in raw ==> !Before(h, best)
    ensures forall h :: h in raw ==> !Before(h, x)
  {
    forall h | h in raw && Before(h, x) ensures false {
      BeforeTransitive(h, x, best);
    }
  }

  lemma BeforeTransitive(a: Hit, b: Hit, c: Hit)
    requires Before(a, b) && Before(b, c)
    ensures Before(a, c)
  {
    if StringLess(a.ruleId, b.ruleId) && StringLess(b.ruleId, c.ruleId) {
      StringLessTransitive(a.ruleId, b.ruleId, c.ruleId);
    }
  }

  /** "No later than" is transitive as well: the order is a weak order. */
  lemma NotAfterTransitive(a: Hit, b: Hit, c: Hit)
    requires !Before(b, a) && !Before(c, b)
    ensures !Before(c, a)
  {
    if Before(c, a) {
      StringLessTotal(a.ruleId, b.ruleId);
      StringLessTotal(b.ruleId, c.ruleId);
      if Before(a, b) {
        BeforeTransitive(c, a, b);
      }
    }
  }

  function StartingFrom(raw: seq<Hit>, cursor: nat): (r: seq<Hit>)
    ensures forall h :: h in r ==> h in raw && h.start >= cursor
  {
    if raw == [] then []
    else
      var n := |raw| - 1;
      assert raw == raw[..n] + [raw[n]];
      StartingFrom(raw[..n], cursor) + if raw[n].start >= cursor then [raw[n]] else []
  }

  lemma InStartingFrom(raw: seq<Hit>, cursor: nat)
    ensures forall h :: h in StartingFrom(raw, cursor) <==> h in raw && h.start >= cursor
  {
    if raw != [] {
      assert raw == raw[..|raw| - 1] + [raw[|raw| - 1]];
      InStartingFrom(raw[..|raw| - 1], cursor);
    }
  }

  lemma StartingFromShrinks(raw: seq<Hit>, cursor: nat)
    ensures |StartingFrom(raw, cursor)| <= |raw|
    ensures forall h :: h in raw && h.start < cursor ==> |StartingFrom(raw, cursor)| < |raw|
  {
    if raw != [] {
      assert raw == raw[..|raw| - 1] + [raw[|raw| - 1]];
      StartingFromShrinks(raw[..|raw| - 1], cursor);
    }
  }

  /** Take the best hit, then go on with the hits that start after it ends. */
  function LeftmostLongest(raw: seq<Hit>): seq<Span>
    requires NonEmptyHits(raw)
    decreases |raw|
  {
    if raw == [] then []
    else
      var best := Best(raw);
      StartingFromShrinks(raw, best.end);
      [best] + LeftmostLongest(StartingFrom(raw, best.end))
  }

  // ---------- The sort the implementation calls: stable, by key ----------

  ghost predicate IsSorted(s: seq<Hit>) {
    forall i, j :: 0 <= i < j < |s| ==> !Before(s[j], s[i])
  }

  function Insert(s: seq<Hit>, x: Hit): (r: seq<Hit>)
    ensures forall h :: h in r <==> h in s || h == x
  {
    var n := |s| - 1;
    if s == [] then [x]
    else
      assert s == s[..n] + [s[n]];
      if Before(x, s[n]) then Insert(s[..n], x) + [s[n]] else s + [x]
  }

  function StableSort(raw: seq<Hit>): (r: seq<Hit>)
    ensures forall h :: h in r <==> h in raw
  {
    if raw == [] then []
    else
      var n := |raw| - 1;
      assert raw == raw[..n] + [raw[n]];
      Insert(StableSort(raw[..n]), raw[n])
  }

  lemma {:induction false} InsertSorted(s: seq<Hit>, x: Hit)
    requires IsSorted(s)
    ensures IsSorted(Insert(s, x))
  {
    if s != [] {
      var n := |s| - 1;
      if Before(x, s[n]) {
        InsertSorted(s[..n], x);
        var front := Insert(s[..n], x);
        forall h | h in front ensures !Before(s[n], h) {
          if h == x {
            if Before(s[n], x) {
              BeforeTransitive(x, s[n], x);
              StringLessIrreflexive(x.ruleId);
            }
          }
        }
      } else {
        forall i | 0 <= i < |s| ensures !Before(x, s[i]) {
          if i < n {
            NotAfterTransitive(s[i], s[n], x);
          }
        }
      }
    }
  }

  lemma SortSorted(raw: seq<Hit>)
    ensures IsSorted(StableSort(raw))
  {
    if raw != [] {
      SortSorted(raw[..|raw| - 1]);
      InsertSorted(StableSort(raw[..|raw| - 1]), raw[|raw| - 1]);
    }
  }

  lemma BestOfSorted(s: seq<Hit>)
    requires IsSorted(s) && s != []
    ensures Best(s) == s[0]
  {
    if |s| > 1 {
      BestOfSorted(s[..|s| - 1]);
    }
  }

  lemma InsertHead(s: seq<Hit>, x: Hit)
    requires IsSorted(s)
    ensures Insert(s, x)[0] == if s == [] || Before(x, s[0]) then x else s[0]
  {
    if s != [] {
      var n := |s| - 1;
      if Before(x, s[n]) {
        InsertHead(s[..n], x);
      } else if Before(x, s[0]) {
        NotAfterTransitive(s[0], s[n], x);
      }
    }
  }

  lemma {:induction false} SortKeepsBest(raw: seq<Hit>)
    requires raw != []
    ensures StableSort(raw)[0] == Best(raw)
  {
    var n := |raw| - 1;
    SortSorted(raw[..n]);
    InsertHead(StableSort(raw[..n]), raw[n]);
    if n > 0 {
      SortKeepsBest(raw[..n]);
    }
  }

  lemma {:induction false} StartingFromAppend(a: seq<Hit>, b: seq<Hit>, cursor: nat)
    ensures StartingFrom(a + b, cursor) == StartingFrom(a, cursor) + StartingFrom(b, cursor)
  {
    if b == [] {
      assert a + b == a;
    } else {
      var n := |b| - 1;
      var front, last := b[..n], b[n];
      assert b == front + [last];
      StartingFromAppend(a, front, cursor);
      StartingFromSnoc(a + front, last, cursor);
      StartingFromSnoc(front, last, cursor);
      hide *;
      Regroup(a, front, [last]);
      Regroup(StartingFrom(a, cursor), StartingFrom(front, cursor), [last]);
    }
  }

  lemma Regroup<T>(a: seq<T>, b: seq<T>, c: seq<T>)
    ensures a + b + c == a + (b + c)
  {
  }

  lemma StartingFromSnoc(s: seq<Hit>, y: Hit, cursor: nat)
    ensures StartingFrom(s + [y], cursor) == if y.start >= cursor then StartingFrom(s, cursor) + [y] else StartingFrom(s, cursor)
  {
    assert (s + [y])[..|s|] == s;
    assert StartingFrom(s, cursor) + [] == StartingFrom(s, cursor);
  }

  lemma InsertSnoc(s: seq<Hit>, y: Hit, x: Hit)
    ensures Insert(s + [y], x) == if Before(x, y) then Insert(s, x) + [y] else s + [y] + [x]
  {
    assert (s + [y])[..|s|] == s;
  }

  /** Dropping early hits commutes with inserting one more. */
  lemma {:induction false} StartingFromInsert(s: seq<Hit>, x: Hit, cursor: nat)
    requires IsSorted(s)
    ensures StartingFrom(Insert(s, x), cursor)
         == if x.start >= cursor then Insert(StartingFrom(s, cursor), x) else StartingFrom(s, cursor)
  {
    if s == [] {
      assert StartingFrom([x], cursor) == if x.start >= cursor then [x] else [];
    } else {
      var n := |s| - 1;
      var front, y := s[..n], s[n];
      assert s == front + [y];
      StartingFromSnoc(front, y, cursor);
      InsertSnoc(front, y, x);
      if Before(x, y) {
        hide StartingFrom, Insert, IsSorted;
        StartingFromInsert(front, x, cursor);
        StartingFromSnoc(Insert(front, x), y, cursor);
        InsertSnoc(StartingFrom(front, cursor), y, x);
      } else {
        NoneAfterLast(s, x);
        hide StartingFrom, Insert, IsSorted, Before;
        assert front + [y] + [x] == s + [x];
        StartingFromSnoc(s, x, cursor);
      }
    }
  }

  lemma NoneAfterLast(s: seq<Hit>, x: Hit)
    requires IsSorted(s) && s != [] && !Before(x, s[|s| - 1])
    ensures forall h :: h in s ==> !Before(x, h)
  {
    forall h | h in s ensures !Before(x, h) {
      var i :| 0 <= i < |s| && s[i] == h;
      if i < |s| - 1 {
        NotAfterTransitive(s[i], s[|s| - 1], x);
      }
    }
  }

  lemma SortStartingFromStep(front: seq<Hit>, x: Hit, cursor: nat)
    requires StartingFrom(StableSort(front), cursor) == StableSort(StartingFrom(front, cursor))
    ensures StartingFrom(Insert(StableSort(front), x), cursor)
         == StableSort(StartingFrom(front, cursor) + if x.start >= cursor then [x] else [])
  {
    hide StartingFrom, Insert, Before;
    SortSorted(front);
    StartingFromInsert(StableSort(front), x, cursor);
    assert StartingFrom(front, cursor) + [] == StartingFrom(front, cursor);
  }

  /** Sorting and dropping commute: the sort is stable. */
  lemma {:induction false} SortStartingFrom(raw: seq<Hit>, cursor: nat)
    ensures StartingFrom(StableSort(raw), cursor) == StableSort(StartingFrom(raw, cursor))
  {
    hide Insert, Before;
    if raw != [] {
      var n := |raw| - 1;
      SortStartingFrom(raw[..n], cursor);
      SortStartingFromStep(raw[..n], raw[n], cursor);
    }
  }

  lemma {:induction false} SortKeepsChoice(raw: seq<Hit>)
    requires NonEmptyHits(raw)
    ensures LeftmostLongest(StableSort(raw)) == LeftmostLongest(raw)
    decreases |raw|
  {
    if raw != [] {
      SortKeepsBest(raw);
      SortSorted(raw);
      BestOfSorted(StableSort(raw));
      var rest := StartingFrom(raw, Best(raw).end);
      SortStartingFrom(raw, Best(raw).end);
      StartingFromShrinks(raw, Best(raw).end);
      SortKeepsChoice(rest);
    }
  }

  lemma StartingFromTwice(s: seq<Hit>, a: nat, b: nat)
    requires a <= b
    ensures StartingFrom(StartingFrom(s, a), b) == StartingFrom(s, b)
  {
    if s != [] {
      StartingFromTwice(s[..|s| - 1], a, b);
      StartingFromAppend(StartingFrom(s[..|s| - 1], a), if s[|s| - 1].start >= a then [s[|s| - 1]] else [], b);
    }
  }

  lemma StartingFromSorted(s: seq<Hit>, cursor: nat)
    requires IsSorted(s)
    ensures IsSorted(StartingFrom(s, cursor))
  {
    if s != [] {
      var n := |s| - 1;
      StartingFromSorted(s[..n], cursor);
      forall h | h in s[..n] ensures !Before(s[n], h) {
      }
    }
  }

  /** One pass over the sorted hits makes the recursive choice. */
  method Select(raw: seq<Hit>) returns (selected: seq<Span>)
    requires NonEmptyHits(raw)
    ensures selected == LeftmostLongest(raw)
  {
    hide LeftmostLongest, StartingFrom, StableSort, Before;
    var ordered := StableSort(raw);
    SortKeepsChoice(raw);
    SortSorted(raw);
    selected := [];
    var cursor := 0;
    AllStartFromZero(ordered);
    for k := 0 to |ordered|
      invariant selected + LeftmostLongest(StartingFrom(ordered[k..], cursor)) == LeftmostLongest(raw)
    {
      SelectStep(ordered[k..], cursor);
      assert ordered[k..][1..] == ordered[k + 1..];
      if ordered[k].start < cursor {
        continue;
      }
      selected := selected + [ordered[k]];
      cursor := ordered[k].end;
    }
    NoneLeft(cursor);
  }

  lemma NoneLeft(cursor: nat)
    ensures StartingFrom([], cursor) == [] && LeftmostLongest([]) == []
  {
  }

  lemma AllStartFromZero(s: seq<Hit>)
    ensures StartingFrom(s, 0) == s
  {
  }

  lemma SelectStep(s: seq<Hit>, cursor: nat)
    requires IsSorted(s) && s != [] && NonEmptyHits(s)
    ensures s[0].start < cursor ==> StartingFrom(s, cursor) == StartingFrom(s[1..], cursor)
    ensures s[0].start >= cursor ==>
      LeftmostLongest(StartingFrom(s, cursor)) == [s[0]] + LeftmostLongest(StartingFrom(s[1..], s[0].end))
  {
    hide LeftmostLongest, StartingFrom, Best, Before;
    StartingFromCons(s, cursor);
    if s[0].start >= cursor {
      var rest := StartingFrom(s, cursor);
      StartingFromSorted(s, cursor);
      BestOfSorted(rest);
      StartingFromTwice(s, cursor, s[0].end);
      StartingFromCons(s, s[0].end);
      ChooseFirst(rest, s[0]);
    }
  }

  lemma ChooseFirst(rest: seq<Hit>, first: Hit)
    requires NonEmptyHits(rest) && rest != [] && Best(rest) == first
    ensures LeftmostLongest(rest) == [first] + LeftmostLongest(StartingFrom(rest, first.end))
  {
  }

  lemma StartingFromCons(s: seq<Hit>, cursor: nat)
    requires s != []
    ensures StartingFrom(s, cursor) ==
      if s[0].start >= cursor then [s[0]] + StartingFrom(s[1..], cursor) else StartingFrom(s[1..], cursor)
  {
    assert s == [s[0]] + s[1..];
    StartingFromAppend([s[0]], s[1..], cursor);
    assert [] + StartingFrom(s[1..], cursor) == StartingFrom(s[1..], cursor);
  }
}
