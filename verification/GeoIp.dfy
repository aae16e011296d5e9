/** The country table: ranges compiled from the registry files, merged where they
    touch, and looked up by the rightmost start. */
module GeoIp {
  import opened Basics

  /** Addresses `start` to `end`, both included. */
  datatype Range = Range(start: nat, end: int, cc: string)

  predicate Proper(t: seq<Range>)
  {
    forall i | 0 <= i < |t| :: t[i].start <= t[i].end
  }

  predicate Sorted(t: seq<Range>)
  {
    forall i, j | 0 <= i <= j < |t| :: t[i].start <= t[j].start
  }

  predicate Covers(r: Range, a: nat, cc: string)
  {
    r.start <= a <= r.end && r.cc == cc
  }

  /** Some range of the table says that address `a` is in country `cc`. */
  predicate Denotes(t: seq<Range>, a: nat, cc: string)
  {
    exists i :: 0 <= i < |t| && Covers(t[i], a, cc)
  }

  // ----- parse

  /** The fields of a registry line after parsing its address and count. */
  datatype Line = Line(ipv4: bool, cc: string, start: Option<nat>, count: Option<int>, status: string)

  predicate Alpha(c: char)
  {
    'a' <= c <= 'z' || 'A' <= c <= 'Z'
  }

  function Upper(c: char): char
  {
    if 'a' <= c <= 'z' then c - 'a' + 'A' else c
  }

  predicate Usable(l: Line)
  {
    && l.ipv4 && |l.cc| == 2 && Alpha(l.cc[0]) && Alpha(l.cc[1])
    && (l.status == "allocated" || l.status == "assigned")
    && l.start.Some? && l.count.Some? && l.count.value > 0
  }

  /** The registry gave `count` addresses from `start` on to the country. */
  predicate Delegates(l: Line, a: nat, cc: string)
  {
    && Usable(l) && l.start.value <= a < l.start.value + l.count.value
    && cc == [Upper(l.cc[0]), Upper(l.cc[1])]
  }

  /** Letter `c` of a registry line becomes the capital `u`. */
  predicate Capital(c: char, u: char)
  {
    ('A' <= c <= 'Z' && u == c) || ('a' <= c <= 'z' && u as int == c as int - 32)
  }

  /** What a line delegates, field by field. */
  lemma DelegatesIff(l: Line, a: nat, cc: string)
    ensures Delegates(l, a, cc) <==>
            && l.ipv4 && |l.cc| == |cc| == 2 && Capital(l.cc[0], cc[0]) && Capital(l.cc[1], cc[1])
            && (l.status == "allocated" || l.status == "assigned")
            && l.start.Some? && l.count.Some? && l.start.value <= a <= l.start.value + l.count.value - 1
  {}

  /** The rows say exactly what the lines delegate. */
  ghost predicate FromLines(lines: seq<Line>, rows: seq<Range>)
  {
    && Proper(rows)
    && forall a, cc :: Denotes(rows, a, cc) <==> exists i :: 0 <= i < |lines| && Delegates(lines[i], a, cc)
  }

  /** Two capital letters. */
  predicate Country(cc: string)
  {
    |cc| == 2 && 'A' <= cc[0] <= 'Z' && 'A' <= cc[1] <= 'Z'
  }

  /** Upper case is a capital, the letter itself or the one its place in the alphabet. */
  lemma UpperIsCapital(c: char)
    requires Alpha(c)
    ensures 'A' <= Upper(c) <= 'Z'
    ensures Upper(c) == c || Upper(c) as int - 'A' as int == c as int - 'a' as int
  {}

  method Parse(lines: seq<Line>) returns (rows: seq<Range>)
    ensures FromLines(lines, rows)
    ensures forall i | 0 <= i < |rows| :: Country(rows[i].cc)
  {
    rows := [];
    for i := 0 to |lines|
      invariant Proper(rows) && forall j | 0 <= j < |rows| :: Country(rows[j].cc)
      invariant forall a, cc :: Denotes(rows, a, cc) <==> exists j :: 0 <= j < i && Delegates(lines[j], a, cc)
    {
      var l := lines[i];
      if !l.ipv4 { continue; }
      if |l.cc| != 2 || !Alpha(l.cc[0]) || !Alpha(l.cc[1]) { continue; }
      if l.status != "allocated" && l.status != "assigned" { continue; }
      if l.start.None? || l.count.None? { continue; }
      if l.count.value <= 0 { continue; }
      var r := Range(l.start.value, l.start.value + l.count.value - 1, [Upper(l.cc[0]), Upper(l.cc[1])]);
      DenotesSnoc(rows, r);
      UpperIsCapital(l.cc[0]);
      UpperIsCapital(l.cc[1]);
      assert forall a, cc :: Covers(r, a, cc) <==> Delegates(l, a, cc);
      rows := rows + [r];
    }
  }

  lemma DenotesSnoc(t: seq<Range>, r: Range)
    ensures forall a, cc :: Denotes(t + [r], a, cc) <==> Denotes(t, a, cc) || Covers(r, a, cc)
  {
    forall a, cc ensures Denotes(t + [r], a, cc) <==> Denotes(t, a, cc) || Covers(r, a, cc) {
      DenotesSnocAt(t, r, a, cc);
    }
  }

  lemma DenotesSnocAt(t: seq<Range>, r: Range, a: nat, cc: string)
    ensures Denotes(t + [r], a, cc) <==> Denotes(t, a, cc) || Covers(r, a, cc)
  {
    if Denotes(t, a, cc) {
      var i :| 0 <= i < |t| && Covers(t[i], a, cc);
      assert Covers((t + [r])[i], a, cc);
    }
    if Covers(r, a, cc) { assert Covers((t + [r])[|t|], a, cc); }
  }

  /** Sorting the rows changes nothing they say. */
  lemma SortKeepsMeaning(rows: seq<Range>, sorted: seq<Range>, a: nat, cc: string)
    requires multiset(rows) == multiset(sorted)
    ensures Denotes(rows, a, cc) <==> Denotes(sorted, a, cc)
  {
    if Denotes(rows, a, cc) {
      var i :| 0 <= i < |rows| && Covers(rows[i], a, cc);
      assert rows[i] in multiset(sorted);
    }
    if Denotes(sorted, a, cc) {
      var i :| 0 <= i < |sorted| && Covers(sorted[i], a, cc);
      assert sorted[i] in multiset(rows);
    }
  }

  // ----- merge

  predicate Touches(r: Range, s: Range)
  {
    r.cc == s.cc && s.start == r.end + 1
  }

  /** The table after one more row. */
  function Step(m: seq<Range>, r: Range): seq<Range>
  {
    if m != [] && Touches(m[|m| - 1], r)
    then m[..|m| - 1] + [m[|m| - 1].(end := r.end)]
    else m + [r]
  }

  function Merged(rows: seq<Range>): seq<Range>
  {
    if rows == [] then [] else Step(Merged(rows[..|rows| - 1]), rows[|rows| - 1])
  }

  lemma {:induction false} MergedSnoc(rows: seq<Range>, i: nat)
    requires i < |rows|
    ensures Merged(rows[..i + 1]) == Step(Merged(rows[..i]), rows[i])
  {
    assert rows[..i + 1][..i] == rows[..i];
  }

  method Merge(rows: seq<Range>) returns (merged: seq<Range>)
    ensures merged == Merged(rows)
  {
    merged := [];
    for i := 0 to |rows|
      invariant merged == Merged(rows[..i])
    {
      MergedSnoc(rows, i);
      var r, n := rows[i], |merged|;
      if n > 0 && merged[n - 1].cc == r.cc && r.start == merged[n - 1].end + 1 {
        merged := merged[n - 1 := Range(merged[n - 1].start, r.end, merged[n - 1].cc)];
      } else {
        merged := merged + [r];
      }
    }
    assert rows[..|rows|] == rows;
  }

  lemma StepKeepsMeaning(m: seq<Range>, r: Range, a: nat, cc: string)
    requires Proper(m) && r.start <= r.end
    ensures Denotes(Step(m, r), a, cc) <==> Denotes(m, a, cc) || Covers(r, a, cc)
  {
    if m != [] && Touches(m[|m| - 1], r) {
      var front, last := m[..|m| - 1], m[|m| - 1];
      assert m == front + [last];
      DenotesSnocAt(front, last, a, cc);
      DenotesSnocAt(front, last.(end := r.end), a, cc);
    } else {
      DenotesSnocAt(m, r, a, cc);
    }
  }

  /** Merging changes nothing the table says, for every list of proper ranges. */
  lemma {:induction false} MergeKeepsMeaning(rows: seq<Range>, a: nat, cc: string)
    requires Proper(rows)
    ensures Proper(Merged(rows))
    ensures Denotes(Merged(rows), a, cc) <==> Denotes(rows, a, cc)
  {
    if rows != [] {
      var front, r := rows[..|rows| - 1], rows[|rows| - 1];
      assert rows == front + [r];
      MergeKeepsMeaning(front, a, cc);
      StepKeepsMeaning(Merged(front), r, a, cc);
      DenotesSnocAt(front, r, a, cc);
    }
  }

  predicate Disjoint(t: seq<Range>)
  {
    forall i, j | 0 <= i < j < |t| :: t[i].end < t[j].start
  }

  predicate FullyMerged(t: seq<Range>)
  {
    forall i | 0 <= i < |t| - 1 :: !Touches(t[i], t[i + 1])
  }

  /** The last row decides the end of the merged table. */
  lemma {:induction false} MergedShape(rows: seq<Range>)
    requires Proper(rows) && Sorted(rows)
    ensures var m := Merged(rows);
            && Proper(m) && Sorted(m) && FullyMerged(m)
            && (rows != [] ==> m != [] && m[|m| - 1].end == rows[|rows| - 1].end
                               && m[|m| - 1].start <= rows[|rows| - 1].start)
  {
    if rows != [] {
      var front, r := rows[..|rows| - 1], rows[|rows| - 1];
      MergedShape(front);
      if front != [] { assert front[|front| - 1].start <= r.start; }
      StepShape(Merged(front), r);
    }
  }

  lemma StepShape(m: seq<Range>, r: Range)
    requires Proper(m) && Sorted(m) && FullyMerged(m) && r.start <= r.end
    requires m != [] ==> m[|m| - 1].start <= r.start
    ensures Proper(Step(m, r)) && Sorted(Step(m, r)) && FullyMerged(Step(m, r))
  {
    var n := Step(m, r);
    if m != [] && Touches(m[|m| - 1], r) {
      forall i | 0 <= i < |n| - 1 ensures !Touches(n[i], n[i + 1]) {
        assert !Touches(m[i], m[i + 1]);
      }
    } else {
      forall i | 0 <= i < |n| - 1 ensures !Touches(n[i], n[i + 1]) {
        if i < |m| - 1 { assert !Touches(m[i], m[i + 1]); }
      }
    }
  }

  /** Ranges that do not overlap still do not after merging. */
  lemma {:induction false} MergeKeepsDisjoint(rows: seq<Range>)
    requires Proper(rows) && Sorted(rows) && Disjoint(rows)
    ensures Disjoint(Merged(rows))
  {
    if rows != [] {
      var front, r := rows[..|rows| - 1], rows[|rows| - 1];
      MergeKeepsDisjoint(front);
      MergedShape(front);
      if front != [] { assert front[|front| - 1].end < r.start; }
      var m := Merged(front);
      forall i | 0 <= i < |m| ensures m[i].end < r.start {
        if i < |m| - 1 { assert m[i].end < m[|m| - 1].start; }
      }
      StepDisjoint(m, r);
    }
  }

  lemma StepDisjoint(m: seq<Range>, r: Range)
    requires Disjoint(m) && forall i | 0 <= i < |m| :: m[i].end < r.start
    ensures Disjoint(Step(m, r))
  {}

  // ----- look-up

  /** `country_of`: the rightmost range that starts at or before the address, if it
      reaches that far. */
  function LookUp(t: seq<Range>, a: nat): Option<string>
  {
    if t == [] then None
    else
      var last := t[|t| - 1];
      if last.start <= a then (if a <= last.end then Some(last.cc) else None) else LookUp(t[..|t| - 1], a)
  }

  lemma {:induction false} StepLookUp(m: seq<Range>, r: Range, a: nat)
    requires Proper(m) && r.start <= r.end
    ensures LookUp(Step(m, r), a) ==
            if r.start <= a then (if a <= r.end then Some(r.cc) else None) else LookUp(m, a)
  {
    if m != [] && Touches(m[|m| - 1], r) {
      var front, last := m[..|m| - 1], m[|m| - 1];
      assert Step(m, r)[..|m| - 1] == front;
    } else {
      assert (m + [r])[..|m|] == m;
    }
  }

  /** Every look-up gives the same answer before and after merging, overlapping
      ranges included. */
  lemma {:induction false} MergeKeepsLookUp(rows: seq<Range>, a: nat)
    requires Proper(rows) && Sorted(rows)
    ensures LookUp(Merged(rows), a) == LookUp(rows, a)
  {
    if rows != [] {
      var front := rows[..|rows| - 1];
      MergeKeepsLookUp(front, a);
      MergedShape(front);
      StepLookUp(Merged(front), rows[|rows| - 1], a);
    }
  }

  /** On ranges that do not overlap, a look-up answers exactly what the table says. */
  lemma {:induction false} LookUpIff(t: seq<Range>, a: nat, cc: string)
    requires Proper(t) && Disjoint(t)
    ensures LookUp(t, a) == Some(cc) <==> Denotes(t, a, cc)
  {
    if t != [] {
      var front, last := t[..|t| - 1], t[|t| - 1];
      assert t == front + [last];
      LookUpIff(front, a, cc);
      DenotesSnocAt(front, last, a, cc);
      if last.start <= a {
        forall i | 0 <= i < |front| ensures !Covers(front[i], a, cc) {
          assert t[i].end < last.start;
        }
      }
    }
  }

  /** From registry lines to answers: when the delegations do not overlap, the
      shipped table answers an address with a country exactly when a line of a
      registry delegates it there. `rows` is any result of `Parse`, in any order
      that sorting may leave it. */
  lemma {:induction false} TableAnswersRegistry(lines: seq<Line>, rows: seq<Range>, sorted: seq<Range>,
                                                a: nat, cc: string)
    requires FromLines(lines, rows)
    requires multiset(rows) == multiset(sorted) && Sorted(sorted) && Disjoint(sorted)
    ensures LookUp(Merged(sorted), a) == Some(cc) <==>
            exists i :: 0 <= i < |lines| && Delegates(lines[i], a, cc)
  {
    assert Proper(sorted) by {
      forall i | 0 <= i < |sorted| ensures sorted[i].start <= sorted[i].end {
        assert sorted[i] in multiset(rows);
      }
    }
    SortKeepsMeaning(rows, sorted, a, cc);
    MergeKeepsLookUp(sorted, a);
    LookUpIff(sorted, a, cc);
  }
}
