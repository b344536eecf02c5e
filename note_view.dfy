/**
 * The list the sidebar shows: the notes sorted newest first and, when the
 * search box holds more than whitespace, only those whose lower-cased title
 * or body includes the trimmed, lower-cased query.
 */
module NoteView {
  import opened JsString
  import opened Notes
  import opened NoteSort

  /** `query.trim().toLowerCase()`; it is empty exactly when the query is blank. */
  function NormalizedQuery(query: string): (q: string)
    ensures q == "" <==> NonSpace(query) == []
  {
    TrimEmptyIffBlank(query);
    ToLower(Trim(query))
  }

  /** The search test for one note, against a normalized query. */
  predicate Matches(n: Note, q: string) {
    Includes(ToLower(n.title), q) || Includes(ToLower(n.body), q)
  }

  /** The search test as the callback handed to `filter`. */
  function MatchesQuery(q: string): Note -> bool {
    n => Matches(n, q)
  }

  /** `Array.prototype.filter` over notes. */
  function Filter(s: seq<Note>, keep: Note -> bool): seq<Note> {
    if s == [] then []
    else (if keep(s[0]) then [s[0]] else []) + Filter(s[1..], keep)
  }

  /** It keeps exactly the notes that pass the test, each as often as it occurs, and nothing else. */
  lemma {:induction false} FilterMembers(s: seq<Note>, keep: Note -> bool)
    ensures forall n :: n in Filter(s, keep) <==> n in s && keep(n)
    ensures multiset(Filter(s, keep)) <= multiset(s)
    ensures forall n :: multiset(Filter(s, keep))[n] == if keep(n) then multiset(s)[n] else 0
    ensures |Filter(s, keep)| <= |s|
  {
    if s != [] {
      var head, rest := s[0], s[1..];
      var lead := if keep(head) then [head] else [];
      FilterMembers(rest, keep);
      assert s == [head] + rest;
      FilterCons(head, rest, keep);
      assert multiset(s) == multiset([head]) + multiset(rest);
      assert multiset(Filter(s, keep)) == multiset(lead) + multiset(Filter(rest, keep));
    }
  }

  /** Filtering distributes over concatenation, so the kept notes keep their relative order. */
  lemma {:induction false} FilterAppend(a: seq<Note>, b: seq<Note>, keep: Note -> bool)
    ensures Filter(a + b, keep) == Filter(a, keep) + Filter(b, keep)
  {
    if a == [] {
      assert a + b == b;
      AppendEmpty(Filter(b, keep));
    } else {
      var head, tail := a[0], a[1..];
      var lead := if keep(head) then [head] else [];
      assert a == [head] + tail;
      ConsAppend(head, tail, b);
      FilterAppend(tail, b, keep);
      FilterCons(head, tail + b, keep);
      FilterCons(head, tail, keep);
      AppendAssoc(lead, Filter(tail, keep), Filter(b, keep));
    }
  }

  lemma FilterCons(n: Note, s: seq<Note>, keep: Note -> bool)
    ensures Filter([n] + s, keep) == (if keep(n) then [n] else []) + Filter(s, keep)
  {
    assert ([n] + s)[1..] == s;
  }

  lemma FilterInsertDroppedBehind(x: Note, s: seq<Note>, keep: Note -> bool)
    requires !keep(x) && s != [] && x.updatedAt < s[0].updatedAt
    requires Filter(Insert(x, s[1..]), keep) == Filter(s[1..], keep)
    ensures Filter(Insert(x, s), keep) == Filter(s, keep)
  {
    var head, rest := s[0], s[1..];
    assert s == [head] + rest;
    var lead := if keep(head) then [head] else [];
    InsertBehind(x, head, rest);
    assert Insert(x, s) == [head] + Insert(x, rest);
    FilterCons(head, Insert(x, rest), keep);
    assert Filter(Insert(x, s), keep) == lead + Filter(Insert(x, rest), keep);
    FilterCons(head, rest, keep);
    assert Filter(s, keep) == lead + Filter(rest, keep);
  }

  /** A note the filter drops leaves no trace of where it was inserted. */
  lemma {:induction false} FilterInsertDropped(x: Note, s: seq<Note>, keep: Note -> bool)
    requires !keep(x)
    ensures Filter(Insert(x, s), keep) == Filter(s, keep)
  {
    if s == [] || x.updatedAt >= s[0].updatedAt {
      assert Insert(x, s) == [x] + s;
      FilterCons(x, s, keep);
    } else {
      FilterInsertDropped(x, s[1..], keep);
      FilterInsertDroppedBehind(x, s, keep);
    }
  }

  lemma FilterInsertKeptAhead(x: Note, s: seq<Note>, keep: Note -> bool)
    requires keep(x) && SortedNewestFirst(s)
    requires s == [] || x.updatedAt >= s[0].updatedAt
    ensures Filter(Insert(x, s), keep) == Insert(x, Filter(s, keep))
  {
    var m := Filter(s, keep);
    assert Insert(x, s) == [x] + s;
    FilterCons(x, s, keep);
    assert Filter(Insert(x, s), keep) == [x] + m;
    if m != [] {
      assert m[0] in s by {
        FilterMembers(s, keep);
      }
      var j :| 0 <= j < |s| && s[j] == m[0];
      assert s[0].updatedAt >= s[j].updatedAt;
    }
    assert Insert(x, m) == [x] + m;
  }

  lemma FilterInsertKeptBehind(x: Note, s: seq<Note>, keep: Note -> bool)
    requires keep(x) && SortedNewestFirst(s)
    requires s != [] && x.updatedAt < s[0].updatedAt
    requires Filter(Insert(x, s[1..]), keep) == Insert(x, Filter(s[1..], keep))
    ensures Filter(Insert(x, s), keep) == Insert(x, Filter(s, keep))
  {
    var head, rest := s[0], s[1..];
    assert s == [head] + rest;
    InsertBehind(x, head, rest);
    assert Insert(x, s) == [head] + Insert(x, rest);
    FilterCons(head, Insert(x, rest), keep);
    FilterCons(head, rest, keep);
    var fr := Filter(rest, keep);
    var ir := Insert(x, rest);
    assert Filter(Insert(x, s), keep) == (if keep(head) then [head] else []) + Filter(ir, keep);
    assert Filter(ir, keep) == Insert(x, fr);
    assert Filter(s, keep) == (if keep(head) then [head] else []) + fr;
    if keep(head) {
      InsertBehind(x, head, fr);
      assert Insert(x, [head] + fr) == [head] + Insert(x, fr);
    } else {
      assert Filter(s, keep) == fr;
      assert Filter(Insert(x, s), keep) == Insert(x, fr);
    }
  }

  /** A note the filter keeps lands, among the kept notes, where insertion would put it. */
  lemma {:induction false} FilterInsertKept(x: Note, s: seq<Note>, keep: Note -> bool)
    requires keep(x) && SortedNewestFirst(s)
    ensures Filter(Insert(x, s), keep) == Insert(x, Filter(s, keep))
  {
    if s == [] || x.updatedAt >= s[0].updatedAt {
      FilterInsertKeptAhead(x, s, keep);
    } else {
      FilterInsertKept(x, s[1..], keep);
      FilterInsertKeptBehind(x, s, keep);
    }
  }

  /** Filtering commutes with the stable sort. */
  lemma {:induction false} FilterCommutesWithSort(s: seq<Note>, keep: Note -> bool)
    ensures Filter(SortNewestFirst(s), keep) == SortNewestFirst(Filter(s, keep))
  {
    if s != [] {
      var head, rest := s[0], s[1..];
      assert s == [head] + rest;
      var sr, fr := SortNewestFirst(rest), Filter(rest, keep);
      SortCons(head, rest);
      FilterCommutesWithSort(rest, keep);
      assert Filter(sr, keep) == SortNewestFirst(fr);
      FilterCons(head, rest, keep);
      if keep(head) {
        FilterInsertKept(head, sr, keep);
        assert Filter(SortNewestFirst(s), keep) == Insert(head, SortNewestFirst(fr));
        SortCons(head, fr);
        assert Filter(s, keep) == [head] + fr;
      } else {
        FilterInsertDropped(head, sr, keep);
        assert Filter(SortNewestFirst(s), keep) == SortNewestFirst(fr);
        assert Filter(s, keep) == fr;
      }
    }
  }

  /** The notes of `notes` that a query selects, in array order: all of them when it is blank. */
  function Selected(notes: seq<Note>, query: string): seq<Note> {
    var q := NormalizedQuery(query);
    if q == "" then notes else Filter(notes, MatchesQuery(q))
  }

  /** A blank query selects every note; any other selects exactly the matching ones, and never more than there are. */
  lemma SelectedNotes(notes: seq<Note>, query: string)
    ensures |Selected(notes, query)| <= |notes| && multiset(Selected(notes, query)) <= multiset(notes)
    ensures NonSpace(query) == [] ==> Selected(notes, query) == notes
    ensures forall n :: n in Selected(notes, query) <==>
              n in notes && (NonSpace(query) == [] || Matches(n, NormalizedQuery(query)))
    ensures forall n :: NonSpace(query) != [] ==>
              multiset(Selected(notes, query))[n] == if Matches(n, NormalizedQuery(query)) then multiset(notes)[n] else 0
  {
    FilterMembers(notes, MatchesQuery(NormalizedQuery(query)));
  }

  /**
   * `filteredNotes`: the sorted copy, filtered afterwards, is the stable
   * newest-first sort of the notes the query selects.
   */
  function VisibleNotes(notes: seq<Note>, query: string): (r: seq<Note>)
    ensures r == SortNewestFirst(Selected(notes, query))
  {
    var q := NormalizedQuery(query);
    var list := SortNewestFirst(notes);
    FilterCommutesWithSort(notes, MatchesQuery(q));
    if q == "" then list else Filter(list, MatchesQuery(q))
  }

  /** With a blank query the view is every note, newest first. */
  lemma VisibleBlankQuery(notes: seq<Note>, query: string)
    requires NonSpace(query) == []
    ensures SortedNewestFirst(VisibleNotes(notes, query))
    ensures multiset(VisibleNotes(notes, query)) == multiset(notes)
  {
    SelectedNotes(notes, query);
  }

  /** Otherwise it is exactly the matching notes, newest first, and never longer than the collection. */
  lemma VisibleWithQuery(notes: seq<Note>, query: string)
    requires NonSpace(query) != []
    ensures SortedNewestFirst(VisibleNotes(notes, query))
    ensures forall n :: n in VisibleNotes(notes, query) <==> n in notes && Matches(n, NormalizedQuery(query))
    ensures forall n :: multiset(VisibleNotes(notes, query))[n] ==
              if Matches(n, NormalizedQuery(query)) then multiset(notes)[n] else 0
    ensures |VisibleNotes(notes, query)| <= |notes|
  {
    var sel := Selected(notes, query);
    var r := VisibleNotes(notes, query);
    SelectedNotes(notes, query);
    assert |r| == |multiset(r)| == |multiset(sel)| == |sel|;
    forall n ensures n in r <==> n in sel {
      assert n in r <==> n in multiset(r);
      assert n in sel <==> n in multiset(sel);
    }
  }

  /** Notes with the same `updatedAt` appear in the view in their array order. */
  lemma VisibleKeepsTies(notes: seq<Note>, query: string, t: int)
    ensures UpdatedAt(VisibleNotes(notes, query), t) == UpdatedAt(Selected(notes, query), t)
  {
    SortKeepsTies(Selected(notes, query), t);
  }
}
