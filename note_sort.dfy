/**
 * `[...notes].sort((a, b) => b.updatedAt - a.updatedAt)`: newest first,
 * and, since `Array.prototype.sort` is stable, notes with the same
 * `updatedAt` keep their array order. The sort is written as an insertion
 * sort; `StableSortIsSortNewestFirst` shows that every stable sort by this
 * comparator gives the same sequence.
 */
module NoteSort {
  import opened Notes

  predicate SortedNewestFirst(s: seq<Note>) {
    forall i, j :: 0 <= i < j < |s| ==> s[i].updatedAt >= s[j].updatedAt
  }

  /** The notes of `s` last updated at time `t`, in their order in `s`. */
  function UpdatedAt(s: seq<Note>, t: int): seq<Note> {
    if s == [] then []
    else (if s[0].updatedAt == t then [s[0]] else []) + UpdatedAt(s[1..], t)
  }

  lemma UpdatedAtCons(n: Note, s: seq<Note>, t: int)
    ensures UpdatedAt([n] + s, t) == (if n.updatedAt == t then [n] else []) + UpdatedAt(s, t)
  {
    assert ([n] + s)[1..] == s;
  }

  /** It holds exactly the notes of `s` with that timestamp. */
  lemma {:induction false} UpdatedAtMembers(s: seq<Note>, t: int)
    ensures forall n :: n in UpdatedAt(s, t) <==> n in s && n.updatedAt == t
  {
    if s != [] {
      UpdatedAtMembers(s[1..], t);
      UpdatedAtCons(s[0], s[1..], t);
      assert s == [s[0]] + s[1..];
    }
  }

  /** Puts `x` before the first note of `s` that is not newer than it. */
  function Insert(x: Note, s: seq<Note>): seq<Note> {
    if s == [] || x.updatedAt >= s[0].updatedAt then [x] + s
    else [s[0]] + Insert(x, s[1..])
  }

  lemma InsertBehind(x: Note, head: Note, rest: seq<Note>)
    requires x.updatedAt < head.updatedAt
    ensures Insert(x, [head] + rest) == [head] + Insert(x, rest)
  {
    assert ([head] + rest)[1..] == rest;
  }

  /** Insertion adds `x` and nothing else. */
  lemma {:induction false} InsertAddsOne(x: Note, s: seq<Note>)
    ensures multiset(Insert(x, s)) == multiset(s) + multiset{x}
  {
    if s != [] && x.updatedAt >= s[0].updatedAt {
    } else if s != [] {
      InsertAddsOne(x, s[1..]);
      assert s == [s[0]] + s[1..];
    }
  }

  /** A note no older than every note of a sorted sequence can go in front of it. */
  lemma SortedCons(h: Note, r: seq<Note>)
    requires SortedNewestFirst(r)
    requires forall n :: n in r ==> n.updatedAt <= h.updatedAt
    ensures SortedNewestFirst([h] + r)
  {
    var hr := [h] + r;
    forall i, j | 0 <= i < j < |hr| ensures hr[i].updatedAt >= hr[j].updatedAt {
      assert hr[j] == r[j - 1];
      if i > 0 {
        assert hr[i] == r[i - 1];
      } else {
        assert r[j - 1] in r;
      }
    }
  }

  /** Inserting into a sorted sequence keeps it sorted. */
  lemma {:induction false} InsertKeepsSorted(x: Note, s: seq<Note>)
    requires SortedNewestFirst(s)
    ensures SortedNewestFirst(Insert(x, s))
  {
    if s == [] {
    } else if x.updatedAt >= s[0].updatedAt {
      forall n | n in s ensures n.updatedAt <= x.updatedAt {
        var j :| 0 <= j < |s| && s[j] == n;
        assert s[0].updatedAt >= s[j].updatedAt;
      }
      SortedCons(x, s);
    } else {
      var rest := s[1..];
      assert SortedNewestFirst(rest);
      InsertKeepsSorted(x, rest);
      InsertAddsOne(x, rest);
      var r := Insert(x, rest);
      forall n | n in r ensures n.updatedAt <= s[0].updatedAt {
        assert n in multiset(r);
        if n != x {
          var j :| 0 <= j < |rest| && rest[j] == n;
          assert s[j + 1] == n;
        }
      }
      SortedCons(s[0], r);
    }
  }

  /** The sorted copy of `s`. */
  function SortNewestFirst(s: seq<Note>): (r: seq<Note>)
    ensures SortedNewestFirst(r)
    ensures multiset(r) == multiset(s)
  {
    if s == [] then []
    else
      assert s == [s[0]] + s[1..];
      InsertKeepsSorted(s[0], SortNewestFirst(s[1..]));
      InsertAddsOne(s[0], SortNewestFirst(s[1..]));
      Insert(s[0], SortNewestFirst(s[1..]))
  }

  lemma SortCons(n: Note, s: seq<Note>)
    ensures SortNewestFirst([n] + s) == Insert(n, SortNewestFirst(s))
  {
    assert ([n] + s)[1..] == s;
  }

  /** Inserting `x` puts it ahead of every note of `s` with the same timestamp. */
  lemma {:induction false} InsertKeepsTies(x: Note, s: seq<Note>, t: int)
    ensures UpdatedAt(Insert(x, s), t) == (if x.updatedAt == t then [x] else []) + UpdatedAt(s, t)
  {
    if s == [] || x.updatedAt >= s[0].updatedAt {
      UpdatedAtCons(x, s, t);
    } else {
      var head, rest := s[0], s[1..];
      assert s == [head] + rest;
      var lx := if x.updatedAt == t then [x] else [];
      var lh := if head.updatedAt == t then [head] else [];
      assert lx == [] || lh == [];
      calc {
        UpdatedAt(Insert(x, s), t);
        { InsertBehind(x, head, rest); }
        UpdatedAt([head] + Insert(x, rest), t);
        { UpdatedAtCons(head, Insert(x, rest), t); }
        lh + UpdatedAt(Insert(x, rest), t);
        { InsertKeepsTies(x, rest, t); }
        lh + (lx + UpdatedAt(rest, t));
        lx + (lh + UpdatedAt(rest, t));
        { UpdatedAtCons(head, rest, t); }
        lx + UpdatedAt(s, t);
      }
    }
  }

  /** Stability: notes with equal timestamps come out in the order they went in. */
  lemma {:induction false} SortKeepsTies(s: seq<Note>, t: int)
    ensures UpdatedAt(SortNewestFirst(s), t) == UpdatedAt(s, t)
  {
    if s != [] {
      var head, rest := s[0], s[1..];
      assert s == [head] + rest;
      SortKeepsTies(rest, t);
      SortCons(head, rest);
      InsertKeepsTies(head, SortNewestFirst(rest), t);
      UpdatedAtCons(head, rest, t);
    }
  }

  /** A sequence is empty exactly when no timestamp selects any of its notes. */
  lemma NoTiesIffEmpty(s: seq<Note>)
    ensures s == [] <==> forall t :: UpdatedAt(s, t) == []
  {
    if s != [] {
      UpdatedAtCons(s[0], s[1..], s[0].updatedAt);
      assert s == [s[0]] + s[1..];
    }
  }

  /** Equal heads aside, two sequences that agree timestamp by timestamp have tails that do too. */
  lemma TiesOfTails(a: seq<Note>, b: seq<Note>, t: int)
    requires a != [] && b != [] && a[0] == b[0]
    requires UpdatedAt(a, t) == UpdatedAt(b, t)
    ensures UpdatedAt(a[1..], t) == UpdatedAt(b[1..], t)
  {
    var lead := if a[0].updatedAt == t then [a[0]] else [];
    UpdatedAtCons(a[0], a[1..], t);
    UpdatedAtCons(b[0], b[1..], t);
    assert a == [a[0]] + a[1..] && b == [b[0]] + b[1..];
    assert UpdatedAt(a[1..], t) == (lead + UpdatedAt(a[1..], t))[|lead|..];
    assert UpdatedAt(b[1..], t) == (lead + UpdatedAt(b[1..], t))[|lead|..];
  }

  /** The head of a sequence sorted newest first is no older than any of its notes. */
  lemma HeadIsNewest(s: seq<Note>, n: Note)
    requires SortedNewestFirst(s) && n in s
    ensures s[0].updatedAt >= n.updatedAt
  {
    var j :| 0 <= j < |s| && s[j] == n;
    if j > 0 {
      assert s[0].updatedAt >= s[j].updatedAt;
    }
  }

  /** The head of `a` is among the notes of `b` with its timestamp, so `b` has a note at least that new. */
  lemma HeadBounded(a: seq<Note>, b: seq<Note>)
    requires a != [] && b != [] && SortedNewestFirst(b)
    requires UpdatedAt(a, a[0].updatedAt) == UpdatedAt(b, a[0].updatedAt)
    ensures b[0].updatedAt >= a[0].updatedAt
  {
    var t := a[0].updatedAt;
    UpdatedAtCons(a[0], a[1..], t);
    assert a == [a[0]] + a[1..];
    assert a[0] in UpdatedAt(a, t);
    UpdatedAtMembers(b, t);
    HeadIsNewest(b, a[0]);
  }

  /** In two sequences sorted newest first and agreeing timestamp by timestamp, the heads agree. */
  lemma SameHead(a: seq<Note>, b: seq<Note>)
    requires a != [] && b != []
    requires SortedNewestFirst(a) && SortedNewestFirst(b)
    requires forall t :: UpdatedAt(a, t) == UpdatedAt(b, t)
    ensures a[0] == b[0]
  {
    var t := a[0].updatedAt;
    HeadBounded(a, b);
    HeadBounded(b, a);
    assert b[0].updatedAt == t;
    UpdatedAtCons(a[0], a[1..], t);
    UpdatedAtCons(b[0], b[1..], t);
    assert a == [a[0]] + a[1..] && b == [b[0]] + b[1..];
    assert UpdatedAt(a, t)[0] == a[0];
    assert UpdatedAt(b, t)[0] == b[0];
  }

  /**
   * Two sequences sorted newest first that agree, timestamp by timestamp,
   * on the order of their notes are equal.
   */
  lemma {:induction false} StableSortIsUnique(a: seq<Note>, b: seq<Note>)
    requires SortedNewestFirst(a) && SortedNewestFirst(b)
    requires forall t :: UpdatedAt(a, t) == UpdatedAt(b, t)
    ensures a == b
    decreases |a|
  {
    NoTiesIffEmpty(a);
    NoTiesIffEmpty(b);
    if a == [] {
      assert forall t :: UpdatedAt(b, t) == [];
    } else {
      assert UpdatedAt(b, a[0].updatedAt) != [] by {
        UpdatedAtCons(a[0], a[1..], a[0].updatedAt);
        assert a == [a[0]] + a[1..];
      }
      SameHead(a, b);
      forall t ensures UpdatedAt(a[1..], t) == UpdatedAt(b[1..], t) {
        TiesOfTails(a, b, t);
      }
      StableSortIsUnique(a[1..], b[1..]);
      assert a == [a[0]] + a[1..] && b == [b[0]] + b[1..];
    }
  }

  /** So any stable sort of `s` by this comparator yields exactly `SortNewestFirst(s)`. */
  lemma StableSortIsSortNewestFirst(s: seq<Note>, r: seq<Note>)
    requires SortedNewestFirst(r)
    requires forall t :: UpdatedAt(r, t) == UpdatedAt(s, t)
    ensures r == SortNewestFirst(s)
  {
    forall t ensures UpdatedAt(r, t) == UpdatedAt(SortNewestFirst(s), t) {
      SortKeepsTies(s, t);
    }
    StableSortIsUnique(r, SortNewestFirst(s));
  }
}
