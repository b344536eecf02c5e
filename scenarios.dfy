/**
 * Concrete stores that pin down behaviour the general lemmas only imply:
 * a two-note search with a blank and a mixed-case query, and a delete whose fallback
 * follows the array order rather than the order the sidebar shows.
 */
module Scenarios {
  import opened Options
  import opened JsString
  import opened Notes
  import opened NoteSort
  import opened NoteView

  /** An older shopping note stored ahead of a newer work note. */
  const Shopping := Note("1", "Shopping", "milk", 10, 10)
  const Work := Note("2", "Work", "report", 20, 20)

  lemma SortExample()
    ensures SortNewestFirst([Shopping, Work]) == [Work, Shopping]
  {
    SortCons(Work, []);
    assert [Work] + [] == [Work];
    SortCons(Shopping, [Work]);
    assert [Shopping] + [Work] == [Shopping, Work];
    assert Insert(Shopping, [Work]) == [Work] + Insert(Shopping, []);
  }

  lemma TrimStartExample()
    ensures TrimStart("MILK ") == "MILK "
  {
    assert "MILK "[0] == 'M' && !IsSpace('M');
  }

  lemma TrimEndExample()
    ensures TrimEnd("MILK ") == "MILK"
  {
    assert "MILK "[..4] == "MILK";
    assert TrimEnd("MILK ") == TrimEnd("MILK");
    assert "MILK"[3] == 'K' && !IsSpace('K');
  }

  lemma LowerExample()
    ensures ToLower("MILK") == "milk"
  {
    assert ToLowerChar('M') == 'm';
    assert ToLowerChar('I') == 'i';
    assert ToLowerChar('L') == 'l';
    assert ToLowerChar('K') == 'k';
    var lower := ToLower("MILK");
    assert lower[0] == 'm' && lower[1] == 'i' && lower[2] == 'l' && lower[3] == 'k';
  }

  lemma QueryExample()
    ensures NormalizedQuery("MILK ") == "milk"
  {
    TrimStartExample();
    TrimEndExample();
    LowerExample();
  }

  lemma MatchExample()
    ensures Matches(Shopping, "milk") && !Matches(Work, "milk")
  {
    var body := ToLower("milk");
    assert body[0] == 'm' && body[1] == 'i' && body[2] == 'l' && body[3] == 'k';
    assert body == "milk";
    assert IsPrefix("milk", body);
    FirstCharMissing(ToLower("Work"), "milk");
    FirstCharMissing(ToLower("report"), "milk");
  }

  lemma FilterExample()
    ensures Filter([Work, Shopping], MatchesQuery("milk")) == [Shopping]
  {
    MatchExample();
    var keep := MatchesQuery("milk");
    assert keep(Shopping) && !keep(Work);
    FilterCons(Shopping, [], keep);
    assert [Shopping] + [] == [Shopping];
    FilterCons(Work, [Shopping], keep);
    assert [Work] + [Shopping] == [Work, Shopping];
  }

  /** Without a query both notes show, newest first; the query "MILK " finds only the shopping note. */
  lemma SearchExample()
    ensures VisibleNotes([Shopping, Work], "") == [Work, Shopping]
    ensures VisibleNotes([Shopping, Work], "MILK ") == [Shopping]
  {
    SortExample();
    QueryExample();
    FilterExample();
  }

  /** The array [A, B, C]: C is the newest note, B the oldest. */
  const A := Note("a", "A", "", 10, 10)
  const B := Note("b", "B", "", 5, 5)
  const C := Note("c", "C", "", 20, 20)

  lemma RemovedExample()
    ensures Without([A, B, C], "a") == [B, C]
  {
    WithoutCons(C, [], "a");
    assert [C] + [] == [C];
    WithoutCons(B, [C], "a");
    assert [B] + [C] == [B, C];
    WithoutCons(A, [B, C], "a");
    assert [A] + [B, C] == [A, B, C];
  }

  lemma RemainingSortExample()
    ensures SortNewestFirst([B, C]) == [C, B]
  {
    SortCons(C, []);
    assert [C] + [] == [C];
    SortCons(B, [C]);
    assert [B] + [C] == [B, C];
    assert Insert(B, [C]) == [C] + Insert(B, []);
  }

  /**
   * Deleting the active note A makes B active, the first remaining note
   * in the array, while the sidebar shows C first.
   */
  lemma DeleteFallbackFollowsArrayOrder()
    ensures FirstId(Without([A, B, C], "a")) == Some("b")
    ensures VisibleNotes(Without([A, B, C], "a"), "")[0] == C
  {
    RemovedExample();
    RemainingSortExample();
  }
}
