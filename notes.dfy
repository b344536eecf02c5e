/**
 * The note record and the pure pieces of the store's handlers: reading the
 * persisted value, finding a note by id, the edit applied by a save, the
 * removal done by a delete, and the text of the delete confirmation.
 */
module Notes {
  import opened Options
  import opened JsString

  type Id = string

  /** Timestamps are milliseconds since the epoch, as `Date.now()` returns them. */
  datatype Note = Note(id: Id, title: string, body: string, createdAt: int, updatedAt: int)

  /** The title of a new note, and of a note saved with a blank title. */
  const UntitledTitle := "Untitled note"

  /** The parsed persisted value, as far as loading tells values apart. */
  datatype Json = JNull | JArray(items: seq<Note>) | JOther

  /** `safeParseJson`: `parsed` is what `JSON.parse` returned, `None` if it threw. */
  function SafeParseJson(parsed: Option<Json>, fallback: Json): (r: Json)
    ensures r == fallback || parsed == Some(r)
    ensures parsed == None || parsed == Some(JNull) ==> r == fallback
    ensures parsed.Some? && parsed.value != JNull ==> r == parsed.value
    ensures fallback != JNull ==> r != JNull
  {
    match parsed
    case None => fallback
    case Some(JNull) => fallback
    case Some(v) => v
  }

  /**
   * The value the load effect works with: `raw` is the stored string
   * (`None` when the key is absent) and `parsed` what parsing it gives.
   */
  function LoadedValue(raw: Option<string>, parsed: Option<Json>): (r: Json)
    ensures r != JNull
    ensures raw == None || raw == Some("") || parsed == None || parsed == Some(JNull) ==> r == JArray([])
    ensures raw != None && raw != Some("") && parsed != None && parsed != Some(JNull) ==> r == parsed.value
  {
    if raw == None || raw == Some("") then JArray([]) else SafeParseJson(parsed, JArray([]))
  }

  /** `n.id === id`; a null id matches no note. */
  predicate HasId(n: Note, id: Option<Id>) {
    id == Some(n.id)
  }

  /** `notes.find((n) => n.id === id) ?? null`. */
  function FindNote(notes: seq<Note>, id: Option<Id>): Option<Note> {
    if notes == [] then None
    else if HasId(notes[0], id) then Some(notes[0])
    else FindNote(notes[1..], id)
  }

  lemma FindNoteCons(head: Note, rest: seq<Note>, id: Option<Id>)
    ensures FindNote([head] + rest, id) == if HasId(head, id) then Some(head) else FindNote(rest, id)
  {
    assert ([head] + rest)[1..] == rest;
  }

  /** The lookup finds a note exactly when one has the id, and what it finds has the id. */
  lemma {:induction false} FindNoteFinds(notes: seq<Note>, id: Option<Id>)
    ensures FindNote(notes, id).None? <==> forall n :: n in notes ==> !HasId(n, id)
    ensures FindNote(notes, id).Some? ==> FindNote(notes, id).value in notes && HasId(FindNote(notes, id).value, id)
  {
    if notes != [] {
      FindNoteFinds(notes[1..], id);
      assert notes == [notes[0]] + notes[1..];
    }
  }

  /** And the note found is the first one with the id. */
  lemma {:induction false} FindNoteIsFirst(notes: seq<Note>, id: Option<Id>, i: nat)
    requires i < |notes| && HasId(notes[i], id)
    requires forall j :: 0 <= j < i ==> !HasId(notes[j], id)
    ensures FindNote(notes, id) == Some(notes[i])
  {
    if i > 0 {
      FindNoteIsFirst(notes[1..], id, i - 1);
    }
  }

  /** Stated for every index at once: the first note with the id is the one found. */
  lemma FindNoteFindsFirst(notes: seq<Note>, id: Option<Id>)
    ensures forall i :: 0 <= i < |notes| && HasId(notes[i], id) && (forall j :: 0 <= j < i ==> !HasId(notes[j], id)) ==>
              FindNote(notes, id) == Some(notes[i])
  {
    forall i | 0 <= i < |notes| && HasId(notes[i], id) && (forall j :: 0 <= j < i ==> !HasId(notes[j], id)) {
      FindNoteIsFirst(notes, id, i);
    }
  }

  /** `title.trim() || "Untitled note"`. */
  function SavedTitle(title: string): (r: string)
    ensures r != "" && Trimmed(r)
    ensures NonSpace(title) == [] ==> r == UntitledTitle
    ensures NonSpace(title) != [] ==> r == Trim(title) && NonSpace(r) == NonSpace(title)
  {
    TrimKeepsNonSpace(title);
    TrimEmptyIffBlank(title);
    if Trim(title) == "" then UntitledTitle else Trim(title)
  }

  /** The note after a save with the given form values at time `now`. */
  function Edited(n: Note, title: string, body: string, now: int): Note {
    n.(title := SavedTitle(title), body := body, updatedAt := now)
  }

  /** `prev.map((n) => n.id === id ? { ...n, title, body, updatedAt: now } : n)`. */
  function ApplySave(notes: seq<Note>, id: Id, title: string, body: string, now: int): seq<Note> {
    seq(|notes|, i requires 0 <= i < |notes| => if notes[i].id == id then Edited(notes[i], title, body, now) else notes[i])
  }

  /** `prev.filter((n) => n.id !== id)`. */
  function Without(notes: seq<Note>, id: Id): seq<Note> {
    if notes == [] then []
    else (if notes[0].id != id then [notes[0]] else []) + Without(notes[1..], id)
  }

  lemma WithoutCons(head: Note, rest: seq<Note>, id: Id)
    ensures Without([head] + rest, id) == (if head.id != id then [head] else []) + Without(rest, id)
  {
    assert ([head] + rest)[1..] == rest;
  }

  /** Delete keeps exactly the notes with another id, and never lengthens the array. */
  lemma {:induction false} WithoutMembers(notes: seq<Note>, id: Id)
    ensures forall n :: n in Without(notes, id) <==> n in notes && n.id != id
    ensures |Without(notes, id)| <= |notes|
  {
    if notes != [] {
      WithoutMembers(notes[1..], id);
      WithoutCons(notes[0], notes[1..], id);
      assert notes == [notes[0]] + notes[1..];
    }
  }

  /** Removal keeps the relative order of the notes it keeps: it distributes over concatenation. */
  lemma {:induction false} WithoutAppend(a: seq<Note>, b: seq<Note>, id: Id)
    ensures Without(a + b, id) == Without(a, id) + Without(b, id)
  {
    if a == [] {
      assert a + b == b;
    } else {
      var head, tail := a[0], a[1..];
      var lead := if head.id != id then [head] else [];
      assert a == [head] + tail;
      ConsAppend(head, tail, b);
      WithoutAppend(tail, b, id);
      WithoutCons(head, tail + b, id);
      WithoutCons(head, tail, id);
      AppendAssoc(lead, Without(tail, id), Without(b, id));
    }
  }

  /** Removing an id that no note has changes nothing. */
  lemma {:induction false} WithoutAbsent(notes: seq<Note>, id: Id)
    requires forall n :: n in notes ==> n.id != id
    ensures Without(notes, id) == notes
  {
    if notes != [] {
      WithoutAbsent(notes[1..], id);
      WithoutCons(notes[0], notes[1..], id);
      assert notes == [notes[0]] + notes[1..];
    }
  }

  /** `remaining[0]?.id ?? null`. */
  function FirstId(notes: seq<Note>): (r: Option<Id>)
    ensures r.Some? <==> notes != []
    ensures r.Some? ==> FindNote(notes, r) == Some(notes[0])
  {
    if notes == [] then None else Some(notes[0].id)
  }

  /** The confirmation text for a note with the given title. */
  function PromptFor(title: string): string {
    "Delete \"" + title + "\"? This cannot be undone."
  }

  /** The question put to the user before a delete: the note's title, or "this note" when no note has the id. */
  function DeletePrompt(notes: seq<Note>, id: Id): (r: string)
    ensures (forall n :: n in notes ==> n.id != id) ==> r == PromptFor("this note")
    ensures forall i :: 0 <= i < |notes| && notes[i].id == id && (forall j :: 0 <= j < i ==> notes[j].id != id) ==>
              r == PromptFor(notes[i].title)
  {
    FindNoteFinds(notes, Some(id));
    FindNoteFindsFirst(notes, Some(id));
    var found := FindNote(notes, Some(id));
    PromptFor(if found.Some? then found.value.title else "this note")
  }

  /** No two notes share an id. */
  predicate UniqueIds(notes: seq<Note>) {
    forall i, j :: 0 <= i < j < |notes| ==> notes[i].id != notes[j].id
  }

  /** Every note was last updated no earlier than it was created. */
  predicate TimestampsOrdered(notes: seq<Note>) {
    forall i :: 0 <= i < |notes| ==> notes[i].createdAt <= notes[i].updatedAt
  }

  /** No note carries a timestamp later than `now`. */
  predicate NoLaterThan(notes: seq<Note>, now: int) {
    forall i :: 0 <= i < |notes| ==> notes[i].createdAt <= now && notes[i].updatedAt <= now
  }

  /** Putting a note with a fresh id in front keeps ids pairwise distinct. */
  lemma PrependFreshKeepsUniqueIds(n: Note, notes: seq<Note>)
    requires UniqueIds(notes)
    requires forall m :: m in notes ==> m.id != n.id
    ensures UniqueIds([n] + notes)
  {
    var r := [n] + notes;
    forall i, j | 0 <= i < j < |r| ensures r[i].id != r[j].id {
      if i == 0 {
        assert r[j] == notes[j - 1] && r[j] in notes;
      } else {
        assert r[i] == notes[i - 1] && r[j] == notes[j - 1];
      }
    }
  }

  /** Removal keeps ids pairwise distinct. */
  lemma {:induction false} WithoutKeepsUniqueIds(notes: seq<Note>, id: Id)
    requires UniqueIds(notes)
    ensures UniqueIds(Without(notes, id))
  {
    if notes != [] {
      var head, rest := notes[0], notes[1..];
      assert notes == [head] + rest;
      WithoutKeepsUniqueIds(rest, id);
      WithoutCons(head, rest, id);
      if head.id != id {
        WithoutMembers(rest, id);
        forall n | n in Without(rest, id) ensures n.id != head.id {
          var j :| 0 <= j < |rest| && rest[j] == n;
          assert notes[j + 1] == n;
        }
        PrependFreshKeepsUniqueIds(head, Without(rest, id));
      }
    }
  }

  /** Removal keeps `createdAt <= updatedAt`: every note it keeps was already there. */
  lemma WithoutKeepsTimestampsOrdered(notes: seq<Note>, id: Id)
    requires TimestampsOrdered(notes)
    ensures TimestampsOrdered(Without(notes, id))
  {
    var kept := Without(notes, id);
    WithoutMembers(notes, id);
    forall i | 0 <= i < |kept| ensures kept[i].createdAt <= kept[i].updatedAt {
      assert kept[i] in notes;
      var j :| 0 <= j < |notes| && notes[j] == kept[i];
    }
  }

  /** Removing one id does not change which note another id finds. */
  lemma {:induction false} FindAfterWithout(notes: seq<Note>, id: Id, other: Option<Id>)
    requires other != Some(id)
    ensures FindNote(Without(notes, id), other) == FindNote(notes, other)
  {
    if notes != [] {
      var head, rest := notes[0], notes[1..];
      assert notes == [head] + rest;
      FindAfterWithout(rest, id, other);
      WithoutCons(head, rest, id);
      FindNoteCons(head, rest, other);
      if head.id != id {
        assert Without(notes, id) == [head] + Without(rest, id);
        FindNoteCons(head, Without(rest, id), other);
      } else {
        assert Without(notes, id) == Without(rest, id);
        assert !HasId(head, other);
      }
    }
  }

  /** A save only touches the notes with the saved id, and there sets title, body and `updatedAt`. */
  lemma SaveChangesOnlyMatching(notes: seq<Note>, id: Id, title: string, body: string, now: int)
    ensures |ApplySave(notes, id, title, body, now)| == |notes|
    ensures forall i :: 0 <= i < |notes| && notes[i].id != id ==> ApplySave(notes, id, title, body, now)[i] == notes[i]
    ensures forall i :: 0 <= i < |notes| && notes[i].id == id ==>
              var m := ApplySave(notes, id, title, body, now)[i];
              m.id == id && m.title == SavedTitle(title) && m.body == body &&
              m.createdAt == notes[i].createdAt && m.updatedAt == now
  {
  }

  /** A save never changes any id, so ids stay pairwise distinct. */
  lemma SaveKeepsUniqueIds(notes: seq<Note>, id: Id, title: string, body: string, now: int)
    requires UniqueIds(notes)
    ensures UniqueIds(ApplySave(notes, id, title, body, now))
  {
  }

  /** A save at a time no earlier than every stored timestamp keeps `createdAt <= updatedAt`. */
  lemma SaveKeepsTimestampsOrdered(notes: seq<Note>, id: Id, title: string, body: string, now: int)
    requires TimestampsOrdered(notes) && NoLaterThan(notes, now)
    ensures TimestampsOrdered(ApplySave(notes, id, title, body, now))
    ensures NoLaterThan(ApplySave(notes, id, title, body, now), now)
  {
  }
}
