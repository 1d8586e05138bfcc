/** The home screen of app/index.tsx: the search filter over the store's
    notes and the edit session (the working copy of one note) whose Save
    commits to the store and whose Cancel discards. */
module HomeScreen {
  import opened Options
  import opened Seqs
  import opened Decimal
  import opened Notes

  /** `toLowerCase` on one character, over ASCII only. */
  function LowerChar(c: char): (d: char) {
    if 'A' <= c <= 'Z' then (c as int - 'A' as int + 'a' as int) as char else c
  }

  /** `toLowerCase` over ASCII: no upper-case letter remains, and the only
      characters that change are upper-case letters, each to its lower-case
      partner. */
  function Lower(s: string): (r: string)
    ensures |r| == |s|
    ensures forall i :: 0 <= i < |r| ==> !('A' <= r[i] <= 'Z')
    ensures forall i :: 0 <= i < |s| && r[i] != s[i] ==>
      'A' <= s[i] <= 'Z' && r[i] as int == s[i] as int + 32
  {
    seq(|s|, i requires 0 <= i < |s| => LowerChar(s[i]))
  }

  predicate StartsWith(s: string, prefix: string) {
    |prefix| <= |s| && s[..|prefix|] == prefix
  }

  /** `needle` occurs in `hay` starting at position `i`. */
  predicate OccursAt(hay: string, needle: string, i: int) {
    0 <= i <= |hay| - |needle| && hay[i..i + |needle|] == needle
  }

  /** JavaScript's `String.prototype.includes`: `needle` occurs in `hay` at
      some position. */
  function Includes(hay: string, needle: string): (b: bool)
    ensures b <==> exists i :: OccursAt(hay, needle, i)
    decreases |hay|
  {
    if StartsWith(hay, needle) then
      assert OccursAt(hay, needle, 0);
      true
    else if hay == [] then false
    else
      var b := Includes(hay[1..], needle);
      assert b ==> exists i :: OccursAt(hay, needle, i) by {
        if b {
          var j :| OccursAt(hay[1..], needle, j);
          assert hay[j + 1..j + 1 + |needle|] == hay[1..][j..j + |needle|];
          assert OccursAt(hay, needle, j + 1);
        }
      }
      assert (exists i :: OccursAt(hay, needle, i)) ==> b by {
        if exists i :: OccursAt(hay, needle, i) {
          var i :| OccursAt(hay, needle, i);
          assert i != 0;
          assert hay[1..][i - 1..i - 1 + |needle|] == hay[i..i + |needle|];
          assert OccursAt(hay[1..], needle, i - 1);
        }
      }
      b
  }

  /** The search test of `filteredNotes`: the lower-cased title or the
      lower-cased content contains the lower-cased query. */
  predicate Matches(note: Note, query: string) {
    Includes(Lower(note.title), Lower(query)) || Includes(Lower(note.content), Lower(query))
  }

  /** `filteredNotes`: exactly the notes that match the query, each as often
      as in the store and in store order; the empty query keeps every note. */
  function Search(notes: seq<Note>, query: string): (r: seq<Note>)
    ensures forall i :: 0 <= i < |r| ==> Matches(r[i], query)
    ensures forall n: Note :: multiset(r)[n] == if Matches(n, query) then multiset(notes)[n] else 0
    ensures IsSubsequence(r, notes)
    ensures query == "" ==> r == notes
  {
    var keep := (n: Note) => Matches(n, query);
    var r := Filter(notes, keep);
    assert query == "" ==> r == notes by {
      if query == "" {
        forall i | 0 <= i < |notes| ensures keep(notes[i]) {
          assert OccursAt(Lower(notes[i].title), Lower(query), 0);
        }
        FilterKeepsAll(notes, keep);
      }
    }
    r
  }

  /** The search ignores case: queries that lower-case alike select the same
      notes. */
  lemma SearchIgnoresCase(notes: seq<Note>, q1: string, q2: string)
    requires Lower(q1) == Lower(q2)
    ensures Search(notes, q1) == Search(notes, q2)
  {
    FilterAgrees(notes, (n: Note) => Matches(n, q1), (n: Note) => Matches(n, q2));
  }

  /** JavaScript's `title || fallback` on strings: the empty string is falsy. */
  function OrElse(title: string, fallback: string): (t: string) {
    if title != "" then title else fallback
  }

  /** The title a brand-new note is saved under when the title field is empty. */
  const NewNoteTitle := "New Note"

  /** The working copy of the edit session, as one value. */
  datatype WorkingCopy = WorkingCopy(
    selectedNote: Option<Note>,
    editorState: Option<string>,
    plainText: string,
    title: string,
    isEditorVisible: bool)

  /** The editor modal closed over an empty working copy. */
  const Closed := WorkingCopy(None, None, "", "", false)

  /** The state of `HomeScreen`: the store it reads through `useNotes()`, the
      working copy, and the search bar. */
  class EditSession {
    const store: NoteStore
    var selectedNote: Option<Note>
    var editorState: Option<string>
    var plainText: string
    var title: string
    var isEditorVisible: bool
    var searchQuery: string
    var isSearchVisible: bool

    function Working(): (w: WorkingCopy)
      reads this
    {
      WorkingCopy(selectedNote, editorState, plainText, title, isEditorVisible)
    }

    /** The screen's invariant once the notes have loaded: a hidden editor
        holds an empty working copy, and a selected note is one of the
        store's notes. */
    predicate Valid()
      reads this, store
    {
      !store.loading &&
      (!isEditorVisible ==> Working() == Closed) &&
      (selectedNote.Some? ==> selectedNote.value in store.notes)
    }

    /** The notes the list shows: `filteredNotes`. */
    function FilteredNotes(): (r: seq<Note>)
      reads this, store
    {
      Search(store.notes, searchQuery)
    }

    /** Mounting the screen: `useNotes()` creates the store and its effect
        loads it; until `loading` is cleared only a loading message shows, so
        the session begins with the store loaded. */
    constructor (entry: StoredEntry, readFails: bool)
      ensures fresh(store) && Valid()
      ensures Working() == Closed && searchQuery == "" && !isSearchVisible
      ensures store.stored == entry
      ensures !readFails && entry.Document? ==> store.notes == entry.notes
      ensures readFails || !entry.Document? ==> store.notes == []
    {
      store := new NoteStore(entry);
      selectedNote := None;
      editorState := None;
      plainText := "";
      title := "";
      isEditorVisible := false;
      searchQuery := "";
      isSearchVisible := false;
      new;
      store.LoadNotes(readFails);
    }

    /** `toggleSearch`: flips the search bar, and clears the query when it
        opens. */
    method ToggleSearch()
      requires Valid()
      modifies this
      ensures Valid()
      ensures isSearchVisible == !old(isSearchVisible)
      ensures searchQuery == if old(isSearchVisible) then old(searchQuery) else ""
      ensures Working() == old(Working())
    {
      var wasVisible := isSearchVisible;
      isSearchVisible := !wasVisible;
      if !wasVisible {
        searchQuery := "";
      }
    }

    /** Typing in the search field, which exists only while the bar is open. */
    method OnSearchChanged(query: string)
      requires Valid() && isSearchVisible
      modifies this
      ensures Valid()
      ensures searchQuery == query && isSearchVisible
      ensures Working() == old(Working())
    {
      searchQuery := query;
    }

    /** Pressing a listed note: its content and title seed the working copy
        and the editor opens; the serialized editor state is left as it was. */
    method OpenNote(note: Note)
      requires Valid() && note in FilteredNotes()
      modifies this
      ensures Valid()
      ensures Working() == old(Working()).(selectedNote := Some(note), plainText := note.content,
                                           title := note.title, isEditorVisible := true)
      ensures searchQuery == old(searchQuery) && isSearchVisible == old(isSearchVisible)
    {
      SubsequenceMembers(FilteredNotes(), store.notes, note);
      selectedNote := Some(note);
      plainText := note.content;
      title := note.title;
      isEditorVisible := true;
    }

    /** The floating button: an empty working copy and the editor open. */
    method NewNote()
      requires Valid()
      modifies this
      ensures Valid()
      ensures Working() == Closed.(isEditorVisible := true)
      ensures searchQuery == old(searchQuery) && isSearchVisible == old(isSearchVisible)
    {
      selectedNote := None;
      plainText := "";
      editorState := None;
      title := "";
      isEditorVisible := true;
    }

    /** Typing in the title field of the open editor. */
    method OnTitleChanged(text: string)
      requires Valid() && isEditorVisible
      modifies this
      ensures Valid()
      ensures Working() == old(Working()).(title := text)
      ensures searchQuery == old(searchQuery) && isSearchVisible == old(isSearchVisible)
    {
      title := text;
    }

    /** The editor's change callback: the plain text and the serialized state
        both become the new text. */
    method OnTextChanged(text: string)
      requires Valid() && isEditorVisible
      modifies this
      ensures Valid()
      ensures Working() == old(Working()).(plainText := text, editorState := Some(text))
      ensures searchQuery == old(searchQuery) && isSearchVisible == old(isSearchVisible)
    {
      plainText := text;
      editorState := Some(text);
    }

    /** Cancel: the editor closes over an empty working copy and the store is
        not touched. */
    method Cancel()
      requires Valid()
      modifies this
      ensures Valid()
      ensures Working() == Closed
      ensures searchQuery == old(searchQuery) && isSearchVisible == old(isSearchVisible)
      ensures store.notes == old(store.notes) && store.stored == old(store.stored)
    {
      selectedNote := None;
      plainText := "";
      editorState := None;
      title := "";
      isEditorVisible := false;
    }

    /** The delete button of a listed note, which only logs: nothing changes. */
    method OnDeletePress(noteId: string)
      ensures store.notes == old(store.notes) && store.stored == old(store.stored)
      ensures Working() == old(Working())
    {
    }

    /** `handleNoteSave`: a selected note is updated under its own id with
        the working title (its old title when that is empty) and the plain
        text; otherwise a note is added with the working title (or "New Note")
        and the plain text. The serialized editor state never reaches the
        store. For a new note the clock reads `nowMs` for the id and
        `createdAt` and `updatedAt` for the two `new Date()` calls; for an
        update `updateClock(i)` is the `new Date()` reading taken at position
        `i`. Then the editor closes over an empty working copy. */
    method Save(nowMs: nat, createdAt: Timestamp, updatedAt: Timestamp, updateClock: nat -> Timestamp)
      requires Valid() && isEditorVisible
      modifies this, store
      ensures Valid()
      ensures Working() == Closed
      ensures searchQuery == old(searchQuery) && isSearchVisible == old(isSearchVisible)
      ensures store.Persisted()
      ensures old(selectedNote).Some? ==>
        var n := old(selectedNote).value;
        store.notes == Updated(old(store.notes), n.id, OrElse(old(title), n.title), old(plainText), updateClock) &&
        HasId(store.notes, n.id)
      ensures old(selectedNote).None? ==>
        store.notes == old(store.notes) +
          [Note(DecimalString(nowMs), OrElse(old(title), NewNoteTitle), old(plainText), createdAt, updatedAt)]
    {
      if selectedNote.Some? {
        var n := selectedNote.value;
        store.UpdateNote(n.id, OrElse(title, n.title), plainText, updateClock);
      } else {
        var _ := store.AddNote(OrElse(title, NewNoteTitle), plainText, nowMs, createdAt, updatedAt);
      }
      selectedNote := None;
      plainText := "";
      editorState := None;
      title := "";
      isEditorVisible := false;
    }
  }

  /** A new note typed into the editor and saved without a title. */
  method HelloWalkthrough()
  {
    var session := new EditSession(Absent, false);
    session.NewNote();
    session.OnTextChanged("Hello");
    assert session.plainText == "Hello" && session.editorState == Some("Hello") && session.title == "";
    session.Save(5, 5, 5, i => 5);
    assert session.store.notes == [Note(DecimalString(5), "New Note", "Hello", 5, 5)];
    assert session.Working() == Closed;
  }
}
