/** The note store of hooks/useNotes.ts: an ordered list of notes held in
    memory, a `loading` flag, and the one persisted entry under the key
    "notes" that every mutation overwrites with the whole list. */
module Notes {
  import opened Seqs
  import opened Decimal

  /** Milliseconds since the epoch: what a JavaScript `Date` holds. */
  type Timestamp = int

  datatype Note = Note(
    id: string,
    title: string,
    content: string,
    createdAt: Timestamp,
    updatedAt: Timestamp)

  /** What the key-value store holds under the key "notes": nothing, a JSON
      document that parses to a list of notes, or text that `JSON.parse`
      rejects (the empty string, which the truthiness test skips, leads to the
      same outcome and is folded in here). */
  datatype StoredEntry = Absent | Document(notes: seq<Note>) | Unparseable

  /** No two notes share an id. */
  predicate UniqueIds(ns: seq<Note>) {
    forall i, j :: 0 <= i < j < |ns| ==> ns[i].id != ns[j].id
  }

  predicate HasId(ns: seq<Note>, id: string) {
    exists i :: 0 <= i < |ns| && ns[i].id == id
  }

  /** The list `updateNote(id, title, content)` computes. The map calls
      `new Date()` afresh for each note it rewrites; `clock(i)` is what that
      call returns when the map is at position `i`. Every note with that id
      gets the new title, content and the reading taken at its position, and
      keeps its id and creation time; every other note is untouched. */
  function Updated(ns: seq<Note>, id: string, title: string, content: string, clock: nat -> Timestamp): (r: seq<Note>)
    ensures |r| == |ns|
    ensures forall i :: 0 <= i < |ns| && ns[i].id != id ==> r[i] == ns[i]
    ensures forall i :: 0 <= i < |ns| && ns[i].id == id ==>
      r[i].id == id && r[i].createdAt == ns[i].createdAt &&
      r[i].title == title && r[i].content == content && r[i].updatedAt == clock(i)
    ensures HasId(r, id) == HasId(ns, id)
    ensures !HasId(ns, id) ==> r == ns
  {
    if ns == [] then []
    else
      var n := ns[0];
      var head := if n.id == id then n.(title := title, content := content, updatedAt := clock(0)) else n;
      [head] + Updated(ns[1..], id, title, content, (i: nat) => clock(i + 1))
  }

  /** The list `deleteNote(id)` computes: the notes whose id differs, in
      their original order. */
  function Without(ns: seq<Note>, id: string): (r: seq<Note>)
    ensures !HasId(r, id)
    ensures IsSubsequence(r, ns)
    ensures forall n: Note :: multiset(r)[n] == if n.id != id then multiset(ns)[n] else 0
    ensures !HasId(ns, id) ==> r == ns
  {
    var keep := (n: Note) => n.id != id;
    var r := Filter(ns, keep);
    assert !HasId(ns, id) ==> r == ns by {
      if !HasId(ns, id) { FilterKeepsAll(ns, keep); }
    }
    r
  }

  /** The ids a list carries, in order. */
  function Ids(ns: seq<Note>): (r: seq<string>)
    ensures |r| == |ns| && forall i :: 0 <= i < |ns| ==> r[i] == ns[i].id
  {
    if ns == [] then [] else [ns[0].id] + Ids(ns[1..])
  }

  /** Updating rewrites no id, so the list's ids stay exactly as they were. */
  lemma UpdatedKeepsIds(ns: seq<Note>, id: string, title: string, content: string, clock: nat -> Timestamp)
    ensures Ids(Updated(ns, id, title, content, clock)) == Ids(ns)
    ensures UniqueIds(ns) ==> UniqueIds(Updated(ns, id, title, content, clock))
  {
    var r := Updated(ns, id, title, content, clock);
    forall i | 0 <= i < |ns| ensures r[i].id == ns[i].id {
    }
  }

  /** Dropping notes cannot create a duplicate id. */
  lemma {:induction false} SubsequenceKeepsUniqueIds(r: seq<Note>, s: seq<Note>)
    requires IsSubsequence(r, s)
    requires UniqueIds(s)
    ensures UniqueIds(r)
    decreases |s|
  {
    if r != [] {
      assert s != [];
      assert UniqueIds(s[1..]) by {
        forall i, j | 0 <= i < j < |s| - 1 ensures s[1..][i].id != s[1..][j].id {
          assert s[1..][i] == s[i + 1] && s[1..][j] == s[j + 1];
        }
      }
      if r[0] == s[0] && IsSubsequence(r[1..], s[1..]) {
        SubsequenceKeepsUniqueIds(r[1..], s[1..]);
        forall j | 1 <= j < |r| ensures r[0].id != r[j].id {
          assert r[j] == r[1..][j - 1];
          SubsequenceMembers(r[1..], s[1..], r[j]);
          var k :| 0 <= k < |s| - 1 && s[1..][k] == r[j];
          assert s[k + 1] == r[j];
        }
      } else {
        SubsequenceKeepsUniqueIds(r, s[1..]);
      }
    }
  }

  /** With unique ids, deleting a present id removes exactly one note. */
  lemma {:induction false} WithoutRemovesOne(ns: seq<Note>, id: string)
    requires UniqueIds(ns)
    ensures UniqueIds(Without(ns, id))
    ensures |Without(ns, id)| == if HasId(ns, id) then |ns| - 1 else |ns|
  {
    var r := Without(ns, id);
    SubsequenceKeepsUniqueIds(r, ns);
    if HasId(ns, id) {
      var i :| 0 <= i < |ns| && ns[i].id == id;
      var victim := ns[i];
      MultisetCountUnique(ns, i);
      forall n: Note ensures (multiset(r) + multiset{victim})[n] == multiset(ns)[n] {
        if n.id == id && n != victim {
          forall k | 0 <= k < |ns| ensures ns[k] != n {
            if k != i {
              assert ns[k].id != ns[i].id;
            }
          }
          assert n !in ns;
        }
      }
      assert multiset(r) + multiset{victim} == multiset(ns);
      assert |multiset(r)| + 1 == |multiset(ns)|;
    }
  }

  /** The note at position `i` of a list with unique ids occurs in it once. */
  lemma {:induction false} MultisetCountUnique(ns: seq<Note>, i: nat)
    requires UniqueIds(ns)
    requires i < |ns|
    ensures multiset(ns)[ns[i]] == 1
  {
    assert ns == ns[..i] + [ns[i]] + ns[i + 1..];
    forall k | 0 <= k < i ensures ns[..i][k] != ns[i] {
      assert ns[..i][k].id == ns[k].id != ns[i].id;
    }
    assert ns[i] !in ns[..i];
    var tail := ns[i + 1..];
    forall k | 0 <= k < |tail| ensures tail[k] != ns[i] {
      assert tail[k].id == ns[i + 1 + k].id != ns[i].id;
    }
    assert ns[i] !in tail;
  }

  /** A clock reading later than the readings every existing id was made from
      yields an id that no note carries yet. */
  lemma FreshClockGivesFreshId(ns: seq<Note>, stamps: seq<nat>, nowMs: nat, note: Note)
    requires |stamps| == |ns|
    requires forall i :: 0 <= i < |ns| ==> ns[i].id == DecimalString(stamps[i]) && stamps[i] < nowMs
    requires note.id == DecimalString(nowMs)
    ensures !HasId(ns, note.id)
    ensures UniqueIds(ns) ==> UniqueIds(ns + [note])
  {
    forall i | 0 <= i < |ns| ensures ns[i].id != DecimalString(nowMs) {
      if ns[i].id == DecimalString(nowMs) {
        DecimalStringInjective(stamps[i], nowMs);
      }
    }
  }

  /** The state of `useNotes()`: the `notes` and `loading` React state and the
      persisted entry. */
  class NoteStore {
    var notes: seq<Note>
    var loading: bool
    /** The entry under the key "notes" in the device's key-value store. */
    var stored: StoredEntry

    /** The persisted document holds exactly the in-memory list. */
    predicate Persisted()
      reads this
    {
      stored == Document(notes)
    }

    /** The hook's first render: an empty list and `loading` set, over
        whatever the device already stores. */
    constructor (entry: StoredEntry)
      ensures notes == [] && loading && stored == entry
    {
      notes := [];
      loading := true;
      stored := entry;
    }

    /** `loadNotes`: a stored document replaces the list; a missing entry, a
        failed read (`readFails`) or an unparseable document leaves the list
        as it was; `loading` is cleared in every case. */
    method LoadNotes(readFails: bool)
      modifies this
      ensures stored == old(stored)
      ensures !loading
      ensures !readFails && stored.Document? ==> notes == stored.notes
      ensures readFails || !stored.Document? ==> notes == old(notes)
      ensures old(Persisted()) ==> notes == old(notes) && Persisted()
    {
      if !readFails {
        match stored
        case Document(saved) => notes := saved;
        case Absent =>
        case Unparseable =>
      }
      loading := false;
    }

    /** `addNote(title, content)` with the clock read as `nowMs` for the id
        and as `createdAt` and `updatedAt` for the two `new Date()` calls. */
    method AddNote(title: string, content: string, nowMs: nat, createdAt: Timestamp, updatedAt: Timestamp)
      returns (note: Note)
      modifies this
      ensures note == Note(DecimalString(nowMs), title, content, createdAt, updatedAt)
      ensures notes == old(notes) + [note]
      ensures Persisted()
      ensures loading == old(loading)
    {
      note := Note(DecimalString(nowMs), title, content, createdAt, updatedAt);
      notes := notes + [note];
      stored := Document(notes);
    }

    /** `updateNote(id, title, content)`, where `clock(i)` is the reading
        `new Date()` gives when the map rewrites position `i`. */
    method UpdateNote(id: string, title: string, content: string, clock: nat -> Timestamp)
      modifies this
      ensures notes == Updated(old(notes), id, title, content, clock)
      ensures Persisted()
      ensures loading == old(loading)
    {
      notes := Updated(notes, id, title, content, clock);
      stored := Document(notes);
    }

    /** `deleteNote(id)`. */
    method DeleteNote(id: string)
      modifies this
      ensures notes == Without(old(notes), id)
      ensures Persisted()
      ensures loading == old(loading)
    {
      notes := Without(notes, id);
      stored := Document(notes);
    }
  }

  /** The store walked through create, update and delete of one note, with a
      reload from storage after each write. */
  method GroceriesWalkthrough()
  {
    var store := new NoteStore(Absent);
    store.LoadNotes(false);
    assert store.notes == [] && !store.loading;
    var note := store.AddNote("Groceries", "Milk, eggs", 1000, 1000, 1000);
    assert store.notes == [note] && note.createdAt == note.updatedAt;
    store.LoadNotes(false);
    assert store.notes == [note];
    store.UpdateNote(note.id, "Groceries", "Milk, eggs, bread", i => 2000);
    ghost var updated := store.notes;
    store.LoadNotes(false);
    assert store.notes == updated;
    assert store.notes[0].content == "Milk, eggs, bread" && store.notes[0].updatedAt > note.updatedAt;
    assert |store.notes| == 1 && store.notes[0].id == note.id;
    ghost var before := store.notes;
    store.DeleteNote(note.id);
    WithoutRemovesOne(before, note.id);
    assert HasId(before, note.id);
    store.LoadNotes(false);
    assert store.notes == [];
    assert store.Persisted();
  }
}
