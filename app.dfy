/** The alias browser's state, `AppState` (python/alias_runner.py:218-252),
    with the cursor rules of the arrow and page keys (:344-360) and the
    notes update of the note editor (:404-407).

    The state holds the collected aliases with the user's stored notes
    laid over them, the current query, the aliases that pass it, and a
    cursor into those. Reading the notes file and the configuration
    happens outside: `Reload` receives the notes that were loaded and
    the file system as it is now. */
module App {
  import opened Text
  import opened Options
  import opened FileSystem
  import opened Ordering
  import opened Parser
  import opened Collect
  import opened Search

  /** One record after `a["note"] = notes[a["name"]]` when its name has a
      stored note. */
  function WithStoredNote(a: Alias, notes: map<string, string>): Alias {
    if a.name in notes then a.(note := notes[a.name]) else a
  }

  /** The records after the overlay loop of `__init__` and `reload`: a
      record's note is replaced exactly when its name has a stored note,
      and nothing else about any record changes. */
  function Overlay(aliases: seq<Alias>, notes: map<string, string>): (r: seq<Alias>)
    ensures |r| == |aliases|
    ensures forall i | 0 <= i < |r| ::
              && r[i].(note := aliases[i].note) == aliases[i]
              && (aliases[i].name in notes ==> r[i].note == notes[aliases[i].name])
              && (aliases[i].name !in notes ==> r[i] == aliases[i])
  {
    seq(|aliases|, i requires 0 <= i < |aliases| => WithStoredNote(aliases[i], notes))
  }

  /** The notes map after the note editor saves `text` for `name`: the
      stripped text when it is not blank, otherwise no entry at all; no
      other name changes. */
  function UpdateNotes(notes: map<string, string>, name: string, text: string): (r: map<string, string>)
    ensures !Blank(text) ==> name in r && r[name] == Strip(text) && IsStripped(r[name])
    ensures Blank(text) ==> name !in r
    ensures forall n | n != name :: (n in r <==> n in notes) && (n in r ==> r[n] == notes[n])
  {
    if Blank(text) then notes - {name} else notes[name := Strip(text)]
  }

  /** The cursor is on an entry of a non-empty list; on an empty list it
      is -1 (after a filter) or 0 (at start and after the page keys). */
  predicate CursorOk(cursor: int, count: nat) {
    if count == 0 then -1 <= cursor <= 0 else 0 <= cursor < count
  }

  class AppState {
    const rcPath: Path
    var env: Env
    var notes: map<string, string>
    var aliases: seq<Alias>
    var query: string
    var filtered: seq<Alias>
    var cursor: int

    /** `aliases` is the collection from `rcPath` with the stored notes
        laid over it. */
    ghost predicate AliasesCurrent()
      reads this
    {
      aliases == Overlay(CollectSpec(env, rcPath), notes)
    }

    ghost predicate Valid()
      reads this
    {
      && AliasesCurrent()
      && filtered == FilterAliases(aliases, query)
      && CursorOk(cursor, |filtered|)
    }

    /** `__init__`: the cursor starts at 0 even when nothing is listed. */
    constructor (rcPath: Path, env: Env, loaded: map<string, string>)
      ensures Valid()
      ensures this.rcPath == rcPath && this.env == env && notes == loaded
      ensures query == "" && cursor == 0
    {
      this.rcPath := rcPath;
      this.env := env;
      notes := loaded;
      var collected := CollectAliases(env, rcPath);
      aliases := collected;
      query := "";
      filtered := [];
      cursor := 0;
      new;
      OverlayNotes();
      filtered := FilterAliases(aliases, query);
    }

    /** The loop `for a in self.aliases: if a["name"] in self.notes:
        a["note"] = self.notes[a["name"]]`. */
    method OverlayNotes()
      modifies this
      ensures aliases == Overlay(old(aliases), notes)
      ensures env == old(env) && notes == old(notes) && query == old(query)
      ensures filtered == old(filtered) && cursor == old(cursor)
    {
      ghost var before := aliases;
      for i := 0 to |aliases|
        invariant |aliases| == |before|
        invariant forall k | 0 <= k < i :: aliases[k] == WithStoredNote(before[k], notes)
        invariant forall k | i <= k < |aliases| :: aliases[k] == before[k]
        invariant env == old(env) && notes == old(notes) && query == old(query)
        invariant filtered == old(filtered) && cursor == old(cursor)
      {
        var a := aliases[i];
        if a.name in notes {
          aliases := aliases[i := a.(note := notes[a.name])];
        }
      }
    }

    /** `apply_filter(q)`: the query is replaced, the list recomputed and
        the cursor put on its first entry, or -1 when it is empty. */
    method ApplyFilter(q: string)
      requires AliasesCurrent()
      modifies this
      ensures Valid()
      ensures query == q && filtered == FilterAliases(aliases, q)
      ensures cursor == (if filtered == [] then -1 else 0)
      ensures env == old(env) && notes == old(notes) && aliases == old(aliases)
    {
      var f := FilterAliases(aliases, q);
      query := q;
      filtered := f;
      cursor := if |f| == 0 then -1 else 0;
    }

    /** `reload()`, given the notes just loaded and the file system as it
        is now: everything is collected afresh and the query applied
        again. */
    method Reload(env': Env, loaded: map<string, string>)
      modifies this
      ensures Valid()
      ensures env == env' && notes == loaded && query == old(query)
      ensures cursor == (if filtered == [] then -1 else 0)
    {
      notes := loaded;
      env := env';
      var collected := CollectAliases(env, rcPath);
      aliases := collected;
      OverlayNotes();
      ApplyFilter(query);
    }

    /** `current()`: the entry under the cursor, if the cursor is on one.
        In a valid state there is one exactly when the list is not
        empty, and it is an alias that passes the query. */
    function Current(): (r: Option<Alias>)
      reads this
      ensures r.Some? <==> 0 <= cursor < |filtered|
      ensures r.Some? ==> r.value == filtered[cursor]
      ensures Valid() ==> (r.Some? <==> filtered != [])
      ensures Valid() && r.Some? ==> r.value in aliases && (Blank(query) || MatchScore(r.value, query) > 0)
    {
      if 0 <= cursor < |filtered| then
        var a := filtered[cursor];
        FilterMembers(aliases, query, a);
        Some(a)
      else None
    }

    /** The down arrow: one entry further unless on the last one. */
    method Down()
      requires Valid()
      modifies this
      ensures Valid()
      ensures cursor == (if old(cursor) < |filtered| - 1 then old(cursor) + 1 else old(cursor))
      ensures env == old(env) && notes == old(notes) && aliases == old(aliases)
      ensures query == old(query) && filtered == old(filtered)
    {
      if cursor < |filtered| - 1 {
        cursor := cursor + 1;
      }
    }

    /** The up arrow: one entry back unless on the first one. */
    method Up()
      requires Valid()
      modifies this
      ensures Valid()
      ensures cursor == (if old(cursor) > 0 then old(cursor) - 1 else old(cursor))
      ensures env == old(env) && notes == old(notes) && aliases == old(aliases)
      ensures query == old(query) && filtered == old(filtered)
    {
      if cursor > 0 {
        cursor := cursor - 1;
      }
    }

    /** Page up: ten entries back, stopping at the first. */
    method PageUp()
      requires Valid()
      modifies this
      ensures Valid()
      ensures cursor == Max(0, old(cursor) - 10)
      ensures env == old(env) && notes == old(notes) && aliases == old(aliases)
      ensures query == old(query) && filtered == old(filtered)
    {
      cursor := Max(0, cursor - 10);
    }

    /** Page down: ten entries further, stopping at the last, and at 0 on
        an empty list. */
    method PageDown()
      requires Valid()
      modifies this
      ensures Valid()
      ensures cursor == Min(Max(0, |filtered| - 1), old(cursor) + 10)
      ensures env == old(env) && notes == old(notes) && aliases == old(aliases)
      ensures query == old(query) && filtered == old(filtered)
    {
      cursor := Min(Max(0, |filtered| - 1), cursor + 10);
    }

    /** The note editor: with an alias selected and the dialog confirmed
        with `text`, the notes map is updated for that alias, saved, and
        everything reloaded, which reads the saved notes back; otherwise
        nothing changes. */
    method EditNote(text: Option<string>, env': Env)
      requires Valid()
      modifies this
      ensures Valid()
      ensures old(Current()).None? || text.None? ==>
                env == old(env) && notes == old(notes) && aliases == old(aliases)
                && query == old(query) && filtered == old(filtered) && cursor == old(cursor)
      ensures old(Current()).Some? && text.Some? ==>
                notes == UpdateNotes(old(notes), old(Current()).value.name, text.value)
                && env == env' && query == old(query)
                && cursor == (if filtered == [] then -1 else 0)
    {
      var a := Current();
      if a.None? || text.None? {
        return;
      }
      var name := a.value.name;
      if !Blank(text.value) {
        notes := notes[name := Strip(text.value)];
      } else {
        notes := notes - {name};
      }
      Reload(env', notes);
    }
  }

  function Max(a: int, b: int): int {
    if a >= b then a else b
  }

  function Min(a: int, b: int): int {
    if a <= b then a else b
  }

  // ---------------------------------------------------------------------
  // Properties of the notes

  /** Laying the same notes over twice changes nothing more. */
  lemma OverlayIdempotent(aliases: seq<Alias>, notes: map<string, string>)
    ensures Overlay(Overlay(aliases, notes), notes) == Overlay(aliases, notes)
  {
  }

  /** The overlay keeps every name where it was, so the collected list
      stays sorted by lower-cased name with no name twice. */
  lemma OverlayKeepsOrder(aliases: seq<Alias>, notes: map<string, string>)
    requires SortedBy(aliases, NameKey) && NamesDistinct(aliases)
    ensures SortedBy(Overlay(aliases, notes), NameKey) && NamesDistinct(Overlay(aliases, notes))
  {
    var r := Overlay(aliases, notes);
    assert forall i | 0 <= i < |r| :: NameKey(r[i]) == NameKey(aliases[i]) && r[i].name == aliases[i].name;
  }

  /** After an edit, the record of the edited alias carries the saved
      note, or its own parsed note once a blank text removed the stored
      one. */
  lemma EditShowsNote(aliases: seq<Alias>, notes: map<string, string>, name: string, text: string, i: nat)
    requires i < |aliases| && aliases[i].name == name
    ensures var r := Overlay(aliases, UpdateNotes(notes, name, text));
            r[i].note == (if Blank(text) then aliases[i].note else Strip(text))
  {
  }

  /** In a valid state the list is the collected aliases in order of
      lower-cased name, no name twice, each carrying its stored note if
      it has one. */
  lemma ValidAliasesSorted(s: AppState)
    requires s.Valid()
    ensures SortedBy(s.aliases, NameKey) && NamesDistinct(s.aliases)
  {
    CollectSorted(s.env, s.rcPath);
    CollectNamesUnique(s.env, s.rcPath);
    OverlayKeepsOrder(CollectSpec(s.env, s.rcPath), s.notes);
  }
}
