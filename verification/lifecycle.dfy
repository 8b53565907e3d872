/** The storage functions of the application as total transitions of the
    database value: create, update, soft delete, restore, purge and the row
    loop of the import. Each call is treated as one atomic step. */
module Lifecycle {
  import opened Base
  import opened Text
  import opened Schema

  /** The fields a form passes to `add_knowledge` / `update_knowledge`,
      apart from the target id and the acting user. */
  datatype Draft = Draft(
    category: string,
    subcategory: Option<string>,
    title: string,
    content: string,
    imagePath: Option<string>,
    tool: string,
    linkedTo: Option<int>)

  /** The fields of a stored note, as a form would pass them back. */
  function DraftOf(n: Note): Draft {
    Draft(n.category, n.subcategory, n.title, n.content, n.imagePath, n.tool, n.linkedTo)
  }

  /** The result of a transition that inserts a row with an explicit id:
      either the new database, or the `IntegrityError` the primary key raises
      when that id is already taken, which leaves the database as it was. */
  datatype Outcome = Done(store: Store) | DuplicateKey(id: int)

  /** A subcategory as the application writes it: present and normalised. */
  predicate NormalSubcategory(n: Note) {
    n.subcategory.Some? && IsNormalForm(n.subcategory.value)
  }

  predicate NormalSubcategories(m: map<int, Note>) {
    forall k :: k in m ==> NormalSubcategory(m[k])
  }

  predicate Tidy(s: Store) {
    NormalSubcategories(s.active) && NormalSubcategories(s.trash)
  }

  /** The note `add_knowledge` stores for draft `d` under `id`. */
  function NewNote(id: int, d: Draft, actor: string): Note {
    Note(id, d.category, Some(NormaliseSubcategory(d.subcategory)), d.title, d.content,
         d.imagePath, actor, actor, d.tool, d.linkedTo)
  }

  /** `add_knowledge`: inserts one row under the next AUTOINCREMENT id and
      advances the counter; the trash and every other row are untouched. */
  function Create(s: Store, d: Draft, actor: string): (r: Store)
    ensures r.nextId == s.nextId + 1 && r.trash == s.trash
    ensures r.active.Keys == s.active.Keys + {s.nextId}
    ensures forall k :: k in s.active && k != s.nextId ==> r.active[k] == s.active[k]
    ensures r.active[s.nextId] == NewNote(s.nextId, d, actor)
  {
    Store(s.active[s.nextId := NewNote(s.nextId, d, actor)], s.trash, s.nextId + 1)
  }

  /** The row `add_knowledge` writes: its id is the one handed out, every
      field is stored as given (the subcategory normalised), and the acting
      user is both creator and last modifier. */
  lemma CreateStoresDraft(s: Store, d: Draft, actor: string)
    ensures var n := Create(s, d, actor).active[s.nextId];
      && n.id == s.nextId
      && DraftOf(n) == d.(subcategory := Some(NormaliseSubcategory(d.subcategory)))
      && n.createdBy == actor
      && n.lastModifiedBy == actor
  {
  }

  /** Under the invariant the id handed out is fresh in both tables, the
      active table grows by exactly one row, and the invariant holds again. */
  lemma CreateKeepsInvariant(s: Store, d: Draft, actor: string)
    requires Inv(s)
    ensures s.nextId !in s.active && s.nextId !in s.trash
    ensures Inv(Create(s, d, actor))
    ensures |Create(s, d, actor).active| == |s.active| + 1
  {
    var r := Create(s, d, actor);
    assert s.nextId !in s.active;
    assert r.active == s.active[s.nextId := NewNote(s.nextId, d, actor)];
    forall k | k in r.active
      ensures 1 <= k < r.nextId && r.active[k].id == k
    {
      if k != s.nextId {
        assert k in s.active;
      }
    }
    assert KeyedBelow(r.active, r.nextId);
    assert KeyedBelow(r.trash, r.nextId);
  }

  /** A created row carries a normalised subcategory. */
  lemma CreateKeepsTidy(s: Store, d: Draft, actor: string)
    requires Tidy(s)
    ensures Tidy(Create(s, d, actor))
  {
    NormaliseSpec(d.subcategory);
    assert NormalSubcategory(NewNote(s.nextId, d, actor));
  }

  /** `update_knowledge`: when `id` names an active row, overwrites every
      mutable column and stamps the acting user as last modifier, keeping the
      id and the creator; when it does not, nothing changes. The trash, the id
      counter and every other row are left alone. */
  function Update(s: Store, id: int, d: Draft, actor: string): (r: Store)
    ensures r.trash == s.trash && r.nextId == s.nextId && r.active.Keys == s.active.Keys
    ensures id !in s.active ==> r == s
    ensures id in s.active ==>
      var prev := s.active[id];
      var n := r.active[id];
      && n.id == prev.id
      && n.createdBy == prev.createdBy
      && n.lastModifiedBy == actor
      && DraftOf(n) == d.(subcategory := Some(NormaliseSubcategory(d.subcategory)))
    ensures forall k :: k in s.active && k != id ==> r.active[k] == s.active[k]
    ensures Inv(s) ==> Inv(r)
    ensures Tidy(s) ==> Tidy(r)
  {
    if id in s.active then
      NormaliseSpec(d.subcategory);
      var prev := s.active[id];
      var n := Note(prev.id, d.category, Some(NormaliseSubcategory(d.subcategory)), d.title,
                    d.content, d.imagePath, prev.createdBy, actor, d.tool, d.linkedTo);
      Store(s.active[id := n], s.trash, s.nextId)
    else
      s
  }

  /** `delete_knowledge`: moves the active row `id` into the trash verbatim,
      under the same id. Nothing happens when `id` is not active; the insert
      into the trash fails when the trash already holds `id`, which the
      invariant rules out. */
  function SoftDelete(s: Store, id: int): (r: Outcome)
    ensures id !in s.active ==> r == Done(s)
    ensures id in s.active && id in s.trash ==> r == DuplicateKey(id)
    ensures id in s.active && id !in s.trash ==>
      && r.Done?
      && r.store.nextId == s.nextId
      && r.store.active.Keys == s.active.Keys - {id}
      && r.store.trash.Keys == s.trash.Keys + {id}
      && r.store.trash[id] == s.active[id]
      && (forall k :: k in r.store.active ==> r.store.active[k] == s.active[k])
      && (forall k :: k in s.trash ==> r.store.trash[k] == s.trash[k])
    ensures Inv(s) ==> r.Done? && Inv(r.store)
    ensures Tidy(s) && r.Done? ==> Tidy(r.store)
  {
    if id !in s.active then Done(s)
    else if id in s.trash then DuplicateKey(id)
    else Done(Store(s.active - {id}, s.trash[id := s.active[id]], s.nextId))
  }

  /** `restore_knowledge`: moves the trashed row `id` back into the active
      table verbatim, under the same id. Nothing happens when `id` is not in
      the trash; the insert fails when `id` is already active, which the
      invariant rules out. An explicit id at or above the counter would push
      the counter past it; under the invariant the counter is unchanged. */
  function Restore(s: Store, id: int): (r: Outcome)
    ensures id !in s.trash ==> r == Done(s)
    ensures id in s.trash && id in s.active ==> r == DuplicateKey(id)
    ensures id in s.trash && id !in s.active ==>
      && r.Done?
      && r.store.nextId >= s.nextId && id < r.store.nextId
      && r.store.trash.Keys == s.trash.Keys - {id}
      && r.store.active.Keys == s.active.Keys + {id}
      && r.store.active[id] == s.trash[id]
      && (forall k :: k in r.store.trash ==> r.store.trash[k] == s.trash[k])
      && (forall k :: k in s.active ==> r.store.active[k] == s.active[k])
    ensures Inv(s) ==> r.Done? && Inv(r.store) && r.store.nextId == s.nextId
    ensures Tidy(s) && r.Done? ==> Tidy(r.store)
  {
    if id !in s.trash then Done(s)
    else if id in s.active then DuplicateKey(id)
    else
      var counter := if id < s.nextId then s.nextId else id + 1;
      Done(Store(s.active[id := s.trash[id]], s.trash - {id}, counter))
  }

  /** `permanently_delete`: erases `id` from the trash, if present. The
      active table and the id counter are untouched, so a purged id is never
      handed out again. */
  function Purge(s: Store, id: int): (r: Store)
    ensures r.active == s.active && r.nextId == s.nextId
    ensures r.trash.Keys == s.trash.Keys - {id}
    ensures forall k :: k in r.trash ==> r.trash[k] == s.trash[k]
    ensures Inv(s) ==> Inv(r)
    ensures Tidy(s) ==> Tidy(r)
  {
    Store(s.active, s.trash - {id}, s.nextId)
  }

  /** Soft delete followed by restore gives back the database exactly. */
  lemma DeleteThenRestore(s: Store, id: int)
    requires Inv(s) && id in s.active
    ensures SoftDelete(s, id).Done?
    ensures Restore(SoftDelete(s, id).store, id) == Done(s)
  {
    var d := SoftDelete(s, id).store;
    assert d.active[id := d.trash[id]] == s.active;
    assert d.trash - {id} == s.trash;
  }

  /** Restore followed by soft delete gives back the database exactly. */
  lemma RestoreThenDelete(s: Store, id: int)
    requires Inv(s) && id in s.trash
    ensures Restore(s, id).Done?
    ensures SoftDelete(Restore(s, id).store, id) == Done(s)
  {
    var r := Restore(s, id).store;
    assert r.active - {id} == s.active;
    assert r.trash[id := r.active[id]] == s.trash;
  }

  /** Purging twice is purging once. */
  lemma PurgeIdempotent(s: Store, id: int)
    ensures Purge(Purge(s, id), id) == Purge(s, id)
  {
  }

  /** After a purge, restoring the same id does nothing. */
  lemma RestoreAfterPurge(s: Store, id: int)
    ensures Restore(Purge(s, id), id) == Done(Purge(s, id))
  {
  }

  /** Soft delete then purge erases a note from both tables for good: a
      later restore does nothing, and no later insert reuses its id. */
  lemma DeleteThenPurge(s: Store, id: int)
    requires Inv(s) && id in s.active
    ensures SoftDelete(s, id).Done?
    ensures var p := Purge(SoftDelete(s, id).store, id);
      && id !in p.active && id !in p.trash
      && Restore(p, id) == Done(p)
      && id < p.nextId
  {
  }

  /* ---------------------------------------------------------------------
     Import: one `add_knowledge` per already-parsed record.
     --------------------------------------------------------------------- */

  /** One record of an imported file. `None` marks an optional column the
      file does not have; the subcategory column is read unconditionally. */
  datatype ImportRow = ImportRow(
    category: string,
    subcategory: string,
    title: string,
    content: string,
    imagePath: Option<string>,
    createdBy: Option<string>,
    tool: Option<string>)

  /** The arguments the import passes to `add_knowledge` for one record:
      a missing creator defaults to "Anonymous", a missing tool to "", and
      no link is ever carried over. */
  function ImportDraft(row: ImportRow): Draft {
    Draft(row.category, Some(row.subcategory), row.title, row.content, row.imagePath,
          match row.tool case None => "" case Some(t) => t, None)
  }

  function ImportActor(row: ImportRow): string {
    match row.createdBy
    case None => "Anonymous"
    case Some(a) => a
  }

  /** The row loop of `import_data`: one `add_knowledge` per record, in
      file order. The counter advances by one per record and the trash is
      untouched. */
  function ImportRows(s: Store, rows: seq<ImportRow>): (r: Store)
    ensures r.trash == s.trash
    ensures r.nextId == s.nextId + |rows|
    decreases |rows|
  {
    if rows == [] then s
    else
      var last := rows[|rows| - 1];
      Create(ImportRows(s, rows[..|rows| - 1]), ImportDraft(last), ImportActor(last))
  }

  /** Rows the import does not create are left as they were, and the only
      rows it adds have ids in [nextId, nextId + |rows|). */
  lemma {:induction false} ImportRowsFrame(s: Store, rows: seq<ImportRow>)
    ensures forall k :: k in ImportRows(s, rows).active ==>
      k in s.active || s.nextId <= k < s.nextId + |rows|
    ensures forall k :: k in s.active && !(s.nextId <= k < s.nextId + |rows|) ==>
      k in ImportRows(s, rows).active && ImportRows(s, rows).active[k] == s.active[k]
    decreases |rows|
  {
    if rows != [] {
      ImportRowsFrame(s, rows[..|rows| - 1]);
    }
  }

  /** The i-th record becomes the note with id `nextId + i`: its fields are
      taken from the record, its creator defaults to "Anonymous", and it
      carries no link. */
  lemma {:induction false} ImportRowsContents(s: Store, rows: seq<ImportRow>, i: int)
    requires 0 <= i < |rows|
    ensures s.nextId + i in ImportRows(s, rows).active
    ensures ImportRows(s, rows).active[s.nextId + i] ==
      NewNote(s.nextId + i, ImportDraft(rows[i]), ImportActor(rows[i]))
    decreases |rows|
  {
    var init := rows[..|rows| - 1];
    var last := rows[|rows| - 1];
    var before := ImportRows(s, init);
    assert ImportRows(s, rows) == Create(before, ImportDraft(last), ImportActor(last));
    if i < |init| {
      ImportRowsContents(s, init, i);
      assert init[i] == rows[i];
    }
  }

  /** An import keeps the invariant and tidy subcategories, and adds
      exactly one active row per record. */
  lemma {:induction false} ImportKeepsInvariant(s: Store, rows: seq<ImportRow>)
    requires Inv(s)
    ensures Inv(ImportRows(s, rows))
    ensures |ImportRows(s, rows).active| == |s.active| + |rows|
    ensures Tidy(s) ==> Tidy(ImportRows(s, rows))
    decreases |rows|
  {
    if rows != [] {
      var init := rows[..|rows| - 1];
      var last := rows[|rows| - 1];
      ImportKeepsInvariant(s, init);
      CreateKeepsInvariant(ImportRows(s, init), ImportDraft(last), ImportActor(last));
      if Tidy(s) {
        CreateKeepsTidy(ImportRows(s, init), ImportDraft(last), ImportActor(last));
      }
    }
  }

  /* ---------------------------------------------------------------------
     Whole histories.
     --------------------------------------------------------------------- */

  /** One call into the storage layer. */
  datatype Op =
    | Add(draft: Draft, actor: string)
    | Edit(id: int, draft: Draft, actor: string)
    | Delete(id: int)
    | Undelete(id: int)
    | Erase(id: int)
    | Import(rows: seq<ImportRow>)

  function Step(s: Store, op: Op): Outcome {
    match op
    case Add(d, a) => Done(Create(s, d, a))
    case Edit(id, d, a) => Done(Update(s, id, d, a))
    case Delete(id) => SoftDelete(s, id)
    case Undelete(id) => Restore(s, id)
    case Erase(id) => Done(Purge(s, id))
    case Import(rows) => Done(ImportRows(s, rows))
  }

  /** Under the invariant no single call hits a duplicate key; the
      invariant and tidy subcategories survive and the counter never goes
      back. */
  lemma StepKeepsInvariant(s: Store, op: Op)
    requires Inv(s)
    ensures Step(s, op).Done?
    ensures Inv(Step(s, op).store) && Step(s, op).store.nextId >= s.nextId
    ensures Tidy(s) ==> Tidy(Step(s, op).store)
  {
    match op
    case Add(d, a) =>
      CreateKeepsInvariant(s, d, a);
      if Tidy(s) {
        CreateKeepsTidy(s, d, a);
      }
    case Import(rows) =>
      ImportKeepsInvariant(s, rows);
    case _ =>
  }

  /** An id once handed out is never handed out again: every id present
      before a sequence of calls stays below the counter after it, so the
      next insert cannot reuse it, even if the note was purged meanwhile. */
  lemma IdsNeverReused(s: Store, ops: seq<Op>)
    requires Inv(s)
    ensures Run(s, ops).Done?
    ensures forall k :: k in s.active || k in s.trash ==> k < Run(s, ops).store.nextId
  {
    RunKeepsInvariant(s, ops);
  }

  /** A sequence of calls, stopping at the first `IntegrityError`. */
  function Run(s: Store, ops: seq<Op>): Outcome
    decreases |ops|
  {
    if ops == [] then Done(s)
    else
      match Step(s, ops[0])
      case DuplicateKey(k) => DuplicateKey(k)
      case Done(s') => Run(s', ops[1..])
  }

  /** From any database satisfying the invariant, no sequence of calls ever
      hits a duplicate key, the invariant and tidy subcategories survive, and
      the id counter never goes back, so ids are never reused. */
  lemma {:induction false} RunKeepsInvariant(s: Store, ops: seq<Op>)
    requires Inv(s)
    ensures Run(s, ops).Done?
    ensures Inv(Run(s, ops).store)
    ensures Run(s, ops).store.nextId >= s.nextId
    ensures Tidy(s) ==> Tidy(Run(s, ops).store)
    decreases |ops|
  {
    if ops != [] {
      StepKeepsInvariant(s, ops[0]);
      RunKeepsInvariant(Step(s, ops[0]).store, ops[1..]);
    }
  }
}
