# CyberNotes note store — a Dafny model

CyberNotes is a small note-taking application for security practitioners.
Notes live in a SQLite table `knowledge`. Deleting a note moves it into a
second table, `deleted_knowledge` (the trash). From there it can be restored
or erased for good. A note may also be a *shortcut*: a note whose
`linked_to_note_id` names another note.

This project models the storage layer of that application as one immutable
value and its operations as pure transitions:

- `Store(active, trash, nextId)` holds the two tables, keyed by id, and the
  AUTOINCREMENT counter. `nextId` is the id the next plain insert receives.
  That reading holds under the invariant `Inv`, which every reachable
  database satisfies. Outside it, `Lifecycle.Create` would overwrite a row
  already stored at `nextId`, which SQLite never does.
- It also models the small pieces of logic in the interface script that
  decide what gets written:
  - the subcategory normalisation `strip().capitalize()`;
  - the target labels `"{subcategory} - {title} (id={id})"` and the
    `split("id=")[-1].strip(")")` parse that reads an id back out of them;
  - the two candidate-target filters;
  - shortcut resolution.

Modules:

- `base.dfy` — `Option`.
- `schema.dfy` (`Schema`):
  - the ten-column record `Note` and the column declarations of both tables;
  - the positional tuples a `SELECT *` yields;
  - the global invariant `Inv`: both tables are keyed by the notes' own ids,
    every id is below `nextId`, and the two key sets are disjoint;
  - the setup script;
  - frames: a table read as a sequence of rows.
- `text.dfy` (`Text`): ASCII `strip`, `capitalize`, `str(int)`, `int(str)`,
  `split("id=")[-1]` and `strip(")")`. Each group of functions is followed
  by the lemmas the normalisation and the label parse need. `strip` and
  `capitalize` are characterised for every input. `int()` and `strip(")")`
  are characterised only on the rendered ids that labels contain.
- `lifecycle.dfy` (`Lifecycle`):
  - `add_knowledge`, `update_knowledge`, `delete_knowledge`,
    `restore_knowledge`, `permanently_delete` and the record loop of
    `import_data`;
  - `Run`, a whole sequence of such calls.
- `linking.dfy` (`Linking`):
  - shortcut resolution, the candidate lists, labels and their parse;
  - the "create shortcut" button, the link chosen in the edit form, and
    "remove only the shortcut".

Duplicate primary keys: the positional `INSERT`s of delete and restore would
raise `IntegrityError` on a duplicate primary key. The model keeps that error
as the `DuplicateKey` outcome, with the database unchanged. It proves that
the outcome never happens from a database satisfying `Inv`.

## Model

| member | source | states |
|---|---|---|
| Schema.ToRow | setup_db.py:7-33 | the tuple of any note is a valid row of `knowledge` and of `deleted_knowledge`: ten cells, NULL only in non-key columns, integers and text in the declared columns |
| Schema.NoteRoundTrip | main.py:35-37 | a note read back from its own tuple is the same note, so moving a row positionally loses nothing |
| Schema.RowRoundTrip | main.py:42-44 | a tuple that reads as a note is exactly that note's tuple |
| Schema.PositionalCopy | setup_db.py:7-33 | a tuple fits `knowledge` if and only if it fits `deleted_knowledge`: same columns, same order, same affinities, keys in the same place |
| Schema.Setup | setup_db.py:7-22 | setup keeps the active notes and the counter of an existing database, always leaves the trash empty, creates the empty database when none exists, and keeps the invariant |
| Schema.SetupIdempotent | setup_db.py:7-22 | running setup twice is the same as running it once |
| Schema.ListingSound | main.py:21-22 | every row in the id-ordered listing of a table is that table's row under its own id, within the listed range |
| Schema.ListingComplete | main.py:21-22 | every row of the table with an id in range is listed |
| Schema.ListingSorted | main.py:21-22 | listed ids strictly increase, so no row is listed twice |
| Schema.ListingListsActive | main.py:21-22 | under the invariant the listing of the active table is a frame holding each active row exactly once and nothing else |
| Text.TrimLeftSpec | main.py:15 | dropping leading whitespace keeps a suffix; every dropped character is whitespace and the result does not start with whitespace |
| Text.TrimRightSpec | main.py:15 | dropping trailing whitespace keeps a prefix; every dropped character is whitespace and the result does not end with whitespace |
| Text.StripSpec | main.py:15 | `strip()` returns the contiguous stretch between the leading and trailing whitespace, and that stretch neither starts nor ends with whitespace |
| Text.CapitalizeSpec | main.py:15 | `capitalize()` keeps the length, upper-cases the first character and lower-cases every other one |
| Text.NormaliseSpec | main.py:15 | the stored subcategory is in normal form, is empty for an absent input, and spells the stripped input up to letter case |
| Text.NormalFormIsFixedPoint | main.py:28 | normalisation leaves a subcategory unchanged if and only if it is already in normal form |
| Text.NormaliseIdempotent | main.py:28 | normalising an already normalised subcategory changes nothing |
| Text.IntRoundTrip | main.py:122 | `int(str(n)) == n` for every integer id |
| Text.LastFieldSpec | main.py:122 | `split("id=")[-1]` returns a suffix of its input that contains no `id=` |
| Text.LastFieldAfterMarker | main.py:122 | for `a + "id=" + b`, whatever `a` holds, the last field is the last field of `b` |
| Text.StripClosing | main.py:122 | `strip(")")` removes exactly the closing parenthesis after a rendered id |
| Text.ParseAfterMarker | main.py:122 | any text ending in `"id=" + str(n) + ")"` parses to `n`, whatever precedes it |
| Lifecycle.Create | main.py:14-19 | a create adds exactly the key `nextId` and advances the counter by one; the trash and every other row are unchanged |
| Lifecycle.CreateStoresDraft | main.py:14-18 | the created row has the handed-out id and every field as given, with the subcategory normalised; the acting user is both creator and last modifier |
| Lifecycle.CreateKeepsInvariant | main.py:14-19 | under the invariant the new id is fresh in both tables, the active table grows by one, and the invariant holds again |
| Lifecycle.CreateKeepsTidy | main.py:15-18 | if every stored subcategory is normalised before a create, this still holds after it |
| Lifecycle.Update | main.py:27-32 | for an active id, the row gets the draft's fields (subcategory normalised) and the actor as last modifier, and keeps its id and creator; an absent id changes nothing; keys, trash, counter and other rows are untouched; invariant and normalised subcategories are kept |
| Lifecycle.SoftDelete | main.py:34-39 | an active id moves verbatim into the trash under the same id and leaves the active table; other rows are untouched; an absent id changes nothing; a duplicate trash key yields the integrity error, which the invariant rules out |
| Lifecycle.Restore | main.py:41-46 | the symmetric move back; an absent id changes nothing; under the invariant it never collides and the counter is unchanged |
| Lifecycle.Purge | main.py:48-50 | removes only that id from the trash; the active table and the counter are untouched; the invariant is kept |
| Lifecycle.DeleteThenRestore | main.py:34-46 | soft delete followed by restore gives back the database exactly |
| Lifecycle.RestoreThenDelete | main.py:34-46 | restore followed by soft delete gives back the database exactly |
| Lifecycle.PurgeIdempotent | main.py:48-50 | purging twice is purging once |
| Lifecycle.RestoreAfterPurge | main.py:41-50 | after a purge, restoring the same id does nothing |
| Lifecycle.DeleteThenPurge | main.py:34-50 | delete then purge removes the id from both tables; a later restore does nothing and the id stays below the counter |
| Lifecycle.ImportRows | main.py:58-61 | an import of n records advances the counter by n and leaves the trash alone |
| Lifecycle.ImportRowsFrame | main.py:58-61 | rows present before the import are unchanged, and every new row has an id in the n ids handed out |
| Lifecycle.ImportRowsContents | main.py:60-61 | the i-th record becomes the note with id `nextId + i`, built from the record, with creator "Anonymous" when the column is missing, tool "" when missing, and no link |
| Lifecycle.ImportKeepsInvariant | main.py:58-61 | an import keeps the invariant and normalised subcategories and adds exactly one active row per record |
| Lifecycle.StepKeepsInvariant | main.py:14-61 | from a database satisfying the invariant no single call raises a duplicate-key error, the invariant holds after it, and the counter does not go back |
| Lifecycle.RunKeepsInvariant | main.py:14-61 | the same for any sequence of calls |
| Lifecycle.IdsNeverReused | setup_db.py:8 | after any sequence of calls every id that existed before is below the counter, so no later insert reuses it, even after a purge |
| Linking.FirstIndex | main.py:166-168 | finds the first frame position holding the id, or reports that no row has it |
| Linking.FindById | main.py:166-168 | a row is found exactly when some row of the frame has the id, and the row found has that id |
| Linking.ResolveShortcut | main.py:164-171 | a row resolves exactly when its link is non-null and the frame holds a row with that id; the result is that row |
| Linking.ResolveInStore | main.py:164-171 | over a frame listing the active table, resolution is the active row the link names, and nothing when that id is not active |
| Linking.DanglingAfterDelete | main.py:164-171 | deleting a shortcut's target succeeds, leaves the shortcut row as it was, and the shortcut then resolves to nothing |
| Linking.ShortcutTargets | main.py:117 | the candidates for a new shortcut are exactly the frame rows with a null link |
| Linking.ShortcutTargetsInOrder | main.py:117-118 | the candidates keep frame order: they sit at strictly increasing frame positions, and every null-link row's position is among them |
| Linking.TargetsAreNotShortcuts | main.py:117 | no candidate is displayed as a shortcut, whatever frame it is resolved against |
| Linking.DanglingNoteIsNoTarget | main.py:117 | a note whose link dangles is not displayed as a shortcut, yet it is not offered as a target either |
| Linking.LinkTargets | main.py:193 | the link candidates when editing a note are exactly the other frame rows whose subcategory is not NULL |
| Linking.LinkTargetsInOrder | main.py:193-194 | the link candidates keep frame order: strictly increasing positions, covering every other row with a subcategory |
| Linking.LabelRoundTrip | main.py:118-122 | parsing a note's label gives back its id, for any subcategory and title, even ones containing `id=` or `)` |
| Linking.Choices | main.py:194 | the i-th option is the label of the i-th candidate |
| Linking.ChoicesRoundTrip | main.py:194-198 | whichever option is chosen, parsing it names the candidate it stands for |
| Linking.CreateShortcut | main.py:121-132 | the button succeeds exactly when a label is chosen and parses; it then adds one note at `nextId`, linked to the parsed id, with empty content, no image and the actor as creator, and every row already stored keeps its value |
| Linking.ShortcutReachesPick | main.py:117-132 | picking any candidate from a frame listing the active table creates a shortcut that resolves, in the new active table, to exactly the note picked, which is active and has no link |
| Linking.EditedLinkOfLabel | main.py:195-198 | a note's label is never read as "Aucun", and choosing it links to exactly that note's id |
| Linking.EditLinkNeverSelf | main.py:193-198 | every option of the edit form yields either no link (only "Aucun") or the id of another note of the frame with a subcategory, never the edited note itself |
| Linking.Unlink | main.py:222-224 | removing a shortcut keeps the keys, trash and counter, and leaves the row with a null link |
| Linking.UnlinkOnlyClearsLink | main.py:222-224 | on a row with a normalised subcategory, unlinking changes exactly the link (to NULL) and the last modifier (to the actor) |

## Behaviour as written

These points of the code are easy to misread; the model follows the code
in each:

- Normalisation: `capitalize()` lower-cases every character after the first.
  "Linux Tools" is stored as "Linux tools". Normalisation does more than
  trim and capitalise the first letter.
- Shortcuts: a note is displayed as a shortcut only when its link is
  non-null *and* the target is among the rows at hand (main.py:165-171).
  A non-null link alone is not enough. A note with a dangling link is shown
  as an ordinary note, and its edit form is offered.
- New-shortcut candidates: these are the notes with a NULL link
  (main.py:117). They are not the same as the notes that are not displayed
  as shortcuts: a note with a dangling link is neither
  (`Linking.DanglingNoteIsNoTarget`).
- Edit-link candidates: the filter is `notna()` (main.py:193). A note whose
  subcategory is the empty string (what `add_knowledge` stores for a blank
  subcategory) is therefore still offered; only NULL subcategories are left
  out.
- Restore: an explicit-id insert moves SQLite's AUTOINCREMENT counter to at
  least `id + 1`, so `Restore` does that too. Under the invariant the
  counter is unchanged.

## Left out

- The Streamlit interface: widgets, reruns, icons, the LaTeX/Markdown switch,
  the category list and the subcategory list of the add form (main.py:73-108,
  138-161). Frames are parameters. The lemmas about frames assume the frame
  lists the current active table, which is what a rerun reads at main.py:73.
- The keyword search (main.py:144-147) and the subcategory filter
  (main.py:157-161). They only narrow the frame. Resolution is stated for
  every frame, so it covers the narrowed one at main.py:166 too.
- Image uploads and `os.path.exists` (main.py:100-106, 183, 202-208) are
  file-system I/O. `image_path` is an ordinary field of the draft.
- CSV reading and writing (`export_data`, `pd.read_csv`) are library I/O.
  The import is modelled on already-parsed records. An empty CSV cell reads
  as NaN. A NaN subcategory makes `strip()` raise. In every other cell, the
  database driver binds NaN as a float and SQLite stores it as NULL. None of
  this is modelled: the subcategory of a record is a string.
- `category`, `title`, `content`, `created_by`, `last_modified_by` and
  `tool` are modelled as NOT NULL text. The columns are nullable, and an
  import can leave them NULL. For example, an exported shortcut's empty
  `content` reads back as NaN and is stored as NULL. The application never
  writes NULL there otherwise.
- Integer width: SQLite ids are 64-bit, and AUTOINCREMENT fails with
  SQLITE_FULL once the counter reaches 2^63-1. `nextId` is an unbounded
  integer. That limit is unreachable in practice.
- Connections and commits are not modelled, and each storage function is
  one atomic step. A crash between the `INSERT` and the `DELETE` of a move
  is not modelled.
- Non-ASCII text: `isspace`, `upper` and `lower` are modelled for ASCII
  only. Unicode whitespace and special case mappings are out.
- `int()` also accepts surrounding whitespace and underscores between
  digits. The model accepts an optional sign and digits only. Labels built
  by the application never have either in their id part, so the round trips
  are unaffected.
- Pandas stores the link column as floats once it holds a NULL. Ids compare
  equal either way, so links are integers in the model.
- The database returns the rows of `SELECT *` without `ORDER BY` in an
  unspecified order. `Schema.Listing` uses ascending id order, the order of
  a plain scan of the table.
- Linking.CreateShortcut: the contract names the link, content, image and
  creator of the new note, and says every other row keeps its value. The other fields follow from `Lifecycle.Create`
  and `Lifecycle.CreateStoresDraft` instead of being restated: category and
  title are stored as given, the subcategory is normalised on the way in
  (main.py:15, so " linux Tools " is stored as "Linux tools"), and the tool
  is "".
