/** The note database: the `knowledge` table of active notes, its mirror
    `deleted_knowledge` (the trash), the AUTOINCREMENT counter behind new ids,
    and the setup script that creates the tables. */
module Schema {
  import opened Base

  /** One row of either table: the ten columns in declaration order.
      `imagePath` and `linkedTo` are the cells the application itself
      leaves NULL. `subcategory` is a nullable column too, but the
      application always writes a string into it. */
  datatype Note = Note(
    id: int,
    category: string,
    subcategory: Option<string>,
    title: string,
    content: string,
    imagePath: Option<string>,
    createdBy: string,
    lastModifiedBy: string,
    tool: string,
    linkedTo: Option<int>)

  /** The whole database as one value. `nextId` is the id the next insert
      without an explicit id receives: one more than the largest id the
      AUTOINCREMENT key has ever seen. */
  datatype Store = Store(active: map<int, Note>, trash: map<int, Note>, nextId: int)

  /* ---------------------------------------------------------------------
     Column shape: both tables declare the same ten columns in the same order,
     which is what lets a row fetched from one be inserted positionally into
     the other.
     --------------------------------------------------------------------- */

  datatype Affinity = IntegerAffinity | TextAffinity

  /** `id` is an AUTOINCREMENT primary key in `knowledge` and a plain primary
      key in `deleted_knowledge`; no other column is a key, and there is no
      foreign key anywhere. */
  datatype KeyKind = NoKey | PrimaryKey | AutoIncrementKey

  datatype Column = Column(name: string, affinity: Affinity, key: KeyKind)

  const KnowledgeColumns: seq<Column> := [
    Column("id", IntegerAffinity, AutoIncrementKey),
    Column("category", TextAffinity, NoKey),
    Column("subcategory", TextAffinity, NoKey),
    Column("title", TextAffinity, NoKey),
    Column("content", TextAffinity, NoKey),
    Column("image_path", TextAffinity, NoKey),
    Column("created_by", TextAffinity, NoKey),
    Column("last_modified_by", TextAffinity, NoKey),
    Column("tool", TextAffinity, NoKey),
    Column("linked_to_note_id", IntegerAffinity, NoKey)
  ]

  const DeletedColumns: seq<Column> := [
    Column("id", IntegerAffinity, PrimaryKey),
    Column("category", TextAffinity, NoKey),
    Column("subcategory", TextAffinity, NoKey),
    Column("title", TextAffinity, NoKey),
    Column("content", TextAffinity, NoKey),
    Column("image_path", TextAffinity, NoKey),
    Column("created_by", TextAffinity, NoKey),
    Column("last_modified_by", TextAffinity, NoKey),
    Column("tool", TextAffinity, NoKey),
    Column("linked_to_note_id", IntegerAffinity, NoKey)
  ]

  /** A cell as the database driver hands it over. */
  datatype Value = Null | Integer(i: int) | Text(s: string)

  /** A key column never holds NULL; any other column may. */
  predicate Fits(v: Value, c: Column) {
    match v
    case Null => c.key == NoKey
    case Integer(_) => c.affinity == IntegerAffinity
    case Text(_) => c.affinity == TextAffinity
  }

  predicate Conforms(row: seq<Value>, columns: seq<Column>) {
    |row| == |columns| && forall i :: 0 <= i < |row| ==> Fits(row[i], columns[i])
  }

  function TextCell(v: Option<string>): Value {
    match v
    case None => Null
    case Some(t) => Text(t)
  }

  function IntegerCell(v: Option<int>): Value {
    match v
    case None => Null
    case Some(k) => Integer(k)
  }

  /** The tuple `SELECT *` yields for a note: a valid row of BOTH tables. */
  function ToRow(n: Note): (row: seq<Value>)
    ensures Conforms(row, KnowledgeColumns) && Conforms(row, DeletedColumns)
  {
    [ Integer(n.id), Text(n.category), TextCell(n.subcategory), Text(n.title),
      Text(n.content), TextCell(n.imagePath), Text(n.createdBy),
      Text(n.lastModifiedBy), Text(n.tool), IntegerCell(n.linkedTo) ]
  }

  /** Reads a positional ten-value tuple as a note; `None` when the tuple
      does not have the shape the application writes. */
  function FromRow(row: seq<Value>): Option<Note>
  {
    if && |row| == 10
       && row[0].Integer? && row[1].Text? && !row[2].Integer? && row[3].Text?
       && row[4].Text? && !row[5].Integer? && row[6].Text? && row[7].Text?
       && row[8].Text? && !row[9].Text?
    then
      Some(Note(
        row[0].i, row[1].s,
        if row[2].Null? then None else Some(row[2].s),
        row[3].s, row[4].s,
        if row[5].Null? then None else Some(row[5].s),
        row[6].s, row[7].s, row[8].s,
        if row[9].Null? then None else Some(row[9].i)))
    else
      None
  }

  /** Copying a note through its tuple is lossless: the note read back is
      the note written. */
  lemma NoteRoundTrip(n: Note)
    ensures FromRow(ToRow(n)) == Some(n)
  {
    var row := ToRow(n);
    assert row[2] == TextCell(n.subcategory);
    assert row[5] == TextCell(n.imagePath);
    assert row[9] == IntegerCell(n.linkedTo);
  }

  /** A tuple that reads as a note is exactly that note's tuple, so reading
      never discards a cell. */
  lemma RowRoundTrip(row: seq<Value>)
    ensures FromRow(row).Some? ==> ToRow(FromRow(row).value) == row
  {
    if FromRow(row).Some? {
      var back := ToRow(FromRow(row).value);
      assert |back| == |row|;
      forall i | 0 <= i < 10
        ensures back[i] == row[i]
      {
      }
    }
  }

  /** A tuple is a valid `knowledge` row exactly when it is a valid
      `deleted_knowledge` row, so the positional copies in both directions
      never fail on shape. */
  lemma PositionalCopy(row: seq<Value>)
    ensures Conforms(row, KnowledgeColumns) <==> Conforms(row, DeletedColumns)
  {
    assert forall i :: 0 <= i < 10 ==>
      KnowledgeColumns[i].affinity == DeletedColumns[i].affinity &&
      (KnowledgeColumns[i].key == NoKey <==> DeletedColumns[i].key == NoKey);
  }

  /* ---------------------------------------------------------------------
     The global invariant.
     --------------------------------------------------------------------- */

  /** Every row is stored under its own id, and every id is one the
      AUTOINCREMENT key has already handed out (ids start at 1). */
  predicate KeyedBelow(m: map<int, Note>, nextId: int) {
    forall k :: k in m ==> 1 <= k < nextId && m[k].id == k
  }

  /** The two tables never share an id, and no id is at or above `nextId`.
      This is what keeps both positional INSERTs free of key collisions. */
  predicate Inv(s: Store) {
    && s.nextId >= 1
    && KeyedBelow(s.active, s.nextId)
    && KeyedBelow(s.trash, s.nextId)
    && s.active.Keys !! s.trash.Keys
  }

  /** The database before the setup script has ever run. */
  const Empty: Store := Store(map[], map[], 1)

  /** The setup script: `knowledge` is created only if missing, so existing
      notes and the id counter survive; `deleted_knowledge` is dropped and
      created again, so the trash always comes out empty. */
  function Setup(existing: Option<Store>): (r: Store)
    ensures r.trash == map[]
    ensures existing.Some? ==> r.active == existing.value.active && r.nextId == existing.value.nextId
    ensures existing.None? ==> r == Empty
    ensures existing.Some? && Inv(existing.value) ==> Inv(r)
    ensures existing.None? ==> Inv(r)
  {
    match existing
    case None => Empty
    case Some(s) => Store(s.active, map[], s.nextId)
  }

  /** Running the setup script twice is the same as running it once. */
  lemma SetupIdempotent(existing: Option<Store>)
    ensures Setup(Some(Setup(existing))) == Setup(existing)
  {
  }

  /* ---------------------------------------------------------------------
     Frames: the rows of a table as a sequence, the way `SELECT *` hands
     them to the interface.
     --------------------------------------------------------------------- */

  /** `frame` holds every row of `m` exactly once and nothing else. */
  predicate Lists(frame: seq<Note>, m: map<int, Note>) {
    && (forall i :: 0 <= i < |frame| ==> frame[i].id in m && m[frame[i].id] == frame[i])
    && (forall k :: k in m ==> exists i :: 0 <= i < |frame| && frame[i].id == k)
    && (forall i, j :: 0 <= i < j < |frame| ==> frame[i].id != frame[j].id)
  }

  /** The rows of `m` whose ids lie in [lo, hi), in ascending id order. */
  function Listing(m: map<int, Note>, lo: int, hi: int): seq<Note>
    decreases hi - lo
  {
    if lo >= hi then []
    else (if lo in m then [m[lo]] else []) + Listing(m, lo + 1, hi)
  }

  /** Each listed row is the row its id names, and its id lies in [lo, hi). */
  lemma {:induction false} ListingSound(m: map<int, Note>, lo: int, hi: int)
    requires forall k :: k in m ==> m[k].id == k
    ensures forall n :: n in Listing(m, lo, hi) ==> lo <= n.id < hi && n.id in m && m[n.id] == n
    decreases hi - lo
  {
    if lo < hi {
      ListingSound(m, lo + 1, hi);
    }
  }

  /** Every row with an id in [lo, hi) is listed. */
  lemma {:induction false} ListingComplete(m: map<int, Note>, lo: int, hi: int)
    requires forall k :: k in m ==> m[k].id == k
    ensures forall k :: k in m && lo <= k < hi ==> m[k] in Listing(m, lo, hi)
    decreases hi - lo
  {
    if lo < hi {
      ListingComplete(m, lo + 1, hi);
    }
  }

  /** Listed ids strictly increase, so no row is listed twice. */
  lemma {:induction false} ListingSorted(m: map<int, Note>, lo: int, hi: int)
    requires forall k :: k in m ==> m[k].id == k
    ensures forall i, j :: 0 <= i < j < |Listing(m, lo, hi)| ==>
      Listing(m, lo, hi)[i].id < Listing(m, lo, hi)[j].id
    decreases hi - lo
  {
    if lo < hi {
      ListingSorted(m, lo + 1, hi);
      ListingSound(m, lo + 1, hi);
      var rest := Listing(m, lo + 1, hi);
      var f := Listing(m, lo, hi);
      if lo in m {
        assert f == [m[lo]] + rest;
        forall i, j | 0 <= i < j < |f|
          ensures f[i].id < f[j].id
        {
          assert f[j] == rest[j - 1];
          assert rest[j - 1] in rest;
          if i > 0 {
            assert f[i] == rest[i - 1];
          }
        }
      } else {
        assert f == rest;
      }
    }
  }

  /** Every store satisfying the invariant has a frame listing its active
      table: the table read in ascending id order. */
  lemma ListingListsActive(s: Store)
    requires Inv(s)
    ensures Lists(Listing(s.active, 1, s.nextId), s.active)
  {
    var f := Listing(s.active, 1, s.nextId);
    ListingSound(s.active, 1, s.nextId);
    ListingComplete(s.active, 1, s.nextId);
    ListingSorted(s.active, 1, s.nextId);
    forall i | 0 <= i < |f|
      ensures f[i].id in s.active && s.active[f[i].id] == f[i]
    {
      assert f[i] in f;
    }
    forall k | k in s.active
      ensures exists i :: 0 <= i < |f| && f[i].id == k
    {
      assert s.active[k] in f;
      var i :| 0 <= i < |f| && f[i] == s.active[k];
    }
  }
}
