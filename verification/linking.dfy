/** Shortcuts: notes whose `linked_to_note_id` points at another note. The
    interface offers candidate targets as labels `"{subcat} - {title} (id=N)"`,
    reads the chosen id back out of the label, shows a note as a shortcut only
    when its target is found among the rows it has, and can clear a link.
    A frame is the sequence of rows a `SELECT *` handed to the interface. */
module Linking {
  import opened Base
  import opened Text
  import opened Schema
  import opened Lifecycle

  /* ---------------------------------------------------------------------
     Looking a note up in a frame: `data[data['id'] == k].iloc[0]`.
     --------------------------------------------------------------------- */

  /** The position of the first row of `frame` whose id is `k`. */
  function FirstIndex(frame: seq<Note>, k: int): (r: Option<nat>)
    ensures r.Some? ==> r.value < |frame| && frame[r.value].id == k
    ensures r.Some? ==> forall j :: 0 <= j < r.value ==> frame[j].id != k
    ensures r.None? ==> forall j :: 0 <= j < |frame| ==> frame[j].id != k
    decreases |frame|
  {
    if frame == [] then None
    else if frame[0].id == k then Some(0)
    else
      match FirstIndex(frame[1..], k)
      case None => None
      case Some(i) => Some(i + 1)
  }

  /** The first row with id `k`, if the frame has one. */
  function FindById(frame: seq<Note>, k: int): (r: Option<Note>)
    ensures r.Some? <==> exists i :: 0 <= i < |frame| && frame[i].id == k
    ensures r.Some? ==> r.value in frame && r.value.id == k
  {
    match FirstIndex(frame, k)
    case None => None
    case Some(i) => Some(frame[i])
  }

  /* ---------------------------------------------------------------------
     Shortcut resolution (the display loop).
     --------------------------------------------------------------------- */

  /** The note a row is displayed as a shortcut to: only a non-null link
      whose target is among the rows at hand resolves. A link to a missing
      note resolves to nothing, and the row is displayed as an ordinary
      note. */
  function ResolveShortcut(row: Note, frame: seq<Note>): (r: Option<Note>)
    ensures r.Some? <==>
      row.linkedTo.Some? && exists i :: 0 <= i < |frame| && frame[i].id == row.linkedTo.value
    ensures r.Some? ==> r.value in frame && Some(r.value.id) == row.linkedTo
  {
    match row.linkedTo
    case None => None
    case Some(k) => FindById(frame, k)
  }

  predicate IsShortcut(row: Note, frame: seq<Note>) {
    ResolveShortcut(row, frame).Some?
  }

  /** When the frame lists the active table, resolution is a plain lookup:
      a link resolves to the active note it names, and to nothing when that
      note is not active (deleted, purged, or never created). */
  lemma ResolveInStore(row: Note, frame: seq<Note>, active: map<int, Note>)
    requires Lists(frame, active)
    ensures ResolveShortcut(row, frame) ==
      if row.linkedTo.Some? && row.linkedTo.value in active
      then Some(active[row.linkedTo.value])
      else None
  {
    if row.linkedTo.Some? {
      var k := row.linkedTo.value;
      if k in active {
        var i :| 0 <= i < |frame| && frame[i].id == k;
        assert frame[i] == active[k];
      }
      var r := ResolveShortcut(row, frame);
      if r.Some? {
        var i :| 0 <= i < |frame| && frame[i] == r.value;
        assert frame[i].id in active;
      }
    }
  }

  /** Soft-deleting the target of a shortcut leaves the shortcut row as it
      was and makes it dangle: no schema constraint stops the delete, and the
      display no longer resolves it, without failing. */
  lemma DanglingAfterDelete(s: Store, t: int, row: Note, frame: seq<Note>)
    requires Inv(s) && t in s.active
    requires row.id in s.active && s.active[row.id] == row && row.linkedTo == Some(t)
    requires Lists(frame, SoftDelete(s, t).store.active)
    ensures SoftDelete(s, t).Done?
    ensures row.id != t ==> SoftDelete(s, t).store.active[row.id] == row
    ensures ResolveShortcut(row, frame).None?
  {
    ResolveInStore(row, frame, SoftDelete(s, t).store.active);
  }

  /* ---------------------------------------------------------------------
     Candidate targets.
     --------------------------------------------------------------------- */

  /** The rows offered as targets of a new shortcut: those with a null
      link, in frame order. */
  function ShortcutTargets(frame: seq<Note>): (r: seq<Note>)
    ensures |r| <= |frame|
    ensures forall n :: n in r <==> n in frame && n.linkedTo.None?
    decreases |frame|
  {
    if frame == [] then []
    else if frame[0].linkedTo.None? then [frame[0]] + ShortcutTargets(frame[1..])
    else ShortcutTargets(frame[1..])
  }

  /** A candidate target is never itself displayed as a shortcut, whatever
      rows are at hand, so a shortcut never points at a shortcut when
      created. */
  lemma TargetsAreNotShortcuts(frame: seq<Note>, other: seq<Note>)
    ensures forall n :: n in ShortcutTargets(frame) ==> !IsShortcut(n, other)
  {
  }

  /** The converse fails: a note whose link dangles is displayed as an
      ordinary note, yet it is not offered as a target. The candidates are
      the notes without a link, not the notes that are not shortcuts. */
  lemma DanglingNoteIsNoTarget(n: Note, frame: seq<Note>)
    requires n in frame && n.linkedTo.Some?
    requires forall i :: 0 <= i < |frame| ==> Some(frame[i].id) != n.linkedTo
    ensures !IsShortcut(n, frame)
    ensures n !in ShortcutTargets(frame)
  {
  }

  /** The rows offered as link targets when editing note `editing`: every
      other row whose subcategory is not null, in frame order. */
  function LinkTargets(frame: seq<Note>, editing: int): (r: seq<Note>)
    ensures |r| <= |frame|
    ensures forall n :: n in r <==> n in frame && n.id != editing && n.subcategory.Some?
    decreases |frame|
  {
    if frame == [] then []
    else if frame[0].id != editing && frame[0].subcategory.Some? then
      [frame[0]] + LinkTargets(frame[1..], editing)
    else LinkTargets(frame[1..], editing)
  }

  /** `r` lists the frame rows at the strictly increasing positions `pos`:
      the result of a filter that keeps the frame's order. */
  predicate PicksInOrder(r: seq<Note>, frame: seq<Note>, pos: seq<int>) {
    && |pos| == |r|
    && (forall i :: 0 <= i < |pos| ==> 0 <= pos[i] < |frame| && frame[pos[i]] == r[i])
    && (forall i, j :: 0 <= i < j < |pos| ==> pos[i] < pos[j])
  }

  function Shift(pos: seq<int>): seq<int> {
    seq(|pos|, k requires 0 <= k < |pos| => pos[k] + 1)
  }

  /** Positions picked from the tail of a frame, moved up by one, are
      positions in the whole frame. */
  lemma ShiftPicks(r: seq<Note>, frame: seq<Note>, pos: seq<int>)
    requires frame != [] && PicksInOrder(r, frame[1..], pos)
    ensures PicksInOrder(r, frame, Shift(pos))
    ensures forall j :: 1 <= j < |frame| && j - 1 in pos ==> j in Shift(pos)
  {
    var sh := Shift(pos);
    forall i | 0 <= i < |sh|
      ensures 0 <= sh[i] < |frame| && frame[sh[i]] == r[i]
    {
      assert frame[1..][pos[i]] == frame[sh[i]];
    }
    forall i, j | 0 <= i < j < |sh|
      ensures sh[i] < sh[j]
    {
      assert pos[i] < pos[j];
    }
    forall j | 1 <= j < |frame| && j - 1 in pos
      ensures j in sh
    {
      var k :| 0 <= k < |pos| && pos[k] == j - 1;
      assert sh[k] == j;
    }
  }

  /** The head of a frame may be put in front of positions that all lie
      past it. */
  lemma ConsPick(r: seq<Note>, frame: seq<Note>, pos: seq<int>)
    requires frame != [] && PicksInOrder(r, frame, pos)
    requires forall i :: 0 <= i < |pos| ==> pos[i] > 0
    ensures PicksInOrder([frame[0]] + r, frame, [0] + pos)
    ensures forall j :: j in pos ==> j in [0] + pos
  {
    var r2 := [frame[0]] + r;
    var p2 := [0] + pos;
    forall i | 0 <= i < |p2|
      ensures 0 <= p2[i] < |frame| && frame[p2[i]] == r2[i]
    {
      if i > 0 {
        assert p2[i] == pos[i - 1] && r2[i] == r[i - 1];
      }
    }
    forall i, j | 0 <= i < j < |p2|
      ensures p2[i] < p2[j]
    {
      assert p2[j] == pos[j - 1];
      if i > 0 {
        assert p2[i] == pos[i - 1];
      }
    }
  }

  /** The positions `ShortcutTargets` keeps, computed alongside it. */
  lemma {:induction false} ShortcutPositions(frame: seq<Note>) returns (pos: seq<int>)
    ensures PicksInOrder(ShortcutTargets(frame), frame, pos)
    ensures forall j :: 0 <= j < |frame| && frame[j].linkedTo.None? ==> j in pos
    decreases |frame|
  {
    if frame == [] {
      pos := [];
    } else {
      var tail := frame[1..];
      var rest := ShortcutPositions(tail);
      ShiftPicks(ShortcutTargets(tail), frame, rest);
      if frame[0].linkedTo.None? {
        ConsPick(ShortcutTargets(tail), frame, Shift(rest));
      }
      pos := if frame[0].linkedTo.None? then [0] + Shift(rest) else Shift(rest);
      forall j | 0 <= j < |frame| && frame[j].linkedTo.None?
        ensures j in pos
      {
        if j > 0 {
          assert tail[j - 1] == frame[j];
          assert j - 1 in rest;
          assert j in Shift(rest);
        }
      }
    }
  }

  /** The candidates for a new shortcut are the rows with a null link, in
      frame order: every such row's position is picked, in increasing
      order, so the options of the selectbox follow the frame. */
  lemma ShortcutTargetsInOrder(frame: seq<Note>)
    ensures exists pos ::
      (&& PicksInOrder(ShortcutTargets(frame), frame, pos)
       && forall j :: 0 <= j < |frame| && frame[j].linkedTo.None? ==> j in pos)
  {
    var pos := ShortcutPositions(frame);
  }

  /** The positions `LinkTargets` keeps, computed alongside it. */
  lemma {:induction false} LinkPositions(frame: seq<Note>, editing: int) returns (pos: seq<int>)
    ensures PicksInOrder(LinkTargets(frame, editing), frame, pos)
    ensures forall j :: 0 <= j < |frame| && frame[j].id != editing && frame[j].subcategory.Some? ==> j in pos
    decreases |frame|
  {
    if frame == [] {
      pos := [];
    } else {
      var tail := frame[1..];
      var rest := LinkPositions(tail, editing);
      ShiftPicks(LinkTargets(tail, editing), frame, rest);
      var keep := frame[0].id != editing && frame[0].subcategory.Some?;
      if keep {
        ConsPick(LinkTargets(tail, editing), frame, Shift(rest));
      }
      pos := if keep then [0] + Shift(rest) else Shift(rest);
      forall j | 0 <= j < |frame| && frame[j].id != editing && frame[j].subcategory.Some?
        ensures j in pos
      {
        if j > 0 {
          assert tail[j - 1] == frame[j];
          assert j - 1 in rest;
          assert j in Shift(rest);
        }
      }
    }
  }

  /** The link candidates of the edit form are the other rows with a
      subcategory, in frame order. */
  lemma LinkTargetsInOrder(frame: seq<Note>, editing: int)
    ensures exists pos ::
      (&& PicksInOrder(LinkTargets(frame, editing), frame, pos)
       && forall j :: 0 <= j < |frame| && frame[j].id != editing && frame[j].subcategory.Some? ==> j in pos)
  {
    var pos := LinkPositions(frame, editing);
  }

  /* ---------------------------------------------------------------------
     Labels and their parse.
     --------------------------------------------------------------------- */

  /** How a nullable text cell prints inside an f-string: NULL prints as
      `None`. */
  function CellText(v: Option<string>): string {
    match v
    case None => "None"
    case Some(t) => t
  }

  /** `f"{r['subcategory']} - {r['title']} (id={r['id']})"`. */
  function Label(n: Note): (r: string)
    ensures |r| >= 10
  {
    CellText(n.subcategory) + " - " + n.title + " (id=" + IntToString(n.id) + ")"
  }

  /** Parsing a label gives back the id it was built from, for every
      subcategory and title, including ones that contain `id=` or `)`. */
  lemma LabelRoundTrip(n: Note)
    ensures ParseTarget(Label(n)) == Some(n.id)
  {
    var prefix := CellText(n.subcategory) + " - " + n.title + " (";
    assert Label(n) == prefix + IdMarker + IntToString(n.id) + ")";
    ParseAfterMarker(prefix, n.id);
  }

  /** The labels of a list of targets, in the same order. */
  function Choices(targets: seq<Note>): (r: seq<string>)
    ensures |r| == |targets|
    ensures forall i :: 0 <= i < |r| ==> r[i] == Label(targets[i])
    decreases |targets|
  {
    if targets == [] then [] else [Label(targets[0])] + Choices(targets[1..])
  }

  /** Whichever label is chosen, parsing it names the target it stands for. */
  lemma ChoicesRoundTrip(targets: seq<Note>, i: int)
    requires 0 <= i < |targets|
    ensures ParseTarget(Choices(targets)[i]) == Some(targets[i].id)
  {
    LabelRoundTrip(targets[i]);
  }

  /* ---------------------------------------------------------------------
     Creating a shortcut.
     --------------------------------------------------------------------- */

  /** The shortcut form's button: the chosen label is parsed and a note with
      empty content and no image is added, linked to the parsed id. `None`
      where Python raises: no label chosen (no candidates) or a label that
      does not parse. */
  function CreateShortcut(s: Store, choice: Option<string>, category: string,
                          subcategory: string, title: string, actor: string): (r: Option<Store>)
    ensures r.Some? <==> choice.Some? && ParseTarget(choice.value).Some?
    ensures r.Some? ==>
      && r.value.nextId == s.nextId + 1
      && r.value.trash == s.trash
      && r.value.active.Keys == s.active.Keys + {s.nextId}
      && (forall k :: k in s.active && k != s.nextId ==> r.value.active[k] == s.active[k])
      && r.value.active[s.nextId].linkedTo == ParseTarget(choice.value)
      && r.value.active[s.nextId].content == []
      && r.value.active[s.nextId].imagePath.None?
      && r.value.active[s.nextId].createdBy == actor
  {
    match choice
    case None => None
    case Some(c) =>
      match ParseTarget(c)
      case None => None
      case Some(target) =>
        Some(Create(s, Draft(category, Some(subcategory), title, [], None, [], Some(target)), actor))
  }

  /** Picking the i-th candidate from a frame listing the active table adds
      one shortcut, and that shortcut resolves in the new active table to
      exactly the note picked, which is an active note without a link. */
  lemma ShortcutReachesPick(s: Store, frame: seq<Note>, i: int, category: string,
                            subcategory: string, title: string, actor: string)
    requires Inv(s) && Lists(frame, s.active)
    requires 0 <= i < |ShortcutTargets(frame)|
    ensures var pick := ShortcutTargets(frame)[i];
      var r := CreateShortcut(s, Some(Choices(ShortcutTargets(frame))[i]), category, subcategory, title, actor);
      && r.Some?
      && pick.id in s.active && s.active[pick.id] == pick && pick.linkedTo.None?
      && r.value.active[s.nextId].linkedTo == Some(pick.id)
      && forall f :: Lists(f, r.value.active) ==>
           ResolveShortcut(r.value.active[s.nextId], f) == Some(pick)
  {
    var targets := ShortcutTargets(frame);
    var pick := targets[i];
    ChoicesRoundTrip(targets, i);
    assert pick in targets;
    var j :| 0 <= j < |frame| && frame[j] == pick;
    var d := Draft(category, Some(subcategory), title, [], None, [], Some(pick.id));
    CreateKeepsInvariant(s, d, actor);
    var after := Create(s, d, actor);
    assert CreateShortcut(s, Some(Choices(targets)[i]), category, subcategory, title, actor) == Some(after);
    var shortcut := after.active[s.nextId];
    assert shortcut.linkedTo == Some(pick.id);
    assert pick.id != s.nextId;
    assert pick.id in after.active && after.active[pick.id] == pick;
    forall f | Lists(f, after.active)
      ensures ResolveShortcut(shortcut, f) == Some(pick)
    {
      ResolveInStore(shortcut, f, after.active);
    }
  }

  /* ---------------------------------------------------------------------
     Editing the link of a note.
     --------------------------------------------------------------------- */

  /** The option that keeps a note unlinked. */
  const NoLink: string := "Aucun"

  /** No label reads as "Aucun", and every label parses back to its
      note's id. */
  lemma LabelsReadBack()
    ensures forall n: Note :: Label(n) != NoLink && ParseTarget(Label(n)) == Some(n.id)
  {
    forall n: Note
      ensures Label(n) != NoLink && ParseTarget(Label(n)) == Some(n.id)
    {
      LabelRoundTrip(n);
    }
  }

  /** The link the edit form passes on: no link for the "Aucun" option, the
      parsed id otherwise. `None` where Python raises on a label that does
      not parse. Whichever note's label is selected, the link is that
      note's id. */
  function EditedLink(selected: string): (r: Option<Option<int>>)
    ensures forall n: Note :: selected == Label(n) ==> r == Some(Some(n.id))
  {
    LabelsReadBack();
    if selected == NoLink then Some(None)
    else
      match ParseTarget(selected)
      case None => None
      case Some(k) => Some(Some(k))
  }

  /** A target's label is never mistaken for "Aucun", and choosing it
      links to exactly that note. */
  lemma EditedLinkOfLabel(n: Note)
    ensures EditedLink(Label(n)) == Some(Some(n.id))
  {
    assert |Label(n)| >= 10;
    LabelRoundTrip(n);
  }

  /** Whatever option the edit form offers is chosen, the link passed on
      is either none or the id of another note that has a subcategory: a
      note can never be linked to itself through the form. */
  lemma EditLinkNeverSelf(frame: seq<Note>, editing: int, i: int)
    requires 0 <= i < 1 + |LinkTargets(frame, editing)|
    ensures var options := [NoLink] + Choices(LinkTargets(frame, editing));
      var r := EditedLink(options[i]);
      && r.Some?
      && (i == 0 <==> r.value.None?)
      && (r.value.Some? ==>
            r.value.value != editing &&
            exists n :: n in frame && n.id == r.value.value && n.subcategory.Some?)
  {
    var targets := LinkTargets(frame, editing);
    var options := [NoLink] + Choices(targets);
    if i > 0 {
      var pick := targets[i - 1];
      assert options[i] == Label(pick);
      assert |Label(pick)| >= 10;
      ChoicesRoundTrip(targets, i - 1);
      assert pick in targets;
    }
  }

  /* ---------------------------------------------------------------------
     Removing only the shortcut.
     --------------------------------------------------------------------- */

  /** "Remove only the shortcut": the row is saved again with its own
      values and a null link. */
  function Unlink(s: Store, row: Note, actor: string): (r: Store)
    ensures r.trash == s.trash && r.nextId == s.nextId && r.active.Keys == s.active.Keys
    ensures row.id in s.active ==> r.active[row.id].linkedTo.None?
  {
    Update(s, row.id, DraftOf(row).(linkedTo := None), actor)
  }

  /** On a row written by the application, unlinking changes exactly two
      cells of that row: the link becomes null and the acting user becomes
      the last modifier. Re-saving the stored subcategory leaves it as it
      is, because normalisation is idempotent. */
  lemma UnlinkOnlyClearsLink(s: Store, row: Note, actor: string)
    requires row.id in s.active && s.active[row.id] == row
    requires NormalSubcategory(row)
    ensures Unlink(s, row, actor).active ==
      s.active[row.id := row.(linkedTo := None, lastModifiedBy := actor)]
  {
    var r := Unlink(s, row, actor);
    NormalFormIsFixedPoint(row.subcategory.value);
    assert NormaliseSubcategory(row.subcategory) == row.subcategory.value;
    assert r.active[row.id] == row.(linkedTo := None, lastModifiedBy := actor);
  }
}
