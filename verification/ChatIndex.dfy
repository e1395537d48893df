/** The trigger-maintained full-text index over chat messages, and the migration that rebuilds it. */
module ChatIndex {
  import opened Prelude
  import opened IndexText
  import opened Text

  datatype Message = Message(session: string, role: string, content: Option<string>)

  datatype FtsRow = FtsRow(content: string, messageId: string, session: string, role: string)

  datatype Db = Db(messages: map<string, Message>, fts: seq<FtsRow>)

  /** `order` is the order in which a SELECT happens to return the messages. */
  datatype Op =
    | InsertMessage(id: string, message: Message)
    | UpdateMessage(oldId: string, newId: string, message: Message)
    | DeleteMessage(id: string)
    | Migrate(order: seq<string>, scrub: bool)

  function Without(fts: seq<FtsRow>, id: string): seq<FtsRow> {
    if fts == [] then []
    else if fts[0].messageId == id then Without(fts[1..], id)
    else [fts[0]] + Without(fts[1..], id)
  }

  function RowsFor(fts: seq<FtsRow>, id: string): seq<FtsRow> {
    if fts == [] then []
    else if fts[0].messageId == id then [fts[0]] + RowsFor(fts[1..], id)
    else RowsFor(fts[1..], id)
  }

  function TriggerRow(id: string, m: Message): FtsRow {
    FtsRow(TriggerText(m.content), id, m.session, m.role)
  }

  function ScrubRow(id: string, m: Message, read: ReadList): FtsRow {
    FtsRow(SearchIndexText(m.content.GetOr(""), read), id, m.session, m.role)
  }

  predicate Lists(order: seq<string>, messages: map<string, Message>) {
    && (forall id :: id in order ==> id in messages) && (forall id :: id in messages ==> id in order)
    && (forall i, j :: 0 <= i < j < |order| ==> order[i] != order[j])
  }

  function Backfilled(messages: map<string, Message>, fts: seq<FtsRow>, ids: seq<string>): seq<FtsRow>
    requires forall id :: id in ids ==> id in messages
    decreases |ids|
  {
    if ids == [] then fts
    else
      var id := ids[0];
      var next := if RowsFor(fts, id) == [] then fts + [TriggerRow(id, messages[id])] else fts;
      Backfilled(messages, next, ids[1..])
  }

  function Scrubbed(
      messages: map<string, Message>, fts: seq<FtsRow>, ids: seq<string>, read: ReadList): seq<FtsRow>
    requires forall id :: id in ids ==> id in messages
    decreases |ids|
  {
    if ids == [] then fts
    else
      var id := ids[0];
      var m := messages[id];
      var next := if IsMedia(m.content.GetOr("")) then Without(fts, id) + [ScrubRow(id, m, read)] else fts;
      Scrubbed(messages, next, ids[1..], read)
  }

  /** Statements that violate the primary key fail and change nothing. */
  predicate Enabled(db: Db, op: Op) {
    match op
    case InsertMessage(id, _) => id !in db.messages
    case UpdateMessage(o, n, _) => o in db.messages && (n == o || n !in db.messages)
    case DeleteMessage(id) => id in db.messages
    case Migrate(order, _) => Lists(order, db.messages)
  }

  function Apply(db: Db, op: Op, read: ReadList): Db
    requires Enabled(db, op)
  {
    match op
    case InsertMessage(id, m) => Db(db.messages[id := m], db.fts + [TriggerRow(id, m)])
    case UpdateMessage(o, n, m) => Db((db.messages - {o})[n := m], Without(db.fts, o) + [TriggerRow(n, m)])
    case DeleteMessage(id) => Db(db.messages - {id}, Without(db.fts, id))
    case Migrate(order, scrub) =>
      var filled := Backfilled(db.messages, db.fts, order);
      db.(fts := if scrub then Scrubbed(db.messages, filled, order, read) else filled)
  }

  function Next(db: Db, op: Op, read: ReadList): Db {
    if Enabled(db, op) then Apply(db, op, read) else db
  }

  function Run(db: Db, ops: seq<Op>, read: ReadList): Db
    decreases |ops|
  {
    if ops == [] then db else Run(Next(db, ops[0], read), ops[1..], read)
  }

  // ---- Agreement ------------------------------------------------------------------------------

  /** Plain text is indexed as it is; media as the marker or as its scrubbed text. */
  ghost predicate IndexedAs(m: Message, content: string, read: ReadList) {
    var raw := m.content.GetOr("");
    if IsMedia(raw) then content == MARKER || content == SearchIndexText(raw, read) else content == raw
  }

  /** Exactly one row, with this id, the message's session and role, and acceptable text. */
  ghost predicate RowsFit(rows: seq<FtsRow>, id: string, m: Message, read: ReadList) {
    && |rows| == 1 && rows[0].messageId == id && rows[0].session == m.session && rows[0].role == m.role
    && IndexedAs(m, rows[0].content, read)
  }

  ghost predicate Agrees(db: Db, read: ReadList) {
    forall id ::
      if id in db.messages then RowsFit(RowsFor(db.fts, id), id, db.messages[id], read)
      else RowsFor(db.fts, id) == []
  }

  lemma {:induction false} RowsForAppend(a: seq<FtsRow>, b: seq<FtsRow>, id: string)
    ensures RowsFor(a + b, id) == RowsFor(a, id) + RowsFor(b, id)
  {
    if a == [] {
      assert a + b == b;
    } else {
      RowsForAppend(a[1..], b, id);
      assert (a + b)[1..] == a[1..] + b;
    }
  }

  lemma RowsForOneMore(fts: seq<FtsRow>, row: FtsRow, id: string)
    ensures RowsFor(fts + [row], id) == if row.messageId == id then RowsFor(fts, id) + [row] else RowsFor(fts, id)
  {
    RowsForAppend(fts, [row], id);
    assert [row][1..] == [];
  }

  lemma {:induction false} RowsForWithout(fts: seq<FtsRow>, gone: string, id: string)
    ensures RowsFor(Without(fts, gone), id) == if id == gone then [] else RowsFor(fts, id)
  {
    if fts != [] {
      RowsForWithout(fts[1..], gone, id);
      assert ([fts[0]] + Without(fts[1..], gone))[1..] == Without(fts[1..], gone);
    }
  }

  lemma {:induction false} BackfillAddsExactlyMissing(
      messages: map<string, Message>, fts: seq<FtsRow>, ids: seq<string>, id: string)
    requires forall i :: i in ids ==> i in messages
    ensures RowsFor(Backfilled(messages, fts, ids), id) ==
      if id in ids && RowsFor(fts, id) == [] then [TriggerRow(id, messages[id])] else RowsFor(fts, id)
    decreases |ids|
  {
    if ids != [] {
      var row := TriggerRow(ids[0], messages[ids[0]]);
      var next := if RowsFor(fts, ids[0]) == [] then fts + [row] else fts;
      RowsForOneMore(fts, row, id);
      BackfillAddsExactlyMissing(messages, next, ids[1..], id);
      assert Backfilled(messages, fts, ids) == Backfilled(messages, next, ids[1..]);
      hide RowsFor, Backfilled, TriggerText;
      assert ids == [ids[0]] + ids[1..];
    }
  }

  lemma {:induction false} ScrubRewritesExactlyMedia(
      messages: map<string, Message>, fts: seq<FtsRow>, ids: seq<string>, read: ReadList, id: string)
    requires forall i :: i in ids ==> i in messages
    requires forall i, j :: 0 <= i < j < |ids| ==> ids[i] != ids[j]
    ensures RowsFor(Scrubbed(messages, fts, ids, read), id) ==
      if id in ids && IsMedia(messages[id].content.GetOr("")) then [ScrubRow(id, messages[id], read)]
      else RowsFor(fts, id)
    decreases |ids|
  {
    if ids != [] {
      var m := messages[ids[0]];
      var next :=
        if IsMedia(m.content.GetOr("")) then Without(fts, ids[0]) + [ScrubRow(ids[0], m, read)] else fts;
      ScrubRewritesExactlyMedia(messages, next, ids[1..], read, id);
      RowsForWithout(fts, ids[0], id);
      RowsForOneMore(Without(fts, ids[0]), ScrubRow(ids[0], m, read), id);
      assert Scrubbed(messages, fts, ids, read) == Scrubbed(messages, next, ids[1..], read);
      hide RowsFor, Scrubbed, Without, ScrubRow, IsMedia;
      assert ids == [ids[0]] + ids[1..];
    }
  }

  lemma StatementKeepsAgreement(db: Db, op: Op, read: ReadList)
    requires Agrees(db, read) && Enabled(db, op) && !op.Migrate?
    ensures Agrees(Apply(db, op, read), read)
  {
    var db' := Apply(db, op, read);
    forall id ensures
      if id in db'.messages then RowsFit(RowsFor(db'.fts, id), id, db'.messages[id], read)
      else RowsFor(db'.fts, id) == []
    {
      match op {
        case InsertMessage(i, m) => RowsForOneMore(db.fts, TriggerRow(i, m), id);
        case UpdateMessage(o, n, m) =>
          RowsForWithout(db.fts, o, id);
          RowsForOneMore(Without(db.fts, o), TriggerRow(n, m), id);
        case DeleteMessage(i) => RowsForWithout(db.fts, i, id);
      }
    }
  }

  /** The migration adds the rows that are missing, rewrites those of media messages, and keeps all others. */
  lemma MigrationEffect(db: Db, order: seq<string>, scrub: bool, read: ReadList, id: string)
    requires Lists(order, db.messages)
    ensures RowsFor(Apply(db, Migrate(order, scrub), read).fts, id) ==
      if id !in db.messages then RowsFor(db.fts, id)
      else if scrub && IsMedia(db.messages[id].content.GetOr("")) then [ScrubRow(id, db.messages[id], read)]
      else if RowsFor(db.fts, id) == [] then [TriggerRow(id, db.messages[id])]
      else RowsFor(db.fts, id)
  {
    BackfillAddsExactlyMissing(db.messages, db.fts, order, id);
    ScrubRewritesExactlyMedia(db.messages, Backfilled(db.messages, db.fts, order), order, read, id);
  }

  /**
   * On a database that was indexed in part or not at all the migration brings agreement about, and rewriting does
   * so whatever rows older versions left for media messages.
   */
  lemma MigrationEstablishesAgreement(db: Db, order: seq<string>, scrub: bool, read: ReadList)
    requires Lists(order, db.messages)
    requires forall id ::
      if id in db.messages then
        || RowsFor(db.fts, id) == [] || RowsFit(RowsFor(db.fts, id), id, db.messages[id], read)
        || (scrub && IsMedia(db.messages[id].content.GetOr("")))
      else RowsFor(db.fts, id) == []
    ensures Agrees(Next(db, Migrate(order, scrub), read), read)
  {
    forall id { MigrationEffect(db, order, scrub, read, id); }
  }

  lemma NextKeepsAgreement(db: Db, op: Op, read: ReadList)
    requires Agrees(db, read)
    ensures Agrees(Next(db, op, read), read)
  {
    if Enabled(db, op) {
      if op.Migrate? {
        MigrationEstablishesAgreement(db, op.order, op.scrub, read);
      } else {
        StatementKeepsAgreement(db, op, read);
      }
    }
  }

  /**
   * Starting from agreement, every run of inserts, updates (also of the key), deletes and re-runs of the
   * migration keeps exactly one index row per message and no other row, with the message's session, role and text.
   */
  lemma {:induction false} RunKeepsAgreement(db: Db, ops: seq<Op>, read: ReadList)
    requires Agrees(db, read)
    ensures Agrees(Run(db, ops, read), read)
    decreases |ops|
  {
    if ops != [] {
      NextKeepsAgreement(db, ops[0], read);
      RunKeepsAgreement(Next(db, ops[0], read), ops[1..], read);
    }
  }

  /** Every media message is indexed by the marker, so not by its content. */
  ghost predicate MediaIsMarked(db: Db) {
    forall id :: id in db.messages && IsMedia(db.messages[id].content.GetOr("")) ==>
      RowsFor(db.fts, id) == [TriggerRow(id, db.messages[id])]
  }

  lemma StepKeepsMediaMarked(db: Db, op: Op, read: ReadList)
    requires Agrees(db, read) && MediaIsMarked(db) && Enabled(db, op) && !(op.Migrate? && op.scrub)
    ensures MediaIsMarked(Apply(db, op, read))
  {
    forall id ensures var e := Apply(db, op, read);
      id in e.messages && IsMedia(e.messages[id].content.GetOr("")) ==>
        RowsFor(e.fts, id) == [TriggerRow(id, e.messages[id])]
    {
      match op {
        case InsertMessage(i, m) => RowsForOneMore(db.fts, TriggerRow(i, m), id);
        case UpdateMessage(o, n, m) =>
          RowsForWithout(db.fts, o, id);
          RowsForOneMore(Without(db.fts, o), TriggerRow(n, m), id);
        case DeleteMessage(i) => RowsForWithout(db.fts, i, id);
        case Migrate(order, scrub) => MigrationEffect(db, order, scrub, read, id);
      }
    }
  }

  /** In a run without a scrub the triggers and the backfill keep all raw media out of the index. */
  lemma {:induction false} TriggersNeverIndexRawMedia(db: Db, ops: seq<Op>, read: ReadList, id: string)
    requires Agrees(db, read) && MediaIsMarked(db) && forall i :: 0 <= i < |ops| ==> !(ops[i].Migrate? && ops[i].scrub)
    ensures var e := Run(db, ops, read);
      id in e.messages && IsMedia(e.messages[id].content.GetOr("")) ==>
        var rows := RowsFor(e.fts, id);
        |rows| == 1 && rows[0].content == MARKER != e.messages[id].content.GetOr("")
    decreases |ops|
  {
    if ops == [] {
      MarkerIsNotMedia();
    } else {
      var op := ops[0];
      NextKeepsAgreement(db, op, read);
      if Enabled(db, op) { StepKeepsMediaMarked(db, op, read); }
      TriggersNeverIndexRawMedia(Next(db, op, read), ops[1..], read, id);
    }
  }

  /**
   * The migration, however, puts media back into the index that the trigger had kept out: exactly for a list of
   * content blocks one of which leaves it, and for another text if there is media outside its data URLs.
   */
  lemma MigrationIndexesMediaExactlyWhen(db: Db, order: seq<string>, id: string, read: ReadList)
    requires Lists(order, db.messages) && id in db.messages
    ensures var raw := db.messages[id].content.GetOr("");
      var rows := RowsFor(Next(db, Migrate(order, true), read).fts, id);
      IsMedia(raw) ==>
        |rows| == 1 &&
        (IsMedia(rows[0].content) <==>
           match AsBlocks(raw, read)
           case Some(blocks) => SomeLeaves(blocks)
           case None => SomeMedia(Remains(raw)))
  {
    MigrationEffect(db, order, true, read, id);
    MediaSurvivesScrubExactlyWhen(db.messages[id].content.GetOr(""), read);
  }

  const SVG := "data:image/svg+xml,<svg/>"

  /** An inline SVG without base64 is such a text, and is indexed whole. */
  lemma MigrationPutsSvgBack(read: ReadList)
    ensures IsMedia(SVG) && TriggerText(Some(SVG)) == MARKER && SearchIndexText(SVG, read) == SVG
  {
    assert SVG[..11] == "data:image/";
    assert ';' !in SVG && SVG[0] == 'd' && SVG[|SVG| - 1] == '>';
    UnbracketedWithoutBase64IsKept(SVG, read);
    hide SearchIndexText;
  }

  lemma UnbracketedWithoutBase64IsKept(s: string, read: ReadList)
    requires s != "" && s[0] != '[' && !IsBlank(s[0]) && ';' !in s
    ensures SearchIndexText(s, read) == s
  {
    if Contains(s, ";base64,") { ContainsChars(s, ";base64,", ';'); }
    hide Contains;
    assert StripLeft(s) == s;
  }

  // ---- The database as it is written ----------------------------------------------------------

  class ChatDatabase {
    var messages: map<string, Message>
    var fts: seq<FtsRow>

    ghost function Contents(): Db
      reads this
    {
      Db(messages, fts)
    }

    method Insert(id: string, m: Message)
      requires id !in messages
      modifies this
      ensures Contents() == Apply(old(Contents()), InsertMessage(id, m), _ => None)
    {
      messages := messages[id := m];
      fts := fts + [TriggerRow(id, m)];
    }

    method Update(oldId: string, newId: string, m: Message)
      requires oldId in messages && (newId == oldId || newId !in messages)
      modifies this
      ensures Contents() == Apply(old(Contents()), UpdateMessage(oldId, newId, m), _ => None)
    {
      messages := (messages - {oldId})[newId := m];
      fts := Without(fts, oldId);
      fts := fts + [TriggerRow(newId, m)];
    }

    method Delete(id: string)
      requires id in messages
      modifies this
      ensures Contents() == Apply(old(Contents()), DeleteMessage(id), _ => None)
    {
      messages := messages - {id};
      fts := Without(fts, id);
    }

    /** Backfill what is missing, then rewrite the media rows one by one. */
    method RunMigration(order: seq<string>, scrub: bool, read: ReadList)
      requires Lists(order, messages)
      modifies this`fts
      ensures Contents() == Apply(old(Contents()), Migrate(order, scrub), read)
    {
      ghost var before := fts;
      var i := 0;
      while i < |order|
        invariant 0 <= i <= |order|
        invariant Backfilled(messages, fts, order[i..]) == Backfilled(messages, before, order)
      {
        if RowsFor(fts, order[i]) == [] { fts := fts + [TriggerRow(order[i], messages[order[i]])]; }
        i := i + 1;
      }
      if !scrub { return; }
      ghost var filled := fts;
      i := 0;
      while i < |order|
        invariant 0 <= i <= |order|
        invariant Scrubbed(messages, fts, order[i..], read) == Scrubbed(messages, filled, order, read)
      {
        var m := messages[order[i]];
        if IsMedia(m.content.GetOr("")) {
          fts := Without(fts, order[i]);
          fts := fts + [ScrubRow(order[i], m, read)];
        }
        i := i + 1;
      }
    }
  }
}
