/**
 * The chat stream as the WHATWG HTML standard reads it, and exactly when the one-shot reader agrees. Both look at
 * lines that ended in a newline.
 */
module SseStandard {
  import opened JsText
  import opened SseReader

  // ---- The standard's reading -----------------------------------------------------------------

  /** Section 9.2.6 of the WHATWG HTML standard; an empty `kind` stands for its default, "message". */
  datatype Standard = Standard(kind: string, data: string, events: seq<Event>)

  const EVENT_FIELD := "event"
  const DATA_FIELD := "data"

  /** A line is a field's name alone, or the name, a colon and a value. */
  predicate IsField(line: string, name: string) {
    name <= line && (|line| == |name| || line[|name|] == ':')
  }

  /** One space after the colon does not belong to the value. */
  function FieldValue(line: string, name: string): string
    requires IsField(line, name)
  {
    if |line| == |name| then ""
    else
      var value := line[|name| + 1..];
      if |value| > 0 && value[0] == ' ' then value[1..] else value
  }

  /** What a blank line dispatches: nothing without data, else the data less its last newline. */
  function Dispatched(s: Standard): seq<Event> {
    if |s.data| == 0 then [] else [Event(s.kind, s.data[..|s.data| - 1])]
  }

  function StandardLine(s: Standard, line: string): Standard {
    if |line| == 0 then Standard("", "", s.events + Dispatched(s))
    else if IsField(line, EVENT_FIELD) then s.(kind := FieldValue(line, EVENT_FIELD))
    else if IsField(line, DATA_FIELD) then s.(data := s.data + FieldValue(line, DATA_FIELD) + ['\n'])
    else s
  }

  function StandardLines(s: Standard, lines: seq<string>): Standard {
    if lines == [] then s else StandardLine(StandardLines(s, lines[..|lines| - 1]), lines[|lines| - 1])
  }

  lemma {:induction false} StandardReadsPrintedEvents(events: seq<Event>)
    ensures StandardLines(Standard("", "", []), Lines(events)) == Standard("", "", events)
  {
    if events != [] {
      var n := |events| - 1;
      StandardReadsPrintedEvents(events[..n]);
      hide StandardLines, StandardLine;
      StandardThree(Lines(events[..n]), events[n]);
      assert events[..n] + [events[n]] == events;
    }
  }

  /** On everything the server prints, the one-shot reader and the standard dispatch the same events. */
  lemma ReaderMeetsStandardOnPrintedEvents(events: seq<Event>)
    requires Printable(events)
    ensures StandardLines(Standard("", "", []), Lines(events)).events == OneShot(Print(events)).events == events
  {
    StandardReadsPrintedEvents(events);
    OneShotUndoesPrint(events);
  }

  lemma StandardMore(s: Standard, lines: seq<string>, line: string)
    ensures StandardLines(s, lines + [line]) == StandardLine(StandardLines(s, lines), line)
  {
  }

  /** The reader's event lines and data lines are fields of the standard, with the same values up to trimming. */
  lemma ReaderLinesAreFields(line: string)
    ensures IsEvent(line) ==> IsField(line, EVENT_FIELD) && FieldValue(line, EVENT_FIELD) == line[|EVENT|..]
    ensures IsData(line) ==> IsField(line, DATA_FIELD) && FieldValue(line, DATA_FIELD) == line[|DATA|..]
  {
    assert |EVENT| == 7 && |EVENT_FIELD| == 5 && EVENT[..5] == EVENT_FIELD && EVENT[5] == ':' && EVENT[6] == ' ';
    assert |DATA| == 6 && |DATA_FIELD| == 4 && DATA[..4] == DATA_FIELD && DATA[4] == ':' && DATA[5] == ' ';
    hide EVENT, DATA, EVENT_FIELD, DATA_FIELD;
    if IsEvent(line) {
      assert line[..7][..5] == line[..5] && line[6..][0] == line[6] && line[6..][1..] == line[7..];
    }
    if IsData(line) {
      assert line[..6][..4] == line[..4] && line[5..][0] == line[5] && line[5..][1..] == line[6..];
    }
  }

  lemma NoLineIsBothFields(line: string)
    ensures !(IsField(line, EVENT_FIELD) && IsField(line, DATA_FIELD))
  {
    assert EVENT_FIELD[0] == 'e' && DATA_FIELD[0] == 'd';
  }

  lemma StandardPrinted(s: Standard, e: Event)
    ensures StandardLine(s, EVENT + e.kind) == s.(kind := e.kind)
    ensures StandardLine(s, DATA + e.data) == s.(data := s.data + (e.data + ['\n']))
  {
    var a, b := EVENT + e.kind, DATA + e.data;
    assert a[|EVENT|..] == e.kind && b[|DATA|..] == e.data;
    assert IsEvent(a) && IsData(b) by { assert b[0] == 'd' && EVENT[0] == 'e'; }
    ReaderLinesAreFields(a);
    ReaderLinesAreFields(b);
    NoLineIsBothFields(b);
    assert s.data + e.data + ['\n'] == s.data + (e.data + ['\n']);
  }

  lemma StandardThree(lines: seq<string>, e: Event)
    requires StandardLines(Standard("", "", []), lines).kind == "" == StandardLines(Standard("", "", []), lines).data
    ensures var s := StandardLines(Standard("", "", []), lines);
      StandardLines(Standard("", "", []), lines + [EVENT + e.kind, DATA + e.data, ""]) == s.(events := s.events + [e])
  {
    var a, b, start := EVENT + e.kind, DATA + e.data, Standard("", "", []);
    var s := StandardLines(start, lines);
    StandardPrinted(s, e);
    StandardPrinted(s.(kind := e.kind), e);
    StandardMore(start, lines, a);
    StandardMore(start, lines + [a], b);
    StandardMore(start, lines + [a] + [b], "");
    assert lines + [a, b, ""] == lines + [a] + [b] + [""];
    assert (e.data + ['\n'])[..|e.data|] == e.data;
    assert s.data + (e.data + ['\n']) == e.data + ['\n'];
  }

  /** They part where a blank line stands between the type and the data: the reader does not see it as the end. */
  lemma BlankLineDoesNotEndAnEvent(kind: string, data: string)
    requires Trim(kind) == kind && kind != ""
    ensures var lines := [EVENT + kind, "", DATA + data, ""];
      && HandleLines(Scan("", []), lines).events == [Event(kind, data)]
      && StandardLines(Standard("", "", []), lines).events == [Event("", data)]
  {
    var e, start := Event(kind, data), Standard("", "", []);
    var a, b := EVENT + kind, DATA + data;
    HandleSum(Scan("", []), [a, ""], [b, ""]);
    HandleFirst(Scan("", []), [a, ""]);
    assert [a, ""][1..] == [""];
    HandleFirst(Scan(kind, []), [""]);
    HandleFirst(Scan(kind, []), [b, ""]);
    assert [b, ""][1..] == [""] && a[|EVENT|..] == kind && b[|DATA|..] == data && b[0] == 'd';
    HandleFirst(Scan("", [e]), [""]);
    assert [a, "", b, ""] == [a, ""] + [b, ""];
    assert StandardLines(start, []) == start;
    StandardPrinted(start, e);
    StandardMore(start, [], a);
    StandardMore(start, [a], "");
    StandardMore(start, [a] + [""], b);
    StandardMore(start, [a] + [""] + [b], "");
    assert [] + [a] == [a] && [a, "", b, ""] == [a] + [""] + [b] + [""];
    assert "" + (data + ['\n']) == data + ['\n'] && (data + ['\n'])[..|data|] == data;
  }

  // ---- Exactly when they agree ----------------------------------------------------------------

  predicate IsDataField(line: string) {
    IsField(line, DATA_FIELD)
  }

  /** The lines before a blank line: none of them blank, none with a newline. */
  ghost predicate IsBlock(block: seq<string>) {
    forall i :: 0 <= i < |block| ==> |block[i]| > 0 && '\n' !in block[i]
  }

  /** The type that a block's last event field names. */
  function BlockType(block: seq<string>): string {
    if |block| == 0 then ""
    else if IsField(block[|block| - 1], EVENT_FIELD) then FieldValue(block[|block| - 1], EVENT_FIELD)
    else BlockType(block[..|block| - 1])
  }

  /** The type that the last of the lines starting with `event: ` names, trimmed, if there is one. */
  function ReaderType(pending: string, lines: seq<string>): string {
    if |lines| == 0 then pending
    else if IsEvent(lines[|lines| - 1]) then TypeOf(lines[|lines| - 1])
    else ReaderType(pending, lines[..|lines| - 1])
  }

  ghost predicate NoData(block: seq<string>) {
    forall j :: 0 <= j < |block| ==> !IsDataField(block[j])
  }

  ghost predicate OnlyData(block: seq<string>, k: nat)
    requires k < |block|
  {
    IsDataField(block[k]) && forall j :: 0 <= j < |block| && j != k ==> !IsDataField(block[j])
  }

  /**
   * The shape on which they agree: no data field, or a single one, written with a space after the colon, for which
   * the type above it, or else the one still pending, is the type of the block.
   */
  ghost predicate Agree(pending: string, block: seq<string>) {
    NoData(block) || exists k :: 0 <= k < |block| && OnlyData(block, k) && AgreeAt(pending, block, k)
  }

  predicate AgreeAt(pending: string, block: seq<string>, k: nat)
    requires k < |block|
  {
    IsData(block[k]) && ReaderType(pending, block[..k]) == BlockType(block)
  }

  function BlockData(block: seq<string>): string {
    if |block| == 0 then ""
    else
      var front, last := BlockData(block[..|block| - 1]), block[|block| - 1];
      if IsDataField(last) then front + FieldValue(last, DATA_FIELD) + ['\n'] else front
  }

  lemma {:induction false} StandardCollects(events: seq<Event>, block: seq<string>)
    requires IsBlock(block)
    ensures StandardLines(Standard("", "", events), block) == Standard(BlockType(block), BlockData(block), events)
  {
    if |block| > 0 {
      StandardCollects(events, block[..|block| - 1]);
      NoLineIsBothFields(block[|block| - 1]);
      hide IsField, FieldValue;
    }
  }

  lemma {:induction false} NoDataIsEmpty(block: seq<string>)
    ensures |BlockData(block)| == 0 <==> NoData(block)
    ensures |BlockData(block)| > 0 ==> BlockData(block)[|BlockData(block)| - 1] == '\n'
  {
    if |block| > 0 {
      NoDataIsEmpty(block[..|block| - 1]);
      hide IsDataField, FieldValue;
    }
  }

  lemma {:induction false} OneFieldIsTheData(block: seq<string>, k: nat)
    requires k < |block| && OnlyData(block, k)
    ensures BlockData(block) == FieldValue(block[k], DATA_FIELD) + ['\n']
  {
    var n := |block| - 1;
    hide FieldValue;
    if k < n {
      assert !IsDataField(block[n]);
      OneFieldIsTheData(block[..n], k);
    } else {
      NoDataIsEmpty(block[..n]);
      assert BlockData(block[..n]) == [];
    }
    hide IsDataField;
  }

  lemma {:induction false} MoreFieldsLeaveANewline(block: seq<string>, j: nat, k: nat)
    requires j < k < |block| && IsDataField(block[j]) && IsDataField(block[k])
    ensures |BlockData(block)| > 0 && '\n' in BlockData(block)[..|BlockData(block)| - 1]
  {
    hide IsDataField, FieldValue;
    var n := |block| - 1;
    var before, data := BlockData(block[..n]), BlockData(block);
    if k < n {
      MoreFieldsLeaveANewline(block[..n], j, k);
      assert before == data[..|before|];
      assert before[..|before| - 1] == data[..|data| - 1][..|before| - 1];
    } else {
      NoDataIsEmpty(block[..n]);
      assert block[..n][j] == block[j];
      assert data[..|data| - 1][|before| - 1] == '\n';
    }
  }

  /** What the reader handles in a block, given the type still pending. */
  function Handled(pending: string, block: seq<string>): seq<Event> {
    HandleLines(Scan(pending, []), block).events
  }

  lemma {:induction false} HandledIsAppended(s: Scan, lines: seq<string>)
    ensures var e := HandleLines(Scan(s.kind, []), lines);
      HandleLines(s, lines) == Scan(e.kind, s.events + e.events)
  {
    if lines != [] { HandledIsAppended(s, lines[..|lines| - 1]); }
  }

  lemma {:induction false} HandledHasNoNewlines(pending: string, block: seq<string>)
    requires IsBlock(block)
    ensures NoneHasNewlines(Handled(pending, block))
  {
    if |block| > 0 { HandledHasNoNewlines(pending, block[..|block| - 1]); }
  }

  ghost predicate NoneHasNewlines(events: seq<Event>) {
    forall i :: 0 <= i < |events| ==> '\n' !in events[i].data
  }

  lemma {:induction false} NothingHandled(pending: string, lines: seq<string>)
    requires NoData(lines)
    ensures HandleLines(Scan(pending, []), lines) == Scan(ReaderType(pending, lines), [])
  {
    if |lines| > 0 {
      var n := |lines| - 1;
      NothingHandled(pending, lines[..n]);
      ReaderLinesAreFields(lines[n]);
      assert !IsDataField(lines[n]);
    }
  }

  lemma OneHandled(pending: string, block: seq<string>, k: nat)
    requires k < |block| && OnlyData(block, k)
    ensures Handled(pending, block) ==
      if IsData(block[k]) then [Event(ReaderType(pending, block[..k]), block[k][|DATA|..])] else []
  {
    var start, above, below := Scan(pending, []), block[..k], block[k + 1..];
    assert block == above + [block[k]] + below;
    NothingHandled(pending, above);
    HandleSum(start, above, [block[k]]);
    HandleSum(start, above + [block[k]], below);
    var s := HandleLine(HandleLines(start, above), block[k]);
    assert [block[k]][..0] == [];
    assert HandleLines(HandleLines(start, above), [block[k]]) == s;
    HandledIsAppended(s, below);
    NothingHandled(s.kind, below);
    ReaderLinesAreFields(block[k]);
    NoLineIsBothFields(block[k]);
  }

  /** One block: the same events exactly in that shape; and the reader handles no more, unless data has a newline. */
  lemma BlockAgreesExactly(pending: string, block: seq<string>)
    requires IsBlock(block)
    ensures var dispatched := Dispatched(Standard(BlockType(block), BlockData(block), []));
      && (Handled(pending, block) == dispatched <==> Agree(pending, block))
      && (NoneHasNewlines(dispatched) ==> |Handled(pending, block)| <= |dispatched|)
  {
    NoDataIsEmpty(block);
    HandledHasNoNewlines(pending, block);
    var data := BlockData(block);
    var dispatched := Dispatched(Standard(BlockType(block), data, []));
    hide BlockData, BlockType, FieldValue, IsDataField;
    if NoData(block) {
      NothingHandled(pending, block);
    } else {
      assert dispatched == [Event(BlockType(block), data[..|data| - 1])];
      var k :| 0 <= k < |block| && IsDataField(block[k]);
      if OnlyData(block, k) {
        OneHandled(pending, block, k);
        OneFieldIsTheData(block, k);
        ReaderLinesAreFields(block[k]);
        assert Agree(pending, block) <==> AgreeAt(pending, block, k);
      } else {
        var j :| 0 <= j < |block| && j != k && IsDataField(block[j]);
        MoreFieldsLeaveANewline(block, if j < k then j else k, if j < k then k else j);
        assert '\n' in dispatched[0].data;
        assert !NoneHasNewlines(dispatched);
      }
    }
  }

  /** Blocks, each with the blank line that ends it. */
  function Stream(blocks: seq<seq<string>>): seq<string> {
    if blocks == [] then [] else Stream(blocks[..|blocks| - 1]) + (blocks[|blocks| - 1] + [""])
  }

  /** What is pending, for the reader, when the i-th block starts. */
  function PendingAt(blocks: seq<seq<string>>, i: nat): string
    requires i <= |blocks|
  {
    HandleLines(Scan("", []), Stream(blocks[..i])).kind
  }

  ghost predicate AllAgree(blocks: seq<seq<string>>) {
    forall i :: 0 <= i < |blocks| ==> Agree(PendingAt(blocks, i), blocks[i])
  }

  lemma AllAgreeButLast(blocks: seq<seq<string>>)
    requires blocks != []
    ensures var n := |blocks| - 1;
      AllAgree(blocks) <==> AllAgree(blocks[..n]) && Agree(PendingAt(blocks, n), blocks[n])
  {
    hide Agree, HandleLines, Stream;
    var n := |blocks| - 1;
    forall i | 0 <= i < n ensures PendingAt(blocks[..n], i) == PendingAt(blocks, i) {
      assert blocks[..n][..i] == blocks[..i];
    }
  }

  lemma {:induction false} StandardSum(s: Standard, a: seq<string>, b: seq<string>)
    ensures StandardLines(s, a + b) == StandardLines(StandardLines(s, a), b)
    decreases |b|
  {
    if b == [] {
      assert a + b == a;
    } else {
      var n := |b| - 1;
      StandardSum(s, a, b[..n]);
      assert (a + b)[..|a| + n] == a + b[..n] && (a + b)[|a| + n] == b[n];
    }
  }

  lemma StandardBlock(events: seq<Event>, block: seq<string>)
    requires IsBlock(block)
    ensures StandardLines(Standard("", "", events), block + [""])
      == Standard("", "", events + Dispatched(Standard(BlockType(block), BlockData(block), [])))
  {
    StandardCollects(events, block);
    StandardMore(Standard("", "", events), block, "");
  }

  lemma HandledBlock(s: Scan, block: seq<string>)
    ensures HandleLines(s, block + [""]).events == s.events + Handled(s.kind, block)
  {
    HandledIsAppended(s, block);
    HandleSum(s, block, [""]);
    assert [""][..0] == [];
  }

  /** What one more block adds to either reading. */
  lemma StreamMore(blocks: seq<seq<string>>)
    requires |blocks| > 0 && IsBlock(blocks[|blocks| - 1])
    requires var s := StandardLines(Standard("", "", []), Stream(blocks[..|blocks| - 1])); s.kind == "" == s.data
    ensures var n, start := |blocks| - 1, Standard("", "", []);
      && HandleLines(Scan("", []), Stream(blocks)).events
           == HandleLines(Scan("", []), Stream(blocks[..n])).events + Handled(PendingAt(blocks, n), blocks[n])
      && StandardLines(start, Stream(blocks)) == Standard("", "", StandardLines(start, Stream(blocks[..n])).events
           + Dispatched(Standard(BlockType(blocks[n]), BlockData(blocks[n]), [])))
  {
    var n := |blocks| - 1;
    var before, block := Stream(blocks[..n]), blocks[n];
    HandleSum(Scan("", []), before, block + [""]);
    HandledBlock(HandleLines(Scan("", []), before), block);
    StandardSum(Standard("", "", []), before, block + [""]);
    StandardBlock(StandardLines(Standard("", "", []), before).events, block);
    hide HandleLines, StandardLines, Dispatched, BlockType, BlockData;
  }

  /**
   * On every stream of complete blocks the one-shot reader handles the events that the standard dispatches exactly
   * if every block has the shape on which they agree.
   */
  lemma {:induction false} ReaderMeetsStandardExactly(blocks: seq<seq<string>>)
    requires forall i :: 0 <= i < |blocks| ==> IsBlock(blocks[i])
    ensures var handled := HandleLines(Scan("", []), Stream(blocks)).events;
      var standard := StandardLines(Standard("", "", []), Stream(blocks));
      && (handled == standard.events <==> AllAgree(blocks))
      && standard.kind == "" == standard.data
      && NoneHasNewlines(handled) && (NoneHasNewlines(standard.events) ==> |handled| <= |standard.events|)
  {
    if |blocks| > 0 {
      hide *;
      var n := |blocks| - 1;
      var init, block, pending := blocks[..n], blocks[n], PendingAt(blocks, n);
      ReaderMeetsStandardExactly(init);
      StreamMore(blocks);
      AllAgreeButLast(blocks);
      BlockAgreesExactly(pending, block);
      HandledHasNoNewlines(pending, block);
      SumsAreEqualExactly(
        HandleLines(Scan("", []), Stream(init)).events, Handled(pending, block),
        StandardLines(Standard("", "", []), Stream(init)).events,
        Dispatched(Standard(BlockType(block), BlockData(block), [])));
    }
  }

  lemma SumsAreEqualExactly(a: seq<Event>, b: seq<Event>, c: seq<Event>, d: seq<Event>)
    requires NoneHasNewlines(a) && NoneHasNewlines(b)
    requires (NoneHasNewlines(c) ==> |a| <= |c|) && (NoneHasNewlines(d) ==> |b| <= |d|)
    ensures a + b == c + d <==> a == c && b == d
    ensures NoneHasNewlines(a + b) && (NoneHasNewlines(c + d) ==> |a + b| <= |c + d|)
  {
    forall i | 0 <= i < |c| && NoneHasNewlines(c + d) ensures '\n' !in c[i].data { assert c[i] == (c + d)[i]; }
    forall i | 0 <= i < |d| && NoneHasNewlines(c + d) ensures '\n' !in d[i].data { assert d[i] == (c + d)[|c| + i]; }
    if a + b == c + d {
      assert |a| == |c| && |b| == |d|;
      assert a == (a + b)[..|a|] && c == (c + d)[..|c|];
      assert b == (a + b)[|a|..] && d == (c + d)[|c|..];
    }
  }
}
