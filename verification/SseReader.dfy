/**
 * The incremental reader of the chat stream. Text arrives in chunks cut anywhere; lines are completed across
 * chunks, but the pending event type is forgotten at every chunk.
 */
module SseReader {
  import opened Prelude
  import opened JsText
  import opened Text

  // ---- Lines ----------------------------------------------------------------------------------

  /** The pieces that a newline ended, and the piece still open. */
  function Complete(s: string): seq<string> {
    var pieces := Split(s, '\n');
    pieces[..|pieces| - 1]
  }

  function Remainder(s: string): string {
    var pieces := Split(s, '\n');
    pieces[|pieces| - 1]
  }

  function Terminated(lines: seq<string>): string {
    if lines == [] then "" else lines[0] + "\n" + Terminated(lines[1..])
  }

  ghost predicate NoNewlines(lines: seq<string>) {
    forall i :: 0 <= i < |lines| ==> '\n' !in lines[i]
  }

  /** How one more character in front changes the division. */
  lemma OneMoreInFront(c: char, t: string)
    ensures var s := [c] + t;
      if c == '\n' then Complete(s) == [""] + Complete(t) && Remainder(s) == Remainder(t)
      else if Complete(t) == [] then Complete(s) == [] && Remainder(s) == [c] + Remainder(t)
      else Complete(s) == [[c] + Complete(t)[0]] + Complete(t)[1..] && Remainder(s) == Remainder(t)
  {
  }

  lemma TerminatedFirst(line: string, lines: seq<string>)
    ensures Terminated([line] + lines) == line + "\n" + Terminated(lines)
  {
  }

  /** The complete lines are the newline-terminated lines of the text, the remainder is what follows them. */
  lemma {:induction false} LinesAreExact(s: string)
    ensures s == Terminated(Complete(s)) + Remainder(s)
    ensures NoNewlines(Complete(s)) && '\n' !in Remainder(s)
  {
    if s != "" {
      var c, t := s[0], s[1..];
      LinesAreExact(t);
      OneMoreInFront(c, t);
      var lines, rest := Complete(t), Remainder(t);
      assert s == [c] + t;
      assert Terminated([]) == "";
      hide Complete, Remainder, Terminated;
      if c == '\n' {
        TerminatedFirst("", lines);
      } else if lines != [] {
        assert lines == [lines[0]] + lines[1..];
        TerminatedFirst(lines[0], lines[1..]);
        TerminatedFirst([c] + lines[0], lines[1..]);
      }
    }
  }

  /** And there is only one such division. */
  lemma {:induction false} LinesAreUnique(lines: seq<string>, rest: string)
    requires NoNewlines(lines) && '\n' !in rest
    ensures Complete(Terminated(lines) + rest) == lines && Remainder(Terminated(lines) + rest) == rest
  {
    if lines == [] {
      SplitWithoutSeparator(rest, '\n');
      assert Terminated(lines) + rest == rest;
    } else {
      var tail := Terminated(lines[1..]) + rest;
      LinesAreUnique(lines[1..], rest);
      SplitAfterPiece(lines[0], '\n', tail);
      assert Terminated(lines) + rest == lines[0] + ['\n'] + tail;
      assert Split(tail, '\n') == lines[1..] + [rest];
      assert lines == [lines[0]] + lines[1..];
    }
  }

  /** Keeping the last piece and prepending it to the next text finds the same lines as looking at all of it. */
  lemma SplitContinues(a: string, b: string)
    ensures Complete(a + b) == Complete(a) + Complete(Remainder(a) + b)
    ensures Remainder(a + b) == Remainder(Remainder(a) + b)
  {
    LinesAreExact(a);
    LinesAreExact(Remainder(a) + b);
    var lines, rest := Complete(a), Remainder(a);
    var more, last := Complete(rest + b), Remainder(rest + b);
    assert NoNewlines(lines + more);
    hide *;
    TerminatedOfSum(lines, more);
    calc {
      Terminated(lines + more) + last;
      (Terminated(lines) + Terminated(more)) + last;
      Terminated(lines) + (Terminated(more) + last);
      Terminated(lines) + (rest + b);
      (Terminated(lines) + rest) + b;
      a + b;
    }
    LinesAreUnique(lines + more, last);
  }

  lemma {:induction false} TerminatedOfSum(a: seq<string>, b: seq<string>)
    ensures Terminated(a + b) == Terminated(a) + Terminated(b)
  {
    if a == [] {
      assert a + b == b;
    } else {
      TerminatedOfSum(a[1..], b);
      assert (a + b)[1..] == a[1..] + b;
      var first, x, y := a[0] + "\n", Terminated(a[1..]), Terminated(b);
      assert first + (x + y) == (first + x) + y;
    }
  }

  // ---- Events ---------------------------------------------------------------------------------

  const EVENT := "event: "
  const DATA := "data: "

  predicate IsEvent(line: string) {
    EVENT <= line
  }

  predicate IsData(line: string) {
    DATA <= line && !IsEvent(line)
  }

  function TypeOf(line: string): string
    requires IsEvent(line)
  {
    Trim(line[|EVENT|..])
  }

  /** The type is what stands between the white space after the field's name and at the line's end. */
  lemma TypesAreTrimmed(line: string) returns (before: string, after: string)
    requires IsEvent(line)
    ensures line == EVENT + before + TypeOf(line) + after && Spaces(before) && Spaces(after)
    ensures TypeOf(line) != "" ==> !IsSpace(TypeOf(line)[0]) && !IsSpace(TypeOf(line)[|TypeOf(line)| - 1])
  {
    hide Trim, IsSpace, Spaces;
    before, after := TrimIsExact(line[|EVENT|..]);
    assert line == line[..|EVENT|] + line[|EVENT|..];
  }

  datatype Event = Event(kind: string, data: string)

  /** The pending type and the events handled so far. */
  datatype Scan = Scan(kind: string, events: seq<Event>)

  function HandleLine(s: Scan, line: string): Scan {
    if IsEvent(line) then s.(kind := TypeOf(line))
    else if IsData(line) then Scan("", s.events + [Event(s.kind, line[|DATA|..])])
    else s
  }

  function HandleLines(s: Scan, lines: seq<string>): Scan {
    if lines == [] then s else HandleLine(HandleLines(s, lines[..|lines| - 1]), lines[|lines| - 1])
  }

  /** The whole stream in one piece. */
  function OneShot(stream: string): Scan {
    HandleLines(Scan("", []), Complete(stream))
  }

  function Joined(chunks: seq<string>): string {
    if chunks == [] then "" else Joined(chunks[..|chunks| - 1]) + chunks[|chunks| - 1]
  }

  datatype Reader = Reader(buffer: string, events: seq<Event>)

  /** One turn of the loop: the type starts out empty. */
  function Feed(r: Reader, chunk: string): Reader {
    var text := r.buffer + chunk;
    Reader(Remainder(text), HandleLines(Scan("", r.events), Complete(text)).events)
  }

  function Incremental(chunks: seq<string>): Reader {
    if chunks == [] then Reader("", []) else Feed(Incremental(chunks[..|chunks| - 1]), chunks[|chunks| - 1])
  }

  /** The lines that the i-th chunk completes. */
  function NewLines(chunks: seq<string>, i: nat): seq<string>
    requires i < |chunks|
  {
    Complete(Remainder(Joined(chunks[..i])) + chunks[i])
  }

  function AllNewLines(chunks: seq<string>): seq<string> {
    if chunks == [] then []
    else AllNewLines(chunks[..|chunks| - 1]) + NewLines(chunks, |chunks| - 1)
  }

  /** However the stream is cut, the chunks complete exactly its newline-terminated lines, in order. */
  lemma {:induction false} LinesDoNotDependOnChunks(chunks: seq<string>)
    ensures AllNewLines(chunks) == Complete(Joined(chunks))
    ensures Incremental(chunks).buffer == Remainder(Joined(chunks))
  {
    if chunks != [] {
      var init := chunks[..|chunks| - 1];
      LinesDoNotDependOnChunks(init);
      SplitContinues(Joined(init), chunks[|chunks| - 1]);
    }
  }

  // ---- When events survive the cuts -----------------------------------------------------------

  /** The first line of those given that is an event or a data line is a data line. */
  predicate DataComesFirst(lines: seq<string>) {
    lines != [] && (IsData(lines[0]) || (!IsEvent(lines[0]) && DataComesFirst(lines[1..])))
  }

  /** The i-th chunk brings the data line of an event line that an earlier chunk completed. */
  predicate Tears(chunks: seq<string>, i: nat)
    requires i < |chunks|
  {
    OneShot(Joined(chunks[..i])).kind != "" && DataComesFirst(NewLines(chunks, i))
  }

  ghost predicate Pending(lines: seq<string>, k: nat)
    requires k < |lines|
  {
    && IsEvent(lines[k]) && TypeOf(lines[k]) != ""
    && forall j :: k < j < |lines| ==> !IsEvent(lines[j]) && !IsData(lines[j])
  }

  ghost predicate FirstData(lines: seq<string>, k: nat)
    requires k < |lines|
  {
    IsData(lines[k]) && forall j :: 0 <= j < k ==> !IsEvent(lines[j]) && !IsData(lines[j])
  }

  /** In terms of lines: a type is pending if the last event or data line is an event line that names one. */
  lemma {:induction false} PendingTypeIsTheLastEventLine(lines: seq<string>)
    ensures HandleLines(Scan("", []), lines).kind != "" <==> exists k :: 0 <= k < |lines| && Pending(lines, k)
  {
    if lines != [] {
      var n := |lines| - 1;
      PendingTypeIsTheLastEventLine(lines[..n]);
      if IsEvent(lines[n]) && TypeOf(lines[n]) != "" { assert Pending(lines, n); }
      if k :| 0 <= k < |lines| && Pending(lines, k) {
        assert k < n ==> Pending(lines[..n], k);
      }
      if k :| 0 <= k < n && Pending(lines[..n], k) {
        assert !IsEvent(lines[n]) && !IsData(lines[n]) ==> Pending(lines, k);
      }
    }
  }

  lemma {:induction false} DataComesFirstAtAnIndex(lines: seq<string>)
    ensures DataComesFirst(lines) <==> exists k :: 0 <= k < |lines| && FirstData(lines, k)
  {
    if lines != [] {
      var rest := lines[1..];
      DataComesFirstAtAnIndex(rest);
      if IsData(lines[0]) { assert FirstData(lines, 0); }
      if k :| 0 <= k < |lines| && FirstData(lines, k) {
        if k > 0 {
          assert FirstData(rest, k - 1) by {
            forall j | 0 <= j < k - 1 ensures !IsEvent(rest[j]) && !IsData(rest[j]) { assert rest[j] == lines[j + 1]; }
          }
          assert !IsEvent(lines[0]);
        }
      }
      if k :| 0 <= k < |rest| && FirstData(rest, k) {
        if !IsEvent(lines[0]) && !IsData(lines[0]) {
          forall j | 0 <= j < k + 1 ensures !IsEvent(lines[j]) && !IsData(lines[j]) {
            if j > 0 { assert lines[j] == rest[j - 1]; }
          }
          assert FirstData(lines, k + 1);
        }
      }
    }
  }

  lemma {:induction false} HandleSum(s: Scan, a: seq<string>, b: seq<string>)
    ensures HandleLines(s, a + b) == HandleLines(HandleLines(s, a), b)
    decreases |b|
  {
    if b == [] {
      assert a + b == a;
    } else {
      var n := |b| - 1;
      HandleSum(s, a, b[..n]);
      assert (a + b)[..|a| + n] == a + b[..n] && (a + b)[|a| + n] == b[n];
    }
  }

  lemma HandleFirst(s: Scan, lines: seq<string>)
    requires lines != []
    ensures HandleLines(s, lines) == HandleLines(HandleLine(s, lines[0]), lines[1..])
  {
    assert lines == [lines[0]] + lines[1..];
    HandleSum(s, [lines[0]], lines[1..]);
    assert [lines[0]][..0] == [];
  }

  /** The pending type matters exactly if the next event or data line is a data line. */
  lemma {:induction false} PendingTypeMattersExactlyForData(s: Scan, r: Scan, lines: seq<string>)
    requires |s.events| == |r.events|
    ensures var s', r' := HandleLines(s, lines), HandleLines(r, lines);
      && |s'.events| == |r'.events|
      && (s'.events == r'.events <==> s.events == r.events && (s.kind == r.kind || !DataComesFirst(lines)))
    decreases |lines|
  {
    if lines != [] {
      HandleFirst(s, lines);
      HandleFirst(r, lines);
      var s1, r1 := HandleLine(s, lines[0]), HandleLine(r, lines[0]);
      PendingTypeMattersExactlyForData(s1, r1, lines[1..]);
      if IsData(lines[0]) {
        assert s.events == s1.events[..|s.events|] && r.events == r1.events[..|r.events|];
        assert s1.events == r1.events ==> s1.events[|s.events|].kind == r1.events[|r.events|].kind;
      }
    }
  }

  /** The incremental reader handles the events of a one-shot parse, exactly if no cut tears an event from its data. */
  lemma {:induction false} EventsSurviveExactlyWithoutTears(chunks: seq<string>)
    ensures |Incremental(chunks).events| == |OneShot(Joined(chunks)).events|
    ensures Incremental(chunks).events == OneShot(Joined(chunks)).events
      <==> NeverTears(chunks)
  {
    if chunks != [] {
      var n := |chunks| - 1;
      var init := chunks[..n];
      EventsSurviveExactlyWithoutTears(init);
      LinesDoNotDependOnChunks(init);
      SplitContinues(Joined(init), chunks[n]);
      HandleSum(Scan("", []), Complete(Joined(init)), NewLines(chunks, n));
      PendingTypeMattersExactlyForData(OneShot(Joined(init)), Scan("", Incremental(init).events), NewLines(chunks, n));
      NeverTearsButLast(chunks);
      hide NeverTears, Complete, Remainder, HandleLines, DataComesFirst;
    }
  }

  ghost predicate NeverTears(chunks: seq<string>) {
    forall i :: 0 <= i < |chunks| ==> !Tears(chunks, i)
  }

  lemma NeverTearsButLast(chunks: seq<string>)
    requires chunks != []
    ensures NeverTears(chunks) <==> NeverTears(chunks[..|chunks| - 1]) && !Tears(chunks, |chunks| - 1)
  {
    var init := chunks[..|chunks| - 1];
    forall i | 0 <= i < |init| ensures Tears(chunks, i) == Tears(init, i) {
      assert chunks[..i] == init[..i];
    }
  }

  // ---- What the server writes -----------------------------------------------------------------

  function Lines(events: seq<Event>): seq<string> {
    if events == [] then []
    else Lines(events[..|events| - 1]) + [EVENT + events[|events| - 1].kind, DATA + events[|events| - 1].data, ""]
  }

  function Print(events: seq<Event>): string {
    Terminated(Lines(events))
  }

  /** Types and payloads are on one line (JSON text is) and types have no white space around them. */
  ghost predicate Printable(events: seq<Event>) {
    forall i :: 0 <= i < |events| ==>
      '\n' !in events[i].kind && '\n' !in events[i].data && Trim(events[i].kind) == events[i].kind
  }

  lemma OneShotUndoesPrint(events: seq<Event>)
    requires Printable(events)
    ensures NoNewlines(Lines(events)) && Complete(Print(events)) == Lines(events)
    ensures OneShot(Print(events)) == Scan("", events)
  {
    LinesHaveNoNewlines(events);
    LinesAreHandled(events);
    LinesAreUnique(Lines(events), "");
    assert Print(events) + "" == Print(events);
  }

  lemma {:induction false} LinesHaveNoNewlines(events: seq<Event>)
    requires Printable(events)
    ensures NoNewlines(Lines(events))
  {
    if events != [] { LinesHaveNoNewlines(events[..|events| - 1]); }
  }

  lemma {:induction false} LinesAreHandled(events: seq<Event>)
    requires Printable(events)
    ensures HandleLines(Scan("", []), Lines(events)) == Scan("", events)
  {
    if events != [] {
      var n := |events| - 1;
      LinesAreHandled(events[..n]);
      hide HandleLines, HandleLine;
      HandleThree(Scan("", events[..n]), events[n]);
      HandleSum(Scan("", []), Lines(events[..n]), [EVENT + events[n].kind, DATA + events[n].data, ""]);
      assert events[..n] + [events[n]] == events;
    }
  }

  lemma HandleThree(s: Scan, e: Event)
    requires s.kind == "" && Trim(e.kind) == e.kind
    ensures HandleLines(s, [EVENT + e.kind, DATA + e.data, ""]) == Scan("", s.events + [e])
  {
    var a, b := EVENT + e.kind, DATA + e.data;
    assert a[|EVENT|..] == e.kind && b[|DATA|..] == e.data;
    assert a[0] == 'e' && b[0] == 'd';
    HandleFirst(s, [a, b, ""]);
    assert [a, b, ""][1..] == [b, ""];
    HandleFirst(s.(kind := e.kind), [b, ""]);
    assert [b, ""][1..] == [""];
    HandleFirst(Scan("", s.events + [e]), [""]);
  }

  /** What the server printed is read back in any chunks, exactly if none tears an event from its data. */
  lemma PrintedEventsAreReadBackExactlyWithoutTears(events: seq<Event>, chunks: seq<string>)
    requires Printable(events) && Joined(chunks) == Print(events)
    ensures Incremental(chunks).events == events <==> NeverTears(chunks)
  {
    EventsSurviveExactlyWithoutTears(chunks);
    OneShotUndoesPrint(events);
  }

  /**
   * A chunk that ends with the event line tears it from its data: the reader handles the data without its type,
   * for every type and payload.
   */
  lemma CutAfterTheEventLineTears(kind: string, data: string)
    requires Printable([Event(kind, data)]) && kind != ""
    ensures var chunks := [EVENT + kind + "\n", DATA + data + "\n\n"];
      && Joined(chunks) == Print([Event(kind, data)])
      && Incremental(chunks).events == [Event("", data)] && !NeverTears(chunks)
  {
    var a, b := EVENT + kind, DATA + data;
    var chunks := [a + "\n", b + "\n\n"];
    assert [Event(kind, data)][0] == Event(kind, data);
    FirstChunkOnly(a);
    SecondChunk(Reader("", []), b, data);
    assert chunks[..1] == [a + "\n"];
    PrintOne(kind, data);
    assert Joined(chunks) == Joined([a + "\n"]) + (b + "\n\n");
    assert [a + "\n"][..0] == [] && Joined([]) == "";
    PrintedEventsAreReadBackExactlyWithoutTears([Event(kind, data)], chunks);
  }

  lemma FirstChunkOnly(a: string)
    requires EVENT <= a && '\n' !in a
    ensures Incremental([a + "\n"]) == Reader("", [])
  {
    var chunk := a + "\n";
    assert [chunk][..0] == [];
    LinesAreUnique([a], "");
    assert Terminated([a]) + "" == chunk && "" + chunk == chunk;
    HandleFirst(Scan("", []), [a]);
    assert [a][1..] == [];
  }

  lemma SecondChunk(r: Reader, b: string, data: string)
    requires r == Reader("", []) && b == DATA + data && '\n' !in b
    ensures Feed(r, b + "\n\n") == Reader("", [Event("", data)])
  {
    var chunk := b + "\n\n";
    LinesAreUnique([b, ""], "");
    assert [b, ""][1..] == [""] && [""][1..] == [];
    assert Terminated([b, ""]) + "" == chunk && "" + chunk == chunk;
    assert b[|DATA|..] == data && b[0] == 'd';
    HandleFirst(Scan("", []), [b, ""]);
    HandleFirst(Scan("", [] + [Event("", data)]), [""]);
  }

  lemma PrintOne(kind: string, data: string)
    ensures Print([Event(kind, data)]) == (EVENT + kind + "\n") + (DATA + data + "\n\n")
  {
    var e := [Event(kind, data)];
    var a, b := EVENT + kind, DATA + data;
    assert e[..0] == [] && Lines([]) == [];
    assert Lines(e) == [a, b, ""];
    assert [a, b, ""][1..] == [b, ""] && [b, ""][1..] == [""] && [""][1..] == [];
    assert Terminated([""]) == "\n";
    assert Terminated([b, ""]) == b + "\n" + "\n";
    assert "\n" + "\n" == "\n\n";
  }

  // ---- The message on screen ------------------------------------------------------------------

  /** A payload's fields; absent or falsy ones are None or empty. */
  datatype Data = Data(articles: Option<seq<string>>, text: string, summary: string, relevant: Option<seq<string>>)

  datatype View = View(text: string, articles: seq<string>, streaming: bool)

  /** Payloads that do not parse are skipped. */
  function Apply(v: View, e: Event, parse: string -> Option<Data>): View {
    var parsed := parse(e.data);
    if parsed.None? then v
    else
      var d := parsed.value;
      if e.kind == "articles" && d.articles.Some? then v.(articles := d.articles.value)
      else if e.kind == "token" && d.text != "" then v.(text := v.text + d.text)
      else if e.kind == "done" then
        View(if d.summary != "" then d.summary else v.text, d.relevant.GetOr(v.articles), false)
      else v
  }

  function Shown(events: seq<Event>, parse: string -> Option<Data>): View {
    if events == [] then View("", [], true)
    else Apply(Shown(events[..|events| - 1], parse), events[|events| - 1], parse)
  }

  /** A token event with a text. */
  ghost predicate IsToken(e: Event, parse: string -> Option<Data>) {
    e.kind == "token" && parse(e.data).Some? && parse(e.data).value.text != ""
  }

  /** A done event with a summary. */
  ghost predicate IsSummary(e: Event, parse: string -> Option<Data>) {
    e.kind == "done" && parse(e.data).Some? && parse(e.data).value.summary != ""
  }

  ghost predicate IsDone(e: Event, parse: string -> Option<Data>) {
    e.kind == "done" && parse(e.data).Some?
  }

  /** The articles an event brings: those of an articles event, or the relevant ones of a done event. */
  ghost function ArticlesOf(e: Event, parse: string -> Option<Data>): Option<seq<string>> {
    if parse(e.data).None? then None
    else if e.kind == "articles" then parse(e.data).value.articles
    else if e.kind == "done" then parse(e.data).value.relevant
    else None
  }

  /** The texts of the token events, in the order of the stream. */
  ghost function TokenText(events: seq<Event>, parse: string -> Option<Data>): string {
    if events == [] then ""
    else if IsToken(events[0], parse) then parse(events[0].data).value.text + TokenText(events[1..], parse)
    else TokenText(events[1..], parse)
  }

  lemma {:induction false} TokenTextMore(events: seq<Event>, e: Event, parse: string -> Option<Data>)
    ensures TokenText(events + [e], parse) ==
      TokenText(events, parse) + if IsToken(e, parse) then parse(e.data).value.text else ""
  {
    hide IsToken;
    if events == [] {
      assert events + [e] == [e] && [e][1..] == [];
      assert TokenText([e][1..], parse) == "";
    } else {
      assert (events + [e])[1..] == events[1..] + [e];
      TokenTextMore(events[1..], e, parse);
    }
  }

  /** The k-th event is the last one with a summary. */
  ghost predicate LastSummary(events: seq<Event>, k: nat, parse: string -> Option<Data>)
    requires k < |events|
  {
    IsSummary(events[k], parse) && forall j :: k < j < |events| ==> !IsSummary(events[j], parse)
  }

  /** The k-th event is the last one that brings articles. */
  ghost predicate LastArticles(events: seq<Event>, k: nat, parse: string -> Option<Data>)
    requires k < |events|
  {
    ArticlesOf(events[k], parse).Some? && forall j :: k < j < |events| ==> ArticlesOf(events[j], parse).None?
  }

  lemma ShownByOneMore(v: View, e: Event, parse: string -> Option<Data>)
    ensures var w := Apply(v, e, parse);
      && w.text == (if IsSummary(e, parse) then parse(e.data).value.summary
                    else v.text + if IsToken(e, parse) then parse(e.data).value.text else "")
      && w.articles == ArticlesOf(e, parse).GetOr(v.articles)
      && w.streaming == (v.streaming && !IsDone(e, parse))
  {
    assert "token"[0] != "articles"[0] && "token"[0] != "done"[0] && "articles"[0] != "done"[0];
  }

  /** Without a summary the text is that of all tokens; with one it is the last summary and the tokens after it. */
  lemma {:induction false} TextIsTheLastSummaryAndItsTokens(events: seq<Event>, parse: string -> Option<Data>)
    ensures (forall j :: 0 <= j < |events| ==> !IsSummary(events[j], parse)) ==>
      Shown(events, parse).text == TokenText(events, parse)
    ensures forall k :: 0 <= k < |events| && LastSummary(events, k, parse) ==>
      Shown(events, parse).text == SummaryText(events, k, parse)
  {
    if |events| > 0 {
      var n := |events| - 1;
      ShownOneMore(events, parse);
      hide *;
      TextIsTheLastSummaryAndItsTokens(events[..n], parse);
      assert forall j :: 0 <= j < n ==> events[..n][j] == events[j];
      TokenTextMore(events[..n], events[n], parse);
      assert events[..n] + [events[n]] == events;
      forall k | 0 <= k < |events| && LastSummary(events, k, parse)
        ensures Shown(events, parse).text == SummaryText(events, k, parse)
      {
        LastSummaryOneMore(events, k, parse);
      }
    }
  }

  /** The k-th event's summary and the tokens after it. */
  ghost function SummaryText(events: seq<Event>, k: nat, parse: string -> Option<Data>): string
    requires k < |events| && IsSummary(events[k], parse)
  {
    parse(events[k].data).value.summary + TokenText(events[k + 1..], parse)
  }

  lemma ShownOneMore(events: seq<Event>, parse: string -> Option<Data>)
    requires |events| > 0
    ensures var n := |events| - 1;
      var v, w, e := Shown(events[..n], parse), Shown(events, parse), events[n];
      && w.text == (if IsSummary(e, parse) then parse(e.data).value.summary
                    else v.text + if IsToken(e, parse) then parse(e.data).value.text else "")
      && w.articles == ArticlesOf(e, parse).GetOr(v.articles)
      && w.streaming == (v.streaming && !IsDone(e, parse))
  {
    ShownByOneMore(Shown(events[..|events| - 1], parse), events[|events| - 1], parse);
    hide IsSummary, IsToken, IsDone, ArticlesOf, Apply;
  }

  lemma LastSummaryOneMore(events: seq<Event>, k: nat, parse: string -> Option<Data>)
    requires k < |events| && LastSummary(events, k, parse)
    ensures IsSummary(events[k], parse)
    ensures var n := |events| - 1;
      if k == n then SummaryText(events, k, parse) == parse(events[n].data).value.summary
      else
        && LastSummary(events[..n], k, parse) && !IsSummary(events[n], parse)
        && SummaryText(events, k, parse) ==
             SummaryText(events[..n], k, parse)
               + if IsToken(events[n], parse) then parse(events[n].data).value.text else ""
  {
    hide TokenText, IsToken;
    if k < |events| - 1 {
      TokensAfterOneMore(events, k, parse, parse(events[k].data).value.summary);
    } else {
      TokenTextOfNothing(events[k + 1..], parse);
    }
  }

  lemma TokensAfterOneMore(events: seq<Event>, k: nat, parse: string -> Option<Data>, summary: string)
    requires k < |events| - 1
    ensures var n := |events| - 1;
      (summary + TokenText(events[..n][k + 1..], parse))
        + (if IsToken(events[n], parse) then parse(events[n].data).value.text else "")
      == summary + TokenText(events[k + 1..], parse)
  {
    var n := |events| - 1;
    hide TokenText, IsToken;
    TokenTextMore(events[..n][k + 1..], events[n], parse);
    assert events[..n][k + 1..] + [events[n]] == events[k + 1..];
  }

  lemma TokenTextOfNothing(events: seq<Event>, parse: string -> Option<Data>)
    requires |events| == 0
    ensures TokenText(events, parse) == ""
  {
  }

  /** The articles are those of the last event that brings any, and the streaming mark goes with the first done. */
  lemma {:induction false} ArticlesAreTheLastOnes(events: seq<Event>, parse: string -> Option<Data>)
    ensures (forall j :: 0 <= j < |events| ==> ArticlesOf(events[j], parse).None?) ==>
      Shown(events, parse).articles == []
    ensures forall k :: 0 <= k < |events| && LastArticles(events, k, parse) ==>
      Shown(events, parse).articles == ArticlesOf(events[k], parse).value
    ensures Shown(events, parse).streaming <==> forall j :: 0 <= j < |events| ==> !IsDone(events[j], parse)
  {
    if events != [] {
      var n := |events| - 1;
      var init, e := events[..n], events[n];
      ArticlesAreTheLastOnes(init, parse);
      ShownOneMore(events, parse);
      hide Shown, ArticlesOf, IsToken, IsSummary, IsDone;
      forall k | 0 <= k < |events| && LastArticles(events, k, parse)
        ensures Shown(events, parse).articles == ArticlesOf(events[k], parse).value
      {
        if k < n { assert LastArticles(init, k, parse) && ArticlesOf(e, parse).None?; }
      }
    }
  }

  /** The text and the articles that the events call for. */
  ghost predicate Shows(v: View, events: seq<Event>, parse: string -> Option<Data>) {
    && ((forall j :: 0 <= j < |events| ==> !IsSummary(events[j], parse)) ==> v.text == TokenText(events, parse))
    && (forall k :: 0 <= k < |events| && LastSummary(events, k, parse) ==>
          v.text == parse(events[k].data).value.summary + TokenText(events[k + 1..], parse))
    && ((forall j :: 0 <= j < |events| ==> ArticlesOf(events[j], parse).None?) ==> v.articles == [])
    && (forall k :: 0 <= k < |events| && LastArticles(events, k, parse) ==>
          v.articles == ArticlesOf(events[k], parse).value)
  }

  lemma ShownShows(events: seq<Event>, parse: string -> Option<Data>)
    ensures Shows(Shown(events, parse).(streaming := false), events, parse)
  {
    TextIsTheLastSummaryAndItsTokens(events, parse);
    ArticlesAreTheLastOnes(events, parse);
    hide Shown, TokenText, IsSummary, LastSummary, LastArticles, ArticlesOf;
  }

  /** The read loop. It shows what the handled events say, and stops the streaming mark at the end of the stream. */
  method ReadStream(chunks: seq<string>, parse: string -> Option<Data>) returns (view: View)
    ensures view == Shown(Incremental(chunks).events, parse).(streaming := false)
    ensures Shows(view, Incremental(chunks).events, parse)
    ensures NeverTears(chunks) ==> view == Shown(OneShot(Joined(chunks)).events, parse).(streaming := false)
  {
    hide Shows;
    var buffer, fullText, streamArticles, streaming := "", "", [], true;
    ghost var handled: seq<Event> := [];
    for i := 0 to |chunks|
      invariant Incremental(chunks[..i]) == Reader(buffer, handled)
      invariant Shown(handled, parse) == View(fullText, streamArticles, streaming)
    {
      assert chunks[..i + 1][..i] == chunks[..i];
      var lines := Split(buffer + chunks[i], '\n');
      ghost var before := handled;
      buffer := lines[|lines| - 1];
      lines := lines[..|lines| - 1];
      var eventType := "";
      for j := 0 to |lines|
        invariant HandleLines(Scan("", before), lines[..j]) == Scan(eventType, handled)
        invariant Shown(handled, parse) == View(fullText, streamArticles, streaming)
      {
        var line := lines[j];
        assert lines[..j + 1][..j] == lines[..j];
        if EVENT <= line {
          eventType := Trim(line[7..]);
        } else if DATA <= line {
          var dataStr := line[6..];
          ghost var e := Event(eventType, dataStr);
          assert (handled + [e])[..|handled|] == handled;
          var parsed := parse(dataStr);
          if parsed.Some? {
            var data := parsed.value;
            if eventType == "articles" && data.articles.Some? {
              streamArticles := data.articles.value;
            } else if eventType == "token" && data.text != "" {
              fullText := fullText + data.text;
            } else if eventType == "done" {
              if data.summary != "" { fullText := data.summary; }
              if data.relevant.Some? { streamArticles := data.relevant.value; }
              streaming := false;
            }
          }
          handled := handled + [e];
          eventType := "";
        }
      }
      assert lines[..|lines|] == lines;
    }
    assert chunks[..|chunks|] == chunks;
    view := View(fullText, streamArticles, false);
    EventsSurviveExactlyWithoutTears(chunks);
    ShownShows(Incremental(chunks).events, parse);
  }
}
