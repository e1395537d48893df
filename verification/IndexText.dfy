/** Text as the full-text index sees it: inline media is recognised, replaced by a marker, or stripped. */
module IndexText {
  import opened Prelude
  import opened Text

  const MARKER := "[inline media omitted from search index]"
  const OMISSION := "inline media omitted from persisted history"
  const STRIPPED := ['['] + OMISSION + [']']

  predicate IsMedia(s: string) {
    Contains(s, ";base64,") || Contains(s, "data:image/") || Contains(s, "data:audio/")
  }

  /** The CASE expression of the triggers and of the backfill. */
  function TriggerText(content: Option<string>): string {
    if IsMedia(content.GetOr("")) then MARKER else content.GetOr("")
  }

  // ---- data:[^;,\s"']+;base64,[A-Za-z0-9+/=]+ ---------------------------------------------------

  predicate StartsIgnoringCase(s: string, p: string) {
    |p| <= |s| && forall i :: 0 <= i < |p| ==> LowerChar(s[i]) == p[i]
  }

  predicate MimeChar(c: char) {
    !(c == ';' || c == ',' || c == '"' || c == '\'' || c == ' ' || '\t' <= c <= '\r')
  }

  predicate Base64Char(c: char) {
    'a' <= LowerChar(c) <= 'z' || '0' <= c <= '9' || c == '+' || c == '/' || c == '='
  }

  function Span(s: string, p: char -> bool): (n: nat)
    ensures n <= |s|
  {
    if s != "" && p(s[0]) then 1 + Span(s[1..], p) else 0
  }

  /** Length of the match at the start of `s`, 0 if there is none. The two runs cannot be matched otherwise. */
  function MatchLength(s: string): (n: nat)
    ensures n <= |s| && (n > 0 ==> LowerChar(s[0]) == 'd')
  {
    if !StartsIgnoringCase(s, "data:") then 0
    else
      var mime := Span(s[5..], MimeChar);
      if mime == 0 || !StartsIgnoringCase(s[5 + mime..], ";base64,") then 0
      else
        var body := Span(s[13 + mime..], Base64Char);
        if body == 0 then 0 else 13 + mime + body
  }

  function Substituted(s: string): string {
    if s == "" then ""
    else if MatchLength(s) > 0 then STRIPPED + Substituted(s[MatchLength(s)..])
    else [s[0]] + Substituted(s[1..])
  }

  function StripDataUrls(s: string): string {
    if Contains(s, ";base64,") then Substituted(s) else s
  }

  // ---- Content blocks -------------------------------------------------------------------------

  /**
   * A content block: a bare string, a text block, a reference whose line is already composed, a media payload,
   * another object as JSON, or something that is neither string nor object.
   */
  datatype Block =
    | Bare(text: string)
    | TextBlock(text: string)
    | Reference(line: string)
    | Media
    | Other(json: string)
    | Ignored

  /** A block's line in the index text; empty ones are dropped. */
  function LineOf(b: Block): string {
    match b
    case Bare(text) => StripDataUrls(text)
    case TextBlock(text) => StripDataUrls(text)
    case Reference(line) => line
    case Other(json) => StripDataUrls(json)
    case _ => ""
  }

  function MediaCount(blocks: seq<Block>): nat {
    if blocks == [] then 0 else MediaCount(blocks[..|blocks| - 1]) + if blocks[|blocks| - 1].Media? then 1 else 0
  }

  function Lines(blocks: seq<Block>): seq<string> {
    if blocks == [] then []
    else
      var line := LineOf(blocks[|blocks| - 1]);
      Lines(blocks[..|blocks| - 1]) + if line == "" then [] else [line]
  }

  function Joined(lines: seq<string>): string {
    if lines == [] then ""
    else if |lines| == 1 then lines[0]
    else Joined(lines[..|lines| - 1]) + ['\n'] + lines[|lines| - 1]
  }

  function Omitted(count: nat): string {
    "[" + Decimal(count) + " inline media payload" + (if count == 1 then "" else "s") + " omitted]"
  }

  /** `_text_from_blocks`. */
  function TextFromBlocks(blocks: seq<Block>): string {
    var count := MediaCount(blocks);
    Strip(Joined(Lines(blocks) + if count > 0 then [Omitted(count)] else []))
  }

  /** Reading JSON: the blocks if the text is a list, None if it is something else or not JSON. */
  type ReadList = string -> Option<seq<Block>>

  function AsBlocks(s: string, read: ReadList): Option<seq<Block>> {
    if "[" <= Strip(s) && Contains(Strip(s), "\"type\"") then read(s) else None
  }

  /** `search_index_text` of a stored text. */
  function SearchIndexText(s: string, read: ReadList): string {
    match AsBlocks(s, read)
    case Some(blocks) => TextFromBlocks(blocks)
    case None => StripDataUrls(s)
  }

  predicate HasDataUrl(s: string) {
    s != "" && (MatchLength(s) > 0 || HasDataUrl(s[1..]))
  }

  lemma {:induction false} SubstitutionIsIdentityExactlyWithoutUrls(s: string)
    ensures Substituted(s) == s <==> !HasDataUrl(s)
  {
    assert STRIPPED != "" && STRIPPED[0] == '[';
    hide MatchLength;
    if s != "" {
      if MatchLength(s) > 0 {
        assert Substituted(s)[0] == STRIPPED[0];
      } else {
        SubstitutionIsIdentityExactlyWithoutUrls(s[1..]);
        assert s == [s[0]] + s[1..];
        assert Substituted(s)[1..] == Substituted(s[1..]);
      }
    }
  }

  /** Stripping leaves a text as it is exactly if there is no complete base64 data URL to take out. */
  lemma StripIsIdentityExactlyWithoutUrls(s: string)
    ensures StripDataUrls(s) == s <==> !(Contains(s, ";base64,") && HasDataUrl(s))
  {
    SubstitutionIsIdentityExactlyWithoutUrls(s);
  }

  lemma NeedsItsPunctuation(s: string)
    requires ';' !in s && ':' !in s
    ensures !IsMedia(s)
  {
    if Contains(s, ";base64,") { ContainsChars(s, ";base64,", ';'); }
    if Contains(s, "data:image/") { ContainsChars(s, "data:image/", ':'); }
    if Contains(s, "data:audio/") { ContainsChars(s, "data:audio/", ':'); }
  }

  /** The marker is not media itself, so what the triggers store for media is never the raw content. */
  lemma MarkerIsNotMedia()
    ensures !IsMedia(MARKER)
  {
    hide IsMedia;
    NeedsItsPunctuation(MARKER);
  }

  // ---- What the rewriting leaves --------------------------------------------------------------

  /** The stretches of a text between its complete base64 data URLs. */
  function Gaps(s: string): (gaps: seq<string>)
    ensures gaps != []
  {
    if s == "" then [""]
    else if MatchLength(s) > 0 then [""] + Gaps(s[MatchLength(s)..])
    else
      var rest := Gaps(s[1..]);
      [[s[0]] + rest[0]] + rest[1..]
  }

  /** What stripping leaves; without a lower-case `;base64,` it does not look for URLs at all. */
  function Remains(s: string): seq<string> {
    if Contains(s, ";base64,") then Gaps(s) else [s]
  }

  /** The texts that betray inline media: none of them has a bracket, a blank or a line end in it. */
  predicate Telltale(p: string) {
    p == ";base64," || p == "data:image/" || p == "data:audio/"
  }

  lemma TelltalesAreClean(p: string)
    requires Telltale(p)
    ensures p != "" && '[' !in p && ']' !in p && '\n' !in p && (p[0] == ';' || p[4] == ':')
    ensures forall i :: 0 <= i < |p| ==> !IsBlank(p[i])
  {
  }

  lemma NeedsPunctuation(s: string, p: string)
    requires Telltale(p) && ';' !in s && ':' !in s
    ensures !Contains(s, p)
  {
    TelltalesAreClean(p);
    if Contains(s, p) { ContainsChars(s, p, if p[0] == ';' then ';' else ':'); }
  }

  lemma MediaMeansATelltale(s: string)
    ensures IsMedia(s) <==> exists p :: Telltale(p) && Contains(s, p)
  {
    assert Telltale(";base64,") && Telltale("data:image/") && Telltale("data:audio/");
  }

  /** The gaps with a marker between them. */
  function Glued(gaps: seq<string>, marker: string): string
    requires gaps != []
  {
    if |gaps| == 1 then gaps[0] else gaps[0] + (marker + Glued(gaps[1..], marker))
  }

  lemma {:induction false} SubstitutionGluesTheGaps(s: string)
    ensures Substituted(s) == Glued(Gaps(s), STRIPPED)
  {
    hide MatchLength;
    if s != "" {
      if MatchLength(s) > 0 {
        var rest := Gaps(s[MatchLength(s)..]);
        SubstitutionGluesTheGaps(s[MatchLength(s)..]);
        GluedAfterEmpty(rest, STRIPPED);
      } else {
        var rest := Gaps(s[1..]);
        SubstitutionGluesTheGaps(s[1..]);
        GluedWithOneMore(s[0], rest, STRIPPED);
      }
    }
  }

  lemma GluedAfterEmpty(gaps: seq<string>, marker: string)
    requires gaps != []
    ensures Glued([""] + gaps, marker) == marker + Glued(gaps, marker)
  {
    assert ([""] + gaps)[1..] == gaps;
  }

  lemma GluedWithOneMore(c: char, gaps: seq<string>, marker: string)
    requires gaps != []
    ensures Glued([[c] + gaps[0]] + gaps[1..], marker) == [c] + Glued(gaps, marker)
  {
    var more := [[c] + gaps[0]] + gaps[1..];
    assert more[1..] == gaps[1..];
    if |gaps| > 1 {
      var tail := marker + Glued(gaps[1..], marker);
      assert ([c] + gaps[0]) + tail == [c] + (gaps[0] + tail);
    }
  }

  lemma BracketsSeparate(a: string, inner: string, b: string, p: string)
    requires Telltale(p) && ';' !in inner && ':' !in inner
    ensures Contains(a + (['['] + inner + [']'] + b), p) <==> Contains(a, p) || Contains(b, p)
  {
    TelltalesAreClean(p);
    NeedsPunctuation(inner, p);
    ContainsAcross(a, '[', inner + [']'] + b, p);
    ContainsAcross(inner, ']', b, p);
    hide Contains, Telltale;
    assert a + ['['] + (inner + [']'] + b) == a + (['['] + inner + [']'] + b);
  }

  ghost predicate SomeContains(texts: seq<string>, p: string) {
    exists i :: 0 <= i < |texts| && Contains(texts[i], p)
  }

  lemma SomeContainsFirst(texts: seq<string>, p: string)
    requires texts != []
    ensures SomeContains(texts, p) <==> Contains(texts[0], p) || SomeContains(texts[1..], p)
  {
    if i :| 0 <= i < |texts[1..]| && Contains(texts[1..][i], p) { assert Contains(texts[i + 1], p); }
    if i :| 0 < i < |texts| && Contains(texts[i], p) { assert Contains(texts[1..][i - 1], p); }
  }

  lemma {:induction false} GluedContainsExactly(gaps: seq<string>, inner: string, p: string)
    requires gaps != [] && Telltale(p) && ';' !in inner && ':' !in inner
    ensures Contains(Glued(gaps, ['['] + inner + [']']), p) <==> SomeContains(gaps, p)
  {
    SomeContainsFirst(gaps, p);
    if |gaps| > 1 {
      GluedContainsExactly(gaps[1..], inner, p);
      BracketsSeparate(gaps[0], inner, Glued(gaps[1..], ['['] + inner + [']']), p);
    }
    hide Contains;
  }

  ghost predicate SomeMedia(texts: seq<string>) {
    exists i :: 0 <= i < |texts| && IsMedia(texts[i])
  }

  lemma SomeMediaMeansATelltale(texts: seq<string>)
    ensures SomeMedia(texts) <==> exists p :: Telltale(p) && SomeContains(texts, p)
  {
    forall i | 0 <= i < |texts| ensures IsMedia(texts[i]) <==> exists p :: Telltale(p) && Contains(texts[i], p) {
      MediaMeansATelltale(texts[i]);
    }
    hide IsMedia, Telltale, Contains;
    if i :| 0 <= i < |texts| && IsMedia(texts[i]) {
      var p :| Telltale(p) && Contains(texts[i], p);
      assert SomeContains(texts, p);
    }
  }

  lemma GluedIsMediaExactly(gaps: seq<string>, inner: string)
    requires gaps != [] && ';' !in inner && ':' !in inner
    ensures IsMedia(Glued(gaps, ['['] + inner + [']'])) <==> SomeMedia(gaps)
  {
    SomeMediaMeansATelltale(gaps);
    MediaMeansATelltale(Glued(gaps, ['['] + inner + [']']));
    forall p | Telltale(p) ensures Contains(Glued(gaps, ['['] + inner + [']']), p) <==> SomeContains(gaps, p) {
      GluedContainsExactly(gaps, inner, p);
    }
    hide *;
  }

  lemma OneMedia(s: string)
    ensures SomeMedia([s]) <==> IsMedia(s)
  {
    hide IsMedia;
    assert [s][0] == s;
  }

  lemma OmissionIsPlain()
    ensures ';' !in OMISSION && ':' !in OMISSION
  {
  }

  /** A text still betrays inline media after stripping, exactly if something outside its data URLs does. */
  lemma StripLeavesMediaExactly(s: string)
    ensures IsMedia(StripDataUrls(s)) <==> SomeMedia(Remains(s))
  {
    hide IsMedia, SomeMedia, Substituted, Gaps, Glued, Contains;
    OneMedia(s);
    OmissionIsPlain();
    SubstitutionGluesTheGaps(s);
    GluedIsMediaExactly(Gaps(s), OMISSION);
  }

  /** A block puts media into the index: by a reference line, which is not stripped, or by what stripping leaves. */
  ghost predicate LeavesMedia(b: Block) {
    match b
    case Bare(text) => SomeMedia(Remains(text))
    case TextBlock(text) => SomeMedia(Remains(text))
    case Reference(line) => IsMedia(line)
    case Other(json) => SomeMedia(Remains(json))
    case _ => false
  }

  lemma LineLeavesMediaExactly(b: Block)
    ensures IsMedia(LineOf(b)) <==> LeavesMedia(b)
  {
    match b {
      case Bare(text) => StripLeavesMediaExactly(text);
      case TextBlock(text) => StripLeavesMediaExactly(text);
      case Other(json) => StripLeavesMediaExactly(json);
      case _ => NeedsItsPunctuation("");
    }
  }

  ghost predicate SomeLeaves(blocks: seq<Block>) {
    exists i :: 0 <= i < |blocks| && LeavesMedia(blocks[i])
  }

  lemma SomeLeavesOneMore(blocks: seq<Block>)
    requires blocks != []
    ensures var n := |blocks| - 1; SomeLeaves(blocks) <==> SomeLeaves(blocks[..n]) || LeavesMedia(blocks[n])
  {
    hide LeavesMedia;
    var n := |blocks| - 1;
    if i :| 0 <= i < n && LeavesMedia(blocks[i]) { assert LeavesMedia(blocks[..n][i]); }
    if i :| 0 <= i < n && LeavesMedia(blocks[..n][i]) { assert LeavesMedia(blocks[i]); }
  }

  lemma LinesOneMore(blocks: seq<Block>)
    requires blocks != []
    ensures var init, line := Lines(blocks[..|blocks| - 1]), LineOf(blocks[|blocks| - 1]);
      Lines(blocks) == if |line| == 0 then init else init + [line]
  {
  }

  lemma EmptyIsNotMedia(s: string)
    requires |s| == 0
    ensures !IsMedia(s)
  {
    NeedsItsPunctuation(s);
  }

  lemma {:induction false} LinesLeaveMediaExactly(blocks: seq<Block>)
    ensures SomeMedia(Lines(blocks)) <==> SomeLeaves(blocks)
  {
    if |blocks| > 0 {
      hide *;
      var n := |blocks| - 1;
      var line := LineOf(blocks[n]);
      LinesLeaveMediaExactly(blocks[..n]);
      LineLeavesMediaExactly(blocks[n]);
      LinesOneMore(blocks);
      SomeLeavesOneMore(blocks);
      if |line| == 0 { EmptyIsNotMedia(line); } else { SomeMediaOneMore(Lines(blocks[..n]), line); }
    }
  }

  lemma SomeMediaOneMore(texts: seq<string>, text: string)
    ensures SomeMedia(texts + [text]) <==> SomeMedia(texts) || IsMedia(text)
  {
    hide IsMedia;
    var more := texts + [text];
    assert forall i :: 0 <= i < |texts| ==> more[i] == texts[i];
    if i :| 0 <= i < |texts| && IsMedia(texts[i]) { assert IsMedia(more[i]); }
    assert more[|texts|] == text;
  }

  lemma {:induction false} JoinedIsMediaExactly(lines: seq<string>)
    ensures IsMedia(Joined(lines)) <==> SomeMedia(lines)
  {
    if lines == [] {
      NeedsItsPunctuation("");
    } else {
      var n := |lines| - 1;
      JoinedIsMediaExactly(lines[..n]);
      SomeMediaOneMore(lines[..n], lines[n]);
      assert lines[..n] + [lines[n]] == lines;
      if n == 0 {
        assert lines[..0] == [] && !SomeMedia(lines[..0]);
      } else {
        LineEndSeparates(Joined(lines[..n]), lines[n]);
      }
      hide IsMedia, SomeMedia;
    }
  }

  lemma LineEndSeparates(a: string, b: string)
    ensures IsMedia(a + ['\n'] + b) <==> IsMedia(a) || IsMedia(b)
  {
    ContainsAcross(a, '\n', b, ";base64,");
    ContainsAcross(a, '\n', b, "data:image/");
    ContainsAcross(a, '\n', b, "data:audio/");
    hide Contains;
  }

  lemma StrippedIsMediaExactly(s: string)
    ensures IsMedia(Strip(s)) <==> IsMedia(s)
  {
    ContainsInStripped(s, ";base64,");
    ContainsInStripped(s, "data:image/");
    ContainsInStripped(s, "data:audio/");
    hide Contains, Strip;
  }

  lemma OmittedIsNotMedia(count: nat)
    ensures !IsMedia(Omitted(count))
  {
    NumberUndoesDecimal(count);
    var line := Omitted(count);
    assert forall i :: 0 <= i < |Decimal(count)| ==> IsDigit(Decimal(count)[i]);
    assert ';' !in Decimal(count) && ':' !in Decimal(count);
    NeedsItsPunctuation(line);
    hide IsMedia;
  }

  lemma BlocksLeaveMediaExactly(blocks: seq<Block>)
    ensures IsMedia(TextFromBlocks(blocks)) <==> SomeLeaves(blocks)
  {
    var count := MediaCount(blocks);
    var lines := Lines(blocks) + if count > 0 then [Omitted(count)] else [];
    LinesLeaveMediaExactly(blocks);
    JoinedIsMediaExactly(lines);
    StrippedIsMediaExactly(Joined(lines));
    OmittedIsNotMedia(count);
    SomeMediaOneMore(Lines(blocks), Omitted(count));
    assert count == 0 ==> lines == Lines(blocks);
    hide IsMedia, SomeMedia, LeavesMedia, Lines, Joined, Strip, Omitted;
  }

  /**
   * Exactly when the text that re-indexing stores still betrays inline media: for a list of content blocks, if a
   * reference line has it or stripping leaves it in another block; for other texts, if stripping leaves it.
   */
  lemma MediaSurvivesScrubExactlyWhen(s: string, read: ReadList)
    ensures IsMedia(SearchIndexText(s, read)) <==>
      match AsBlocks(s, read)
      case Some(blocks) => SomeLeaves(blocks)
      case None => SomeMedia(Remains(s))
  {
    match AsBlocks(s, read)
    case Some(blocks) => BlocksLeaveMediaExactly(blocks);
    case None => StripLeavesMediaExactly(s);
  }

  // ---- Which texts are read as block lists ----------------------------------------------------

  /** The first character that is not blank is a bracket, and somewhere there is a type. */
  ghost predicate LooksLikeBlocks(s: string) {
    (exists i :: IsFirstNonblank(s, i) && s[i] == '[') && Contains(s, "\"type\"")
  }

  ghost predicate IsFirstNonblank(s: string, i: int) {
    0 <= i < |s| && !IsBlank(s[i]) && forall j :: 0 <= j < i ==> IsBlank(s[j])
  }

  lemma StripStartsAtTheFirstNonblank(s: string)
    ensures |Strip(s)| > 0 && Strip(s)[0] == '[' <==> exists i :: IsFirstNonblank(s, i) && s[i] == '['
  {
    var before, after := StripIsExact(s);
    var t := Strip(s);
    hide Strip, IsBlank;
    if |t| > 0 {
      assert s[|before|] == t[0];
      assert IsFirstNonblank(s, |before|);
      forall i | IsFirstNonblank(s, i) ensures i == |before| {}
    } else {
      assert forall i :: 0 <= i < |s| ==> IsBlank(s[i]);
    }
  }

  /** A text that looks like a block list and is one is read block by block; any other is only stripped. */
  lemma ListsAreReadAsBlocks(s: string, read: ReadList)
    ensures SearchIndexText(s, read) ==
      if LooksLikeBlocks(s) && read(s).Some? then TextFromBlocks(read(s).value) else StripDataUrls(s)
  {
    StripStartsAtTheFirstNonblank(s);
    var p := "\"type\"";
    assert forall i :: 0 <= i < |p| ==> !IsBlank(p[i]);
    ContainsInStripped(s, p);
    assert "[" <= Strip(s) <==> |Strip(s)| > 0 && Strip(s)[0] == '[';
    hide Strip, Contains, TextFromBlocks, StripDataUrls, IsFirstNonblank;
  }

  // ---- How far a data URL reaches, and how block lists read -----------------------------------

  ghost predicate AllOf(s: string, p: char -> bool) {
    forall i :: 0 <= i < |s| ==> p(s[i])
  }

  /** `data:`, some type characters, `;base64,` and some base64 characters, the letters in either case. */
  ghost predicate IsDataUrl(u: string) {
    exists m, b :: IsDataUrlOf(u, m, b)
  }

  ghost predicate IsDataUrlOf(u: string, m: nat, b: nat) {
    && m > 0 && b > 0 && |u| == 13 + m + b
    && StartsIgnoringCase(u, "data:") && AllOf(u[5..5 + m], MimeChar)
    && StartsIgnoringCase(u[5 + m..], ";base64,") && AllOf(u[13 + m..], Base64Char)
  }

  lemma {:induction false} SpanIsLongest(s: string, p: char -> bool)
    ensures AllOf(s[..Span(s, p)], p) && (Span(s, p) < |s| ==> !p(s[Span(s, p)]))
  {
    if s != "" && p(s[0]) {
      SpanIsLongest(s[1..], p);
      var n := Span(s[1..], p);
      assert s[..1 + n] == [s[0]] + s[1..][..n];
    }
  }

  lemma SpanIs(s: string, p: char -> bool, n: nat)
    requires n <= |s| && AllOf(s[..n], p) && (n < |s| ==> !p(s[n]))
    ensures Span(s, p) == n
  {
    SpanIsLongest(s, p);
    var k := Span(s, p);
    assert forall i :: 0 <= i < n ==> p(s[..n][i]) && s[..n][i] == s[i];
    assert forall i :: 0 <= i < k ==> p(s[..k][i]) && s[..k][i] == s[i];
  }

  lemma SpanCovers(s: string, p: char -> bool, n: nat)
    requires n <= |s| && AllOf(s[..n], p)
    ensures n <= Span(s, p)
  {
    SpanIsLongest(s, p);
    assert forall i :: 0 <= i < n ==> p(s[..n][i]) && s[..n][i] == s[i];
  }

  lemma StartsInPrefix(s: string, n: nat, from: nat, p: string)
    requires from <= n <= |s| && |p| <= n - from
    ensures StartsIgnoringCase(s[..n][from..], p) <==> StartsIgnoringCase(s[from..], p)
  {
    assert forall i :: 0 <= i < |p| ==> s[..n][from..][i] == s[from..][i];
  }

  /** A match is a data URL, ends only where the base64 characters do, and there is none only if no prefix is one. */
  lemma MatchIsTheLongestDataUrl(s: string)
    ensures var n := MatchLength(s);
      && (n > 0 ==> IsDataUrl(s[..n]) && (n < |s| ==> !Base64Char(s[n])))
      && forall k :: 0 <= k <= |s| && IsDataUrl(s[..k]) ==> k <= n
  {
    var n := MatchLength(s);
    if n > 0 { MatchIsADataUrl(s); }
    forall k | 0 <= k <= |s| && IsDataUrl(s[..k]) ensures k <= n {
      var m, b :| IsDataUrlOf(s[..k], m, b);
      DataUrlsAreMatched(s, k, m, b);
    }
  }

  lemma MatchIsADataUrl(s: string)
    requires MatchLength(s) > 0
    ensures IsDataUrl(s[..MatchLength(s)]) && (MatchLength(s) < |s| ==> !Base64Char(s[MatchLength(s)]))
  {
    var n := MatchLength(s);
    var m := Span(s[5..], MimeChar);
    var b := Span(s[13 + m..], Base64Char);
    SpanIsLongest(s[5..], MimeChar);
    SpanIsLongest(s[13 + m..], Base64Char);
    assert n == 13 + m + b;
    assert s[..n][5..5 + m] == s[5..][..m] && s[..n][13 + m..] == s[13 + m..][..b];
    assert s[0..] == s && s[..n][0..] == s[..n];
    StartsInPrefix(s, n, 0, "data:");
    StartsInPrefix(s, n, 5 + m, ";base64,");
    assert n < |s| ==> s[13 + m..][b] == s[n];
    hide Span, MatchLength, StartsIgnoringCase, AllOf;
    assert IsDataUrlOf(s[..n], m, b);
  }

  lemma DataUrlsAreMatched(s: string, k: nat, m: nat, b: nat)
    requires k <= |s| && IsDataUrlOf(s[..k], m, b)
    ensures k <= MatchLength(s)
  {
    assert s[0..] == s && s[..k][0..] == s[..k];
    StartsInPrefix(s, k, 0, "data:");
    StartsInPrefix(s, k, 5 + m, ";base64,");
    assert s[..k][5..5 + m] == s[5..][..m] && s[..k][13 + m..] == s[13 + m..][..b];
    assert s[5 + m..][0] == ';' by { assert LowerChar(s[5 + m..][0]) == ";base64,"[0]; }
    assert !MimeChar(s[5..][m]);
    SpanIs(s[5..], MimeChar, m);
    SpanCovers(s[13 + m..], Base64Char, b);
  }

  lemma {:induction false} LinesFromTheFront(b: Block, rest: seq<Block>)
    ensures Lines([b] + rest) == (if LineOf(b) == "" then [] else [LineOf(b)]) + Lines(rest)
  {
    var blocks := [b] + rest;
    LinesOneMore(blocks);
    if |rest| == 0 {
      assert blocks[..0] == [] && blocks == [b];
    } else {
      var n := |rest| - 1;
      assert blocks[..|blocks| - 1] == [b] + rest[..n] && blocks[|blocks| - 1] == rest[n];
      LinesFromTheFront(b, rest[..n]);
      LinesOneMore(rest);
    }
    hide LineOf;
  }

  lemma {:induction false} JoinedFromTheFront(line: string, rest: seq<string>)
    ensures Joined([line] + rest) == if rest == [] then line else line + ['\n'] + Joined(rest)
  {
    var lines := [line] + rest;
    if rest != [] {
      var n := |rest| - 1;
      assert lines[..|lines| - 1] == [line] + rest[..n];
      JoinedFromTheFront(line, rest[..n]);
      if n > 0 {
        var joined, last := Joined(rest[..n]), ['\n'] + rest[n];
        assert joined + ['\n'] + rest[n] == joined + last;
        assert line + ['\n'] + joined + ['\n'] + rest[n] == line + ['\n'] + (joined + last);
      }
    }
  }

  ghost predicate EndsWith(s: string, t: string) {
    |t| <= |s| && s[|s| - |t|..] == t
  }

  lemma {:induction false} StripLeftKeepsTheEnd(a: string, b: string)
    requires b != "" && !IsBlank(b[0])
    ensures EndsWith(StripLeft(a + b), b)
  {
    if a == "" {
      assert a + b == b;
    } else {
      assert (a + b)[1..] == a[1..] + b;
      StripLeftKeepsTheEnd(a[1..], b);
    }
  }

  lemma {:induction false} MediaAreCounted(blocks: seq<Block>)
    ensures MediaCount(blocks) == |set i | 0 <= i < |blocks| && blocks[i].Media?|
  {
    if |blocks| > 0 {
      var n := |blocks| - 1;
      MediaAreCounted(blocks[..n]);
      var before := set i | 0 <= i < n && blocks[..n][i].Media?;
      assert (set i | 0 <= i < |blocks| && blocks[i].Media?) == if blocks[n].Media? then before + {n} else before;
    }
  }

  /** With media among the blocks, the text ends with the line that says how many payloads were left out. */
  lemma OmissionIsTheLastLine(blocks: seq<Block>)
    ensures var count := |set i | 0 <= i < |blocks| && blocks[i].Media?|;
      count > 0 ==> EndsWith(TextFromBlocks(blocks), Omitted(count))
  {
    MediaAreCounted(blocks);
    var count := MediaCount(blocks);
    if count > 0 {
      var lines, line := Lines(blocks), Omitted(count);
      OmittedHasBrackets(count);
      hide Omitted, Lines, MediaCount;
      assert (lines + [line])[..|lines|] == lines;
      var before := if lines == [] then "" else Joined(lines) + ['\n'];
      assert Joined(lines + [line]) == before + line;
      StripLeftKeepsTheEnd(before, line);
    }
  }

  lemma OmittedHasBrackets(count: nat)
    ensures var line := Omitted(count);
      |line| > 0 && !IsBlank(line[0]) && !IsBlank(line[|line| - 1])
  {
    var line := Omitted(count);
    assert line[0] == '[' && line[|line| - 1] == ']' by { assert " omitted]"[8] == ']'; }
  }
}
