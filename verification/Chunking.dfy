/** Cutting a text into chunks of words for the language model. Lengths are in characters. */
module Chunking {
  import opened JsText

  // ---- Words ----------------------------------------------------------------------------------

  /** `s.split(/\s+/)`: white space at either end leaves an empty word there. */
  function Words(s: string): (words: seq<string>)
    ensures words != []
    decreases |s|
  {
    if s == "" then [""]
    else if IsSpace(s[0]) then [""] + Words(TrimStart(s))
    else
      var rest := Words(s[1..]);
      [[s[0]] + rest[0]] + rest[1..]
  }

  function Join(words: seq<string>): string {
    if words == [] then "" else if |words| == 1 then words[0] else words[0] + " " + Join(words[1..])
  }

  ghost predicate SpaceFree(s: string) {
    forall i :: 0 <= i < |s| ==> !IsSpace(s[i])
  }

  /** No word contains white space, and only the first and the last may be empty. */
  ghost predicate Clean(words: seq<string>) {
    && (forall i :: 0 <= i < |words| ==> SpaceFree(words[i]))
    && (forall i :: 0 < i < |words| - 1 ==> words[i] != "")
  }

  lemma {:induction false} WordsAreClean(s: string)
    ensures Clean(Words(s))
    ensures s != "" && !IsSpace(s[0]) ==> Words(s)[0] != ""
    ensures |Words(s)| > 1 && Words(s)[0] == "" ==> IsSpace(s[0])
    decreases |s|
  {
    if s != "" && IsSpace(s[0]) {
      var t := TrimStart(s);
      WordsAreClean(t);
      if t == "" { assert Words(s) == ["", ""]; }
    } else if s != "" {
      WordsAreClean(s[1..]);
    }
  }

  lemma {:induction false} WordThenRest(word: string, rest: string)
    requires SpaceFree(word) && (rest != "" ==> !IsSpace(rest[0]))
    ensures Words(word + " " + rest) == [word] + Words(rest)
  {
    var s := word + " " + rest;
    if word == "" {
      assert s[1..] == rest && TrimStart(s) == TrimStart(rest) == rest;
    } else {
      WordThenRest(word[1..], rest);
      assert s[1..] == word[1..] + " " + rest;
      assert [word[0]] + word[1..] == word;
    }
  }

  lemma {:induction false} OneWord(word: string)
    requires SpaceFree(word)
    ensures Words(word) == [word]
  {
    if word != "" {
      OneWord(word[1..]);
      assert [word[0]] + word[1..] == word;
    }
  }

  /** Splitting what was joined gives the words back. */
  lemma {:induction false} SplitUndoesJoin(words: seq<string>)
    requires words != [] && Clean(words)
    ensures Words(Join(words)) == words
  {
    if |words| == 1 {
      OneWord(words[0]);
    } else {
      var rest := words[1..];
      SplitUndoesJoin(rest);
      if |rest| > 1 { assert rest[0] == words[1] != ""; }
      WordThenRest(words[0], Join(rest));
    }
  }

  function Size(words: seq<string>): nat {
    if words == [] then 0 else if |words| == 1 then |words[0]| else |words[0]| + 1 + Size(words[1..])
  }

  lemma {:induction false} SizeIsLength(words: seq<string>)
    ensures |Join(words)| == Size(words)
  {
    if |words| > 1 { SizeIsLength(words[1..]); }
  }

  lemma {:induction false} SizeOfSum(a: seq<string>, b: seq<string>)
    ensures Size(a + b) == Size(a) + Size(b) + (if a != [] && b != [] then 1 else 0)
  {
    if a == [] {
      assert a + b == b;
    } else if |a| == 1 {
      assert (a + b)[1..] == b;
    } else {
      SizeOfSum(a[1..], b);
      assert (a + b)[1..] == a[1..] + b;
    }
  }

  lemma {:induction false} WordsFit(s: string)
    ensures Size(Words(s)) <= |s|
    decreases |s|
  {
    if s != "" && IsSpace(s[0]) {
      WordsFit(TrimStart(s));
      assert ([""] + Words(TrimStart(s)))[1..] == Words(TrimStart(s));
    } else if s != "" {
      WordsFit(s[1..]);
      var rest := Words(s[1..]);
      assert ([[s[0]] + rest[0]] + rest[1..])[1..] == rest[1..];
    }
  }

  // ---- Grouping words -------------------------------------------------------------------------

  /** The groups so far, the last of them open, and the length the code keeps for the open one. */
  datatype Grouping = Grouping(groups: seq<seq<string>>, length: int)

  function Put(g: Grouping, word: string, max: nat): Grouping
    requires g.groups != []
  {
    var n := |g.groups| - 1;
    if g.length + |word| > max then Grouping(g.groups + [[word]], |word|)
    else Grouping(g.groups[n := g.groups[n] + [word]], g.length + |word| + 1)
  }

  function Group(words: seq<string>, max: nat): (g: Grouping)
    ensures g.groups != []
  {
    if words == [] then Grouping([[]], 0) else Put(Group(words[..|words| - 1], max), words[|words| - 1], max)
  }

  function Flatten(groups: seq<seq<string>>): seq<string> {
    if groups == [] then [] else Flatten(groups[..|groups| - 1]) + groups[|groups| - 1]
  }

  /**
   * The first group fits; a later one of several words exceeds the maximum by at most one, because its length is
   * started without a separator; any two neighbours together reach the maximum.
   */
  ghost predicate Bounded(groups: seq<seq<string>>, max: nat) {
    && (groups != [] ==> Size(groups[0]) <= max)
    && (forall i :: 1 <= i < |groups| ==> groups[i] != [] && (|groups[i]| == 1 || Size(groups[i]) <= max + 1))
    && (forall i :: 0 <= i < |groups| - 1 ==> Size(groups[i]) + Size(groups[i + 1]) >= max)
  }

  /** What the kept length means. */
  ghost predicate Counted(g: Grouping) {
    var n := |g.groups| - 1;
    n >= 0 && g.length == Size(g.groups[n]) + (if n == 0 && g.groups[0] != [] then 1 else 0)
  }

  lemma PutKeepsBounds(g: Grouping, word: string, max: nat)
    requires Counted(g) && Bounded(g.groups, max)
    ensures Counted(Put(g, word, max)) && Bounded(Put(g, word, max).groups, max)
  {
    var n := |g.groups| - 1;
    SizeOfSum(g.groups[n], [word]);
  }

  lemma PutKeepsWords(g: Grouping, word: string, max: nat)
    requires g.groups != []
    ensures Flatten(Put(g, word, max).groups) == Flatten(g.groups) + [word]
  {
  }

  lemma OneGroup(group: seq<string>)
    ensures Flatten([group]) == group
  {
  }

  /** Grouping loses, reorders and duplicates no word. */
  lemma {:induction false} GroupsKeepTheWords(words: seq<string>, max: nat)
    ensures Flatten(Group(words, max).groups) == words
  {
    if words == [] {
      OneGroup([]);
      hide Flatten;
    } else {
      var init, last := words[..|words| - 1], words[|words| - 1];
      assert Group(words, max) == Put(Group(init, max), last, max);
      hide *;
      GroupsKeepTheWords(init, max);
      PutKeepsWords(Group(init, max), last, max);
      assert init + [last] == words;
    }
  }

  lemma {:induction false} GroupsAreBounded(words: seq<string>, max: nat)
    ensures Counted(Group(words, max)) && Bounded(Group(words, max).groups, max)
  {
    if words != [] {
      var n := |words| - 1;
      GroupsAreBounded(words[..n], max);
      PutKeepsBounds(Group(words[..n], max), words[n], max);
      hide Bounded, Counted, Put;
    }
  }

  // ---- The chunks -----------------------------------------------------------------------------

  function Texts(groups: seq<seq<string>>): (texts: seq<string>)
    ensures |texts| == |groups| && forall i :: 0 <= i < |groups| ==> texts[i] == Join(groups[i])
  {
    if groups == [] then [] else Texts(groups[..|groups| - 1]) + [Join(groups[|groups| - 1])]
  }

  lemma GroupOneMore(words: seq<string>, i: nat, max: nat)
    requires i < |words|
    ensures Group(words[..i + 1], max) == Put(Group(words[..i], max), words[i], max)
  {
    assert words[..i + 1][..i] == words[..i];
  }

  lemma TextsOneMore(groups: seq<seq<string>>, group: seq<string>)
    ensures Texts(groups + [group]) == Texts(groups) + [Join(group)]
  {
    assert (groups + [group])[..|groups|] == groups;
  }

  /** The groups closed so far, the open one, and the length kept for it. */
  ghost predicate Progress(
      words: seq<string>, i: nat, max: nat, done: seq<seq<string>>, current: seq<string>, length: nat)
    requires i <= |words|
  {
    Group(words[..i], max) == Grouping(done + [current], length)
  }

  lemma ProgressOneMore(
      words: seq<string>, i: nat, max: nat, done: seq<seq<string>>, current: seq<string>, length: nat)
    requires i < |words| && Progress(words, i, max, done, current, length)
    ensures if length + |words[i]| > max then Progress(words, i + 1, max, done + [current], [words[i]], |words[i]|)
      else Progress(words, i + 1, max, done, current + [words[i]], length + |words[i]| + 1)
  {
    GroupOneMore(words, i, max);
    var open := done + [current];
    assert open[|done| := current + [words[i]]] == done + [current + [words[i]]];
    assert open + [[words[i]]] == (done + [current]) + [[words[i]]];
    hide Group;
  }

  lemma ProgressAtTheEnd(words: seq<string>, max: nat, done: seq<seq<string>>, current: seq<string>, length: nat)
    requires Progress(words, |words|, max, done, current, length)
    ensures Group(words, max).groups == done + [current]
  {
    assert words[..|words|] == words;
  }

  /** `chunkText`. */
  method ChunkText(text: string, max: nat) returns (chunks: seq<string>)
    ensures chunks == Texts(Group(Words(text), max).groups)
  {
    var words := Words(text);
    chunks := [];
    ghost var done: seq<seq<string>> := [];
    var current: seq<string>, currentLength: nat := [], 0;
    assert Progress(words, 0, max, done, current, currentLength) && chunks == Texts(done);
    hide Progress, Words, Texts, Group, Join;
    for i := 0 to |words|
      invariant Progress(words, i, max, done, current, currentLength)
      invariant chunks == Texts(done) && (i > 0 ==> |current| > 0)
    {
      ProgressOneMore(words, i, max, done, current, currentLength);
      var word := words[i];
      if currentLength + |word| > max {
        TextsOneMore(done, current);
        chunks := chunks + [Join(current)];
        done := done + [current];
        current := [word];
        currentLength := |word|;
      } else {
        current := current + [word];
        currentLength := currentLength + |word| + 1;
      }
    }
    ProgressAtTheEnd(words, max, done, current, currentLength);
    if |current| > 0 {
      TextsOneMore(done, current);
      chunks := chunks + [Join(current)];
    }
  }

  /** The bounds of the chunks themselves. Every later chunk with a space in it is one of several words. */
  lemma ChunksAreBounded(text: string, max: nat)
    ensures var groups := Group(Words(text), max).groups;
      var chunks := Texts(groups);
      && Flatten(groups) == Words(text)
      && |chunks[0]| <= max
      && (forall i :: 1 <= i < |chunks| ==> |chunks[i]| <= max + 1 || groups[i] == [chunks[i]])
      && (forall i :: 0 <= i < |chunks| - 1 ==> |chunks[i]| + |chunks[i + 1]| >= max)
  {
    var groups := Group(Words(text), max).groups;
    GroupsKeepTheWords(Words(text), max);
    GroupsAreBounded(Words(text), max);
    hide Words, Group, Flatten, Texts;
    forall i | 0 <= i < |groups| ensures |Texts(groups)[i]| == Size(groups[i]) { SizeIsLength(groups[i]); }
    forall i | 1 <= i < |groups| && |groups[i]| == 1 ensures groups[i] == [Texts(groups)[i]] {
      assert Join(groups[i]) == groups[i][0];
    }
  }

  /** Splitting a chunk gives back the words of its group, so nothing is lost in the texts either. */
  lemma {:induction false} ChunksSplitIntoTheirWords(text: string, max: nat, i: nat)
    requires i < |Group(Words(text), max).groups| && Group(Words(text), max).groups[i] != []
    ensures Words(Texts(Group(Words(text), max).groups)[i]) == Group(Words(text), max).groups[i]
  {
    var groups := Group(Words(text), max).groups;
    WordsAreClean(text);
    GroupsKeepTheWords(Words(text), max);
    GroupsAreClean(groups, i);
    SplitUndoesJoin(groups[i]);
  }

  lemma {:induction false} GroupsAreClean(groups: seq<seq<string>>, i: nat)
    requires i < |groups| && Clean(Flatten(groups))
    ensures Clean(groups[i])
    decreases |groups|
  {
    var n := |groups| - 1;
    var init, last, all := groups[..n], groups[n], Flatten(groups);
    if i == n {
      forall j | 0 <= j < |last| ensures last[j] == all[|all| - |last| + j] {}
    } else {
      assert forall j :: 0 <= j < |Flatten(init)| ==> Flatten(init)[j] == all[j];
      GroupsAreClean(init, i);
    }
  }

  /** Only the first group can be empty, exactly when the first word alone is too long; its chunk is then ''. */
  lemma {:induction false} FirstChunkIsEmptyExactlyForALongFirstWord(words: seq<string>, max: nat)
    requires words != []
    ensures Group(words, max).groups[0] == [] <==> |words[0]| > max
  {
    var n := |words| - 1;
    if n == 0 {
      assert words[..0] == [];
    } else {
      FirstChunkIsEmptyExactlyForALongFirstWord(words[..n], max);
    }
  }

  function Fill(count: nat, max: nat): nat {
    if count < 2 then 0 else Fill(count - 2, max) + max
  }

  lemma {:induction false} FillIsHalfTheCount(count: nat, max: nat)
    ensures Fill(count, max) == count / 2 * max
  {
    if count >= 2 {
      FillIsHalfTheCount(count - 2, max);
      var half := (count - 2) / 2;
      assert (half + 1) * max == half * max + max;
    }
  }

  lemma FlattenLastTwo(groups: seq<seq<string>>)
    requires |groups| >= 2
    ensures var n := |groups|;
      Size(Flatten(groups)) >= Size(Flatten(groups[..n - 2])) + Size(groups[n - 2]) + Size(groups[n - 1])
  {
    var n := |groups|;
    SizeOfSum(Flatten(groups[..n - 2]), groups[n - 2]);
    SizeOfSum(Flatten(groups[..n - 1]), groups[n - 1]);
    assert groups[..n - 1][..n - 2] == groups[..n - 2];
  }

  lemma {:induction false} NeighboursFill(groups: seq<seq<string>>, max: nat)
    requires forall i :: 0 <= i < |groups| - 1 ==> Size(groups[i]) + Size(groups[i + 1]) >= max
    ensures Size(Flatten(groups)) >= Fill(|groups|, max)
    decreases |groups|
  {
    if |groups| >= 2 {
      var init := groups[..|groups| - 2];
      FlattenLastTwo(groups);
      forall i | 0 <= i < |init| - 1 ensures Size(init[i]) + Size(init[i + 1]) >= max {
        assert init[i] == groups[i] && init[i + 1] == groups[i + 1];
      }
      NeighboursFill(init, max);
    }
  }

  /** The number of chunks is at most twice the length over the maximum, plus one. */
  lemma ChunkCountIsBounded(text: string, max: nat)
    requires max > 0
    ensures |Texts(Group(Words(text), max).groups)| <= 2 * (|text| / max) + 1
  {
    var groups := Group(Words(text), max).groups;
    GroupsKeepTheWords(Words(text), max);
    GroupsAreBounded(Words(text), max);
    NeighboursFill(groups, max);
    FillIsHalfTheCount(|groups|, max);
    WordsFit(text);
    HalfIsBounded(|groups| / 2, max, |text|);
  }

  lemma HalfIsBounded(half: nat, max: nat, length: nat)
    requires max > 0 && half * max <= length
    ensures half <= length / max
  {
    var q := length / max;
    assert length < (q + 1) * max;
    assert half >= q + 1 ==> half * max >= (q + 1) * max;
  }

  /**
   * The k-th word just fits into an open group that is not the first: the length kept for such a group counts every
   * separator but the next one, so the group then exceeds the maximum by one.
   */
  ghost predicate JustFits(words: seq<string>, max: nat, k: nat)
    requires k < |words|
  {
    var g := Group(words[..k], max);
    |g.groups| > 1 && g.length + |words[k]| == max
  }

  ghost predicate AllFit(groups: seq<seq<string>>, max: nat) {
    forall i :: 0 <= i < |groups| ==> Size(groups[i]) <= max
  }

  lemma PutFitsExactly(g: Grouping, word: string, max: nat)
    requires Counted(g) && Bounded(g.groups, max)
    ensures AllFit(Put(g, word, max).groups, max) <==>
      AllFit(g.groups, max) && |word| <= max && !(|g.groups| > 1 && g.length + |word| == max)
  {
    var n := |g.groups| - 1;
    var e := Put(g, word, max).groups;
    SizeOfSum(g.groups[n], [word]);
    if g.length + |word| > max {
      assert e[|e| - 1] == [word] && forall i :: 0 <= i <= n ==> e[i] == g.groups[i];
    } else {
      assert e[n] == g.groups[n] + [word] && forall i :: 0 <= i < n ==> e[i] == g.groups[i];
      assert Size(g.groups[n]) <= Size(e[n]);
    }
  }

  /** Every word is within the maximum, and none just fits into a later group. */
  ghost predicate WordsFitIn(words: seq<string>, max: nat) {
    forall k :: 0 <= k < |words| ==> |words[k]| <= max && !JustFits(words, max, k)
  }

  lemma WordsFitOneMore(words: seq<string>, max: nat)
    requires words != []
    ensures var n := |words| - 1;
      WordsFitIn(words, max) <==> WordsFitIn(words[..n], max) && |words[n]| <= max && !JustFits(words, max, n)
  {
    var n := |words| - 1;
    var init := words[..n];
    forall k | 0 <= k < n ensures init[k] == words[k] && (JustFits(init, max, k) <==> JustFits(words, max, k)) {
      assert init[..k] == words[..k];
    }
    hide JustFits;
  }

  lemma {:induction false} GroupsFitExactly(words: seq<string>, max: nat)
    ensures AllFit(Group(words, max).groups, max) <==> WordsFitIn(words, max)
  {
    if words != [] {
      var n := |words| - 1;
      var before := Group(words[..n], max);
      assert Group(words, max) == Put(before, words[n], max);
      assert JustFits(words, max, n) <==> |before.groups| > 1 && before.length + |words[n]| == max;
      hide *;
      GroupsFitExactly(words[..n], max);
      GroupsAreBounded(words[..n], max);
      PutFitsExactly(before, words[n], max);
      WordsFitOneMore(words, max);
    }
  }

  ghost predicate AllWithin(chunks: seq<string>, max: nat) {
    forall i :: 0 <= i < |chunks| ==> |chunks[i]| <= max
  }

  lemma TextsFitExactly(groups: seq<seq<string>>, max: nat)
    ensures AllWithin(Texts(groups), max) <==> AllFit(groups, max)
  {
    var chunks := Texts(groups);
    forall i | 0 <= i < |groups| ensures |chunks[i]| == Size(groups[i]) { SizeIsLength(groups[i]); }
    hide Texts, Join, Size;
    if AllWithin(chunks, max) {
      forall i | 0 <= i < |groups| ensures Size(groups[i]) <= max { assert |chunks[i]| <= max; }
    }
  }

  /** Every chunk is within the maximum exactly if every word is and none just fits into a later group. */
  lemma ChunksFitExactly(text: string, max: nat)
    ensures AllWithin(Texts(Group(Words(text), max).groups), max) <==> WordsFitIn(Words(text), max)
  {
    hide *;
    GroupsFitExactly(Words(text), max);
    TextsFitExactly(Group(Words(text), max).groups, max);
  }

  /** The bound of one more than the maximum is met, for every maximum of at least two. */
  lemma BoundIsTight(max: nat, a: string, b: string, c: string)
    requires max >= 2 && |a| == max && |b| == 1 && |c| == max - 1
    ensures Texts(Group([a, b, c], max).groups) == [a, b + " " + c] && |b + " " + c| == max + 1
  {
    var w0, w1, w2, w3 := [a, b, c][..0], [a, b, c][..1], [a, b, c][..2], [a, b, c];
    assert w0 == [] && w1 == [a] && w2 == [a, b];
    assert w1[..0] == w0 && w2[..1] == w1 && w3[..2] == w2;
    assert [] + [a] == [a] && [b] + [c] == [b, c];
    assert Group(w1, max) == Grouping([[a]], max + 1);
    assert Group(w2, max) == Grouping([[a], [b]], 1);
    assert Group(w3, max) == Grouping([[a], [b, c]], max + 1);
    var groups := [[a], [b, c]];
    assert groups[..1] == [[a]] && groups[..1][..0] == [];
    assert [b, c][1..] == [c] && Join([b, c]) == b + " " + c;
    assert Texts([[a]]) == [a];
  }
}