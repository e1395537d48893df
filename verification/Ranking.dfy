/** Ranked, deduplicated evidence lists: the loops that stop as soon as enough distinct items are found. */
module Ranking {
  import opened JsText
  import opened Text

  // ---- Filtering and stable sorting -----------------------------------------------------------

  function Filter<T>(s: seq<T>, p: T -> bool): seq<T> {
    if s == [] then [] else if p(s[0]) then [s[0]] + Filter(s[1..], p) else Filter(s[1..], p)
  }

  lemma {:induction false} FilterKeeps<T>(s: seq<T>, p: T -> bool)
    ensures forall x :: x in Filter(s, p) <==> x in s && p(x)
  {
    if s != [] {
      FilterKeeps(s[1..], p);
      assert s == [s[0]] + s[1..];
    }
  }

  datatype Item = Item(url: string, title: string, score: int, id: nat)

  function Insert(x: Item, t: seq<Item>): seq<Item> {
    if t == [] || x.score >= t[0].score then [x] + t else [t[0]] + Insert(x, t[1..])
  }

  /** `sort((a, b) => b.score - a.score)`, which is stable. */
  function SortDesc(s: seq<Item>): seq<Item> {
    if s == [] then [] else Insert(s[0], SortDesc(s[1..]))
  }

  ghost predicate Descending(s: seq<Item>) {
    forall i, j :: 0 <= i < j < |s| ==> s[i].score >= s[j].score
  }

  lemma {:induction false} InsertKeepsDescending(x: Item, t: seq<Item>)
    requires Descending(t)
    ensures Descending(Insert(x, t)) && forall y :: y in Insert(x, t) <==> y == x || y in t
  {
    if t != [] && x.score < t[0].score {
      InsertKeepsDescending(x, t[1..]);
      var r := Insert(x, t[1..]);
      forall i | 0 <= i < |r| ensures t[0].score >= r[i].score { assert r[i] == x || r[i] in t[1..]; }
      assert t == [t[0]] + t[1..];
    }
  }

  lemma {:induction false} SortIsDescending(s: seq<Item>)
    ensures Descending(SortDesc(s)) && forall y :: y in SortDesc(s) <==> y in s
  {
    if s != [] {
      SortIsDescending(s[1..]);
      InsertKeepsDescending(s[0], SortDesc(s[1..]));
      assert s == [s[0]] + s[1..];
    }
  }

  lemma {:induction false} FilterOfInsert(x: Item, t: seq<Item>, p: Item -> bool)
    requires Descending(t)
    ensures Filter(Insert(x, t), p) == if p(x) then Insert(x, Filter(t, p)) else Filter(t, p)
  {
    if t == [] || x.score >= t[0].score {
      FilterKeeps(t, p);
      if Filter(t, p) != [] { assert Filter(t, p)[0] in t; }
      assert ([x] + t)[1..] == t;
    } else {
      FilterOfInsert(x, t[1..], p);
      assert ([t[0]] + Insert(x, t[1..]))[1..] == Insert(x, t[1..]);
      if p(t[0]) { assert ([t[0]] + Filter(t[1..], p))[1..] == Filter(t[1..], p); }
    }
  }

  /** Filtering before or after the sort is the same. */
  lemma {:induction false} FilterCommutesWithSort(s: seq<Item>, p: Item -> bool)
    ensures Filter(SortDesc(s), p) == SortDesc(Filter(s, p))
  {
    if s != [] {
      FilterCommutesWithSort(s[1..], p);
      SortIsDescending(s[1..]);
      FilterOfInsert(s[0], SortDesc(s[1..]), p);
      if p(s[0]) { assert ([s[0]] + Filter(s[1..], p))[1..] == Filter(s[1..], p); }
    }
  }

  function OfScore(v: int): Item -> bool {
    (x: Item) => x.score == v
  }

  lemma {:induction false} SortOfEquals(s: seq<Item>, v: int)
    requires forall i :: 0 <= i < |s| ==> s[i].score == v
    ensures SortDesc(s) == s
  {
    if s != [] {
      SortOfEquals(s[1..], v);
      assert s == [s[0]] + s[1..];
    }
  }

  lemma SortIsStable(s: seq<Item>, v: int)
    ensures Filter(SortDesc(s), OfScore(v)) == Filter(s, OfScore(v))
  {
    FilterCommutesWithSort(s, OfScore(v));
    FilterKeeps(s, OfScore(v));
    var f := Filter(s, OfScore(v));
    forall i | 0 <= i < |f| ensures f[i].score == v { assert f[i] in f; }
    SortOfEquals(f, v);
  }

  lemma FilterOfTail(s: seq<Item>, p: Item -> bool)
    requires s != []
    ensures Filter(s[1..], p) == if p(s[0]) then Filter(s, p)[1..] else Filter(s, p)
  {
  }

  lemma HeadsAgree(a: seq<Item>, b: seq<Item>)
    requires Descending(a) && Descending(b) && a != []
    requires forall v :: Filter(a, OfScore(v)) == Filter(b, OfScore(v))
    ensures b != [] && a[0] == b[0]
  {
    var v := a[0].score;
    assert Filter(a, OfScore(v))[0] == a[0];
    FilterKeeps(b, OfScore(v));
    assert a[0] in Filter(b, OfScore(v));
    var w := b[0].score;
    assert Filter(b, OfScore(w))[0] == b[0];
    FilterKeeps(a, OfScore(w));
    assert b[0] in Filter(a, OfScore(w));
  }

  lemma {:induction false} DescendingListsAreDetermined(a: seq<Item>, b: seq<Item>)
    requires Descending(a) && Descending(b)
    requires forall v :: Filter(a, OfScore(v)) == Filter(b, OfScore(v))
    ensures a == b
  {
    if a == [] {
      if b != [] { HeadsAgree(b, a); }
    } else {
      HeadsAgree(a, b);
      forall u ensures Filter(a[1..], OfScore(u)) == Filter(b[1..], OfScore(u)) {
        FilterOfTail(a, OfScore(u));
        FilterOfTail(b, OfScore(u));
        assert Filter(a, OfScore(u)) == Filter(b, OfScore(u));
      }
      DescendingListsAreDetermined(a[1..], b[1..]);
      assert a == [a[0]] + a[1..] && b == [b[0]] + b[1..];
    }
  }

  /** There is one stable descending sort: descending, with the items of each score in their old order. */
  lemma SortIsTheStableSort(s: seq<Item>, t: seq<Item>)
    ensures t == SortDesc(s) <==> Descending(t) && forall v :: Filter(t, OfScore(v)) == Filter(s, OfScore(v))
  {
    SortIsDescending(s);
    forall v ensures Filter(SortDesc(s), OfScore(v)) == Filter(s, OfScore(v)) { SortIsStable(s, v); }
    if Descending(t) && forall v :: Filter(t, OfScore(v)) == Filter(s, OfScore(v)) {
      DescendingListsAreDetermined(t, SortDesc(s));
    }
  }

  // ---- Dropping repeats -----------------------------------------------------------------------

  /** The first element of each key, in order; elements with an empty key are dropped. */
  function FirstPerKey<T>(s: seq<T>, key: T -> string): seq<T> {
    if s == [] then []
    else
      var n := |s| - 1;
      var kept := FirstPerKey(s[..n], key);
      if key(s[n]) != "" && forall j :: 0 <= j < n ==> key(s[j]) != key(s[n]) then kept + [s[n]] else kept
  }

  function Take<T>(s: seq<T>, n: nat): seq<T> {
    if n <= |s| then s[..n] else s
  }

  /** The loops test their limit after adding, so they never return fewer than one when there is one. */
  function AtLeastOne(limit: nat): nat {
    if limit == 0 then 1 else limit
  }

  function Picked<T>(s: seq<T>, key: T -> string, limit: nat): seq<T> {
    Take(FirstPerKey(s, key), AtLeastOne(limit))
  }

  lemma {:induction false} FirstPerKeyGrows<T>(s: seq<T>, key: T -> string, n: nat)
    requires n <= |s|
    ensures FirstPerKey(s[..n], key) <= FirstPerKey(s, key)
    decreases |s|
  {
    if n < |s| {
      var m := |s| - 1;
      FirstPerKeyGrows(s[..m], key, n);
      assert s[..m][..n] == s[..n];
    } else {
      assert s[..n] == s;
    }
  }

  function KeysOf<T>(s: seq<T>, key: T -> string): set<string> {
    set i | 0 <= i < |s| && key(s[i]) != "" :: key(s[i])
  }

  /** What one turn of a loop does to the list and to the set of keys. */
  lemma OneMore<T>(s: seq<T>, key: T -> string, i: nat)
    requires i < |s|
    ensures var k, out, seen := key(s[i]), FirstPerKey(s[..i], key), KeysOf(s[..i], key);
      && FirstPerKey(s[..i + 1], key) == (if k != "" && k !in seen then out + [s[i]] else out)
      && KeysOf(s[..i + 1], key) == if k != "" then seen + {k} else seen
  {
    var t, u, k := s[..i], s[..i + 1], key(s[i]);
    assert u[..i] == t && u[i] == s[i];
    assert forall j :: 0 <= j < i ==> key(u[j]) == key(t[j]);
    if k != "" { assert k in KeysOf(u, key) by { assert key(u[i]) == k; } }
    forall x ensures x in KeysOf(u, key) <==> x in KeysOf(t, key) || (x == k != "") {
      if x in KeysOf(t, key) {
        var j :| 0 <= j < i && key(t[j]) == x;
        assert key(u[j]) == x;
      }
    }
  }

  /** One of the two loops of `runQueryResearch`; `seen` is shared by them. */
  method Collect<T>(items: seq<T>, key: T -> string, limit: nat, seen: set<string>)
    returns (out: seq<T>, seen': set<string>)
    requires seen == {}
    ensures out == Picked(items, key, limit)
    ensures out == [] ==> seen' == {}
  {
    out, seen' := [], seen;
    assert FirstPerKey(items[..0], key) == [] && KeysOf(items[..0], key) == {};
    hide FirstPerKey, KeysOf;
    for i := 0 to |items|
      invariant out == FirstPerKey(items[..i], key) && (|out| < limit || out == [])
      invariant seen' == KeysOf(items[..i], key) && (out == [] ==> seen' == {})
    {
      OneMore(items, key, i);
      var k := key(items[i]);
      if k == "" || k in seen' { continue; }
      seen' := seen' + {k};
      out := out + [items[i]];
      if |out| >= limit {
        FirstPerKeyGrows(items, key, i + 1);
        return;
      }
    }
    assert items[..|items|] == items;
  }

  /** The element has a nonempty key that no earlier one has. */
  ghost predicate IsNew<T>(s: seq<T>, key: T -> string, i: nat)
    requires i < |s|
  {
    key(s[i]) != "" && forall j :: 0 <= j < i ==> key(s[j]) != key(s[i])
  }

  /** It is the first element of its nonempty key. */
  ghost predicate Represents<T>(s: seq<T>, key: T -> string, x: T) {
    exists i :: 0 <= i < |s| && s[i] == x && IsNew(s, key, i)
  }

  lemma RepresentsOneMore<T>(s: seq<T>, key: T -> string, x: T)
    requires s != []
    ensures var n := |s| - 1; Represents(s, key, x) <==> Represents(s[..n], key, x) || (x == s[n] && IsNew(s, key, n))
  {
  }

  /** What the dropping of repeats keeps: of each nonempty key one element, the first. */
  lemma {:induction false} FirstPerKeyIsExact<T>(s: seq<T>, key: T -> string)
    ensures forall x :: x in FirstPerKey(s, key) <==> Represents(s, key, x)
    ensures DistinctKeys(FirstPerKey(s, key), key)
  {
    if s != [] {
      var n := |s| - 1;
      var kept := FirstPerKey(s[..n], key);
      FirstPerKeyIsExact(s[..n], key);
      forall x ensures x in FirstPerKey(s, key) <==> Represents(s, key, x) { RepresentsOneMore(s, key, x); }
      if IsNew(s, key, n) {
        forall i | 0 <= i < |kept| ensures key(kept[i]) != key(s[n]) {
          assert Represents(s[..n], key, kept[i]);
          var j :| 0 <= j < n && s[..n][j] == kept[i];
          assert key(s[j]) != key(s[n]);
        }
      }
    }
  }

  ghost predicate DistinctKeys<T>(s: seq<T>, key: T -> string) {
    forall i, j :: 0 <= i < j < |s| ==> key(s[i]) != key(s[j])
  }

  // ---- Research -------------------------------------------------------------------------------

  function Key(item: Item): string {
    Lower(if item.url != "" then item.url else item.title)
  }

  function HasUrl(): Item -> bool {
    (x: Item) => x.url != ""
  }

  /** Filter, sort by score, drop repeats, take the limit. */
  function Ranked(candidates: seq<Item>, p: Item -> bool, limit: nat): seq<Item> {
    Picked(SortDesc(Filter(Filter(candidates, HasUrl()), p)), Key, limit)
  }

  predicate AnyStrict(candidates: seq<Item>, strict: Item -> bool) {
    exists i :: 0 <= i < |candidates| && candidates[i].url != "" && strict(candidates[i])
  }

  /** The loops of `runQueryResearch` over candidates already scored. */
  method Research(candidates: seq<Item>, militaryOnly: bool, strict: Item -> bool, relaxed: Item -> bool, topLimit: nat)
    returns (deduped: seq<Item>)
    ensures militaryOnly ==>
      deduped == Ranked(candidates, if AnyStrict(candidates, strict) then strict else relaxed, topLimit)
    ensures !militaryOnly ==> deduped == Ranked(candidates, x => true, topLimit)
  {
    var merged := SortDesc(Filter(candidates, HasUrl()));
    var strictCandidates := if militaryOnly then Filter(merged, strict) else merged;
    var relaxedCandidates := if militaryOnly then Filter(merged, relaxed) else merged;
    ghost var withUrl := Filter(candidates, HasUrl());
    FilterCommutesWithSort(withUrl, strict);
    FilterCommutesWithSort(withUrl, relaxed);
    FilterByTrue(withUrl);
    var seen;
    deduped, seen := Collect(strictCandidates, Key, topLimit, {});
    if militaryOnly { StrictIsEmptyExactlyWithoutStrict(candidates, strict, topLimit); }
    if |deduped| == 0 {
      deduped, seen := Collect(relaxedCandidates, Key, topLimit, seen);
    }
  }

  lemma {:induction false} FilterByTrue(s: seq<Item>)
    ensures Filter(s, x => true) == s
  {
    if s != [] {
      FilterByTrue(s[1..]);
      assert s == [s[0]] + s[1..];
    }
  }

  /** The fallback is taken exactly when no candidate passes the strict test. */
  lemma StrictIsEmptyExactlyWithoutStrict(candidates: seq<Item>, strict: Item -> bool, limit: nat)
    ensures Ranked(candidates, strict, limit) == [] <==> !AnyStrict(candidates, strict)
  {
    var withUrl := Filter(candidates, HasUrl());
    FilterKeeps(candidates, HasUrl());
    FilterKeeps(withUrl, strict);
    var sorted := SortDesc(Filter(withUrl, strict));
    SortIsDescending(Filter(withUrl, strict));
    FirstPerKeyIsExact(sorted, Key);
    if sorted != [] {
      assert sorted[0] in sorted && sorted[0].url != "" && strict(sorted[0]);
      assert IsNew(sorted, Key, 0) && Represents(sorted, Key, sorted[0]);
    }
    if i :| 0 <= i < |candidates| && candidates[i].url != "" && strict(candidates[i]) {
      assert candidates[i] in sorted;
    }
  }

  /**
   * The answer is in descending order with distinct keys, holds only eligible candidates, and misses an eligible
   * one only for another of the same key that scores no less, or because it is full of items that score no less.
   */
  lemma RankedIsTheTop(candidates: seq<Item>, p: Item -> bool, limit: nat, c: Item)
    ensures var r := Ranked(candidates, p, limit);
      && Descending(r) && |r| <= (if limit == 0 then 1 else limit)
      && (forall i, j :: 0 <= i < j < |r| ==> Lower(r[i].url) != Lower(r[j].url))
      && (forall x :: x in r ==> x in candidates && x.url != "" && p(x))
    ensures var r := Ranked(candidates, p, limit);
      c in candidates && c.url != "" && p(c) ==>
        || (exists i :: 0 <= i < |r| && Lower(r[i].url) == Lower(c.url) && r[i].score >= c.score)
        || (|r| == (if limit == 0 then 1 else limit) && forall i :: 0 <= i < |r| ==> r[i].score >= c.score)
  {
    hide Lower;
    var eligible := Filter(Filter(candidates, HasUrl()), p);
    FilterKeeps(candidates, HasUrl());
    FilterKeeps(Filter(candidates, HasUrl()), p);
    SortIsDescending(eligible);
    TopOfSorted(SortDesc(eligible), limit, c);
  }

  /** The first elements appear in the order of their positions. */
  lemma {:induction false} FirstPerKeyKeepsOrder(s: seq<Item>)
    requires Descending(s)
    ensures Descending(FirstPerKey(s, Key)) && forall x :: x in FirstPerKey(s, Key) ==> x in s
  {
    if s != [] {
      var n := |s| - 1;
      FirstPerKeyKeepsOrder(s[..n]);
      forall x | x in s[..n] ensures x.score >= s[n].score {}
    }
  }

  lemma FirstWithKey<T>(s: seq<T>, key: T -> string, i: nat) returns (j: nat)
    requires i < |s| && key(s[i]) != ""
    ensures j <= i && key(s[j]) == key(s[i]) && IsNew(s, key, j)
  {
    if k :| 0 <= k < i && key(s[k]) == key(s[i]) { j := FirstWithKey(s, key, k); } else { j := i; }
  }

  lemma TopOfSorted(s: seq<Item>, limit: nat, c: Item)
    requires Descending(s) && forall x :: x in s ==> x.url != ""
    ensures var r := Picked(s, Key, limit);
      && Descending(r) && |r| <= AtLeastOne(limit)
      && DistinctKeys(r, Key)
      && (forall x :: x in r ==> x in s)
      && (c in s ==>
            || (exists i :: 0 <= i < |r| && Key(r[i]) == Key(c) && r[i].score >= c.score)
            || (|r| == AtLeastOne(limit) && forall i :: 0 <= i < |r| ==> r[i].score >= c.score))
  {
    var f := FirstPerKey(s, Key);
    var r := Picked(s, Key, limit);
    FirstPerKeyIsExact(s, Key);
    FirstPerKeyKeepsOrder(s);
    if c in s {
      var i :| 0 <= i < |s| && s[i] == c;
      var j := FirstWithKey(s, Key, i);
      assert Represents(s, Key, s[j]);
      var k :| 0 <= k < |f| && f[k] == s[j];
      if k < |r| { assert r[k] == f[k]; }
    }
  }

  // ---- dedupeList -----------------------------------------------------------------------------

  function CleanKey(value: string): string {
    Lower(Trim(value))
  }

  function Trimmed(values: seq<string>): (r: seq<string>)
    ensures |r| == |values| && forall i :: 0 <= i < |r| ==> r[i] == Trim(values[i])
  {
    if values == [] then [] else Trimmed(values[..|values| - 1]) + [Trim(values[|values| - 1])]
  }

  lemma OnlyEmptyLowersToEmpty(s: string)
    ensures Lower(s) == "" <==> s == ""
  {
  }

  /** The list and the keys after the first `i` values. */
  ghost predicate Deduped(values: seq<string>, i: nat, out: seq<string>, seen: set<string>)
    requires i <= |values|
  {
    out == Trimmed(FirstPerKey(values[..i], CleanKey)) && seen == KeysOf(values[..i], CleanKey)
  }

  lemma NothingDeduped(values: seq<string>)
    ensures Deduped(values, 0, [], {})
  {
  }

  lemma DedupedOneMore(values: seq<string>, i: nat, out: seq<string>, seen: set<string>)
    requires i < |values| && Deduped(values, i, out, seen)
    ensures var cleaned := Trim(values[i]);
      if |cleaned| == 0 || Lower(cleaned) in seen then Deduped(values, i + 1, out, seen)
      else Deduped(values, i + 1, out + [cleaned], seen + {Lower(cleaned)})
  {
    OneMore(values, CleanKey, i);
    OnlyEmptyLowersToEmpty(Trim(values[i]));
    var kept := FirstPerKey(values[..i], CleanKey);
    assert (kept + [values[i]])[..|kept|] == kept;
    assert seen + {CleanKey(values[i])} == if CleanKey(values[i]) in seen then seen else seen + {CleanKey(values[i])};
    hide Trim, Lower, FirstPerKey, KeysOf;
  }

  lemma DedupedIsPicked(values: seq<string>, i: nat, out: seq<string>, seen: set<string>, max: nat)
    requires i <= |values| && Deduped(values, i, out, seen)
    requires if i == |values| then |out| <= AtLeastOne(max) else |out| == AtLeastOne(max)
    ensures out == Trimmed(Picked(values, CleanKey, max))
  {
    FirstPerKeyGrows(values, CleanKey, i);
    if i == |values| { assert values[..i] == values; }
  }

  ghost predicate HasKey<T>(s: seq<T>, key: T -> string, k: string) {
    exists i :: 0 <= i < |s| && key(s[i]) == k
  }

  lemma FirstAtIsNew<T>(s: seq<T>, key: T -> string, i: nat)
    requires i < |FirstPerKey(s, key)|
    ensures Represents(s, key, FirstPerKey(s, key)[i])
  {
    FirstPerKeyIsExact(s, key);
    var x := FirstPerKey(s, key)[i];
    assert x in FirstPerKey(s, key);
  }

  /** What is picked: distinct nonempty keys, as many as asked for at most, and every one there is unless it is full. */
  lemma PickedIsExact<T>(s: seq<T>, key: T -> string, limit: nat)
    ensures var r, most := Picked(s, key, limit), if limit == 0 then 1 else limit;
      && |r| <= most && DistinctKeys(r, key)
      && (forall i :: 0 <= i < |r| ==> r[i] in s && key(r[i]) != "")
      && (|r| < most ==> forall i :: 0 <= i < |s| && key(s[i]) != "" ==> HasKey(r, key, key(s[i])))
  {
    FirstPerKeyIsExact(s, key);
    var f, r := FirstPerKey(s, key), Picked(s, key, limit);
    forall i | 0 <= i < |r| ensures Represents(s, key, r[i]) {
      FirstAtIsNew(s, key, i);
    }
    forall i | |r| < AtLeastOne(limit) && 0 <= i < |s| && key(s[i]) != "" ensures HasKey(r, key, key(s[i])) {
      var j := FirstWithKey(s, key, i);
      assert Represents(s, key, s[j]);
      assert s[j] in r;
    }
  }

  /**
   * The list holds trimmed values, none empty and no two the same but for case, as many as asked for at most, and
   * of every nonempty value one spelling unless it is full.
   */
  lemma DedupedListIsExact(values: seq<string>, max: nat)
    ensures var r, most := Trimmed(Picked(values, CleanKey, max)), if max == 0 then 1 else max;
      && |r| <= most && (forall i, j :: 0 <= i < j < |r| ==> Lower(r[i]) != Lower(r[j]))
      && (forall i :: 0 <= i < |r| ==> r[i] != "" && IsTrimOf(r[i], values))
      && (|r| < most ==> forall i :: 0 <= i < |values| && Trim(values[i]) != "" ==>
            HasKey(r, Lower, Lower(Trim(values[i]))))
  {
    PickedIsExact(values, CleanKey, max);
    var picked := Picked(values, CleanKey, max);
    var r := Trimmed(picked);
    hide Picked, Trim, Lower, Trimmed;
    forall i | 0 <= i < |r| ensures r[i] != "" && IsTrimOf(r[i], values) {
      OnlyEmptyLowersToEmpty(Trim(picked[i]));
      var k :| 0 <= k < |values| && values[k] == picked[i];
    }
    forall i | |r| < (if max == 0 then 1 else max) && 0 <= i < |values| && Trim(values[i]) != ""
      ensures HasKey(r, Lower, Lower(Trim(values[i])))
    {
      OnlyEmptyLowersToEmpty(Trim(values[i]));
      assert HasKey(picked, CleanKey, CleanKey(values[i]));
      var k :| 0 <= k < |picked| && CleanKey(picked[k]) == CleanKey(values[i]);
      assert Lower(r[k]) == Lower(Trim(values[i]));
    }
  }

  ghost predicate IsTrimOf(x: string, values: seq<string>) {
    exists i :: 0 <= i < |values| && x == Trim(values[i])
  }

  /** Of the values that differ by more than case and outer white space the first ones, trimmed. */
  method DedupeList(values: seq<string>, max: nat) returns (out: seq<string>)
    ensures out == Trimmed(Picked(values, CleanKey, max))
  {
    hide *;
    out := [];
    var seen := {};
    NothingDeduped(values);
    for i := 0 to |values|
      invariant Deduped(values, i, out, seen) && (|out| < max || |out| == 0)
    {
      DedupedOneMore(values, i, out, seen);
      var cleaned := Trim(values[i]);
      if |cleaned| == 0 { continue; }
      var key := Lower(cleaned);
      if key in seen { continue; }
      seen := seen + {key};
      out := out + [cleaned];
      if |out| >= max {
        assert |out| == AtLeastOne(max) by { AtLeastOneIs(max); }
        DedupedIsPicked(values, i + 1, out, seen, max);
        return;
      }
    }
    AtLeastOneIs(max);
    DedupedIsPicked(values, |values|, out, seen, max);
  }

  lemma AtLeastOneIs(limit: nat)
    ensures AtLeastOne(limit) == if limit == 0 then 1 else limit
  {
  }
}

