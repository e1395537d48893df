/** The in-memory store of world alerts and its merges. Times are in milliseconds. */
module WorldAlerts {

  /** What `new Date(article.publishedAt)` makes of the field; `toISOString` raises on an unreadable one. */
  datatype Published = Absent | At(time: int) | Unreadable

  datatype Article = Article(title: string, url: string, published: Published)

  datatype Alert = Alert(headline: string, url: string, timestamp: int)

  const WEEK := 7 * 24 * 60 * 60 * 1000
  const CAPACITY := 500

  /** The classifiers of the server: which articles matter, and how headlines are cleaned. */
  datatype Rules = Rules(matters: Article -> bool, clean: string -> string)

  predicate Considered(a: Article, rules: Rules) {
    a.title != "" && a.url != "" && rules.matters(a)
  }

  predicate Known(store: seq<Alert>, a: Article, rules: Rules) {
    exists i :: 0 <= i < |store| && (store[i].url == a.url || store[i].headline == rules.clean(a.title))
  }

  predicate Wanted(store: seq<Alert>, a: Article, rules: Rules) {
    Considered(a, rules) && !Known(store, a, rules)
  }

  /** An article's own date, or the time of its turn if it has none. */
  function DateOf(a: Article, now: int): int
    requires !a.published.Unreadable?
  {
    if a.published.At? then a.published.time else now
  }

  function ToAlert(a: Article, rules: Rules, now: int): Alert
    requires !a.published.Unreadable?
  {
    Alert(rules.clean(a.title), a.url, DateOf(a, now))
  }

  /** How far a merge came: `raised` once an unreadable date has ended it. */
  datatype Progress = Progress(store: seq<Alert>, added: nat, raised: bool)

  /** `clock(i)` is the time when the i-th article is looked at. */
  function Offer(p: Progress, a: Article, rules: Rules, now: int): Progress {
    if p.raised || !Wanted(p.store, a, rules) then p
    else if a.published.Unreadable? then p.(raised := true)
    else Progress([ToAlert(a, rules, now)] + p.store, p.added + 1, false)
  }

  function OfferAll(store: seq<Alert>, articles: seq<Article>, rules: Rules, clock: nat -> int): Progress {
    if articles == [] then Progress(store, 0, false)
    else
      var n := |articles| - 1;
      Offer(OfferAll(store, articles[..n], rules, clock), articles[n], rules, clock(n))
  }

  function Recent(store: seq<Alert>, cutoff: int): seq<Alert> {
    if store == [] then []
    else if store[0].timestamp >= cutoff then [store[0]] + Recent(store[1..], cutoff)
    else Recent(store[1..], cutoff)
  }

  function Pruned(store: seq<Alert>, now: int): seq<Alert> {
    var recent := Recent(store, now - WEEK);
    if |recent| > CAPACITY then recent[..CAPACITY] else recent
  }

  /** A merge that raises leaves the store as far as it came, without pruning it. */
  function Merged(store: seq<Alert>, articles: seq<Article>, rules: Rules, clock: nat -> int): Progress {
    var p := OfferAll(store, articles, rules, clock);
    if p.raised then p else p.(store := Pruned(p.store, clock(|articles|)))
  }

  class AlertStore {
    var worldAlertStore: seq<Alert>

    /** `mergeWorldAlerts`; `raised` stands for the RangeError. */
    method MergeWorldAlerts(articles: seq<Article>, rules: Rules, clock: nat -> int) returns (added: nat, raised: bool)
      modifies this
      ensures Progress(worldAlertStore, added, raised) == Merged(old(worldAlertStore), articles, rules, clock)
    {
      added, raised := 0, false;
      for i := 0 to |articles|
        invariant OfferAll(old(worldAlertStore), articles[..i], rules, clock) == Progress(worldAlertStore, added, false)
      {
        var article := articles[i];
        assert articles[..i + 1][..i] == articles[..i];
        if article.title == "" || article.url == "" { continue; }
        if !rules.matters(article) { continue; }
        if Known(worldAlertStore, article, rules) { continue; }
        if article.published.Unreadable? {
          raised := true;
          RaisedStaysRaised(old(worldAlertStore), articles, rules, clock, i + 1);
          return;
        }
        worldAlertStore := [ToAlert(article, rules, clock(i))] + worldAlertStore;
        added := added + 1;
      }
      assert articles[..|articles|] == articles;
      worldAlertStore := Pruned(worldAlertStore, clock(|articles|));
    }
  }

  lemma {:induction false} RaisedStaysRaised(
      store: seq<Alert>, articles: seq<Article>, rules: Rules, clock: nat -> int, i: nat)
    requires i <= |articles| && OfferAll(store, articles[..i], rules, clock).raised
    ensures OfferAll(store, articles, rules, clock) == OfferAll(store, articles[..i], rules, clock)
    decreases |articles|
  {
    var n := |articles| - 1;
    if i == |articles| {
      assert articles[..i] == articles;
    } else {
      assert articles[..n][..i] == articles[..i];
      RaisedStaysRaised(store, articles[..n], rules, clock, i);
    }
  }

  // ---- What every merge keeps -----------------------------------------------------------------

  ghost predicate Distinct(store: seq<Alert>) {
    forall i, j :: 0 <= i < j < |store| ==> store[i].url != store[j].url && store[i].headline != store[j].headline
  }

  ghost predicate Tidy(store: seq<Alert>, cutoff: int) {
    |store| <= CAPACITY && forall i :: 0 <= i < |store| ==> store[i].timestamp >= cutoff
  }

  lemma {:induction false} OffersKeepDistinct(
      store: seq<Alert>, articles: seq<Article>, rules: Rules, clock: nat -> int)
    requires Distinct(store)
    ensures Distinct(OfferAll(store, articles, rules, clock).store)
  {
    if articles != [] { OffersKeepDistinct(store, articles[..|articles| - 1], rules, clock); }
  }

  lemma {:induction false} RecentIsExact(store: seq<Alert>, cutoff: int)
    ensures forall x :: x in Recent(store, cutoff) <==> x in store && x.timestamp >= cutoff
    ensures Distinct(store) ==> Distinct(Recent(store, cutoff))
  {
    if store != [] {
      var rest := store[1..];
      RecentIsExact(rest, cutoff);
      assert store == [store[0]] + rest;
      if Distinct(store) {
        forall x | x in Recent(rest, cutoff) ensures x.url != store[0].url && x.headline != store[0].headline {
          assert x in rest;
          var i :| 0 <= i < |rest| && rest[i] == x;
          assert store[i + 1] == x;
        }
      }
    }
  }

  /** Every merge keeps URLs and headlines distinct. */
  lemma MergeKeepsTheStore(store: seq<Alert>, articles: seq<Article>, rules: Rules, clock: nat -> int)
    requires Distinct(store)
    ensures Distinct(Merged(store, articles, rules, clock).store)
  {
    OffersKeepDistinct(store, articles, rules, clock);
    RecentIsExact(OfferAll(store, articles, rules, clock).store, clock(|articles|) - WEEK);
  }

  ghost predicate AllSince(store: seq<Alert>, cutoff: int) {
    forall i :: 0 <= i < |store| ==> store[i].timestamp >= cutoff
  }

  /** The turns before the i-th at which the article is wanted. */
  ghost function WantedTurns(
      store: seq<Alert>, articles: seq<Article>, rules: Rules, clock: nat -> int, i: nat): set<nat>
    requires i <= |articles|
  {
    set j: nat | j < i && Wanted(OfferAll(store, articles[..j], rules, clock).store, articles[j], rules)
  }

  /** The articles wanted before the i-th have dates that can be read and are not before the cutoff. */
  ghost predicate DatedSince(
      store: seq<Alert>, articles: seq<Article>, rules: Rules, clock: nat -> int, i: nat, cutoff: int)
    requires i <= |articles|
  {
    forall j :: j in WantedTurns(store, articles, rules, clock, i) ==>
      !articles[j].published.Unreadable? && DateOf(articles[j], clock(j)) >= cutoff
  }

  /** What a merge that raises at the i-th article can afford: there is room, and nothing is old. */
  ghost predicate NothingToPrune(
      store: seq<Alert>, articles: seq<Article>, rules: Rules, clock: nat -> int, i: nat, cutoff: int)
    requires i <= |articles|
  {
    && |store| + |WantedTurns(store, articles, rules, clock, i)| <= CAPACITY
    && AllSince(store, cutoff) && DatedSince(store, articles, rules, clock, i, cutoff)
  }

  lemma TurnsOneMore(store: seq<Alert>, articles: seq<Article>, rules: Rules, clock: nat -> int, n: nat)
    requires n < |articles|
    ensures WantedTurns(store, articles, rules, clock, n + 1) == WantedTurns(store, articles, rules, clock, n) +
      if Wanted(OfferAll(store, articles[..n], rules, clock).store, articles[n], rules) then {n} else {}
  {
    hide OfferAll, Wanted;
  }

  lemma OfferOneMore(p: Progress, a: Article, rules: Rules, now: int, cutoff: int)
    requires !Offer(p, a, rules, now).raised
    ensures var p', wanted := Offer(p, a, rules, now), Wanted(p.store, a, rules);
      && !p.raised && p'.added == p.added + (if wanted then 1 else 0)
      && (wanted ==> !a.published.Unreadable?)
      && (AllSince(p'.store, cutoff) <==> AllSince(p.store, cutoff) && (wanted ==> DateOf(a, now) >= cutoff))
  {
    var wanted := Wanted(p.store, a, rules);
    hide Wanted;
    if wanted {
      var p' := Offer(p, a, rules, now);
      assert p'.store[0].timestamp == DateOf(a, now);
      assert forall k :: 0 <= k < |p.store| ==> p'.store[k + 1] == p.store[k];
    }
  }

  /** Up to a turn that nothing has raised before, the wanted articles are what is added, under their dates. */
  lemma {:induction false} WantedArticlesAreAdded(
      store: seq<Alert>, articles: seq<Article>, rules: Rules, clock: nat -> int, i: nat, cutoff: int)
    requires i <= |articles| && !OfferAll(store, articles[..i], rules, clock).raised
    ensures var p := OfferAll(store, articles[..i], rules, clock);
      && p.added == |WantedTurns(store, articles, rules, clock, i)|
      && (AllSince(p.store, cutoff) <==>
            AllSince(store, cutoff) && DatedSince(store, articles, rules, clock, i, cutoff))
    decreases i
  {
    if i > 0 {
      var n := i - 1;
      assert articles[..i][..n] == articles[..n];
      var before := OfferAll(store, articles[..n], rules, clock);
      assert OfferAll(store, articles[..i], rules, clock) == Offer(before, articles[n], rules, clock(n));
      OfferOneMore(before, articles[n], rules, clock(n), cutoff);
      TurnsOneMore(store, articles, rules, clock, n);
      var turns := WantedTurns(store, articles, rules, clock, n);
      assert n !in turns;
      hide OfferAll, Offer, Wanted, AllSince, DateOf, WantedTurns;
      WantedArticlesAreAdded(store, articles, rules, clock, n, cutoff);
    }
  }

  /** The first article that is wanted at its turn and has an unreadable date is where a merge raises. */
  ghost predicate RaisesFirstAt(
      store: seq<Alert>, articles: seq<Article>, rules: Rules, clock: nat -> int, i: nat)
  {
    && i < |articles| && RaisesAt(store, articles, rules, clock, i)
    && forall j :: 0 <= j < i ==> !RaisesAt(store, articles, rules, clock, j)
  }

  lemma NothingRaisesBefore(store: seq<Alert>, articles: seq<Article>, rules: Rules, clock: nat -> int, i: nat)
    requires RaisesFirstAt(store, articles, rules, clock, i)
    ensures !OfferAll(store, articles[..i], rules, clock).raised
    ensures OfferAll(store, articles, rules, clock) == OfferAll(store, articles[..i], rules, clock).(raised := true)
  {
    RaisesExactlyAtAnUnreadableDate(store, articles[..i], rules, clock);
    forall j | 0 <= j < i ensures !RaisesAt(store, articles[..i], rules, clock, j) {
      assert articles[..i][..j] == articles[..j];
      assert !RaisesAt(store, articles, rules, clock, j);
    }
    assert articles[..i + 1][..i] == articles[..i];
    RaisedStaysRaised(store, articles, rules, clock, i + 1);
  }

  lemma {:induction false} SomethingRaisesFirst(
      store: seq<Alert>, articles: seq<Article>, rules: Rules, clock: nat -> int, i: nat) returns (first: nat)
    requires i < |articles| && RaisesAt(store, articles, rules, clock, i)
    ensures RaisesFirstAt(store, articles, rules, clock, first)
  {
    hide RaisesAt;
    if j :| 0 <= j < i && RaisesAt(store, articles, rules, clock, j) {
      first := SomethingRaisesFirst(store, articles, rules, clock, j);
    } else {
      first := i;
    }
  }

  /**
   * At most 500 entries, all within a week: exactly if nothing raises, or where it first does the old entries and
   * the articles wanted before leave nothing to prune.
   */
  lemma MergeIsTidyExactly(store: seq<Alert>, articles: seq<Article>, rules: Rules, clock: nat -> int)
    ensures var cutoff := clock(|articles|) - WEEK;
      Tidy(Merged(store, articles, rules, clock).store, cutoff) <==>
        forall i :: RaisesFirstAt(store, articles, rules, clock, i) ==>
          NothingToPrune(store, articles, rules, clock, i, cutoff)
  {
    RaisesExactlyAtAnUnreadableDate(store, articles, rules, clock);
    if OfferAll(store, articles, rules, clock).raised {
      var i :| 0 <= i < |articles| && RaisesAt(store, articles, rules, clock, i);
      var first := SomethingRaisesFirst(store, articles, rules, clock, i);
      RaisingMergeIsTidyExactly(store, articles, rules, clock, first);
      assert forall j :: RaisesFirstAt(store, articles, rules, clock, j) ==> j == first;
    } else {
      CompleteMergeIsTidy(store, articles, rules, clock);
      assert forall j :: !RaisesFirstAt(store, articles, rules, clock, j);
    }
  }

  lemma CompleteMergeIsTidy(store: seq<Alert>, articles: seq<Article>, rules: Rules, clock: nat -> int)
    requires !OfferAll(store, articles, rules, clock).raised
    ensures Tidy(Merged(store, articles, rules, clock).store, clock(|articles|) - WEEK)
  {
    var p, cutoff := OfferAll(store, articles, rules, clock), clock(|articles|) - WEEK;
    RecentIsExact(p.store, cutoff);
    var recent := Recent(p.store, cutoff);
    forall i | 0 <= i < |recent| ensures recent[i].timestamp >= cutoff { assert recent[i] in recent; }
  }

  lemma RaisingMergeIsTidyExactly(
      store: seq<Alert>, articles: seq<Article>, rules: Rules, clock: nat -> int, i: nat)
    requires RaisesFirstAt(store, articles, rules, clock, i)
    ensures var cutoff := clock(|articles|) - WEEK;
      Tidy(Merged(store, articles, rules, clock).store, cutoff) <==>
        NothingToPrune(store, articles, rules, clock, i, cutoff)
  {
    NothingRaisesBefore(store, articles, rules, clock, i);
    WantedArticlesAreAdded(store, articles, rules, clock, i, clock(|articles|) - WEEK);
    RaisingMergeDropsNothing(store, articles[..i], rules, clock);
    hide WantedTurns, DatedSince, RaisesFirstAt, RaisesAt, OfferAll;
  }

  /** Unless it raises, a merge passes over no article that matters: its URL or headline is in the store. */
  lemma {:induction false} ConsideredArticlesBecomeKnown(
      store: seq<Alert>, articles: seq<Article>, rules: Rules, clock: nat -> int, i: nat)
    requires i < |articles| && Considered(articles[i], rules) && !OfferAll(store, articles, rules, clock).raised
    ensures Known(OfferAll(store, articles, rules, clock).store, articles[i], rules)
    decreases |articles|
  {
    var n := |articles| - 1;
    var before := OfferAll(store, articles[..n], rules, clock).store;
    var after := OfferAll(store, articles, rules, clock).store;
    if i < n { ConsideredArticlesBecomeKnown(store, articles[..n], rules, clock, i); }
    if before != after {
      assert after[1..] == before && after[0].url == articles[n].url;
      assert forall j :: 0 <= j < |before| ==> after[j + 1] == before[j];
    }
  }

  /** The entry was there, or the article is complete, matters, and has this URL, cleaned title and date. */
  ghost predicate ComesFrom(
      x: Alert, store: seq<Alert>, articles: seq<Article>, rules: Rules, clock: nat -> int)
  {
    x in store || exists i :: 0 <= i < |articles| && IsEntryOf(x, articles[i], rules, clock(i))
  }

  ghost predicate IsEntryOf(x: Alert, a: Article, rules: Rules, now: int) {
    && a.title != "" && a.url != "" && rules.matters(a)
    && x.headline == rules.clean(a.title) && x.url == a.url
    && (a.published == At(x.timestamp) || (a.published.Absent? && x.timestamp == now))
  }

  lemma OfferedComesFrom(p: Progress, a: Article, rules: Rules, now: int, x: Alert)
    requires x in Offer(p, a, rules, now).store
    ensures x in p.store || IsEntryOf(x, a, rules, now)
  {
    hide Known;
  }

  lemma {:induction false} OffersComeFrom(
      store: seq<Alert>, articles: seq<Article>, rules: Rules, clock: nat -> int, x: Alert)
    requires x in OfferAll(store, articles, rules, clock).store
    ensures ComesFrom(x, store, articles, rules, clock)
  {
    if |articles| > 0 {
      var n := |articles| - 1;
      var before := OfferAll(store, articles[..n], rules, clock);
      OfferedComesFrom(before, articles[n], rules, clock(n), x);
      assert OfferAll(store, articles, rules, clock) == Offer(before, articles[n], rules, clock(n));
      hide OfferAll, Offer, IsEntryOf;
      if x in before.store {
        OffersComeFrom(store, articles[..n], rules, clock, x);
        if i :| 0 <= i < n && IsEntryOf(x, articles[..n][i], rules, clock(i)) {
          assert IsEntryOf(x, articles[i], rules, clock(i));
        }
      } else {
        assert IsEntryOf(x, articles[n], rules, clock(n));
      }
    }
  }

  /** Every entry after a merge was there before, or is made from an article of the merge that matters. */
  lemma EntriesComeFromArticles(
      store: seq<Alert>, articles: seq<Article>, rules: Rules, clock: nat -> int, x: Alert)
    requires x in Merged(store, articles, rules, clock).store
    ensures ComesFrom(x, store, articles, rules, clock)
  {
    var p := OfferAll(store, articles, rules, clock);
    RecentIsExact(p.store, clock(|articles|) - WEEK);
    assert x in p.store;
    hide *;
    OffersComeFrom(store, articles, rules, clock, x);
  }

  // ---- What a complete merge keeps ------------------------------------------------------------

  /** The kept entries are those of the offered list at these places, in its order. */
  ghost predicate Selects(offered: seq<Alert>, kept: seq<Alert>, at: seq<nat>) {
    && |at| == |kept| && (forall i, j :: 0 <= i < j < |at| ==> at[i] < at[j])
    && forall i :: 0 <= i < |at| ==> at[i] < |offered| && kept[i] == offered[at[i]]
  }

  /** The places one further on. */
  ghost predicate Moved(later: seq<nat>, at: seq<nat>) {
    |at| == |later| && forall i :: 0 <= i < |later| ==> at[i] == later[i] + 1
  }

  lemma MovedSelects(offered: seq<Alert>, kept: seq<Alert>, later: seq<nat>, x: Alert, at: seq<nat>)
    requires Selects(offered, kept, later) && Moved(later, at)
    ensures Selects([x] + offered, kept, at) && Selects([x] + offered, [x] + kept, [0] + at)
  {
  }

  lemma MovedExists(later: seq<nat>) returns (at: seq<nat>)
    ensures Moved(later, at)
  {
    at := seq(|later|, i requires 0 <= i < |later| => later[i] + 1);
  }

  lemma MovedMembers(later: seq<nat>, at: seq<nat>)
    requires Moved(later, at)
    ensures forall j: nat :: j in at <==> j > 0 && j - 1 in later
    ensures forall j: nat :: j in [0] + at <==> j == 0 || j - 1 in later
  {
    forall j: nat ensures j in at <==> j > 0 && j - 1 in later {
      if j > 0 && j - 1 in later {
        var i :| 0 <= i < |later| && later[i] == j - 1;
        assert at[i] == j;
      }
    }
  }

  lemma SelectsOneInFront(offered: seq<Alert>, kept: seq<Alert>, later: seq<nat>, x: Alert, take: bool)
    returns (at: seq<nat>)
    requires Selects(offered, kept, later)
    ensures Selects([x] + offered, (if take then [x] else []) + kept, at)
    ensures forall j: nat :: j in at <==> (if j == 0 then take else j - 1 in later)
  {
    hide Selects, Moved;
    var moved := MovedExists(later);
    MovedSelects(offered, kept, later, x, moved);
    MovedMembers(later, moved);
    if take {
      at := [0] + moved;
    } else {
      assert [] + kept == kept;
      at := moved;
    }
  }

  lemma {:induction false} RecentSelects(store: seq<Alert>, cutoff: int) returns (at: seq<nat>)
    ensures Selects(store, Recent(store, cutoff), at)
    ensures forall j :: 0 <= j < |store| ==> (j in at <==> store[j].timestamp >= cutoff)
  {
    at := [];
    if |store| > 0 {
      var rest := store[1..];
      RecentOfOneInFront(store[0], rest, cutoff);
      assert store == [store[0]] + rest;
      hide Recent, Selects;
      var later := RecentSelects(rest, cutoff);
      at := SelectsOneInFront(rest, Recent(rest, cutoff), later, store[0], store[0].timestamp >= cutoff);
      assert forall j :: 0 <= j < |rest| ==> rest[j] == store[j + 1];
    }
  }

  /** Of ascending places the first n: whatever is left out comes after all of them. */
  lemma FirstPlaces(all: seq<nat>, n: nat)
    requires n <= |all| && forall i, j :: 0 <= i < j < |all| ==> all[i] < all[j]
    ensures forall j: nat, i :: j in all && j !in all[..n] && 0 <= i < n ==> all[..n][i] < j
  {
    forall j: nat, i | j in all && j !in all[..n] && 0 <= i < n ensures all[..n][i] < j {
      var k :| 0 <= k < |all| && all[k] == j;
      assert forall l :: 0 <= l < n ==> all[..n][l] == all[l] && all[l] in all[..n];
    }
  }

  lemma PrunedSelects(offered: seq<Alert>, now: int) returns (at: seq<nat>)
    ensures Selects(offered, Pruned(offered, now), at)
    ensures forall j: nat :: j < |offered| && offered[j].timestamp >= now - WEEK && j !in at ==>
      |at| == CAPACITY && forall i :: 0 <= i < |at| ==> at[i] < j
  {
    hide Recent;
    var all := RecentSelects(offered, now - WEEK);
    if |all| > CAPACITY {
      FirstPlaces(all, CAPACITY);
      at := all[..CAPACITY];
    } else {
      at := all;
    }
  }

  /**
   * A merge that does not raise keeps, in their order, entries of the offered list that are within the week. One
   * of these is missing only if the store is full with entries that stand before it.
   */
  lemma CompleteMergeKeepsTheRecent(store: seq<Alert>, articles: seq<Article>, rules: Rules, clock: nat -> int)
    returns (at: seq<nat>)
    requires !OfferAll(store, articles, rules, clock).raised
    ensures var offered := OfferAll(store, articles, rules, clock).store;
      var m, cutoff := Merged(store, articles, rules, clock), clock(|articles|) - WEEK;
      && Selects(offered, m.store, at) && AllSince(m.store, cutoff)
      && forall j: nat :: j < |offered| && offered[j].timestamp >= cutoff && j !in at ==>
           |m.store| == CAPACITY && forall i :: 0 <= i < |at| ==> at[i] < j
  {
    hide OfferAll, Pruned;
    CompleteMergeIsTidy(store, articles, rules, clock);
    at := PrunedSelects(OfferAll(store, articles, rules, clock).store, clock(|articles|));
  }

  /**
   * So after such a merge every article that matters is known by its URL or headline, unless the store is full or
   * the entry that made it known is older than a week.
   */
  lemma ConsideredArticlesStayKnown(
      store: seq<Alert>, articles: seq<Article>, rules: Rules, clock: nat -> int, i: nat)
    requires i < |articles| && Considered(articles[i], rules) && !OfferAll(store, articles, rules, clock).raised
    ensures var offered := OfferAll(store, articles, rules, clock).store;
      var m, cutoff, a := Merged(store, articles, rules, clock), clock(|articles|) - WEEK, articles[i];
      || Known(m.store, a, rules) || |m.store| == CAPACITY
      || exists j :: 0 <= j < |offered| && offered[j].timestamp < cutoff
           && (offered[j].url == a.url || offered[j].headline == rules.clean(a.title))
  {
    ConsideredArticlesBecomeKnown(store, articles, rules, clock, i);
    var at := CompleteMergeKeepsTheRecent(store, articles, rules, clock);
    var offered, a := OfferAll(store, articles, rules, clock).store, articles[i];
    var m := Merged(store, articles, rules, clock);
    hide OfferAll, Merged, Considered;
    var j :| 0 <= j < |offered| && (offered[j].url == a.url || offered[j].headline == rules.clean(a.title));
    if j in at {
      var k :| 0 <= k < |at| && at[k] == j;
      assert m.store[k] == offered[j];
    }
  }

  /** The later turns before the n-th at which an article within the week is wanted. */
  ghost function LaterRecent(
      store: seq<Alert>, articles: seq<Article>, rules: Rules, clock: nat -> int, i: nat, n: nat, cutoff: int): set<nat>
    requires n <= |articles|
  {
    set j | j in WantedTurns(store, articles, rules, clock, n) && i < j && RecentAt(articles, clock, j, cutoff)
  }

  predicate RecentAt(articles: seq<Article>, clock: nat -> int, j: nat, cutoff: int)
    requires j < |articles|
  {
    !articles[j].published.Unreadable? && DateOf(articles[j], clock(j)) >= cutoff
  }

  lemma {:induction false} RecentSum(a: seq<Alert>, b: seq<Alert>, cutoff: int)
    ensures Recent(a + b, cutoff) == Recent(a, cutoff) + Recent(b, cutoff)
  {
    if a == [] {
      assert a + b == b;
    } else {
      assert (a + b)[1..] == a[1..] + b;
      RecentSum(a[1..], b, cutoff);
    }
  }

  lemma RecentOfOneInFront(x: Alert, store: seq<Alert>, cutoff: int)
    ensures Recent([x] + store, cutoff) == (if x.timestamp >= cutoff then [x] else []) + Recent(store, cutoff)
  {
    assert ([x] + store)[1..] == store;
  }

  lemma OfferIsOneInFront(p: Progress, a: Article, rules: Rules, now: int)
    requires !Offer(p, a, rules, now).raised
    ensures !p.raised && (Wanted(p.store, a, rules) ==> !a.published.Unreadable?)
    ensures Offer(p, a, rules, now).store ==
      if Wanted(p.store, a, rules) then [ToAlert(a, rules, now)] + p.store else p.store
  {
    hide Wanted;
  }

  lemma OffersOneMore(store: seq<Alert>, articles: seq<Article>, rules: Rules, clock: nat -> int, m: nat)
    requires m < |articles|
    ensures OfferAll(store, articles[..m + 1], rules, clock)
      == Offer(OfferAll(store, articles[..m], rules, clock), articles[m], rules, clock(m))
  {
    assert articles[..m + 1][..m] == articles[..m];
  }

  /** What stands before the store of turn i + 1 at turn n: as many within the week as were wanted since. */
  lemma {:induction false} NewerEntries(
      store: seq<Alert>, articles: seq<Article>, rules: Rules, clock: nat -> int, i: nat, n: nat, cutoff: int)
    returns (newer: seq<Alert>)
    requires i < n <= |articles| && !OfferAll(store, articles[..n], rules, clock).raised
    ensures OfferAll(store, articles[..n], rules, clock).store
      == newer + OfferAll(store, articles[..i + 1], rules, clock).store
    ensures |Recent(newer, cutoff)| == |LaterRecent(store, articles, rules, clock, i, n, cutoff)|
    decreases n
  {
    if n == i + 1 {
      newer := [];
      assert LaterRecent(store, articles, rules, clock, i, n, cutoff) == {};
      hide OfferAll;
    } else {
      hide OfferAll, Offer, LaterRecent, Recent, Wanted;
      var m := n - 1;
      var base := OfferAll(store, articles[..i + 1], rules, clock).store;
      var before := OfferAll(store, articles[..m], rules, clock);
      OffersOneMore(store, articles, rules, clock, m);
      OfferIsOneInFront(before, articles[m], rules, clock(m));
      LaterOneMore(store, articles, rules, clock, i, m, cutoff);
      newer := NewerEntries(store, articles, rules, clock, i, m, cutoff);
      if Wanted(before.store, articles[m], rules) {
        newer := NewerOneMore(newer, ToAlert(articles[m], rules, clock(m)), base, cutoff);
      }
    }
  }

  lemma NewerOneMore(newer: seq<Alert>, x: Alert, base: seq<Alert>, cutoff: int) returns (more: seq<Alert>)
    ensures more + base == [x] + (newer + base)
    ensures |Recent(more, cutoff)| == |Recent(newer, cutoff)| + if x.timestamp >= cutoff then 1 else 0
  {
    RecentOfOneInFront(x, newer, cutoff);
    more := [x] + newer;
  }

  lemma LaterOneMore(
      store: seq<Alert>, articles: seq<Article>, rules: Rules, clock: nat -> int, i: nat, m: nat, cutoff: int)
    requires i < m < |articles|
    ensures var wanted := Wanted(OfferAll(store, articles[..m], rules, clock).store, articles[m], rules);
      var before := LaterRecent(store, articles, rules, clock, i, m, cutoff);
      LaterRecent(store, articles, rules, clock, i, m + 1, cutoff) ==
        (if wanted && RecentAt(articles, clock, m, cutoff) then before + {m} else before) && m !in before
  {
    TurnsOneMore(store, articles, rules, clock, m);
    hide OfferAll, Wanted, RecentAt;
  }

  /**
   * An article wanted at its turn and dated within the week is in the store after a merge that does not raise,
   * under its URL, its cleaned title and its date, exactly if fewer than 500 later ones were wanted and are
   * within the week, too.
   */
  lemma WantedArticleIsKeptExactly(
      store: seq<Alert>, articles: seq<Article>, rules: Rules, clock: nat -> int, i: nat)
    requires Distinct(store) && !OfferAll(store, articles, rules, clock).raised
    requires i < |articles| && i in WantedTurns(store, articles, rules, clock, |articles|)
    requires RecentAt(articles, clock, i, clock(|articles|) - WEEK)
    ensures var n, cutoff := |articles|, clock(|articles|) - WEEK;
      var alert := Alert(rules.clean(articles[i].title), articles[i].url, DateOf(articles[i], clock(i)));
      alert in Merged(store, articles, rules, clock).store <==>
        |LaterRecent(store, articles, rules, clock, i, n, cutoff)| < CAPACITY
  {
    hide OfferAll, LaterRecent, WantedTurns, Recent, Pruned, Distinct;
    var n, cutoff := |articles|, clock(|articles|) - WEEK;
    assert articles[..n] == articles;
    var older := OfferAll(store, articles[..i], rules, clock).store;
    AddedAtItsTurn(store, articles, rules, clock, i);
    OffersKeepDistinct(store, articles, rules, clock);
    var newer := NewerEntries(store, articles, rules, clock, i, n, cutoff);
    InTheMiddle(newer, ToAlert(articles[i], rules, clock(i)), older, clock(n));
  }

  /** An entry within the week survives pruning exactly if fewer than 500 such ones stand before it. */
  lemma InTheMiddle(newer: seq<Alert>, x: Alert, older: seq<Alert>, now: int)
    requires Distinct(newer + ([x] + older)) && x.timestamp >= now - WEEK
    ensures x in Pruned(newer + ([x] + older), now) <==> |Recent(newer, now - WEEK)| < CAPACITY
  {
    var cutoff, k := now - WEEK, |Recent(newer, now - WEEK)|;
    RecentSum(newer, [x] + older, cutoff);
    RecentOfOneInFront(x, older, cutoff);
    RecentIsExact(newer + ([x] + older), cutoff);
    var recent := Recent(newer + ([x] + older), cutoff);
    hide Recent;
    assert recent == Recent(newer, cutoff) + ([x] + Recent(older, cutoff));
    assert recent[k] == x;
    OnceInAPrefix(recent, k);
  }

  lemma OnceInAPrefix(store: seq<Alert>, k: nat)
    requires Distinct(store) && k < |store|
    ensures store[k] in (if |store| > CAPACITY then store[..CAPACITY] else store)
      <==> k < CAPACITY || |store| <= CAPACITY
  {
    assert forall i :: 0 <= i < |store| && i != k ==> store[i].url != store[k].url;
    if |store| > CAPACITY {
      assert forall i :: 0 <= i < CAPACITY ==> store[..CAPACITY][i] == store[i];
    }
  }

  lemma AddedAtItsTurn(store: seq<Alert>, articles: seq<Article>, rules: Rules, clock: nat -> int, i: nat)
    requires i in WantedTurns(store, articles, rules, clock, |articles|) && !articles[i].published.Unreadable?
    requires !OfferAll(store, articles, rules, clock).raised
    ensures OfferAll(store, articles[..i + 1], rules, clock).store
      == [ToAlert(articles[i], rules, clock(i))] + OfferAll(store, articles[..i], rules, clock).store
  {
    assert articles[..i + 1][..i] == articles[..i];
    if OfferAll(store, articles[..i], rules, clock).raised { RaisedStaysRaised(store, articles, rules, clock, i); }
  }

  /** One call: its articles and its clock. */
  datatype Batch = Batch(articles: seq<Article>, clock: nat -> int)

  function RunMerges(store: seq<Alert>, batches: seq<Batch>, rules: Rules): seq<Alert> {
    if batches == [] then store
    else
      var n := |batches| - 1;
      Merged(RunMerges(store, batches[..n], rules), batches[n].articles, rules, batches[n].clock).store
  }

  /**
   * From the empty store, after every sequence of merges: distinct, and within the bounds exactly if the last merge
   * raised nowhere or had nothing to prune where it first did.
   */
  lemma {:induction false} RunKeepsTheStore(batches: seq<Batch>, rules: Rules)
    ensures Distinct(RunMerges([], batches, rules))
    ensures batches != [] ==>
      var n := |batches| - 1;
      var b, before := batches[n], RunMerges([], batches[..n], rules);
      var cutoff := b.clock(|b.articles|) - WEEK;
      Tidy(RunMerges([], batches, rules), cutoff) <==>
        forall i :: RaisesFirstAt(before, b.articles, rules, b.clock, i) ==>
          NothingToPrune(before, b.articles, rules, b.clock, i, cutoff)
  {
    if batches != [] {
      var n := |batches| - 1;
      RunKeepsTheStore(batches[..n], rules);
      MergeKeepsTheStore(RunMerges([], batches[..n], rules), batches[n].articles, rules, batches[n].clock);
      MergeIsTidyExactly(RunMerges([], batches[..n], rules), batches[n].articles, rules, batches[n].clock);
      hide Tidy, RaisesFirstAt, NothingToPrune, Merged, Distinct;
    }
  }

  // ---- Merges that raise ----------------------------------------------------------------------

  /** The i-th article is wanted when its turn comes, and its date is unreadable. */
  ghost predicate RaisesAt(store: seq<Alert>, articles: seq<Article>, rules: Rules, clock: nat -> int, i: nat)
    requires i < |articles|
  {
    articles[i].published.Unreadable? && Wanted(OfferAll(store, articles[..i], rules, clock).store, articles[i], rules)
  }

  lemma {:induction false} RaisesExactlyAtAnUnreadableDate(
      store: seq<Alert>, articles: seq<Article>, rules: Rules, clock: nat -> int)
    ensures OfferAll(store, articles, rules, clock).raised <==>
      exists i :: 0 <= i < |articles| && RaisesAt(store, articles, rules, clock, i)
  {
    if articles != [] {
      var n := |articles| - 1;
      RaisesExactlyAtAnUnreadableDate(store, articles[..n], rules, clock);
      forall i | 0 <= i < n
        ensures RaisesAt(store, articles[..n], rules, clock, i) <==> RaisesAt(store, articles, rules, clock, i)
      {
        assert articles[..n][..i] == articles[..i];
      }
      var p := OfferAll(store, articles[..n], rules, clock);
      assert OfferAll(store, articles, rules, clock).raised <==> p.raised || RaisesAt(store, articles, rules, clock, n);
      hide RaisesAt, OfferAll;
      if i :| 0 <= i < n && RaisesAt(store, articles[..n], rules, clock, i) {
        assert RaisesAt(store, articles, rules, clock, i);
      }
    }
  }

  /** It keeps every old entry, however old, on top of any size: only new ones are put in front. */
  lemma {:induction false} RaisingMergeDropsNothing(
      store: seq<Alert>, articles: seq<Article>, rules: Rules, clock: nat -> int)
    ensures var p := OfferAll(store, articles, rules, clock);
      |p.store| == |store| + p.added && p.store[p.added..] == store
  {
    if articles != [] {
      var n := |articles| - 1;
      RaisingMergeDropsNothing(store, articles[..n], rules, clock);
    }
  }

  /** So an unreadable date behind one good article takes a full store over its capacity. */
  lemma RaisingMergeOverfills(store: seq<Alert>, good: Article, bad: Article, rules: Rules, clock: nat -> int)
    requires |store| == CAPACITY && Wanted(store, good, rules) && !good.published.Unreadable?
    requires Wanted([ToAlert(good, rules, clock(0))] + store, bad, rules) && bad.published.Unreadable?
    ensures var m := Merged(store, [good, bad], rules, clock);
      m.raised && |m.store| == CAPACITY + 1 && !Tidy(m.store, clock(2) - WEEK)
  {
    assert [good, bad][..1] == [good] && [good][..0] == [];
    assert OfferAll(store, [good], rules, clock) == Progress([ToAlert(good, rules, clock(0))] + store, 1, false);
  }
}
