/** Merging stored and virtual calendar events: one event per key, the best one. */
module CalendarEvents {
  import opened Wrappers

  /** The fields deduplication looks at; an empty text stands for a missing one. */
  datatype Event = Event(id: string, source: string, sourceId: string, start: string, title: string, readOnly: bool)

  function Source(e: Event): string {
    if e.source == "" then "manual" else e.source
  }

  /** The four fields joined by bars. */
  function Key(e: Event): string {
    Source(e) + ['|'] + (e.sourceId + ['|'] + (e.start + ['|'] + e.title))
  }

  function Score(e: Event): nat {
    (if e.readOnly then 1 else 0) + (if "scheduled-" <= e.id then 2 else 0)
  }

  function Bars(s: string): nat {
    if s == [] then 0 else (if s[0] == '|' then 1 else 0) + Bars(s[1..])
  }

  /** A missing source counts as "manual". */
  predicate SameFields(a: Event, b: Event) {
    && (a.source == b.source || (a.source in {"", "manual"} && b.source in {"", "manual"}))
    && a.sourceId == b.sourceId && a.start == b.start && a.title == b.title
  }

  predicate SameBars(a: Event, b: Event) {
    Bars(Source(a)) == Bars(Source(b)) && Bars(a.sourceId) == Bars(b.sourceId) && Bars(a.start) == Bars(b.start)
  }

  /** Texts that go on with a bar after as many bars as one another are cut at the same place. */
  lemma {:induction false} SamePrefix(p: string, q: string, x: string, y: string)
    requires Bars(p) == Bars(q) && p + ['|'] + x == q + ['|'] + y
    ensures p == q && x == y
    decreases |p|
  {
    var s, t := p + ['|'] + x, q + ['|'] + y;
    assert s[0] == (if p == [] then '|' else p[0]) && t[0] == (if q == [] then '|' else q[0]);
    if p == [] {
      assert q == [] && s[1..] == x && t[1..] == y;
    } else {
      assert q != [] && s[1..] == p[1..] + ['|'] + x && t[1..] == q[1..] + ['|'] + y;
      SamePrefix(p[1..], q[1..], x, y);
    }
  }

  /** Events with one key have the same four fields exactly when their sources, their source ids and
      their starts hold as many bars. */
  lemma KeyIdentifiesIff(a: Event, b: Event)
    requires Key(a) == Key(b)
    ensures SameFields(a, b) <==> SameBars(a, b)
  {
    if SameBars(a, b) {
      SamePrefix(Source(a), Source(b), a.sourceId + ['|'] + (a.start + ['|'] + a.title),
                 b.sourceId + ['|'] + (b.start + ['|'] + b.title));
      SamePrefix(a.sourceId, b.sourceId, a.start + ['|'] + a.title, b.start + ['|'] + b.title);
      SamePrefix(a.start, b.start, a.title, b.title);
    }
  }

  lemma {:induction false} NoBars(s: string)
    ensures '|' !in s <==> Bars(s) == 0
  {
    if s != [] {
      NoBars(s[1..]);
      assert s == [s[0]] + s[1..];
    }
  }

  /** So without bars in the source, its id and the start, the key stands for the four fields. */
  lemma {:induction false} KeyIdentifies(a: Event, b: Event)
    requires '|' !in Source(a) && '|' !in a.sourceId && '|' !in a.start
    requires '|' !in Source(b) && '|' !in b.sourceId && '|' !in b.start
    ensures Key(a) == Key(b) <==> SameFields(a, b)
  {
    NoBars(Source(a));
    NoBars(a.sourceId);
    NoBars(a.start);
    NoBars(Source(b));
    NoBars(b.sourceId);
    NoBars(b.start);
    if Key(a) == Key(b) {
      KeyIdentifiesIff(a, b);
    }
  }

  // ----- What deduplication means -----

  /** How events are keyed and scored; what follows holds of every such ranking. */
  datatype Ranking = Ranking(key: Event -> string, score: Event -> nat)

  const OCCURRENCES := Ranking(e => Key(e), e => Score(e))

  /** The better of two events with one key: the later one unless it scores less. */
  function Better(r: Ranking, a: Option<Event>, b: Option<Event>): Option<Event> {
    if a.None? then b
    else if b.None? then a
    else if r.score(b.value) >= r.score(a.value) then b else a
  }

  /** The last of the highest-scoring events with key k. */
  function Best(r: Ranking, events: seq<Event>, k: string): (best: Option<Event>)
    ensures best.Some? <==> exists j :: 0 <= j < |events| && r.key(events[j]) == k
    ensures best.Some? ==> r.key(best.value) == k
  {
    if events == [] then None
    else
      var last := events[|events| - 1];
      Better(r, Best(r, events[..|events| - 1], k), if r.key(last) == k then Some(last) else None)
  }

  /** The distinct keys in the order they first appear. */
  function Keys(r: Ranking, events: seq<Event>): (keys: seq<string>)
    ensures forall k :: k in keys <==> exists j :: 0 <= j < |events| && r.key(events[j]) == k
    ensures forall i, j :: 0 <= i < j < |keys| ==> keys[i] != keys[j]
  {
    if events == [] then []
    else
      var front, key := Keys(r, events[..|events| - 1]), r.key(events[|events| - 1]);
      if key in front then front else front + [key]
  }

  function Dedupe(r: Ranking, events: seq<Event>): (out: seq<Event>)
    ensures |out| == |Keys(r, events)|
    ensures forall i :: 0 <= i < |out| ==> Best(r, events, Keys(r, events)[i]) == Some(out[i])
    ensures forall i :: 0 <= i < |out| ==> r.key(out[i]) == Keys(r, events)[i]
  {
    var keys := Keys(r, events);
    assert forall i :: 0 <= i < |keys| ==> keys[i] in keys && Best(r, events, keys[i]).Some?;
    seq(|keys|, i requires 0 <= i < |keys| => Best(r, events, keys[i]).value)
  }

  lemma OneMore(r: Ranking, events: seq<Event>, i: nat)
    requires i < |events|
    ensures
      var front, e := events[..i], events[i];
      && Keys(r, events[..i + 1]) ==
           (if r.key(e) in Keys(r, front) then Keys(r, front) else Keys(r, front) + [r.key(e)])
      && (forall k :: k != r.key(e) ==> Best(r, events[..i + 1], k) == Best(r, front, k))
      && Best(r, events[..i + 1], r.key(e)) == Better(r, Best(r, front, r.key(e)), Some(e))
  {
    assert events[..i + 1][..i] == events[..i];
  }

  /** The keys of a Map, in insertion order, and its entries, after the first events. */
  ghost predicate Tracks(r: Ranking, events: seq<Event>, order: seq<string>, byKey: map<string, Event>) {
    && order == Keys(r, events)
    && (forall k :: k in byKey <==> k in order)
    && (forall k :: k in byKey ==> Best(r, events, k) == Some(byKey[k]))
  }

  lemma TracksNext(r: Ranking, events: seq<Event>, i: nat, order: seq<string>, byKey: map<string, Event>)
    requires i < |events| && Tracks(r, events[..i], order, byKey)
    ensures
      var e, k := events[i], r.key(events[i]);
      Tracks(r, events[..i + 1], if k in byKey then order else order + [k],
             if k in byKey && r.score(e) < r.score(byKey[k]) then byKey else byKey[k := e])
  {
    OneMore(r, events, i);
  }

  /** dedupeEvents: a JavaScript Map keeps its keys in order of first insertion. */
  method DedupeEvents(events: seq<Event>, r: Ranking := OCCURRENCES) returns (out: seq<Event>)
    ensures out == Dedupe(r, events)
  {
    var order: seq<string> := [];
    var byKey: map<string, Event> := map[];
    for i := 0 to |events|
      invariant Tracks(r, events[..i], order, byKey)
    {
      var event := events[i];
      var key := r.key(event);
      TracksNext(r, events, i, order, byKey);
      if key !in byKey {
        order := order + [key];
        byKey := byKey[key := event];
      } else if r.score(event) >= r.score(byKey[key]) {
        byKey := byKey[key := event];
      }
    }
    assert events[..|events|] == events;
    assert forall i :: 0 <= i < |order| ==> order[i] in order;
    out := seq(|order|, i requires 0 <= i < |order| => byKey[order[i]]);
  }

  // ----- What it guarantees -----

  predicate IsLastMaximal(r: Ranking, events: seq<Event>, k: string, j: int) {
    && 0 <= j < |events| && r.key(events[j]) == k
    && forall x :: 0 <= x < |events| && r.key(events[x]) == k ==>
         r.score(events[x]) <= r.score(events[j]) && (x > j ==> r.score(events[x]) < r.score(events[j]))
  }

  lemma MaximalKept(r: Ranking, front: seq<Event>, last: Event, k: string, j: int)
    requires IsLastMaximal(r, front, k, j)
    requires r.key(last) == k ==> r.score(last) < r.score(front[j])
    ensures IsLastMaximal(r, front + [last], k, j)
  {
    assert forall x :: 0 <= x < |front| ==> (front + [last])[x] == front[x];
  }

  lemma MaximalReplaced(r: Ranking, front: seq<Event>, last: Event, k: string, j: int)
    requires r.key(last) == k
    requires IsLastMaximal(r, front, k, j) && r.score(front[j]) <= r.score(last)
    ensures IsLastMaximal(r, front + [last], k, |front|)
  {
    assert forall x :: 0 <= x < |front| ==> (front + [last])[x] == front[x];
  }

  lemma MaximalFirst(r: Ranking, front: seq<Event>, last: Event, k: string)
    requires r.key(last) == k && Best(r, front, k).None?
    ensures IsLastMaximal(r, front + [last], k, |front|)
  {
    assert forall x :: 0 <= x < |front| ==> (front + [last])[x] == front[x];
  }

  /** Best is an event of the list with the key that no event with the key outscores, nor one after
      it equals. */
  lemma {:induction false} BestIsLastMaximal(r: Ranking, events: seq<Event>, k: string) returns (j: int)
    requires Best(r, events, k).Some?
    ensures IsLastMaximal(r, events, k, j) && events[j] == Best(r, events, k).value
  {
    var front, last := events[..|events| - 1], events[|events| - 1];
    assert events == front + [last];
    if Best(r, front, k).None? {
      MaximalFirst(r, front, last, k);
      j := |front|;
    } else {
      j := BestIsLastMaximal(r, front, k);
      if r.key(last) == k && r.score(last) >= r.score(front[j]) {
        MaximalReplaced(r, front, last, k, j);
        j := |front|;
      } else {
        MaximalKept(r, front, last, k, j);
      }
    }
  }

  /** Position of the first event with key k. */
  function FirstAt(r: Ranking, events: seq<Event>, k: string): (j: nat)
    ensures j <= |events|
    ensures j < |events| ==> r.key(events[j]) == k
    ensures forall x :: 0 <= x < j ==> r.key(events[x]) != k
  {
    if events == [] then 0
    else
      var j := FirstAt(r, events[..|events| - 1], k);
      if j < |events| - 1 then j
      else if r.key(events[|events| - 1]) == k then |events| - 1 else |events|
  }

  lemma {:induction false} KeysInOrder(r: Ranking, events: seq<Event>, i: nat, j: nat)
    requires i < j < |Keys(r, events)|
    ensures FirstAt(r, events, Keys(r, events)[i]) < FirstAt(r, events, Keys(r, events)[j]) < |events|
    decreases |events|
  {
    var n := |events| - 1;
    var front := events[..n];
    assert Keys(r, events)[i] in Keys(r, front);
    if j < |Keys(r, front)| {
      KeysInOrder(r, front, i, j);
    } else {
      var k := Keys(r, events)[i];
      assert k in Keys(r, front);
      var x :| 0 <= x < |front| && r.key(front[x]) == k;
      assert FirstAt(r, front, k) <= x;
    }
  }

  /** The survivors stand in the order in which their keys first appear, one per key. */
  lemma SurvivorsInOrder(r: Ranking, events: seq<Event>, i: nat, j: nat)
    requires i < j < |Dedupe(r, events)|
    ensures
      var a, b := Dedupe(r, events)[i], Dedupe(r, events)[j];
      r.key(a) != r.key(b) && FirstAt(r, events, r.key(a)) < FirstAt(r, events, r.key(b)) < |events|
  {
    KeysInOrder(r, events, i, j);
  }

  /** No key is lost. */
  lemma EveryKeySurvives(r: Ranking, events: seq<Event>, n: nat) returns (i: nat)
    requires n < |events|
    ensures i < |Dedupe(r, events)| && r.key(Dedupe(r, events)[i]) == r.key(events[n])
  {
    assert r.key(events[n]) in Keys(r, events);
    i :| i < |Keys(r, events)| && Keys(r, events)[i] == r.key(events[n]);
  }

  /** Each survivor is the last of the best-scoring events with its key. */
  lemma SurvivorIsBest(r: Ranking, events: seq<Event>, i: nat) returns (j: int)
    requires i < |Dedupe(r, events)|
    ensures
      var e := Dedupe(r, events)[i];
      IsLastMaximal(r, events, r.key(e), j) && events[j] == e
  {
    j := BestIsLastMaximal(r, events, Keys(r, events)[i]);
  }

  predicate Scheduled(e: Event) {
    |e.id| >= 10 && e.id[..10] == "scheduled-"
  }

  /** e is kept rather than x: what is expanded from a schedule before what is not, and else what is
      read-only before what is not. */
  predicate Preferred(e: Event, x: Event) {
    (Scheduled(e) && !Scheduled(x)) || (Scheduled(e) == Scheduled(x) && e.readOnly && !x.readOnly)
  }

  lemma ScoreOrders(a: Event, b: Event)
    ensures Score(a) > Score(b) <==> Preferred(a, b)
  {
    assert "scheduled-" <= a.id <==> Scheduled(a);
    assert "scheduled-" <= b.id <==> Scheduled(b);
  }

  /** Of the events of one key, one is kept that no other is preferred to, and of those the last. */
  lemma OccurrenceKept(events: seq<Event>, i: nat, x: nat) returns (j: int)
    requires i < |Dedupe(OCCURRENCES, events)| && x < |events|
    requires Key(events[x]) == Key(Dedupe(OCCURRENCES, events)[i])
    ensures 0 <= j < |events| && events[j] == Dedupe(OCCURRENCES, events)[i]
    ensures !Preferred(events[x], events[j])
    ensures x > j ==> Preferred(events[j], events[x])
  {
    hide Dedupe;
    j := SurvivorIsBest(OCCURRENCES, events, i);
    ScoreOrders(events[x], events[j]);
    ScoreOrders(events[j], events[x]);
  }

  lemma {:induction false} BestAppend(r: Ranking, a: seq<Event>, b: seq<Event>, k: string)
    ensures Best(r, a + b, k) == Better(r, Best(r, a, k), Best(r, b, k))
    decreases |b|
  {
    if b == [] {
      assert a + b == a;
    } else {
      assert (a + b)[..|a + b| - 1] == a + b[..|b| - 1];
      BestAppend(r, a, b[..|b| - 1], k);
    }
  }

  function AddNew(keys: seq<string>, more: seq<string>): seq<string> {
    if more == [] then keys
    else
      var front, k := AddNew(keys, more[..|more| - 1]), more[|more| - 1];
      if k in front then front else front + [k]
  }

  lemma {:induction false} AddNewMembers(keys: seq<string>, more: seq<string>, k: string)
    ensures k in AddNew(keys, more) <==> k in keys || k in more
  {
    if more != [] {
      AddNewMembers(keys, more[..|more| - 1], k);
      assert more == more[..|more| - 1] + [more[|more| - 1]];
    }
  }

  lemma {:induction false} KeysAppend(r: Ranking, a: seq<Event>, b: seq<Event>)
    ensures Keys(r, a + b) == AddNew(Keys(r, a), Keys(r, b))
    decreases |b|
  {
    if b == [] {
      assert a + b == a;
    } else {
      var front, last := b[..|b| - 1], r.key(b[|b| - 1]);
      assert (a + b)[..|a + b| - 1] == a + front;
      KeysAppend(r, a, front);
      AddNewMembers(Keys(r, a), Keys(r, front), last);
      assert (Keys(r, front) + [last])[..|Keys(r, front)|] == Keys(r, front);
    }
  }

  /** Deduplicated events have the same keys, each with the same best event. */
  lemma {:induction false} DedupedKeys(r: Ranking, events: seq<Event>)
    ensures Keys(r, Dedupe(r, events)) == Keys(r, events)
  {
    KeysOfPrefix(r, events, |Keys(r, events)|);
    assert Dedupe(r, events)[..|Keys(r, events)|] == Dedupe(r, events);
    assert Keys(r, events)[..|Keys(r, events)|] == Keys(r, events);
  }

  lemma {:induction false} KeysOfPrefix(r: Ranking, events: seq<Event>, n: nat)
    requires n <= |Keys(r, events)|
    ensures Keys(r, Dedupe(r, events)[..n]) == Keys(r, events)[..n]
  {
    if n > 0 {
      KeysOfPrefix(r, events, n - 1);
      var out, keys := Dedupe(r, events), Keys(r, events);
      assert out[..n][..n - 1] == out[..n - 1];
      assert r.key(out[n - 1]) == keys[n - 1];
      assert keys[n - 1] !in keys[..n - 1];
      assert keys[..n] == keys[..n - 1] + [keys[n - 1]];
    }
  }

  lemma BestMore(r: Ranking, events: seq<Event>, n: nat, k: string)
    requires n < |events|
    ensures Best(r, events[..n + 1], k) ==
            if r.key(events[n]) == k then Better(r, Best(r, events[..n], k), Some(events[n]))
            else Best(r, events[..n], k)
  {
    assert events[..n + 1][..n] == events[..n];
  }

  lemma KeyIsNew(keys: seq<string>, n: nat, k: string)
    requires n < |keys| && forall i, j :: 0 <= i < j < |keys| ==> keys[i] != keys[j]
    ensures k in keys[..n + 1] <==> k in keys[..n] || k == keys[n]
    ensures keys[n] !in keys[..n]
  {
    assert keys[..n + 1] == keys[..n] + [keys[n]];
  }

  lemma {:induction false} BestOfPrefix(r: Ranking, events: seq<Event>, n: nat, k: string)
    requires n <= |Keys(r, events)|
    ensures Best(r, Dedupe(r, events)[..n], k) == if k in Keys(r, events)[..n] then Best(r, events, k) else None
  {
    hide Dedupe, Keys;
    var out, keys := Dedupe(r, events), Keys(r, events);
    if n == 0 {
      assert out[..n] == [];
    } else {
      hide Best;
      BestOfPrefix(r, events, n - 1, k);
      BestMore(r, out, n - 1, k);
      KeyIsNew(keys, n - 1, k);
      assert r.key(out[n - 1]) == keys[n - 1] && Best(r, events, keys[n - 1]) == Some(out[n - 1]);
    }
  }

  lemma DedupedBest(r: Ranking, events: seq<Event>, k: string)
    ensures Best(r, Dedupe(r, events), k) == Best(r, events, k)
  {
    BestOfPrefix(r, events, |Keys(r, events)|, k);
    assert Dedupe(r, events)[..|Keys(r, events)|] == Dedupe(r, events);
    assert Keys(r, events)[..|Keys(r, events)|] == Keys(r, events);
    assert k in Keys(r, events) <==> Best(r, events, k).Some?;
  }

  /** Deduplicating the parts first changes nothing. */
  lemma DedupeMerges(r: Ranking, a: seq<Event>, b: seq<Event>)
    ensures Dedupe(r, a + b) == Dedupe(r, Dedupe(r, a) + Dedupe(r, b))
  {
    var x, y := a + b, Dedupe(r, a) + Dedupe(r, b);
    KeysAppend(r, a, b);
    KeysAppend(r, Dedupe(r, a), Dedupe(r, b));
    DedupedKeys(r, a);
    DedupedKeys(r, b);
    forall i | 0 <= i < |Keys(r, x)| ensures Dedupe(r, x)[i] == Dedupe(r, y)[i] {
      var k := Keys(r, x)[i];
      BestAppend(r, a, b, k);
      BestAppend(r, Dedupe(r, a), Dedupe(r, b), k);
      DedupedBest(r, a, k);
      DedupedBest(r, b, k);
    }
  }

  /** Deduplicating twice changes nothing. */
  lemma DedupeIdempotent(r: Ranking, events: seq<Event>)
    ensures Dedupe(r, Dedupe(r, events)) == Dedupe(r, events)
  {
    DedupeMerges(r, events, []);
    assert events + [] == events && Dedupe(r, []) == [];
    assert Dedupe(r, events) + [] == Dedupe(r, events);
  }

  lemma JustOne(r: Ranking, a: Event)
    ensures Keys(r, [a]) == [r.key(a)] && Best(r, [a], r.key(a)) == Some(a)
  {
    assert [a][..0] == [];
  }

  lemma SameKeyMore(r: Ranking, front: seq<Event>, e: Event)
    requires Keys(r, front) == [r.key(e)]
    ensures Keys(r, front + [e]) == [r.key(e)]
    ensures Best(r, front + [e], r.key(e)) == Better(r, Best(r, front, r.key(e)), Some(e))
  {
    assert (front + [e])[..|front|] == front;
  }

  /** Of two events with one key the later is kept unless it scores less. */
  lemma {:induction false} PairWithOneKey(r: Ranking, a: Event, b: Event)
    requires r.key(a) == r.key(b) && r.score(b) >= r.score(a)
    ensures Dedupe(r, [a, b]) == [b]
  {
    hide Dedupe, Keys, Best;
    JustOne(r, a);
    SameKeyMore(r, [a], b);
    assert [a] + [b] == [a, b];
    assert Keys(r, [a, b])[0] == r.key(b);
  }

  lemma BarMoves(x: string, y: string, z: string, rest: string)
    ensures (x + ['|'] + y) + ['|'] + (z + rest) == x + ['|'] + ((y + ['|'] + z) + rest)
  {
  }

  /** Two stored events of the same start and title whose sources differ; since both the source and
      its id are free texts, they can share a key, and then one of the two is dropped. */
  lemma {:induction false} KeysCanCollide(start: string, title: string) returns (a: Event, b: Event)
    ensures a.start == b.start == start && a.title == b.title == title
    ensures a.source != b.source && a.sourceId != b.sourceId && Key(a) == Key(b)
    ensures Dedupe(OCCURRENCES, [a, b]) == [b]
  {
    hide Dedupe;
    a := Event("1", "agent" + ['|'] + "x", "y", start, title, false);
    b := Event("2", "agent", "x" + ['|'] + "y", start, title, false);
    BarMoves("agent", "x", "y", ['|'] + (start + ['|'] + title));
    PairWithOneKey(OCCURRENCES, a, b);
  }
}
