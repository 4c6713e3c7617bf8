/** ThumbConsumer: turns a batch of toggle events into one net change per
    (userId, blogId) and applies the net changes to the database.

    As written, processBatch raises RuntimeException("test") unconditionally
    before any of that, and the transaction rolls back; the net-effect
    computation and the writes after the guard are unreachable. They are modelled
    here all the same, as NetEffects, Accumulate and ThumbDatabase.ApplyBatch. */
module ThumbConsumer {
  import opened Outcomes
  import opened Text
  import opened Entities
  import opened Broker

  /** The grouping key (userId, blogId). */
  type Key = (Long, Long)

  function KeyOf(e: ThumbEvent): Key { (e.userId, e.blogId) }

  function ThumbKey(t: Thumb): Key { (t.userId, t.blogId) }

  // ---------------------------------------------------------------------------
  // Step 1 and 2: drop null payloads, group, sort each group, keep odd groups' last

  /** The payloads of the messages, nulls dropped, in message order. */
  function Payloads(messages: seq<Option<ThumbEvent>>): (r: seq<ThumbEvent>)
    ensures forall e :: e in r <==> Some(e) in messages
    ensures |r| <= |messages|
  {
    if messages == [] then []
    else (if messages[0].Some? then [messages[0].value] else []) + Payloads(messages[1..])
  }

  lemma {:induction false} PayloadsAppend(a: seq<Option<ThumbEvent>>, b: seq<Option<ThumbEvent>>)
    ensures Payloads(a + b) == Payloads(a) + Payloads(b)
  {
    if a == [] {
      assert a + b == b;
    } else {
      assert (a + b)[0] == a[0];
      assert (a + b)[1..] == a[1..] + b;
      PayloadsAppend(a[1..], b);
    }
  }

  /** The events of one key, in their order in the batch. */
  function GroupOf(events: seq<ThumbEvent>, k: Key): (g: seq<ThumbEvent>)
    ensures forall e :: e in g <==> e in events && KeyOf(e) == k
  {
    if events == [] then []
    else (if KeyOf(events[0]) == k then [events[0]] else []) + GroupOf(events[1..], k)
  }

  predicate SortedByTime(s: seq<ThumbEvent>)
  {
    forall i, j :: 0 <= i < j < |s| ==> s[i].eventTime <= s[j].eventTime
  }

  /** One step of a stable sort: e goes after every element whose time is not
      later than its own. */
  function InsertByTime(sorted: seq<ThumbEvent>, e: ThumbEvent): (r: seq<ThumbEvent>)
    ensures |r| == |sorted| + 1
    ensures r[|r| - 1] == if sorted == [] || sorted[|sorted| - 1].eventTime <= e.eventTime then e else sorted[|sorted| - 1]
  {
    if sorted == [] || sorted[|sorted| - 1].eventTime <= e.eventTime then sorted + [e]
    else InsertByTime(sorted[..|sorted| - 1], e) + [sorted[|sorted| - 1]]
  }

  lemma {:induction false} InsertByTimePermutes(sorted: seq<ThumbEvent>, e: ThumbEvent)
    ensures multiset(InsertByTime(sorted, e)) == multiset(sorted) + multiset{e}
  {
    if !(sorted == [] || sorted[|sorted| - 1].eventTime <= e.eventTime) {
      var init := sorted[..|sorted| - 1];
      assert sorted == init + [sorted[|sorted| - 1]];
      InsertByTimePermutes(init, e);
    }
  }

  lemma {:induction false} InsertByTimeSorted(sorted: seq<ThumbEvent>, e: ThumbEvent)
    requires SortedByTime(sorted)
    ensures SortedByTime(InsertByTime(sorted, e))
  {
    if !(sorted == [] || sorted[|sorted| - 1].eventTime <= e.eventTime) {
      var last := sorted[|sorted| - 1];
      var init := sorted[..|sorted| - 1];
      var front := InsertByTime(init, e);
      InsertByTimeSorted(init, e);
      InsertByTimePermutes(init, e);
      forall i | 0 <= i < |front| ensures front[i].eventTime <= last.eventTime {
        assert front[i] in multiset(front);
        if front[i] != e {
          assert front[i] in multiset(init);
          var j :| 0 <= j < |init| && init[j] == front[i];
          assert sorted[j] == init[j];
        }
      }
      var r := front + [last];
      assert forall i :: 0 <= i < |front| ==> r[i] == front[i];
    }
  }

  /** `list.sort(Comparator.comparing(ThumbEvent::getEventTime))`: a stable
      ascending sort by eventTime. */
  function SortByTime(s: seq<ThumbEvent>): (r: seq<ThumbEvent>)
    ensures |r| == |s|
  {
    if s == [] then [] else InsertByTime(SortByTime(s[..|s| - 1]), s[|s| - 1])
  }

  /** The sort returns the group's events in ascending time order. */
  lemma {:induction false} SortByTimeSortsAndPermutes(s: seq<ThumbEvent>)
    ensures SortedByTime(SortByTime(s))
    ensures multiset(SortByTime(s)) == multiset(s)
  {
    if s != [] {
      var init := s[..|s| - 1];
      assert s == init + [s[|s| - 1]];
      SortByTimeSortsAndPermutes(init);
      InsertByTimeSorted(SortByTime(init), s[|s| - 1]);
      InsertByTimePermutes(SortByTime(init), s[|s| - 1]);
    }
  }

  /** Reference definition of the survivor: the index of the event with the
      greatest time, the last such in batch order. */
  function LastLatestIndex(s: seq<ThumbEvent>): (j: nat)
    requires s != []
    ensures j < |s|
    ensures forall i :: 0 <= i < |s| ==> s[i].eventTime <= s[j].eventTime
    ensures forall i :: j < i < |s| ==> s[i].eventTime < s[j].eventTime
  {
    if |s| == 1 then 0
    else
      var j := LastLatestIndex(s[..|s| - 1]);
      if s[j].eventTime <= s[|s| - 1].eventTime then |s| - 1 else j
  }

  /** The last element after the stable sort is the reference survivor. */
  lemma {:induction false} LastOfSortIsLastLatest(s: seq<ThumbEvent>)
    requires s != []
    ensures SortByTime(s)[|s| - 1] == s[LastLatestIndex(s)]
  {
    var init := s[..|s| - 1];
    if init != [] {
      LastOfSortIsLastLatest(init);
    }
  }

  /** A group of even size nets to nothing; a group of odd size nets to the last
      event after the sort. */
  function Survivor(g: seq<ThumbEvent>): Option<ThumbEvent>
  {
    if |g| % 2 == 0 then None else Some(SortByTime(g)[|g| - 1])
  }

  function KeysOf(events: seq<ThumbEvent>): set<Key>
  {
    set e | e in events :: KeyOf(e)
  }

  /** `latestEvents`: one entry per key occurring in the batch, null (None) for a
      group of even size. */
  function LatestEvents(events: seq<ThumbEvent>): map<Key, Option<ThumbEvent>>
  {
    map k | k in KeysOf(events) :: Survivor(GroupOf(events, k))
  }

  /** Steps 1 and 2 of processBatch. */
  function NetEffects(messages: seq<Option<ThumbEvent>>): map<Key, Option<ThumbEvent>>
  {
    LatestEvents(Payloads(messages))
  }

  /** An entry is the event of its own key. */
  ghost predicate Consistent(latest: map<Key, Option<ThumbEvent>>)
  {
    forall k :: k in latest && latest[k].Some? ==> KeyOf(latest[k].value) == k
  }

  /** The net effects are keyed exactly by the keys that occur in non-null
      payloads, and each surviving event belongs to its key. */
  lemma NetEffectsShape(messages: seq<Option<ThumbEvent>>)
    ensures NetEffects(messages).Keys == set m | m in messages && m.Some? :: KeyOf(m.value)
    ensures Consistent(NetEffects(messages))
  {
    var events := Payloads(messages);
    forall k | k in NetEffects(messages) && NetEffects(messages)[k].Some?
      ensures KeyOf(NetEffects(messages)[k].value) == k
    {
      var g := GroupOf(events, k);
      SortByTimeSortsAndPermutes(g);
      assert SortByTime(g)[|g| - 1] in multiset(g);
    }
  }

  /** Null payloads never contribute: dropping one changes nothing. */
  lemma NullPayloadIgnored(before: seq<Option<ThumbEvent>>, after: seq<Option<ThumbEvent>>)
    ensures NetEffects(before + [None] + after) == NetEffects(before + after)
  {
    PayloadsAppend(before + [None], after);
    PayloadsAppend(before, [None]);
    PayloadsAppend(before, after);
    assert Payloads([None]) == [];
    assert Payloads(before + [None] + after) == Payloads(before + after);
  }

  /** A key whose group has even size contributes nothing. */
  lemma EvenGroupNetsNothing(messages: seq<Option<ThumbEvent>>, k: Key)
    requires k in NetEffects(messages)
    requires |GroupOf(Payloads(messages), k)| % 2 == 0
    ensures NetEffects(messages)[k] == None
  {
  }

  /** A key whose group has odd size keeps the group's event with the greatest
      time (the last one in batch order among equal times): no event of the
      group is later. */
  lemma OddGroupKeepsLatest(messages: seq<Option<ThumbEvent>>, k: Key)
    requires k in NetEffects(messages)
    requires |GroupOf(Payloads(messages), k)| % 2 == 1
    ensures var g := GroupOf(Payloads(messages), k);
            && NetEffects(messages)[k] == Some(g[LastLatestIndex(g)])
            && forall e :: e in g ==> e.eventTime <= NetEffects(messages)[k].value.eventTime
  {
    var g := GroupOf(Payloads(messages), k);
    LastOfSortIsLastLatest(g);
  }

  // ---------------------------------------------------------------------------
  // The parity law: the surviving event accounts for the whole group

  function Delta(t: EventType): int { if t == INCR then 1 else -1 }

  /** The sum of +1 per INCR and -1 per DECR. */
  function RawDelta(s: seq<ThumbEvent>): int
  {
    if s == [] then 0 else RawDelta(s[..|s| - 1]) + Delta(s[|s| - 1].kind)
  }

  /** The change the surviving event makes. */
  function NetDelta(survivor: Option<ThumbEvent>): int
  {
    if survivor.None? then 0 else Delta(survivor.value.kind)
  }

  predicate Alternates(s: seq<ThumbEvent>)
  {
    forall i :: 0 < i < |s| ==> s[i].kind != s[i - 1].kind
  }

  lemma {:induction false} RawDeltaInsert(sorted: seq<ThumbEvent>, e: ThumbEvent)
    ensures RawDelta(InsertByTime(sorted, e)) == RawDelta(sorted) + Delta(e.kind)
  {
    if !(sorted == [] || sorted[|sorted| - 1].eventTime <= e.eventTime) {
      var init := sorted[..|sorted| - 1];
      RawDeltaInsert(init, e);
      var r := InsertByTime(init, e) + [sorted[|sorted| - 1]];
      assert r[..|r| - 1] == InsertByTime(init, e);
    } else {
      assert (sorted + [e])[..|sorted|] == sorted;
    }
  }

  lemma {:induction false} RawDeltaSort(s: seq<ThumbEvent>)
    ensures RawDelta(SortByTime(s)) == RawDelta(s)
  {
    if s != [] {
      RawDeltaSort(s[..|s| - 1]);
      RawDeltaInsert(SortByTime(s[..|s| - 1]), s[|s| - 1]);
    }
  }

  lemma {:induction false} RawDeltaAlternating(s: seq<ThumbEvent>)
    requires s != [] && Alternates(s)
    ensures RawDelta(s) == if |s| % 2 == 0 then 0 else Delta(s[|s| - 1].kind)
  {
    if |s| > 1 {
      var init := s[..|s| - 1];
      assert Alternates(init);
      RawDeltaAlternating(init);
      if |init| > 1 {
        assert init[..|init| - 1] == s[..|s| - 2];
      }
    }
  }

  /** If a key's events strictly alternate once sorted by time (as the toggle
      guard upstream ensures), the surviving event's +1/-1 equals the sum over
      the whole group: even groups sum to 0 and odd groups to the last event. */
  lemma ParityLaw(g: seq<ThumbEvent>)
    requires g != [] && Alternates(SortByTime(g))
    ensures NetDelta(Survivor(g)) == RawDelta(g)
  {
    RawDeltaSort(g);
    RawDeltaAlternating(SortByTime(g));
  }

  // ---------------------------------------------------------------------------
  // Step 3: the forEach accumulation

  predicate IsNet(latest: map<Key, Option<ThumbEvent>>, k: Key, t: EventType)
  {
    k in latest && latest[k].Some? && latest[k].value.kind == t
  }

  /** Keys among `done` whose net event has type t. */
  ghost function NetPairs(latest: map<Key, Option<ThumbEvent>>, done: set<Key>, t: EventType): set<Key>
  {
    set k | k in done && IsNet(latest, k, t)
  }

  /** Keys among `done` whose net event has type t and is on blog b. */
  ghost function NetPairsOn(latest: map<Key, Option<ThumbEvent>>, done: set<Key>, b: Long, t: EventType): set<Key>
  {
    set k | k in done && IsNet(latest, k, t) && latest[k].value.blogId == b
  }

  /** Blogs of the keys among `done` with a net event. */
  ghost function NetBlogs(latest: map<Key, Option<ThumbEvent>>, done: set<Key>): set<Long>
  {
    set k | k in done && k in latest && latest[k].Some? :: latest[k].value.blogId
  }

  function ThumbKeys(thumbs: seq<Thumb>): set<Key>
  {
    set t | t in thumbs :: ThumbKey(t)
  }

  function SeqSet(s: seq<Key>): set<Key> { set k | k in s }

  lemma NetPairsStep(latest: map<Key, Option<ThumbEvent>>, done: set<Key>, k: Key, t: EventType)
    ensures NetPairs(latest, done + {k}, t) == NetPairs(latest, done, t) + (if IsNet(latest, k, t) then {k} else {})
  {
  }

  lemma NetPairsOnStep(latest: map<Key, Option<ThumbEvent>>, done: set<Key>, k: Key, b: Long, t: EventType)
    ensures NetPairsOn(latest, done + {k}, b, t)
            == NetPairsOn(latest, done, b, t) + (if IsNet(latest, k, t) && latest[k].value.blogId == b then {k} else {})
  {
  }

  /** The emptiness of the combined deltas map of a blog that has no net key. */
  lemma NetPairsOnEmpty(latest: map<Key, Option<ThumbEvent>>, done: set<Key>, b: Long, t: EventType)
    requires b !in NetBlogs(latest, done)
    ensures NetPairsOn(latest, done, b, t) == {}
  {
  }

  function Bump(countMap: map<Long, int>, b: Long, d: int): map<Long, int>
  {
    countMap[b := (if b in countMap then countMap[b] else 0) + d]
  }

  ghost predicate CountInv(latest: map<Key, Option<ThumbEvent>>, done: set<Key>, countMap: map<Long, int>)
  {
    && countMap.Keys == NetBlogs(latest, done)
    && forall b :: b in countMap ==>
         countMap[b] == |NetPairsOn(latest, done, b, INCR)| - |NetPairsOn(latest, done, b, DECR)|
  }

  ghost predicate RowsInv(latest: map<Key, Option<ThumbEvent>>, done: set<Key>, thumbs: seq<Thumb>)
  {
    ThumbKeys(thumbs) == NetPairs(latest, done, INCR) && |thumbs| == |NetPairs(latest, done, INCR)|
  }

  ghost predicate RemovalsInv(latest: map<Key, Option<ThumbEvent>>, done: set<Key>, removals: seq<Key>)
  {
    SeqSet(removals) == NetPairs(latest, done, DECR) && |removals| == |NetPairs(latest, done, DECR)|
  }

  lemma NetBlogsStep(latest: map<Key, Option<ThumbEvent>>, done: set<Key>, k: Key)
    requires k in latest
    ensures NetBlogs(latest, done + {k}) == NetBlogs(latest, done) + (if latest[k].Some? then {latest[k].value.blogId} else {})
  {
  }

  lemma CountStep(latest: map<Key, Option<ThumbEvent>>, done: set<Key>, countMap: map<Long, int>, k: Key)
    requires k in latest && k !in done && CountInv(latest, done, countMap)
    ensures CountInv(latest, done + {k},
                     if latest[k].Some? then Bump(countMap, latest[k].value.blogId, Delta(latest[k].value.kind)) else countMap)
  {
    var next := if latest[k].Some? then Bump(countMap, latest[k].value.blogId, Delta(latest[k].value.kind)) else countMap;
    NetBlogsStep(latest, done, k);
    forall b | b in next
      ensures next[b] == |NetPairsOn(latest, done + {k}, b, INCR)| - |NetPairsOn(latest, done + {k}, b, DECR)|
    {
      CountStepAt(latest, done, countMap, k, b);
    }
  }

  lemma CountStepAt(latest: map<Key, Option<ThumbEvent>>, done: set<Key>, countMap: map<Long, int>, k: Key, b: Long)
    requires k in latest && k !in done && CountInv(latest, done, countMap)
    requires b in (if latest[k].Some? then Bump(countMap, latest[k].value.blogId, Delta(latest[k].value.kind)) else countMap)
    ensures var next := if latest[k].Some? then Bump(countMap, latest[k].value.blogId, Delta(latest[k].value.kind)) else countMap;
            next[b] == |NetPairsOn(latest, done + {k}, b, INCR)| - |NetPairsOn(latest, done + {k}, b, DECR)|
  {
    NetPairsOnStep(latest, done, k, b, INCR);
    NetPairsOnStep(latest, done, k, b, DECR);
    if b !in countMap {
      NetPairsOnEmpty(latest, done, b, INCR);
      NetPairsOnEmpty(latest, done, b, DECR);
    }
  }

  lemma RowsStep(latest: map<Key, Option<ThumbEvent>>, done: set<Key>, thumbs: seq<Thumb>, k: Key)
    requires k !in done && RowsInv(latest, done, thumbs)
    ensures RowsInv(latest, done + {k}, if IsNet(latest, k, INCR) then thumbs + [Thumb(k.0, k.1)] else thumbs)
  {
    NetPairsStep(latest, done, k, INCR);
    if IsNet(latest, k, INCR) {
      var t := Thumb(k.0, k.1);
      assert ThumbKey(t) == k;
      ThumbKeysAppend(thumbs, t);
    }
  }

  lemma ThumbKeysAppend(thumbs: seq<Thumb>, t: Thumb)
    ensures ThumbKeys(thumbs + [t]) == ThumbKeys(thumbs) + {ThumbKey(t)}
  {
    assert forall x :: x in thumbs + [t] <==> x in thumbs || x == t;
  }

  lemma RemovalsStep(latest: map<Key, Option<ThumbEvent>>, done: set<Key>, removals: seq<Key>, k: Key)
    requires k !in done && RemovalsInv(latest, done, removals)
    ensures RemovalsInv(latest, done + {k}, if IsNet(latest, k, DECR) then removals + [k] else removals)
  {
    NetPairsStep(latest, done, k, DECR);
    if IsNet(latest, k, DECR) {
      assert SeqSet(removals + [k]) == SeqSet(removals) + {k};
    }
  }

  /** countMap, thumbs, the disjuncts of the delete predicate and needRemove
      after `latestEvents.forEach`, whose iteration order is unspecified:
      countMap[b] is (net INCR keys on b) - (net DECR keys on b) over the blogs
      with a net key (a sum of 0 stays a key), every net INCR key gives exactly
      one row, every net DECR key exactly one disjunct, and no key gives both. */
  method Accumulate(latest: map<Key, Option<ThumbEvent>>)
    returns (countMap: map<Long, int>, thumbs: seq<Thumb>, removals: seq<Key>, needRemove: bool)
    requires Consistent(latest)
    ensures CountInv(latest, latest.Keys, countMap)
    ensures RowsInv(latest, latest.Keys, thumbs)
    ensures RemovalsInv(latest, latest.Keys, removals)
    ensures needRemove <==> NetPairs(latest, latest.Keys, DECR) != {}
    ensures forall t :: t in thumbs ==> ThumbKey(t) !in removals
  {
    countMap, thumbs, removals, needRemove := map[], [], [], false;
    var todo := latest.Keys;
    ghost var done: set<Key> := {};
    while todo != {}
      invariant todo <= latest.Keys && done == latest.Keys - todo
      invariant CountInv(latest, done, countMap)
      invariant RowsInv(latest, done, thumbs)
      invariant RemovalsInv(latest, done, removals)
      invariant needRemove <==> removals != []
      decreases todo
    {
      var k :| k in todo;
      CountStep(latest, done, countMap, k);
      RowsStep(latest, done, thumbs, k);
      RemovalsStep(latest, done, removals, k);
      var event := latest[k];
      if event.Some? {
        var e := event.value;
        assert KeyOf(e) == k;
        if e.kind == INCR {
          countMap := Bump(countMap, e.blogId, 1);
          thumbs := thumbs + [Thumb(e.userId, e.blogId)];
        } else {
          needRemove := true;
          removals := removals + [k];
          countMap := Bump(countMap, e.blogId, -1);
        }
      }
      todo := todo - {k};
      done := done + {k};
    }
    assert done == latest.Keys;
    RowsAndRemovalsDisjoint(latest, latest.Keys, thumbs, removals);
  }

  /** A key's net event is INCR or DECR, never both. */
  lemma RowsAndRemovalsDisjoint(latest: map<Key, Option<ThumbEvent>>, done: set<Key>, thumbs: seq<Thumb>, removals: seq<Key>)
    requires RowsInv(latest, done, thumbs) && RemovalsInv(latest, done, removals)
    ensures forall t :: t in thumbs ==> ThumbKey(t) !in removals
  {
    forall t | t in thumbs ensures ThumbKey(t) !in removals {
      assert ThumbKey(t) in ThumbKeys(thumbs);
      assert ThumbKey(t) !in SeqSet(removals);
    }
  }

  // ---------------------------------------------------------------------------
  // Step 4: the writes

  /** saveBatch's chunk size. */
  const BATCH_SIZE: nat := 500

  /** What the database receives: the batched counter update, the delete with
      the OR-ed (userId, blogId) predicate, and one batch flush per chunk (a
      flush sends one single-row INSERT per row of its chunk). */
  datatype Write = UpdateCounts(deltas: map<Long, int>) | DeleteWhere(pairs: seq<Key>) | FlushInserts(rows: seq<Thumb>)

  /** The net counts: per blog with a net key, its net INCR keys minus its net
      DECR keys. */
  ghost function NetCount(latest: map<Key, Option<ThumbEvent>>): map<Long, int>
  {
    map b | b in NetBlogs(latest, latest.Keys)
      :: |NetPairsOn(latest, latest.Keys, b, INCR)| - |NetPairsOn(latest, latest.Keys, b, DECR)|
  }

  /** Accumulate's countMap is the net count, whatever the iteration order. */
  lemma CountMapIsNetCount(latest: map<Key, Option<ThumbEvent>>, countMap: map<Long, int>)
    requires CountInv(latest, latest.Keys, countMap)
    ensures countMap == NetCount(latest)
  {
  }

  /** `batchUpdateThumbCount` (its SQL is not part of this model), taken as adding
      each delta to the counter of the blog with that id; ids without a row are
      ignored. */
  function ApplyDeltas(counts: map<Long, int>, deltas: map<Long, int>): (r: map<Long, int>)
    ensures r.Keys == counts.Keys
    ensures forall b :: b in counts && b !in deltas ==> r[b] == counts[b]
    ensures forall b :: b in counts && b in deltas ==> r[b] == counts[b] + deltas[b]
  {
    map b | b in counts :: counts[b] + (if b in deltas then deltas[b] else 0)
  }

  /** The rows that survive a delete whose predicate matches the given pairs. */
  function Kept(records: seq<Thumb>, pairs: set<Key>): (r: seq<Thumb>)
    ensures forall t :: t in r <==> t in records && ThumbKey(t) !in pairs
    ensures |r| <= |records|
    ensures pairs == {} ==> r == records
  {
    if records == [] then []
    else (if ThumbKey(records[0]) in pairs then [] else [records[0]]) + Kept(records[1..], pairs)
  }

  function Flatten(chunks: seq<seq<Thumb>>): seq<Thumb>
  {
    if chunks == [] then [] else chunks[0] + Flatten(chunks[1..])
  }

  /** saveBatch(rows, 500): the rows in order, cut into flushes of at most
      500 rows. */
  function Chunks(rows: seq<Thumb>): (cs: seq<seq<Thumb>>)
    ensures Flatten(cs) == rows
    ensures forall i :: 0 <= i < |cs| ==> 0 < |cs[i]| <= BATCH_SIZE
    decreases |rows|
  {
    if rows == [] then []
    else if |rows| <= BATCH_SIZE then
      assert Flatten([rows]) == rows + Flatten([]);
      [rows]
    else
      var rest := Chunks(rows[BATCH_SIZE..]);
      assert ([rows[..BATCH_SIZE]] + rest)[1..] == rest;
      assert rows[..BATCH_SIZE] + rows[BATCH_SIZE..] == rows;
      [rows[..BATCH_SIZE]] + rest
  }

  /** There are ceil(|rows| / 500) flushes. */
  lemma {:induction false} ChunksCount(rows: seq<Thumb>)
    ensures |Chunks(rows)| == (|rows| + BATCH_SIZE - 1) / BATCH_SIZE
    decreases |rows|
  {
    if |rows| > BATCH_SIZE {
      ChunksCount(rows[BATCH_SIZE..]);
    }
  }

  function InsertWrites(chunks: seq<seq<Thumb>>): (w: seq<Write>)
    ensures |w| == |chunks|
    ensures forall i :: 0 <= i < |chunks| ==> w[i] == FlushInserts(chunks[i])
  {
    if chunks == [] then [] else [FlushInserts(chunks[0])] + InsertWrites(chunks[1..])
  }

  /** The statements a batch with these net effects sends, in order: the delete
      only if some key nets to DECR, the counter update only if some blog has a
      net key, then one batch flush per chunk of at most 500 rows. */
  ghost predicate WritesFor(w: seq<Write>, latest: map<Key, Option<ThumbEvent>>)
  {
    var del := NetPairs(latest, latest.Keys, DECR) != {};
    var upd := |NetCount(latest)| != 0;
    var start := (if del then 1 else 0) + (if upd then 1 else 0);
    && start <= |w|
    && (del ==> w[0].DeleteWhere? && SeqSet(w[0].pairs) == NetPairs(latest, latest.Keys, DECR))
    && (upd ==> w[start - 1] == UpdateCounts(NetCount(latest)))
    && (forall i :: start <= i < |w| ==> w[i].FlushInserts? && 0 < |w[i].rows| <= BATCH_SIZE)
    && |w| - start == (|NetPairs(latest, latest.Keys, INCR)| + BATCH_SIZE - 1) / BATCH_SIZE
  }

  lemma AppendedSuffix(a: seq<Write>, b: seq<Write>, c: seq<Write>, d: seq<Write>)
    ensures (a + b + c + d)[..|a|] == a && (a + b + c + d)[|a|..] == b + c + d
  {
    assert a + b + c + d == a + (b + c + d);
  }

  /** The statements Accumulate's output leads to have the shape WritesFor names. */
  lemma WritesShape(latest: map<Key, Option<ThumbEvent>>, countMap: map<Long, int>, thumbs: seq<Thumb>,
                    removals: seq<Key>, needRemove: bool, w: seq<Write>)
    requires CountInv(latest, latest.Keys, countMap)
    requires RowsInv(latest, latest.Keys, thumbs)
    requires RemovalsInv(latest, latest.Keys, removals)
    requires needRemove <==> NetPairs(latest, latest.Keys, DECR) != {}
    requires w == (if needRemove then [DeleteWhere(removals)] else [])
                  + (if |countMap| != 0 then [UpdateCounts(countMap)] else [])
                  + InsertWrites(Chunks(thumbs))
    ensures WritesFor(w, latest)
  {
    CountMapIsNetCount(latest, countMap);
    ChunksCount(thumbs);
  }

  /** What a batch with these net effects does to the tables and which
      statements it sends: every net blog's counter moves by its net count; the
      rows of net-DECR keys are deleted and one row per net-INCR key is appended;
      the statements are those WritesFor names, appended to the earlier ones. */
  ghost predicate BatchApplied(latest: map<Key, Option<ThumbEvent>>,
                               count0: map<Long, int>, records0: seq<Thumb>, writes0: seq<Write>,
                               count: map<Long, int>, records: seq<Thumb>, writes: seq<Write>)
  {
    var kept := Kept(records0, NetPairs(latest, latest.Keys, DECR));
    && count == ApplyDeltas(count0, NetCount(latest))
    && |kept| <= |records| && records[..|kept|] == kept
    && RowsInv(latest, latest.Keys, records[|kept|..])
    && |writes0| <= |writes| && writes[..|writes0|] == writes0
    && WritesFor(writes[|writes0|..], latest)
  }

  /** What Accumulate computes from the net effects of a batch. */
  ghost predicate Accumulated(latest: map<Key, Option<ThumbEvent>>,
                              countMap: map<Long, int>, thumbs: seq<Thumb>, removals: seq<Key>, needRemove: bool)
  {
    && CountInv(latest, latest.Keys, countMap)
    && RowsInv(latest, latest.Keys, thumbs)
    && RemovalsInv(latest, latest.Keys, removals)
    && (needRemove <==> NetPairs(latest, latest.Keys, DECR) != {})
  }

  /** Accumulate's output, applied as processBatch applies it, has that effect. */
  lemma BatchAppliedOf(latest: map<Key, Option<ThumbEvent>>,
                       count0: map<Long, int>, records0: seq<Thumb>, writes0: seq<Write>,
                       countMap: map<Long, int>, thumbs: seq<Thumb>, removals: seq<Key>, needRemove: bool)
    requires Accumulated(latest, countMap, thumbs, removals, needRemove)
    ensures BatchApplied(latest, count0, records0, writes0,
                         ApplyDeltas(count0, countMap),
                         (if needRemove then Kept(records0, SeqSet(removals)) else records0) + thumbs,
                         writes0 + (if needRemove then [DeleteWhere(removals)] else [])
                         + (if |countMap| != 0 then [UpdateCounts(countMap)] else [])
                         + InsertWrites(Chunks(thumbs)))
  {
    CountMapIsNetCount(latest, countMap);
    var del: seq<Write> := if needRemove then [DeleteWhere(removals)] else [];
    var upd: seq<Write> := if |countMap| != 0 then [UpdateCounts(countMap)] else [];
    var ins := InsertWrites(Chunks(thumbs));
    AppendedSuffix(writes0, del, upd, ins);
    WritesShape(latest, countMap, thumbs, removals, needRemove, del + upd + ins);
    var kept := Kept(records0, NetPairs(latest, latest.Keys, DECR));
    var records := (if needRemove then Kept(records0, SeqSet(removals)) else records0) + thumbs;
    assert records == kept + thumbs;
    assert records[..|kept|] == kept && records[|kept|..] == thumbs;
  }

  /** The blog counter table, the thumb table and the statements sent to them. */
  class ThumbDatabase {
    var thumbCount: map<Long, int>
    var records: seq<Thumb>
    var writes: seq<Write>

    constructor (thumbCount: map<Long, int>, records: seq<Thumb>)
      ensures this.thumbCount == thumbCount && this.records == records && writes == []
    {
      this.thumbCount := thumbCount;
      this.records := records;
      writes := [];
    }

    /** `thumbService.remove(wrapper)`. */
    method Remove(pairs: seq<Key>)
      modifies this
      ensures records == Kept(old(records), SeqSet(pairs))
      ensures writes == old(writes) + [DeleteWhere(pairs)] && thumbCount == old(thumbCount)
    {
      records := Kept(records, SeqSet(pairs));
      writes := writes + [DeleteWhere(pairs)];
    }

    /** batchUpdateBlogs: one statement, and none for an empty map. */
    method BatchUpdateBlogs(countMap: map<Long, int>)
      modifies this
      ensures |countMap| == 0 ==> thumbCount == old(thumbCount) && writes == old(writes)
      ensures |countMap| != 0 ==>
                thumbCount == ApplyDeltas(old(thumbCount), countMap) && writes == old(writes) + [UpdateCounts(countMap)]
      ensures records == old(records)
    {
      if |countMap| != 0 {
        thumbCount := ApplyDeltas(thumbCount, countMap);
        writes := writes + [UpdateCounts(countMap)];
      }
    }

    /** batchInsertThumbs: saveBatch(thumbs, 500), and nothing for an empty list. */
    method BatchInsertThumbs(thumbs: seq<Thumb>)
      modifies this
      ensures records == old(records) + thumbs
      ensures writes == old(writes) + InsertWrites(Chunks(thumbs))
      ensures thumbCount == old(thumbCount)
    {
      records := records + thumbs;
      writes := writes + InsertWrites(Chunks(thumbs));
    }

    /** Steps 1-3 of processBatch on a batch. */
    static method AccumulateBatch(messages: seq<Option<ThumbEvent>>)
      returns (countMap: map<Long, int>, thumbs: seq<Thumb>, removals: seq<Key>, needRemove: bool)
      ensures Accumulated(NetEffects(messages), countMap, thumbs, removals, needRemove)
    {
      var latest := NetEffects(messages);
      NetEffectsShape(messages);
      countMap, thumbs, removals, needRemove := Accumulate(latest);
    }

    /** The part of processBatch after the unconditional throw: the net effects
        of the batch, accumulated and written. Unreachable as the source stands. */
    method ApplyBatch(messages: seq<Option<ThumbEvent>>)
      modifies this
      ensures BatchApplied(NetEffects(messages), old(thumbCount), old(records), old(writes), thumbCount, records, writes)
    {
      var countMap, thumbs, removals, needRemove := AccumulateBatch(messages);
      ghost var del: seq<Write> := if needRemove then [DeleteWhere(removals)] else [];
      ghost var kept := if needRemove then Kept(old(records), SeqSet(removals)) else old(records);
      if needRemove {
        Remove(removals);
      }
      assert records == kept;
      assert writes == old(writes) + del;
      ghost var upd: seq<Write> := if |countMap| != 0 then [UpdateCounts(countMap)] else [];
      BatchUpdateBlogs(countMap);
      assert thumbCount == ApplyDeltas(old(thumbCount), countMap) by {
        if |countMap| == 0 {
          assert countMap == map[];
          assert ApplyDeltas(old(thumbCount), map[]) == old(thumbCount);
        }
      }
      assert records == kept && writes == old(writes) + del + upd;
      BatchInsertThumbs(thumbs);
      assert writes == old(writes) + del + upd + InsertWrites(Chunks(thumbs));
      assert records == kept + thumbs;
      BatchAppliedOf(NetEffects(messages), old(thumbCount), old(records), old(writes), countMap, thumbs, removals, needRemove);
    }
  }

  /** The consumer of "thumb-topic". */
  class ThumbConsumerService {
    const db: ThumbDatabase

    constructor (db: ThumbDatabase)
      ensures this.db == db
    {
      this.db := db;
    }

    /** processBatch as written: it always throws RuntimeException("test") before
        touching anything, and its transaction (rollbackFor = Exception) rolls
        back, so it changes nothing whatever the batch. */
    method ProcessBatch(messages: seq<Option<ThumbEvent>>) returns (r: Result<()>)
      ensures r == Err(TestGuard)
    {
      r := Err(TestGuard);
    }
  }
}
