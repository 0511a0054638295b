/**
 * `SessionFinder.get_meetings`: the paginated search that enumerates meeting
 * ids. Every request sends the number of ids seen so far as its `entry`
 * offset; a page's `sid` values that are non-empty and new are yielded and
 * remembered. The loop ends only on a page without any `sid` input: a page
 * whose ids are all known or empty yields nothing and leaves the offset
 * unchanged, so the same request is sent again. The HTTP request is the
 * parameter `fetch` (offset to the page's `sid` values, in document order)
 * and `fuel` bounds the number of requests.
 */
module Discovery {

  /** One request: the `entry` offset sent, the `sid` values of the page, and the ids it yielded. */
  datatype Step = Step(entry: nat, page: seq<string>, added: seq<string>)

  /** The requests made within the fuel bound, and whether the loop ended by itself. */
  datatype Run = Run(steps: seq<Step>, exhausted: bool)

  function Elems(s: seq<string>): set<string>
  {
    set x | x in s
  }

  predicate NoDuplicates(s: seq<string>)
  {
    forall i, j :: 0 <= i < j < |s| ==> s[i] != s[j]
  }

  /**
   * The inner loop of `get_meetings` over one page: each non-empty value not
   * yet in the seen set is yielded and added to it. Gives the ids yielded and
   * the seen set afterwards.
   */
  function Scan(page: seq<string>, seen: set<string>): (seq<string>, set<string>)
  {
    if page == [] then ([], seen)
    else
      var (prev, ids) := Scan(page[..|page| - 1], seen);
      var id := page[|page| - 1];
      if id == "" || id in ids then (prev, ids) else (prev + [id], ids + {id})
  }

  /** `r` holds no empty id, no id of `seen`, and only values of `page`. */
  predicate OnlyNewFrom(r: seq<string>, page: seq<string>, seen: set<string>)
  {
    forall k :: 0 <= k < |r| ==> r[k] != "" && r[k] !in seen && r[k] in page
  }

  /** Every non-empty value of `page` outside `seen` is in `r`. */
  predicate MissesNone(r: seq<string>, page: seq<string>, seen: set<string>)
  {
    forall j :: 0 <= j < |page| && page[j] != "" && page[j] !in seen ==> page[j] in r
  }

  /**
   * A page yields each of its non-empty values that is neither known nor
   * already yielded by this page, once; nothing else is yielded, no such value
   * is missed, and the seen set grows by exactly the yielded ids.
   */
  lemma {:induction false} ScanExact(page: seq<string>, seen: set<string>)
    ensures Scan(page, seen).1 == seen + Elems(Scan(page, seen).0)
    ensures NoDuplicates(Scan(page, seen).0)
    ensures OnlyNewFrom(Scan(page, seen).0, page, seen)
    ensures MissesNone(Scan(page, seen).0, page, seen)
  {
    if page != [] {
      var init := page[..|page| - 1];
      ScanExact(init, seen);
      assert forall x :: x in init ==> x in page;
      assert forall j :: 0 <= j < |init| ==> page[j] == init[j];
      var prev := Scan(init, seen).0;
      var id := page[|page| - 1];
      if !(id == "" || id in Scan(init, seen).1) {
        assert Elems(prev + [id]) == Elems(prev) + {id};
      }
    }
  }

  /** The loop of `get_meetings` for at most `fuel` requests, starting with the ids `seen` known. */
  function Discover(fetch: nat -> seq<string>, fuel: nat, seen: set<string>): Run
    decreases fuel
  {
    if fuel == 0 then Run([], false)
    else
      var page := fetch(|seen|);
      if page == [] then Run([Step(|seen|, page, [])], true)
      else
        var (added, seen') := Scan(page, seen);
        var rest := Discover(fetch, fuel - 1, seen');
        Run([Step(|seen|, page, added)] + rest.steps, rest.exhausted)
  }

  /** The ids yielded by a sequence of requests, in order. */
  function Yielded(steps: seq<Step>): seq<string>
  {
    if steps == [] then [] else steps[0].added + Yielded(steps[1..])
  }

  /** The `entry` offsets sent, in order. */
  function Entries(steps: seq<Step>): (r: seq<nat>)
    ensures |r| == |steps| && forall k :: 0 <= k < |steps| ==> r[k] == steps[k].entry
  {
    if steps == [] then [] else [steps[0].entry] + Entries(steps[1..])
  }

  lemma EntriesAppend(steps: seq<Step>, step: Step)
    ensures Entries(steps + [step]) == Entries(steps) + [step.entry]
  {
  }

  function Prepend(done: seq<Step>, run: Run): Run
  {
    Run(done + run.steps, run.exhausted)
  }

  lemma {:induction false} YieldedAppend(a: seq<Step>, b: seq<Step>)
    ensures Yielded(a + b) == Yielded(a) + Yielded(b)
  {
    if a == [] {
      assert a + b == b;
    } else {
      assert (a + b)[0] == a[0];
      assert (a + b)[1..] == a[1..] + b;
      YieldedAppend(a[1..], b);
    }
  }

  /** The inner loop over one page's `sid` values: yields the new ones and adds them to the seen set. */
  method ScanPage(tags: seq<string>, meetingIds: set<string>) returns (added: seq<string>, ids: set<string>)
    ensures (added, ids) == Scan(tags, meetingIds)
  {
    added, ids := [], meetingIds;
    for j := 0 to |tags|
      invariant (added, ids) == Scan(tags[..j], meetingIds)
    {
      var meetingId := tags[j];
      assert tags[..j + 1] == tags[..j] + [meetingId];
      if meetingId != "" && meetingId !in ids {
        ids := ids + {meetingId};
        added := added + [meetingId];
      }
    }
    assert tags[..|tags|] == tags;
  }

  /** `Discover` with the requests `done` before it already made: the shape of the loop's own state. */
  function DiscoverAfter(fetch: nat -> seq<string>, fuel: nat, seen: set<string>, done: seq<Step>): Run
    decreases fuel
  {
    if fuel == 0 then Run(done, false)
    else
      var page := fetch(|seen|);
      if page == [] then Run(done + [Step(|seen|, page, [])], true)
      else
        var (added, seen') := Scan(page, seen);
        DiscoverAfter(fetch, fuel - 1, seen', done + [Step(|seen|, page, added)])
  }

  /** Continuing after `done` is running from scratch with `done` put in front. */
  lemma {:induction false} DiscoverAfterPrepends(fetch: nat -> seq<string>, fuel: nat, seen: set<string>, done: seq<Step>)
    ensures DiscoverAfter(fetch, fuel, seen, done) == Prepend(done, Discover(fetch, fuel, seen))
    decreases fuel
  {
    if fuel == 0 {
      assert done + [] == done;
    } else if fetch(|seen|) != [] {
      var page := fetch(|seen|);
      var (added, seen') := Scan(page, seen);
      var step := Step(|seen|, page, added);
      DiscoverAfterPrepends(fetch, fuel - 1, seen', done + [step]);
      var rest := Discover(fetch, fuel - 1, seen');
      assert (done + [step]) + rest.steps == done + ([step] + rest.steps);
    }
  }

  /** The loop itself: a set of seen ids, and an offset recomputed from it before every request. */
  method GetMeetings(fetch: nat -> seq<string>, fuel: nat) returns (yielded: seq<string>, entries: seq<nat>, exhausted: bool)
    ensures yielded == Yielded(Discover(fetch, fuel, {}).steps)
    ensures entries == Entries(Discover(fetch, fuel, {}).steps)
    ensures exhausted == Discover(fetch, fuel, {}).exhausted
  {
    var meetingIds: set<string> := {};
    yielded, entries, exhausted := [], [], false;
    ghost var done: seq<Step> := [];
    var budget := fuel;
    DiscoverAfterPrepends(fetch, fuel, {}, []);
    assert [] + Discover(fetch, fuel, {}).steps == Discover(fetch, fuel, {}).steps;
    ghost var total := DiscoverAfter(fetch, fuel, {}, []);
    while !exhausted && budget > 0
      invariant yielded == Yielded(done) && entries == Entries(done)
      invariant !exhausted ==> total == DiscoverAfter(fetch, budget, meetingIds, done)
      invariant exhausted ==> total == Run(done, true)
    {
      var entry := |meetingIds|;
      var tags := fetch(entry);
      ghost var step;
      if tags != [] {
        var added;
        added, meetingIds := ScanPage(tags, meetingIds);
        yielded := yielded + added;
        step := Step(entry, tags, added);
      } else {
        exhausted := true;
        step := Step(entry, tags, []);
      }
      YieldedAppend(done, [step]);
      EntriesAppend(done, step);
      done := done + [step];
      entries := entries + [entry];
      budget := budget - 1;
    }
  }

  lemma {:induction false} CardinalityAfterYield(seen: set<string>, added: seq<string>)
    requires NoDuplicates(added)
    requires forall k :: 0 <= k < |added| ==> added[k] !in seen
    ensures |seen + Elems(added)| == |seen| + |added|
  {
    if added != [] {
      var init := added[..|added| - 1];
      var last := added[|added| - 1];
      assert added == init + [last];
      assert Elems(added) == Elems(init) + {last};
      CardinalityAfterYield(seen, init);
      assert last !in seen + Elems(init);
      assert seen + Elems(added) == (seen + Elems(init)) + {last};
    }
  }

  /** Every id of `y` is non-empty and outside `seen`. */
  predicate NonEmptyAndUnseen(y: seq<string>, seen: set<string>)
  {
    forall k :: 0 <= k < |y| ==> y[k] != "" && y[k] !in seen
  }

  /** Every yielded id is a `sid` value of a page that was requested. */
  predicate FromPages(steps: seq<Step>)
  {
    forall id :: id in Yielded(steps) ==> exists k :: 0 <= k < |steps| && id in steps[k].page
  }

  /** The facts of `DiscoverYieldsFresh` carry over from the later requests to one more request in front. */
  lemma FreshInFront(step: Step, rest: seq<Step>, seen: set<string>, seen': set<string>)
    requires NoDuplicates(step.added) && OnlyNewFrom(step.added, step.page, seen)
    requires seen' == seen + Elems(step.added)
    requires NoDuplicates(Yielded(rest)) && NonEmptyAndUnseen(Yielded(rest), seen') && FromPages(rest)
    ensures NoDuplicates(Yielded([step] + rest))
    ensures NonEmptyAndUnseen(Yielded([step] + rest), seen)
    ensures FromPages([step] + rest)
  {
    var steps := [step] + rest;
    var y := Yielded(steps);
    assert steps[0] == step && steps[1..] == rest;
    assert y == step.added + Yielded(rest);
    forall i, j | 0 <= i < j < |y| ensures y[i] != y[j] {
      if j >= |step.added| && i < |step.added| {
        assert y[i] in Elems(step.added);
        assert y[j] == Yielded(rest)[j - |step.added|];
      }
    }
    forall id | id in y ensures exists k :: 0 <= k < |steps| && id in steps[k].page {
      if id in step.added {
        assert id in steps[0].page;
      } else {
        assert id in Yielded(rest);
        var k :| 0 <= k < |rest| && id in rest[k].page;
        assert steps[k + 1] == rest[k];
      }
    }
  }

  /**
   * Discovery never yields an empty id, an id known before it started, or the
   * same id twice; every yielded id is a `sid` value of a page it requested.
   */
  lemma {:induction false} DiscoverYieldsFresh(fetch: nat -> seq<string>, fuel: nat, seen: set<string>)
    ensures NoDuplicates(Yielded(Discover(fetch, fuel, seen).steps))
    ensures NonEmptyAndUnseen(Yielded(Discover(fetch, fuel, seen).steps), seen)
    ensures FromPages(Discover(fetch, fuel, seen).steps)
    decreases fuel
  {
    if fuel > 0 && fetch(|seen|) != [] {
      var page := fetch(|seen|);
      var (added, seen') := Scan(page, seen);
      ScanExact(page, seen);
      DiscoverYieldsFresh(fetch, fuel - 1, seen');
      FreshInFront(Step(|seen|, page, added), Discover(fetch, fuel - 1, seen').steps, seen, seen');
    } else if fuel > 0 {
      assert Yielded(Discover(fetch, fuel, seen).steps) == [];
    }
  }

  /** The `entry` of each request is `base` plus the number of ids yielded before it. */
  predicate EntriesCountYielded(steps: seq<Step>, base: nat)
  {
    forall k :: 0 <= k < |steps| ==> steps[k].entry == base + |Yielded(steps[..k])|
  }

  lemma EntriesInFront(step: Step, rest: seq<Step>, base: nat)
    requires step.entry == base
    requires EntriesCountYielded(rest, base + |step.added|)
    ensures EntriesCountYielded([step] + rest, base)
  {
    var steps := [step] + rest;
    forall k | 0 <= k < |steps| ensures steps[k].entry == base + |Yielded(steps[..k])| {
      if k > 0 {
        assert steps[..k] == [step] + rest[..k - 1];
        assert steps[..k][1..] == rest[..k - 1];
        assert steps[k] == rest[k - 1];
      } else {
        assert steps[..0] == [];
      }
    }
  }

  /**
   * The `entry` offset of every request is the number of ids known when the
   * loop started plus the number of ids it yielded before that request.
   */
  lemma {:induction false} DiscoverEntries(fetch: nat -> seq<string>, fuel: nat, seen: set<string>)
    ensures EntriesCountYielded(Discover(fetch, fuel, seen).steps, |seen|)
    decreases fuel
  {
    if fuel > 0 && fetch(|seen|) != [] {
      var page := fetch(|seen|);
      var (added, seen') := Scan(page, seen);
      DiscoverEntries(fetch, fuel - 1, seen');
      ScanExact(page, seen);
      CardinalityAfterYield(seen, added);
      EntriesInFront(Step(|seen|, page, added), Discover(fetch, fuel - 1, seen').steps, |seen|);
    } else if fuel > 0 {
      var steps := Discover(fetch, fuel, seen).steps;
      assert steps == [Step(|seen|, [], [])];
      assert steps[..0] == [];
    }
  }

  /** Each request got the page at its own offset. */
  predicate PagesFetched(fetch: nat -> seq<string>, steps: seq<Step>)
  {
    forall k :: 0 <= k < |steps| ==> steps[k].page == fetch(steps[k].entry)
  }

  /**
   * The loop ended by itself exactly when the last page had no `sid` input,
   * every earlier page had one, and without such a page all `fuel` requests
   * were made.
   */
  predicate StopsOnlyOnEmptyPage(run: Run, fuel: nat)
  {
    && (forall k :: 0 <= k < |run.steps| - 1 ==> run.steps[k].page != [])
    && (run.exhausted <==> |run.steps| > 0 && run.steps[|run.steps| - 1].page == [])
    && (!run.exhausted ==> |run.steps| == fuel)
  }

  lemma {:induction false} DiscoverStopsOnlyOnEmptyPage(fetch: nat -> seq<string>, fuel: nat, seen: set<string>)
    ensures PagesFetched(fetch, Discover(fetch, fuel, seen).steps)
    ensures StopsOnlyOnEmptyPage(Discover(fetch, fuel, seen), fuel)
    decreases fuel
  {
    var run := Discover(fetch, fuel, seen);
    if fuel > 0 && fetch(|seen|) != [] {
      var page := fetch(|seen|);
      var (added, seen') := Scan(page, seen);
      var rest := Discover(fetch, fuel - 1, seen');
      assert run == Run([Step(|seen|, page, added)] + rest.steps, rest.exhausted);
      DiscoverStopsOnlyOnEmptyPage(fetch, fuel - 1, seen');
      assert forall k :: 1 <= k < |run.steps| ==> run.steps[k] == rest.steps[k - 1];
    }
  }

  /** A page of empty or known values yields nothing. */
  lemma {:induction false} NothingNewOnKnownPage(page: seq<string>, seen: set<string>)
    requires forall k :: 0 <= k < |page| ==> page[k] == "" || page[k] in seen
    ensures Scan(page, seen) == ([], seen)
  {
    if page != [] {
      NothingNewOnKnownPage(page[..|page| - 1], seen);
    }
  }

  /** No id is yielded, the loop never ends by itself, and every request repeats offset `entry`. */
  predicate Stuck(run: Run, fuel: nat, entry: nat)
  {
    && !run.exhausted
    && |run.steps| == fuel
    && Yielded(run.steps) == []
    && forall k :: 0 <= k < |run.steps| ==> run.steps[k].entry == entry
  }

  /**
   * A page whose `sid` values are all empty or known does not stop the loop:
   * the same offset is requested again and again, nothing more is yielded,
   * and the loop runs until the fuel is spent.
   */
  lemma {:induction false} StuckPageRepeats(fetch: nat -> seq<string>, fuel: nat, seen: set<string>)
    requires fetch(|seen|) != []
    requires forall k :: 0 <= k < |fetch(|seen|)| ==> fetch(|seen|)[k] == "" || fetch(|seen|)[k] in seen
    ensures Stuck(Discover(fetch, fuel, seen), fuel, |seen|)
    decreases fuel
  {
    if fuel > 0 {
      var page := fetch(|seen|);
      NothingNewOnKnownPage(page, seen);
      StuckPageRepeats(fetch, fuel - 1, seen);
      var run := Discover(fetch, fuel, seen);
      var rest := Discover(fetch, fuel - 1, seen);
      assert run == Run([Step(|seen|, page, [])] + rest.steps, rest.exhausted);
      assert run.steps[1..] == rest.steps;
    }
  }
}
