/**
 The shadow title index kept under the storage key "todo-items": a map from a
 creation timestamp to a todo title, written by a counter-gated helper that
 persists only every second recorded title. The storage key itself is the
 `index` field (an absent key reads as the empty map); the module-level
 creation counter is the `counter` field.
 */
module TitleStore {

  /* The pair of values the helpers read and write: the creation counter and
     the stored index. */
  datatype Shadow = Shadow(counter: nat, index: map<string, string>)

  /* What one `saveTitleToLocalStorage(title)` call does, the clock's reading
     given as `timestamp`: bump the counter, and write only when it is even. */
  function Record(s: Shadow, title: string, timestamp: string): Shadow
  {
    var counter := s.counter + 1;
    if counter % 2 == 0 then Shadow(counter, s.index[timestamp := title])
    else Shadow(counter, s.index)
  }

  /* Deleting the key the search found. The deletion is guarded by the key's
     truthiness, and the empty string is false, so a found "" stays. */
  function DeleteFound(m: map<string, string>, key: string): map<string, string>
  {
    if key == "" then m else m - {key}
  }

  /* The keys of `m` whose title is `title`. */
  function KeysWith(m: map<string, string>, title: string): set<string>
  {
    set k | k in m && m[k] == title
  }

  /* One title removal on `before` may give `after`: with no entry holding
     `title` nothing changes; otherwise some key holding `title` (which one
     depends on the engine's key order) is the one found and deleted. */
  ghost predicate RemovedOne(before: map<string, string>, after: map<string, string>, title: string)
  {
    if forall k :: k in before ==> before[k] != title then after == before
    else exists k :: k in before && before[k] == title && after == DeleteFound(before, k)
  }

  /* The removals of `titles`, one after the other, on one snapshot. */
  ghost predicate RemovedEach(before: map<string, string>, after: map<string, string>, titles: seq<string>)
    decreases |titles|
  {
    if titles == [] then after == before
    else
      var n := |titles| - 1;
      exists mid :: RemovedEach(before, mid, titles[..n]) && RemovedOne(mid, after, titles[n])
  }

  /* `after` keeps a subset of the entries of `before`, each with its title. */
  ghost predicate SubIndex(after: map<string, string>, before: map<string, string>)
  {
    forall k :: k in after ==> k in before && after[k] == before[k]
  }

  /** One title removal deletes at most one entry, only one holding `title`,
      and leaves every other entry as it was; when no timestamp is empty and
      some entry holds `title`, exactly one entry goes. */
  lemma RemovedOneDeletesAtMostOne(before: map<string, string>, after: map<string, string>, title: string)
    requires RemovedOne(before, after, title)
    ensures SubIndex(after, before)
    ensures |before.Keys - after.Keys| <= 1
    ensures forall k :: k in before && k !in after ==> before[k] == title
    ensures (forall k :: k in before ==> before[k] != title) ==> after == before
    ensures "" !in before && (exists k :: k in before && before[k] == title) ==> |after| == |before| - 1
  {
    if exists k :: k in before && before[k] == title {
      var k :| k in before && before[k] == title && after == DeleteFound(before, k);
      if k != "" {
        assert before.Keys - after.Keys == {k};
      } else {
        assert before.Keys - after.Keys == {};
      }
    } else {
      assert before.Keys - after.Keys == {};
    }
  }

  /** Counted per title, one removal of `title` takes one entry off `title`'s
      count (if it has any) and leaves every other title's count alone. */
  lemma RemovedOneCounts(before: map<string, string>, after: map<string, string>, title: string)
    requires RemovedOne(before, after, title)
    requires "" !in before
    ensures forall v :: |KeysWith(after, v)| == if v == title then Drop(|KeysWith(before, v)|, 1) else |KeysWith(before, v)|
  {
    if exists k :: k in before && before[k] == title {
      var k :| k in before && before[k] == title && after == DeleteFound(before, k);
      forall v ensures |KeysWith(after, v)| == if v == title then Drop(|KeysWith(before, v)|, 1) else |KeysWith(before, v)| {
        if v == title {
          assert KeysWith(after, v) == KeysWith(before, v) - {k};
        } else {
          assert KeysWith(after, v) == KeysWith(before, v);
        }
      }
    } else {
      forall v ensures |KeysWith(after, v)| == if v == title then Drop(|KeysWith(before, v)|, 1) else |KeysWith(before, v)| {
        if v == title {
          assert KeysWith(before, v) == {};
        }
      }
    }
  }

  /* `a - b`, floored at zero. */
  function Drop(a: nat, b: nat): nat
  {
    if a <= b then 0 else a - b
  }

  /** Removing a list of titles on one snapshot: every entry that goes held one
      of the listed titles, and, with no empty timestamp, each title's count
      goes down by the number of times it is listed (down to zero). */
  lemma {:induction false} RemovedEachCounts(before: map<string, string>, after: map<string, string>, titles: seq<string>)
    requires RemovedEach(before, after, titles)
    ensures SubIndex(after, before)
    ensures forall k :: k in before && k !in after ==> before[k] in titles
    ensures "" !in before ==> forall v :: |KeysWith(after, v)| == Drop(|KeysWith(before, v)|, multiset(titles)[v])
    decreases |titles|
  {
    if titles != [] {
      var n := |titles| - 1;
      assert titles == titles[..n] + [titles[n]];
      var mid :| RemovedEach(before, mid, titles[..n]) && RemovedOne(mid, after, titles[n]);
      RemovedEachCounts(before, mid, titles[..n]);
      RemovedOneDeletesAtMostOne(mid, after, titles[n]);
      if "" !in before {
        RemovedOneCounts(mid, after, titles[n]);
      }
    }
  }

  /* `saveTitleToLocalStorage` called once per title, the j-th call at
     `timestamps[j]`. */
  ghost function RecordAll(s: Shadow, titles: seq<string>, timestamps: seq<string>): Shadow
    requires |timestamps| == |titles|
    decreases |titles|
  {
    if titles == [] then s
    else
      var n := |titles| - 1;
      Record(RecordAll(s, titles[..n], timestamps[..n]), titles[n], timestamps[n])
  }

  /** Every call bumps the counter, written or not. */
  lemma {:induction false} RecordAllCounts(s: Shadow, titles: seq<string>, timestamps: seq<string>)
    requires |timestamps| == |titles|
    ensures RecordAll(s, titles, timestamps).counter == s.counter + |titles|
    decreases |titles|
  {
    if titles != [] {
      var n := |titles| - 1;
      RecordAllCounts(s, titles[..n], timestamps[..n]);
    }
  }

  /** Every key the calls add is one of their timestamps. */
  lemma {:induction false} RecordAllKeys(s: Shadow, titles: seq<string>, timestamps: seq<string>)
    requires |timestamps| == |titles|
    ensures forall k :: k in RecordAll(s, titles, timestamps).index ==> k in s.index || k in timestamps
    decreases |titles|
  {
    if titles != [] {
      var n := |titles| - 1;
      RecordAllKeys(s, titles[..n], timestamps[..n]);
      assert forall k :: k in timestamps[..n] ==> k in timestamps;
    }
  }

  /* No timestamp is used twice. */
  ghost predicate Distinct(timestamps: seq<string>)
  {
    forall i, j :: 0 <= i < j < |timestamps| ==> timestamps[i] != timestamps[j]
  }

  /** From counter 0 and a stored index that holds none of the timestamps,
      the call after a run of calls with distinct timestamps finds its
      timestamp not yet in the index. */
  lemma FreshStamp(stored: map<string, string>, titles: seq<string>, timestamps: seq<string>)
    requires |timestamps| == |titles| > 0
    requires Distinct(timestamps)
    requires forall j :: 0 <= j < |timestamps| ==> timestamps[j] !in stored
    ensures var n := |titles| - 1;
      timestamps[n] !in RecordAll(Shadow(0, stored), titles[..n], timestamps[..n]).index
  {
    var n := |titles| - 1;
    RecordAllKeys(Shadow(0, stored), titles[..n], timestamps[..n]);
    assert forall j :: 0 <= j < n ==> timestamps[..n][j] != timestamps[n];
  }

  /** The every-second-write flaw: from a fresh counter and an empty index, N
      calls with pairwise distinct timestamps leave the counter at N and the
      index holding exactly the 2nd, 4th, ... titles under their timestamps. */
  lemma {:induction false} OnlyEverySecondTitleKept(titles: seq<string>, timestamps: seq<string>)
    requires |timestamps| == |titles|
    requires Distinct(timestamps)
    ensures var r := RecordAll(Shadow(0, map[]), titles, timestamps);
      && r.counter == |titles|
      && (forall j :: 0 <= j < |titles| ==> (timestamps[j] in r.index <==> j % 2 == 1))
      && (forall j :: 0 <= j < |titles| && j % 2 == 1 ==> r.index[timestamps[j]] == titles[j])
  {
    RecordAllCounts(Shadow(0, map[]), titles, timestamps);
    if titles != [] {
      var n := |titles| - 1;
      var ts, stamp := timestamps[..n], timestamps[n];
      OnlyEverySecondTitleKept(titles[..n], ts);
      FreshStamp(map[], titles, timestamps);
      RecordAllCounts(Shadow(0, map[]), titles[..n], ts);
      var prev := RecordAll(Shadow(0, map[]), titles[..n], ts);
      var r := Record(prev, titles[n], stamp);
      assert r.index == if n % 2 == 1 then prev.index[stamp := titles[n]] else prev.index;
      forall j | 0 <= j < n
        ensures timestamps[j] in r.index <==> j % 2 == 1
        ensures j % 2 == 1 ==> r.index[timestamps[j]] == titles[j]
      {
        assert ts[j] == timestamps[j];
      }
    }
  }

  /** ... and that index has floor(N/2) entries. */
  lemma {:induction false} EverySecondTitleCount(titles: seq<string>, timestamps: seq<string>)
    requires |timestamps| == |titles|
    requires Distinct(timestamps)
    ensures |RecordAll(Shadow(0, map[]), titles, timestamps).index| == |titles| / 2
  {
    RecordAllCounts(Shadow(0, map[]), titles, timestamps);
    if titles != [] {
      var n := |titles| - 1;
      EverySecondTitleCount(titles[..n], timestamps[..n]);
      RecordAllCounts(Shadow(0, map[]), titles[..n], timestamps[..n]);
      FreshStamp(map[], titles, timestamps);
    }
  }

  /** From counter 0 and any stored index, the 1st, 3rd, 5th, ... calls
      leave the index as it was, and the 2nd, 4th, ... calls add exactly
      their own entry. */
  lemma OddCallsLeaveIndex(stored: map<string, string>, titles: seq<string>, timestamps: seq<string>, j: nat)
    requires |timestamps| == |titles| && j < |titles|
    ensures var before := RecordAll(Shadow(0, stored), titles[..j], timestamps[..j]);
      var after := RecordAll(Shadow(0, stored), titles[..j + 1], timestamps[..j + 1]);
      after.index == if j % 2 == 0 then before.index else before.index[timestamps[j] := titles[j]]
  {
    RecordAllCounts(Shadow(0, stored), titles[..j], timestamps[..j]);
    assert titles[..j + 1][..j] == titles[..j];
    assert timestamps[..j + 1][..j] == timestamps[..j];
  }

  /** One more removal after a run of removals extends the run. */
  lemma RemovedEachStep(before: map<string, string>, mid: map<string, string>, after: map<string, string>, titles: seq<string>)
    requires titles != []
    requires RemovedEach(before, mid, titles[..|titles| - 1]) && RemovedOne(mid, after, titles[|titles| - 1])
    ensures RemovedEach(before, after, titles)
  {
  }

  /* The storage key and the creation counter, updated in place. */
  class TitleIndex {
    var counter: nat
    var index: map<string, string>

    /* Module load: the counter starts at zero while the storage key keeps
       whatever an earlier page load left there. */
    constructor (stored: map<string, string>)
      ensures counter == 0 && index == stored
    {
      counter := 0;
      index := stored;
    }

    function State(): Shadow
      reads this
    {
      Shadow(counter, index)
    }

    /* `saveTitleToLocalStorage(title)`, the clock's ISO string passed in. */
    method RecordTitle(title: string, timestamp: string)
      modifies this
      ensures State() == Record(old(State()), title, timestamp)
    {
      counter := counter + 1;
      if counter % 2 == 0 {
        index := index[timestamp := title];
      }
    }

    /* `removeTitleFromLocalStorage(title)` */
    method RemoveTitle(title: string)
      modifies this
      ensures counter == old(counter)
      ensures RemovedOne(old(index), index, title)
    {
      index := FindAndDelete(index, title);
    }

    /* `removeTitlesFromLocalStorage(titles)`: one read, one removal per
       title, one write. */
    method RemoveTitles(titles: seq<string>)
      modifies this
      ensures counter == old(counter)
      ensures RemovedEach(old(index), index, titles)
    {
      var items := index;
      var i := 0;
      while i < |titles|
        invariant 0 <= i <= |titles|
        invariant counter == old(counter) && index == old(index)
        invariant RemovedEach(index, items, titles[..i])
      {
        ghost var prev := items;
        items := FindAndDelete(items, titles[i]);
        assert titles[..i + 1][..i] == titles[..i];
        RemovedEachStep(index, prev, items, titles[..i + 1]);
        i := i + 1;
      }
      assert titles[..i] == titles;
      index := items;
    }

    /* `clearTitlesFromLocalStorage()`: the storage key goes; the counter
       stays where it was. */
    method ClearAll()
      modifies this
      ensures counter == old(counter)
      ensures index == map[]
    {
      index := map[];
    }
  }

  /* The search over the index's keys for one holding `title`, and the guarded
     delete that follows it. The keys are searched in the engine's order, so
     the key found is any one holding `title`. */
  method FindAndDelete(items: map<string, string>, title: string) returns (rest: map<string, string>)
    ensures RemovedOne(items, rest, title)
  {
    rest := items;
    if exists k :: k in items && items[k] == title {
      var key :| key in items && items[key] == title;
      if key != "" {
        rest := items - {key};
      }
    }
  }
}
