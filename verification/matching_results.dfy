/**
 * `listMatchingResults`: scan the store in index order; for each record look
 * at every configured key (or at the whole record when no key list is set),
 * turn the value into a string, skip it when that string is empty, ask the
 * matcher, and push an entry `{key?, index, match, value}` for every truthy
 * answer; finally sort the list when a comparator is configured.
 */
module MatchingResults {
  import opened Wrappers
  import opened ArraySort

  /** A search engine: `(query, recordValue)` to a match, `None` for any falsy answer. */
  type Matcher<M> = (string, string) -> Option<M>

  /**
   * `(key ? record[key] : record).toString()` for a record and the key (or no
   * key); `None` when the value looked up is `undefined` or `null`, on which
   * `toString` throws.
   */
  type Stringify<!R> = (R, Option<string>) -> Option<string>

  /** A result entry; `matched` is the entry's `match` field, `value` the record itself. */
  datatype Entry<R, M> = Entry(key: Option<string>, index: nat, matched: M, value: R)

  /** The parts of the configuration the scan reads. */
  datatype Config<!R, !M> = Config(
    store: seq<R>,                           // config.data.store
    keys: Option<seq<string>>,               // config.data.key
    searchEngine: Option<Matcher<M>>,        // config.searchEngine
    sort: Option<Comparator<Entry<R, M>>>)   // config.sort

  /** What the scan throws: `toString` called on an `undefined` or `null` value. */
  datatype Fault = ToStringOfNullish(index: nat, key: Option<string>)

  /** JavaScript truthiness of the `key` argument of `search`. */
  predicate IsSet(key: Option<string>) {
    key.Some? && key.value != ""
  }

  /** The entry's `key` field: present exactly when the key argument is truthy. */
  function KeyField(key: Option<string>): (k: Option<string>)
    ensures k.Some? <==> IsSet(key)
    ensures k.Some? ==> k == key
  {
    if IsSet(key) then key else None
  }

  /** The arguments `search` is called with for one record: each configured key, or none at all. */
  function Probes(keys: Option<seq<string>>): (p: seq<Option<string>>)
    ensures keys.Some? ==> |p| == |keys.value| && forall j | 0 <= j < |p| :: p[j] == Some(keys.value[j])
    ensures keys.None? ==> p == [None]
  {
    if keys.Some? then seq(|keys.value|, j requires 0 <= j < |keys.value| => Some(keys.value[j])) else [None]
  }

  /** The configured `searchEngine` when it is a function, otherwise the default one. */
  function Engine<R, M>(config: Config<R, M>, defaultEngine: Matcher<M>): Matcher<M> {
    if config.searchEngine.Some? then config.searchEngine.value else defaultEngine
  }

  /** A (record, probe) pair: record `index` of the store and position `pos` in the probe list. */
  datatype Slot = Slot(index: nat, pos: nat)

  /** `a` is visited before `b`: records in index order, probes of one record in key order. */
  predicate Before(a: Slot, b: Slot) {
    a.index < b.index || (a.index == b.index && a.pos < b.pos)
  }

  ghost predicate Increasing(slots: seq<Slot>) {
    forall a, b | 0 <= a < b < |slots| :: Before(slots[a], slots[b])
  }

  /** The pairs of record `index`, in key order. */
  function Row(index: nat, width: nat): (r: seq<Slot>)
    ensures |r| == width
    ensures forall j | 0 <= j < width :: r[j] == Slot(index, j)
  {
    seq(width, j requires 0 <= j => Slot(index, j))
  }

  /** The pairs of the first `n` records, in the order the scan visits them. */
  function Slots(n: nat, width: nat): (r: seq<Slot>)
    ensures forall s | s in r :: s.index < n && s.pos < width
  {
    if n == 0 then [] else Slots(n - 1, width) + Row(n - 1, width)
  }

  /** The scan visits `n * width` pairs. */
  lemma {:induction false} SlotsLength(n: nat, width: nat)
    ensures |Slots(n, width)| == n * width
  {
    if n > 0 {
      SlotsLength(n - 1, width);
      assert (n - 1) * width + width == n * width;
    }
  }

  /** One scan: the store, the probes of each record, the query, the matcher and `toString`. */
  datatype Scan<!R, M> = Scan(
    store: seq<R>, probes: seq<Option<string>>, query: string, matcher: Matcher<M>, str: Stringify<R>)
  {
    predicate Valid(s: Slot) {
      s.index < |store| && s.pos < |probes|
    }

    /** The string `search` computes for the pair: a falsy key means the whole record. */
    function Text(s: Slot): Option<string>
      requires Valid(s)
    {
      str(store[s.index], KeyField(probes[s.pos]))
    }

    /** One call `search(key)`: throws, pushes nothing, or pushes one entry. */
    function Probe(s: Slot): (r: Result<Option<Entry<R, M>>, Fault>)
      requires Valid(s)
      ensures r.Err? <==> Text(s).None?
      ensures r.Err? ==> r.error == ToStringOfNullish(s.index, probes[s.pos])
      ensures r.Ok? && r.value.Some? <==>
        Text(s).Some? && Text(s).value != "" && matcher(query, Text(s).value).Some?
      ensures r.Ok? && r.value.Some? ==>
        var e := r.value.value;
        && e.index == s.index && e.value == store[s.index]
        && e.key == KeyField(probes[s.pos])
        && Some(e.matched) == matcher(query, Text(s).value)
    {
      var record := store[s.index];
      var key := probes[s.pos];
      match str(record, KeyField(key))
      case None => Err(ToStringOfNullish(s.index, key))
      case Some(recordValue) =>
        if recordValue == "" then Ok(None)
        else
          match matcher(query, recordValue)
          case None => Ok(None)
          case Some(m) => Ok(Some(Entry(KeyField(key), s.index, m, record)))
    }

    /** The pair yields an entry. */
    predicate Hit(s: Slot) {
      Valid(s) && Probe(s).Ok? && Probe(s).value.Some?
    }

    function EntryAt(s: Slot): Entry<R, M>
      requires Hit(s)
    {
      Probe(s).value.value
    }

    /** The pairs whose value is a non-empty string, whatever the matcher says. */
    predicate NonEmpty(s: Slot) {
      Valid(s) && Text(s).Some? && Text(s).value != ""
    }

    /** The scan's list, or what it threw, after the first `m` records. */
    function Through(m: nat): Result<seq<Entry<R, M>>, Fault>
      requires m <= |store|
    {
      Collect(Slots(m, |probes|))
    }

    /** The scan's list, or what it threw, after the first `j` probes of record `index`. */
    function Partial(index: nat, j: nat): Result<seq<Entry<R, M>>, Fault>
      requires index < |store| && j <= |probes|
    {
      Collect(Visited(index, j, |probes|))
    }

    /** Before its first probe a record's scan is the scan so far; after its last, the next record's. */
    lemma PartialEnds(index: nat)
      requires index < |store|
      ensures Partial(index, 0) == Through(index)
      ensures Partial(index, |probes|) == Through(index + 1)
    {
      assert Visited(index, 0, |probes|) == Slots(index, |probes|);
      assert Visited(index, |probes|, |probes|) == Slots(index + 1, |probes|);
    }

    /** The outcome of calling `search` on the pairs in turn, pushing onto one list. */
    function Collect(slots: seq<Slot>): Result<seq<Entry<R, M>>, Fault>
      requires forall s | s in slots :: Valid(s)
    {
      if slots == [] then Ok([])
      else
        var init, last := slots[..|slots| - 1], slots[|slots| - 1];
        assert forall s | s in init :: s in slots;
        match Collect(init)
        case Err(f) => Err(f)
        case Ok(es) =>
          match Probe(last)
          case Err(f) => Err(f)
          case Ok(None) => Ok(es)
          case Ok(Some(e)) => Ok(es + [e])
    }

    /** One more call of `search`: it throws, or pushes what it finds onto the list so far. */
    lemma CollectStep(slots: seq<Slot>, s: Slot)
      requires forall t | t in slots :: Valid(t)
      requires Valid(s)
      ensures forall t | t in slots + [s] :: Valid(t)
      ensures Collect(slots).Ok? && Probe(s).Err? ==> Collect(slots + [s]) == Err(Probe(s).error)
      ensures Collect(slots).Ok? && Probe(s).Ok? ==>
        Collect(slots + [s]) == Ok(Collect(slots).value + (if Probe(s).value.Some? then [Probe(s).value.value] else []))
    {
      var all := slots + [s];
      assert all[..|all| - 1] == slots && all[|all| - 1] == s;
      if Collect(slots).Ok? && Probe(s).Ok? {
        var es := Collect(slots).value;
        match Probe(s).value
        case None => assert Collect(all) == Ok(es) && es + [] == es;
        case Some(e) => assert Collect(all) == Ok(es + [e]);
      }
    }

    /** The pairs of `slots` that satisfy `p`, in order. */
    function Select(slots: seq<Slot>, p: Slot -> bool): (r: seq<Slot>)
      ensures |r| <= |slots|
      ensures forall s :: s in r <==> s in slots && p(s)
    {
      if slots == [] then []
      else
        var init, last := slots[..|slots| - 1], slots[|slots| - 1];
        assert slots == init + [last];
        Select(init, p) + (if p(last) then [last] else [])
    }

    function Kept(slots: seq<Slot>): seq<Slot> {
      Select(slots, s => Hit(s))
    }

    function NonEmptySlots(slots: seq<Slot>): seq<Slot> {
      Select(slots, s => NonEmpty(s))
    }

    /** The pairs that `Select` keeps come out in the order they went in. */
    lemma {:induction false} SelectIncreasing(slots: seq<Slot>, p: Slot -> bool)
      requires Increasing(slots)
      ensures Increasing(Select(slots, p))
    {
      if slots != [] {
        var init, last := slots[..|slots| - 1], slots[|slots| - 1];
        SelectIncreasing(init, p);
        var r, t := Select(slots, p), Select(init, p);
        forall a, b | 0 <= a < b < |r| ensures Before(r[a], r[b]) {
          if b >= |t| {
            assert r[a] in t;
            var k :| 0 <= k < |init| && init[k] == r[a];
            assert slots[k] == r[a];
          }
        }
      }
    }

    lemma {:induction false} SelectAgree(slots: seq<Slot>, p: Slot -> bool, q: Slot -> bool)
      requires forall s | s in slots :: p(s) == q(s)
      ensures Select(slots, p) == Select(slots, q)
    {
      if slots != [] {
        var init := slots[..|slots| - 1];
        assert forall s | s in init :: s in slots;
        assert slots[|slots| - 1] in slots;
        SelectAgree(init, p, q);
      }
    }

    /**
     * The scan succeeds exactly when every pair has a value to turn into a
     * string; when it fails, it fails at the first pair without one.
     */
    lemma {:induction false} CollectFault(slots: seq<Slot>)
      requires forall s | s in slots :: Valid(s)
      ensures Collect(slots).Ok? <==> forall k | 0 <= k < |slots| :: Text(slots[k]).Some?
      ensures Collect(slots).Err? ==>
        exists k | 0 <= k < |slots| ::
          && Text(slots[k]).None?
          && Collect(slots).error == ToStringOfNullish(slots[k].index, probes[slots[k].pos])
          && forall i | 0 <= i < k :: Text(slots[i]).Some?
    {
      if slots != [] {
        var init, last := slots[..|slots| - 1], slots[|slots| - 1];
        assert forall s | s in init :: s in slots;
        assert last in slots;
        CollectFault(init);
        assert forall k | 0 <= k < |init| :: init[k] == slots[k];
        if Collect(init).Err? {
          var k :| 0 <= k < |init| && Valid(init[k]) && Text(init[k]).None?
            && Collect(init).error == ToStringOfNullish(init[k].index, probes[init[k].pos])
            && forall i | 0 <= i < k :: Text(init[i]).Some?;
          assert Text(slots[k]).None?;
        } else if Probe(last).Err? {
          assert Text(slots[|slots| - 1]).None?;
        }
      }
    }

    /**
     * A successful scan yields one entry per pair that hits, in the order of
     * the pairs, each entry the one `search` builds for its pair.
     */
    lemma {:induction false} CollectEntries(slots: seq<Slot>)
      requires forall s | s in slots :: Valid(s)
      ensures Collect(slots).Ok? ==>
        var es, kept := Collect(slots).value, Kept(slots);
        && |es| == |kept|
        && forall k | 0 <= k < |es| :: Hit(kept[k]) && es[k] == EntryAt(kept[k])
    {
      if slots != [] {
        var init, last := slots[..|slots| - 1], slots[|slots| - 1];
        assert forall s | s in init :: s in slots;
        assert last in slots;
        CollectEntries(init);
        var kept, keptInit := Kept(slots), Kept(init);
        assert kept == keptInit + (if Hit(last) then [last] else []);
        forall k | 0 <= k < |keptInit| ensures keptInit[k] in keptInit {
        }
      }
    }

    /** Once the scan has thrown, scanning further pairs changes nothing. */
    lemma {:induction false} CollectFaultStays(a: seq<Slot>, b: seq<Slot>)
      requires a <= b
      requires forall s | s in b :: Valid(s)
      requires forall s | s in a :: Valid(s)
      requires Collect(a).Err?
      ensures Collect(b) == Collect(a)
    {
      if |b| > |a| {
        var init := b[..|b| - 1];
        assert forall s | s in init :: s in b;
        assert a <= init;
        CollectFaultStays(a, init);
      } else {
        assert a == b;
      }
    }

    /**
     * The matcher is never asked about an empty string: two matchers that
     * agree on every non-empty value give the same scan.
     */
    lemma {:induction false} MatcherSeesOnlyNonEmpty(other: Matcher<M>, slots: seq<Slot>)
      requires forall v | v != "" :: matcher(query, v) == other(query, v)
      requires forall s | s in slots :: Valid(s)
      ensures Collect(slots) == this.(matcher := other).Collect(slots)
    {
      if slots != [] {
        var init, last := slots[..|slots| - 1], slots[|slots| - 1];
        assert forall s | s in init :: s in slots;
        assert last in slots;
        MatcherSeesOnlyNonEmpty(other, init);
        assert Probe(last) == this.(matcher := other).Probe(last);
      }
    }
  }

  /** Every pair comes strictly after the pairs visited before it. */
  lemma {:induction false} SlotsIncreasing(n: nat, width: nat)
    ensures Increasing(Slots(n, width))
  {
    if n > 0 {
      SlotsIncreasing(n - 1, width);
      var r, prev, row := Slots(n, width), Slots(n - 1, width), Row(n - 1, width);
      assert r == prev + row;
      forall a, b | 0 <= a < b < |r| ensures Before(r[a], r[b]) {
        if a < |prev| && b >= |prev| {
          assert r[a] in prev;
        }
      }
    }
  }

  /** Every pair of a record below `n` and a probe below `width` is visited. */
  lemma {:induction false} SlotsComplete(n: nat, width: nat, s: Slot)
    requires s.index < n && s.pos < width
    ensures s in Slots(n, width)
  {
    var prev, row := Slots(n - 1, width), Row(n - 1, width);
    assert Slots(n, width) == prev + row;
    if s.index < n - 1 {
      SlotsComplete(n - 1, width, s);
    } else {
      assert row[s.pos] == s;
    }
  }

  /** The pairs of the first `m` records come first among the pairs of the first `n`. */
  lemma {:induction false} PrefixGrows(m: nat, n: nat, width: nat)
    requires m <= n
    ensures Slots(m, width) <= Slots(n, width)
  {
    if m < n {
      PrefixGrows(m, n - 1, width);
      assert Slots(n, width) == Slots(n - 1, width) + Row(n - 1, width);
    }
  }

  /** A fault raised in the first `m` records is the fault of the whole scan. */
  lemma FaultStaysToEnd<R, M>(sc: Scan<R, M>, m: nat)
    requires m <= |sc.store|
    requires sc.Through(m).Err?
    ensures sc.Through(|sc.store|) == sc.Through(m)
  {
    PrefixGrows(m, |sc.store|, |sc.probes|);
    sc.CollectFaultStays(Slots(m, |sc.probes|), Slots(|sc.store|, |sc.probes|));
  }

  lemma ExtendPrefix(done: seq<Slot>, row: seq<Slot>, j: nat)
    requires j < |row|
    ensures done + row[..j + 1] == (done + row[..j]) + [row[j]]
  {
    assert row[..j + 1] == row[..j] + [row[j]];
  }

  /** The scan `listMatchingResults` runs for a configuration. */
  function ScanOf<R, M>(config: Config<R, M>, query: string, defaultEngine: Matcher<M>, str: Stringify<R>): Scan<R, M> {
    Scan(config.store, Probes(config.keys), query, Engine(config, defaultEngine), str)
  }

  /** Every (record, probe) pair of the configuration, in scan order. */
  function AllSlots<R, M>(config: Config<R, M>): seq<Slot> {
    Slots(|config.store|, |Probes(config.keys)|)
  }

  /** The list the scan pushes onto, before any sort. */
  function Unsorted<R, M>(config: Config<R, M>, query: string, defaultEngine: Matcher<M>, str: Stringify<R>)
    : Result<seq<Entry<R, M>>, Fault>
  {
    var sc := ScanOf(config, query, defaultEngine, str);
    assert forall s | s in AllSlots(config) :: sc.Valid(s);
    sc.Collect(AllSlots(config))
  }

  /** What `listMatchingResults(config, query)` returns or throws. */
  function MatchingResults<R, M>(config: Config<R, M>, query: string, defaultEngine: Matcher<M>, str: Stringify<R>)
    : Result<seq<Entry<R, M>>, Fault>
  {
    match Unsorted(config, query, defaultEngine, str)
    case Err(f) => Err(f)
    case Ok(es) => Ok(if config.sort.Some? then StableSort(config.sort.value, es) else es)
  }

  /** Each entry of the result is the entry `search` builds for one visited pair. */
  lemma ResultEntries<R, M>(config: Config<R, M>, query: string, defaultEngine: Matcher<M>, str: Stringify<R>)
    requires MatchingResults(config, query, defaultEngine, str).Ok?
    ensures var sc := ScanOf(config, query, defaultEngine, str);
      forall e | e in MatchingResults(config, query, defaultEngine, str).value ::
        exists s | s in AllSlots(config) :: sc.Hit(s) && e == sc.EntryAt(s)
  {
    var sc := ScanOf(config, query, defaultEngine, str);
    var all := AllSlots(config);
    sc.CollectEntries(all);
    var u := Unsorted(config, query, defaultEngine, str).value;
    var kept := sc.Kept(all);
    forall e | e in MatchingResults(config, query, defaultEngine, str).value
      ensures exists s | s in all :: sc.Hit(s) && e == sc.EntryAt(s)
    {
      assert e in multiset(MatchingResults(config, query, defaultEngine, str).value);
      assert e in u;
      var k :| 0 <= k < |u| && u[k] == e;
      assert kept[k] in kept;
    }
  }

  /**
   * Every entry has `0 <= index < store.length` and its `value` is the record
   * at that index itself.
   */
  lemma EntriesFromStore<R, M>(config: Config<R, M>, query: string, defaultEngine: Matcher<M>, str: Stringify<R>)
    requires MatchingResults(config, query, defaultEngine, str).Ok?
    ensures forall e | e in MatchingResults(config, query, defaultEngine, str).value ::
      e.index < |config.store| && e.value == config.store[e.index]
  {
    ResultEntries(config, query, defaultEngine, str);
  }

  /**
   * An entry carries a `key` only when a key list is set, and then it is one
   * of the configured keys; with no key list no entry has a key, and with a
   * key list of non-empty keys every entry has one.
   */
  lemma EntryKeys<R, M>(config: Config<R, M>, query: string, defaultEngine: Matcher<M>, str: Stringify<R>)
    requires MatchingResults(config, query, defaultEngine, str).Ok?
    ensures forall e | e in MatchingResults(config, query, defaultEngine, str).value ::
      && (e.key.Some? ==> config.keys.Some? && e.key.value in config.keys.value && e.key.value != "")
      && (config.keys.None? ==> e.key.None?)
      && (config.keys.Some? && "" !in config.keys.value ==> e.key.Some?)
  {
    ResultEntries(config, query, defaultEngine, str);
    var probes := Probes(config.keys);
    forall e | e in MatchingResults(config, query, defaultEngine, str).value
      ensures e.key.Some? ==> config.keys.Some? && e.key.value in config.keys.value
      ensures config.keys.Some? && "" !in config.keys.value ==> e.key.Some?
    {
      var sc := ScanOf(config, query, defaultEngine, str);
      var s :| s in AllSlots(config) && sc.Hit(s) && e == sc.EntryAt(s);
      if config.keys.Some? {
        assert probes[s.pos] == Some(config.keys.value[s.pos]);
      }
    }
  }

  /**
   * Without a comparator the entries come out in scan order: the pairs they
   * come from are visited one after another, so `index` never decreases and
   * the entries of one record follow the order of the key list.
   */
  lemma ScanOrder<R, M>(config: Config<R, M>, query: string, defaultEngine: Matcher<M>, str: Stringify<R>)
    requires config.sort.None?
    requires MatchingResults(config, query, defaultEngine, str).Ok?
    ensures var es, sc := MatchingResults(config, query, defaultEngine, str).value, ScanOf(config, query, defaultEngine, str);
      var kept := sc.Kept(AllSlots(config));
      && |es| == |kept|
      && (forall k | 0 <= k < |es| :: sc.Hit(kept[k]) && es[k] == sc.EntryAt(kept[k]))
      && (forall k, l | 0 <= k < l < |es| :: Before(kept[k], kept[l]))
      && (forall k, l | 0 <= k < l < |es| :: es[k].index <= es[l].index)
  {
    var sc := ScanOf(config, query, defaultEngine, str);
    var all := AllSlots(config);
    sc.CollectEntries(all);
    SlotsIncreasing(|config.store|, |Probes(config.keys)|);
    sc.SelectIncreasing(all, s => sc.Hit(s));
  }

  /**
   * A pair yields an entry exactly when its value is a non-empty string and
   * the matcher's answer for it is truthy.
   */
  lemma ExactlyTheHits<R, M>(config: Config<R, M>, query: string, defaultEngine: Matcher<M>, str: Stringify<R>, s: Slot)
    requires s.index < |config.store| && s.pos < |Probes(config.keys)|
    ensures var sc := ScanOf(config, query, defaultEngine, str);
      s in sc.Kept(AllSlots(config)) <==>
        sc.Text(s).Some? && sc.Text(s).value != "" && Engine(config, defaultEngine)(query, sc.Text(s).value).Some?
  {
    var sc, all := ScanOf(config, query, defaultEngine, str), AllSlots(config);
    SlotsComplete(|config.store|, |Probes(config.keys)|, s);
    assert s in sc.Kept(all) <==> sc.Hit(s);
  }

  /**
   * At most one entry per (record, probe) pair: at most `store.length` times
   * the number of keys, at most `store.length` without a key list, none at
   * all for an empty key list.
   */
  lemma CountBounds<R, M>(config: Config<R, M>, query: string, defaultEngine: Matcher<M>, str: Stringify<R>)
    requires MatchingResults(config, query, defaultEngine, str).Ok?
    ensures var es := MatchingResults(config, query, defaultEngine, str).value;
      && |es| <= |config.store| * |Probes(config.keys)|
      && (config.keys.Some? ==> |es| <= |config.store| * |config.keys.value|)
      && (config.keys.None? ==> |es| <= |config.store|)
      && (config.keys == Some([]) ==> es == [])
  {
    var sc := ScanOf(config, query, defaultEngine, str);
    sc.CollectEntries(AllSlots(config));
    SlotsLength(|config.store|, |Probes(config.keys)|);
    var es := MatchingResults(config, query, defaultEngine, str).value;
    var u := Unsorted(config, query, defaultEngine, str).value;
    assert |es| == |multiset(es)| == |multiset(u)| == |u|;
  }

  /**
   * Without a key list each record yields at most one entry: no two entries
   * share an `index`, sorted or not, and without a comparator the indexes
   * strictly increase.
   */
  lemma OnePerRecord<R, M>(config: Config<R, M>, query: string, defaultEngine: Matcher<M>, str: Stringify<R>)
    requires config.keys.None?
    requires MatchingResults(config, query, defaultEngine, str).Ok?
    ensures var es := MatchingResults(config, query, defaultEngine, str).value;
      forall k, l | 0 <= k < l < |es| :: es[k].index != es[l].index
    ensures var es := MatchingResults(config, query, defaultEngine, str).value;
      config.sort.None? ==> forall k, l | 0 <= k < l < |es| :: es[k].index < es[l].index
  {
    ScanIndexesIncrease(config, query, defaultEngine, str);
    DistinctIndexesPermuted(Unsorted(config, query, defaultEngine, str).value, MatchingResults(config, query, defaultEngine, str).value);
  }

  /** Without a key list, the scan's list has strictly increasing indexes, whatever the comparator. */
  lemma ScanIndexesIncrease<R, M>(config: Config<R, M>, query: string, defaultEngine: Matcher<M>, str: Stringify<R>)
    requires config.keys.None?
    requires Unsorted(config, query, defaultEngine, str).Ok?
    ensures var u := Unsorted(config, query, defaultEngine, str).value;
      forall k, l | 0 <= k < l < |u| :: u[k].index < u[l].index
  {
    // the scan does not read the comparator, so the scan's list is the result without one
    var plain := config.(sort := None);
    assert Unsorted(plain, query, defaultEngine, str) == Unsorted(config, query, defaultEngine, str);
    ScanOrder(plain, query, defaultEngine, str);
  }

  /** A permutation of a list whose entries have pairwise different indexes has pairwise different indexes too. */
  lemma DistinctIndexesPermuted<R, M>(u: seq<Entry<R, M>>, es: seq<Entry<R, M>>)
    requires multiset(es) == multiset(u)
    requires forall p, q | 0 <= p < q < |u| :: u[p].index != u[q].index
    ensures forall k, l | 0 <= k < l < |es| :: es[k].index != es[l].index
  {
    NoRepeats(u);
    forall k, l | 0 <= k < l < |es| ensures es[k].index != es[l].index {
      CountedTwice(es, k, l);
      assert es[k] != es[l];
      assert es[k] in multiset(u) && es[l] in multiset(u);
      var p :| 0 <= p < |u| && u[p] == es[k];
      var q :| 0 <= q < |u| && u[q] == es[l];
      assert p != q;
    }
  }

  /** A list whose elements are pairwise different holds each value at most once. */
  lemma {:induction false} NoRepeats<T>(s: seq<T>)
    requires forall p, q | 0 <= p < q < |s| :: s[p] != s[q]
    ensures forall x :: multiset(s)[x] <= 1
  {
    if s != [] {
      var init, last := s[..|s| - 1], s[|s| - 1];
      assert s == init + [last];
      NoRepeats(init);
      assert last !in init;
    }
  }

  /** A value found at two positions is held at least twice. */
  lemma CountedTwice<T>(s: seq<T>, k: nat, l: nat)
    requires k < l < |s|
    ensures s[k] == s[l] ==> multiset(s)[s[k]] >= 2
  {
    var a, b := s[..l], s[l..];
    assert s == a + b;
    assert a[k] == s[k] && b[0] == s[l];
    assert s[k] in multiset(a) && s[l] in multiset(b);
  }

  /**
   * With a matcher that accepts every non-empty value, the count is the number
   * of pairs whose value is a non-empty string.
   */
  lemma AlwaysMatchingCount<R, M>(config: Config<R, M>, query: string, defaultEngine: Matcher<M>, str: Stringify<R>)
    requires forall v | v != "" :: Engine(config, defaultEngine)(query, v).Some?
    requires MatchingResults(config, query, defaultEngine, str).Ok?
    ensures var sc := ScanOf(config, query, defaultEngine, str);
      |MatchingResults(config, query, defaultEngine, str).value| == |sc.NonEmptySlots(AllSlots(config))|
  {
    var sc := ScanOf(config, query, defaultEngine, str);
    var all := AllSlots(config);
    sc.CollectEntries(all);
    sc.SelectAgree(all, s => sc.Hit(s), s => sc.NonEmpty(s));
    var es := MatchingResults(config, query, defaultEngine, str).value;
    var u := Unsorted(config, query, defaultEngine, str).value;
    assert |es| == |multiset(es)| == |multiset(u)| == |u|;
  }

  /**
   * The call throws exactly when some visited pair has an `undefined` or
   * `null` value, and what it throws names the first such pair.
   */
  lemma Throws<R, M>(config: Config<R, M>, query: string, defaultEngine: Matcher<M>, str: Stringify<R>)
    ensures var sc, all := ScanOf(config, query, defaultEngine, str), AllSlots(config);
      && (MatchingResults(config, query, defaultEngine, str).Err? <==>
            exists k | 0 <= k < |all| :: sc.Text(all[k]).None?)
      && (MatchingResults(config, query, defaultEngine, str).Err? ==>
            exists k | 0 <= k < |all| ::
              && sc.Text(all[k]).None?
              && MatchingResults(config, query, defaultEngine, str).error
                   == ToStringOfNullish(all[k].index, sc.probes[all[k].pos])
              && forall i | 0 <= i < k :: sc.Text(all[i]).Some?)
  {
    var sc, all := ScanOf(config, query, defaultEngine, str), AllSlots(config);
    sc.CollectFault(all);
  }

  /**
   * With a comparator that is consistent on the entries, the result is
   * a permutation of the scan's list, ordered by the comparator, and entries
   * that compare equal keep their scan order.
   */
  lemma SortedResults<R, M>(config: Config<R, M>, query: string, defaultEngine: Matcher<M>, str: Stringify<R>)
    requires config.sort.Some?
    requires Unsorted(config, query, defaultEngine, str).Ok?
    requires ConsistentOn(config.sort.value, Unsorted(config, query, defaultEngine, str).value)
    ensures MatchingResults(config, query, defaultEngine, str).Ok?
    ensures var es, u, cmp := MatchingResults(config, query, defaultEngine, str).value,
                              Unsorted(config, query, defaultEngine, str).value, config.sort.value;
      && multiset(es) == multiset(u)
      && Sorted(cmp, es)
      && forall c | c in u :: Class(cmp, es, c) == Class(cmp, u, c)
  {
    var u, cmp := Unsorted(config, query, defaultEngine, str).value, config.sort.value;
    StableSortSorted(cmp, u);
    forall c | c in u ensures Class(cmp, StableSort(cmp, u), c) == Class(cmp, u, c) {
      StableSortStable(cmp, u, c);
    }
  }

  /** The pairs the scan has visited once `search` has run for the first `j` probes of record `index`. */
  function Visited(index: nat, j: nat, width: nat): (r: seq<Slot>)
    requires j <= width
    ensures forall s | s in r :: s.index <= index && s.pos < width
  {
    var row := Row(index, width);
    assert forall s | s in row[..j] :: s in row;
    Slots(index, width) + row[..j]
  }

  /**
   * One more `search` call for probe `j` of record `index`: it pushes what
   * it finds, or the whole record's scan throws what it throws.
   */
  lemma SearchStep<R, M>(sc: Scan<R, M>, index: nat, j: nat)
    requires index < |sc.store| && j < |sc.probes|
    requires sc.Partial(index, j).Ok?
    ensures var p, es := sc.Probe(Slot(index, j)), sc.Partial(index, j).value;
      && (p.Err? ==> sc.Through(index + 1) == Err(p.error))
      && (p.Ok? && p.value.None? ==> sc.Partial(index, j + 1) == Ok(es))
      && (p.Ok? && p.value.Some? ==> sc.Partial(index, j + 1) == Ok(es + [p.value.value]))
  {
    var width := |sc.probes|;
    var done, row := Slots(index, width), Row(index, width);
    assert Slots(index + 1, width) == done + row;
    ExtendPrefix(done, row, j);
    sc.CollectStep(Visited(index, j, width), Slot(index, j));
    if sc.Probe(Slot(index, j)).Err? {
      assert row[..width] == row;
      assert Visited(index, j + 1, width) <= Visited(index, width, width);
      sc.CollectFaultStays(Visited(index, j + 1, width), done + row);
    } else if sc.Probe(Slot(index, j)).value.None? {
      var es := sc.Collect(Visited(index, j, width)).value;
      assert es + [] == es;
    }
  }

  /**
   * The body of the outer loop for record `index`: `search(key)` for each
   * configured key in order, or `search()` once, pushing onto `resList`.
   * The list it returns is the scan's list after this record, or what was thrown.
   */
  method SearchRecord<R, M>(sc: Scan<R, M>, keys: Option<seq<string>>, index: nat, resList: seq<Entry<R, M>>)
    returns (r: Result<seq<Entry<R, M>>, Fault>)
    requires sc.probes == Probes(keys) && index < |sc.store|
    requires sc.Through(index) == Ok(resList)
    ensures r == sc.Through(index + 1)
  {
    sc.PartialEnds(index);
    var list := resList;
    if keys.Some? {
      var j := 0;
      while j < |keys.value|
        invariant j <= |keys.value|
        invariant sc.Partial(index, j) == Ok(list)
      {
        var p := sc.Probe(Slot(index, j));
        SearchStep(sc, index, j);
        if p.Err? {
          return Err(p.error);
        }
        if p.value.Some? {
          list := list + [p.value.value];
        }
        j := j + 1;
      }
    } else {
      var p := sc.Probe(Slot(index, 0));
      SearchStep(sc, index, 0);
      if p.Err? {
        return Err(p.error);
      }
      if p.value.Some? {
        list := list + [p.value.value];
      }
    }
    r := Ok(list);
  }

  /**
   * The outer loop: records in index order, each handed to `SearchRecord`;
   * what it returns is the scan's whole list, or what was thrown.
   */
  method ScanStore<R, M>(sc: Scan<R, M>, keys: Option<seq<string>>) returns (r: Result<seq<Entry<R, M>>, Fault>)
    requires sc.probes == Probes(keys)
    ensures r == sc.Through(|sc.store|)
  {
    // `r` holds `resList` until a `search` call throws, which ends the scan
    r := Ok([]);
    var index := 0;
    while index < |sc.store| && r.Ok?
      invariant index <= |sc.store|
      invariant r == sc.Through(index)
    {
      r := SearchRecord(sc, keys, index, r.value);
      index := index + 1;
    }
    if r.Err? {
      FaultStaysToEnd(sc, index);
    }
  }

  /** `listMatchingResults(config, query)`: the scan over the store, then the optional sort. */
  method ListMatchingResults<R, M>(config: Config<R, M>, query: string, defaultEngine: Matcher<M>, str: Stringify<R>)
    returns (r: Result<seq<Entry<R, M>>, Fault>)
    ensures r == MatchingResults(config, query, defaultEngine, str)
  {
    var scanned := ScanStore(ScanOf(config, query, defaultEngine, str), config.keys);
    if scanned.Err? {
      return scanned;
    }
    var list := scanned.value;
    if config.sort.Some? {
      list := StableSort(config.sort.value, list);
    }
    r := Ok(list);
  }
}
