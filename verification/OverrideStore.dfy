/** The override table and the memo cache in front of it: used by one caller at a time, and with the
    steps of several callers interleaved. */
module OverrideStore {
  import opened Basics
  import opened IpText
  import opened Overrides

  /** The key of the table: "network" or "mac", and a network address or a MAC. */
  datatype Key = Key(kind: string, target: string)

  /** The kinds the table's constraint admits. */
  predicate Known(k: Key) {
    k.kind == "network" || k.kind == "mac"
  }

  const NUL: char := '\0'

  /** The cache is keyed by one string. */
  function CacheKey(k: Key): string {
    k.kind + [NUL] + k.target
  }

  /** Known kinds contain no NUL, so different keys have different cache keys. */
  lemma CacheKeyInjective(a: Key, b: Key)
    requires Known(a) && Known(b) && CacheKey(a) == CacheKey(b)
    ensures a == b
  {
    var s, t := CacheKey(a), CacheKey(b);
    assert s[|a.kind|] == NUL && t[|b.kind|] == NUL;
    assert s[..|a.kind|] == a.kind && t[..|b.kind|] == b.kind;
    assert |a.kind| == |b.kind|;
    assert s[|a.kind| + 1..] == a.target && t[|b.kind| + 1..] == b.target;
  }

  function RowOf(table: map<Key, seq<DHCPOption>>, k: Key): Row {
    if k in table then Some(table[k]) else None
  }

  /** One caller at a time. `dbOk` is false when the database reports an error. */
  class Store {
    var table: map<Key, seq<DHCPOption>>
    var cache: map<string, Row>

    /** The table's constraint holds, and every cached answer, negative ones included, is the current row. */
    ghost predicate Coherent()
      reads this
    {
      && (forall k :: k in table ==> Known(k))
      && (forall k: Key :: Known(k) && CacheKey(k) in cache ==> cache[CacheKey(k)] == RowOf(table, k))
    }

    constructor (table: map<Key, seq<DHCPOption>>)
      requires forall k :: k in table ==> Known(k)
      ensures this.table == table && Coherent()
    {
      this.table := table;
      cache := map[];
    }

    method CachedGet(k: Key, dbOk: bool) returns (r: Option<Row>)
      requires Known(k) && Coherent()
      modifies this`cache
      ensures Coherent()
      ensures r.Some? ==> r.value == RowOf(table, k)
      ensures dbOk ==> r.Some?
    {
      var key := CacheKey(k);
      if key in cache {
        return Some(cache[key]);
      }
      if !dbOk {
        return None;
      }
      var row := RowOf(table, k);
      cache := cache[key := row];
      forall j: Key | Known(j) && CacheKey(j) in cache
        ensures cache[CacheKey(j)] == RowOf(table, j)
      {
        if CacheKey(j) == key {
          CacheKeyInjective(j, k);
        }
      }
      r := Some(row);
    }

    method Save(k: Key, options: seq<DHCPOption>, dbOk: bool) returns (ok: bool)
      requires Coherent()
      modifies this
      ensures Coherent()
      ensures ok == (dbOk && Known(k))
      ensures table == if ok then old(table)[k := options] else old(table)
    {
      if !dbOk || !(k.kind == "network" || k.kind == "mac") {
        return false;
      }
      table := table[k := options];
      Invalidate(k);
      ok := true;
    }

    method Remove(k: Key, dbOk: bool) returns (ok: bool)
      requires Coherent()
      modifies this
      ensures Coherent()
      ensures ok == (dbOk && k in old(table))
      ensures table == if ok then old(table) - {k} else old(table)
    {
      if !dbOk || k !in table {
        return false;
      }
      table := table - {k};
      Invalidate(k);
      ok := true;
    }

    method Invalidate(k: Key)
      requires Known(k) && forall j :: j in table ==> Known(j)
      requires forall j: Key :: Known(j) && j != k && CacheKey(j) in cache ==> cache[CacheKey(j)] == RowOf(table, j)
      modifies this`cache
      ensures Coherent()
    {
      cache := cache - {CacheKey(k)};
    }

    /** The options of a reply: MAC layer over network layer over base, whatever is cached. A layer
        without target, or one the database cannot deliver, is left out. */
    method ApplyOptionOverrides(v6: string -> Option<Quad>, base: Options, networkIP: string, mac: string, dbOk: bool)
      returns (result: Options, ghost network: Row, ghost own: Row)
      requires Coherent()
      modifies this`cache
      ensures Coherent()
      ensures network == None || (networkIP != "" && network == RowOf(table, Key("network", networkIP)))
      ensures own == None || (mac != "" && own == RowOf(table, Key("mac", mac)))
      ensures dbOk && networkIP != "" ==> network == RowOf(table, Key("network", networkIP))
      ensures dbOk && mac != "" ==> own == RowOf(table, Key("mac", mac))
      ensures forall code: u8 :: Lookup(result, code) == Layered(v6, base, network, own, code)
      ensures Stacked(v6, base, network, own, result)
    {
      var first: Row, second: Row := None, None;
      if networkIP != "" {
        var r := CachedGet(Key("network", networkIP), dbOk);
        first := if r.Some? then r.value else None;
      }
      if mac != "" {
        var r := CachedGet(Key("mac", mac), dbOk);
        second := if r.Some? then r.value else None;
      }
      result := ApplyRows(v6, base, first, second);
      network, own := first, second;
    }
  }

  // ---------- Several callers ----------

  /** A caller that has read the table and not yet filled the cache; `readAt` counts the writes to
      the row before the read. */
  datatype Reader = Reader(key: Key, value: Row, readAt: nat)

  /** A cache entry with the numbers of writes to the row before its read and before its fill. */
  datatype Filled = Filled(value: Row, readAt: nat, filledAt: nat)

  /** `history` records the values each row has held; `writer` is the key of the caller holding the
      database lock between its write and its invalidation. */
  datatype Shared = Shared(table: map<Key, seq<DHCPOption>>, cache: map<string, Filled>,
                           readers: map<nat, Reader>, writer: Option<Key>, history: map<Key, seq<Row>>)
  {
    function Held(k: Key): seq<Row> {
      if k in history then history[k] else [RowOf(table, k)]
    }

    function Writes(k: Key): nat {
      if Held(k) == [] then 0 else |Held(k)| - 1
    }
  }

  datatype Action =
    | Read(id: nat, key: Key)
    | Fill(id: nat)
    | Write(key: Key, row: Row)
    | Invalidate
    | RemoveMissing(key: Key)

  /** A write of None is a delete that found its row; one that finds none changes nothing and does not
      invalidate. The database lock keeps reads and writes out while a writer has not invalidated. */
  ghost predicate Possible(s: Shared, a: Action) {
    match a
    case Read(id, k) => Known(k) && s.writer.None? && id !in s.readers
    case Fill(id) => id in s.readers
    case Write(k, row) => Known(k) && s.writer.None? && (row.None? ==> k in s.table)
    case Invalidate => s.writer.Some?
    case RemoveMissing(k) => Known(k) && s.writer.None? && k !in s.table
  }

  function Next(s: Shared, a: Action): Shared
    requires Possible(s, a)
  {
    match a
    case Read(id, k) => s.(readers := s.readers[id := Reader(k, RowOf(s.table, k), s.Writes(k))])
    case Fill(id) =>
      var r := s.readers[id];
      s.(cache := s.cache[CacheKey(r.key) := Filled(r.value, r.readAt, s.Writes(r.key))], readers := s.readers - {id})
    case Write(k, row) =>
      s.(table := if row.Some? then s.table[k := row.value] else s.table - {k},
         history := s.history[k := s.Held(k) + [row]], writer := Some(k))
    case Invalidate => s.(cache := s.cache - {CacheKey(s.writer.value)}, writer := None)
    case RemoveMissing(_) => s
  }

  ghost predicate Run(ss: seq<Shared>, actions: seq<Action>) {
    && |ss| == |actions| + 1
    && ss[0] == Shared(ss[0].table, map[], map[], None, map[])
    && forall n {:trigger actions[n]} :: 0 <= n < |actions| ==> Possible(ss[n], actions[n]) && ss[n + 1] == Next(ss[n], actions[n])
  }

  /** The history of a row ends in its current value. */
  ghost predicate HistoryTracks(s: Shared, k: Key) {
    s.Held(k) != [] && s.Held(k)[s.Writes(k)] == RowOf(s.table, k)
  }

  ghost predicate ReaderSound(s: Shared, r: Reader) {
    Known(r.key) && r.readAt <= s.Writes(r.key) && r.readAt < |s.Held(r.key)| && s.Held(r.key)[r.readAt] == r.value
  }

  /** A cached value was read from the row, and no write came after its fill, except one whose
      invalidation is still outstanding. */
  ghost predicate EntrySound(s: Shared, k: Key, e: Filled) {
    && e.readAt <= e.filledAt <= s.Writes(k) && e.readAt < |s.Held(k)|
    && s.Held(k)[e.readAt] == e.value
    && (e.filledAt == s.Writes(k) || s.writer == Some(k))
  }

  ghost predicate Sound(s: Shared) {
    && (forall k: Key :: HistoryTracks(s, k))
    && (forall id :: id in s.readers ==> ReaderSound(s, s.readers[id]))
    && (forall k: Key :: Known(k) && CacheKey(k) in s.cache ==> EntrySound(s, k, s.cache[CacheKey(k)]))
  }

  lemma SameRows(s: Shared, t: Shared)
    requires t.table == s.table && t.history == s.history
    ensures forall k: Key :: t.Held(k) == s.Held(k) && t.Writes(k) == s.Writes(k)
    ensures forall k: Key :: HistoryTracks(t, k) <==> HistoryTracks(s, k)
  {
  }

  lemma FillSound(s: Shared, id: nat)
    requires Sound(s) && id in s.readers
    ensures Sound(Next(s, Fill(id)))
  {
    var t, r := Next(s, Fill(id)), s.readers[id];
    SameRows(s, t);
    forall k: Key | Known(k) && CacheKey(k) in t.cache
      ensures EntrySound(t, k, t.cache[CacheKey(k)])
    {
      if CacheKey(k) == CacheKey(r.key) {
        CacheKeyInjective(k, r.key);
      }
    }
  }

  lemma WriteRows(s: Shared, k: Key, row: Row)
    requires Sound(s) && Possible(s, Write(k, row))
    ensures var t := Next(s, Write(k, row));
            && t.Held(k) == s.Held(k) + [row] && t.Writes(k) == s.Writes(k) + 1 && RowOf(t.table, k) == row
            && (forall j: Key :: j != k ==> t.Held(j) == s.Held(j) && RowOf(t.table, j) == RowOf(s.table, j))
            && (forall j: Key :: HistoryTracks(t, j))
  {
    var t := Next(s, Write(k, row));
    assert HistoryTracks(s, k);
    forall j: Key
      ensures HistoryTracks(t, j)
    {
      assert HistoryTracks(s, j);
    }
  }

  lemma WriteSound(s: Shared, k: Key, row: Row)
    requires Sound(s) && Possible(s, Write(k, row))
    ensures Sound(Next(s, Write(k, row)))
  {
    var t := Next(s, Write(k, row));
    WriteRows(s, k, row);
    forall id | id in t.readers
      ensures ReaderSound(t, t.readers[id])
    {
      assert ReaderSound(s, s.readers[id]);
    }
    forall j: Key | Known(j) && CacheKey(j) in t.cache
      ensures EntrySound(t, j, t.cache[CacheKey(j)])
    {
      assert EntrySound(s, j, s.cache[CacheKey(j)]);
    }
  }

  lemma InvalidateSound(s: Shared)
    requires Sound(s) && s.writer.Some?
    ensures Sound(Next(s, Invalidate))
  {
    var t := Next(s, Invalidate);
    forall k: Key | Known(k) && CacheKey(k) in t.cache
      ensures EntrySound(t, k, t.cache[CacheKey(k)])
    {
      assert EntrySound(s, k, s.cache[CacheKey(k)]);
    }
    forall k: Key
      ensures HistoryTracks(t, k)
    {
      assert HistoryTracks(s, k);
    }
  }

  lemma NextSound(s: Shared, a: Action)
    requires Sound(s) && Possible(s, a)
    ensures Sound(Next(s, a))
  {
    match a
    case Read(id, k) =>
      assert HistoryTracks(s, k);
      SameRows(s, Next(s, a));
    case Fill(id) => FillSound(s, id);
    case Write(k, row) => WriteSound(s, k, row);
    case Invalidate => InvalidateSound(s);
    case RemoveMissing(_) =>
  }

  lemma {:induction false} RunSound(ss: seq<Shared>, actions: seq<Action>, n: nat)
    requires Run(ss, actions) && n <= |actions|
    ensures Sound(ss[n])
  {
    if n > 0 {
      RunSound(ss, actions, n - 1);
      NextSound(ss[n - 1], actions[n - 1]);
    }
  }

  /** Coherence under every interleaving: a cached value, negative or not, is one the row has held, and
      outside a pending invalidation it is the row's latest version if and only if no write fell
      between the reader's read and its fill. */
  lemma CacheCoherence(ss: seq<Shared>, actions: seq<Action>, n: nat, k: Key)
    requires Run(ss, actions) && n <= |actions|
    requires Known(k) && CacheKey(k) in ss[n].cache
    ensures var s := ss[n];
            var e := s.cache[CacheKey(k)];
            && e.value in s.Held(k)
            && (s.writer != Some(k) ==> (e.readAt == s.Writes(k) <==> e.readAt == e.filledAt))
            && (s.writer != Some(k) && e.readAt == e.filledAt ==> e.value == RowOf(s.table, k))
  {
    RunSound(ss, actions, n);
    assert HistoryTracks(ss[n], k);
  }

  /** The race is real: a reader that read before a write and fills after it leaves a stale entry. */
  lemma StaleEntryPossible(table: map<Key, seq<DHCPOption>>, k: Key, options: seq<DHCPOption>)
    returns (ss: seq<Shared>, actions: seq<Action>)
    requires Known(k) && RowOf(table, k) != Some(options)
    ensures Run(ss, actions) && ss[0].table == table
    ensures var s := ss[|actions|];
            CacheKey(k) in s.cache && s.writer.None? && s.cache[CacheKey(k)].value != RowOf(s.table, k)
  {
    var s0 := Shared(table, map[], map[], None, map[]);
    actions := [Read(0, k), Write(k, Some(options)), Invalidate, Fill(0)];
    var s1 := Next(s0, Read(0, k));
    var s2 := Next(s1, Write(k, Some(options)));
    var s3 := Next(s2, Invalidate);
    ss := [s0, s1, s2, s3, Next(s3, Fill(0))];
  }
}
