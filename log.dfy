/** The logger of pkg/log/log.go: a verbosity gate, the prefix put before
    each message, and the in-memory cache of recent output, a ring of
    `maxLines` entries that also keeps the total of their lengths within
    `maxMem` bytes by evicting the oldest entries.

    The package-level variables become the fields of one `Logger` object;
    the mutex that serialises concurrent callers is not modelled. */
module Log {
  import opened GoBytes

  // ---------------------------------------------------------------------
  // The cache as a value

  /** The bytes held by the entries: what `cacheMem` counts. */
  function TotalLen(entries: seq<Bytes>): nat
  {
    if entries == [] then 0
    else TotalLen(entries[..|entries| - 1]) + |entries[|entries| - 1]|
  }

  lemma {:induction false} TotalLenUpdate(entries: seq<Bytes>, k: nat, x: Bytes)
    requires k < |entries|
    ensures TotalLen(entries[k := x]) == TotalLen(entries) - |entries[k]| + |x|
    decreases |entries|
  {
    var n := |entries|;
    if k == n - 1 {
      assert entries[k := x][..n - 1] == entries[..n - 1];
    } else {
      assert entries[k := x][..n - 1] == entries[..n - 1][k := x];
      TotalLenUpdate(entries[..n - 1], k, x);
    }
  }

  /** No entry is larger than the total, so taking one entry out of
      `cacheMem` never makes it negative. */
  lemma TotalLenAtLeast(entries: seq<Bytes>, k: nat)
    requires k < |entries|
    ensures |entries[k]| <= TotalLen(entries)
  {
    TotalLenUpdate(entries, k, []);
  }

  lemma {:induction false} TotalLenAllEmpty(entries: seq<Bytes>)
    requires forall i :: 0 <= i < |entries| ==> entries[i] == []
    ensures TotalLen(entries) == 0
    decreases |entries|
  {
    if entries != [] {
      TotalLenAllEmpty(entries[..|entries| - 1]);
    }
  }

  lemma {:induction false} TotalLenAppend(a: seq<Bytes>, b: seq<Bytes>)
    ensures TotalLen(a + b) == TotalLen(a) + TotalLen(b)
    decreases |b|
  {
    if b == [] {
      assert a + b == a;
    } else {
      assert (a + b)[..|a + b| - 1] == a + b[..|b| - 1];
      assert (a + b)[|a + b| - 1] == b[|b| - 1];
      TotalLenAppend(a, b[..|b| - 1]);
    }
  }

  /** How many slots after `start` slot `i` lies, going round a ring of `n`. */
  function Offset(i: nat, start: nat, n: nat): (d: nat)
    requires i < n && start < n
    ensures d < n
  {
    if i >= start then i - start else i + n - start
  }

  /** The slot `d` places after `start` in a ring of `n`. */
  function Slot(start: nat, d: nat, n: nat): (s: nat)
    requires start < n && d < n
    ensures s < n
  {
    if start + d < n then start + d else start + d - n
  }

  /** `Slot` is the ring index `(start + d) % n` that the source computes. */
  lemma SlotMod(start: nat, d: nat, n: nat)
    requires start < n && d < n
    ensures Slot(start, d, n) == (start + d) % n
  {
    ModWrap(start + d, n);
  }

  lemma ModWrap(a: int, n: int)
    requires 0 < n && 0 <= a < 2 * n
    ensures a % n == if a < n then a else a - n
  {
  }

  /** `Offset` undoes `Slot`, and slot `Slot(start, d, n)` is the only one
      `d` places after `start`. */
  lemma SlotOffset(start: nat, d: nat, n: nat)
    requires start < n && d < n
    ensures Offset(Slot(start, d, n), start, n) == d
    ensures forall i :: 0 <= i < n && Offset(i, start, n) == d ==> i == Slot(start, d, n)
  {
  }

  /** The entries with the `k` oldest slots, counted from `start`, emptied
      one after the other. */
  function Cleared(entries: seq<Bytes>, start: nat, k: nat): (r: seq<Bytes>)
    requires start < |entries| && k <= |entries|
    ensures |r| == |entries|
  {
    if k == 0 then entries
    else Cleared(entries, start, k - 1)[Slot(start, k - 1, |entries|) := []]
  }

  /** A slot is empty after clearing `k` slots exactly when it lies fewer
      than `k` places after `start`; every other slot keeps its entry. */
  lemma {:induction false} ClearedAt(entries: seq<Bytes>, start: nat, k: nat, i: nat)
    requires start < |entries| && k <= |entries| && i < |entries|
    ensures Cleared(entries, start, k)[i] == if Offset(i, start, |entries|) < k then [] else entries[i]
  {
    if k > 0 {
      SlotOffset(start, k - 1, |entries|);
      ClearedAt(entries, start, k - 1, i);
    }
  }

  /** The number of oldest entries, from `j` on, that must go before the
      total fits within `maxMem`, never counting the newest (the slot just
      before `start`). */
  function FirstFit(entries: seq<Bytes>, start: nat, maxMem: int, j: nat): (k: nat)
    requires start < |entries| && j < |entries|
    ensures j <= k < |entries|
    ensures k == |entries| - 1 || TotalLen(Cleared(entries, start, k)) <= maxMem
    decreases |entries| - j
  {
    if j == |entries| - 1 || TotalLen(Cleared(entries, start, j)) <= maxMem then j
    else FirstFit(entries, start, maxMem, j + 1)
  }

  /** No shorter run than `FirstFit`'s brings the total within `maxMem`. */
  lemma {:induction false} FirstFitMinimal(entries: seq<Bytes>, start: nat, maxMem: int, j: nat, i: nat)
    requires start < |entries| && j < |entries| && j <= i < FirstFit(entries, start, maxMem, j)
    ensures TotalLen(Cleared(entries, start, i)) > maxMem
    decreases i - j
  {
    if j < i {
      FirstFitMinimal(entries, start, maxMem, j + 1, i);
    }
  }

  /** One round of the eviction loop on values: emptying slot
      `Slot(start, i, n)` moves from `i` cleared slots to `i + 1` and takes
      that entry's length off the total. */
  lemma EvictStep(placed: seq<Bytes>, start: nat, maxMem: int, i: nat, cur: seq<Bytes>, pos: nat)
    requires start < |placed| && i < |placed| - 1 && pos == Slot(start, i, |placed|)
    requires cur == Cleared(placed, start, i)
    requires TotalLen(cur) > maxMem
    ensures cur[pos := []] == Cleared(placed, start, i + 1)
    ensures TotalLen(cur[pos := []]) == TotalLen(cur) - |cur[pos]|
    ensures FirstFit(placed, start, maxMem, i + 1) == FirstFit(placed, start, maxMem, i)
  {
    TotalLenUpdate(cur, pos, []);
  }

  /** The eviction loop's state after `i` rounds, on values: the entries
      `es` are the written ones (`placed`) with the `i` oldest slots
      emptied, `mem` counts their bytes, and `k` rounds are due in all. */
  ghost predicate Evicting(placed: seq<Bytes>, start: nat, maxMem: int, k: nat, i: nat,
                           es: seq<Bytes>, mem: int)
  {
    && start < |placed| && i <= |placed| - 1
    && es == Cleared(placed, start, i)
    && mem == TotalLen(es)
    && FirstFit(placed, start, maxMem, i) == k
  }

  /** When the loop stops, exactly `k` rounds have run. */
  lemma EvictionDone(placed: seq<Bytes>, start: nat, maxMem: int, k: nat, i: nat,
                     es: seq<Bytes>, mem: int)
    requires Evicting(placed, start, maxMem, k, i, es, mem)
    requires !(i < |placed| - 1 && mem > maxMem)
    ensures es == Cleared(placed, start, k) && mem == TotalLen(es)
  {
  }

  /** The cache as a value: the entries, `cachePos` (the slot written next,
      which holds the oldest entry) and `cacheMem`. */
  datatype Cache = Cache(entries: seq<Bytes>, pos: nat, mem: int)

  /** The slot after `pos` in a ring of `n`. */
  function NextPos(pos: nat, n: nat): (next: nat)
    requires pos < n
    ensures next < n
  {
    if pos + 1 == n then 0 else pos + 1
  }

  /** The entries once `entry` has replaced the oldest one, before eviction. */
  function Placed(entries: seq<Bytes>, pos: nat, entry: Bytes): seq<Bytes>
    requires pos < |entries|
  {
    entries[pos := entry]
  }

  /** How many of the oldest entries a write evicts. */
  function Evicted(entries: seq<Bytes>, pos: nat, maxMem: int, entry: Bytes): nat
    requires pos < |entries|
  {
    FirstFit(Placed(entries, pos, entry), NextPos(pos, |entries|), maxMem, 0)
  }

  /** The cache after caching `entry`: it takes the oldest slot, the
      position moves on, and the fewest oldest entries are emptied that
      bring the total within `maxMem`, the new entry never among them. */
  function AfterWrite(entries: seq<Bytes>, pos: nat, maxMem: int, entry: Bytes): (c: Cache)
    requires pos < |entries|
    ensures |c.entries| == |entries| && c.pos < |entries|
    ensures c.mem == TotalLen(c.entries)
  {
    var next := NextPos(pos, |entries|);
    var kept := Cleared(Placed(entries, pos, entry), next, Evicted(entries, pos, maxMem, entry));
    Cache(kept, next, TotalLen(kept))
  }

  /** Placing the entry and then running the eviction loop is `AfterWrite`. */
  lemma PlaceThenEvict(entries: seq<Bytes>, pos: nat, maxMem: int, entry: Bytes,
                       placed: seq<Bytes>, next: nat, es: seq<Bytes>, mem: int)
    requires pos < |entries|
    requires placed == Placed(entries, pos, entry) && next == NextPos(pos, |entries|)
    requires es == Cleared(placed, next, FirstFit(placed, next, maxMem, 0)) && mem == TotalLen(es)
    ensures Cache(es, next, mem) == AfterWrite(entries, pos, maxMem, entry)
  {
  }

  /** The new entry stays, at the slot just before the new position. */
  lemma WriteKeepsNewest(entries: seq<Bytes>, pos: nat, maxMem: int, entry: Bytes)
    requires pos < |entries|
    ensures var c := AfterWrite(entries, pos, maxMem, entry);
      c.pos == (pos + 1) % |entries| && c.entries[pos] == entry
  {
    var n := |entries|;
    var next := NextPos(pos, n);
    if n == 1 {
      assert (pos + 1) % n == 0;
    } else {
      SlotMod(pos, 1, n);
      assert next == Slot(pos, 1, n);
    }
    assert Offset(pos, next, n) == n - 1;
    ClearedAt(Placed(entries, pos, entry), next, Evicted(entries, pos, maxMem, entry), pos);
  }

  /** After a write either the total fits within `maxMem`, or every entry
      but the new one has been evicted. */
  lemma WriteFitsBudget(entries: seq<Bytes>, pos: nat, maxMem: int, entry: Bytes)
    requires pos < |entries|
    ensures var c := AfterWrite(entries, pos, maxMem, entry);
      c.mem <= maxMem || forall i :: 0 <= i < |entries| && i != pos ==> c.entries[i] == []
  {
    var n := |entries|;
    var next := NextPos(pos, n);
    var c := AfterWrite(entries, pos, maxMem, entry);
    if c.mem > maxMem {
      assert Evicted(entries, pos, maxMem, entry) == n - 1;
      forall i | 0 <= i < n && i != pos ensures c.entries[i] == [] {
        SlotOffset(next, n - 1, n);
        assert Offset(i, next, n) != n - 1;
        ClearedAt(Placed(entries, pos, entry), next, n - 1, i);
      }
    }
  }

  /** Eviction empties a run of slots starting at the new position, the
      oldest first, and changes no other slot; it stops at the first length
      of run at which the total fits. */
  lemma WriteEvictsOldestFirst(entries: seq<Bytes>, pos: nat, maxMem: int, entry: Bytes)
    requires pos < |entries|
    ensures var c := AfterWrite(entries, pos, maxMem, entry);
            var k := Evicted(entries, pos, maxMem, entry);
            var placed := Placed(entries, pos, entry);
      && k < |entries|
      && (forall i :: 0 <= i < |entries| ==>
            c.entries[i] == if Offset(i, c.pos, |entries|) < k then [] else placed[i])
      && (forall j :: 0 <= j < k ==> TotalLen(Cleared(placed, c.pos, j)) > maxMem)
  {
    var c := AfterWrite(entries, pos, maxMem, entry);
    var k := Evicted(entries, pos, maxMem, entry);
    forall i | 0 <= i < |entries|
      ensures c.entries[i] == if Offset(i, c.pos, |entries|) < k then [] else Placed(entries, pos, entry)[i]
    {
      ClearedAt(Placed(entries, pos, entry), c.pos, k, i);
    }
    forall j | 0 <= j < k ensures TotalLen(Cleared(Placed(entries, pos, entry), c.pos, j)) > maxMem {
      FirstFitMinimal(Placed(entries, pos, entry), c.pos, maxMem, 0, j);
    }
  }

  // ---------------------------------------------------------------------
  // The cached output as a value

  /** The entries from slot `start` round to the slot before it. */
  function Rotate(entries: seq<Bytes>, start: nat): (r: seq<Bytes>)
    requires start <= |entries|
    ensures |r| == |entries|
  {
    entries[start..] + entries[..start]
  }

  /** The last of the rotated entries is the one just before `start`. */
  lemma RotateLast(entries: seq<Bytes>, start: nat)
    requires start < |entries|
    ensures Rotate(entries, start)[|entries| - 1] == entries[if start == 0 then |entries| - 1 else start - 1]
  {
  }

  lemma RotateAt(entries: seq<Bytes>, start: nat, i: nat)
    requires start < |entries| && i < |entries|
    ensures Rotate(entries, start)[i] == entries[Slot(start, i, |entries|)]
  {
  }

  /** Each non-empty entry followed by a newline, in order. */
  function Render(entries: seq<Bytes>): Bytes
  {
    if entries == [] then []
    else
      var last := entries[|entries| - 1];
      Render(entries[..|entries| - 1]) + (if last == [] then [] else last + [Newline])
  }

  lemma {:induction false} RenderLength(entries: seq<Bytes>)
    ensures |Render(entries)| <= TotalLen(entries) + |entries|
    decreases |entries|
  {
    if entries != [] {
      RenderLength(entries[..|entries| - 1]);
    }
  }

  /** After a write, the cached output ends with the new entry and its
      newline: the newest entry is listed last. */
  lemma OutputEndsWithNewest(entries: seq<Bytes>, pos: nat, maxMem: int, entry: Bytes)
    requires pos < |entries| && entry != []
    ensures var c := AfterWrite(entries, pos, maxMem, entry);
            var out := Render(Rotate(c.entries, c.pos));
      |out| > |entry| && out[|out| - |entry| - 1..] == entry + [Newline]
  {
    var n := |entries|;
    var c := AfterWrite(entries, pos, maxMem, entry);
    WriteKeepsNewest(entries, pos, maxMem, entry);
    assert c.pos == NextPos(pos, n);
    var rot := Rotate(c.entries, c.pos);
    RotateLast(c.entries, c.pos);
    assert rot[n - 1] == entry;
    var front := Render(rot[..n - 1]);
    assert Render(rot) == front + entry + [Newline];
    AppendAssoc(front, entry, [Newline]);
    AppendDrop(front, entry + [Newline]);
  }

  lemma RotateTotal(entries: seq<Bytes>, start: nat)
    requires start <= |entries|
    ensures TotalLen(Rotate(entries, start)) == TotalLen(entries)
  {
    var front, back := entries[..start], entries[start..];
    TakeDrop(entries, start);
    TotalLenAppend(back, front);
    TotalLenAppend(front, back);
  }

  /** When every entry but one is empty, the total is that entry's length. */
  lemma TotalLenSingle(entries: seq<Bytes>, k: nat)
    requires k < |entries|
    requires forall i :: 0 <= i < |entries| && i != k ==> entries[i] == []
    ensures TotalLen(entries) == |entries[k]|
  {
    TotalLenAllEmpty(entries[k := []]);
    TotalLenUpdate(entries[k := []], k, entries[k]);
    assert entries[k := []][k := entries[k]] == entries;
  }

  /** After a write the cached output is at most the byte budget plus one
      newline per slot, unless the new entry alone is over the budget. */
  lemma OutputBounded(entries: seq<Bytes>, pos: nat, maxMem: int, entry: Bytes)
    requires pos < |entries|
    ensures var c := AfterWrite(entries, pos, maxMem, entry);
      |Render(Rotate(c.entries, c.pos))| <= (if |entry| > maxMem then |entry| else maxMem) + |entries|
  {
    var c := AfterWrite(entries, pos, maxMem, entry);
    RenderLength(Rotate(c.entries, c.pos));
    RotateTotal(c.entries, c.pos);
    WriteFitsBudget(entries, pos, maxMem, entry);
    if c.mem > maxMem {
      WriteKeepsNewest(entries, pos, maxMem, entry);
      TotalLenSingle(c.entries, pos);
    }
  }

  // ---------------------------------------------------------------------
  // Message layout

  /** `writeMessage`'s line: "[severity] " when there is a severity, then
      "name: " when the instance has a name, then the message. */
  function FormatMessage(severity: Bytes, name: Bytes, msg: Bytes): (line: Bytes)
    ensures |line| == (if severity == [] then 0 else |severity| + 3)
                      + (if name == [] then 0 else |name| + 2) + |msg|
    ensures line[|line| - |msg|..] == msg
    ensures severity != [] ==> HasPrefix(line, Ascii("[") + severity + Ascii("] "))
    ensures severity == [] && name != [] ==> HasPrefix(line, name + Ascii(": "))
    ensures severity != [] && name != [] ==>
              line[|severity| + 3..|severity| + 3 + |name| + 2] == name + Ascii(": ")
    ensures severity == [] && name == [] ==> line == msg
  {
    var sev := if severity != [] then Ascii("[") + severity + Ascii("] ") else [];
    var who := if name != [] then name + Ascii(": ") else [];
    assert (sev + who + msg)[|sev|..|sev| + |who|] == who;
    sev + who + msg
  }

  // ---------------------------------------------------------------------
  // The logger

  class Logger {
    /** The `-vv` flag. */
    var verbosity: int
    var cacheMem: int
    var cacheMaxMem: int
    var cachePos: int
    /** null until caching is enabled. */
    var cacheEntries: array?<Bytes>
    var instanceName: Bytes
    var prependTime: bool

    /** `cacheMem` is the total length of the entries, and `cachePos` a
        slot of the ring, so the underflow panics cannot happen. */
    ghost predicate Valid()
      reads this, cacheEntries
    {
      if cacheEntries == null then cacheMem == 0 && cachePos == 0
      else
        && cacheEntries.Length >= 1
        && 0 <= cachePos < cacheEntries.Length
        && cacheMaxMem >= 1
        && cacheMem == TotalLen(cacheEntries[..])
    }

    /** The package's initial state, with `verbosity` the parsed flag. */
    constructor (verbosity: int)
      ensures Valid() && cacheEntries == null
      ensures this.verbosity == verbosity && instanceName == [] && prependTime
    {
      this.verbosity := verbosity;
      cacheMem, cacheMaxMem, cachePos := 0, 0, 0;
      cacheEntries := null;
      instanceName := [];
      prependTime := true;
    }

    /** `EnableLogCaching`: caching must not be on yet (otherwise the
        process exits) and both limits must be positive (otherwise it
        panics); afterwards the cache holds `maxLines` empty entries. */
    method EnableLogCaching(maxLines: int, maxMem: int)
      requires Valid() && cacheEntries == null
      requires maxLines >= 1 && maxMem >= 1
      modifies this`cacheMaxMem, this`cacheEntries
      ensures Valid() && cacheEntries != null && fresh(cacheEntries)
      ensures cacheEntries.Length == maxLines
      ensures forall i :: 0 <= i < maxLines ==> cacheEntries[i] == []
      ensures cacheMaxMem == maxMem && cachePos == 0 && cacheMem == 0
    {
      cacheMaxMem := maxMem;
      cacheEntries := new Bytes[maxLines](_ => []);
      TotalLenAllEmpty(cacheEntries[..]);
    }

    /** `CachedLogOutput`: the non-empty entries from the oldest to the
        newest, each followed by a newline. */
    method CachedLogOutput() returns (out: Bytes)
      requires Valid()
      ensures cacheEntries == null ==> out == []
      ensures cacheEntries != null ==> out == Render(Rotate(cacheEntries[..], cachePos))
    {
      out := [];
      if cacheEntries == null {
        return;
      }
      var n := cacheEntries.Length;
      ghost var rot := Rotate(cacheEntries[..], cachePos);
      var i := 0;
      while i < n
        invariant 0 <= i <= n
        invariant out == Render(rot[..i])
      {
        var pos := (cachePos + i) % n;
        SlotMod(cachePos, i, n);
        RotateAt(cacheEntries[..], cachePos, i);
        assert rot[..i + 1][..i] == rot[..i];
        if cacheEntries[pos] != [] {
          out := out + cacheEntries[pos] + [Newline];
        }
        i := i + 1;
      }
      assert rot[..n] == rot;
    }

    /** `SetName`. */
    method SetName(name: Bytes)
      modifies this`instanceName
      ensures instanceName == name
    {
      instanceName := name;
    }

    /** `V`: a message of level `level` is printed. */
    function V(level: int): (r: bool)
      reads this
      ensures r <==> level <= verbosity
    {
      level <= verbosity
    }

    /** A message passes the gate at every level up to the verbosity:
        a higher verbosity prints at least what a lower one does. */
    lemma VMonotone(lo: int, hi: int)
      requires lo <= hi && V(hi)
      ensures V(lo)
    {
    }

    /** One round of the eviction loop: the slot `i` places after
        `cachePos` is emptied and its length taken off `cacheMem`. */
    method EvictRound(i: int, ghost placed: seq<Bytes>, ghost k: nat)
      requires cacheEntries != null && 0 <= cachePos < cacheEntries.Length == |placed|
      requires 0 <= i < cacheEntries.Length - 1 && cacheMem > cacheMaxMem
      requires Evicting(placed, cachePos, cacheMaxMem, k, i, cacheEntries[..], cacheMem)
      modifies this`cacheMem, cacheEntries
      ensures Evicting(placed, cachePos, cacheMaxMem, k, i + 1, cacheEntries[..], cacheMem)
    {
      var n := cacheEntries.Length;
      var pos := (cachePos + i) % n;
      ghost var cur := cacheEntries[..];
      SlotMod(cachePos, i, n);
      EvictStep(placed, cachePos, cacheMaxMem, i, cur, pos);
      cacheMem := cacheMem - |cacheEntries[pos]|;
      cacheEntries[pos] := [];
      assert cacheEntries[..] == cur[pos := []];
    }

    /** The eviction loop of `writeRawMessage`: empties entries from
        `cachePos` on, the oldest first, while the total exceeds
        `cacheMaxMem`, sparing the newest (the slot before `cachePos`). */
    method EvictOldest()
      requires cacheEntries != null && 0 <= cachePos < cacheEntries.Length
      requires cacheMem == TotalLen(cacheEntries[..])
      modifies this`cacheMem, cacheEntries
      ensures cacheEntries[..] == Cleared(old(cacheEntries[..]), cachePos,
                                          FirstFit(old(cacheEntries[..]), cachePos, cacheMaxMem, 0))
      ensures cacheMem == TotalLen(cacheEntries[..])
    {
      ghost var placed := cacheEntries[..];
      ghost var k := FirstFit(placed, cachePos, cacheMaxMem, 0);
      var n := cacheEntries.Length;
      var i := 0;
      while i < n - 1 && cacheMem > cacheMaxMem
        invariant 0 <= i && n == cacheEntries.Length == |placed|
        invariant Evicting(placed, cachePos, cacheMaxMem, k, i, cacheEntries[..], cacheMem)
      {
        EvictRound(i, placed, k);
        i := i + 1;
      }
      EvictionDone(placed, cachePos, cacheMaxMem, k, i, cacheEntries[..], cacheMem);
    }

    /** The first half of `writeRawMessage`'s cache update: the entry takes
        the oldest slot, `cacheMem` is brought up to date (it cannot go
        negative, so the first underflow panic cannot happen) and
        `cachePos` moves on, wrapping at the end of the ring. */
    method PlaceEntry(entry: Bytes)
      requires Valid() && cacheEntries != null
      modifies this`cacheMem, this`cachePos, cacheEntries
      ensures Valid()
      ensures cacheEntries[..] == Placed(old(cacheEntries[..]), old(cachePos), entry)
      ensures cachePos == NextPos(old(cachePos), cacheEntries.Length)
      ensures cacheMem == TotalLen(cacheEntries[..])
    {
      ghost var before := cacheEntries[..];
      TotalLenAtLeast(before, cachePos);
      cacheMem := cacheMem - |cacheEntries[cachePos]|;
      if cacheMem < 0 {
        assert false;  // "log cache size underflow"
      }
      cacheEntries[cachePos] := entry;
      cacheMem := cacheMem + |cacheEntries[cachePos]|;
      TotalLenUpdate(before, cachePos, entry);
      assert cacheEntries[..] == before[cachePos := entry];
      cachePos := cachePos + 1;
      if cachePos == cacheEntries.Length {
        cachePos := 0;
      }
    }

    /** The cache update of `writeRawMessage`: the entry is placed, the
        oldest entries are evicted, and the result is `AfterWrite`; the
        second underflow panic cannot happen either. */
    method CacheEntry(entry: Bytes)
      requires Valid() && cacheEntries != null
      modifies this`cacheMem, this`cachePos, cacheEntries
      ensures Valid()
      ensures Cache(cacheEntries[..], cachePos, cacheMem)
              == AfterWrite(old(cacheEntries[..]), old(cachePos), cacheMaxMem, entry)
    {
      ghost var before, oldPos := cacheEntries[..], cachePos;
      PlaceEntry(entry);
      ghost var placed, next := cacheEntries[..], cachePos;
      EvictOldest();
      PlaceThenEvict(before, oldPos, cacheMaxMem, entry, placed, next, cacheEntries[..], cacheMem);
      if cacheMem < 0 {
        assert false;  // "log cache size underflow"
      }
    }

    /** `writeRawMessage`: with caching on and `v <= 1`, `now + msg` (or
        `msg` alone when times are not prepended) is cached; the message is
        printed when `V(v)`. `now` stands for the formatted current time. */
    method WriteRawMessage(v: int, msg: Bytes, now: Bytes) returns (printed: bool)
      requires Valid()
      modifies this`cacheMem, this`cachePos, cacheEntries
      ensures Valid()
      ensures printed == V(v)
      ensures cacheEntries != null && v <= 1 ==>
                Cache(cacheEntries[..], cachePos, cacheMem)
                == AfterWrite(old(cacheEntries[..]), old(cachePos), cacheMaxMem,
                              (if prependTime then now else []) + msg)
      ensures !(cacheEntries != null && v <= 1) ==>
                cacheMem == old(cacheMem) && cachePos == old(cachePos)
                && (cacheEntries != null ==> cacheEntries[..] == old(cacheEntries[..]))
    {
      if cacheEntries != null && v <= 1 {
        var timeStr := if prependTime then now else [];
        CacheEntry(timeStr + msg);
      }
      printed := V(v);
    }

    /** `writeMessage`: the line `FormatMessage` builds from the severity,
        the instance name and the formatted message goes to
        `WriteRawMessage`. */
    method WriteMessage(v: int, severity: Bytes, msg: Bytes, now: Bytes) returns (printed: bool)
      requires Valid()
      modifies this`cacheMem, this`cachePos, cacheEntries
      ensures Valid()
      ensures printed == V(v)
      ensures cacheEntries != null && v <= 1 ==>
                Cache(cacheEntries[..], cachePos, cacheMem)
                == AfterWrite(old(cacheEntries[..]), old(cachePos), cacheMaxMem,
                              (if prependTime then now else []) + FormatMessage(severity, instanceName, msg))
      ensures !(cacheEntries != null && v <= 1) ==>
                cacheMem == old(cacheMem) && cachePos == old(cachePos)
                && (cacheEntries != null ==> cacheEntries[..] == old(cacheEntries[..]))
    {
      printed := WriteRawMessage(v, FormatMessage(severity, instanceName, msg), now);
    }

    /** `Logf`: a message without severity. */
    method Logf(v: int, msg: Bytes, now: Bytes) returns (printed: bool)
      requires Valid()
      modifies this`cacheMem, this`cachePos, cacheEntries
      ensures Valid()
      ensures printed == V(v)
      ensures cacheEntries != null && v <= 1 ==>
                Cache(cacheEntries[..], cachePos, cacheMem)
                == AfterWrite(old(cacheEntries[..]), old(cachePos), cacheMaxMem,
                              (if prependTime then now else []) + FormatMessage([], instanceName, msg))
      ensures !(cacheEntries != null && v <= 1) ==>
                cacheMem == old(cacheMem) && cachePos == old(cachePos)
                && (cacheEntries != null ==> cacheEntries[..] == old(cacheEntries[..]))
    {
      printed := WriteMessage(v, [], msg, now);
    }

    /** `Errorf`: a level-0 message with severity "ERROR", so it is always
        cached when caching is on. */
    method Errorf(msg: Bytes, now: Bytes) returns (printed: bool)
      requires Valid()
      modifies this`cacheMem, this`cachePos, cacheEntries
      ensures Valid()
      ensures printed == V(0)
      ensures cacheEntries != null ==>
                Cache(cacheEntries[..], cachePos, cacheMem)
                == AfterWrite(old(cacheEntries[..]), old(cachePos), cacheMaxMem,
                              (if prependTime then now else [])
                              + FormatMessage(Ascii("ERROR"), instanceName, msg))
      ensures cacheEntries == null ==> cacheMem == old(cacheMem) && cachePos == old(cachePos)
    {
      printed := WriteMessage(0, Ascii("ERROR"), msg, now);
    }
  }
}
