/**
 * `Logger`: leveled log messages kept in a bounded history. A message below
 * the logger's minimum level is dropped; an accepted one is appended at the
 * back, and once the history holds `max_entries` entries the oldest is
 * dropped first, so the history is always the most recent accepted entries.
 * The clock is a parameter: each call is given the entry's timestamp.
 */
module Logger {
  import opened Wrappers

  const MAX_ENTRIES: nat := 1000

  /** Severity levels, in increasing order as declared. */
  datatype LogLevel = Trace | Debug | Info | Warning | Error | Fatal

  /** The position of a level in the declaration order (the derived `Ord`). */
  function Rank(l: LogLevel): (r: nat)
    ensures r < 6
  {
    match l
    case Trace => 0
    case Debug => 1
    case Info => 2
    case Warning => 3
    case Error => 4
    case Fatal => 5
  }

  /** `a < b` on levels. */
  predicate Below(a: LogLevel, b: LogLevel)
  {
    Rank(a) < Rank(b)
  }

  /** `Display for LogLevel`: an upper-case word of four or five letters. */
  function LevelName(l: LogLevel): (r: string)
    ensures 4 <= |r| <= 5
    ensures forall i :: 0 <= i < |r| ==> 'A' <= r[i] <= 'Z'
  {
    match l
    case Trace => "TRACE"
    case Debug => "DEBUG"
    case Info => "INFO"
    case Warning => "WARN"
    case Error => "ERROR"
    case Fatal => "FATAL"
  }

  datatype LogEntry = LogEntry(timestamp: nat, level: LogLevel, message: string, component: Option<string>)

  /** The history after storing `e` in `entries` with room for `max`: the
      oldest entry goes first when the history is full. */
  function Stored(entries: seq<LogEntry>, e: LogEntry, max: nat): seq<LogEntry>
    requires 1 <= max
  {
    (if |entries| >= max then entries[1..] else entries) + [e]
  }

  /** The last `n` entries of `all` (all of them when there are fewer). */
  function Window(all: seq<LogEntry>, n: nat): (w: seq<LogEntry>)
    ensures |w| <= n
  {
    if |all| <= n then all else all[|all| - n..]
  }

  /** The entries of level `level`, in order. */
  function OfLevel(s: seq<LogEntry>, level: LogLevel): (r: seq<LogEntry>)
    ensures |r| <= |s|
    ensures forall i :: 0 <= i < |r| ==> r[i].level == level
  {
    if s == [] then []
    else (if s[0].level == level then [s[0]] else []) + OfLevel(s[1..], level)
  }

  class Logger {
    var minLevel: LogLevel
    var entries: seq<LogEntry>
    const maxEntries: nat
    /** Every entry accepted since creation or the last `clear`. */
    ghost var accepted: seq<LogEntry>

    /** The history is the most recent accepted entries, none of them below
        the minimum level. */
    ghost predicate Valid()
      reads this
    {
      maxEntries == MAX_ENTRIES
      && entries == Window(accepted, maxEntries)
      && (forall i :: 0 <= i < |accepted| ==> !Below(accepted[i].level, minLevel))
    }

    /** `Logger::new`: an empty history with room for 1000 entries. */
    constructor (minLevel: LogLevel)
      ensures Valid()
      ensures this.minLevel == minLevel && entries == [] && accepted == []
    {
      this.minLevel := minLevel;
      entries := [];
      maxEntries := MAX_ENTRIES;
      accepted := [];
    }

    /** Stores an accepted entry in the history. */
    method Store(e: LogEntry)
      requires Valid() && !Below(e.level, minLevel)
      modifies this
      ensures Valid()
      ensures entries == Stored(old(entries), e, maxEntries)
      ensures accepted == old(accepted) + [e] && minLevel == old(minLevel)
    {
      StoredWindow(accepted, e, maxEntries);
      if |entries| >= maxEntries {
        entries := entries[1..];
      }
      entries := entries + [e];
      accepted := accepted + [e];
    }

    /** `log`: a message below the minimum level changes nothing; any other
        is stored without a component. */
    method Log(level: LogLevel, message: string, timestamp: nat)
      requires Valid()
      modifies this
      ensures Valid() && minLevel == old(minLevel)
      ensures Below(level, minLevel) ==> entries == old(entries) && accepted == old(accepted)
      ensures !Below(level, minLevel) ==>
        accepted == old(accepted) + [LogEntry(timestamp, level, message, None)]
        && entries == Stored(old(entries), LogEntry(timestamp, level, message, None), maxEntries)
    {
      if Below(level, minLevel) {
        return;
      }
      Store(LogEntry(timestamp, level, message, None));
    }

    /** `log_with_component`: as `log`, with the component recorded. */
    method LogWithComponent(level: LogLevel, component: string, message: string, timestamp: nat)
      requires Valid()
      modifies this
      ensures Valid() && minLevel == old(minLevel)
      ensures Below(level, minLevel) ==> entries == old(entries) && accepted == old(accepted)
      ensures !Below(level, minLevel) ==>
        accepted == old(accepted) + [LogEntry(timestamp, level, message, Some(component))]
        && entries == Stored(old(entries), LogEntry(timestamp, level, message, Some(component)), maxEntries)
    {
      if Below(level, minLevel) {
        return;
      }
      Store(LogEntry(timestamp, level, message, Some(component)));
    }

    /** `get_entries`: the most recent accepted entries (at most 1000), oldest
        first. */
    method GetEntries() returns (r: seq<LogEntry>)
      requires Valid()
      ensures r == Window(accepted, MAX_ENTRIES) && |r| <= MAX_ENTRIES
    {
      r := entries;
    }

    /** `get_entries_by_level`: the stored entries of that level, kept in
        order by one pass over the history. */
    method GetEntriesByLevel(level: LogLevel) returns (r: seq<LogEntry>)
      ensures r == OfLevel(entries, level)
    {
      var s := entries;
      r := [];
      var i := 0;
      while i < |s|
        invariant 0 <= i <= |s|
        invariant r == OfLevel(s[..i], level)
      {
        OfLevelStep(s, i, level);
        if s[i].level == level {
          r := r + [s[i]];
        }
        i := i + 1;
      }
      assert s[..i] == s;
    }

    /** `clear`: empties the history; the minimum level stays. */
    method Clear()
      requires Valid()
      modifies this
      ensures Valid()
      ensures entries == [] && accepted == [] && minLevel == old(minLevel)
    {
      entries := [];
      accepted := [];
    }
  }

  // ---------------------------------------------------------------------
  // Properties.

  /** The levels are totally ordered, Trace lowest and Fatal highest. */
  lemma {:induction false} LevelsTotal(a: LogLevel, b: LogLevel)
    ensures Below(a, b) || a == b || Below(b, a)
    ensures !(Below(a, b) && Below(b, a))
    ensures !Below(a, Trace) && !Below(Fatal, a)
  {
    match a
    case Trace =>
    case Debug =>
    case Info =>
    case Warning =>
    case Error =>
    case Fatal =>
  }

  /** Distinct levels display differently. */
  lemma LevelNameInjective(a: LogLevel, b: LogLevel)
    requires LevelName(a) == LevelName(b)
    ensures a == b
  {
  }

  /** Storing into the window of the accepted entries gives the window of
      the accepted entries with the new one: the history always holds the
      most recent `max` of them. */
  lemma StoredWindow(all: seq<LogEntry>, e: LogEntry, max: nat)
    requires 1 <= max
    ensures Stored(Window(all, max), e, max) == Window(all + [e], max)
  {
    var w := Window(all, max);
    if |all| < max {
    } else {
      assert |w| == max;
      assert w[1..] + [e] == (all + [e])[|all| + 1 - max..];
    }
  }

  /** A stored history never holds more than `max` entries. */
  lemma StoredBounded(entries: seq<LogEntry>, e: LogEntry, max: nat)
    requires 1 <= max && |entries| <= max
    ensures |Stored(entries, e, max)| <= max
    ensures Stored(entries, e, max)[|Stored(entries, e, max)| - 1] == e
  {
  }

  /** Filtering by level distributes over concatenation. */
  lemma {:induction false} OfLevelConcat(a: seq<LogEntry>, b: seq<LogEntry>, level: LogLevel)
    ensures OfLevel(a + b, level) == OfLevel(a, level) + OfLevel(b, level)
  {
    if a == [] {
      assert a + b == b;
    } else {
      assert (a + b)[1..] == a[1..] + b;
      OfLevelConcat(a[1..], b, level);
    }
  }

  /** Filtering one entry longer a prefix adds that entry when it has the
      level. */
  lemma OfLevelStep(s: seq<LogEntry>, i: nat, level: LogLevel)
    requires i < |s|
    ensures OfLevel(s[..i + 1], level) == OfLevel(s[..i], level) + (if s[i].level == level then [s[i]] else [])
  {
    assert s[..i + 1] == s[..i] + [s[i]];
    OfLevelAppend(s[..i], s[i], level);
  }

  /** An entry is kept exactly when it is stored and has that level. */
  lemma {:induction false} OfLevelMembers(s: seq<LogEntry>, level: LogLevel, e: LogEntry)
    ensures e in OfLevel(s, level) <==> e in s && e.level == level
  {
    if s != [] {
      OfLevelMembers(s[1..], level, e);
      assert s == [s[0]] + s[1..];
    }
  }

  /** Every entry of that level is kept, so filtering loses nothing of it. */
  lemma {:induction false} OfLevelAllOfLevel(s: seq<LogEntry>, level: LogLevel)
    requires forall i :: 0 <= i < |s| ==> s[i].level == level
    ensures OfLevel(s, level) == s
  {
    if s != [] {
      OfLevelAllOfLevel(s[1..], level);
    }
  }

  /** Logging one entry adds it to the history's entries of its own level
      (at the back) and to no other level's, before any overflow. */
  lemma OfLevelAppend(s: seq<LogEntry>, e: LogEntry, level: LogLevel)
    ensures OfLevel(s + [e], level) == OfLevel(s, level) + (if e.level == level then [e] else [])
  {
    OfLevelConcat(s, [e], level);
  }
}
