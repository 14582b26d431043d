/**
 `LogCaptureAppender`: a buffer of log entries bounded by `maxEntries`
 that drops the oldest entries first. Sequences are values, so the list
 `Entries` hands out is already a copy.
 */
module LogCapture {
  import opened Wrappers

  /** The capacity when none is given. */
  const DefaultMaxEntries: int := 1000

  /** The fields captured from a logging event; the timestamp is a tick count. */
  datatype LogEntry = LogEntry(timestamp: int, level: string, logger: string, message: string, exception: Option<string>)

  datatype Appender = Appender(entries: seq<LogEntry>, maxEntries: int)

  /** `LogCaptureAppender(maxEntries = 1000)`. */
  function NewAppender(maxEntries: int := DefaultMaxEntries): (r: Appender)
    ensures r.entries == [] && r.maxEntries == maxEntries
  {
    Appender([], maxEntries)
  }

  /** Without an argument the buffer holds up to 1000 entries. */
  lemma DefaultCapacity()
    ensures NewAppender().maxEntries == 1000 && NewAppender().entries == []
  {
  }

  /** The last `n` elements of `s`, or all of them when there are fewer. */
  function Newest<E>(s: seq<E>, n: nat): (r: seq<E>)
    ensures |r| == if |s| <= n then |s| else n
    ensures r == s[|s| - |r|..]
  {
    if |s| <= n then s else s[|s| - n..]
  }

  /**
   The trimming loop: while the list is longer than `max`, its first entry
   is removed. With a negative `max` the loop empties the list and then
   removes from an empty list, which fails.
   */
  function TrimFront(s: seq<LogEntry>, max: int): (r: Result<seq<LogEntry>, ListError>)
    ensures max >= 0 ==> r == Ok(Newest(s, max))
    ensures max < 0 ==> r == Err(RemoveFromEmpty)
    decreases |s|
  {
    if |s| <= max then Ok(s)
    else if s == [] then Err(RemoveFromEmpty)
    else
      var r := TrimFront(s[1..], max);
      assert max >= 0 ==> s[1..][|s| - 1 - max..] == s[|s| - max..];
      r
  }

  datatype ListError = RemoveFromEmpty

  /**
   `Append`: the entry goes at the end and the oldest entries are dropped
   until at most `maxEntries` remain. A failure of the loop escapes
   `Append`; the appender base class catches it, and the list is left empty.
   */
  function Append(a: Appender, e: LogEntry): (r: Appender)
    ensures r.maxEntries == a.maxEntries
    ensures a.maxEntries >= 0 ==> |r.entries| <= a.maxEntries
    ensures a.maxEntries >= 0 ==> r.entries == Newest(a.entries + [e], a.maxEntries)
    ensures a.maxEntries < 0 ==> r.entries == []
  {
    match TrimFront(a.entries + [e], a.maxEntries)
    case Ok(kept) => a.(entries := kept)
    case Err(_) => a.(entries := [])
  }

  /** `Entries`: the current list. */
  function Entries(a: Appender): seq<LogEntry> {
    a.entries
  }

  /** `Clear`. */
  function Clear(a: Appender): (r: Appender)
    ensures r.entries == [] && r.maxEntries == a.maxEntries
  {
    a.(entries := [])
  }

  /** Several events appended one after another. */
  function AppendAll(a: Appender, es: seq<LogEntry>): Appender
    decreases |es|
  {
    if es == [] then a else AppendAll(Append(a, es[0]), es[1..])
  }

  /** Trimming what is already trimmed changes nothing: the newest of the newest are the newest. */
  lemma NewestOfNewest<E>(s: seq<E>, t: seq<E>, n: nat)
    ensures Newest(Newest(s, n) + t, n) == Newest(s + t, n)
  {
    var k := Newest(s, n);
    var whole := s + t;
    var part := k + t;
    assert part == whole[|s| - |k|..];
    var r := Newest(part, n);
    assert r == whole[|whole| - |r|..];
  }

  /**
   Over any run of appends with a non-negative capacity, the buffer holds
   the newest `maxEntries` of everything seen since it was last empty, in
   the order they arrived.
   */
  lemma {:induction false} AppendAllKeepsNewest(a: Appender, es: seq<LogEntry>)
    requires a.maxEntries >= 0 && |a.entries| <= a.maxEntries
    ensures AppendAll(a, es).entries == Newest(a.entries + es, a.maxEntries)
    ensures AppendAll(a, es).maxEntries == a.maxEntries
    decreases |es|
  {
    var n: nat := a.maxEntries;
    if es == [] {
      assert a.entries + es == a.entries;
    } else {
      var a1 := Append(a, es[0]);
      var seen := a.entries + [es[0]];
      AppendAllKeepsNewest(a1, es[1..]);
      calc {
        AppendAll(a, es).entries;
        AppendAll(a1, es[1..]).entries;
        Newest(a1.entries + es[1..], n);
        Newest(Newest(seen, n) + es[1..], n);
        { NewestOfNewest(seen, es[1..], n); }
        Newest(seen + es[1..], n);
        { SplitFirst(a.entries, es); }
        Newest(a.entries + es, n);
      }
    }
  }

  lemma SplitFirst<E>(s: seq<E>, es: seq<E>)
    requires es != []
    ensures s + [es[0]] + es[1..] == s + es
  {
    assert es == [es[0]] + es[1..];
  }

  /** While fewer than `maxEntries` events arrived since the buffer was cleared, all of them are kept. */
  lemma KeepsAllBelowCapacity(a: Appender, es: seq<LogEntry>)
    requires a.maxEntries >= 0 && |es| <= a.maxEntries
    ensures AppendAll(Clear(a), es).entries == es
  {
    AppendAllKeepsNewest(Clear(a), es);
    assert Clear(a).entries + es == es;
  }
}
