/** The raft log store, in memory and on disk. */
module LogStores {
  import opened Base
  import opened Metadata
  import opened LogReplay

  datatype Vote = Vote(term: nat, node: nat, committed: bool)

  // What either store holds: the vote, the entries by index, the purge mark.
  datatype LogState = LogState(vote: Option<Vote>, log: map<nat, Entry>, purged: Option<LogId>)

  function Appended(log: map<nat, Entry>, entries: seq<Entry>): map<nat, Entry> {
    if entries == [] then log
    else
      var last := entries[|entries| - 1];
      Appended(log, entries[..|entries| - 1])[last.logId.index := last]
  }

  function TruncatedFrom(log: map<nat, Entry>, index: nat): map<nat, Entry> {
    map i | i in log && i < index :: log[i]
  }

  function PurgedUpTo(log: map<nat, Entry>, index: nat): map<nat, Entry> {
    map i | i in log && i > index :: log[i]
  }

  // The entries stored at indexes lo .. hi-1, in order.
  function ReadRange(log: map<nat, Entry>, lo: nat, hi: nat): seq<Entry> {
    if hi <= lo then []
    else ReadRange(log, lo, hi - 1) + (if hi - 1 in log then [log[hi - 1]] else [])
  }

  class LogStore {
    var vote: Option<Vote>
    var log: map<nat, Entry>
    var lastPurged: Option<LogId>

    function Value(): LogState
      reads this
    {
      LogState(vote, log, lastPurged)
    }

    constructor ()
      ensures Value() == LogState(None, map[], None)
    {
      vote, log, lastPurged := None, map[], None;
    }

    method SaveVote(v: Vote)
      modifies this
      ensures Value() == old(Value()).(vote := Some(v))
    {
      vote := Some(v);
    }

    method Append(entries: seq<Entry>)
      modifies this
      ensures Value() == old(Value()).(log := Appended(old(log), entries))
    {
      for i := 0 to |entries|
        invariant Value() == old(Value()).(log := Appended(old(log), entries[..i]))
      {
        assert entries[..i + 1][..i] == entries[..i];
        log := log[entries[i].logId.index := entries[i]];
      }
      assert entries[..|entries|] == entries;
    }

    method Truncate(logId: LogId)
      modifies this
      ensures Value() == old(Value()).(log := TruncatedFrom(old(log), logId.index))
    {
      RemoveAll(set k | k in log && k >= logId.index);
    }

    method Purge(logId: LogId)
      modifies this
      ensures Value() == old(Value()).(log := PurgedUpTo(old(log), logId.index), purged := Some(logId))
    {
      RemoveAll(set k | k in log && k <= logId.index);
      lastPurged := Some(logId);
    }

    method RemoveAll(keys: set<nat>)
      modifies this`log
      ensures log == old(log) - keys
    {
      var todo := keys;
      while todo != {}
        invariant todo <= keys
        invariant log == old(log) - (keys - todo)
        decreases todo
      {
        var k :| k in todo;
        log := log - {k};
        todo := todo - {k};
      }
    }
  }

  // Each change goes to a copy of the tables and takes effect when the
  // transaction commits, so a crash leaves the tables as before or as after.
  class PersistentLogStore {
    var voteTable: Option<Vote>
    var logTable: map<nat, Entry>
    var purgeTable: Option<LogId>

    function Value(): LogState
      reads this
    {
      LogState(voteTable, logTable, purgeTable)
    }

    constructor ()
      ensures Value() == LogState(None, map[], None)
    {
      voteTable, logTable, purgeTable := None, map[], None;
    }

    method SaveVote(v: Vote)
      modifies this
      ensures Value() == old(Value()).(vote := Some(v))
    {
      voteTable := Some(v);
    }

    method Append(entries: seq<Entry>)
      modifies this
      ensures Value() == old(Value()).(log := Appended(old(logTable), entries))
    {
      var txn := logTable;
      for i := 0 to |entries|
        invariant unchanged(this)
        invariant txn == Appended(logTable, entries[..i])
      {
        assert entries[..i + 1][..i] == entries[..i];
        txn := txn[entries[i].logId.index := entries[i]];
      }
      assert entries[..|entries|] == entries;
      logTable := txn;
    }

    method Truncate(logId: LogId)
      modifies this
      ensures Value() == old(Value()).(log := TruncatedFrom(old(logTable), logId.index))
    {
      logTable := WithoutKeys(logTable, set k | k in logTable && k >= logId.index);
    }

    method Purge(logId: LogId)
      modifies this
      ensures Value() == old(Value()).(log := PurgedUpTo(old(logTable), logId.index), purged := Some(logId))
    {
      var txn := WithoutKeys(logTable, set k | k in logTable && k <= logId.index);
      logTable, purgeTable := txn, Some(logId);
    }

    static method WithoutKeys(table: map<nat, Entry>, keys: set<nat>) returns (txn: map<nat, Entry>)
      ensures txn == table - keys
    {
      txn := table;
      var todo := keys;
      while todo != {}
        invariant todo <= keys
        invariant txn == table - (keys - todo)
        decreases todo
      {
        var k :| k in todo;
        txn := txn - {k};
        todo := todo - {k};
      }
    }
  }

  // ---------- What a change leaves at each index ----------

  function EntryAt(log: map<nat, Entry>, index: nat): Option<Entry> {
    if index in log then Some(log[index]) else None
  }

  // The last of the entries that carries the index.
  function LastWith(entries: seq<Entry>, index: nat): Option<Entry> {
    if entries == [] then None
    else if entries[|entries| - 1].logId.index == index then Some(entries[|entries| - 1])
    else LastWith(entries[..|entries| - 1], index)
  }

  // After appending there is, at each index, the last entry appended there, or else
  // the one that was there.
  lemma {:induction false} AppendedAt(log: map<nat, Entry>, entries: seq<Entry>, index: nat)
    ensures EntryAt(Appended(log, entries), index)
         == if LastWith(entries, index).Some? then LastWith(entries, index) else EntryAt(log, index)
    decreases |entries|
  {
    if entries != [] {
      AppendedAt(log, entries[..|entries| - 1], index);
    }
  }

  // After truncation the log reads as before below the index, and empty from it on.
  lemma TruncateThenRead(log: map<nat, Entry>, index: nat, lo: nat, hi: nat)
    ensures lo >= index ==> ReadRange(TruncatedFrom(log, index), lo, hi) == []
    ensures hi <= index ==> ReadRange(TruncatedFrom(log, index), lo, hi) == ReadRange(log, lo, hi)
  {
    SameRead(TruncatedFrom(log, index), if hi <= index then log else map[], lo, hi);
    NothingRead(lo, hi);
  }

  // After a purge it reads as before above the index, and empty up to it.
  lemma PurgeThenRead(log: map<nat, Entry>, index: nat, lo: nat, hi: nat)
    ensures hi <= index + 1 ==> ReadRange(PurgedUpTo(log, index), lo, hi) == []
    ensures lo > index ==> ReadRange(PurgedUpTo(log, index), lo, hi) == ReadRange(log, lo, hi)
  {
    SameRead(PurgedUpTo(log, index), if lo > index then log else map[], lo, hi);
    NothingRead(lo, hi);
  }

  lemma {:induction false} SameRead(log: map<nat, Entry>, other: map<nat, Entry>, lo: nat, hi: nat)
    ensures (forall i | lo <= i < hi ::
               (i in log <==> i in other) && (i in log ==> log[i] == other[i])) ==>
            ReadRange(log, lo, hi) == ReadRange(other, lo, hi)
    decreases hi
  {
    if lo < hi {
      SameRead(log, other, lo, hi - 1);
    }
  }

  lemma {:induction false} NothingRead(lo: nat, hi: nat)
    ensures ReadRange(map[], lo, hi) == []
    decreases hi
  {
    if lo < hi {
      NothingRead(lo, hi - 1);
    }
  }

  // ---------- Committed entries in the store ----------

  // The store holds the log's entries at indexes lo .. hi-1.
  ghost predicate Holds(stored: map<nat, Entry>, log: seq<Entry>, lo: nat, hi: nat)
    requires hi <= |log|
  {
    forall i | lo <= i < hi :: i in stored && stored[i] == log[i]
  }

  // The entries to append agree with the log below index hi.
  ghost predicate Agrees(entries: seq<Entry>, log: seq<Entry>, hi: nat)
    requires hi <= |log|
  {
    forall e | e in entries && e.logId.index < hi :: e == log[e.logId.index]
  }

  lemma {:induction false} AppendKeepsHolding(stored: map<nat, Entry>, entries: seq<Entry>, log: seq<Entry>,
                                              lo: nat, hi: nat)
    requires hi <= |log| && Holds(stored, log, lo, hi) && Agrees(entries, log, hi)
    ensures Holds(Appended(stored, entries), log, lo, hi)
    decreases |entries|
  {
    if entries != [] {
      AppendKeepsHolding(stored, entries[..|entries| - 1], log, lo, hi);
      assert entries[|entries| - 1] in entries;
    }
  }

  // Appending the entries from index hi on extends what is held.
  lemma {:induction false} AppendExtends(stored: map<nat, Entry>, entries: seq<Entry>, log: seq<Entry>,
                                         lo: nat, hi: nat)
    requires Numbered(log) && hi + |entries| <= |log| && entries == log[hi..hi + |entries|]
    requires Holds(stored, log, lo, hi)
    ensures Holds(Appended(stored, entries), log, lo, hi + |entries|)
    decreases |entries|
  {
    if entries != [] {
      AppendExtends(stored, entries[..|entries| - 1], log, lo, hi);
    }
  }

  lemma TruncateKeepsHolding(stored: map<nat, Entry>, log: seq<Entry>, lo: nat, hi: nat, index: nat)
    requires hi <= |log| && Holds(stored, log, lo, hi) && hi <= index
    ensures Holds(TruncatedFrom(stored, index), log, lo, hi)
  {
  }

  lemma PurgeKeepsHolding(stored: map<nat, Entry>, log: seq<Entry>, lo: nat, hi: nat, index: nat)
    requires hi <= |log| && Holds(stored, log, lo, hi)
    ensures Holds(PurgedUpTo(stored, index), log, Max(lo, index + 1), hi)
  {
  }

  // What is held is read back as the corresponding stretch of the log.
  lemma {:induction false} ReadHeld(stored: map<nat, Entry>, log: seq<Entry>, lo: nat, hi: nat)
    requires lo <= hi <= |log| && Holds(stored, log, lo, hi)
    ensures ReadRange(stored, lo, hi) == log[lo..hi]
    decreases hi
  {
    if lo < hi {
      ReadHeld(stored, log, lo, hi - 1);
      assert log[lo..hi] == log[lo..hi - 1] + [log[hi - 1]];
    }
  }
}
