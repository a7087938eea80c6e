/** One tailing cycle: every file in turn gets the spool capacity not yet
    used this cycle, the events of all files go to the adapter in a single
    call, and the new offsets are committed only if that call returns. */
module Cycle {
  import opened Common
  import opened Sniffer
  import opened LineScanner
  import opened LineReader
  import opened Events

  /** What reading one file contributes: its new events and its new offset. */
  datatype FileRead = FileRead(events: seq<Event>, pointer: nat)

  /** The reader's state between cycles: the spool capacity, the host name
      (resolved once, when the reader is built) and the event list. */
  datatype Reader = Reader(spoolSize: int, host: string, eventList: seq<Event>)

  /** The result of one cycle. `ok` is false when the adapter's exception
      propagated (then `count` is meaningless and 0); `sent` lists the
      batches handed to the adapter; `states` are the file states after the
      cycle and `eventList` is what the reader's event list holds after it. */
  datatype Outcome = Outcome(ok: bool, count: int, sent: seq<seq<Event>>, states: seq<FileState>, eventList: seq<Event>)

  /** Reads one file with `space` slots left in the spool: a compressed
      file's offset jumps to its length, any other file's next complete
      lines become events. */
  function ReadFile(state: FileState, host: string, space: int): FileRead
  {
    if HasMagicPrefix(state.data) then FileRead([], |state.data|)
    else
      var read := ScanLines(state.data, state.pointer, space);
      FileRead(AddEvents([], state, host, read.lines), read.pointer)
  }

  /** A compressed file is skipped entirely: no events, and its offset
      jumps to its length. Any other file contributes at most `space`
      events, which carry its next complete lines in order; its offset
      follows the last of them, and stopping short of `space` means the
      file holds no further line feed. */
  lemma ReadFileContract(state: FileState, host: string, space: int)
    ensures HasMagicPrefix(state.data) ==> ReadFile(state, host, space) == FileRead([], |state.data|)
    ensures !HasMagicPrefix(state.data) ==>
      var r := ReadFile(state, host, space);
      && |r.events| <= Max0(space)
      && Tiles(state.data, state.pointer, LinesOf(r.events))
      && r.pointer == LastEnd(state.pointer, LinesOf(r.events))
      && (|r.events| < space ==> NoLineFeedFrom(state.data, r.pointer))
    ensures forall i :: 0 <= i < |ReadFile(state, host, space).events| ==>
      FromFile(ReadFile(state, host, space).events[i], state, host)
  {
    if !HasMagicPrefix(state.data) {
      var read := ReadLines(state.data, state.pointer, space);
      var events := AddEvents([], state, host, read.lines);
      assert LinesOf(events) == read.lines;
    }
  }

  /** The events gathered and the offsets computed by a pass over the
      files, in file order. */
  datatype Pass = Pass(events: seq<Event>, pointers: seq<nat>)

  /** How a pass reads one file, given the spool capacity left. */
  type FileReading = (FileState, int) -> FileRead

  /** The tailer's way of reading a file, for a given host name. */
  function Reading(host: string): FileReading
  {
    (s: FileState, space: int) => ReadFile(s, host, space)
  }

  /** The pass over the files in order: each file may add at most the
      spool capacity left after the events of the files before it. */
  function Scan(states: seq<FileState>, spool: int, read: FileReading): (p: Pass)
    ensures |p.pointers| == |states|
    decreases |states|
  {
    if states == [] then Pass([], [])
    else
      var n := |states| - 1;
      var prev := Scan(states[..n], spool, read);
      var f := read(states[n], spool - |prev.events|);
      Pass(prev.events + f.events, prev.pointers + [f.pointer])
  }

  /** Extending a pass by file `i`: that file gets the capacity left after
      the files before it. */
  lemma ScanSnoc(states: seq<FileState>, i: nat, spool: int, read: FileReading, prev: Pass, f: FileRead)
    requires i < |states|
    requires prev == Scan(states[..i], spool, read)
    requires f == read(states[i], spool - |prev.events|)
    ensures Scan(states[..i + 1], spool, read) == Pass(prev.events + f.events, prev.pointers + [f.pointer])
  {
    assert states[..i + 1][..i] == states[..i];
    assert states[..i + 1][i] == states[i];
  }

  /** A pass ends with its last file's read. */
  lemma ScanLast(states: seq<FileState>, spool: int, read: FileReading, prev: Pass, f: FileRead)
    requires states != []
    requires prev == Scan(states[..|states| - 1], spool, read)
    requires f == read(states[|states| - 1], spool - |prev.events|)
    ensures Scan(states, spool, read) == Pass(prev.events + f.events, prev.pointers + [f.pointer])
  {
  }

  /** A file read never takes more events than the capacity it is given. */
  ghost predicate WithinSpace(read: FileReading)
  {
    forall s, space :: |read(s, space).events| <= Max0(space)
  }

  /** A pass built from reads that respect their capacity never gathers
      more events than the spool holds. */
  lemma {:induction false} ScanWithinSpool(states: seq<FileState>, spool: int, read: FileReading)
    requires WithinSpace(read)
    ensures |Scan(states, spool, read).events| <= Max0(spool)
    decreases |states|
  {
    if states != [] {
      var n := |states| - 1;
      var prev := Scan(states[..n], spool, read);
      var f := read(states[n], spool - |prev.events|);
      ScanWithinSpool(states[..n], spool, read);
      ScanLast(states, spool, read, prev, f);
    }
  }

  /** File `i`'s offset in a pass is the one its read returned, with the
      capacity the files before it left over. */
  lemma {:induction false} ScanPointer(states: seq<FileState>, spool: int, read: FileReading, i: nat)
    requires i < |states|
    ensures Scan(states, spool, read).pointers[i] ==
      read(states[i], spool - |Scan(states[..i], spool, read).events|).pointer
    decreases |states|
  {
    var n := |states| - 1;
    var prev := Scan(states[..n], spool, read);
    var f := read(states[n], spool - |prev.events|);
    ScanLast(states, spool, read, prev, f);
    if i < n {
      ScanPointer(states[..n], spool, read, i);
      assert states[..n][..i] == states[..i];
      assert states[..n][i] == states[i];
    } else {
      assert states[..n] == states[..i];
    }
  }

  /** The offset map after putting `pointers[i]` under `states[i].path` for
      every file in order: a later put for the same path replaces an earlier one. */
  function PointerMap(states: seq<FileState>, pointers: seq<nat>): (m: map<string, nat>)
    requires |pointers| == |states|
    ensures forall i :: 0 <= i < |states| ==> states[i].path in m
    decreases |states|
  {
    if states == [] then map[]
    else
      var n := |states| - 1;
      PointerMap(states[..n], pointers[..n])[states[n].path := pointers[n]]
  }

  /** Putting file `i`'s offset into the map of the files before it. */
  lemma PointerMapSnoc(states: seq<FileState>, pointers: seq<nat>, i: nat, p: nat)
    requires i < |states| && |pointers| == i
    ensures PointerMap(states[..i + 1], pointers + [p]) == PointerMap(states[..i], pointers)[states[i].path := p]
  {
    assert states[..i + 1][..i] == states[..i];
    assert (pointers + [p])[..i] == pointers;
  }

  /** No later file has the same path as file `i`. */
  predicate LastWithPath(states: seq<FileState>, i: nat)
    requires i < |states|
  {
    forall j :: i < j < |states| ==> states[j].path != states[i].path
  }

  /** The map holds, under each path, the offset of the last file with that path. */
  lemma {:induction false} PointerMapLast(states: seq<FileState>, pointers: seq<nat>, i: nat)
    requires |pointers| == |states| && i < |states|
    requires LastWithPath(states, i)
    ensures PointerMap(states, pointers)[states[i].path] == pointers[i]
    decreases |states|
  {
    var n := |states| - 1;
    if i < n {
      assert states[..n][i] == states[i];
      assert LastWithPath(states[..n], i);
      PointerMapLast(states[..n], pointers[..n], i);
    }
  }

  /** No two files share a path. */
  predicate DistinctPaths(states: seq<FileState>)
  {
    forall i, j :: 0 <= i < j < |states| ==> states[i].path != states[j].path
  }

  /** Sets every file's pointer from the offset map, changing nothing else. */
  function Commit(states: seq<FileState>, m: map<string, nat>): (r: seq<FileState>)
    requires forall i :: 0 <= i < |states| ==> states[i].path in m
    ensures |r| == |states|
    ensures forall i :: 0 <= i < |states| ==> r[i] == states[i].(pointer := m[states[i].path])
  {
    seq(|states|, i requires 0 <= i < |states| => states[i].(pointer := m[states[i].path]))
  }

  /** The committed pointers of `states`, in order. */
  function PointersOf(states: seq<FileState>): (ps: seq<nat>)
    ensures |ps| == |states|
    ensures forall i :: 0 <= i < |states| ==> ps[i] == states[i].pointer
  {
    seq(|states|, i requires 0 <= i < |states| => states[i].pointer)
  }

  /** One cycle as the code is written: the event list is appended to, the
      adapter is called once if this cycle added events, and on success the
      pointers are committed and the list cleared. If the adapter throws,
      the exception propagates before either: the pointers stay as they
      were and the list keeps every event it held. */
  function CycleAsWritten(reader: Reader, states: seq<FileState>, adapterAccepts: bool): (o: Outcome)
  {
    var pass := Scan(states, reader.spoolSize, Reading(reader.host));
    var list := reader.eventList + pass.events;
    var count := |pass.events|;
    if count > 0 && !adapterAccepts then
      Outcome(false, 0, [list], states, list)
    else
      Outcome(true, count, if count > 0 then [list] else [], Commit(states, PointerMap(states, pass.pointers)), [])
  }

  /** One cycle with the event list scoped to the cycle: it starts empty and
      is cleared whatever the adapter does. */
  function Cycle(spoolSize: int, host: string, states: seq<FileState>, adapterAccepts: bool): (o: Outcome)
    ensures o.eventList == []
  {
    CycleAsWritten(Reader(spoolSize, host, []), states, adapterAccepts).(eventList := [])
  }

  /** The tailer's file read respects the capacity it is given. */
  lemma ReadingWithinSpace(host: string)
    ensures WithinSpace(Reading(host))
  {
    forall s, space
      ensures |Reading(host)(s, space).events| <= Max0(space)
    {
      ReadFileContract(s, host, space);
    }
  }

  /** The loop over the files: each file is read with the spool capacity
      the files before it left, its events are appended to the list and its
      new offset is put into the offset map under its path. */
  method Gather(spoolSize: int, host: string, states: seq<FileState>)
    returns (eventList: seq<Event>, pointerMap: map<string, nat>)
    ensures eventList == Scan(states, spoolSize, Reading(host)).events
    ensures pointerMap == PointerMap(states, Scan(states, spoolSize, Reading(host)).pointers)
  {
    var eventCount := 0;
    eventList := [];
    pointerMap := map[];
    ghost var pointers: seq<nat> := [];
    var i := 0;
    while i < |states|
      invariant 0 <= i <= |states|
      invariant eventCount == |eventList|
      invariant Scan(states[..i], spoolSize, Reading(host)) == Pass(eventList, pointers)
      invariant pointerMap == PointerMap(states[..i], pointers)
    {
      // ReadFile(states[i], host, spoolSize - eventCount), through the same function the pass uses
      var f := Reading(host)(states[i], spoolSize - eventCount);
      ScanSnoc(states, i, spoolSize, Reading(host), Pass(eventList, pointers), f);
      PointerMapSnoc(states, pointers, i, f.pointer);
      eventList := eventList + f.events;
      eventCount := eventCount + |f.events|;
      pointerMap := pointerMap[states[i].path := f.pointer];
      pointers := pointers + [f.pointer];
      i := i + 1;
    }
    assert states[..i] == states;
  }

  /** The cycle: gather the events and offsets of all files, then make at
      most one adapter call and the all-or-nothing commit. Every batch
      handed to the adapter is non-empty and fits the spool. */
  method ReadFiles(spoolSize: int, host: string, states: seq<FileState>, adapterAccepts: bool) returns (o: Outcome)
    ensures o == Cycle(spoolSize, host, states, adapterAccepts)
    ensures |o.sent| <= 1
    ensures forall b :: b in o.sent ==> 0 < |b| <= spoolSize
    ensures o.ok <==> (o.sent == [] || adapterAccepts)
    ensures o.ok ==> o.count == (if o.sent == [] then 0 else |o.sent[0]|)
    ensures !o.ok ==> o.states == states
  {
    var eventList, pointerMap := Gather(spoolSize, host, states);
    var eventCount := |eventList|;
    assert [] + eventList == eventList;
    CycleContract(spoolSize, host, states, adapterAccepts);
    if eventCount > 0 && !adapterAccepts {
      o := Outcome(false, 0, [eventList], states, []);
      return;
    }
    var sent := if eventCount > 0 then [eventList] else [];
    o := Outcome(true, eventCount, sent, Commit(states, pointerMap), []);
  }

  /** With the list scoped to the cycle, the one batch handed to the
      adapter is exactly this cycle's events, so it never exceeds the spool. */
  lemma CycleContract(spoolSize: int, host: string, states: seq<FileState>, adapterAccepts: bool)
    ensures var o := Cycle(spoolSize, host, states, adapterAccepts);
      && |o.sent| <= 1
      && (forall b :: b in o.sent ==> 0 < |b| <= spoolSize && b == Scan(states, spoolSize, Reading(host)).events)
      && (o.ok <==> (o.sent == [] || adapterAccepts))
      && (o.ok ==> o.count == (if o.sent == [] then 0 else |o.sent[0]|))
      && (!o.ok ==> o.states == states)
  {
    var pass := Scan(states, spoolSize, Reading(host));
    ReadingWithinSpace(host);
    ScanWithinSpool(states, spoolSize, Reading(host));
    assert [] + pass.events == pass.events;
  }

  /** All or nothing, as written: the adapter is called at most once, and
      only when this cycle found events, with everything the list holds.
      If it throws, no pointer changes and the list keeps its events; if it
      returns, only the pointers change, each to the offset computed for
      its file, and the list is cleared. */
  lemma CommitAllOrNothing(reader: Reader, states: seq<FileState>, adapterAccepts: bool)
    ensures var o := CycleAsWritten(reader, states, adapterAccepts);
            var pass := Scan(states, reader.spoolSize, Reading(reader.host));
      && |o.sent| <= 1
      && (o.sent != [] <==> |pass.events| > 0)
      && (o.sent != [] ==> o.sent[0] == reader.eventList + pass.events)
      && (o.ok <==> (|pass.events| == 0 || adapterAccepts))
      && (!o.ok ==> o.states == states && o.eventList == reader.eventList + pass.events)
      && (o.ok ==> o.count == |pass.events| && o.eventList == [] && |o.states| == |states|)
      && (o.ok ==> forall i :: 0 <= i < |states| ==> o.states[i] == states[i].(pointer := o.states[i].pointer))
      && (o.ok && DistinctPaths(states) ==> forall i :: 0 <= i < |states| ==> o.states[i].pointer == pass.pointers[i])
  {
    var pass := Scan(states, reader.spoolSize, Reading(reader.host));
    var o := CycleAsWritten(reader, states, adapterAccepts);
    if o.ok && DistinctPaths(states) {
      forall i | 0 <= i < |states|
        ensures o.states[i].pointer == pass.pointers[i]
      {
        PointerMapLast(states, pass.pointers, i);
      }
    }
  }

  /** A file is caught up when reading it again finds nothing new: a
      compressed file sits at its length, any other file has no line feed
      after its pointer. */
  ghost predicate CaughtUp(s: FileState)
  {
    if HasMagicPrefix(s.data) then s.pointer == |s.data| else NoLineFeedFrom(s.data, s.pointer)
  }

  /** A caught-up file yields no event and keeps its pointer. */
  lemma ReadCaughtUp(s: FileState, host: string, space: int)
    requires CaughtUp(s)
    ensures ReadFile(s, host, space) == FileRead([], s.pointer)
  {
    if !HasMagicPrefix(s.data) {
      assert ReadLine(s.data, s.pointer).None?;
    }
  }

  /** A file read to less than its budget is caught up at its new pointer. */
  lemma ReadBelowBudget(s: FileState, host: string, space: int)
    requires |ReadFile(s, host, space).events| < space
    ensures CaughtUp(s.(pointer := ReadFile(s, host, space).pointer))
  {
    ReadFileContract(s, host, space);
  }

  /** A read that stops below its capacity leaves the file caught up. */
  ghost predicate StopsCaughtUp(read: FileReading)
  {
    forall s, space :: |read(s, space).events| < space ==> CaughtUp(s.(pointer := read(s, space).pointer))
  }

  /** A caught-up file is read as nothing, at the same pointer. */
  ghost predicate IdleWhenCaughtUp(read: FileReading)
  {
    forall s, space :: CaughtUp(s) ==> read(s, space) == FileRead([], s.pointer)
  }

  /** The tailer's file read has both properties. */
  lemma ReadingCatchesUp(host: string)
    ensures StopsCaughtUp(Reading(host))
    ensures IdleWhenCaughtUp(Reading(host))
  {
    forall s, space | |Reading(host)(s, space).events| < space
      ensures CaughtUp(s.(pointer := Reading(host)(s, space).pointer))
    {
      ReadBelowBudget(s, host, space);
    }
    forall s, space | CaughtUp(s)
      ensures Reading(host)(s, space) == FileRead([], s.pointer)
    {
      ReadCaughtUp(s, host, space);
    }
  }

  /** A pass that ends below the spool size leaves every file caught up. */
  lemma {:induction false} ScanBelowSpool(states: seq<FileState>, spool: int, read: FileReading)
    requires StopsCaughtUp(read)
    requires |Scan(states, spool, read).events| < spool
    ensures forall i :: 0 <= i < |states| ==>
      CaughtUp(states[i].(pointer := Scan(states, spool, read).pointers[i]))
    decreases |states|
  {
    if states != [] {
      var n := |states| - 1;
      var prev := Scan(states[..n], spool, read);
      var f := read(states[n], spool - |prev.events|);
      ScanLast(states, spool, read, prev, f);
      var ptrs := prev.pointers + [f.pointer];
      ScanBelowSpool(states[..n], spool, read);
      forall i | 0 <= i < |states|
        ensures CaughtUp(states[i].(pointer := ptrs[i]))
      {
        if i < n {
          assert states[..n][i] == states[i];
        }
      }
    }
  }

  /** A pass over caught-up files finds no event and moves no pointer. */
  lemma {:induction false} ScanCaughtUp(states: seq<FileState>, spool: int, read: FileReading)
    requires IdleWhenCaughtUp(read)
    requires forall i :: 0 <= i < |states| ==> CaughtUp(states[i])
    ensures Scan(states, spool, read) == Pass([], PointersOf(states))
    decreases |states|
  {
    if states != [] {
      var n := |states| - 1;
      ScanCaughtUp(states[..n], spool, read);
      assert CaughtUp(states[n]);
      assert PointersOf(states[..n]) + [states[n].pointer] == PointersOf(states);
    }
  }

  /** Re-running a cycle when no file grew: once a cycle has committed
      fewer events than the spool holds, the next cycle finds no event,
      does not call the adapter and leaves every pointer where it is. */
  lemma RerunIsIdle(spoolSize: int, host: string, states: seq<FileState>, first: bool, second: bool)
    requires DistinctPaths(states)
    requires Cycle(spoolSize, host, states, first).ok
    requires Cycle(spoolSize, host, states, first).count < spoolSize
    ensures var after := Cycle(spoolSize, host, states, first).states;
            Cycle(spoolSize, host, after, second) == Outcome(true, 0, [], after, [])
  {
    var pass := Scan(states, spoolSize, Reading(host));
    CommitAllOrNothing(Reader(spoolSize, host, []), states, first);
    var after := Cycle(spoolSize, host, states, first).states;
    ReadingCatchesUp(host);
    ScanBelowSpool(states, spoolSize, Reading(host));
    assert forall i :: 0 <= i < |after| ==> after[i] == states[i].(pointer := pass.pointers[i]);
    ScanCaughtUp(after, spoolSize, Reading(host));
    var m := PointerMap(after, PointersOf(after));
    forall i | 0 <= i < |after|
      ensures m[after[i].path] == after[i].pointer
    {
      PointerMapLast(after, PointersOf(after), i);
    }
    assert Commit(after, m) == after;
  }

  /** The one-line file "a\n" read by host "h" with a spool of one: the
      first read yields the single event for "a". */
  lemma OneLineRead()
    ensures var s := FileState("f", [0x61, LF], 0, map[]);
            Scan([s], 1, Reading("h")) == Pass([Event(map[], "f", 2, "a", "h")], [2])
  {
    var s := FileState("f", [0x61, LF], 0, map[]);
    MagicBytes(s.data);
    DecodePlainBytes(s.data[0..1]);
    assert Decode(s.data[0..1]) == "a";
    assert !NoLineFeedFrom(s.data, 0) by {
      assert s.data[1] == LF;
    }
    assert ReadLine(s.data, 0) == Some(LineRead("a", 2));
    assert ScanLines(s.data, 0, 1) == Read([LineRead("a", 2)], 2);
    assert ReadFile(s, "h", 1) == FileRead([Event(map[], "f", 2, "a", "h")], 2);
    ScanLast([s], 1, Reading("h"), Pass([], []), ReadFile(s, "h", 1));
  }

  /** As written, a failed send leaves its events in the list, so the next
      successful cycle re-sends them together with the same lines read
      again: the adapter gets a duplicated event and a batch larger than the
      spool. With the list scoped to the cycle, the second batch is exactly
      the one event. */
  lemma StaleEventsResent()
    ensures var s := FileState("f", [0x61, LF], 0, map[]);
            var reader := Reader(1, "h", []);
            var first := CycleAsWritten(reader, [s], false);
            var second := CycleAsWritten(reader.(eventList := first.eventList), [s], true);
            && !first.ok && first.states == [s]
            && second.ok && |second.sent| == 1
            && |second.sent[0]| == 2 > reader.spoolSize
            && second.sent[0][0] == second.sent[0][1]
            && Cycle(1, "h", Cycle(1, "h", [s], false).states, true).sent == [first.sent[0]]
  {
    OneLineRead();
  }
}
