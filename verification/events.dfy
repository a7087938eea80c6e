/** The records the tailer produces and the per-file state it resumes from. */
module Events {
  import opened Common
  import opened LineScanner

  /** Static tag fields attached to every event of a file. */
  type Fields = map<string, string>

  /** One shipped line: the file's tag fields plus the fields "file",
      "offset" (just after the line's line feed), "line" and "host". */
  datatype Event = Event(fields: Fields, file: string, offset: nat, line: string, host: string)

  /** A tailed file: its canonical path, its current contents, the offset
      committed by the previous cycle and its tag fields. */
  datatype FileState = FileState(path: string, data: seq<byte>, pointer: nat, fields: Fields)

  /** The event built for a line read from `state`. */
  function NewEvent(state: FileState, host: string, l: LineRead): Event
  {
    Event(state.fields, state.path, l.end, l.text, host)
  }

  /** Appends one event per line, in order, to `list`. */
  function AddEvents(list: seq<Event>, state: FileState, host: string, lines: seq<LineRead>): (r: seq<Event>)
    ensures |r| == |list| + |lines|
    ensures r[..|list|] == list
    ensures forall i :: 0 <= i < |lines| ==> LineOf(r[|list| + i]) == lines[i]
    ensures forall i :: |list| <= i < |r| ==> FromFile(r[i], state, host)
    decreases |lines|
  {
    if lines == [] then list
    else AddEvents(list + [NewEvent(state, host, lines[0])], state, host, lines[1..])
  }

  /** The line and offset an event carries. */
  function LineOf(e: Event): LineRead
  {
    LineRead(e.line, e.offset)
  }

  /** The lines and offsets carried by a list of events, in order. */
  function LinesOf(es: seq<Event>): (ls: seq<LineRead>)
    ensures |ls| == |es|
    ensures forall i :: 0 <= i < |es| ==> ls[i] == LineOf(es[i])
  {
    seq(|es|, i requires 0 <= i < |es| => LineOf(es[i]))
  }

  /** The event carries the file's path and tag fields and the host name. */
  predicate FromFile(e: Event, state: FileState, host: string)
  {
    e.file == state.path && e.fields == state.fields && e.host == host
  }
}
