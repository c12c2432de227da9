/** The byte backlog of a master (src/server/Server.js) and the PSYNC decision taken from it. */
module Backlogs {
  import opened Wrappers
  import opened Bytes

  /** `bytes` is replBacklogBuf, `offset` is replicationOffset. */
  datatype Backlog = Backlog(bytes: Bytes, offset: nat, maxBytes: nat)

  function Append(b: Backlog, payload: Bytes): Backlog {
    if payload == [] then b
    else
      var joined := b.bytes + payload;
      var kept := if |joined| > b.maxBytes then joined[|joined| - b.maxBytes..] else joined;
      b.(bytes := kept, offset := b.offset + |payload|)
  }

  /** Offset, counted from 1, of the first byte still held. */
  function StartOffset(b: Backlog): int {
    if b.bytes == [] then b.offset + 1 else b.offset - |b.bytes| + 1
  }

  /** PSYNC answers from the backlog; None stands for an absent or unreadable number. */
  predicate CanContinue(b: Backlog, runId: Bytes, wantId: Bytes, wantOff: Option<int>) {
    wantId != [] && wantId == runId && wantOff.Some?
    && StartOffset(b) - 1 <= wantOff.value <= b.offset
  }

  function SliceFrom(b: Backlog, wantOff: int): Bytes {
    var start := wantOff + 1 - StartOffset(b);
    if start <= 0 then b.bytes else if start >= |b.bytes| then [] else b.bytes[start..]
  }

  // ---------- the window onto the whole history ----------

  function Last(s: Bytes, n: nat): Bytes {
    if |s| <= n then s else s[|s| - n..]
  }

  ghost predicate Holds(b: Backlog, history: Bytes) {
    b.offset == |history| && b.bytes == Last(history, b.maxBytes)
  }

  /** However long the history, the buffer is its last min(total, max) bytes. */
  lemma {:induction false} AppendKeepsWindow(b: Backlog, history: Bytes, payload: Bytes)
    requires Holds(b, history)
    ensures Holds(Append(b, payload), history + payload)
  {
  }

  function AppendAll(b: Backlog, payloads: seq<Bytes>): Backlog
    decreases |payloads|
  {
    if payloads == [] then b else AppendAll(Append(b, payloads[0]), payloads[1..])
  }

  function Joined(payloads: seq<Bytes>): Bytes {
    if payloads == [] then [] else payloads[0] + Joined(payloads[1..])
  }

  lemma {:induction false} WindowAfterAnyAppends(b: Backlog, history: Bytes, payloads: seq<Bytes>)
    requires Holds(b, history)
    ensures Holds(AppendAll(b, payloads), history + Joined(payloads))
    decreases |payloads|
  {
    hide Holds;
    if payloads == [] {
      assert history + [] == history;
    } else {
      assert history + Joined(payloads) == (history + payloads[0]) + Joined(payloads[1..]);
      AppendKeepsWindow(b, history, payloads[0]);
      WindowAfterAnyAppends(Append(b, payloads[0]), history + payloads[0], payloads[1..]);
    }
  }

  /** PSYNC continues exactly when the run id matches and the request lies between the first byte not
      evicted and the present; the slice is then exactly the history from the requested offset. */
  lemma {:induction false} ContinueIff(b: Backlog, history: Bytes, runId: Bytes, wantId: Bytes, wantOff: Option<int>)
    requires Holds(b, history)
    ensures var evicted := if |history| > b.maxBytes then |history| - b.maxBytes else 0;
            CanContinue(b, runId, wantId, wantOff) <==>
            wantId != [] && wantId == runId && wantOff.Some? && evicted <= wantOff.value <= |history|
    ensures CanContinue(b, runId, wantId, wantOff) ==>
              SliceFrom(b, wantOff.value) == history[wantOff.value..]
  {
  }

  class MasterBacklog {
    const runId: Bytes
    const replBacklogMaxBytes: nat
    var replBacklogBuf: Bytes
    var replicationOffset: nat

    function State(): Backlog
      reads this
    {
      Backlog(replBacklogBuf, replicationOffset, replBacklogMaxBytes)
    }

    constructor (runId: Bytes, maxBytes: nat)
      ensures this.runId == runId
      ensures State() == Backlog([], 0, maxBytes) && Holds(State(), [])
    {
      this.runId := runId;
      replBacklogMaxBytes := maxBytes;
      replBacklogBuf := [];
      replicationOffset := 0;
    }

    method AppendToBacklog(buf: Bytes)
      modifies this
      ensures State() == Append(old(State()), buf)
      ensures forall history :: old(Holds(State(), history)) ==> Holds(State(), history + buf)
    {
      ghost var was := State();
      if buf != [] {
        replBacklogBuf := replBacklogBuf + buf;
        replicationOffset := replicationOffset + |buf|;
        if |replBacklogBuf| > replBacklogMaxBytes {
          var drop := |replBacklogBuf| - replBacklogMaxBytes;
          replBacklogBuf := replBacklogBuf[drop..];
        }
      }
      forall history | Holds(was, history) ensures Holds(State(), history + buf) {
        AppendKeepsWindow(was, history, buf);
      }
    }

    /** Of any history the backlog holds: one more than the bytes no longer held. */
    method ReplBacklogStartOffset() returns (start: int)
      ensures start == StartOffset(State())
      ensures forall history :: Holds(State(), history) ==>
                start == (if |history| > replBacklogMaxBytes then |history| - replBacklogMaxBytes else 0) + 1
                && replBacklogBuf == history[start - 1..]
    {
      if |replBacklogBuf| == 0 { return replicationOffset + 1; }
      return replicationOffset - |replBacklogBuf| + 1;
    }

    /** Some(slice) is +CONTINUE followed by these bytes, None is a full resync. */
    method Psync(wantId: Bytes, wantOff: Option<int>) returns (r: Option<Bytes>)
      ensures r.Some? <==> CanContinue(State(), runId, wantId, wantOff)
      ensures r.Some? ==> r.value == SliceFrom(State(), wantOff.value)
      ensures forall history :: Holds(State(), history) && r.Some? ==> r.value == history[wantOff.value..]
    {
      var backlogStart := ReplBacklogStartOffset();
      if wantId != [] && wantId == runId && wantOff.Some?
         && wantOff.value >= backlogStart - 1 && wantOff.value <= replicationOffset {
        var startIndex := if wantOff.value + 1 - backlogStart > 0 then wantOff.value + 1 - backlogStart else 0;
        r := Some(if startIndex >= |replBacklogBuf| then [] else replBacklogBuf[startIndex..]);
        forall history | Holds(State(), history) ensures r.value == history[wantOff.value..] {
          ContinueIff(State(), history, runId, wantId, wantOff);
        }
      } else {
        r := None;
      }
    }
  }
}
