/**
 The detection Buffer of buffer.go: an append-only byte store with a read
 cursor and a closed flag. Each method is one critical section under the
 buffer's lock, so it is modelled as an atomic update; every state-changing
 method is proved to perform the matching BufferSpec.Step.
 */
module Buffers {
  import opened Io
  import opened BufferSpec

  class Buffer {
    var contents: seq<byte>
    var readCursor: nat
    var closed: bool

    /** The cursor never runs past the bytes written. */
    ghost predicate Valid()
      reads this
    {
      State().Valid()
    }

    /** The buffer's state as a value. */
    function State(): BufferState
      reads this
    {
      BufferState(contents, readCursor, closed)
    }

    /** NewBuffer: an empty, open buffer. */
    constructor ()
      ensures Valid()
      ensures contents == [] && readCursor == 0 && !closed
      ensures State() == Empty
    {
      contents := [];
      readCursor := 0;
      closed := false;
    }

    /** Appends the whole chunk to an open buffer; a closed one refuses it and stays as it is. */
    method Write(p: seq<byte>) returns (n: nat, err: Option<Error>)
      requires Valid()
      modifies this
      ensures Valid()
      ensures old(closed) ==> n == 0 && err == Some(WriteClosedBuffer) && contents == old(contents)
      ensures !old(closed) ==> n == |p| && err == None && contents == old(contents) + p
      ensures readCursor == old(readCursor) && closed == old(closed)
      ensures (State(), Reply(n, [], err)) == Step(old(State()), WriteOp(p))
    {
      if closed {
        return 0, Some(WriteClosedBuffer);
      }
      contents := contents + p;
      return |p|, None;
    }

    /**
     Copies unread bytes into d, as many as fit, and moves the cursor past
     them. Fails on a closed buffer; reports EOF when nothing is unread.
     */
    method Read(d: array<byte>) returns (n: nat, err: Option<Error>)
      requires Valid()
      modifies this, d
      ensures Valid()
      ensures contents == old(contents) && closed == old(closed)
      ensures n <= d.Length && d[n..] == old(d[n..])
      ensures old(closed) ==>
                n == 0 && err == Some(ReadClosedBuffer) && readCursor == old(readCursor)
      ensures !old(closed) && old(readCursor) == |contents| ==>
                n == 0 && err == Some(EOF) && readCursor == old(readCursor)
      ensures !old(closed) && old(readCursor) < |contents| ==>
                err == None &&
                n == Min(d.Length, |contents| - old(readCursor)) &&
                readCursor == old(readCursor) + n &&
                d[..n] == contents[old(readCursor)..readCursor]
      ensures (State(), Reply(n, d[..n], err)) == Step(old(State()), ReadOp(d.Length))
    {
      if closed {
        return 0, Some(ReadClosedBuffer);
      }
      if |contents| <= readCursor {
        return 0, Some(EOF);
      }
      n := Copy(d, contents[readCursor..]);
      readCursor := readCursor + n;
      err := None;
    }

    /** Marks the buffer closed; closing again changes nothing. */
    method Close() returns (err: Option<Error>)
      requires Valid()
      modifies this
      ensures Valid()
      ensures closed && err == None
      ensures contents == old(contents) && readCursor == old(readCursor)
      ensures old(closed) ==> State() == old(State())
      ensures (State(), Reply(0, [], err)) == Step(old(State()), CloseOp)
    {
      closed := true;
      return None;
    }

    /** Reports the closed flag. */
    method Closed() returns (c: bool)
      ensures c == closed
    {
      return closed;
    }

    /** A fresh copy of everything ever written, open or closed. */
    method Contents() returns (r: array<byte>)
      ensures fresh(r)
      ensures r[..] == contents
    {
      r := new byte[|contents|](i reads this requires 0 <= i < |contents| => contents[i]);
    }

    /**
     What a detector takes under the lock on each tick: the unread tail and
     the cursor it starts at. A match found in the tail ends within contents.
     */
    method Snapshot() returns (data: seq<byte>, cursor: nat)
      requires Valid()
      ensures cursor == readCursor
      ensures data == contents[readCursor..]
      ensures cursor + |data| == |contents|
    {
      data, cursor := contents[readCursor..], readCursor;
    }

    /**
     A detector's update after a match that ended matchEnd bytes into the
     tail it took at snapshotCursor, when the contents were snapshot. The
     cursor moves to the end of the match unless a reader already moved it
     further; the closed flag is not consulted.
     */
    method ApplyMatch(ghost snapshot: seq<byte>, snapshotCursor: nat, matchEnd: nat)
      requires Valid()
      requires snapshot <= contents
      requires snapshotCursor + matchEnd <= |snapshot|
      modifies this
      ensures Valid()
      ensures contents == old(contents) && closed == old(closed)
      ensures old(readCursor) <= readCursor
      ensures readCursor == if snapshotCursor + matchEnd >= old(readCursor)
                            then snapshotCursor + matchEnd else old(readCursor)
      ensures State() == Step(old(State()), MatchOp(snapshotCursor, matchEnd)).0
    {
      var newCursorPosition := snapshotCursor + matchEnd;
      if newCursorPosition >= readCursor {
        readCursor := newCursorPosition;
      }
    }
  }

  /**
   The first critical section of a detector tick (buffer.go:160-163): under
   the lock it takes the unread tail and its starting cursor, and searches
   the tail (find stands for the compiled regular expression, giving the
   end offset of the first match). Nothing changes. The match, if any, is
   later handed to ApplyMatch in a second critical section; other callers
   may run in between, and BufferSpec.DetectorUpdateAfterOthers states what
   the update then does.
   */
  method Poll(b: Buffer, find: seq<byte> -> Option<nat>) returns (cursor: nat, matchEnd: Option<nat>)
    requires b.Valid()
    requires forall d :: find(d).Some? ==> find(d).value <= |d|
    ensures cursor == b.readCursor
    ensures matchEnd == find(b.contents[b.readCursor..])
    ensures matchEnd.Some? ==> cursor + matchEnd.value <= |b.contents|
  {
    var data;
    data, cursor := b.Snapshot();
    matchEnd := find(data);
  }
}
