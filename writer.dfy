/**
 PrefixedWriter (writer.go): forwards everything written to it to another
 writer, with a fixed prefix in front of every line. Each Write is one
 critical section under the writer's lock, so it is modelled as atomic.
 */
module Writers {
  import opened Io
  import opened PrefixSpec

  class PrefixedWriter {
    const writer: Sink
    const prefix: seq<byte>
    var atStartOfLine: bool

    /** NewPrefixedWriter: nothing written yet, so the next byte starts a line. */
    constructor (prefix: seq<byte>, writer: Sink)
      ensures this.prefix == prefix && this.writer == writer
      ensures atStartOfLine
    {
      this.prefix := prefix;
      this.writer := writer;
      atStartOfLine := true;
    }

    /**
     Builds the prefixed form of b, updating the start-of-line flag byte by
     byte, then hands it to the underlying writer in one call. The flag keeps
     its new value even when that call fails; the count is len(b) on success
     and 0 on failure, and the error is the one the underlying writer reported.
     */
    method Write(b: seq<byte>) returns (n: nat, err: Option<Error>)
      modifies this, writer
      ensures atStartOfLine == Prefixed(prefix, old(atStartOfLine), b).1
      ensures old(writer.written) <= writer.written
      ensures writer.written[|old(writer.written)|..] <= Prefixed(prefix, old(atStartOfLine), b).0
      ensures err == None ==>
                n == |b| && writer.written == old(writer.written) + Prefixed(prefix, old(atStartOfLine), b).0
      ensures err != None ==> n == 0
      ensures writer.results == old(writer.results) + [err]
    {
      ghost var start := atStartOfLine;
      var toWrite: seq<byte> := [];
      for i := 0 to |b|
        modifies this
        invariant (toWrite, atStartOfLine) == Prefixed(prefix, start, b[..i])
      {
        var c := b[i];
        PrefixedSnoc(prefix, start, b[..i], c);
        assert b[..i + 1] == b[..i] + [c];
        if atStartOfLine {
          toWrite := toWrite + prefix;
        } else {
          assert toWrite + [] == toWrite;
        }
        toWrite := toWrite + [c];
        atStartOfLine := c == Newline;
      }
      assert b[..|b|] == b;
      var _, writeErr := writer.Write(toWrite);
      if writeErr != None {
        return 0, writeErr;
      }
      return |b|, None;
    }
  }
}
