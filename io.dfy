/**
 The vocabulary shared by the buffer and the prefixing writer of package iorw:
 bytes, optional errors, the errors the package returns, Go's built-in `copy`
 into a byte slice, and the io.Writer that a PrefixedWriter forwards to.
 */
module Io {

  /** A Go `byte`. */
  newtype byte = x: int | 0 <= x < 256

  /** The byte '\n'. */
  const Newline: byte := 10

  /** A Go `error` result: None stands for nil. */
  datatype Option<+T> = None | Some(value: T)

  /** The errors the modelled operations return. */
  datatype Error =
    | EOF                  // io.EOF: nothing unread yet
    | ReadClosedBuffer     // ErrReadClosedBuffer
    | WriteClosedBuffer    // ErrWriteClosedBuffer
    | WriterFailed(code: nat)  // whatever an underlying io.Writer reports; opaque here

  function Min(a: nat, b: nat): nat
  {
    if a <= b then a else b
  }

  /** Go's built-in `copy(dst, src)`: copies as many leading bytes as both hold and says how many. */
  method Copy(dst: array<byte>, src: seq<byte>) returns (n: nat)
    modifies dst
    ensures n == Min(dst.Length, |src|)
    ensures dst[..n] == src[..n]
    ensures dst[n..] == old(dst[n..])
  {
    n := Min(dst.Length, |src|);
    forall i | 0 <= i < n {
      dst[i] := src[i];
    }
  }

  /**
   An io.Writer whose implementation is not visible. It keeps what it has
   accepted; each Write accepts some leading part of its argument and, as the
   io.Writer contract demands, reports an error whenever it accepts less
   than all of it. How much it accepts and whether it fails is its own affair.
   */
  class Sink {
    var written: seq<byte>
    /** The error each call reported, in call order. */
    ghost var results: seq<Option<Error>>

    constructor ()
      ensures written == [] && results == []
    {
      written := [];
      results := [];
    }

    method Write(p: seq<byte>) returns (n: nat, err: Option<Error>)
      modifies this
      ensures n <= |p|
      ensures written == old(written) + p[..n]
      ensures n < |p| ==> err.Some?
      ensures results == old(results) + [err]
    {
      n :| n <= |p|;
      var failed: bool :| true;
      written := written + p[..n];
      if n < |p| || failed {
        var code: nat :| true;
        err := Some(WriterFailed(code));
      } else {
        err := None;
      }
      results := results + [err];
    }
  }
}
