/**
 * The buffered writer the rasteriser writes to (Go's `*bufio.Writer` over the
 * output file, and stdout when echoing), reduced to the bytes it has accepted
 * and its sticky error. Whether a write fails is decided by the environment:
 * every write may fail, and once one has failed every later one fails too.
 */
module Sink {
  import opened GoInt

  /** `after` is `before` followed by a proper prefix of `s`. */
  predicate AppendedStrictPrefix(before: seq<Byte>, after: seq<Byte>, s: seq<Byte>)
  {
    |before| <= |after| < |before| + |s| && after == before + s[..|after| - |before|]
  }

  class Writer {
    /** The bytes accepted so far, in order. */
    var written: seq<Byte>
    /** Set by the first failing write; bufio.Writer reports it on every later call. */
    var failed: bool

    constructor ()
      ensures written == [] && !failed
    {
      written := [];
      failed := false;
    }

    /**
     * `WriteString`: on success all of `s` is accepted; on failure the writer
     * has taken a proper prefix of `s` and is failed from then on.
     */
    method WriteString(s: seq<Byte>) returns (ok: bool)
      modifies this
      ensures ok == !failed
      ensures old(failed) ==> !ok && written == old(written)
      ensures ok ==> written == old(written) + s
      ensures !ok ==> AppendedStrictPrefix(old(written), written, s) || (s == [] && written == old(written))
    {
      if failed || s == [] {
        ok := !failed;
        return;
      }
      var accepted: bool :| true;
      if accepted {
        written := written + s;
        ok := true;
      } else {
        var k :| 0 <= k < |s|;
        written := written + s[..k];
        failed := true;
        ok := false;
      }
    }

    /** `WriteByte`: the byte is accepted, or nothing is and the writer is failed. */
    method WriteByte(c: Byte) returns (ok: bool)
      modifies this
      ensures ok == !failed
      ensures old(failed) ==> !ok
      ensures written == if ok then old(written) + [c] else old(written)
    {
      if failed {
        ok := false;
        return;
      }
      var accepted: bool :| true;
      if accepted {
        written := written + [c];
        ok := true;
      } else {
        failed := true;
        ok := false;
      }
    }

    /** `Flush`: moves nothing new into the stream; it may fail, and fails if the writer already had. */
    method Flush() returns (ok: bool)
      modifies this
      ensures written == old(written)
      ensures ok == !failed
      ensures old(failed) ==> failed
    {
      if !failed {
        var accepted: bool :| true;
        failed := !accepted;
      }
      ok := !failed;
    }
  }
}
