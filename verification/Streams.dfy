/** Streams that are written to: the status a write reports and the loop that writes all of a buffer. */
module Streams {
  import opened Bytes

  datatype Status = Status(bytesWritten: nat, succeed: bool, finish: bool)

  /** The sums the writers keep: bytes add up, a failure or an end sticks. */
  function Plus(a: Status, b: Status): Status {
    Status(a.bytesWritten + b.bytesWritten, a.succeed && b.succeed, a.finish || b.finish)
  }

  /** Where the text goes: it takes any non-empty part of what it is given, or fails, or has had enough. */
  class Sink {
    var content: seq<byte>
    /** How many writes have failed, and how many said that it had enough. */
    ghost var failures: nat
    ghost var ends: nat

    constructor ()
      ensures content == []
    {
      content, failures, ends := [], 0, 0;
    }

    method Write(data: seq<byte>) returns (st: Status)
      requires data != []
      modifies this
      ensures st.bytesWritten <= |data| && content == old(content) + data[..st.bytesWritten]
      ensures st.succeed && !st.finish ==> st.bytesWritten > 0
      ensures failures == old(failures) + if st.succeed then 0 else 1
      ensures ends == old(ends) + if st.finish then 1 else 0
    {
      var n: nat, ok, done :| n <= |data| && (ok && !done ==> n > 0);
      content := content + data[..n];
      st := Status(n, ok, done);
      failures, ends := failures + if ok then 0 else 1, ends + if done then 1 else 0;
    }

    /** Writes until all of the data is taken, or the sink fails or ends, and says which of these it was. */
    method WriteFullStream(data: seq<byte>) returns (cur: Status)
      modifies this
      ensures cur.bytesWritten <= |data| && content == old(content) + data[..cur.bytesWritten]
      ensures cur.succeed && !cur.finish ==> cur.bytesWritten == |data|
      ensures (cur.succeed <==> failures == old(failures)) && (cur.finish <==> ends > old(ends))
      ensures failures >= old(failures) && ends >= old(ends)
    {
      cur := Status(0, true, false);
      while cur.bytesWritten < |data|
        invariant cur.bytesWritten <= |data| && content == old(content) + data[..cur.bytesWritten]
        invariant cur.succeed && !cur.finish && failures == old(failures) && ends == old(ends)
        decreases |data| - cur.bytesWritten
      {
        var n := cur.bytesWritten;
        var st := Write(data[n..]);
        assert data[..n] + data[n..][..st.bytesWritten] == data[..n + st.bytesWritten];
        cur := Plus(cur, st);
        if !cur.succeed || cur.finish {
          return;
        }
      }
    }
  }
}
