/** A byte stream that arrives in arbitrary pieces. */
module ByteStream {
  import opened Prelude

  class Stream {
    /** The pieces still to arrive; a piece is never empty. */
    var chunks: seq<seq<byte>>

    ghost predicate Valid()
      reads this
    {
      forall i :: 0 <= i < |chunks| ==> chunks[i] != []
    }

    /** The bytes not yet read. */
    function Bytes(): seq<byte>
      reads this
    {
      Concat(chunks)
    }

    constructor (chunks: seq<seq<byte>>)
      requires forall i :: 0 <= i < |chunks| ==> chunks[i] != []
      ensures Valid() && Bytes() == Concat(chunks)
    {
      this.chunks := chunks;
    }

    /** One read into a buffer of `max` bytes: what is there, at most `max`, and nothing only at the
        end of the stream. */
    method Read(max: nat) returns (data: seq<byte>)
      requires Valid() && max > 0
      modifies this
      ensures Valid() && |data| <= max
      ensures old(Bytes()) == data + Bytes()
      ensures data == [] <==> old(Bytes()) == []
    {
      if |chunks| == 0 {
        return [];
      }
      var first := chunks[0];
      if |first| <= max {
        data := first;
        chunks := chunks[1..];
      } else {
        data := first[..max];
        chunks := [first[max..]] + chunks[1..];
        assert chunks[1..] == old(chunks)[1..];
        assert first == data + first[max..];
      }
    }

    /** Reads until `n` bytes are there: exactly the next `n` bytes, or none if the stream ends
        before. */
    method ReadExact(n: nat) returns (r: Option<seq<byte>>)
      requires Valid()
      modifies this
      ensures Valid()
      ensures |old(Bytes())| >= n ==> r == Some(old(Bytes())[..n]) && Bytes() == old(Bytes())[n..]
      ensures |old(Bytes())| < n ==> r == None && Bytes() == []
    {
      var buf: seq<byte> := [];
      while |buf| < n
        invariant Valid() && |buf| <= n
        invariant old(Bytes()) == buf + Bytes()
        decreases n - |buf|
      {
        var data := Read(n - |buf|);
        if data == [] {
          return None;
        }
        buf := buf + data;
      }
      return Some(buf);
    }
  }
}
