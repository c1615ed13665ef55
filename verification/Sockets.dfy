/** A TCP stream as the gateway sees it: what each future `read` will deliver. */
module Sockets {

  /** Bytes still to arrive, whatever the segmentation. */
  function Flatten(segments: seq<string>): string {
    if segments == [] then [] else segments[0] + Flatten(segments[1..])
  }

  lemma FlattenAppend(a: seq<string>, last: string)
    ensures Flatten(a + [last]) == Flatten(a) + last
  {
    if a == [] {
      assert [last][1..] == [];
    } else {
      assert (a + [last])[1..] == a[1..] + [last];
    }
  }

  lemma FlattenOne(segment: string)
    ensures Flatten([segment]) == segment
  {
    assert [segment][1..] == [];
  }

  /** The receiving side of a connection. Each segment is what one `read` returns; a read of
      nothing is the end of the stream. */
  class Socket {
    var segments: seq<string>

    ghost predicate Valid()
      reads this
    {
      forall k :: 0 <= k < |segments| ==> segments[k] != []
    }

    ghost function Pending(): string
      reads this
    {
      Flatten(segments)
    }

    constructor (segments: seq<string>)
      requires forall k :: 0 <= k < |segments| ==> segments[k] != []
      ensures Valid() && this.segments == segments
    {
      this.segments := segments;
    }

    /** `stream.read` into a buffer larger than any segment. */
    method Read() returns (chunk: string)
      requires Valid()
      modifies this
      ensures Valid() && old(Pending()) == chunk + Pending()
      ensures chunk == [] <==> old(segments) == []
      ensures |segments| <= old(|segments|)
      ensures chunk != [] ==> |segments| < old(|segments|)
    {
      if segments == [] {
        return [];
      }
      chunk := segments[0];
      segments := segments[1..];
    }

    /** `stream.read_exact` of `count` bytes. */
    method ReadExact(count: nat) returns (ok: bool, data: string)
      requires Valid()
      modifies this
      ensures Valid()
      ensures ok <==> count <= |old(Pending())|
      ensures ok ==> |data| == count && old(Pending()) == data + Pending()
    {
      data := [];
      while |data| < count && segments != []
        invariant Valid() && |data| <= count
        invariant old(Pending()) == data + Pending()
        decreases count - |data|
      {
        var first := segments[0];
        var missing := count - |data|;
        ghost var before := data + Pending();
        if |first| <= missing {
          data := data + first;
          segments := segments[1..];
        } else {
          data := data + first[..missing];
          segments := [first[missing..]] + segments[1..];
          assert first == first[..missing] + first[missing..];
        }
        assert data + Pending() == before;
      }
      ok := |data| == count;
    }
  }
}
