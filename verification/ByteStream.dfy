/** The output that elements are rendered to (libebml/src/MemIOCallback.cpp). */
module ByteStream {
  import opened Bytes

  /** The contents after bs was written at position p. */
  function Written(data: seq<Byte>, p: nat, bs: seq<Byte>): (r: seq<Byte>)
    requires p <= |data|
    ensures |r| == if p + |bs| <= |data| then |data| else p + |bs|
    ensures r[..p] == data[..p] && r[p..p + |bs|] == bs
    ensures p + |bs| <= |data| ==> r[p + |bs|..] == data[p + |bs|..]
  {
    data[..p] + bs + if p + |bs| <= |data| then data[p + |bs|..] else []
  }

  lemma WrittenTwice(data: seq<Byte>, p: nat, a: seq<Byte>, b: seq<Byte>)
    requires p <= |data|
    ensures Written(Written(data, p, a), p + |a|, b) == Written(data, p, a + b)
  {
    var w := Written(data, p, a);
    assert w[..p + |a|] == data[..p] + a;
    assert data[..p] + a + b == data[..p] + (a + b);
    if p + |a| + |b| <= |data| {
      assert w[p + |a| + |b|..] == data[p + |a| + |b|..];
    }
  }

  lemma WrittenNothing(data: seq<Byte>, p: nat)
    requires p <= |data|
    ensures Written(data, p, []) == data
  {
    assert data[..p] + [] + data[p..] == data;
  }

  class Stream {
    var data: seq<Byte>
    var pos: nat

    constructor ()
      ensures data == [] && pos == 0
    {
      data, pos := [], 0;
    }

    method Write(bs: seq<Byte>)
      requires pos <= |data|
      modifies this
      ensures data == Written(old(data), old(pos), bs) && pos == old(pos) + |bs|
      ensures data[..old(pos)] == old(data)[..old(pos)] && data[old(pos)..pos] == bs
      ensures |data| == if pos <= |old(data)| then |old(data)| else pos
      ensures data[pos..] == if pos <= |old(data)| then old(data)[pos..] else []
    {
      data := data[..pos] + bs + if pos + |bs| <= |data| then data[pos + |bs|..] else [];
      pos := pos + |bs|;
    }

    method SetFilePointer(p: nat)
      modifies this`pos
      ensures pos == p
    {
      pos := p;
    }
  }
}
