/** The zero-copy receive path: a fixed pool of packet buffers, and the chain that one received packet is built from. */
module RxChain {
  type u16 = x: int | 0 <= x <= 0xFFFF

  const POOL_SIZE: nat := 12

  function Wrap16(n: nat): u16 {
    n % 0x1_0000
  }

  class Pbuf {
    var next: Pbuf?
    var totLen: u16
    var len: u16

    constructor ()
      ensures next == null
    {
      next, totLen, len := null, 0, 0;
    }
  }

  // ---------------------------------------------------------------------
  // Lengths along a chain.

  /** A link as the rest of the stack sees it: its own length, and the length from here to the end. */
  datatype Segment = Segment(len: u16, totLen: u16)

  function Sum(lengths: seq<u16>): nat {
    if lengths == [] then 0 else lengths[0] + Sum(lengths[1..])
  }

  /** The effect of linking one more buffer: every total grows by its length. */
  function Linked(chain: seq<Segment>, length: u16): (r: seq<Segment>)
    ensures |r| == |chain| + 1
  {
    seq(|chain|, i requires 0 <= i < |chain| => Segment(chain[i].len, Wrap16(chain[i].totLen + length))) +
    [Segment(length, length)]
  }

  /** A chain built by linking buffers of the given lengths, in order. */
  function Built(lengths: seq<u16>): seq<Segment>
    decreases |lengths|
  {
    if lengths == [] then [] else Linked(Built(lengths[..|lengths| - 1]), lengths[|lengths| - 1])
  }

  lemma {:induction false} SumAppends(lengths: seq<u16>, last: u16)
    ensures Sum(lengths + [last]) == Sum(lengths) + last
  {
    if lengths != [] {
      assert (lengths + [last])[1..] == lengths[1..] + [last];
      SumAppends(lengths[1..], last);
    }
  }

  lemma WrapAdds(n: nat, m: nat)
    ensures Wrap16(Wrap16(n) + m) == Wrap16(n + m)
  {
  }

  lemma WrapSmall(n: u16)
    ensures Wrap16(n) == n && Wrap16(0 + n) == n
  {
  }

  /** After any sequence of links, each total is the length from there to the end of the packet, within 16 bits. */
  lemma {:induction false} TotalsAreSuffixSums(lengths: seq<u16>, i: nat)
    requires i < |lengths|
    ensures |Built(lengths)| == |lengths|
    ensures Built(lengths)[i].len == lengths[i] && Built(lengths)[i].totLen == Wrap16(Sum(lengths[i..]))
    decreases |lengths|
  {
    var init, last := lengths[..|lengths| - 1], lengths[|lengths| - 1];
    if i < |init| {
      TotalsAreSuffixSums(init, i);
      assert lengths[i..] == init[i..] + [last];
      SumAppends(init[i..], last);
      WrapAdds(Sum(init[i..]), last);
    } else {
      assert lengths[i..] == [last];
      if init != [] {
        TotalsAreSuffixSums(init, 0);
      }
    }
  }

  // ---------------------------------------------------------------------
  // The chain in memory.

  /** What follows a position in a list of buffers. */
  function After(nodes: seq<Pbuf>, i: nat): Pbuf? {
    if i + 1 < |nodes| then nodes[i + 1] else null
  }

  ghost predicate Distinct(nodes: seq<Pbuf>) {
    forall i, j :: 0 <= i < |nodes| && 0 <= j < |nodes| && i != j ==> nodes[i] != nodes[j]
  }

  /** The links visit each buffer of a list in turn and stop after the last. */
  ghost predicate Chained(nodes: seq<Pbuf>)
    reads nodes`next
  {
    forall i :: 0 <= i < |nodes| ==> nodes[i].next == After(nodes, i)
  }

  /** The lengths stored in a list of buffers. */
  ghost predicate Shows(nodes: seq<Pbuf>, segments: seq<Segment>)
    reads nodes`len, nodes`totLen
  {
    |nodes| == |segments| &&
    forall i :: 0 <= i < |nodes| ==> nodes[i].len == segments[i].len && nodes[i].totLen == segments[i].totLen
  }

  function Added(segments: seq<Segment>, length: u16, count: nat): (r: seq<Segment>)
    ensures |r| == |segments|
  {
    seq(|segments|, i requires 0 <= i < |segments| =>
      if i < count then Segment(segments[i].len, Wrap16(segments[i].totLen + length)) else segments[i])
  }

  /** The packet under construction, with its first and last buffer. */
  class Packet {
    var start: Pbuf?
    var end: Pbuf?
    ghost var nodes: seq<Pbuf>
    ghost var segments: seq<Segment>

    ghost predicate Valid()
      reads this, nodes
    {
      Distinct(nodes) && Chained(nodes) && Shows(nodes, segments) &&
      start == (if nodes == [] then null else nodes[0]) &&
      (nodes != [] ==> end == nodes[|nodes| - 1])
    }

    constructor ()
      ensures Valid() && nodes == [] && segments == []
    {
      start, end, nodes, segments := null, null, [], [];
    }

    /** One more buffer behind the packet; every total then counts it. */
    method Link(p: Pbuf, length: u16)
      requires Valid() && p !in nodes
      modifies this, nodes, p
      ensures Valid() && nodes == old(nodes) + [p]
      ensures segments == Linked(old(segments), length)
    {
      hide Wrap16, Distinct, Chained, Shows;
      Append(p, length);
      AddToTotals(start, nodes, segments, length);
      segments := Added(segments, length, |segments|);
      WrapSmall(length);
      assert segments == Linked(old(segments), length);
    }

    /** Chains a buffer whose length no total counts yet. */
    method Append(p: Pbuf, length: u16)
      requires Valid() && p !in nodes
      modifies this, nodes`next, p
      ensures Valid() && nodes == old(nodes) + [p] && segments == old(segments) + [Segment(length, 0)]
    {
      p.next, p.totLen, p.len := null, 0, length;
      assert Chained(nodes) && Shows(nodes, segments);
      if start == null {
        start := p;
      } else {
        end.next := p;
      }
      end := p;
      nodes, segments := nodes + [p], segments + [Segment(length, 0)];
      assert Chained(nodes) by {
        assert forall i :: 0 <= i < |nodes| - 1 ==> After(nodes, i) == nodes[i + 1];
      }
    }
  }

  /** Links one buffer after another: the packet in memory carries the suffix sums of its lengths. */
  method Assemble(buffers: seq<Pbuf>, lengths: seq<u16>) returns (packet: Packet)
    requires |buffers| == |lengths| && Distinct(buffers)
    modifies buffers
    ensures fresh(packet) && packet.Valid() && packet.nodes == buffers
    ensures forall i :: 0 <= i < |buffers| ==>
              buffers[i].len == lengths[i] && buffers[i].totLen == Wrap16(Sum(lengths[i..])) &&
              buffers[i].next == After(buffers, i)
  {
    packet := new Packet();
    assert buffers[..0] == [] && lengths[..0] == [];
    for k := 0 to |buffers|
      invariant fresh(packet) && packet.Valid() && packet.nodes == buffers[..k]
      invariant packet.segments == Built(lengths[..k])
    {
      BuiltGrows(lengths, k);
      assert buffers[..k + 1] == buffers[..k] + [buffers[k]];
      packet.Link(buffers[k], lengths[k]);
    }
    assert buffers[..|buffers|] == buffers && lengths[..|lengths|] == lengths;
    forall i | 0 <= i < |buffers|
      ensures buffers[i].len == lengths[i] && buffers[i].totLen == Wrap16(Sum(lengths[i..]))
    {
      TotalsAreSuffixSums(lengths, i);
    }
  }

  lemma BuiltGrows(lengths: seq<u16>, k: nat)
    requires k < |lengths|
    ensures Built(lengths[..k + 1]) == Linked(Built(lengths[..k]), lengths[k])
  {
    var longer := lengths[..k + 1];
    assert longer[..|longer| - 1] == lengths[..k];
  }

  /** Walks the links from the start and adds a length to every total. */
  method AddToTotals(start: Pbuf?, ghost nodes: seq<Pbuf>, ghost segments: seq<Segment>, length: u16)
    requires Distinct(nodes) && Chained(nodes) && Shows(nodes, segments)
    requires start == if nodes == [] then null else nodes[0]
    modifies nodes`totLen
    ensures Shows(nodes, Added(segments, length, |segments|))
  {
    var p := start;
    ghost var i := 0;
    while p != null
      invariant 0 <= i <= |nodes| && (p == if i < |nodes| then nodes[i] else null)
      invariant Shows(nodes, Added(segments, length, i))
      decreases |nodes| - i
    {
      Increment(p, nodes, segments, i, length);
      p := p.next;
      i := i + 1;
    }
  }

  method Increment(p: Pbuf, ghost nodes: seq<Pbuf>, ghost segments: seq<Segment>, ghost i: nat, length: u16)
    requires Distinct(nodes) && i < |nodes| && p == nodes[i] && Shows(nodes, Added(segments, length, i))
    modifies p`totLen
    ensures Shows(nodes, Added(segments, length, i + 1))
  {
    hide Wrap16;
    p.totLen := Wrap16(p.totLen + length);
  }

  // ---------------------------------------------------------------------
  // The pool and its allocation status.

  datatype AllocStatus = AllocOk | AllocError

  class Pool {
    var free: seq<Pbuf>
    var outstanding: set<Pbuf>
    var status: AllocStatus

    /** All twelve buffers are accounted for, and the status reports an error only while none is free. */
    ghost predicate Valid()
      reads this
    {
      (forall i, j :: 0 <= i < j < |free| ==> free[i] != free[j]) &&
      (forall p :: p in free ==> p !in outstanding) &&
      |free| + |outstanding| == POOL_SIZE &&
      (status == AllocError ==> |outstanding| == POOL_SIZE)
    }

    constructor ()
      ensures Valid() && status == AllocOk && outstanding == {}
      ensures forall p :: p in free ==> fresh(p)
    {
      free, outstanding, status := [], {}, AllocOk;
      new;
      while |free| < POOL_SIZE
        invariant |free| <= POOL_SIZE && outstanding == {} && status == AllocOk
        invariant forall i, j :: 0 <= i < j < |free| ==> free[i] != free[j]
        invariant forall p :: p in free ==> fresh(p)
        decreases POOL_SIZE - |free|
      {
        var p := new Pbuf();
        free := free + [p];
      }
    }

    /** The allocation callback: no buffer only when all are outstanding, and then the status says so. */
    method Allocate() returns (p: Pbuf?)
      requires Valid()
      modifies this
      ensures Valid() && old(free) == (if p == null then [] else [p]) + free
      ensures p == null <==> |old(outstanding)| == 12
      ensures p != null ==> p !in old(outstanding) && outstanding == old(outstanding) + {p} && status == old(status)
      ensures p == null ==> outstanding == old(outstanding) && status == AllocError
    {
      if free == [] {
        status := AllocError;
        return null;
      }
      p := free[0];
      free, outstanding := free[1..], outstanding + {p};
    }

    /** The free callback: a returned buffer always clears an error. */
    method Free(p: Pbuf)
      requires Valid() && p in outstanding
      modifies this
      ensures Valid() && outstanding == old(outstanding) - {p} && status == AllocOk && free == [p] + old(free)
    {
      free, outstanding := [p] + free, outstanding - {p};
      if status == AllocError {
        status := AllocOk;
      }
    }

    /** The driver is asked for a packet only when the last allocation did not fail. */
    method MayRead() returns (r: bool)
      requires Valid()
      ensures r ==> status == AllocOk
      ensures !r ==> |outstanding| == 12 && free == []
    {
      r := status == AllocOk;
    }
  }
}
