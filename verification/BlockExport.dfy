/** The export service: blocks are encoded into a buffer that is sent as one event whenever
    the next block would reach the payload limit. */
module BlockExport {
  import opened Wrappers
  import opened Rlp
  import opened Seqs
  import opened Words

  /** Number of header fields times bytes per field. */
  const MAX_HEADER_INFO_SIZE := 3 * 8

  /** A block is its height and the payload of its RLP list. */
  datatype Block = Block(number: nat, payload: seq<Byte>)

  datatype ExportEvent = ExportEvent(from: nat, to: nat, latest: nat, data: seq<Byte>)

  datatype ExportError = ToMustBeGreaterThanFrom | PendingIsNil | SendFailed

  ghost predicate Encodable(b: Block) { |b.payload| < TWO64 }

  ghost predicate AllEncodable(bs: seq<Block>)
  {
    forall i :: 0 <= i < |bs| ==> Encodable(bs[i])
  }

  function MarshalRLP(b: Block): (data: seq<Byte>)
    requires |b.payload| < TWO64
    ensures data != []
  {
    EncodeList(b.payload)
  }

  /** The encoded blocks, one after the other. */
  ghost function EncodeAll(bs: seq<Block>): seq<Byte>
    requires AllEncodable(bs)
  {
    if bs == [] then [] else EncodeAll(bs[..|bs| - 1]) + MarshalRLP(bs[|bs| - 1])
  }

  /** The group stays under the limit, or is a single block. */
  ghost predicate Fits(group: seq<Block>, maxPayload: nat)
    requires AllEncodable(group)
  {
    |group| <= 1 || MAX_HEADER_INFO_SIZE + |EncodeAll(group)| < maxPayload
  }

  /** The event carries exactly the blocks of the group. */
  ghost predicate Carries(e: ExportEvent, group: seq<Block>, maxPayload: nat)
  {
    && group != [] && AllEncodable(group)
    && e.from == group[0].number && e.to == group[|group| - 1].number
    && e.data == EncodeAll(group) && Fits(group, maxPayload)
  }

  /** The block behind the group would reach the limit. */
  ghost predicate Crowded(group: seq<Block>, b: Block, maxPayload: nat)
  {
    AllEncodable(group) && Encodable(b) && MAX_HEADER_INFO_SIZE + |EncodeAll(group)| + |MarshalRLP(b)| >= maxPayload
  }

  /** Each group but the last was closed because the first block of the next did not fit. */
  ghost predicate AllCrowded(groups: seq<seq<Block>>, maxPayload: nat)
  {
    forall i :: 0 <= i < |groups| - 1 ==> ClosedFor(groups, i, maxPayload)
  }

  ghost predicate ClosedFor(groups: seq<seq<Block>>, i: nat, maxPayload: nat)
    requires i < |groups| - 1
  {
    groups[i + 1] != [] && Crowded(groups[i], groups[i + 1][0], maxPayload)
  }

  ghost predicate AllLatest(es: seq<ExportEvent>, latest: nat)
  {
    forall i :: 0 <= i < |es| ==> es[i].latest == latest
  }

  lemma CrowdedNext(groups: seq<seq<Block>>, b: Block, maxPayload: nat)
    requires AllCrowded(groups, maxPayload) && (groups != [] ==> Crowded(groups[|groups| - 1], b, maxPayload))
    ensures AllCrowded(groups + [[b]], maxPayload)
  {
    hide Crowded;
    var after := groups + [[b]];
    forall i | 0 <= i < |after| - 1
      ensures ClosedFor(after, i, maxPayload)
    {
      if i < |groups| - 1 {
        assert ClosedFor(groups, i, maxPayload);
      }
    }
  }

  lemma CrowdedGrows(groups: seq<seq<Block>>, pending: seq<Block>, b: Block, maxPayload: nat)
    requires pending != [] && AllCrowded(groups + [pending], maxPayload)
    ensures AllCrowded(groups + [pending + [b]], maxPayload)
  {
    hide Crowded;
    var before, after := groups + [pending], groups + [pending + [b]];
    forall i | 0 <= i < |after| - 1
      ensures ClosedFor(after, i, maxPayload)
    {
      assert ClosedFor(before, i, maxPayload);
    }
  }

  lemma EncodeAllNonEmpty(bs: seq<Block>)
    requires AllEncodable(bs)
    ensures EncodeAll(bs) == [] <==> bs == []
  {
  }

  lemma NothingFits(maxPayload: nat)
    ensures Fits([], maxPayload)
  {
  }

  lemma EventCarries(e: ExportEvent, group: seq<Block>, maxPayload: nat)
    requires group != [] && AllEncodable(group) && Fits(group, maxPayload) && e.data == EncodeAll(group)
    requires e.from == group[0].number && e.to == group[|group| - 1].number
    ensures Carries(e, group, maxPayload)
  {
  }

  lemma EncodeAllAppend(bs: seq<Block>, b: Block)
    requires AllEncodable(bs) && Encodable(b)
    ensures AllEncodable(bs + [b]) && EncodeAll(bs + [b]) == EncodeAll(bs) + MarshalRLP(b)
  {
    assert (bs + [b])[..|bs + [b]| - 1] == bs;
  }

  /** The receiving end; it takes a number of events and then fails. */
  class Stream {
    var sent: seq<ExportEvent>
    const budget: nat

    constructor (budget: nat)
      ensures sent == [] && this.budget == budget
    {
      sent := [];
      this.budget := budget;
    }

    method Send(e: ExportEvent) returns (ok: bool)
      modifies this
      ensures ok <==> |old(sent)| < budget
      ensures sent == if ok then old(sent) + [e] else old(sent)
    {
      ok := |sent| < budget;
      if ok {
        sent := sent + [e];
      }
    }
  }

  class Writer {
    var buf: seq<Byte>
    var pendingFrom: Option<nat>
    var pendingTo: Option<nat>
    const maxPayload: nat
    const stream: Stream

    /** The blocks in the buffer and, per event sent, the blocks it carried. */
    ghost var pending: seq<Block>
    ghost var groups: seq<seq<Block>>

    ghost predicate Valid()
      reads this, stream
    {
      && AllEncodable(pending) && buf == EncodeAll(pending) && Fits(pending, maxPayload)
      && (pending == [] ==> pendingFrom == None && pendingTo == None)
      && (pending != [] ==> pendingFrom == Some(pending[0].number) && pendingTo == Some(pending[|pending| - 1].number))
      && |stream.sent| == |groups|
      && forall i :: 0 <= i < |groups| ==> Carries(stream.sent[i], groups[i], maxPayload)
    }

    /** Everything appended so far, in order. */
    ghost function Accepted(): seq<Block>
      reads this
    {
      Concat(groups) + pending
    }

    /** Every group so far, the buffered one included, was closed for a block that did not fit. */
    ghost predicate Tight()
      reads this
    {
      && (pending == [] ==> groups == [])
      && AllCrowded(if pending == [] then groups else groups + [pending], maxPayload)
    }

    constructor (stream: Stream, maxPayload: nat)
      requires stream.sent == []
      ensures Tight()
      ensures Valid() && this.stream == stream && this.maxPayload == maxPayload
      ensures Accepted() == []
    {
      this.stream, this.maxPayload := stream, maxPayload;
      buf, pendingFrom, pendingTo := [], None, None;
      pending, groups := [], [];
    }

    lemma SentIsCarried()
      requires Valid()
      ensures CarriesAll(stream.sent, groups, maxPayload) && Concat(groups) <= Accepted()
      ensures pending == [] ==> Concat(groups) == Accepted()
      ensures pending != [] ==> |Concat(groups)| < |Accepted()|
    {
    }

    lemma GroupsCrowded()
      requires Tight() || (pending == [] && AllCrowded(groups, maxPayload))
      ensures AllCrowded(groups, maxPayload)
    {
      hide Crowded;
      if pending != [] {
        var all := groups + [pending];
        forall i | 0 <= i < |groups| - 1
          ensures ClosedFor(groups, i, maxPayload)
        {
          assert ClosedFor(all, i, maxPayload);
        }
      }
    }

    /** Sends the buffer as one event; an empty buffer sends nothing. */
    method Flush(latest: nat) returns (error: Option<ExportError>)
      requires Valid()
      modifies this, stream
      ensures Valid()
      ensures Accepted() == old(Accepted())
      ensures error.None? ==>
                && pending == []
                && groups == if old(pending) == [] then old(groups) else old(groups) + [old(pending)]
      ensures error.Some? ==> pending == old(pending) && groups == old(groups)
      ensures old(Tight()) ==> AllCrowded(groups, maxPayload)
      ensures AllLatest(old(stream.sent), latest) ==> AllLatest(stream.sent, latest)
      ensures error.None? <==> old(pending) == [] || |old(stream.sent)| < stream.budget
      ensures error.Some? ==> error.value == SendFailed && |stream.sent| >= stream.budget && pending != []
    {
      hide MarshalRLP, EncodeAll, Fits, Carries, Concat, Crowded, AllCrowded;
      if Tight() {
        GroupsCrowded();
      }
      EncodeAllNonEmpty(pending);
      EncodeAllNonEmpty([]);
      NothingFits(maxPayload);
      if |buf| == 0 {
        return None;
      }
      if pendingFrom.None? || pendingTo.None? {
        return Some(PendingIsNil);
      }
      var e := ExportEvent(pendingFrom.value, pendingTo.value, latest, buf);
      EventCarries(e, pending, maxPayload);
      var ok := stream.Send(e);
      if !ok {
        return Some(SendFailed);
      }
      groups := groups + [pending];
      ConcatAppend(old(groups), old(pending));
      buf, pendingFrom, pendingTo := [], None, None;
      pending := [];
      return None;
    }

    /** Appends the block, sending the buffer first when the block would reach the limit. */
    method AppendBlock(b: Block, latest: nat) returns (error: Option<ExportError>)
      requires Valid() && Tight() && |b.payload| < TWO64
      modifies this, stream
      ensures Valid() && Tight()
      ensures AllLatest(old(stream.sent), latest) ==> AllLatest(stream.sent, latest)
      ensures Accepted() == if error.None? then old(Accepted()) + [b] else old(Accepted())
      ensures error.Some? ==> error.value == SendFailed && |stream.sent| >= stream.budget && pending != []
    {
      assert Valid() ==> AllEncodable(pending) && buf == EncodeAll(pending);
      ghost var crowded := pending != [] && MAX_HEADER_INFO_SIZE + |buf| + |MarshalRLP(b)| >= maxPayload;
      assert crowded ==> Crowded(pending, b, maxPayload);
      hide MarshalRLP, Valid, Accepted, Crowded, AllCrowded, AllLatest;
      if MAX_HEADER_INFO_SIZE + |buf| + |MarshalRLP(b)| >= maxPayload {
        error := Flush(latest);
        if error.Some? {
          return;
        }
      }
      Buffer(b);
      return None;
    }

    /** Puts the block behind the buffered ones. */
    method Buffer(b: Block)
      requires Valid() && |b.payload| < TWO64
      requires pending == [] || MAX_HEADER_INFO_SIZE + |buf| + |MarshalRLP(b)| < maxPayload
      requires AllCrowded(if pending == [] then groups else groups + [pending], maxPayload)
      requires pending == [] && groups != [] ==> Crowded(groups[|groups| - 1], b, maxPayload)
      modifies this
      ensures Tight()
      ensures Valid() && Accepted() == old(Accepted()) + [b]
    {
      hide MarshalRLP, Carries, Concat, EncodeAll, Crowded, AllCrowded;
      EncodeAllAppend(pending, b);
      if pending == [] {
        CrowdedNext(groups, b, maxPayload);
      } else {
        CrowdedGrows(groups, pending, b, maxPayload);
      }
      assert [] + [b] == [b];
      assert Concat(groups) + (pending + [b]) == Concat(groups) + pending + [b];
      buf := buf + MarshalRLP(b);
      if pendingFrom.None? {
        pendingFrom := Some(b.number);
      }
      pendingTo := Some(b.number);
      pending := pending + [b];
    }
  }

  // ---------------------------------------------------------------------------
  // Export
  // ---------------------------------------------------------------------------

  datatype Request = Request(from: nat, to: nat)

  /** The chain as the loop sees it: blocks by height, and the head at each check. */
  datatype Chain = Chain(blocks: map<nat, Block>, head: nat -> Option<nat>)

  ghost predicate ChainOk(c: Chain)
  {
    forall n :: n in c.blocks ==> c.blocks[n].number == n && Encodable(c.blocks[n])
  }

  predicate CanLoop(req: Request, c: Chain, i: nat)
  {
    if req.to == 0 then c.head(i).Some? && i <= c.head(i).value else i <= req.to
  }

  /** The blocks from `from` on, `count` of them. */
  ghost function Range(c: Chain, from: nat, count: nat): seq<Block>
    requires forall k :: from <= k < from + count ==> k in c.blocks
  {
    seq(count, k requires 0 <= k < count => c.blocks[from + k])
  }

  /** The events' ranges tile the heights from `from` to before `end`. */
  ghost predicate Tiles(es: seq<ExportEvent>, from: nat, end: nat)
  {
    if es == [] then end == from
    else
      var e := es[|es| - 1];
      e.from <= e.to && e.to + 1 == end && Tiles(es[..|es| - 1], from, e.from)
  }

  ghost function DataOf(es: seq<ExportEvent>): seq<Byte>
  {
    if es == [] then [] else DataOf(es[..|es| - 1]) + es[|es| - 1].data
  }

  ghost predicate CarriesAll(es: seq<ExportEvent>, groups: seq<seq<Block>>, maxPayload: nat)
  {
    |es| == |groups| && forall i :: 0 <= i < |es| ==> Carries(es[i], groups[i], maxPayload)
  }

  lemma {:induction false} EncodeAllConcat(a: seq<Block>, b: seq<Block>)
    requires AllEncodable(a) && AllEncodable(b)
    ensures AllEncodable(a + b) && EncodeAll(a + b) == EncodeAll(a) + EncodeAll(b)
  {
    hide MarshalRLP, EncodeAll;
    if b == [] {
      assert a + b == a;
      EncodeAllNonEmpty(b);
    } else {
      var n := |b| - 1;
      EncodeAllConcat(a, b[..n]);
      EncodeAllAppend(b[..n], b[n]);
      EncodeAllAppend(a + b[..n], b[n]);
      assert b[..n] + [b[n]] == b && (a + b[..n]) + [b[n]] == a + b;
    }
  }

  /** The data of the events is the encoding of all their blocks. */
  lemma {:induction false} EventsCarryEncoding(es: seq<ExportEvent>, groups: seq<seq<Block>>, maxPayload: nat)
    requires CarriesAll(es, groups, maxPayload)
    ensures AllEncodable(Concat(groups)) && DataOf(es) == EncodeAll(Concat(groups))
  {
    if es != [] {
      var n := |es| - 1;
      EventsCarryEncoding(es[..n], groups[..n], maxPayload);
      ConcatLast(groups);
      assert Carries(es[n], groups[n], maxPayload);
      EncodeAllConcat(Concat(groups[..n]), groups[n]);
    }
  }

  /** Groups of consecutively numbered blocks give ranges that tile. */
  lemma {:induction false} ConsecutiveTiles(es: seq<ExportEvent>, groups: seq<seq<Block>>, maxPayload: nat, from: nat)
    requires CarriesAll(es, groups, maxPayload)
    requires forall k :: 0 <= k < |Concat(groups)| ==> Concat(groups)[k].number == from + k
    ensures Tiles(es, from, from + |Concat(groups)|)
  {
    if es != [] {
      var n := |es| - 1;
      var before, g := Concat(groups[..n]), groups[n];
      assert Carries(es[n], g, maxPayload);
      ConcatLast(groups);
      forall k | 0 <= k < |before|
        ensures before[k].number == from + k
      {
        assert before[k] == Concat(groups)[k];
      }
      ConsecutiveTiles(es[..n], groups[..n], maxPayload, from);
      assert g[0] == Concat(groups)[|before|] && g[|g| - 1] == Concat(groups)[|before| + |g| - 1];
    }
  }

  /** The event carries exactly the blocks of the heights it announces, under the limit or as a
      single block. */
  ghost predicate OwnRange(c: Chain, e: ExportEvent, maxPayload: nat)
  {
    && e.from <= e.to && (forall k :: e.from <= k <= e.to ==> k in c.blocks)
    && Carries(e, Range(c, e.from, e.to - e.from + 1), maxPayload)
    && (e.from < e.to ==> 24 + |e.data| < maxPayload)
  }

  lemma {:induction false} GroupsAreRanges(es: seq<ExportEvent>, groups: seq<seq<Block>>, c: Chain, from: nat,
                                           maxPayload: nat)
    requires ChainOk(c) && CarriesAll(es, groups, maxPayload)
    requires forall k :: from <= k < from + |Concat(groups)| ==> k in c.blocks
    requires Concat(groups) == Range(c, from, |Concat(groups)|)
    ensures forall i :: 0 <= i < |es| ==> OwnRange(c, es[i], maxPayload)
  {
    hide Concat, Carries, OwnRange, ChainOk;
    if es != [] {
      var n := |es| - 1;
      var before, g := Concat(groups[..n]), groups[n];
      ConcatLast(groups);
      RangePrefix(c, from, |before| + |g|, |before|);
      assert (before + g)[..|before|] == before;
      GroupsAreRanges(es[..n], groups[..n], c, from, maxPayload);
      LastIsOwnRange(es[n], before, g, c, from, maxPayload);
      forall i | 0 <= i < |es|
        ensures OwnRange(c, es[i], maxPayload)
      {
        assert i < n ==> es[..n][i] == es[i];
      }
    }
  }

  lemma RangePrefix(c: Chain, from: nat, total: nat, n: nat)
    requires n <= total && forall k :: from <= k < from + total ==> k in c.blocks
    ensures Range(c, from, n) == Range(c, from, total)[..n]
  {
  }

  lemma LastIsOwnRange(e: ExportEvent, before: seq<Block>, g: seq<Block>, c: Chain, from: nat, maxPayload: nat)
    requires ChainOk(c) && Carries(e, g, maxPayload)
    requires forall k :: from <= k < from + |before| + |g| ==> k in c.blocks
    requires before + g == Range(c, from, |before| + |g|)
    ensures OwnRange(c, e, maxPayload)
  {
    hide EncodeAll;
    var first := from + |before|;
    forall k | 0 <= k < |g|
      ensures g[k] == c.blocks[first + k] && g[k].number == first + k
    {
      assert g[k] == (before + g)[|before| + k];
    }
    assert g == Range(c, first, |g|);
  }

  /** Everything that was sent is right, whether or not the stream failed on the way: the data is
      the encoding of the blocks from `from` on, the ranges tile their heights, and every event
      carries exactly the blocks of its own range, under the limit or as a single block. */
  ghost predicate SentRight(es: seq<ExportEvent>, c: Chain, from: nat, count: nat, maxPayload: nat)
  {
    && (forall k :: from <= k < from + count ==> k in c.blocks)
    && AllEncodable(Range(c, from, count))
    && DataOf(es) == EncodeAll(Range(c, from, count))
    && Tiles(es, from, from + count)
    && forall i :: 0 <= i < |es| ==> OwnRange(c, es[i], maxPayload)
  }

  lemma GroupsAreSentRight(es: seq<ExportEvent>, groups: seq<seq<Block>>, c: Chain, from: nat, maxPayload: nat,
                           total: nat)
    requires ChainOk(c) && CarriesAll(es, groups, maxPayload)
    requires forall k :: from <= k < from + total ==> k in c.blocks
    requires Concat(groups) <= Range(c, from, total)
    ensures SentRight(es, c, from, |Concat(groups)|, maxPayload)
  {
    hide EncodeAll, DataOf, Tiles, Concat, Fits;
    var n := |Concat(groups)|;
    assert Concat(groups) == Range(c, from, n) by {
      assert Range(c, from, n) == Range(c, from, total)[..n];
    }
    EventsCarryEncoding(es, groups, maxPayload);
    ConsecutiveTiles(es, groups, maxPayload, from);
    GroupsAreRanges(es, groups, c, from, maxPayload);
  }

  /** No more events than blocks sent, and no more blocks accepted than the chain has. */
  lemma FewEvents(es: seq<ExportEvent>, c: Chain, from: nat, count: nat, maxPayload: nat, total: nat)
    requires SentRight(es, c, from, count, maxPayload)
    requires forall k :: from <= k < from + total ==> k in c.blocks
    ensures |es| <= count && total <= |c.blocks|
  {
    TilesSpan(es, from, from + count);
    RangeSize(c.blocks.Keys, from, total);
  }

  lemma {:induction false} TilesSpan(es: seq<ExportEvent>, from: nat, end: nat)
    requires Tiles(es, from, end)
    ensures |es| <= end - from
  {
    if es != [] {
      TilesSpan(es[..|es| - 1], from, es[|es| - 1].from);
    }
  }

  lemma {:induction false} TilesEnds(es: seq<ExportEvent>, from: nat, end: nat)
    requires Tiles(es, from, end)
    ensures if es == [] then end == from else es[0].from == from && es[|es| - 1].to + 1 == end > from
  {
    if es != [] {
      var n := |es| - 1;
      TilesEnds(es[..n], from, es[n].from);
    }
  }

  lemma {:induction false} RangeSize(heights: set<nat>, from: nat, count: nat)
    requires forall k :: from <= k < from + count ==> k in heights
    ensures count <= |heights|
  {
    if count > 0 {
      RangeSize(heights - {from + count - 1}, from, count - 1);
    }
  }

  /** The head does not move while the export runs. */
  ghost predicate HeadStays(c: Chain, h: nat) { forall i: nat :: c.head(i) == Some(h) }

  /** The chain has every block from one height to another. */
  ghost predicate GapFree(c: Chain, from: nat, to: nat) { forall k :: from <= k <= to ==> k in c.blocks }

  /** Where the longest run a request allows ends: a bounded one at its bound, an open-ended one
      at the head, each if no block before is missing. */
  ghost predicate EndsRight(req: Request, c: Chain, count: nat)
  {
    var next := req.from + count;
    && (forall k :: req.from <= k < next ==> k in c.blocks)
    && (req.to != 0 ==>
          && (count > 0 ==> next - 1 <= req.to) && (next <= req.to ==> next !in c.blocks))
    && (req.to == 0 ==>
          && (forall k :: req.from <= k < next ==> c.head(k).Some? && k <= c.head(k).value)
          && (next in c.blocks ==> c.head(next).None? || c.head(next).value < next))
  }

  /** The request asks for a block and the chain has it. */
  ghost predicate HasFirst(req: Request, c: Chain)
  {
    && req.from in c.blocks && (req.to != 0 ==> req.from <= req.to)
    && (req.to == 0 ==> c.head(req.from).Some? && req.from <= c.head(req.from).value)
  }

  lemma LongestRun(req: Request, c: Chain, count: nat)
    requires forall k :: req.from <= k < req.from + count ==> k in c.blocks && CanLoop(req, c, k)
    requires !(CanLoop(req, c, req.from + count) && req.from + count in c.blocks)
    ensures EndsRight(req, c, count) && (HasFirst(req, c) <==> count > 0)
  {
    forall k | req.from <= k < req.from + count
      ensures if req.to == 0 then c.head(k).Some? && k <= c.head(k).value else k <= req.to
    {
      assert CanLoop(req, c, k);
    }
    if count > 0 {
      assert CanLoop(req, c, req.from) && CanLoop(req, c, req.from + count - 1);
    }
  }

  lemma ReachesEnd(req: Request, c: Chain, count: nat, h: nat)
    requires EndsRight(req, c, count) && req.from <= h && GapFree(c, req.from, h)
    ensures req.to == h != 0 ==> req.from + count == h + 1
    ensures req.to == 0 && HeadStays(c, h) ==> req.from + count == h + 1
  {
    var next := req.from + count;
    if next <= h {
      assert next in c.blocks;
    }
    if req.to == 0 && HeadStays(c, h) {
      assert c.head(next) == Some(h);
      if count > 0 {
        assert c.head(next - 1) == Some(h);
      }
    }
  }

  /** No event was sent before its time: behind each event but the last comes a block that would
      have reached the limit. */
  ghost predicate NoneEarly(es: seq<ExportEvent>, c: Chain, maxPayload: nat)
  {
    forall i :: 0 <= i < |es| - 1 ==> BlockReaches(es[i], es[i + 1].from, c, maxPayload)
  }

  /** With the block at this height the event would have reached the limit. */
  ghost predicate BlockReaches(e: ExportEvent, height: nat, c: Chain, maxPayload: nat)
  {
    && height in c.blocks && |c.blocks[height].payload| < TWO64
    && 24 + |e.data| + |MarshalRLP(c.blocks[height])| >= maxPayload
  }

  lemma CrowdedIsNotEarly(es: seq<ExportEvent>, groups: seq<seq<Block>>, c: Chain, from: nat, maxPayload: nat,
                          total: nat)
    requires ChainOk(c) && CarriesAll(es, groups, maxPayload) && AllCrowded(groups, maxPayload)
    requires forall k :: from <= k < from + total ==> k in c.blocks
    requires Concat(groups) <= Range(c, from, total)
    ensures NoneEarly(es, c, maxPayload)
  {
    hide EncodeAll, MarshalRLP, Concat, Fits;
    forall i | 0 <= i < |es| - 1
      ensures BlockReaches(es[i], es[i + 1].from, c, maxPayload)
    {
      assert Carries(es[i], groups[i], maxPayload) && Carries(es[i + 1], groups[i + 1], maxPayload);
      assert ClosedFor(groups, i, maxPayload);
      FromChain(groups, c, from, total, i + 1);
    }
  }

  /** The first block of a group is the chain's block of that height. */
  lemma {:induction false} FromChain(groups: seq<seq<Block>>, c: Chain, from: nat, total: nat, j: nat)
    requires ChainOk(c) && j < |groups| && groups[j] != []
    requires forall k :: from <= k < from + total ==> k in c.blocks
    requires Concat(groups) <= Range(c, from, total)
    ensures groups[j][0].number in c.blocks && groups[j][0] == c.blocks[groups[j][0].number]
  {
    var n := |groups| - 1;
    ConcatLast(groups);
    var before := Concat(groups[..n]);
    if j < n {
      FromChain(groups[..n], c, from, total, j);
    } else {
      assert groups[n][0] == (before + groups[n])[|before|] == Range(c, from, total)[|before|];
    }
  }

  /** The heights from `from` to before `end` exist and the request allows them. */
  ghost predicate Allowed(req: Request, c: Chain, end: nat)
  {
    req.from <= end && forall k :: req.from <= k < end ==> k in c.blocks && CanLoop(req, c, k)
  }

  /** Both ends of the longest run, for any head. */
  lemma RunEnds(req: Request, c: Chain, end: nat)
    requires Allowed(req, c, end) && !(CanLoop(req, c, end) && end in c.blocks)
    ensures req.from <= end && EndsRight(req, c, end - req.from) && (HasFirst(req, c) <==> end > req.from)
    ensures forall h: nat :: req.from <= h && GapFree(c, req.from, h) && req.to == 0 && HeadStays(c, h)
                             ==> end == h + 1
  {
    LongestRun(req, c, end - req.from);
    hide EndsRight, GapFree, HeadStays;
    forall h: nat | req.from <= h && GapFree(c, req.from, h) && req.to == 0 && HeadStays(c, h)
      ensures end == h + 1
    {
      ReachesEnd(req, c, end - req.from, h);
    }
  }

  /** The blocks of these heights. */
  ghost function RunOf(req: Request, c: Chain, end: nat): seq<Block>
    requires Allowed(req, c, end)
  {
    Range(c, req.from, end - req.from)
  }

  lemma AllowedNone(req: Request, c: Chain)
    ensures Allowed(req, c, req.from) && RunOf(req, c, req.from) == []
  {
  }

  lemma AllowedMore(req: Request, c: Chain, i: nat)
    requires Allowed(req, c, i) && i in c.blocks && CanLoop(req, c, i)
    ensures Allowed(req, c, i + 1) && RunOf(req, c, i + 1) == RunOf(req, c, i) + [c.blocks[i]]
  {
  }

  /** The writer is in order and has taken these blocks. */
  ghost predicate Taken(w: Writer, bs: seq<Block>, latest: nat)
    reads w, w.stream
  {
    w.Valid() && w.Tight() && AllLatest(w.stream.sent, latest) && w.Accepted() == bs
  }

  /** Appends the longest run of existing blocks the request allows, as far as the stream takes
      it. */
  method AppendRun(req: Request, c: Chain, writer: Writer, latest: nat)
      returns (error: Option<ExportError>, ghost end: nat)
    requires ChainOk(c) && Taken(writer, [], latest)
    modifies writer, writer.stream
    ensures Allowed(req, c, end) && Taken(writer, RunOf(req, c, end), latest)
    ensures error.None? ==> !(CanLoop(req, c, end) && end in c.blocks)
    ensures error.Some? ==>
              error.value == SendFailed && |writer.stream.sent| >= writer.stream.budget && writer.pending != []
  {
    assert forall k :: k in c.blocks ==> |c.blocks[k].payload| < TWO64;
    AllowedNone(req, c);
    hide Taken, CanLoop, ChainOk, Allowed, RunOf;
    var i: nat := req.from;
    ghost var left := c.blocks.Keys;
    while CanLoop(req, c, i) && i in c.blocks
      invariant Allowed(req, c, i) && Taken(writer, RunOf(req, c, i), latest)
      invariant forall k :: k in c.blocks && i <= k ==> k in left
      decreases left
    {
      AllowedMore(req, c, i);
      error := AppendNext(writer, c.blocks[i], latest, RunOf(req, c, i));
      if error.Some? {
        return error, i;
      }
      left := left - {i};
      i := i + 1;
    }
    return None, i;
  }

  method AppendNext(writer: Writer, b: Block, latest: nat, ghost before: seq<Block>)
      returns (error: Option<ExportError>)
    requires Taken(writer, before, latest) && |b.payload| < TWO64
    modifies writer, writer.stream
    ensures Taken(writer, if error.None? then before + [b] else before, latest)
    ensures error.Some? ==>
              error.value == SendFailed && |writer.stream.sent| >= writer.stream.budget && writer.pending != []
  {
    hide AllLatest, Writer.Valid, Writer.Accepted, Writer.Tight;
    error := writer.AppendBlock(b, latest);
  }

  /** What a writer that has taken such a run has sent. */
  lemma WriterSummary(w: Writer, req: Request, c: Chain, end: nat)
    requires ChainOk(c) && Allowed(req, c, end) && w.Valid() && AllCrowded(w.groups, w.maxPayload)
    requires w.Accepted() == RunOf(req, c, end)
    ensures var es, count := w.stream.sent, |Concat(w.groups)|;
            && SentRight(es, c, req.from, count, w.maxPayload) && NoneEarly(es, c, w.maxPayload)
            && |es| <= count && end - req.from <= |c.blocks|
            && (w.pending == [] ==> count == end - req.from) && (w.pending != [] ==> count < end - req.from)
            && (end > req.from ==> HasFirst(req, c))
  {
    hide EncodeAll, SentRight, NoneEarly, Concat, CarriesAll, AllCrowded;
    w.SentIsCarried();
    hide Writer.Valid, Writer.Accepted;
    var es, count := w.stream.sent, |Concat(w.groups)|;
    GroupsAreSentRight(es, w.groups, c, req.from, w.maxPayload, end - req.from);
    FewEvents(es, c, req.from, count, w.maxPayload, end - req.from);
    CrowdedIsNotEarly(es, w.groups, c, req.from, w.maxPayload, end - req.from);
    if end > req.from {
      assert CanLoop(req, c, req.from);
    }
  }

  /** Exports the longest run of existing blocks the request allows. On a send failure what
      was sent is an initial part of it. */
  method Export(req: Request, c: Chain, stream: Stream, maxPayload: nat, latest: nat)
      returns (error: Option<ExportError>, ghost count: nat)
    requires ChainOk(c) && stream.sent == []
    modifies stream
    ensures error == Some(ToMustBeGreaterThanFrom) <==> req.to != 0 && req.from >= req.to
    ensures error == Some(ToMustBeGreaterThanFrom) ==> stream.sent == []
    ensures error.Some? && error.value != ToMustBeGreaterThanFrom ==>
              error.value == SendFailed && |stream.sent| >= stream.budget
    ensures error == Some(SendFailed) ==> HasFirst(req, c)
    ensures stream.budget >= |c.blocks| ==> error != Some(SendFailed)
    ensures error != Some(ToMustBeGreaterThanFrom) ==> SentRight(stream.sent, c, req.from, count, maxPayload)
    ensures error.None? ==> EndsRight(req, c, count) && (HasFirst(req, c) <==> count > 0)
    ensures error.None? ==>
              forall h: nat :: req.from <= h && GapFree(c, req.from, h) && req.to == 0 && HeadStays(c, h)
                               ==> count == h - req.from + 1
    ensures error != Some(ToMustBeGreaterThanFrom) ==> NoneEarly(stream.sent, c, maxPayload)
    ensures forall i :: 0 <= i < |stream.sent| ==> stream.sent[i].latest == latest
  {
    hide GapFree, HeadStays, EndsRight, EncodeAll, CarriesAll, SentRight, Concat, NoneEarly, AllCrowded, HasFirst;
    count := 0;
    if req.to != 0 && req.from >= req.to {
      return Some(ToMustBeGreaterThanFrom), 0;
    }
    var writer := new Writer(stream, maxPayload);
    hide Allowed, RunOf, CanLoop, ChainOk;
    ghost var end;
    error, end := AppendRun(req, c, writer, latest);
    if error.None? {
      RunEnds(req, c, end);
      error := writer.Flush(latest);
    } else {
      writer.GroupsCrowded();
    }
    WriterSummary(writer, req, c, end);
    hide Writer.Valid, Writer.Accepted, Writer.Tight;
    count := |Concat(writer.groups)|;
  }
}
