/** The restoring side of the archive: a reader of RLP lists over one reused buffer that is
    grown when a list does not fit. */
module BlockRestore {
  import opened Wrappers
  import opened Rlp
  import opened BlockExport
  import opened Words

  /** Go's buffers end below 2^63 bytes; a larger announced size panics there. */
  datatype ReadError = EndOfFile | NotAList | Oversized

  /** Header and payload size of a list, or why there is none. */
  datatype Header = Header(headerSize: nat, payloadSize: nat)

  /** What the first bytes of the input announce; the input is not empty. */
  function Announced(input: seq<Byte>): Result<Header, ReadError>
    requires input != []
  {
    var prefix := input[0];
    if prefix < 0xc0 then Failure(NotAList)
    else if prefix <= 0xf7 then Success(Header(1, prefix - 0xc0))
    else
      var k := prefix - 0xf7;
      if |input| < 1 + k then Failure(EndOfFile) else Success(Header(1 + k, FromBigEndian(input[1..1 + k])))
  }

  /** An encoded list announces itself, whatever follows it. */
  lemma EncodedListAnnounced(payload: seq<Byte>, rest: seq<Byte>)
    requires |payload| < TWO64
    ensures var input := EncodeList(payload) + rest;
            && input != []
            && Announced(input) == Success(Header(|ListHeader(|payload|)|, |payload|))
            && input[..|EncodeList(payload)|] == EncodeList(payload)
            && input[|EncodeList(payload)|..] == rest
  {
    var n, input := |payload|, EncodeList(payload) + rest;
    if n >= 56 {
      BigEndianSize(n, 8);
      BigEndianRoundTrip(n);
      assert input[1..1 + |BigEndian(n)|] == BigEndian(n);
    }
  }

  /** A list cut short announces itself as long as its header is whole. */
  lemma CutListAnnounced(payload: seq<Byte>, m: nat)
    requires |payload| < TWO63 - 9 && 0 < m < |EncodeList(payload)|
    ensures var h := |ListHeader(|payload|)|;
            Announced(EncodeList(payload)[..m]) ==
            if m < h then Result.Failure(EndOfFile) else Success(Header(h, |payload|))
  {
    var whole := EncodeList(payload);
    var h := |ListHeader(|payload|)|;
    EncodedListAnnounced(payload, []);
    assert whole + [] == whole;
    var cut := whole[..m];
    assert cut[0] == whole[0];
    if m >= h > 1 {
      assert cut[1..h] == whole[1..h];
    }
  }

  class BlockStream {
    /** What the file still holds. */
    var input: seq<Byte>

    /** The backing array; its length is the capacity. */
    var buffer: array<Byte>

    /** The extra room the runtime leaves when the buffer grows. */
    const slack: nat

    ghost predicate Valid()
      reads this
    {
      buffer.Length >= 1
    }

    constructor (input: seq<Byte>, slack: nat)
      ensures Valid() && fresh(buffer) && this.input == input
    {
      this.input := input;
      this.slack := slack;
      buffer := new Byte[1024];
    }

    /** A read that fills the given part of the buffer as far as the input goes, and reports
        the end of the file when bytes are wanted and none are left. */
    method Read(offset: nat, n: nat) returns (got: nat, eof: bool)
      requires offset + n <= buffer.Length
      modifies this`input, buffer
      ensures eof <==> n > 0 && old(input) == []
      ensures got == if n <= |old(input)| then n else |old(input)|
      ensures buffer[offset..offset + got] == old(input)[..got] && input == old(input)[got..]
      ensures buffer[..offset] == old(buffer[..offset])
    {
      eof := n > 0 && input == [];
      got := if n <= |input| then n else |input|;
      forall i | 0 <= i < got {
        buffer[offset + i] := input[i];
      }
      input := input[got..];
    }

    /** Makes room for size bytes; what the buffer held stays. */
    method ReserveCap(size: nat)
      requires Valid()
      modifies this`buffer
      ensures Valid() && buffer.Length >= size
      ensures buffer == old(buffer) || fresh(buffer)
      ensures old(buffer.Length) <= buffer.Length && buffer[..old(buffer.Length)] == old(buffer[..])
    {
      if size > buffer.Length {
        var bigger := new Byte[size + slack](_ => 0);
        forall i | 0 <= i < buffer.Length {
          bigger[i] := buffer[i];
        }
        buffer := bigger;
      }
    }

    /** Reads the rest of the header after the first byte. */
    method LoadPrefixSize(prefix: Byte) returns (r: Result<Header, ReadError>)
      requires Valid() && buffer[0] == prefix
      modifies this, buffer
      ensures Valid() && (buffer == old(buffer) || fresh(buffer)) && |input| <= |old(input)|
      ensures var whole := [prefix] + old(input);
              && r == Announced(whole)
              && (r.Success? ==>
                    var h := r.value.headerSize;
                    && 1 <= h <= |whole| && h <= buffer.Length
                    && buffer[..h] == whole[..h] && input == whole[h..])
    {
      ghost var whole := [prefix] + input;
      if 0xc0 <= prefix <= 0xf7 {
        return Success(Header(1, prefix - 0xc0));
      }
      if prefix < 0xc0 {
        return Failure(NotAList);
      }
      var k := prefix - 0xf7;
      ReserveCap(1 + k);
      assert buffer[..1] == [prefix];
      var got, eof := Read(1, k);
      if eof || got < k {
        return Failure(EndOfFile);
      }
      var size := buffer[1..1 + k];
      assert size == whole[1..1 + k];
      assert buffer[..1 + k] == buffer[..1] + buffer[1..1 + k];
      assert buffer[..1 + k] == [prefix] + size;
      assert [prefix] + size == whole[..1 + k];
      assert input == whole[1 + k..];
      return Success(Header(1 + k, FromBigEndian(size)));
    }

    /** Loads one list into the buffer and returns its size; zero at the end of the file.
        The number of payload bytes that were there is not looked at. */
    method LoadRLPArray() returns (r: Result<nat, ReadError>)
      requires Valid()
      modifies this, buffer
      ensures Valid() && (buffer == old(buffer) || fresh(buffer))
      ensures old(input) == [] ==> r == Success(0) && input == []
      ensures old(input) != [] ==> |input| < |old(input)| && r != Success(0)
      ensures old(input) != [] && Announced(old(input)).Failure? ==> r == Failure(Announced(old(input)).error)
      ensures old(input) != [] && Announced(old(input)).Success? ==>
                var Header(h, n) := Announced(old(input)).value;
                if h + n >= TWO63 then r == Failure(Oversized)
                else if n > 0 && |old(input)| == h then r == Failure(EndOfFile)
                else
                  && r == Success(h + n) && h + n <= buffer.Length && h <= |old(input)|
                  && (h + n <= |old(input)| ==> buffer[..h + n] == old(input)[..h + n] && input == old(input)[h + n..])
    {
      hide Announced;
      ghost var all := input;
      var got, eof := Read(0, 1);
      if eof {
        return Success(0);
      }
      assert all == [buffer[0]] + input;
      var header := LoadPrefixSize(buffer[0]);
      if header.Failure? {
        return Failure(header.error);
      }
      var Header(h, n) := header.value;
      if h + n >= TWO63 {
        return Failure(Oversized);
      }
      eof := LoadPayload(h, n, all);
      if eof {
        return Failure(EndOfFile);
      }
      return Success(h + n);
    }

    /** Reads the payload behind a header of h bytes that is already in the buffer. */
    method LoadPayload(h: nat, n: nat, ghost all: seq<Byte>) returns (eof: bool)
      requires Valid() && 1 <= h <= |all| && h <= buffer.Length
      requires buffer[..h] == all[..h] && input == all[h..]
      modifies this, buffer
      ensures Valid() && (buffer == old(buffer) || fresh(buffer)) && h + n <= buffer.Length
      ensures eof <==> n > 0 && |all| == h
      ensures |input| <= |old(input)|
      ensures h + n <= |all| ==> buffer[..h + n] == all[..h + n] && input == all[h + n..]
    {
      ReserveCap(h + n);
      assert buffer[..h] == all[..h];
      var got;
      got, eof := Read(h, n);
      if h + n <= |all| {
        assert buffer[..h + n] == buffer[..h] + buffer[h..h + n] == all[..h + n];
      }
    }

    /** The bytes of the next block as the parser gets them, or None at the end. */
    method NextBlock() returns (r: Result<Option<seq<Byte>>, ReadError>)
      requires Valid()
      modifies this, buffer
      ensures Valid() && (buffer == old(buffer) || fresh(buffer))
      ensures old(input) == [] ==> r == Success(None) && input == []
      ensures old(input) != [] ==> |input| < |old(input)| && r != Success(None)
      ensures forall payload: seq<Byte>, rest ::
                |payload| < TWO63 - 9 && old(input) == EncodeList(payload) + rest
                ==> r == Success(Some(EncodeList(payload))) && input == rest
      ensures forall payload: seq<Byte>, m: nat ::
                |payload| < TWO63 - 9 && 0 < m < |EncodeList(payload)| && old(input) == EncodeList(payload)[..m]
                ==> (r.Failure? <==> m <= |ListHeader(|payload|)|)
      ensures old(input) != [] && old(input)[0] < 0xc0 ==> r == Failure(NotAList)
    {
      ghost var all := input;
      var size := LoadRLPArray();
      forall payload: seq<Byte>, rest | |payload| < TWO63 - 9 && all == EncodeList(payload) + rest
        ensures size == Success(|EncodeList(payload)|) && input == rest && buffer[..size.value] == EncodeList(payload)
      {
        EncodedListAnnounced(payload, rest);
        BigEndianSize(|payload|, 8);
      }
      forall payload: seq<Byte>, m: nat |
        |payload| < TWO63 - 9 && 0 < m < |EncodeList(payload)| && all == EncodeList(payload)[..m]
        ensures size.Failure? <==> m <= |ListHeader(|payload|)|
      {
        CutListAnnounced(payload, m);
        BigEndianSize(|payload|, 8);
      }
      if size.Failure? {
        return Failure(size.error);
      }
      if size.value == 0 {
        return Success(None);
      }
      return Success(Some(buffer[..size.value]));
    }
  }

  ghost predicate Archivable(blocks: seq<Block>)
  {
    forall i :: 0 <= i < |blocks| ==> |blocks[i].payload| < TWO63 - 9
  }

  /** Reads until the end. A file that is the encoding of a list of blocks reads back as
      exactly those blocks, in order. */
  method RestoreAll(s: BlockStream, ghost blocks: seq<Block>) returns (r: Result<seq<seq<Byte>>, ReadError>)
    requires s.Valid()
    modifies s, s.buffer
    ensures Archivable(blocks) && old(s.input) == EncodeAll(blocks) ==>
              && s.input == []
              && r == Success(seq(|blocks|, i requires 0 <= i < |blocks| => MarshalRLP(blocks[i])))
  {
    hide EncodeList;
    var out: seq<seq<Byte>> := [];
    ghost var i := 0;
    ghost var ok := Archivable(blocks) && s.input == EncodeAll(blocks);
    while true
      invariant s.Valid() && (s.buffer == old(s.buffer) || fresh(s.buffer))
      invariant ok ==>
                  && 0 <= i <= |blocks| && s.input == EncodeAll(blocks[i..])
                  && out == seq(i, k requires 0 <= k < i => MarshalRLP(blocks[k]))
      decreases |s.input|
    {
      if ok {
        if i < |blocks| {
          EncodeAllHead(blocks[i..]);
          assert blocks[i..][1..] == blocks[i + 1..];
        } else {
          assert blocks[i..] == [];
        }
      }
      var next := s.NextBlock();
      if next.Failure? {
        return Failure(next.error);
      }
      if next.value.None? {
        break;
      }
      out := out + [next.value.value];
      i := i + 1;
    }
    return Success(out);
  }

  /** The encoding starts with the first block. */
  lemma EncodeOne(b: Block)
    requires Encodable(b)
    ensures AllEncodable([b]) && EncodeAll([b]) == MarshalRLP(b)
  {
    hide MarshalRLP;
    assert [b][..0] == [];
  }

  lemma EncodeAllHead(bs: seq<Block>)
    requires AllEncodable(bs) && bs != []
    ensures EncodeAll(bs) == MarshalRLP(bs[0]) + EncodeAll(bs[1..])
  {
    hide EncodeAll, MarshalRLP;
    var head, tail := [bs[0]], bs[1..];
    assert bs == head + tail && Encodable(bs[0]);
    EncodeOne(bs[0]);
    EncodeAllConcat(head, tail);
  }

  // ---------------------------------------------------------------------------
  // From the chain to the archive and back
  // ---------------------------------------------------------------------------

  datatype BackupError = ExportFailed(error: ExportError) | NoBlocks

  /** The file, and the heights of its first and last block. */
  datatype Archive = Archive(file: seq<Byte>, from: nat, to: nat)

  /** Writes the metadata and then the data of every event received. A stream that ends with an
      error, or without any event, leaves no archive. */
  method WriteArchive(metadata: seq<Byte>, events: seq<ExportEvent>, failure: Option<ExportError>)
      returns (r: Result<Archive, BackupError>)
    requires |metadata| < TWO64
    ensures r ==
            if failure.Some? then Failure(ExportFailed(failure.value))
            else if events == [] then Failure(NoBlocks)
            else Success(Archive(EncodeList(metadata) + DataOf(events), events[0].from, events[|events| - 1].to))
  {
    hide EncodeList, DataOf;
    var file := EncodeList(metadata);
    var data, from, to := CollectEvents(events);
    if failure.Some? {
      return Failure(ExportFailed(failure.value));
    }
    if from.None? || to.None? {
      return Failure(NoBlocks);
    }
    return Success(Archive(file + data, from.value, to.value));
  }

  /** The data of the events received, and the first and last height announced. */
  method CollectEvents(events: seq<ExportEvent>) returns (data: seq<Byte>, from: Option<nat>, to: Option<nat>)
    ensures data == DataOf(events)
    ensures if events == [] then from == to == None
            else from == Some(events[0].from) && to == Some(events[|events| - 1].to)
  {
    data, from, to := [], None, None;
    for i := 0 to |events|
      invariant data == DataOf(events[..i])
      invariant if i == 0 then from == to == None else from == Some(events[0].from) && to == Some(events[i - 1].to)
    {
      assert events[..i + 1][..i] == events[..i];
      data := data + events[i].data;
      if from.None? {
        from := Some(events[i].from);
      }
      to := Some(events[i].to);
    }
    assert events[..|events|] == events;
  }

  /** A backup, written to an archive and read back, yields the metadata and exactly the longest
      run of blocks the request allows, whatever the payload limit. It fails exactly on a bad
      range, when there is no first block, or on a stream that breaks; one that takes an event
      for each block of the chain does not. */
  method ArchiveRoundTrip(req: Request, c: Chain, maxPayload: nat, latest: nat, metadata: seq<Byte>, budget: nat,
                          slack: nat)
      returns (backup: Result<Archive, BackupError>, head: Result<Option<seq<Byte>>, ReadError>,
               blocks: Result<seq<seq<Byte>>, ReadError>)
    requires ChainOk(c) && |metadata| < TWO63 - 9
    requires forall n :: n in c.blocks ==> |c.blocks[n].payload| < TWO63 - 9
    ensures backup.Success? ==>
              && head == Success(Some(EncodeList(metadata))) && blocks.Success?
              && var count := |blocks.value|;
              && count > 0 && backup.value.from == req.from && backup.value.to == req.from + count - 1
              && EndsRight(req, c, count)
              && blocks.value == seq(count, k requires 0 <= k < count => MarshalRLP(c.blocks[req.from + k]))
    ensures backup == Failure(ExportFailed(ToMustBeGreaterThanFrom)) <==> req.to != 0 && req.from >= req.to
    ensures backup == Failure(NoBlocks) <==> !(req.to != 0 && req.from >= req.to) && !HasFirst(req, c)
    ensures backup == Failure(ExportFailed(SendFailed)) ==> HasFirst(req, c) && budget < |c.blocks|
    ensures backup.Failure? && backup.error.ExportFailed? ==>
              backup.error.error == ToMustBeGreaterThanFrom || backup.error.error == SendFailed
  {
    hide EncodeList, EncodeAll, DataOf, Tiles, OwnRange;
    head, blocks := Success(None), Success([]);
    var stream := new Stream(budget);
    var error;
    ghost var count;
    error, count := Export(req, c, stream, maxPayload, latest);
    backup := WriteArchive(metadata, stream.sent, error);
    if error.None? {
      TilesEnds(stream.sent, req.from, req.from + count);
    }
    if backup.Failure? {
      return;
    }
    var reader := new BlockStream(backup.value.file, slack);
    head := reader.NextBlock();
    ghost var exported := Range(c, req.from, count);
    blocks := RestoreAll(reader, exported);
    assert seq(count, k requires 0 <= k < count => MarshalRLP(exported[k]))
        == seq(count, k requires 0 <= k < count => MarshalRLP(c.blocks[req.from + k]));
  }

  /** The last height a backup asks for: the given one if it is below the node's current height
      and the node has that block, else the current height. */
  function DetermineTo(c: Chain, current: nat, to: Option<nat>): nat
  {
    if to.Some? && to.value < current && to.value in c.blocks then to.value else current
  }

  /** A backup of a node at some height. It never holds blocks above the height it settles on,
      and holds all from the first one asked for up to it when the node has them. */
  method CreateBackup(from: nat, to: Option<nat>, current: nat, c: Chain, maxPayload: nat, metadata: seq<Byte>,
                      budget: nat, slack: nat)
      returns (backup: Result<Archive, BackupError>, head: Result<Option<seq<Byte>>, ReadError>,
               blocks: Result<seq<seq<Byte>>, ReadError>)
    requires ChainOk(c) && |metadata| < TWO63 - 9
    requires forall n :: n in c.blocks ==> |c.blocks[n].payload| < TWO63 - 9
    ensures backup.Success? ==>
              && backup.value.from == from <= backup.value.to && blocks.Success?
              && |blocks.value| == backup.value.to - from + 1
              && (forall k :: from <= k <= backup.value.to ==>
                    k in c.blocks && blocks.value[k - from] == MarshalRLP(c.blocks[k]))
    ensures to.Some? && 0 < to.value < current && to.value in c.blocks ==>
              StopsAt(c, from, to.value, budget, backup)
    ensures 0 < current && (to.None? || current <= to.value || to.value !in c.blocks) ==>
              StopsAt(c, from, current, budget, backup)
    ensures current == 0 || (to == Some(0) && 0 in c.blocks) ==>
              forall h: nat :: HeadStays(c, h) && GapFree(c, from, h) && budget >= |c.blocks| && from <= h
                               ==> backup.Success? && backup.value.to == h
  {
    hide MarshalRLP, EncodeList;
    var limit := DetermineTo(c, current, to);
    backup, head, blocks := ArchiveRoundTrip(Request(from, limit), c, maxPayload, current, metadata, budget, slack);
    ghost var req := Request(from, limit);
    OutcomeIff(backup, limit != 0 && from >= limit, HasFirst(req, c), budget >= |c.blocks|);
    if backup.Success? {
      BlocksByHeight(c, from, blocks.value);
    }
    if limit > 0 && GapFree(c, from, limit) && backup.Success? {
      ReachesEnd(req, c, |blocks.value|, limit);
    }
    forall h: nat | limit == 0 && HeadStays(c, h) && GapFree(c, from, h) && budget >= |c.blocks| && from <= h
      ensures backup.Success? && backup.value.to == h
    {
      ReachesEnd(req, c, |blocks.value|, h);
    }
  }

  /** A bounded backup: what it holds ends at the bound, or before the first missing block; and
      on a stream that takes an event for each block it fails only without a first block below
      the bound. */
  ghost predicate StopsAt(c: Chain, from: nat, bound: nat, budget: nat, backup: Result<Archive, BackupError>)
  {
    && (backup.Success? ==> backup.value.to <= bound && (GapFree(c, from, bound) ==> backup.value.to == bound))
    && (budget >= |c.blocks| ==> (backup.Success? <==> from < bound && from in c.blocks))
  }

  lemma BlocksByHeight(c: Chain, from: nat, blocks: seq<seq<Byte>>)
    requires ChainOk(c) && forall k :: from <= k < from + |blocks| ==> k in c.blocks
    requires blocks == seq(|blocks|, k requires 0 <= k < |blocks| => MarshalRLP(c.blocks[from + k]))
    ensures forall k :: from <= k < from + |blocks| ==> blocks[k - from] == MarshalRLP(c.blocks[k])
  {
    hide MarshalRLP;
    forall k | from <= k < from + |blocks|
      ensures blocks[k - from] == MarshalRLP(c.blocks[k])
    {
      assert c.blocks[from + (k - from)] == c.blocks[k];
    }
  }

  /** The failures cover everything that can go wrong. */
  lemma OutcomeIff(backup: Result<Archive, BackupError>, badRange: bool, hasFirst: bool, room: bool)
    requires backup == Failure(ExportFailed(ToMustBeGreaterThanFrom)) <==> badRange
    requires backup == Failure(NoBlocks) <==> !badRange && !hasFirst
    requires backup == Failure(ExportFailed(SendFailed)) ==> hasFirst && !room
    requires backup.Failure? && backup.error.ExportFailed? ==>
               backup.error.error == ToMustBeGreaterThanFrom || backup.error.error == SendFailed
    ensures room ==> (backup.Success? <==> !badRange && hasFirst)
  {
    if backup.Failure? && backup.error.ExportFailed? {
      assert backup == Failure(ExportFailed(backup.error.error));
    }
  }
}
