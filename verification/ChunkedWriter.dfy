/** The chunked writer: the sink a content provider writes to, and the loop that calls it. */
module ChunkedWriter {
  import opened Chunked
  import opened Strings

  // ----- what a provider does, and what that puts on the wire -----

  datatype Op = Write(data: string) | Done

  /** One call of the content provider: what it does with the sink, and what it answers. */
  datatype Call = Call(ops: seq<Op>, goOn: bool)

  function EmitOne(op: Op): string {
    match op
    case Write(d) => if d == "" then "" else Chunk(d)
    case Done => "0\r\n\r\n"
  }

  function Emit(ops: seq<Op>): string {
    if ops == [] then "" else EmitOne(ops[0]) + Emit(ops[1..])
  }

  /** data_available after the operations. */
  function Available(ops: seq<Op>, available: bool): bool {
    if ops == [] then available
    else
      var last := ops[|ops| - 1];
      last.Write? && last.data != ""
  }

  /** The operations carried out before the loop ends: by data_available, or by a refusal. */
  function Executed(calls: seq<Call>, available: bool): seq<Op>
    decreases |calls|
  {
    if calls == [] || !available then []
    else if !calls[0].goOn then calls[0].ops
    else calls[0].ops + Executed(calls[1..], Available(calls[0].ops, available))
  }

  lemma {:induction false} EmitAppend(a: seq<Op>, b: seq<Op>)
    ensures Emit(a + b) == Emit(a) + Emit(b)
  {
    hide EmitOne;
    if a == [] {
      assert a + b == b;
    } else {
      EmitAppend(a[1..], b);
      assert (a + b)[1..] == a[1..] + b;
      Assoc(EmitOne(a[0]), Emit(a[1..]), Emit(b));
    }
  }

  lemma EmitSnoc(ops: seq<Op>, i: nat)
    requires i < |ops|
    ensures Emit(ops[..i + 1]) == Emit(ops[..i]) + EmitOne(ops[i])
    ensures ops[..i + 1][|ops[..i + 1]| - 1] == ops[i]
  {
    assert ops[..i + 1] == ops[..i] + [ops[i]];
    EmitAppend(ops[..i], [ops[i]]);
    assert [ops[i]][1..] == [];
    assert Emit([ops[i]]) == EmitOne(ops[i]);
  }

  // ----- the sink -----

  datatype Error = Success | Canceled | WriteFailed

  class OutStream {
    var output: string

    constructor ()
      ensures output == ""
    {
      output := "";
    }

    /** write: takes some of the data, or fails. */
    method Send(data: string) returns (length: int)
      requires data != ""
      modifies this
      ensures length < 0 ==> output == old(output)
      ensures length >= 0 ==> 1 <= length <= |data| && output == old(output) + data[..length]
    {
      var n: nat :| n <= |data|;
      if n == 0 {
        return -1;
      }
      output := output + data[..n];
      return n;
    }
  }

  /** write_data: all of the data, unless the stream fails. */
  method WriteData(strm: OutStream, data: string) returns (ok: bool)
    modifies strm
    ensures old(strm.output) <= strm.output <= old(strm.output) + data
    ensures ok ==> strm.output == old(strm.output) + data
  {
    var offset := 0;
    while offset < |data|
      invariant offset <= |data| && strm.output == old(strm.output) + data[..offset]
    {
      var length := strm.Send(data[offset..]);
      if length < 0 {
        return false;
      }
      assert data[..offset] + data[offset..][..length] == data[..offset + length];
      offset := offset + length;
    }
    return true;
  }

  /** The digits of what is left of a number, if anything is. */
  function Lead(n: nat): string {
    if n == 0 then "" else Hex(n)
  }

  lemma LeadStep(n: nat, ret: string)
    requires n > 0
    ensures Lead(n) + ret == Lead(n / 16) + ([HexChar(n % 16)] + ret)
  {
  }

  /** from_i_to_hex. */
  method FromIToHex(n0: nat) returns (ret: string)
    ensures ret == Hex(n0)
  {
    ret := [HexChar(n0 % 16)];
    var n: nat := n0 / 16;
    while n > 0
      invariant Hex(n0) == Lead(n) + ret
    {
      LeadStep(n, ret);
      ret := [HexChar(n % 16)] + ret;
      n := n / 16;
    }
  }

  /** The data sink with the compressor that does not compress. */
  class Sink {
    const strm: OutStream
    var ok: bool
    var dataAvailable: bool
    var offset: nat

    constructor (strm: OutStream)
      ensures this.strm == strm && ok && dataAvailable && offset == 0
    {
      this.strm, ok, dataAvailable, offset := strm, true, true, 0;
    }

    /** A chunk for the payload, if there is any. */
    method SendChunk(payload: string)
      modifies this`ok, strm
      requires ok
      ensures old(strm.output) <= strm.output <= old(strm.output) + EmitOne(Op.Write(payload))
      ensures ok ==> strm.output == old(strm.output) + EmitOne(Op.Write(payload))
    {
      if payload != "" {
        var size := FromIToHex(|payload|);
        var sent := WriteData(strm, size + "\r\n" + payload + "\r\n");
        if !sent {
          ok := false;
        }
      }
    }

    method Write(d: string) returns (more: bool)
      modifies this, strm
      ensures more == ok && (ok ==> old(ok))
      ensures old(strm.output) <= strm.output <= old(strm.output) + EmitOne(Op.Write(d))
      ensures ok ==> strm.output == old(strm.output) + EmitOne(Op.Write(d)) && dataAvailable == (d != "")
      ensures ok ==> offset == old(offset) + |d|
      ensures !old(ok) ==> strm.output == old(strm.output)
    {
      if ok {
        dataAvailable := |d| > 0;
        offset := offset + |d|;
        SendChunk(d);
      }
      return ok;
    }

    method Finish()
      modifies this, strm
      ensures ok ==> old(ok)
      ensures old(strm.output) <= strm.output <= old(strm.output) + EmitOne(Done)
      ensures ok ==> strm.output == old(strm.output) + EmitOne(Done) && !dataAvailable
      ensures !old(ok) ==> strm.output == old(strm.output)
    {
      if !ok {
        return;
      }
      dataAvailable := false;
      ok := WriteData(strm, "0\r\n\r\n");
    }

    /** One call of the provider. */
    method Provide(ops: seq<Op>)
      modifies this, strm
      ensures ok ==> old(ok)
      ensures ok ==> strm.output == old(strm.output) + Emit(ops) && dataAvailable == Available(ops, old(dataAvailable))
      ensures old(strm.output) <= strm.output <= old(strm.output) + Emit(ops)
    {
      ghost var was := strm.output;
      hide Emit, EmitOne;
      assert ops[..0] == [] && Emit([]) == "" by { EmitNothing(); }
      for i := 0 to |ops|
        invariant ok ==> old(ok)
        invariant ok ==> strm.output == was + Emit(ops[..i]) && dataAvailable == Available(ops[..i], old(dataAvailable))
        invariant was <= strm.output <= was + Emit(ops[..i])
      {
        EmitSnoc(ops, i);
        Assoc(was, Emit(ops[..i]), EmitOne(ops[i]));
        if ops[i].Write? {
          var more := Write(ops[i].data);
        } else {
          Finish();
        }
      }
      assert ops[..|ops|] == ops;
    }
  }

  lemma EmitNothing()
    ensures Emit([]) == ""
  {
  }

  /** write_content_chunked; the server starts to shut down when the calls run out. */
  method WriteContentChunked(strm: OutStream, calls: seq<Call>) returns (error: Error)
    modifies strm
    ensures old(strm.output) <= strm.output <= old(strm.output) + Emit(Executed(calls, true))
    ensures error == Success ==> strm.output == old(strm.output) + Emit(Executed(calls, true))
    ensures error == Canceled ==> exists c | c in calls :: !c.goOn
  {
    hide *;
    var sink := new Sink(strm);
    ghost var was := strm.output;
    ghost var ops := [];
    EmitNothing();
    assert was + "" == was;
    assert calls[0..] == calls && [] + Executed(calls, true) == Executed(calls, true);
    var i := 0;
    while sink.dataAvailable && i < |calls|
      invariant i <= |calls| && sink.strm == strm && sink.ok
      invariant strm.output == was + Emit(ops)
      invariant ops + Executed(calls[i..], sink.dataAvailable) == Executed(calls, true)
    {
      ExecutedStep(calls, i, sink.dataAvailable, ops);
      EmitAppend(ops, calls[i].ops);
      Assoc(was, Emit(ops), Emit(calls[i].ops));
      ghost var all := ops + calls[i].ops;
      EmitPrefix(was, all, Executed(calls, true));
      sink.Provide(calls[i].ops);
      if !calls[i].goOn {
        return Canceled;
      }
      if !sink.ok {
        return WriteFailed;
      }
      ops := all;
      i := i + 1;
    }
    ExecutedNothing(calls[i..], sink.dataAvailable);
    assert ops + [] == ops;
    return Success;
  }

  lemma ExecutedStep(calls: seq<Call>, i: nat, available: bool, ops: seq<Op>)
    requires i < |calls| && available
    ensures var c := calls[i];
      ops + Executed(calls[i..], available) ==
        if c.goOn then ops + c.ops + Executed(calls[i + 1..], Available(c.ops, available)) else ops + c.ops
  {
    assert calls[i..][1..] == calls[i + 1..];
    hide Available;
  }

  lemma ExecutedNothing(calls: seq<Call>, available: bool)
    requires calls == [] || !available
    ensures Executed(calls, available) == []
  {
  }

  lemma EmitPrefix(was: string, a: seq<Op>, b: seq<Op>)
    requires a <= b
    ensures was + Emit(a) <= was + Emit(b)
  {
    EmitAppend(a, b[|a|..]);
    assert b == a + b[|a|..];
  }

  // ----- what the other side reads -----

  function Writes(ds: seq<string>): seq<Op> {
    if ds == [] then [] else [Op.Write(ds[0])] + Writes(ds[1..])
  }

  /** The writes that put a chunk on the wire. */
  function NotEmpty(ds: seq<string>): seq<string> {
    if ds == [] then [] else (if ds[0] == "" then [] else [ds[0]]) + NotEmpty(ds[1..])
  }

  lemma {:induction false} NotEmptyWrites(ds: seq<string>)
    ensures NonEmpty(NotEmpty(ds)) && Flat(NotEmpty(ds)) == Flat(ds)
    ensures Sized(NotEmpty(ds)) <==> Sized(ds)
  {
    if ds != [] {
      NotEmptyWrites(ds[1..]);
      WritesSplit(ds);
      if ds[0] == "" {
        assert NotEmpty(ds) == NotEmpty(ds[1..]);
      } else {
        assert NotEmpty(ds)[1..] == NotEmpty(ds[1..]);
        WritesSplit(NotEmpty(ds));
        hide Sized;
      }
    }
  }

  lemma EmitCons(op: Op, rest: seq<Op>)
    ensures Emit([op] + rest) == EmitOne(op) + Emit(rest)
  {
    assert ([op] + rest)[1..] == rest;
  }

  lemma {:induction false} EmitWrites(ds: seq<string>)
    ensures Emit(Writes(ds)) == Chunks(NotEmpty(ds))
    ensures Emit(Writes(ds) + [Done]) == Coded(NotEmpty(ds))
  {
    if ds == [] {
      assert Writes(ds) + [Done] == [Done] && [Done][1..] == [];
    } else {
      hide Emit, Chunk;
      EmitWrites(ds[1..]);
      var later := Writes(ds[1..]);
      EmitCons(Op.Write(ds[0]), later);
      EmitCons(Op.Write(ds[0]), later + [Done]);
      assert Writes(ds) + [Done] == [Op.Write(ds[0])] + (later + [Done]);
      ChunksStep(ds[0], NotEmpty(ds[1..]));
    }
  }

  /** What one more write adds to the chunks. */
  lemma ChunksStep(d: string, ws: seq<string>)
    ensures var more := (if d == "" then [] else [d]) + ws;
      Chunks(more) == EmitOne(Op.Write(d)) + Chunks(ws) && Coded(more) == EmitOne(Op.Write(d)) + Coded(ws)
  {
    hide Chunk;
    if d == "" {
      assert [] + ws == ws;
    } else {
      assert ([d] + ws)[1..] == ws;
    }
  }

  /** Chunks without a last chunk are never taken for a whole body. */
  lemma {:induction false} ChunksRefused(ws: seq<string>)
    requires NonEmpty(ws)
    ensures !Dechunk(Chunks(ws)).ok
  {
    if ws != [] {
      WritesSplit(ws);
      hide Dechunk, NonEmpty, Sized, Chunk;
      ChunksRefused(ws[1..]);
      ReadChunk(ws[0], Chunks(ws[1..]));
    }
  }

  /** Whatever a provider writes, empty pieces included: the other side is satisfied exactly if the
      sink's done was called and every piece fits the reader's number, and then it has exactly
      the bytes written and has left exactly what follows them. */
  lemma SinkRoundTrip(ds: seq<string>, finished: bool, more: string)
    requires !finished ==> more == ""
    ensures var r := Dechunk(Emit(Writes(ds) + if finished then [Done] else []) + more);
      if finished && Sized(ds) then r == Read(true, Flat(ds), more) else !r.ok
  {
    EmitWrites(ds);
    NotEmptyWrites(ds);
    hide Dechunk, Emit, Writes, NotEmpty, NonEmpty, Sized;
    if finished {
      RoundTrip(NotEmpty(ds), more);
    } else {
      ChunksRefused(NotEmpty(ds));
      assert Writes(ds) + [] == Writes(ds);
      assert Chunks(NotEmpty(ds)) + "" == Chunks(NotEmpty(ds));
    }
  }

  // ----- the provider's loop -----

  function Ops(calls: seq<Call>): seq<Op> {
    if calls == [] then [] else calls[0].ops + Ops(calls[1..])
  }

  /** The operations of an orderly provider: nothing empty, done at the very end. */
  predicate Orderly(ops: seq<Op>) {
    ops == [] || (if |ops| == 1 then ops[0] == Done else ops[0].Write? && ops[0].data != "" && Orderly(ops[1..]))
  }

  lemma {:induction false} OrderlySplit(a: seq<Op>, b: seq<Op>)
    requires Orderly(a + b)
    ensures Orderly(b) && (b != [] ==> Available(a, true))
  {
    if a != [] {
      assert (a + b)[1..] == a[1..] + b && (a + b)[0] == a[0];
      if b != [] {
        assert |a + b| > 1;
      }
      if a[1..] + b != [] {
        OrderlySplit(a[1..], b);
      }
    } else {
      assert a + b == b;
    }
  }

  /** However an orderly provider spreads its writes over calls, all of them are carried out. */
  lemma {:induction false} OrderlyExecuted(calls: seq<Call>)
    requires Orderly(Ops(calls)) && forall c | c in calls :: c.goOn
    ensures Executed(calls, true) == Ops(calls)
  {
    if calls != [] {
      hide Orderly, Available;
      assert calls[0].goOn && forall c | c in calls[1..] :: c in calls;
      var a, b := calls[0].ops, Ops(calls[1..]);
      OrderlySplit(a, b);
      OrderlyExecuted(calls[1..]);
      if !Available(a, true) {
        ExecutedNothing(calls[1..], false);
      }
    }
  }

  lemma {:induction false} OrderlyIsWrites(ops: seq<Op>) returns (ds: seq<string>)
    requires Orderly(ops) && ops != []
    ensures ops == Writes(ds) + [Done]
  {
    if |ops| == 1 {
      ds := [];
    } else {
      var later := OrderlyIsWrites(ops[1..]);
      ds := [ops[0].data] + later;
      assert ds[1..] == later;
    }
  }

  /** From the provider's calls to the other side's body, and not a byte further. */
  lemma ProviderRoundTrip(calls: seq<Call>, more: string) returns (ds: seq<string>)
    requires Orderly(Ops(calls)) && Ops(calls) != [] && forall c | c in calls :: c.goOn
    ensures Ops(calls) == Writes(ds) + [Done]
    ensures var r := Dechunk(Emit(Executed(calls, true)) + more);
      if Sized(ds) then r == Read(true, Flat(ds), more) else !r.ok
  {
    hide *;
    OrderlyExecuted(calls);
    ds := OrderlyIsWrites(Ops(calls));
    SinkRoundTrip(ds, true, more);
  }
}
