/** The calls of src/drivers/blkdev_ipc_client.c on top of the kernel's ports, and the messages both sides
    exchange. */
module BlkClient {
  import opened Common
  import opened Words
  import Ipc
  import Kernel
  import IpcTable
  import opened BlkProtocol

  /** "blkdev.ata" */
  const DRIVER_NAME: Ipc.Name := [98, 108, 107, 100, 101, 118, 46, 97, 116, 97]

  const REQUEST_SIZE: uint32 := 24
  const RESPONSE_SIZE: uint32 := 12

  predicate OnWire(req: Request) {
    req.id < WORD
  }

  /** blkdev_request_t in memory. */
  function EncodeRequest(req: Request): (s: seq<byte>)
    requires OnWire(req)
    ensures |s| == 24
  {
    Bytes32(req.id) + Bytes32(req.op) + Bytes32(req.drive) + Bytes32(req.lba) + Bytes32(req.count) + Bytes32(req.buffer)
  }

  function DecodeRequest(s: seq<byte>): Request
    requires |s| >= 24
  {
    Request(U32(s, 0), U32(s, 4), U32(s, 8), U32(s, 12), U32(s, 16), U32(s, 20))
  }

  /** blkdev_response_t in memory. */
  function EncodeResponse(r: Response): (s: seq<byte>)
    requires r.id < WORD
    ensures |s| == 12
  {
    Bytes32(r.id) + Bytes32(r.status) + Bytes32(r.bytes)
  }

  function DecodeResponse(s: seq<byte>): Response
    requires |s| >= 12
  {
    Response(U32(s, 0), U32(s, 4), U32(s, 8))
  }

  /** Where the fields of the two structures stand. */
  lemma MessageBytes(req: Request, r: Response)
    requires OnWire(req) && r.id < WORD
    ensures var s := EncodeRequest(req);
            && s[0..4] == Bytes32(req.id) && s[4..8] == Bytes32(req.op) && s[8..12] == Bytes32(req.drive)
            && s[12..16] == Bytes32(req.lba) && s[16..20] == Bytes32(req.count) && s[20..24] == Bytes32(req.buffer)
    ensures var s := EncodeResponse(r);
            s[0..4] == Bytes32(r.id) && s[4..8] == Bytes32(r.status) && s[8..12] == Bytes32(r.bytes)
  {
    hide Bytes32;
  }

  /** Whatever follows it in the message, a request arrives as it was sent. */
  lemma RequestRoundTrip(req: Request, rest: seq<byte>)
    requires OnWire(req)
    ensures DecodeRequest(EncodeRequest(req) + rest) == req
  {
    var s := EncodeRequest(req) + rest;
    hide Bytes32, U32;
    assert s[0..4] == Bytes32(req.id) && s[4..8] == Bytes32(req.op) && s[8..12] == Bytes32(req.drive);
    assert s[12..16] == Bytes32(req.lba) && s[16..20] == Bytes32(req.count) && s[20..24] == Bytes32(req.buffer);
    Read32(req.id, s, 0);
    Read32(req.op, s, 4);
    Read32(req.drive, s, 8);
    Read32(req.lba, s, 12);
    Read32(req.count, s, 16);
    Read32(req.buffer, s, 20);
  }

  lemma ResponseRoundTrip(r: Response, rest: seq<byte>)
    requires r.id < WORD
    ensures DecodeResponse(EncodeResponse(r) + rest) == r
  {
    var s := EncodeResponse(r) + rest;
    hide Bytes32, U32;
    assert s[0..4] == Bytes32(r.id) && s[4..8] == Bytes32(r.status) && s[8..12] == Bytes32(r.bytes);
    Read32(r.id, s, 0);
    Read32(r.status, s, 4);
    Read32(r.bytes, s, 8);
  }

  /** The cast to int of a uint32_t. */
  function ToInt(x: uint32): int {
    if x < 0x8000_0000 then x else x - WORD
  }

  /** What a call returns for its outcome. */
  function ReturnValue(o: Outcome): int {
    match o
    case NotSent => -1
    case Failed => -1
    case Done(bytes) => ToInt(bytes)
  }

  lemma BytesMultiple(n: nat)
    ensures Bytes(n) == 512 * (n % 0x80_0000)
  {
  }

  /** A caller can tell success from failure: a byte count is a multiple of 512, and never looks like -1. */
  lemma SuccessIsVisible(s: Sys, x: Settled)
    requires x.outcome.Done? ==> exists k :: 0 <= k < |s.jobs| && Succeeded(s.jobs[k], x)
    ensures ReturnValue(x.outcome) == -1 <==> !x.outcome.Done?
  {
    if x.outcome.Done? {
      var k :| 0 <= k < |s.jobs| && Succeeded(s.jobs[k], x);
      var n := |s.jobs[k].moved|;
      BytesMultiple(n);
    }
  }

  class Client {
    var nextRequestId: uint32
    var clientPort: int

    /** The globals before blkdev_ipc_client_init. */
    constructor ()
      ensures nextRequestId == 1 && clientPort == -1
    {
      nextRequestId := 1;
      clientPort := -1;
    }

    /** blkdev_ipc_client_init */
    method Init(table: IpcTable.Table) returns (r: int)
      requires Kernel.Shaped(table.Abs()) && Kernel.CanDo(table.Abs(), Kernel.CreatePort)
      modifies this`clientPort, table`log, table.ports
      ensures table.Abs() == Kernel.Perform(old(table.Abs()), Kernel.CreatePort)
      ensures clientPort == Kernel.Reply(old(table.Abs()), Kernel.CreatePort)
      ensures r == if clientPort < 0 then -1 else 0
    {
      clientPort := table.IpcCreatePort();
      r := if clientPort < 0 then -1 else 0;
    }

    /** The first half of blkdev_ipc_read, blkdev_ipc_write and blkdev_ipc_flush: find the driver, number the
        request and send it. */
    method SendRequest(table: IpcTable.Table, op: uint32, drive: uint32, lba: uint32, count: uint32, buffer: uint32)
      returns (sent: bool, req: Request)
      requires Kernel.Shaped(table.Abs()) && clientPort < WORD
      requires forall k | 0 <= k < table.ports.Length :: |table.ports[k].name| < Ipc.NAME_MAX
      modifies this`nextRequestId, table`sched, table`log, table.ports
      ensures req == Request(old(nextRequestId), op, drive, lba, count, buffer)
      ensures var s := old(table.Abs());
              var port := Ipc.FindFrom(s.ports, DRIVER_NAME, 0);
              if old(clientPort) < 0 || port.None? then
                table.Abs() == s && !sent && nextRequestId == old(nextRequestId)
              else
                var c := Kernel.Send(port.value, old(clientPort), 0, Some(EncodeRequest(req)), REQUEST_SIZE);
                && nextRequestId == Wrap32(old(nextRequestId) + 1)
                && table.Abs() == Kernel.Perform(s, c) && (sent <==> Kernel.Reply(s, c) == 0)
    {
      req := Request(nextRequestId, op, drive, lba, count, buffer);
      if clientPort < 0 { return false, req; }
      var driverPort := table.IpcFindPort(Some(DRIVER_NAME));
      if driverPort < 0 { return false, req; }
      nextRequestId := Wrap32(nextRequestId + 1);
      assert table.Abs() == old(table.Abs());
      var r := table.IpcSendFromPort(clientPort, driverPort, 0, Some(EncodeRequest(req)), REQUEST_SIZE);
      sent := r == 0;
    }

    /** The last part: what the call returns for the message it received. */
    method Conclude(req: Request, msg: Ipc.Message) returns (r: int)
      requires |msg.data| == Ipc.MAX_BODY
      ensures r == if msg.size < RESPONSE_SIZE then -1 else ReturnValue(Judge(req, DecodeResponse(msg.data)))
      ensures var made := msg.size >= 12 && U32(msg.data, 0) == req.id && U32(msg.data, 4) == 0;
              && (!made ==> r == -1)
              && (made && req.op == FLUSH ==> r == 0)
              && (made && req.op != FLUSH ==>
                    -0x8000_0000 <= r < 0x8000_0000 && (U32(msg.data, 8) - r) % 0x1_0000_0000 == 0)
    {
      if msg.size < RESPONSE_SIZE { return -1; }
      var resp := DecodeResponse(msg.data);
      if resp.id != req.id { return -1; }
      if resp.status != OK { return -1; }
      r := if req.op == FLUSH then 0 else ToInt(resp.bytes);
    }
  }
}
