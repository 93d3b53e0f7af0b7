/** handle_request of src/lib/ata_driver.c with its loops over sectors, and the calls of
    src/drivers/blkdev_ipc_client.c, against the steps of module BlkProtocol. */
module BlkDriver {
  import opened Common
  import BlkClient
  import Ipc
  import opened BlkProtocol

  // ---------------------------------------------------------------- the rounds of one request

  /** Sector number i of the buffer at address `at`. */
  function BufferSector(memory: seq<byte>, at: nat, i: nat): (r: Sector)
    requires at + 512 * (i + 1) <= |memory|
    ensures |r| == SECTOR
  {
    memory[at + 512 * i..at + 512 * (i + 1)]
  }

  predicate BufferFits(req: Request, length: nat) {
    Moves(req) ==> req.buffer + 512 * req.count <= length
  }

  /** Whether the next hardware operation succeeds: hw tells what the controller does with sectors that
      exist. */
  function Succeeds(j: Job, disk: Disk, hw: seq<bool>): bool
    requires |j.moved| < |hw|
  {
    hw[|j.moved|] && (Moves(j.req) ==> Next(j) in disk)
  }

  predicate Started(j: Job) {
    !j.over ==> if Moves(j.req) then |j.moved| < j.req.count else j.moved == []
  }

  /** All remaining rounds of a job. */
  function Rounds(j: Job, disk: Disk, hw: seq<bool>, memory: seq<byte>): (r: (Job, Disk))
    requires Started(j) && BufferFits(j.req, |memory|) && |hw| > j.req.count
    ensures r.0.req == j.req && r.0.over
    decreases if j.over then 0 else 1 + j.req.count - |j.moved|
  {
    if j.over then (j, disk)
    else
      var ok := Succeeds(j, disk, hw);
      var data := if Moves(j.req) then BufferSector(memory, j.req.buffer, |j.moved|) else [];
      Rounds(Advance(j, disk, ok, data), DiskAfter(j, disk, ok, data), hw, memory)
  }

  /** The driver's work on one request is a run of hardware events of the protocol. */
  lemma {:induction false} RoundsAreEvents(s: Sys, hw: seq<bool>, memory: seq<byte>) returns (es: seq<Event>)
    requires s.running.Some?
    requires var j := s.running.value; Started(j) && BufferFits(j.req, |memory|) && |hw| > j.req.count
    ensures Happens(s, es)
    ensures var r := Rounds(s.running.value, s.disk, hw, memory);
            Run(s, es) == s.(running := Some(r.0), disk := r.1)
    decreases if s.running.value.over then 0 else 1 + s.running.value.req.count - |s.running.value.moved|
  {
    var j := s.running.value;
    if j.over {
      es := [];
    } else {
      var ok := Succeeds(j, s.disk, hw);
      var data := if Moves(j.req) then BufferSector(memory, j.req.buffer, |j.moved|) else [];
      var e := Hardware(ok, data);
      var rest := RoundsAreEvents(Perform(s, e), hw, memory);
      es := [e] + rest;
      assert es[0] == e && es[1..] == rest;
    }
  }

  // ---------------------------------------------------------------- the loops

  function Flat(sectors: seq<Sector>): seq<byte> {
    if sectors == [] then [] else Flat(sectors[..|sectors| - 1]) + sectors[|sectors| - 1]
  }

  /** The memory after `bytes` were copied to address `at`. */
  function Patched(memory: seq<byte>, at: nat, bytes: seq<byte>): (r: seq<byte>)
    requires at + |bytes| <= |memory|
    ensures |r| == |memory|
  {
    memory[..at] + bytes + memory[at + |bytes|..]
  }

  ghost predicate GoodDisk(disk: Disk) {
    forall at | at in disk :: |disk[at]| == SECTOR
  }

  /** The final job of a read whose first |moved| sectors are done. */
  lemma ReadRound(j: Job, disk: Disk, hw: seq<bool>, memory: seq<byte>)
    requires j.req.op == READ && !j.over && Started(j) && BufferFits(j.req, |memory|) && |hw| > j.req.count
    ensures var at := Next(j);
            Rounds(j, disk, hw, memory) ==
            if hw[|j.moved|] && at in disk then
              Rounds(j.(moved := j.moved + [disk[at]], over := |j.moved| + 1 == j.req.count), disk, hw, memory)
            else (j.(status := ERROR, over := true), disk)
  {
  }

  lemma WriteRound(j: Job, disk: Disk, hw: seq<bool>, memory: seq<byte>)
    requires j.req.op == WRITE && !j.over && Started(j) && BufferFits(j.req, |memory|) && |hw| > j.req.count
    ensures var at := Next(j);
            var data := BufferSector(memory, j.req.buffer, |j.moved|);
            Rounds(j, disk, hw, memory) ==
            if hw[|j.moved|] && at in disk then
              Rounds(j.(moved := j.moved + [data], over := |j.moved| + 1 == j.req.count), disk[at := data], hw, memory)
            else (j.(status := ERROR, over := true), disk)
  {
  }

  /** The sector that the registers name. */
  function Register(drive: uint32, lba: uint32): (uint32, uint32) {
    (drive % 2, lba % 0x1000_0000)
  }

  lemma RegisterIsAt(req: Request, i: nat)
    requires i < req.count
    ensures Register(req.drive, Wrap32(req.lba + i)) == At(req, i)
    ensures Reachable(req) ==> At(req, i) == Address(req, i)
  {
  }

  // ---------------------------------------------------------------- what ends up where

  /** The registers can name every sector of the request. */
  predicate Reachable(req: Request) {
    req.drive < 2 && req.lba + req.count <= 0x1000_0000
  }

  /** The address of sector number i of a request within reach of the registers. */
  function Address(req: Request, i: nat): (uint32, uint32)
    requires Reachable(req) && i < req.count
  {
    (req.drive, req.lba + i)
  }

  predicate Among(at: (uint32, uint32), req: Request, n: nat) {
    at.0 == req.drive && req.lba <= at.1 < req.lba + n
  }

  /** Sector lba + i of the drive holds bytes 512 * i to 512 * i + 511 of the buffer, for every i < n, and every
      other sector is as before. */
  ghost predicate Stored(req: Request, n: nat, memory: seq<byte>, before: Disk, after: Disk)
    requires Reachable(req) && n <= req.count && req.buffer + 512 * n <= |memory|
  {
    && (forall i: nat | i < n ::
          Holds(after, Address(req, i), memory[req.buffer + 512 * i..req.buffer + 512 * (i + 1)]))
    && (forall at | !Among(at, req, n) :: at in after <==> at in before)
    && (forall at | at in before && !Among(at, req, n) :: after[at] == before[at])
  }

  /** Byte k of the buffer is byte k % 512 of sector lba + k / 512, for every k < 512 * n, and every other byte
      is as before. */
  ghost predicate Fetched(req: Request, n: nat, disk: Disk, before: seq<byte>, after: seq<byte>)
    requires Reachable(req) && n <= req.count && GoodDisk(disk)
    requires forall i: nat | i < n :: Address(req, i) in disk
  {
    && |after| == |before| && req.buffer + 512 * n <= |before|
    && (forall k: nat | k < 512 * n :: after[req.buffer + k] == disk[Address(req, k / 512)][k % 512])
    && (forall a: nat | a < |before| && !(req.buffer <= a < req.buffer + 512 * n) :: after[a] == before[a])
  }

  /** n sectors were moved: the first ones, each of which exists and was ready; all of them, or else the next one
      is missing or fails. */
  ghost predicate MovedFirst(req: Request, n: nat, disk: Disk, hw: seq<bool>)
    requires Reachable(req) && |hw| > req.count
  {
    && n <= req.count
    && (forall i: nat | i < n :: hw[i] && Address(req, i) in disk)
    && (n < req.count ==> !(hw[n] && Address(req, n) in disk))
  }

  /** What the answer to a read or write says when n sectors were moved. */
  predicate Tells(req: Request, n: nat, status: uint32, bytes: uint32) {
    && n <= req.count && status == (if n == req.count then OK else ERROR)
    && bytes == 512 * n % 0x1_0000_0000
  }

  /** What the driver does with a request, of which it moves n sectors: of a read or write within reach those up
      to the first that is missing or fails, each between its own place in the buffer and its own address. */
  ghost predicate Served(req: Request, n: nat, answer: Response, hw: seq<bool>, disk: Disk, disk': Disk,
          memory: seq<byte>, memory': seq<byte>)
    requires GoodDisk(disk) && BufferFits(req, |memory|) && |hw| > req.count
  {
    && answer.id == req.id && (req.op != READ ==> memory' == memory) && (req.op != WRITE ==> disk' == disk)
    && (if req.op == READ then
          && Tells(req, n, answer.status, answer.bytes)
          && (Reachable(req) ==> MovedFirst(req, n, disk, hw) && Fetched(req, n, disk, memory, memory'))
        else if req.op == WRITE then
          && Tells(req, n, answer.status, answer.bytes)
          && (Reachable(req) ==> MovedFirst(req, n, disk, hw) && Stored(req, n, memory, disk, disk'))
        else if req.op == FLUSH then answer.bytes == 0 && answer.status == if hw[0] then OK else ERROR
        else answer.bytes == 0 && answer.status == INVALID)
  }

  /** A write within reach after n good rounds. */
  ghost predicate Writing(req: Request, n: nat, hw: seq<bool>, memory: seq<byte>, before: Disk, after: Disk)
    requires n <= req.count < |hw| && req.buffer + 512 * n <= |memory|
  {
    Reachable(req) ==>
      (forall i: nat | i < n :: hw[i] && Address(req, i) in before) && Stored(req, n, memory, before, after)
  }

  lemma BeginWriting(req: Request, hw: seq<bool>, memory: seq<byte>, disk: Disk)
    requires req.count < |hw| && req.buffer <= |memory|
    ensures Writing(req, 0, hw, memory, disk, disk)
  {
  }

  lemma OneMoreWritten(req: Request, n: nat, hw: seq<bool>, memory: seq<byte>, before: Disk, after: Disk)
    requires n < req.count < |hw| && req.buffer + 512 * (n + 1) <= |memory|
    requires Writing(req, n, hw, memory, before, after)
    ensures var at := Register(req.drive, Wrap32(req.lba + n));
            var data := memory[req.buffer + n * 512..req.buffer + n * 512 + 512];
            if hw[n] && at in after then Writing(req, n + 1, hw, memory, before, after[at := data])
            else Reachable(req) ==> MovedFirst(req, n, before, hw) && Stored(req, n, memory, before, after)
  {
    RegisterIsAt(req, n);
  }

  lemma AllWritten(req: Request, hw: seq<bool>, memory: seq<byte>, before: Disk, after: Disk)
    requires req.count < |hw| && req.buffer + 512 * req.count <= |memory|
    requires Writing(req, req.count, hw, memory, before, after)
    ensures Reachable(req) ==> MovedFirst(req, req.count, before, hw) && Stored(req, req.count, memory, before, after)
  {
  }

  /** A read within reach after n good rounds. */
  ghost predicate Reading(req: Request, n: nat, hw: seq<bool>, disk: Disk, before: seq<byte>, after: seq<byte>)
    requires n <= req.count < |hw| && GoodDisk(disk)
  {
    Reachable(req) ==>
      (forall i: nat | i < n :: hw[i] && Address(req, i) in disk) && Fetched(req, n, disk, before, after)
  }

  lemma BeginReading(req: Request, hw: seq<bool>, disk: Disk, memory: seq<byte>)
    requires req.count < |hw| && req.buffer <= |memory| && GoodDisk(disk)
    ensures Reading(req, 0, hw, disk, memory, memory)
  {
  }

  lemma OneMoreRead(req: Request, n: nat, hw: seq<bool>, disk: Disk, before: seq<byte>, mid: seq<byte>, after: seq<byte>)
    requires n < req.count < |hw| && GoodDisk(disk) && req.buffer + 512 * (n + 1) <= |before|
    requires Reading(req, n, hw, disk, before, mid)
    requires var at := Register(req.drive, Wrap32(req.lba + n));
             && hw[n] && at in disk && |after| == |mid|
             && forall a: nat | a < |mid| ::
                  after[a] == if req.buffer + n * 512 <= a < req.buffer + n * 512 + 512
                              then disk[at][a - (req.buffer + n * 512)] else mid[a]
    ensures Reading(req, n + 1, hw, disk, before, after)
  {
    RegisterIsAt(req, n);
    if Reachable(req) {
      hide Register, At;
      forall k: nat | k < 512 * (n + 1) ensures after[req.buffer + k] == disk[Address(req, k / 512)][k % 512] {
        if k >= 512 * n { assert k / 512 == n && k % 512 == k - 512 * n; }
      }
    }
  }

  lemma ReadEnds(req: Request, n: nat, hw: seq<bool>, disk: Disk, before: seq<byte>, after: seq<byte>)
    requires n <= req.count < |hw| && GoodDisk(disk) && Reading(req, n, hw, disk, before, after)
    requires n < req.count ==> !(hw[n] && Register(req.drive, Wrap32(req.lba + n)) in disk)
    ensures Reachable(req) ==> MovedFirst(req, n, disk, hw) && Fetched(req, n, disk, before, after)
  {
    if n < req.count { RegisterIsAt(req, n); }
  }

  class AtaDriver {
    var disk: Disk
    const memory: array<byte>

    constructor (disk: Disk, memory: array<byte>)
      ensures this.disk == disk && this.memory == memory
    {
      this.disk := disk;
      this.memory := memory;
    }

    /** memcpy of one sector into memory. */
    method CopyOut(at: nat, sector: Sector)
      requires |sector| == SECTOR && at + SECTOR <= memory.Length
      modifies memory
      ensures memory[..] == Patched(old(memory[..]), at, sector)
      ensures forall a | 0 <= a < memory.Length ::
                memory[a] == if at <= a < at + SECTOR then sector[a - at] else old(memory[a])
    {
      var i := 0;
      while i < SECTOR
        invariant 0 <= i <= SECTOR
        invariant forall k | 0 <= k < memory.Length ::
                    memory[k] == if at <= k < at + i then sector[k - at] else old(memory[k])
      {
        memory[at + i] := sector[i];
        i := i + 1;
      }
    }

    /** memcpy of one sector out of memory. */
    method CopyIn(at: nat) returns (sector: Sector)
      requires at + SECTOR <= memory.Length
      ensures sector == memory[at..at + SECTOR]
    {
      sector := [];
      var i := 0;
      while i < SECTOR
        invariant 0 <= i <= SECTOR && sector == memory[at..at + i]
      {
        sector := sector + [memory[at + i]];
        i := i + 1;
      }
    }

    /** ata_read_sector: the registers take one bit of the drive and 28 bits of the block address. The
        controller's part is given by `ready`. */
    method ReadSector(drive: uint32, lba: uint32, ready: bool) returns (failed: bool, sector: Sector)
      requires GoodDisk(disk)
      ensures var at := Register(drive, lba);
              && (failed <==> !(ready && at in disk))
              && (!failed ==> sector == disk[at] && |sector| == SECTOR)
    {
      var at := Register(drive, lba);
      if ready && at in disk { return false, disk[at]; }
      return true, [];
    }

    /** ata_write_sector, likewise. */
    method WriteSector(drive: uint32, lba: uint32, sector: Sector, ready: bool) returns (failed: bool)
      modifies this
      ensures var at := Register(drive, lba);
              && (failed <==> !(ready && at in old(disk)))
              && disk == if failed then old(disk) else old(disk)[at := sector]
    {
      var at := Register(drive, lba);
      if ready && at in disk {
        disk := disk[at := sector];
        return false;
      }
      return true;
    }

    /** The READ case: the sectors end up in the buffer, in order, as far as the answer says. */
    method ReadLoop(req: Request, hw: seq<bool>) returns (status: uint32, bytes: uint32, ghost last: Job)
      requires req.op == READ && GoodDisk(disk)
      requires BufferFits(req, memory.Length) && |hw| > req.count
      modifies memory
      ensures last == Rounds(Begin(req), disk, hw, old(memory[..])).0
      ensures Rounds(Begin(req), disk, hw, old(memory[..])).1 == disk
      ensures Response(req.id, status, bytes) == ResponseTo(last)
      ensures req.buffer + |Flat(last.moved)| <= memory.Length
      ensures memory[..] == Patched(old(memory[..]), req.buffer, Flat(last.moved))
      ensures Tells(req, |last.moved|, status, bytes)
      ensures Reachable(req) ==>
                MovedFirst(req, |last.moved|, disk, hw) &&
                Fetched(req, |last.moved|, disk, old(memory[..]), memory[..])
    {
      hide Rounds, Flat, Patched, BufferSector, Bytes, GoodDisk, Fetched, Address, MovedFirst, Reading, Reachable;
      ghost var before := memory[..];
      NoBytes(before, req.buffer);
      BeginReading(req, hw, disk, before);
      last := Begin(req);
      status, bytes := OK, 0;
      var i := 0;
      while i < req.count
        invariant 0 <= i <= req.count && status == OK && GoodDisk(disk)
        invariant last == Job(req, last.moved, OK, i == req.count) && |last.moved| == i
        invariant forall k | 0 <= k < i :: |last.moved[k]| == SECTOR
        invariant Rounds(last, disk, hw, before) == Rounds(Begin(req), disk, hw, before)
        invariant bytes == Bytes(i)
        invariant |Flat(last.moved)| == 512 * i && |before| == memory.Length
        invariant memory[..] == Patched(before, req.buffer, Flat(last.moved))
        invariant Reading(req, i, hw, disk, before, memory[..])
      {
        ghost var mid := memory[..];
        ReadRound(last, disk, hw, before);
        RegisterIsAt(req, i);
        MoreBytes(i);
        var failed, sector := ReadSector(req.drive, Wrap32(req.lba + i), hw[i]);
        if failed {
          status := ERROR;
          last := last.(status := ERROR, over := true);
          RoundsOver(last, disk, hw, before);
          ReadEnds(req, i, hw, disk, before, memory[..]);
          return;
        }
        CopyOut(req.buffer + i * 512, sector);
        OneMoreRead(req, i, hw, disk, before, mid, memory[..]);
        Appended(before, req.buffer, last.moved, sector);
        bytes := Wrap32(bytes + 512);
        last := last.(moved := last.moved + [sector], over := i + 1 == req.count);
        i := i + 1;
      }
      MoreBytes(i);
      RoundsOver(last, disk, hw, before);
      ReadEnds(req, i, hw, disk, before, memory[..]);
    }

    lemma RoundsOver(j: Job, disk: Disk, hw: seq<bool>, memory: seq<byte>)
      requires j.over && BufferFits(j.req, |memory|) && |hw| > j.req.count
      ensures Rounds(j, disk, hw, memory) == (j, disk)
    {
    }

    lemma SectorAt(bytes: seq<byte>, at: nat, i: nat)
      requires at + 512 * (i + 1) <= |bytes|
      ensures BufferSector(bytes, at, i) == bytes[at + i * 512..at + i * 512 + 512]
    {
    }

    lemma NoBytes(before: seq<byte>, at: nat)
      requires at <= |before|
      ensures Flat([]) == [] && Patched(before, at, []) == before && Bytes(0) == 0
    {
    }

    lemma MoreBytes(i: nat)
      ensures Bytes(i + 1) == Wrap32(Bytes(i) + 512)
      ensures Bytes(i) == 512 * i % 0x1_0000_0000
    {
    }

    lemma Appended(before: seq<byte>, at: nat, moved: seq<Sector>, sector: Sector)
      requires |sector| == SECTOR && |Flat(moved)| == 512 * |moved|
      requires at + 512 * (|moved| + 1) <= |before|
      ensures |Flat(moved + [sector])| == 512 * (|moved| + 1)
      ensures Patched(Patched(before, at, Flat(moved)), at + |moved| * 512, sector)
              == Patched(before, at, Flat(moved + [sector]))
    {
      assert (moved + [sector])[..|moved|] == moved;
    }

    /** The WRITE case: the sectors of the buffer go to the disk, in order, as far as the answer says. */
    method WriteLoop(req: Request, hw: seq<bool>) returns (status: uint32, bytes: uint32, ghost last: Job)
      requires req.op == WRITE
      requires BufferFits(req, memory.Length) && |hw| > req.count
      modifies this
      ensures last == Rounds(Begin(req), old(disk), hw, memory[..]).0
      ensures disk == Rounds(Begin(req), old(disk), hw, memory[..]).1
      ensures Response(req.id, status, bytes) == ResponseTo(last)
      ensures Tells(req, |last.moved|, status, bytes)
      ensures Reachable(req) ==>
                MovedFirst(req, |last.moved|, old(disk), hw) &&
                Stored(req, |last.moved|, memory[..], old(disk), disk)
    {
      hide Rounds, Bytes, Stored, Address, MovedFirst, Writing, Reachable, At, BufferSector;
      NoBytes(memory[..], req.buffer);
      BeginWriting(req, hw, memory[..], disk);
      last := Begin(req);
      status, bytes := OK, 0;
      var i := 0;
      while i < req.count
        invariant 0 <= i <= req.count && status == OK
        invariant last == Job(req, last.moved, OK, i == req.count) && |last.moved| == i
        invariant Rounds(last, disk, hw, memory[..]) == Rounds(Begin(req), old(disk), hw, memory[..])
        invariant bytes == Bytes(i)
        invariant Writing(req, i, hw, memory[..], old(disk), disk)
      {
        WriteRound(last, disk, hw, memory[..]);
        var sector := CopyIn(req.buffer + i * 512);
        SectorAt(memory[..], req.buffer, i);
        RegisterIsAt(req, i);
        MoreBytes(i);
        OneMoreWritten(req, i, hw, memory[..], old(disk), disk);
        var failed := WriteSector(req.drive, Wrap32(req.lba + i), sector, hw[i]);
        if failed {
          status := ERROR;
          last := last.(status := ERROR, over := true);
          RoundsOver(last, disk, hw, memory[..]);
          return;
        }
        bytes := Wrap32(bytes + 512);
        last := last.(moved := last.moved + [sector], over := i + 1 == req.count);
        i := i + 1;
      }
      MoreBytes(i);
      RoundsOver(last, disk, hw, memory[..]);
      AllWritten(req, hw, memory[..], old(disk), disk);
    }

    /** handle_request, up to sending the answer. */
    method HandleRequest(req: Request, hw: seq<bool>) returns (answer: Response, ghost last: Job)
      requires GoodDisk(disk) && BufferFits(req, memory.Length) && |hw| > req.count
      modifies this, memory
      ensures (last, disk) == Rounds(Begin(req), old(disk), hw, old(memory[..]))
      ensures answer == ResponseTo(last)
      ensures req.op == READ ==> req.buffer + |Flat(last.moved)| <= memory.Length &&
                                 memory[..] == Patched(old(memory[..]), req.buffer, Flat(last.moved))
      ensures Served(req, |last.moved|, answer, hw, old(disk), disk, old(memory[..]), memory[..])
    {
      hide Fetched, Stored, Address;
      var status, bytes: uint32 := OK, 0;
      last := Begin(req);
      if req.op == READ {
        status, bytes, last := ReadLoop(req, hw);
      } else if req.op == WRITE {
        status, bytes, last := WriteLoop(req, hw);
      } else if req.op == FLUSH {
        if !hw[0] { status := ERROR; }
        last := last.(status := status, over := true);
      } else {
        status := INVALID;
      }
      answer := Response(req.id, status, bytes);
    }

    /** handle_request from the message on: one that is too short for a request is ignored. */
    method HandleMessage(msg: Ipc.Message, hw: seq<bool>) returns (answer: Option<Response>, ghost last: Option<Job>)
      requires Ipc.MessageOk(msg) && GoodDisk(disk)
      requires msg.size >= BlkClient.REQUEST_SIZE ==>
                 var req := BlkClient.DecodeRequest(msg.data); BufferFits(req, memory.Length) && |hw| > req.count
      modifies this, memory
      ensures answer.Some? <==> msg.size >= BlkClient.REQUEST_SIZE
      ensures answer.None? ==> disk == old(disk) && memory[..] == old(memory[..])
      ensures answer.Some? ==>
                && last.Some? && answer.value == ResponseTo(last.value)
                && (last.value, disk) == Rounds(Begin(BlkClient.DecodeRequest(msg.data)), old(disk), hw, old(memory[..]))
                && Served(BlkClient.DecodeRequest(msg.data), |last.value.moved|, answer.value, hw, old(disk), disk,
                          old(memory[..]), memory[..])
    {
      hide Rounds, Served, BlkClient.DecodeRequest;
      answer, last := None, None;
      if msg.size >= BlkClient.REQUEST_SIZE {
        var resp; ghost var job;
        resp, job := HandleRequest(BlkClient.DecodeRequest(msg.data), hw);
        answer, last := Some(resp), Some(job);
      }
    }
  }
}
