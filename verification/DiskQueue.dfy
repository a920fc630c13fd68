/**
 The interrupt-driven disk queue.  Requests wait in a queue; the one at the head is
 with the device; an interrupt completes it and starts the next.
 */
module DiskQueue {
  import opened Bytes
  import opened Sequences

  const B_VALID := 2
  const B_DIRTY := 4

  /** The flag word of a buffer that asks for a write. */
  predicate Dirty(flags: nat) {
    flags / B_DIRTY % 2 == 1
  }

  datatype Buf = Buf(flags: nat, blockno: nat, data: Block)

  /** What the device is doing: nothing, a command it was given, or waiting for its result to be collected. */
  datatype Flight = Resting | Reading(blockno: nat) | Writing(blockno: nat, data: Block) | Fetched(data: Block) | Stored

  /** A request as submitted. */
  datatype Request = Request(id: nat, buf: Buf)

  ghost function Effect(disk: seq<Block>, b: Buf): seq<Block> {
    if Dirty(b.flags) && b.blockno < |disk| then disk[b.blockno := b.data] else disk
  }

  /** The disk after running the requests one at a time. */
  ghost function After(disk: seq<Block>, rs: seq<Request>): (d: seq<Block>)
    ensures |d| == |disk|
  {
    if rs == [] then disk else Effect(After(disk, rs[..|rs| - 1]), rs[|rs| - 1].buf)
  }

  /** What request i delivers when the requests run one at a time: the block read, or the data written. */
  ghost function Answer(disk: seq<Block>, rs: seq<Request>, i: nat): Block
    requires i < |rs| && rs[i].buf.blockno < |disk|
  {
    if Dirty(rs[i].buf.flags) then rs[i].buf.data else After(disk, rs[..i])[rs[i].buf.blockno]
  }

  ghost function FlightOf(b: Buf): Flight {
    if Dirty(b.flags) then Writing(b.blockno, b.data) else Reading(b.blockno)
  }

  /** The device after it has carried out its command: what it stores, and the result it shows. */
  ghost function Finished(disk: seq<Block>, f: Flight): (seq<Block>, Flight) {
    match f
    case Reading(n) => if n < |disk| then (disk, Fetched(disk[n])) else (disk, f)
    case Writing(n, data) => if n < |disk| then (disk[n := data], Stored) else (disk, f)
    case _ => (disk, f)
  }

  /** The device has the head of the queue, as commanded or carried out, and nothing else. */
  ghost predicate InFlight(before: seq<Block>, disk: seq<Block>, flight: Flight, head: Buf) {
    (disk, flight) == (before, FlightOf(head)) || (disk, flight) == Finished(before, FlightOf(head))
  }

  /** The requests that wait are the queue, in order, with their buffers as submitted. */
  ghost predicate Waiting(bufs: map<nat, Buf>, queue: seq<nat>, rs: seq<Request>) {
    |queue| == |rs| && forall j :: 0 <= j < |rs| ==> rs[j].id == queue[j] && queue[j] in bufs && bufs[queue[j]] == rs[j].buf
  }

  /** The answers delivered so far are those of running the requests one at a time. */
  ghost predicate Answered(disk: seq<Block>, rs: seq<Request>, answers: seq<Block>) {
    && |answers| <= |rs| && (forall i :: 0 <= i < |rs| ==> rs[i].buf.blockno < |disk|)
    && forall i :: 0 <= i < |answers| ==> answers[i] == Answer(disk, rs, i)
  }

  lemma {:induction false} AnsweredMore(disk: seq<Block>, rs: seq<Request>, answers: seq<Block>, r: Request)
    requires Answered(disk, rs, answers) && r.buf.blockno < |disk|
    ensures Answered(disk, rs + [r], answers)
  {
    forall i | 0 <= i < |answers| ensures answers[i] == Answer(disk, rs + [r], i) {
      assert (rs + [r])[..i] == rs[..i];
    }
  }

  class Disk {
    var disk: seq<Block>
    var bufs: map<nat, Buf>
    var queue: seq<nat>
    var flight: Flight
    ghost const initial: seq<Block>
    ghost var requests: seq<Request>
    ghost var answers: seq<Block>

    /**
     Exactly the head of the queue is with the device; the requests answered so far are
     the first ones submitted, and disk and answers are as if they had run one by one.
     */
    ghost predicate Valid()
      reads this
    {
      && Answered(initial, requests, answers) && Waiting(bufs, queue, requests[|answers|..]) && Distinct(queue)
      && var before := After(initial, requests[..|answers|]);
         if queue == [] then disk == before && flight == Resting
         else InFlight(before, disk, flight, requests[|answers|].buf)
    }

    constructor (disk: seq<Block>)
      ensures Valid() && requests == [] && answers == [] && initial == disk && this.disk == disk && queue == [] && bufs == map[]
    {
      this.disk, bufs, queue, flight := disk, map[], [], Resting;
      initial, requests, answers := disk, [], [];
    }

    /** Sends the command for a buffer, with its data for a write, to the device. */
    method Start(id: nat)
      requires id in bufs
      modifies this`flight
      ensures flight == FlightOf(bufs[id])
      ensures flight == if bufs[id].flags / 4 % 2 == 1 then Writing(bufs[id].blockno, bufs[id].data) else Reading(bufs[id].blockno)
    {
      var b := bufs[id];
      if Dirty(b.flags) {
        flight := Writing(b.blockno, b.data);
      } else {
        flight := Reading(b.blockno);
      }
    }

    /** The device carries out the command it was given, at any time; it knows nothing of the queue. */
    method Work()
      requires Valid()
      modifies this`disk, this`flight
      ensures Valid() && (disk, flight) == Finished(old(disk), old(flight))
      ensures queue != [] ==> flight.Fetched? || flight.Stored?
    {
      hide Answered, Answer, After, Dirty;
      AnsweredSize(initial, requests, answers);
      SizeKept(initial, requests[..|answers|]);
      match flight {
        case Reading(n) => flight := Fetched(disk[n]);
        case Writing(n, data) =>
          disk := disk[n := data];
          flight := Stored;
        case _ =>
      }
    }

    /** Submits a request for a buffer that is not already waiting. */
    method Submit(id: nat, b: Buf)
      requires Valid() && id !in queue && b.blockno < |disk|
      modifies this`bufs, this`queue, this`flight, this`requests
      ensures Valid() && requests == old(requests) + [Request(id, b)] && queue == old(queue) + [id]
      ensures bufs == old(bufs)[id := b]
      ensures flight == if old(queue) != [] then old(flight)
                        else if b.flags / 4 % 2 == 1 then Writing(b.blockno, b.data) else Reading(b.blockno)
    {
      hide Answered, Answer, After, FlightOf, Dirty, Finished;
      ghost var n, r := |answers|, Request(id, b);
      AnsweredSize(initial, requests, answers);
      DiskSize(initial, requests, n, disk, flight, queue);
      AnsweredMore(initial, requests, answers, r);
      assert (requests + [r])[..n] == requests[..n] && (requests + [r])[n..] == requests[n..] + [r];
      bufs := bufs[id := b];
      queue := queue + [id];
      requests := requests + [r];
      if |queue| == 1 {
        Start(id);
      }
    }

    /**
     The interrupt of a finished device, which the handler waits for if need be.  The
     result is collected from the device, the head is answered and leaves, and the next
     command is sent.  It panics exactly when nothing waits or the head is neither a read
     (flags 0) nor a write.
     */
    method Interrupt() returns (ok: bool)
      requires Valid()
      modifies this
      ensures ok <==> old(queue) != [] && var flags := old(bufs)[old(queue)[0]].flags; flags == 0 || flags / 4 % 2 == 1
      ensures ok ==> Valid() && requests == old(requests) && queue == old(queue)[1..] && |answers| == |old(answers)| + 1
      ensures ok ==> answers[..|answers| - 1] == old(answers)
      ensures ok ==> var id := old(queue)[0];
                bufs == old(bufs)[id := Buf(2, old(bufs)[id].blockno, answers[|answers| - 1])]
      ensures ok && queue != [] ==>
                && queue[0] in bufs
                && var b := bufs[queue[0]];
                   flight == if b.flags / 4 % 2 == 1 then Writing(b.blockno, b.data) else Reading(b.blockno)
      ensures ok && queue == [] ==> flight == Resting
    {
      hide Answered, Answer, After, InFlight, FlightOf, Distinct;
      if queue == [] {
        return false;
      }
      ghost var n := |answers|;
      AnsweredSize(initial, requests, answers);
      var id := queue[0];
      assert requests[n..][0] == requests[n];
      var b := bufs[id];
      if b.flags != 0 && !Dirty(b.flags) {
        return false;
      }
      var data := Collect(b);
      AnswerMore(initial, requests, answers, data);
      answers := answers + [data];
      NextWaiting(bufs, queue, requests[n..], Buf(B_VALID, b.blockno, data));
      assert requests[n..][1..] == requests[n + 1..];
      bufs := bufs[id := Buf(B_VALID, b.blockno, data)];
      queue := queue[1..];
      flight := Resting;
      if queue != [] {
        Start(queue[0]);
        GivenNow(disk, flight, bufs[queue[0]]);
      }
      ok := true;
    }

    /** Waits for the device and takes its result for the buffer b at the head. */
    method Collect(b: Buf) returns (data: Block)
      requires Valid() && |answers| < |requests| && b == requests[|answers|].buf && (b.flags == 0 || Dirty(b.flags))
      modifies this`disk, this`flight
      ensures b.blockno < |initial| && data == Answer(initial, requests, |answers|)
      ensures disk == After(initial, requests[..|answers| + 1])
    {
      hide Answered, Answer, After;
      AnsweredSize(initial, requests, answers);
      OneMore(initial, requests, |answers|);
      Work();
      data := if flight.Fetched? then flight.data else b.data;
    }
  }

  lemma {:induction false} DiskSize(initial: seq<Block>, rs: seq<Request>, n: nat, disk: seq<Block>, flight: Flight, queue: seq<nat>)
    requires n <= |rs| && |queue| == |rs| - n
    requires var before := After(initial, rs[..n]);
             if queue == [] then disk == before && flight == Resting else InFlight(before, disk, flight, rs[n].buf)
    ensures |disk| == |initial|
  {
    SizeKept(initial, rs[..n]);
  }

  lemma {:induction false} GivenNow(disk: seq<Block>, flight: Flight, head: Buf)
    requires flight == FlightOf(head)
    ensures InFlight(disk, disk, flight, head)
  {
  }

  /** Running one more request. */
  lemma {:induction false} OneMore(disk: seq<Block>, rs: seq<Request>, n: nat)
    requires n < |rs| && rs[n].buf.blockno < |disk| && (rs[n].buf.flags == 0 || Dirty(rs[n].buf.flags))
    ensures |After(disk, rs[..n])| == |disk|
    ensures var d, b := After(disk, rs[..n]), rs[n].buf;
            && After(disk, rs[..n + 1]) == (if b.flags == 0 then d else d[b.blockno := b.data])
            && Answer(disk, rs, n) == if b.flags == 0 then d[b.blockno] else b.data
  {
    assert rs[..n + 1][..n] == rs[..n];
  }

  /** Request i asks for a write to block n. */
  ghost predicate Writes(rs: seq<Request>, i: int, n: nat) {
    0 <= i < |rs| && rs[i].buf.flags / 4 % 2 == 1 && rs[i].buf.blockno == n
  }

  /** After a run of requests a block holds what the last write to it stored, or what it held at first. */
  lemma {:induction false} LastWrite(disk: seq<Block>, rs: seq<Request>, n: nat)
    requires n < |disk|
    ensures (forall i :: !Writes(rs, i, n)) ==> After(disk, rs)[n] == disk[n]
    ensures forall i :: 0 <= i < |rs| && Writes(rs, i, n) && (forall j :: i < j ==> !Writes(rs, j, n)) ==> After(disk, rs)[n] == rs[i].buf.data
    decreases |rs|
  {
    hide After, Writes;
    if rs == [] {
      NoRequests(disk, n);
    } else {
      var k := |rs| - 1;
      var qs := rs[..k];
      LastWrite(disk, qs, n);
      OneRequest(disk, rs, n);
      forall i | 0 <= i < |rs| && Writes(rs, i, n) && (forall j :: i < j ==> !Writes(rs, j, n))
        ensures After(disk, rs)[n] == rs[i].buf.data
      {
        if i < k {
          assert Writes(qs, i, n) && !Writes(rs, k, n);
          assert forall j :: i < j ==> !Writes(qs, j, n);
        }
      }
      if forall i :: !Writes(rs, i, n) {
        assert forall i :: !Writes(qs, i, n);
      }
    }
  }

  lemma {:induction false} NoRequests(disk: seq<Block>, n: nat)
    ensures After(disk, []) == disk && forall i :: !Writes([], i, n)
  {
  }

  /** The last request either writes the block or leaves it. */
  lemma {:induction false} OneRequest(disk: seq<Block>, rs: seq<Request>, n: nat)
    requires rs != [] && n < |disk|
    ensures var k := |rs| - 1;
            && After(disk, rs)[n] == (if Writes(rs, k, n) then rs[k].buf.data else After(disk, rs[..k])[n])
            && forall i :: Writes(rs[..k], i, n) <==> i < k && Writes(rs, i, n)
  {
  }

  /** A write answers with its own data, and a read with the last write to its block before it. */
  lemma {:induction false} AnswerIs(disk: seq<Block>, rs: seq<Request>, i: nat)
    requires i < |rs| && rs[i].buf.blockno < |disk|
    ensures rs[i].buf.flags / 4 % 2 == 1 ==> Answer(disk, rs, i) == rs[i].buf.data
    ensures rs[i].buf.flags / 4 % 2 == 0 && (forall j :: j < i ==> !Writes(rs, j, rs[i].buf.blockno)) ==>
              Answer(disk, rs, i) == disk[rs[i].buf.blockno]
    ensures forall k :: rs[i].buf.flags / 4 % 2 == 0 && k < i && Writes(rs, k, rs[i].buf.blockno)
                        && (forall j :: k < j < i ==> !Writes(rs, j, rs[i].buf.blockno)) ==>
              Answer(disk, rs, i) == rs[k].buf.data
  {
    var qs, n := rs[..i], rs[i].buf.blockno;
    LastWrite(disk, qs, n);
    assert forall j :: Writes(qs, j, n) <==> j < i && Writes(rs, j, n);
  }

  lemma {:induction false} SizeKept(disk: seq<Block>, rs: seq<Request>)
    ensures |After(disk, rs)| == |disk|
  {
  }

  lemma {:induction false} AnsweredSize(disk: seq<Block>, rs: seq<Request>, answers: seq<Block>)
    requires Answered(disk, rs, answers)
    ensures |answers| <= |rs| && forall i :: 0 <= i < |rs| ==> rs[i].buf.blockno < |disk|
  {
  }

  lemma {:induction false} AnswerMore(disk: seq<Block>, rs: seq<Request>, answers: seq<Block>, data: Block)
    requires Answered(disk, rs, answers) && |answers| < |rs| && data == Answer(disk, rs, |answers|)
    ensures Answered(disk, rs, answers + [data])
  {
  }

  /** The head leaves; the others wait as before, since no buffer is in the queue twice. */
  lemma {:induction false} NextWaiting(bufs: map<nat, Buf>, queue: seq<nat>, rs: seq<Request>, b: Buf)
    requires Waiting(bufs, queue, rs) && Distinct(queue) && queue != []
    ensures Waiting(bufs[queue[0] := b], queue[1..], rs[1..]) && Distinct(queue[1..])
  {
  }
}
