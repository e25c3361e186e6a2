/**
 A local socket of adbd: packets from the host are written to a file descriptor that may not take them all at once.
 */
module LocalSocket {
  import opened Bytes

  /** How a `write` ends: some bytes written, nothing written, or an error. */
  datatype Answer = Wrote(n: nat) | Zero | Again | Interrupted | Broken

  // How writing some bytes ends

  datatype How = Done | Blocked | Failed

  /** How many bytes were taken, how later writes will end, and how it ended. */
  datatype Ending = Ending(taken: nat, script: seq<Answer>, how: How)

  /** The answer lets the loop go on: it takes something, or it is an interruption that is retried. */
  predicate GoesOn(a: Answer, retry: bool) { (a.Wrote? && a.n > 0) || (retry && a.Interrupted?) }

  function Taken(a: Answer): (n: nat) { if a.Wrote? then a.n else 0 }

  /** How many of `n` bytes the answer takes. */
  function Part(a: Answer, n: nat): (k: nat)
    ensures k <= n
  {
    if Taken(a) < n then Taken(a) else n
  }

  function More(k: nat, e: Ending): (r: Ending) { e.(taken := k + e.taken) }

  /**
   Writing `n` bytes while writes end as in `script`; when the script runs out, the descriptor blocks. The loops of
   `local_socket_enqueue` and of the event function differ in `retry`: only the second tries an interrupted call again.
   */
  function Writing(script: seq<Answer>, n: nat, retry: bool): (e: Ending)
    ensures e.taken <= n && |e.script| <= |script| && (e.how == Done <==> e.taken == n)
    decreases |script|
  {
    if n == 0 then Ending(0, script, Done)
    else if script == [] then Ending(0, [], Blocked)
    else if GoesOn(script[0], retry) then
      var k := Part(script[0], n);
      More(k, Writing(script[1..], n - k, retry))
    else Ending(0, script[1..], if script[0].Again? then Blocked else Failed)
  }

  /** What `write` returns for `n` bytes, and how later writes will end. */
  function Reply(script: seq<Answer>, n: nat): (a: Answer)
    ensures Taken(a) <= n
  {
    if script == [] then Again
    else if Taken(script[0]) > 0 then Wrote(Part(script[0], n))
    else if script[0].Wrote? then Zero
    else script[0]
  }

  function Later(script: seq<Answer>): (rest: seq<Answer>) { if script == [] then [] else script[1..] }

  lemma AfterReply(script: seq<Answer>, n: nat, retry: bool, a: Answer, e: Ending) returns (e2: Ending)
    requires n > 0 && a == Reply(script, n) && e == Writing(script, n, retry)
    ensures GoesOn(a, retry) ==>
              script != [] && e2 == Writing(Later(script), n - Taken(a), retry) && e == More(Taken(a), e2)
    ensures !GoesOn(a, retry) ==> e == e2 == Ending(0, Later(script), if a.Again? then Blocked else Failed)
  {
    e2 := if GoesOn(a, retry) then Writing(Later(script), n - Taken(a), retry) else e;
  }

  lemma TakeMore(sent: seq<byte>, packet: seq<byte>, done: nat, rest: seq<byte>, k: nat)
    requires done <= |packet| && rest == packet[done..] && k <= |rest|
    ensures sent + packet[..done] + rest[..k] == sent + packet[..done + k] && rest[k..] == packet[done + k..]
  {
    assert packet[..done] + rest[..k] == packet[..done + k];
  }

  /** How many answers in front let the loop go on. */
  function Smooth(script: seq<Answer>, retry: bool): (k: nat)
    ensures k <= |script| && (k < |script| ==> !GoesOn(script[k], retry))
    ensures forall i :: 0 <= i < k ==> GoesOn(script[i], retry)
  {
    if script == [] || !GoesOn(script[0], retry) then 0 else 1 + Smooth(script[1..], retry)
  }

  /** How many bytes the first `k` answers take. */
  function Room(script: seq<Answer>, k: nat): (n: nat)
    requires k <= |script|
  {
    if k == 0 then 0 else Taken(script[0]) + Room(script[1..], k - 1)
  }

  /**
   All bytes are written exactly when the first `k` answers have room for them; else as many as they have room for, and
   the answer after them decides.
   */
  predicate EndsAt(script: seq<Answer>, n: nat, k: nat, room: nat, e: Ending)
    requires k <= |script|
  {
    && (e.how == Done <==> n <= room) && (n > room ==> e.taken == room)
    && (e.how == Failed <==> n > room && k < |script| && !script[k].Again?)
    && (n > room && k < |script| ==> e.script == script[k + 1..])
  }

  lemma EndsAtNext(script: seq<Answer>, rest: seq<Answer>, n: nat, part: nat, k: nat, room: nat, e: Ending)
    requires script != [] && rest == script[1..] && part == Part(script[0], n) && k <= |rest|
    requires EndsAt(rest, n - part, k, room, e)
    ensures EndsAt(script, n, k + 1, Taken(script[0]) + room, More(part, e))
  {
    if k < |rest| { assert rest[k] == script[k + 1] && rest[k + 1..] == script[k + 2..]; }
  }

  /** The answers in front of the first that stops the loop, and that one, decide how writing ends. */
  lemma {:induction false} WritingEnds(script: seq<Answer>, n: nat, retry: bool)
    ensures var k := Smooth(script, retry); EndsAt(script, n, k, Room(script, k), Writing(script, n, retry))
    decreases |script|
  {
    if n > 0 && script != [] && GoesOn(script[0], retry) {
      var rest, part := script[1..], Part(script[0], n);
      WritingEnds(rest, n - part, retry);
      var k := Smooth(rest, retry);
      EndsAtNext(script, rest, n, part, k, Room(rest, k), Writing(rest, n - part, retry));
    }
  }

  /** An interruption stops the loop that does not retry before `n` bytes are written. */
  predicate InterruptedAt(script: seq<Answer>, n: nat, k: nat, room: nat)
    requires k <= |script|
  {
    n > room && k < |script| && script[k].Interrupted?
  }

  /** How the two loops end: alike, or the first fails and to the second it is as if answer `k` had not been. */
  predicate EndAlike(script: seq<Answer>, n: nat, k: nat, room: nat)
    requires k <= |script|
  {
    if InterruptedAt(script, n, k, room)
    then Writing(script, n, false).how == Failed && Writing(script, n, true) == Writing(Without(script, k), n, true)
    else Writing(script, n, true) == Writing(script, n, false)
  }

  lemma EndAlikeNext(script: seq<Answer>, rest: seq<Answer>, n: nat, part: nat, k: nat, room: nat)
    requires n > 0 && script != [] && GoesOn(script[0], false) && rest == script[1..] && part == Part(script[0], n)
    requires k <= |rest| && EndAlike(rest, n - part, k, room)
    ensures EndAlike(script, n, k + 1, Taken(script[0]) + room)
  {
    if k < |rest| {
      WithoutLater(script, k + 1, rest);
      assert Writing(Without(script, k + 1), n, true) == More(part, Writing(Without(rest, k), n - part, true));
    }
  }

  /**
   The two loops end alike unless an interruption comes before all is written. Then the first one fails, and to the
   second it is as if the interruption had not been.
   */
  lemma {:induction false} RetryMatters(script: seq<Answer>, n: nat)
    ensures var k := Smooth(script, false); EndAlike(script, n, k, Room(script, k))
    decreases |script|
  {
    if n > 0 && script != [] && GoesOn(script[0], false) {
      var rest, part := script[1..], Part(script[0], n);
      RetryMatters(rest, n - part);
      EndAlikeNext(script, rest, n, part, Smooth(rest, false), Room(rest, Smooth(rest, false)));
    } else if script != [] {
      assert Without(script, 0) == script[1..];
    }
  }

  lemma WithoutLater(script: seq<Answer>, k: nat, rest: seq<Answer>)
    requires 0 < k < |script| && rest == script[1..]
    ensures rest[k - 1] == script[k] && Without(script, k)[0] == script[0] &&
            Without(script, k)[1..] == Without(rest, k - 1)
  {
  }

  function Without(script: seq<Answer>, k: nat): (r: seq<Answer>)
    requires k < |script|
  {
    script[..k] + script[k + 1..]
  }

  /** One interrupted call: it closes the socket in `local_socket_enqueue` and goes unnoticed in the event function. */
  lemma InterruptedAlone(n: nat)
    requires n > 0
    ensures Writing([Interrupted], n, false).how == Failed && Writing([Interrupted], n, true) == Ending(0, [], Blocked)
  {
    assert [Interrupted][1..] == [];
  }

  /** What is left of a queue after as much as possible was written. */
  datatype Drained = Drained(queue: seq<seq<byte>>, script: seq<Answer>, how: How)

  /** The event function: one packet after the other, until one is not written completely. */
  function Drain(script: seq<Answer>, queue: seq<seq<byte>>): (d: Drained)
    ensures d.how == Done <==> d.queue == []
    ensures d.queue != [] && d.how != Done ==> d.queue[0] != []
    decreases |queue|
  {
    if queue == [] then Drained([], script, Done)
    else
      var e := Writing(script, |queue[0]|, true);
      if e.how == Done then Drain(e.script, queue[1..])
      else Drained([queue[0][e.taken..]] + queue[1..], e.script, e.how)
  }

  // Scripts that let everything through in the end

  /** No write will fail: each one takes something or says that it would block. */
  predicate Calm(script: seq<Answer>) { forall k :: 0 <= k < |script| ==> script[k].Again? || GoesOn(script[k], false) }

  /** How many answers take something, and how many say that it would block. */
  function Takers(script: seq<Answer>): (n: nat) {
    if script == [] then 0 else (if Taken(script[0]) > 0 then 1 else 0) + Takers(script[1..])
  }

  function Blocks(script: seq<Answer>): (n: nat) {
    if script == [] then 0 else (if script[0].Again? then 1 else 0) + Blocks(script[1..])
  }

  /**
   On a calm script writing never fails; it blocks only for an answer that says so, or when all that take are used.
   */
  lemma {:induction false} CalmWriting(script: seq<Answer>, n: nat, retry: bool)
    requires Calm(script)
    ensures var e := Writing(script, n, retry);
            && e.how != Failed && Calm(e.script) && Takers(e.script) + e.taken >= Takers(script)
            && Blocks(e.script) + (if e.how == Blocked && Takers(script) >= n then 1 else 0) <= Blocks(script)
    decreases |script|
  {
    if n > 0 && script != [] {
      var rest := script[1..];
      assert forall k :: 0 <= k < |rest| ==> rest[k] == script[k + 1];
      if GoesOn(script[0], retry) { CalmWriting(rest, n - Part(script[0], n), retry); }
    }
  }

  lemma {:induction false} CalmDrain(script: seq<Answer>, queue: seq<seq<byte>>)
    requires Calm(script)
    ensures var d := Drain(script, queue);
            && d.how != Failed && Calm(d.script)
            && Takers(d.script) + |Concat(queue)| >= Takers(script) + |Concat(d.queue)|
            && Blocks(d.script) + (if d.how == Blocked && Takers(script) >= |Concat(queue)| then 1 else 0)
                 <= Blocks(script)
    decreases |queue|
  {
    if queue != [] {
      var e := Writing(script, |queue[0]|, true);
      CalmWriting(script, |queue[0]|, true);
      if e.how == Done {
        CalmDrain(e.script, queue[1..]);
      } else {
        var d := Drain(script, queue);
        assert d.queue[1..] == queue[1..];
      }
    }
  }

  /** A file descriptor: `script` is how the next writes will end; when it runs out, the descriptor blocks. */
  class Descriptor {
    var script: seq<Answer>
    var sent: seq<byte>

    constructor (script: seq<Answer>)
      ensures this.script == script && sent == []
    {
      this.script, sent := script, [];
    }

    /** `adb_write`: the answer is `Wrote(n)` with the number of bytes that were taken. */
    method Write(data: seq<byte>) returns (a: Answer)
      requires data != []
      modifies this
      ensures a == Reply(old(script), |data|) && script == Later(old(script)) && sent == old(sent) + data[..Taken(a)]
    {
      if script == [] { return Again; }
      a, script := script[0], script[1..];
      if a.Wrote? {
        if a.n == 0 { return Zero; }
        a := Wrote(if a.n < |data| then a.n else |data|);
        sent := sent + data[..a.n];
      }
    }
  }

  datatype Phase = Open | Draining | Dead

  datatype Outcome = Ready | Backlog | Closed

  class Socket {
    const fd: Descriptor
    /** The packets still to be written; of the first one, the bytes that are left. */
    var queue: seq<seq<byte>>
    /** Whether FDE_WRITE is armed. */
    var armed: bool
    var phase: Phase
    /** How many OKAY messages were sent to the host. */
    var okays: nat
    /**
     All bytes the host sent, how many WRTE messages they came in, and whether it always waited for the OKAY before the
     next.
     */
    ghost var accepted: seq<byte>
    ghost var writes: nat
    ghost var patient: bool
    /** A write ended with an error that is not taken as temporary. */
    ghost var failed: bool

    ghost predicate Valid()
      reads this, fd
    {
      && (phase != Dead ==> fd.sent + Concat(queue) == accepted && (armed <==> queue != []))
      && (phase == Draining ==> queue != []) && (queue != [] ==> queue[0] != [])
      && (phase == Dead ==> fd.sent <= accepted && (!failed ==> fd.sent == accepted))
      && (phase == Open && patient ==> writes == okays + (if queue == [] then 0 else 1))
    }

    constructor (fd: Descriptor)
      requires fd.sent == []
      ensures Valid() && this.fd == fd && phase == Open && accepted == [] && writes == okays == 0 && patient && !failed
    {
      this.fd, queue, armed, phase, okays := fd, [], false, Open, 0;
      accepted, writes, patient, failed := [], 0, true, false;
    }

    /** The inner loop of both functions: writes as much of the packet as the descriptor takes. */
    method WriteOut(packet: seq<byte>, retry: bool) returns (rest: seq<byte>, how: How)
      modifies fd
      ensures var e := Writing(old(fd.script), |packet|, retry);
              && how == e.how && fd.script == e.script
              && fd.sent == old(fd.sent) + packet[..e.taken] && rest == packet[e.taken..]
    {
      rest := packet;
      ghost var e, done: nat, sent := Writing(fd.script, |packet|, retry), 0, fd.sent;
      ghost var goal := e;
      while rest != []
        invariant done <= |packet| && rest == packet[done..] && fd.sent == sent + packet[..done]
        invariant e == Writing(fd.script, |rest|, retry) && goal == More(done, e)
        decreases |fd.script|
      {
        var over;
        over, rest, how, done, e := WriteOnce(packet, rest, retry, sent, done, e);
        if over { return; }
      }
      how := Done;
    }

    /** One round of that loop. */
    method WriteOnce(packet: seq<byte>, rest: seq<byte>, retry: bool, ghost sent: seq<byte>, ghost done: nat,
                     ghost e: Ending)
        returns (over: bool, rest2: seq<byte>, how: How, ghost done2: nat, ghost e2: Ending)
      requires done < |packet| && rest == packet[done..] && fd.sent == sent + packet[..done]
      requires e == Writing(fd.script, |rest|, retry)
      modifies fd
      ensures done <= done2 <= |packet| && rest2 == packet[done2..] && fd.sent == sent + packet[..done2]
      ensures More(done, e) == More(done2, e2)
      ensures over ==> e2 == Ending(0, fd.script, how)
      ensures !over ==> e2 == Writing(fd.script, |rest2|, retry) && |fd.script| < |old(fd.script)|
    {
      over, rest2, how, done2 := true, rest, Failed, done;
      ghost var script := fd.script;
      var a := fd.Write(rest);
      e2 := AfterReply(script, |rest|, retry, a, e);
      if a.Wrote? {
        TakeMore(sent, packet, done, rest, a.n);
        over, rest2, done2 := false, rest[a.n..], done + a.n;
      } else if a.Again? {
        how := Blocked;
      } else if retry && a.Interrupted? {
        over := false;
      }
    }

    /** `local_socket_close_locked`, as far as this socket goes: it dies at once, or when its queue is written. */
    method Close()
      requires phase != Dead && fd.sent + Concat(queue) == accepted && (queue != [] ==> queue[0] != [])
      requires queue != [] ==> armed && (phase == Draining ==> failed)
      modifies this`phase
      ensures Valid()
      ensures phase == if old(phase) == Draining || queue == [] then Dead else Draining
    {
      if phase == Draining || queue == [] { phase := Dead; } else { phase := Draining; }
    }

    /**
     `local_socket_enqueue`: behind a queue the packet waits; else it is written as far as possible, an interrupted call
     not being repeated. The rest is queued if the descriptor blocks, and the socket is closed if it fails.
     */
    method Enqueue(packet: seq<byte>) returns (o: Outcome)
      requires phase == Open && (armed <==> queue != [])
      modifies this`queue, this`armed, this`phase, this`failed, fd
      ensures old(queue) != [] ==>
                && o == Backlog && queue == old(queue) + [packet] && armed && phase == Open && failed == old(failed)
                && fd.sent == old(fd.sent) && fd.script == old(fd.script)
      ensures old(queue) == [] ==>
                var e := Writing(old(fd.script), |packet|, false);
                && fd.sent == old(fd.sent) + packet[..e.taken] && fd.script == e.script
                && queue == (if e.how == Blocked then [packet[e.taken..]] else []) && (armed <==> queue != [])
                && o == (match e.how case Done => Ready case Blocked => Backlog case Failed => Closed)
                && phase == (if e.how == Failed then Dead else Open) && failed == (old(failed) || e.how == Failed)
    {
      var p := packet;
      if queue == [] {
        var how;
        p, how := WriteOut(packet, false);
        if how == Failed {
          failed, phase := true, Dead;
          return Closed;
        }
        if how == Done { return Ready; }
      }
      queue, armed := queue + [p], true;
      o := Backlog;
    }

    /** The A_WRTE case of `handle_packet`: an OKAY right away only if everything was written. */
    method HandleWrite(packet: seq<byte>)
      requires Valid()
      modifies this, fd
      ensures Valid() && accepted == if old(phase) == Open then old(accepted) + packet else old(accepted)
      ensures writes == old(writes) + (if old(phase) == Open then 1 else 0)
      ensures okays == old(okays) + (if old(phase) == Open && phase == Open && queue == [] then 1 else 0)
      ensures patient == (old(patient) && (old(phase) == Open ==> old(writes) == old(okays)))
      ensures old(phase) == Open && old(queue) == [] ==>
                var e := Writing(old(fd.script), |packet|, false);
                && fd.script == e.script && fd.sent == old(fd.sent) + packet[..e.taken]
                && queue == (if e.how == Blocked then [packet[e.taken..]] else [])
                && phase == (if e.how == Failed then Dead else Open) && failed == (old(failed) || e.how == Failed)
      ensures old(phase) == Open && old(queue) != [] ==>
                && queue == old(queue) + [packet] && phase == Open && failed == old(failed)
                && fd.script == old(fd.script) && fd.sent == old(fd.sent)
      ensures old(phase) != Open ==>
                && queue == old(queue) && phase == old(phase) && failed == old(failed)
                && fd.script == old(fd.script) && fd.sent == old(fd.sent)
    {
      if phase != Open { return; }
      ghost var before, waiting, sent, e := accepted, queue, fd.sent, Writing(fd.script, |packet|, false);
      accepted, writes, patient := accepted + packet, writes + 1, patient && writes == okays;
      var o := Enqueue(packet);
      if waiting != [] {
        QueuedBehind(before, sent, waiting, packet);
      } else {
        WrittenPartly(before, sent, packet, e.taken);
      }
      if o == Ready { okays := okays + 1; }
    }

    /**
     The FDE_WRITE half of `local_socket_event_func`: drains the queue as far as the descriptor takes it, repeating
     interrupted calls. When all is written a closing socket dies and an open one sends one OKAY.
     */
    method HandleWritable()
      requires Valid() && phase != Dead && armed
      modifies this, fd
      ensures Valid() && accepted == old(accepted) && writes == old(writes) && patient == old(patient)
      ensures okays == old(okays) + (if old(phase) == Open && phase == Open && queue == [] then 1 else 0)
      ensures var d := Drain(old(fd.script), old(queue));
              && queue == d.queue && fd.script == d.script && failed == (old(failed) || d.how == Failed)
              && phase == match d.how
                          case Blocked => old(phase)
                          case Done => if old(phase) == Open then Open else Dead
                          case Failed => if old(phase) == Open then Draining else Dead
    {
      ghost var d := Drain(fd.script, queue);
      var how := DrainQueue();
      if how == Blocked { return; }
      if how == Failed {
        failed := true;
        Close();
      } else if phase == Draining {
        Close();
      } else {
        armed, okays := false, okays + 1;
      }
    }

    /** The outer loop: one packet after the other. */
    method DrainQueue() returns (how: How)
      requires fd.sent + Concat(queue) == accepted
      modifies this`queue, fd
      ensures var d := Drain(old(fd.script), old(queue)); how == d.how && queue == d.queue && fd.script == d.script
      ensures fd.sent + Concat(queue) == accepted
    {
      ghost var goal := Drain(fd.script, queue);
      while queue != []
        invariant fd.sent + Concat(queue) == accepted && Drain(fd.script, queue) == goal
        decreases |queue|
      {
        ghost var before := fd.sent;
        var first, rest := queue[0], queue[1..];
        var left;
        left, how := WriteOut(first, true);
        DrainStep(before, fd.sent, first, left, Concat(rest));
        if how != Done {
          queue := [left] + rest;
          assert queue[1..] == rest;
          return;
        }
        queue := rest;
      }
      how := Done;
    }
  }

  lemma QueuedBehind(before: seq<byte>, sent: seq<byte>, queue: seq<seq<byte>>, packet: seq<byte>)
    requires sent + Concat(queue) == before
    ensures sent + Concat(queue + [packet]) == before + packet
  {
    ConcatMore(queue, packet);
    assert sent + (Concat(queue) + packet) == (sent + Concat(queue)) + packet;
  }

  lemma WrittenPartly(before: seq<byte>, sent: seq<byte>, packet: seq<byte>, k: nat)
    requires k <= |packet| && sent + Concat([]) == before
    ensures sent + packet[..k] <= before + packet && (sent + packet[..k]) + Concat([packet[k..]]) == before + packet
    ensures k == |packet| ==> (sent + packet[..k]) + Concat([]) == before + packet
  {
    assert before == sent;
    assert [packet[k..]][1..] == [] && Concat([packet[k..]]) == packet[k..];
    assert packet[..k] + packet[k..] == packet;
  }

  lemma DrainStep(before: seq<byte>, sent: seq<byte>, first: seq<byte>, left: seq<byte>, rest: seq<byte>)
    requires before + first == sent + left
    ensures before + (first + rest) == sent + (left + rest) && (left == [] ==> before + (first + rest) == sent + rest)
  {
    assert before + (first + rest) == (before + first) + rest && sent + (left + rest) == (sent + left) + rest;
    if left == [] { assert sent + left == sent; }
  }

  // Runs

  datatype Event = Packet(data: seq<byte>) | Writable | HostCloses

  function Payload(events: seq<Event>): (s: seq<byte>) {
    if events == [] then [] else (if events[0].Packet? then events[0].data else []) + Payload(events[1..])
  }

  function Packets(events: seq<Event>): (n: nat) {
    if events == [] then 0 else (if events[0].Packet? then 1 else 0) + Packets(events[1..])
  }

  /** One event. */
  method Handle(s: Socket, e: Event)
    requires s.Valid()
    modifies s, s.fd
    ensures s.Valid()
    ensures old(s.phase) == Open && old(Calm(s.fd.script)) && e != HostCloses ==>
              && s.phase == Open && Calm(s.fd.script) && s.failed == old(s.failed)
              && s.accepted == old(s.accepted) + (if e.Packet? then e.data else [])
              && s.writes == old(s.writes) + (if e.Packet? then 1 else 0)
              && Takers(s.fd.script) + old(|Concat(s.queue)|) + (if e.Packet? then |e.data| else 0)
                 >= old(Takers(s.fd.script)) + |Concat(s.queue)|
    ensures old(s.phase) == Open && old(Calm(s.fd.script)) && e.Writable? &&
            old(Takers(s.fd.script) >= |Concat(s.queue)|) ==>
              s.queue == [] || Blocks(s.fd.script) < old(Blocks(s.fd.script))
    ensures old(s.phase) == Open && e.Writable? && old(s.queue) == [] ==> s.queue == []
  {
    ghost var script, queue := s.fd.script, s.queue;
    match e {
      case Packet(data) =>
        s.HandleWrite(data);
        if Calm(script) { PacketCounted(script, queue, data, s.queue); }
      case Writable =>
        if s.phase != Dead && s.armed {
          s.HandleWritable();
          if Calm(script) { CalmDrain(script, queue); }
        }
      case HostCloses =>
        if s.phase == Open { s.Close(); }
    }
  }

  lemma PacketCounted(script: seq<Answer>, queue: seq<seq<byte>>, data: seq<byte>, queue2: seq<seq<byte>>)
    requires Calm(script)
    ensures var e := Writing(script, |data|, false);
            && e.how != Failed && Calm(e.script)
            && (queue == [] && queue2 == (if e.how == Blocked then [data[e.taken..]] else []) ==>
                  Takers(e.script) + |Concat(queue)| + |data| >= Takers(script) + |Concat(queue2)|)
    ensures queue2 == queue + [data] ==> |Concat(queue2)| == |Concat(queue)| + |data|
  {
    CalmWriting(script, |data|, false);
    ConcatMore(queue, data);
    var e := Writing(script, |data|, false);
    if e.how == Blocked { assert [data[e.taken..]][1..] == []; }
  }

  /**
   Any interleaving of packets, writable events and a close by the host. What was written and what is queued is what was
   accepted; FDE_WRITE is armed exactly when something is queued; a host that waits for the OKAY before it sends more
   has one OKAY per packet as soon as all is written, and one less before. With no write error and no close, all that
   was sent is accepted, and every answer that takes something is used on it.
   */
  method Run(s: Socket, events: seq<Event>)
    requires s.Valid()
    modifies s, s.fd
    ensures s.Valid()
    ensures s.phase != Dead ==> s.fd.sent + Concat(s.queue) == s.accepted && (s.armed <==> s.queue != [])
    ensures s.phase == Dead && !s.failed ==> s.fd.sent == s.accepted
    ensures s.phase == Open && s.patient ==> s.writes == s.okays + (if s.fd.sent == s.accepted then 0 else 1)
    ensures old(s.phase == Open && Calm(s.fd.script)) && HostCloses !in events ==>
              && s.phase == Open && Calm(s.fd.script) && s.failed == old(s.failed)
              && s.accepted == old(s.accepted) + Payload(events) && s.writes == old(s.writes) + Packets(events)
              && Takers(s.fd.script) + old(|Concat(s.queue)|) + |Payload(events)|
                 >= old(Takers(s.fd.script)) + |Concat(s.queue)|
  {
    var i: nat := 0;
    ghost var calm := s.phase == Open && Calm(s.fd.script) && HostCloses !in events;
    ghost var accepted, writes, takers, queued := s.accepted, s.writes, Takers(s.fd.script), |Concat(s.queue)|;
    ghost var rest := Payload(events);
    assert events[0..] == events;
    while i < |events|
      invariant i <= |events| && s.Valid() && rest == Payload(events[i..])
      invariant calm ==> s.phase == Open && Calm(s.fd.script) && s.failed == old(s.failed)
      invariant calm ==> s.accepted + rest == accepted + Payload(events)
      invariant calm ==> s.writes + Packets(events[i..]) == writes + Packets(events)
      invariant calm ==> Takers(s.fd.script) + queued + |Payload(events)| >= takers + |Concat(s.queue)| + |rest|
    {
      assert events[i..][1..] == events[i + 1..];
      ghost var before, data := s.accepted, if events[i].Packet? then events[i].data else [];
      Handle(s, events[i]);
      rest := Payload(events[i + 1..]);
      assert before + (data + rest) == (before + data) + rest;
      i := i + 1;
    }
    if s.phase == Open { WrittenWhenEmpty(s.fd.sent, s.queue, s.accepted); }
  }

  lemma WrittenWhenEmpty(sent: seq<byte>, queue: seq<seq<byte>>, accepted: seq<byte>)
    requires sent + Concat(queue) == accepted && (queue != [] ==> queue[0] != [])
    ensures sent == accepted <==> queue == []
  {
  }

  lemma {:induction false} BlocksWithin(script: seq<Answer>)
    ensures Blocks(script) <= |script|
  {
    if script != [] { BlocksWithin(script[1..]); }
  }

  /**
   Any run without write errors and without a close, on a descriptor with as many answers that take something as there
   are bytes: after as many writable events as the descriptor blocks, everything the host sent is written, and a host
   that always waited has its last OKAY.
   */
  method Deliver(s: Socket, events: seq<Event>)
    requires s.Valid() && s.phase == Open && Calm(s.fd.script) && HostCloses !in events
    requires Takers(s.fd.script) >= |Concat(s.queue)| + |Payload(events)|
    modifies s, s.fd
    ensures s.phase == Open && s.queue == [] && s.fd.sent == s.accepted == old(s.accepted) + Payload(events)
    ensures s.patient ==> s.okays == s.writes == old(s.writes) + Packets(events)
  {
    Run(s, events);
    BlocksWithin(s.fd.script);
    ghost var accepted, writes := s.accepted, s.writes;
    var left: nat := |s.fd.script| + 1;
    while left > 0
      invariant s.Valid() && s.phase == Open && Calm(s.fd.script) && s.accepted == accepted && s.writes == writes
      invariant Takers(s.fd.script) >= |Concat(s.queue)| && (s.queue == [] || Blocks(s.fd.script) < left)
    {
      Handle(s, Writable);
      left := left - 1;
    }
    assert s.fd.sent + [] == s.fd.sent;
  }
}
