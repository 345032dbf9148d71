/** The worker that owns the IRC session (src/main.rs:69-117). It takes queued
    `Send(command, slot)` messages one at a time, drains the frames that are
    already waiting on the inbound stream, sends the command to the bot, and
    puts the extracted text of the next frame into the command's one-shot slot.

    Time and concurrency are replaced by parameters: the inbound stream is the
    finite sequence of items it will ever yield, reaching its end means the
    stream has ended, and for each command an `Env` says how many items have
    arrived when the drain polls and whether the send succeeds. */
module IrcTask {
  import opened Strings
  import opened Reply

  /** One item of the inbound stream: `Ok(message)`, already rendered to text,
      or `Err`. */
  datatype Item = Frame(text: string) | StreamError

  /** One poll of `stream.next()` that does not wait (`now_or_never`): nothing
      has arrived yet, the stream has ended, or an item is there. */
  datatype Poll = Pending | Ended | Ready(item: Item)

  /** A one-shot reply slot as its reader sees it: nothing yet, a value, or the
      sending half dropped without a value. */
  datatype Slot = Waiting | Answered(text: string) | Dropped

  /** `IrcMessage::Send`: the rendered command and the index of its slot. */
  datatype Command = Command(text: string, slot: nat)

  /** What the world decides for one command: how many stream items have
      arrived when the drain runs, and whether `send_privmsg` succeeds. */
  datatype Env = Env(ready: nat, sendOk: bool)

  /** What serving one command leaves: the slot's new state and the stream
      position after it. */
  datatype Served = Served(slot: Slot, next: nat)

  /** The worker's state as a value: how far the stream has been read, the
      commands still queued, every slot handed out so far (indexed by slot
      number), and the commands sent to the bot, in order. */
  datatype TaskState = TaskState(pos: nat, queue: seq<Command>, slots: seq<Slot>, sent: seq<string>)

  const SendFailureText: string := "Failed to send IRC command"

  /** Where the drain loop stops when it starts at `pos` (src/main.rs:90-92):
      it consumes ready `Ok` frames, consumes a ready `Err` and stops, and stops
      without consuming at an item that has not arrived or at the end. The
      contract pins the stop position down completely. */
  function DrainEnd(items: seq<Item>, pos: nat, ready: nat): (e: nat)
    decreases |items| - pos
    ensures pos <= e
    ensures e == pos || (e <= ready && e <= |items|)
    ensures forall j :: pos <= j < e - 1 ==> items[j].Frame?
    ensures (pos < e && items[e - 1].StreamError?) || e >= ready || e >= |items|
  {
    if pos < ready && pos < |items| then
      if items[pos].Frame? then DrainEnd(items, pos + 1, ready) else pos + 1
    else pos
  }

  /** Serving one command, from the drain to the slot (src/main.rs:88-113). */
  function Serve(items: seq<Item>, pos: nat, env: Env): Served {
    var d := DrainEnd(items, pos, env.ready);
    if !env.sendOk then Served(Answered(SendFailureText), d)
    else if d < |items| then
      match items[d]
      case Frame(t) => Served(Answered(ExtractReply(t)), d + 1)
      case StreamError => Served(Dropped, d + 1)
    else Served(Dropped, d)
  }

  /** The worker's invariant: the read position is within the stream, and the
      queued commands own distinct slots that are still waiting. */
  predicate Wf(items: seq<Item>, st: TaskState) {
    && st.pos <= |items|
    && (forall k :: 0 <= k < |st.queue| ==> st.queue[k].slot < |st.slots| && st.slots[st.queue[k].slot] == Waiting)
    && (forall k, l :: 0 <= k < l < |st.queue| ==> st.queue[k].slot != st.queue[l].slot)
  }

  /** One turn of the worker's loop: the oldest command is dequeued, served,
      and its slot settled (src/main.rs:86-113). The invariant is kept. */
  function Advance(items: seq<Item>, st: TaskState, env: Env): (r: TaskState)
    requires Wf(items, st) && |st.queue| > 0
    ensures Wf(items, r)
  {
    var c := st.queue[0];
    var served := Serve(items, st.pos, env);
    assert forall k :: 0 <= k < |st.queue| - 1 ==> st.queue[1..][k] == st.queue[k + 1];
    TaskState(served.next, st.queue[1..], st.slots[c.slot := served.slot],
              st.sent + if env.sendOk then [c.text] else [])
  }

  /** The worker's loop until the queue is empty, one `Env` per command. */
  function RunFrom(items: seq<Item>, st: TaskState, envs: seq<Env>): (r: TaskState)
    requires Wf(items, st) && |envs| == |st.queue|
    ensures Wf(items, r) && r.queue == []
    decreases |envs|
  {
    if |envs| == 0 then st else RunFrom(items, Advance(items, st, envs[0]), envs[1..])
  }

  /** The texts of the commands, in order. */
  function Texts(cmds: seq<Command>): seq<string> {
    if |cmds| == 0 then [] else [cmds[0].text] + Texts(cmds[1..])
  }

  /** The texts of the commands whose send succeeds, in order; `envs[k]` is the
      world for `cmds[k]`. */
  function SentTexts(cmds: seq<Command>, envs: seq<Env>): seq<string>
    requires |envs| == |cmds|
  {
    if |cmds| == 0 then []
    else (if envs[0].sendOk then [cmds[0].text] else []) + SentTexts(cmds[1..], envs[1..])
  }

  /** The drain ends at the first frame that had not arrived: frames that were
      waiting are discarded, however many there are. */
  lemma {:induction false} DrainSkipsBacklog(items: seq<Item>, pos: nat, ready: nat)
    requires pos <= ready <= |items|
    requires forall j :: pos <= j < ready ==> items[j].Frame?
    ensures DrainEnd(items, pos, ready) == ready
    decreases ready - pos
  {
    if pos < ready {
      DrainSkipsBacklog(items, pos + 1, ready);
    }
  }

  /** After a failed send the slot gets the fixed failure text and nothing is
      read past the drain. */
  lemma SendFailureReadsNothing(items: seq<Item>, pos: nat, env: Env)
    requires !env.sendOk
    ensures Serve(items, pos, env) == Served(Answered(SendFailureText), DrainEnd(items, pos, env.ready))
  {
  }

  /** After a successful send the slot is answered exactly when the first item
      after the drain is an `Ok` frame; the answer is that frame's extracted
      reply, and reading stops right after it. Otherwise (an `Err`, or the end
      of the stream) the slot is dropped unanswered. */
  lemma AnswerIsFirstFrameAfterDrain(items: seq<Item>, pos: nat, env: Env)
    requires env.sendOk
    ensures var d, served := DrainEnd(items, pos, env.ready), Serve(items, pos, env);
      && (served.slot.Answered? <==> d < |items| && items[d].Frame?)
      && (served.slot.Answered? ==> served.slot.text == ExtractReply(items[d].text) && served.next == d + 1)
      && (!served.slot.Answered? ==> served.slot == Dropped)
  {
  }

  /** A frame that had already arrived when the drain ran can answer the
      command only when the drain stopped early at an `Err` item. */
  lemma StaleAnswerNeedsDrainError(items: seq<Item>, pos: nat, env: Env)
    requires Serve(items, pos, env).slot.Answered? && env.sendOk
    requires DrainEnd(items, pos, env.ready) < env.ready
    ensures var d := DrainEnd(items, pos, env.ready);
      pos < d && items[d - 1].StreamError?
  {
  }

  /** A frame that arrived before the command was sent answers it when an
      `Err` item comes first: the drain stops at the `Err`, and the waiting
      frame is read as the reply. */
  lemma StaleAnswerExample(t: string)
    ensures DrainEnd([StreamError, Frame(t)], 0, 2) == 1
    ensures Serve([StreamError, Frame(t)], 0, Env(2, true)) == Served(Answered(ExtractReply(t)), 2)
  {
  }

  /** Correlation with a backlog: whatever frames are
      waiting when the command is taken, the caller gets the reply that
      follows them, and reading stops right after it. */
  lemma ReplyFollowsBacklog(pre: seq<Item>, backlog: seq<Item>, reply: string, later: seq<Item>)
    requires forall j :: 0 <= j < |backlog| ==> backlog[j].Frame?
    ensures var items := pre + backlog + [Frame(reply)] + later;
      Serve(items, |pre|, Env(|pre| + |backlog|, true))
        == Served(Answered(ExtractReply(reply)), |pre| + |backlog| + 1)
  {
    var items := pre + backlog + [Frame(reply)] + later;
    forall j | |pre| <= j < |pre| + |backlog| ensures items[j].Frame? {
      assert items[j] == backlog[j - |pre|];
    }
    DrainSkipsBacklog(items, |pre|, |pre| + |backlog|);
    assert items[|pre| + |backlog|] == Frame(reply);
  }

  /** Only the items the command consumed decide its outcome: the items
      before its start and the items after the answering frame can be
      anything. */
  lemma {:induction false} DrainDependsOnWindow(items: seq<Item>, other: seq<Item>, pos: nat, ready: nat, e: nat)
    requires e == DrainEnd(items, pos, ready) && e < |items|
    requires |other| > e && forall j :: pos <= j <= e ==> other[j] == items[j]
    ensures DrainEnd(other, pos, ready) == e
    decreases |items| - pos
  {
    if pos < ready && pos < |items| && items[pos].Frame? {
      DrainDependsOnWindow(items, other, pos + 1, ready, e);
    }
  }

  lemma AnswerDependsOnWindow(items: seq<Item>, other: seq<Item>, pos: nat, env: Env)
    requires env.sendOk && Serve(items, pos, env).slot.Answered?
    requires var n := Serve(items, pos, env).next;
      |other| >= n && forall j :: pos <= j < n ==> other[j] == items[j]
    ensures Serve(other, pos, env) == Serve(items, pos, env)
  {
    var d := DrainEnd(items, pos, env.ready);
    DrainDependsOnWindow(items, other, pos, env.ready, d);
  }

  /** One turn settles the dequeued command's slot and touches no other slot;
      the queue loses exactly its head. */
  lemma AdvanceSettlesHead(items: seq<Item>, st: TaskState, env: Env)
    requires Wf(items, st) && |st.queue| > 0
    ensures var r := Advance(items, st, env);
      && r.queue == st.queue[1..]
      && |r.slots| == |st.slots|
      && st.slots[st.queue[0].slot] == Waiting && r.slots[st.queue[0].slot] != Waiting
      && (forall s :: 0 <= s < |st.slots| && s != st.queue[0].slot ==> r.slots[s] == st.slots[s])
  {
  }

  /** Servicing the queue leaves every queued slot holding a value other than
      `Waiting`, and every other slot alone. No slot is written twice: each
      turn writes only a slot that is still waiting (`AdvanceSettlesHead`),
      and the queued slots are distinct (`Wf`). */
  lemma {:induction false} RunSettlesEachQueuedSlot(items: seq<Item>, st: TaskState, envs: seq<Env>)
    requires Wf(items, st) && |envs| == |st.queue|
    decreases |envs|
    ensures var r := RunFrom(items, st, envs);
      && |r.slots| == |st.slots|
      && (forall k :: 0 <= k < |st.queue| ==> r.slots[st.queue[k].slot] != Waiting)
      && (forall s :: 0 <= s < |st.slots| && (forall k :: 0 <= k < |st.queue| ==> st.queue[k].slot != s)
            ==> r.slots[s] == st.slots[s])
  {
    if |envs| > 0 {
      var next := Advance(items, st, envs[0]);
      AdvanceSettlesHead(items, st, envs[0]);
      RunSettlesEachQueuedSlot(items, next, envs[1..]);
      var r := RunFrom(items, st, envs);
      assert r == RunFrom(items, next, envs[1..]);
      forall k | 0 <= k < |st.queue| ensures r.slots[st.queue[k].slot] != Waiting {
        if k > 0 {
          assert st.queue[k] == next.queue[k - 1];
        } else {
          assert forall l :: 0 <= l < |next.queue| ==> next.queue[l].slot != st.queue[0].slot;
        }
      }
      forall s | 0 <= s < |st.slots| && (forall k :: 0 <= k < |st.queue| ==> st.queue[k].slot != s)
        ensures r.slots[s] == st.slots[s]
      {
        assert forall l :: 0 <= l < |next.queue| ==> next.queue[l].slot == st.queue[l + 1].slot;
      }
    }
  }

  /** The bot receives nothing but the queued commands, each at most once:
      the run only appends to what was sent, and no more than one message
      per queued command. */
  lemma {:induction false} RunSendsAtMostQueued(items: seq<Item>, st: TaskState, envs: seq<Env>)
    requires Wf(items, st) && |envs| == |st.queue|
    decreases |envs|
    ensures st.sent <= RunFrom(items, st, envs).sent
    ensures |RunFrom(items, st, envs).sent| <= |st.sent| + |st.queue|
  {
    if |envs| > 0 {
      var next := Advance(items, st, envs[0]);
      RunSendsAtMostQueued(items, next, envs[1..]);
      assert RunFrom(items, st, envs) == RunFrom(items, next, envs[1..]);
    }
  }

  lemma ConcatAssoc<T>(a: seq<T>, b: seq<T>, c: seq<T>)
    ensures a + (b + c) == (a + b) + c
  {
  }

  /** The bot receives exactly the queued commands whose send succeeds, in
      queue order; a command whose send fails adds nothing and the commands
      after it are still sent. */
  lemma {:induction false} RunSendsSucceededInQueueOrder(items: seq<Item>, st: TaskState, envs: seq<Env>)
    requires Wf(items, st) && |envs| == |st.queue|
    decreases |envs|
    ensures RunFrom(items, st, envs).sent == st.sent + SentTexts(st.queue, envs)
  {
    if |envs| > 0 {
      var next := Advance(items, st, envs[0]);
      var h := if envs[0].sendOk then [st.queue[0].text] else [];
      assert next.sent == st.sent + h && next.queue == st.queue[1..];
      RunSendsSucceededInQueueOrder(items, next, envs[1..]);
      assert RunFrom(items, st, envs) == RunFrom(items, next, envs[1..]);
      assert SentTexts(st.queue, envs) == h + SentTexts(next.queue, envs[1..]);
      ConcatAssoc(st.sent, h, SentTexts(next.queue, envs[1..]));
    }
  }

  /** With every send succeeding, the successful sends are all the commands. */
  lemma {:induction false} AllSentTexts(cmds: seq<Command>, envs: seq<Env>)
    requires |envs| == |cmds|
    requires forall k :: 0 <= k < |envs| ==> envs[k].sendOk
    decreases |cmds|
    ensures SentTexts(cmds, envs) == Texts(cmds)
  {
    if |cmds| > 0 {
      AllSentTexts(cmds[1..], envs[1..]);
    }
  }

  /** When every send succeeds the bot receives exactly the queued commands,
      in queue order. */
  lemma RunSendsInQueueOrder(items: seq<Item>, st: TaskState, envs: seq<Env>)
    requires Wf(items, st) && |envs| == |st.queue|
    requires forall k :: 0 <= k < |envs| ==> envs[k].sendOk
    ensures RunFrom(items, st, envs).sent == st.sent + Texts(st.queue)
  {
    RunSendsSucceededInQueueOrder(items, st, envs);
    AllSentTexts(st.queue, envs);
  }

  /** The IRC task's state: the message queue it reads, the inbound stream and
      how far it has been read, the one-shot slots of all commands, and the
      messages sent to the bot. */
  class Session {
    /** The inbound stream, every item it will ever yield, in order. */
    const items: seq<Item>
    /** The worker got past connecting, identifying and opening the stream;
        otherwise an `unwrap` panicked and the queue's receiver is gone. */
    const alive: bool
    var pos: nat
    var queue: seq<Command>
    var slots: seq<Slot>
    var sent: seq<string>

    /** The fields as a value. */
    ghost function Snapshot(): TaskState
      reads this
    {
      TaskState(pos, queue, slots, sent)
    }

    ghost predicate Valid()
      reads this
    {
      Wf(items, Snapshot())
    }

    constructor (items: seq<Item>, alive: bool)
      ensures Valid()
      ensures this.items == items && this.alive == alive
      ensures pos == 0 && queue == [] && slots == [] && sent == []
    {
      this.items := items;
      this.alive := alive;
      pos := 0;
      queue := [];
      slots := [];
      sent := [];
    }

    /** A handler's `oneshot::channel()` and `sender.send(Send(command, tx))`
        (src/main.rs:24, 30-37): a fresh slot and a queued command, or no
        slot when the worker is gone. */
    method Submit(text: string) returns (slot: Option<nat>)
      requires Valid()
      modifies this
      ensures Valid()
      ensures alive ==>
        && slot == Some(|old(slots)|)
        && queue == old(queue) + [Command(text, |old(slots)|)]
        && slots == old(slots) + [Waiting]
      ensures !alive ==> slot == None && queue == old(queue) && slots == old(slots)
      ensures pos == old(pos) && sent == old(sent)
    {
      if !alive {
        return None;
      }
      var s := |slots|;
      slots := slots + [Waiting];
      queue := queue + [Command(text, s)];
      slot := Some(s);
    }

    /** `stream.next().now_or_never()`: an item that has arrived is taken. */
    method PollNow(ready: nat) returns (p: Poll)
      requires pos <= |items|
      modifies this`pos
      ensures pos <= |items|
      ensures old(pos) >= |items| ==> p == Ended && pos == old(pos)
      ensures old(pos) < |items| && old(pos) >= ready ==> p == Pending && pos == old(pos)
      ensures old(pos) < |items| && old(pos) < ready ==> p == Ready(items[old(pos)]) && pos == old(pos) + 1
    {
      if pos >= |items| {
        p := Ended;
      } else if pos >= ready {
        p := Pending;
      } else {
        p := Ready(items[pos]);
        pos := pos + 1;
      }
    }

    /** `stream.next().await`: the next item, waiting for it, or nothing once
        the stream has ended. */
    method Next() returns (r: Option<Item>)
      requires pos <= |items|
      modifies this`pos
      ensures pos <= |items|
      ensures old(pos) < |items| ==> r == Some(items[old(pos)]) && pos == old(pos) + 1
      ensures old(pos) >= |items| ==> r == None && pos == old(pos)
    {
      if pos < |items| {
        r := Some(items[pos]);
        pos := pos + 1;
      } else {
        r := None;
      }
    }

    /** The drain loop (src/main.rs:90-92). */
    method Drain(ready: nat)
      requires pos <= |items|
      modifies this`pos
      ensures pos <= |items|
      ensures pos == DrainEnd(items, old(pos), ready)
    {
      var p := PollNow(ready);
      while p.Ready? && p.item.Frame?
        invariant pos <= |items|
        invariant DrainEnd(items, old(pos), ready)
          == if p.Ready? && p.item.Frame? then DrainEnd(items, pos, ready) else pos
        decreases |items| - pos + if p.Ready? then 1 else 0
      {
        p := PollNow(ready);
      }
    }

    /** One turn of the worker's loop: take the oldest command, drain, send, and
        settle its slot (src/main.rs:86-113). */
    method Step(env: Env)
      requires Valid() && alive && |queue| > 0
      modifies this
      ensures Valid()
      ensures Snapshot() == Advance(items, old(Snapshot()), env)
    {
      var cmd := queue[0];
      queue := queue[1..];
      Drain(env.ready);
      if env.sendOk {
        sent := sent + [cmd.text];
        // the loop around `stream.next().await` ends after its first item
        var r := Next();
        match r
        case Some(Frame(text)) =>
          slots := slots[cmd.slot := Answered(ExtractReply(text))];
        case _ =>
          slots := slots[cmd.slot := Dropped];
      } else {
        slots := slots[cmd.slot := Answered(SendFailureText)];
      }
    }

    /** The worker's loop over everything queued, one `Env` per command
        (src/main.rs:86-116). */
    method Run(envs: seq<Env>)
      requires Valid() && alive && |envs| == |queue|
      modifies this
      ensures Valid() && queue == []
      ensures Snapshot() == RunFrom(items, old(Snapshot()), envs)
    {
      var k := 0;
      while |queue| > 0
        invariant Valid() && k <= |envs| && |envs| - k == |queue|
        invariant RunFrom(items, Snapshot(), envs[k..]) == RunFrom(items, old(Snapshot()), envs)
        decreases |queue|
      {
        assert envs[k..][1..] == envs[k + 1..];
        Step(envs[k]);
        k := k + 1;
      }
    }
  }
}
