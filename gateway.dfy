/** The HTTP handlers generated by `irc_command_handler!` (src/main.rs:20-61):
    render the command for the caller's intent, queue it for the IRC task,
    wait for the one-shot reply, and turn what arrives into the response text. */
module Gateway {
  import opened Strings
  import opened Reply
  import opened IrcTask

  /** The two routes, `/time/<username>` and `/weather/<username>`. */
  datatype Intent = Time | Weather

  /** The command template each route fills with the username. */
  function Template(i: Intent): string {
    match i
    case Time => ",time {}"
    case Weather => ",weather {}"
  }

  /** The bot command word each route uses. */
  function Keyword(i: Intent): string {
    match i
    case Time => ",time"
    case Weather => ",weather"
  }

  /** The marker the bot puts before its answer; `\U{3}` is the IRC colour
      control character, so the label is drawn in colour 03. */
  function Marker(i: Intent): string {
    match i
    case Time => ":[\U{3}03Time\U{3}] "
    case Weather => ":[\U{3}03Weather\U{3}] "
  }

  const SubmitFailureText: string := "Failed to send message to IRC client"
  const NoResponseText: string := "Failed to receive response from tildebot"

  /** `format!` with a single `{}` placeholder and no brace escapes: the first
      `{}` is replaced by the argument. */
  function Format(template: string, arg: string): string
    decreases |template|
  {
    if |template| < 2 then template
    else if template[0] == '{' && template[1] == '}' then arg + template[2..]
    else [template[0]] + Format(template[1..], arg)
  }

  /** The placeholder is filled with the argument verbatim and the text around
      it is kept, provided no brace comes before it. */
  lemma {:induction false} FormatFills(pre: string, post: string, arg: string)
    requires forall k :: 0 <= k < |pre| ==> pre[k] != '{'
    ensures Format(pre + "{}" + post, arg) == pre + arg + post
    decreases |pre|
  {
    var t := pre + "{}" + post;
    if |pre| == 0 {
      assert t == "{}" + post;
      assert t[2..] == post;
    } else {
      var rest := pre[1..] + "{}" + post;
      assert t == [pre[0]] + rest;
      assert t[0] == pre[0] && t[1..] == rest;
      FormatFills(pre[1..], post, arg);
      assert Format(t, arg) == [pre[0]] + (pre[1..] + arg + post);
      assert [pre[0]] + pre[1..] == pre;
    }
  }

  /** The command sent to the bot (src/main.rs:27, 55-61). */
  function RenderCommand(i: Intent, username: string): (cmd: string)
    ensures cmd == Keyword(i) + " " + username
  {
    match i
    case Time =>
      FormatFills(",time ", "", username);
      assert Template(i) == ",time " + "{}" + "";
      Format(Template(i), username)
    case Weather =>
      FormatFills(",weather ", "", username);
      assert Template(i) == ",weather " + "{}" + "";
      Format(Template(i), username)
  }

  /** The inverse of `RenderCommand`: the intent from the keyword and the rest
      of the command as the username. It exists to state that rendering loses
      nothing. */
  function ParseCommand(cmd: string): Option<(Intent, string)> {
    if Keyword(Time) + " " <= cmd then Some((Time, cmd[|Keyword(Time)| + 1..]))
    else if Keyword(Weather) + " " <= cmd then Some((Weather, cmd[|Keyword(Weather)| + 1..]))
    else None
  }

  /** Rendering loses nothing: reading the command back recovers the intent and
      the username exactly, whatever the username holds. */
  lemma ParseRender(i: Intent, username: string)
    ensures ParseCommand(RenderCommand(i, username)) == Some((i, username))
  {
    var cmd := RenderCommand(i, username);
    if i == Weather {
      assert cmd[1] == 'w';
    }
  }

  /** Every command that reads back is the rendering of what it reads back to. */
  lemma RenderParse(cmd: string)
    requires ParseCommand(cmd).Some?
    ensures RenderCommand(ParseCommand(cmd).value.0, ParseCommand(cmd).value.1) == cmd
  {
    var p := ParseCommand(cmd).value;
    assert cmd == cmd[..|Keyword(p.0)| + 1] + cmd[|Keyword(p.0)| + 1..];
  }

  /** Different requests give different commands. */
  lemma RenderInjective(i: Intent, u: string, j: Intent, v: string)
    requires RenderCommand(i, u) == RenderCommand(j, v)
    ensures i == j && u == v
  {
    ParseRender(i, u);
    ParseRender(j, v);
  }

  /** The handler's treatment of a received reply (src/main.rs:43-47): the
      marker is removed when the reply starts with it, and otherwise the reply
      is kept whole. */
  function ProcessResponse(response: string, marker: string): (r: string)
    ensures marker <= response ==> response == marker + r
    ensures !(marker <= response) ==> r == response
    ensures IsSuffix(r, response)
  {
    match StripPrefix(response, marker)
    case Some(rest) => rest
    case None => response
  }

  /** What `timeout(10 s, response_rx)` yields: `Ok(Ok(value))`, `Ok(Err(_))`
      when the sending half was dropped, or `Err(Elapsed)`. */
  datatype WaitOutcome = Received(text: string) | SenderDropped | TimedOut

  /** The handler's view of its slot; `inTime` says whether the IRC task got to
      it within the ten seconds. A slot that was never settled times out. */
  function Observe(slot: Slot, inTime: bool): WaitOutcome {
    if !inTime then TimedOut
    else match slot
      case Answered(t) => Received(t)
      case Dropped => SenderDropped
      case Waiting => TimedOut
  }

  /** A reply that carries the marker comes back as exactly the text after it. */
  lemma MarkedResponse(marker: string, text: string)
    ensures ProcessResponse(marker + text, marker) == text
  {
    assert marker <= marker + text;
    var r := ProcessResponse(marker + text, marker);
    assert (marker + text)[|marker|..] == text;
    assert (marker + r)[|marker|..] == r;
  }

  /** The text the handler returns (src/main.rs:30-50); `submitted` says
      whether the command got into the queue. */
  function HandlerText(i: Intent, submitted: bool, outcome: WaitOutcome): string {
    if !submitted then SubmitFailureText
    else match outcome
      case Received(response) => ProcessResponse(response, Marker(i))
      case _ => NoResponseText
  }

  /** The handler answers with one of three things: the queueing failure, the
      receive failure, or the received text with its marker removed when it
      has one and whole when it has none; only a received text can give the
      last. */
  lemma HandlerTextForms(i: Intent, submitted: bool, outcome: WaitOutcome)
    ensures var r := HandlerText(i, submitted, outcome);
      || (!submitted && r == SubmitFailureText)
      || (submitted && !outcome.Received? && r == NoResponseText)
      || (submitted && outcome.Received? && IsSuffix(r, outcome.text)
          && (Marker(i) <= outcome.text ==> outcome.text == Marker(i) + r)
          && (!(Marker(i) <= outcome.text) ==> r == outcome.text))
  {
  }

  /** A dropped slot (the stream ended or failed while the worker waited for
      the reply) reads to the caller exactly like a timeout. */
  lemma DroppedLooksLikeTimeout(i: Intent, inTime: bool)
    ensures HandlerText(i, true, Observe(Dropped, inTime)) == HandlerText(i, true, TimedOut)
    ensures HandlerText(i, true, TimedOut) == NoResponseText
  {
  }

  /** A failed IRC send reaches the caller as the worker's fixed text: it has no
      marker, so it passes through unchanged. */
  lemma SendFailureReachesCaller(i: Intent, items: seq<Item>, pos: nat, env: Env)
    requires !env.sendOk
    ensures HandlerText(i, true, Observe(Serve(items, pos, env).slot, true)) == SendFailureText
  {
    assert SendFailureText[0] != Marker(i)[0];
  }

  /** The whole path for a reply that the bot sends after the command: the
      caller gets the text after the last `"tt-t-bot "` of the first frame past
      the drain, with its marker removed. */
  lemma ReplyReachesCaller(i: Intent, items: seq<Item>, pos: nat, env: Env, frame: string)
    requires env.sendOk
    requires DrainEnd(items, pos, env.ready) < |items|
    requires items[DrainEnd(items, pos, env.ready)] == Frame(frame)
    ensures HandlerText(i, true, Observe(Serve(items, pos, env).slot, true))
      == ProcessResponse(ExtractReply(frame), Marker(i))
  {
  }

  /** A string without the pattern's first character holds no occurrence. */
  lemma AbsentFirstChar(s: string, pat: string)
    requires |pat| > 0 && forall k :: 0 <= k < |s| ==> s[k] != pat[0]
    ensures !Contains(s, pat)
  {
    forall j | OccursAt(s, pat, j) ensures false {
      OccurrenceChar(s, pat, j, 0);
    }
  }

  /** A frame addressed to the client whose text after the nickname has no
      `'t'` yields exactly that text. */
  lemma ReplyAfterAddressee(head: string, body: string)
    requires forall k :: 0 <= k < |body| ==> body[k] != 't'
    ensures ExtractReply(head + BotTag + body) == body
  {
    var frame := head + BotTag + body;
    var i := |head|;
    assert frame[i..i + |BotTag|] == BotTag;
    assert frame[i + |BotTag|..] == body;
    AbsentFirstChar(body, BotTag);
    ExtractReplyAfterLastTag(frame, i);
  }

  /** A worked case: the request for `alice`'s time renders as `,time alice`. */
  lemma TimeCommandExample()
    ensures RenderCommand(Time, "alice") == ",time alice"
  {
  }

  /** A worked case: a reply frame that names the client twice comes back to
      the caller as the bare time. */
  lemma TimeReplyExample()
    ensures var frame := ":tt-t-bot PRIVMSG " + BotTag + Marker(Time) + "14:02 UTC";
      HandlerText(Time, true, Received(ExtractReply(frame))) == "14:02 UTC"
  {
    var head, text := ":tt-t-bot PRIVMSG ", "14:02 UTC";
    var body := Marker(Time) + text;
    forall k | 0 <= k < |body| ensures body[k] != 't' {
      if k < |Marker(Time)| {
        assert body[k] == Marker(Time)[k];
      } else {
        assert body[k] == text[k - |Marker(Time)|];
      }
    }
    ReplyAfterAddressee(head, body);
    assert head + BotTag + Marker(Time) + text == head + BotTag + body;
    MarkedResponse(Marker(Time), text);
  }

  /** One request end to end: queue the rendered command, let the IRC task
      serve the queue (this command alone), and read the slot. */
  method Handle(s: Session, i: Intent, username: string, env: Env, inTime: bool) returns (text: string)
    requires s.Valid() && s.queue == []
    modifies s
    ensures s.Valid() && s.queue == []
    ensures !s.alive ==> text == SubmitFailureText && s.slots == old(s.slots) && s.pos == old(s.pos)
    ensures s.alive ==> text == HandlerText(i, true, Observe(Serve(s.items, old(s.pos), env).slot, inTime))
    ensures s.alive ==> s.sent == old(s.sent) + if env.sendOk then [RenderCommand(i, username)] else []
    ensures s.alive ==> var served := Serve(s.items, old(s.pos), env);
      s.pos == served.next && s.slots == old(s.slots) + [served.slot]
    ensures s.sent == old(s.sent) || s.alive
  {
    var slot := s.Submit(RenderCommand(i, username));
    if slot.None? {
      text := HandlerText(i, false, TimedOut);
      return;
    }
    var k := slot.value;
    s.Step(env);
    text := HandlerText(i, true, Observe(s.slots[k], inTime));
  }
}
