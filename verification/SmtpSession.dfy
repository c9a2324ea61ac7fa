/**
 * The command loop of an SMTP session: which commands are accepted when, and
 * what envelope a received message is handed over with.
 */
module SmtpSession {
  import opened Bytes
  import opened Helpers
  import opened SmtpData

  type Address = string

  /** A command line, as the loop tells them apart. */
  datatype Command =
    | Hello
    | StartTls
    | MailFrom(sender: Address, sizeRefused: bool)
    | RcptTo(recipient: Address)
    | Data
    | Quit
    | Rset
    | AuthPlain(inline: bool)
    | AuthLogin
    | Other

  datatype Message = Message(sender: Address, recipients: seq<Address>, raw: seq<Byte>)

  const MAX_LINE_LENGTH := 4096
  const MAX_RECIPIENTS := 100
  const MAX_COMMANDS_PER_TRANSACTION := 1000

  /** What happened in a session, in order. */
  datatype Event =
    | Handled(command: Command)
    | Greeted
    | Secured
    | Cleared
    | Sender(sender: Address)
    | Recipient(recipient: Address)
    | Offered(message: Message)
    | Completed

  /** The recipients accepted in a stretch of a session. */
  function RecipientsIn(history: seq<Event>): seq<Address> {
    if history == [] then []
    else
      var n := |history| - 1;
      RecipientsIn(history[..n]) + (if history[n].Recipient? then [history[n].recipient] else [])
  }

  /** Nothing in this stretch ends a mail transaction or begins another. */
  predicate SameTransaction(history: seq<Event>) {
    forall i :: 0 <= i < |history| ==>
      && !history[i].Greeted? && !history[i].Secured? && !history[i].Cleared?
      && !history[i].Sender? && !history[i].Completed?
  }

  predicate SameChannel(history: seq<Event>) {
    forall i :: 0 <= i < |history| ==> !history[i].Secured?
  }

  /** The transaction that `before` ends in: begun at `at` by `sender`, after a greeting on the same channel. */
  ghost predicate OpenSince(before: seq<Event>, at: nat, sender: Address, recipients: seq<Address>) {
    && at < |before| && before[at] == Sender(sender)
    && SameTransaction(before[at + 1..]) && recipients == RecipientsIn(before[at + 1..])
    && exists g :: 0 <= g < at && before[g].Greeted? && SameChannel(before[g..])
  }

  /**
   * A message carries the sender accepted last and exactly the recipients
   * accepted since, with nothing between that would have ended the
   * transaction, after a greeting on the channel in use.
   */
  ghost predicate Enveloped(history: seq<Event>) {
    forall k :: 0 <= k < |history| && history[k].Offered? ==>
      var m := history[k].message;
      && 1 <= |m.recipients| <= MAX_RECIPIENTS
      && exists at :: OpenSince(history[..k], at, m.sender, m.recipients)
  }

  /** Commands handled since a message was last received. */
  function SinceCompleted(history: seq<Event>): nat {
    if history == [] then 0
    else
      var n := |history| - 1;
      if history[n].Completed? then 0 else SinceCompleted(history[..n]) + (if history[n].Handled? then 1 else 0)
  }

  ghost predicate Patient(history: seq<Event>) {
    forall k :: 0 <= k <= |history| ==> SinceCompleted(history[..k]) <= MAX_COMMANDS_PER_TRANSACTION
  }

  function OfferedIn(history: seq<Event>): seq<Message> {
    if history == [] then []
    else
      var n := |history| - 1;
      OfferedIn(history[..n]) + (if history[n].Offered? then [history[n].message] else [])
  }

  predicate EndsWith(history: seq<Event>, e: Event) {
    history != [] && history[|history| - 1] == e
  }

  /** Which event may follow a history: the answer to the command just handled. */
  predicate Follows(history: seq<Event>, e: Event) {
    match e
    case Handled(_) => !EndsWith(history, Handled(Hello)) && !EndsWith(history, Handled(Rset))
    case Greeted => EndsWith(history, Handled(Hello))
    case Secured => EndsWith(history, Handled(StartTls))
    case Cleared => EndsWith(history, Handled(Rset))
    case Sender(sender) => EndsWith(history, Handled(MailFrom(sender, false)))
    case Recipient(recipient) => EndsWith(history, Handled(RcptTo(recipient)))
    case Offered(_) => EndsWith(history, Handled(Data))
    case Completed => EndsWith(history, Handled(Data)) || (history != [] && history[|history| - 1].Offered?)
  }

  /** Every event answers the command before it, and a greeting or reset never goes unanswered. */
  ghost predicate Faithful(history: seq<Event>) {
    forall k :: 0 <= k < |history| ==> Follows(history[..k], history[k])
  }

  // ---------- One more event ----------

  lemma StaysFaithful(history: seq<Event>, e: Event)
    requires Faithful(history) && Follows(history, e)
    ensures Faithful(history + [e]) && EndsWith(history + [e], e)
  {
    var more := history + [e];
    Prefixes(history, e);
    forall k | 0 <= k < |more| ensures Follows(more[..k], more[k]) {
      if k < |history| {
        assert more[k] == history[k];
      }
    }
  }

  lemma Prefixes(history: seq<Event>, e: Event)
    ensures (history + [e])[..|history|] == history
    ensures forall k :: 0 <= k <= |history| ==> (history + [e])[..k] == history[..k]
  {
  }

  lemma StaysEnveloped(history: seq<Event>, e: Event)
    requires Enveloped(history)
    requires e.Offered? ==>
      1 <= |e.message.recipients| <= MAX_RECIPIENTS
      && exists at :: OpenSince(history, at, e.message.sender, e.message.recipients)
    ensures Enveloped(history + [e])
  {
    hide OpenSince;
    Prefixes(history, e);
    var more := history + [e];
    forall k | 0 <= k < |more| && more[k].Offered?
      ensures 1 <= |more[k].message.recipients| <= MAX_RECIPIENTS
      ensures exists at :: OpenSince(more[..k], at, more[k].message.sender, more[k].message.recipients)
    {
      if k < |history| {
        assert more[k] == history[k];
      }
    }
  }

  lemma StaysPatient(history: seq<Event>, e: Event)
    requires Patient(history)
    requires e.Handled? ==> SinceCompleted(history) < MAX_COMMANDS_PER_TRANSACTION
    ensures Patient(history + [e])
    ensures SinceCompleted(history + [e]) ==
            if e.Completed? then 0 else SinceCompleted(history) + (if e.Handled? then 1 else 0)
    ensures OfferedIn(history + [e]) == OfferedIn(history) + (if e.Offered? then [e.message] else [])
  {
    Prefixes(history, e);
    assert history[..|history|] == history;
    assert (history + [e])[..|history| + 1] == history + [e];
  }

  lemma OneMore(history: seq<Event>, e: Event)
    ensures RecipientsIn(history + [e]) == RecipientsIn(history) + (if e.Recipient? then [e.recipient] else [])
    ensures SameTransaction(history) && SameTransaction([e]) ==> SameTransaction(history + [e])
    ensures SameChannel(history) && !e.Secured? ==> SameChannel(history + [e])
  {
    assert (history + [e])[..|history|] == history;
    assert [e][0] == e;
  }

  lemma Suffix(history: seq<Event>, e: Event, from: nat)
    requires from <= |history|
    ensures (history + [e])[from..] == history[from..] + [e]
  {
  }

  /** An event that neither ends the transaction nor changes the channel. */
  lemma StaysOpen(history: seq<Event>, at: nat, sender: Address, recipients: seq<Address>, e: Event)
    requires OpenSince(history, at, sender, recipients) && SameTransaction([e])
    ensures OpenSince(history + [e], at, sender, recipients + (if e.Recipient? then [e.recipient] else []))
  {
    assert [e][0] == e;
    hide SameChannel, SameTransaction, RecipientsIn;
    Suffix(history, e, at + 1);
    OneMore(history[at + 1..], e);
    var g :| 0 <= g < at && history[g].Greeted? && SameChannel(history[g..]);
    StaysGreeted(history, g, e);
  }

  lemma StaysGreeted(history: seq<Event>, g: nat, e: Event)
    requires g < |history| && history[g].Greeted? && SameChannel(history[g..]) && !e.Secured?
    ensures (history + [e])[g].Greeted? && SameChannel((history + [e])[g..])
  {
    Suffix(history, e, g);
    OneMore(history[g..], e);
  }

  /** A sender is accepted, at the end of `history`. */
  lemma Opens(history: seq<Event>, g: nat, sender: Address)
    requires g < |history| && history[g].Greeted? && SameChannel(history[g..])
    ensures OpenSince(history + [Sender(sender)], |history|, sender, [])
  {
    StaysGreeted(history, g, Sender(sender));
    assert (history + [Sender(sender)])[|history| + 1..] == [];
  }

  /** Whether a session was greeted on the channel in use, at `g`. */
  ghost predicate GreetedAt(history: seq<Event>, g: nat) {
    g < |history| && history[g].Greeted? && SameChannel(history[g..])
  }

  /** What the fields of a session say of its history. */
  datatype State = State(greeted: bool, mailFrom: Option<Address>, rcptTo: seq<Address>) {
    /** The state once `e` has happened. */
    function After(e: Event): State {
      match e
      case Greeted => State(true, None, [])
      case Secured => State(false, None, [])
      case Cleared => State(greeted, None, [])
      case Completed => State(greeted, None, [])
      case Sender(sender) => State(greeted, Some(sender), [])
      case Recipient(recipient) => this.(rcptTo := rcptTo + [recipient])
      case _ => this
    }
  }

  /** What a command led to, and where the session goes on: the bytes still to be read, if it does. */
  datatype Step = Step(events: seq<Event>, state: State, tls: bool, count: nat, rest: Option<seq<Byte>>)

  /** What is left of a stream behind a line that is not too long. */
  function AfterLine(unread: seq<Byte>): (rest: Option<seq<Byte>>)
    ensures rest.Some? ==> |rest.value| <= |unread|
  {
    if LineLen(unread) > MAX_LINE_LENGTH then None else Some(unread[LineLen(unread)..])
  }

  /** What is left of a stream behind a command other than DATA: it may be followed by lines of credentials. */
  function Behind(command: Command, unread: seq<Byte>): (rest: Option<seq<Byte>>)
    ensures rest.Some? ==> |rest.value| <= |unread|
  {
    match command
    case Quit => None
    case AuthPlain(inline) => if inline then Some(unread) else AfterLine(unread)
    case AuthLogin => if AfterLine(unread).None? then None else AfterLine(AfterLine(unread).value)
    case _ => Some(unread)
  }

  ghost predicate Tracked(s: State, history: seq<Event>, greetedAt: nat, openAt: nat) {
    && (s.greeted ==> GreetedAt(history, greetedAt))
    && |s.rcptTo| <= MAX_RECIPIENTS
    && (match s.mailFrom
        case None => s.rcptTo == []
        case Some(sender) => OpenSince(history, openAt, sender, s.rcptTo))
  }

  lemma TrackNothing(s: State, greetedAt: nat, openAt: nat)
    requires Tracked(s, [], greetedAt, openAt)
    ensures s == State(false, None, [])
  {
  }

  /** An event that leaves the transaction as it is, but for one more recipient. */
  lemma TrackSame(s: State, history: seq<Event>, greetedAt: nat, openAt: nat, e: Event)
    requires Tracked(s, history, greetedAt, openAt)
    requires e.Handled? || e.Offered? || (e.Recipient? && s.mailFrom.Some? && |s.rcptTo| < MAX_RECIPIENTS)
    ensures var more := s.rcptTo + (if e.Recipient? then [e.recipient] else []);
            Tracked(s.(rcptTo := more), history + [e], greetedAt, openAt)
  {
    assert [e][0] == e && SameTransaction([e]);
    hide OpenSince, SameChannel, SameTransaction;
    if s.greeted {
      StaysGreeted(history, greetedAt, e);
    }
    if s.mailFrom.Some? {
      StaysOpen(history, openAt, s.mailFrom.value, s.rcptTo, e);
    }
  }

  /** An event that ends the transaction, if there is one. */
  lemma TrackEnd(s: State, history: seq<Event>, greetedAt: nat, openAt: nat, e: Event)
    requires Tracked(s, history, greetedAt, openAt) && (e.Greeted? || e.Cleared? || e.Completed? || e.Secured?)
    ensures var g := if e.Greeted? then |history| else greetedAt;
            Tracked(State((s.greeted || e.Greeted?) && !e.Secured?, None, []), history + [e], g, openAt)
  {
    if e.Greeted? {
      assert (history + [e])[|history|..] == [e] && [e][0] == e;
    } else if s.greeted && !e.Secured? {
      StaysGreeted(history, greetedAt, e);
    }
  }

  lemma TrackBegin(s: State, history: seq<Event>, greetedAt: nat, openAt: nat, sender: Address)
    requires Tracked(s, history, greetedAt, openAt) && s.greeted
    ensures Tracked(State(true, Some(sender), []), history + [Sender(sender)], greetedAt, |history|)
  {
    StaysGreeted(history, greetedAt, Sender(sender));
    Opens(history, greetedAt, sender);
  }

  class Session {
    const tlsConfigured: bool
    const maxMessageSize: nat
    /** How a command line is read. */
    const parse: seq<Byte> -> Command
    /** What the network does at each step of the session: a reply that cannot be written or a wait too long. */
    const faults: nat -> bool
    /** After how many messages nobody takes any more, if ever; a queue that closed stays closed. */
    const closesAfter: Option<nat>
    /** Steps on the network so far, and whether the last one failed. */
    var steps: nat
    var faulted: bool
    var stream: ByteStream
    var tlsActive: bool
    var greeted: bool
    var mailFrom: Option<Address>
    var rcptTo: seq<Address>
    /** Messages handed over for storage. */
    var handed: seq<Message>
    /** How many messages were received. */
    var received: nat
    ghost var history: seq<Event>
    /** When the channel in use was last greeted, and the open transaction begun. */
    ghost var greetedAt: nat
    ghost var openAt: nat

    constructor (stream: ByteStream, maxMessageSize: nat, tlsConfigured: bool, parse: seq<Byte> -> Command,
                 faults: nat -> bool, closesAfter: Option<nat>)
      requires stream.Valid()
      ensures Valid() && this.stream == stream && !tlsActive && !faulted && history == [] && handed == []
    {
      this.stream, this.maxMessageSize, this.tlsConfigured, this.parse := stream, maxMessageSize, tlsConfigured, parse;
      this.faults, this.closesAfter, steps, faulted := faults, closesAfter, 0, false;
      tlsActive, greeted, mailFrom, rcptTo := false, false, None, [];
      handed, received := [], 0;
      history, greetedAt, openAt := [], 0, 0;
      new;
      assert history[..0] == [];
    }

    /** The messages handed over, of those offered. */
    ghost function Taken(messages: seq<Message>): seq<Message> {
      if closesAfter.None? || |messages| <= closesAfter.value then messages else messages[..closesAfter.value]
    }

    /** A step on the network; no session goes on after one that failed. */
    method Network() returns (failed: bool)
      requires Consistent() && !faulted
      modifies `steps, `faulted
      ensures Consistent() && faulted == failed == faults(old(steps))
      ensures Now() == old(Now()) && stream.Unread() == old(stream.Unread())
    {
      failed := faults(steps);
      steps, faulted := steps + 1, failed;
    }

    ghost function Now(): State reads this {
      State(greeted, mailFrom, rcptTo)
    }

    ghost predicate Consistent() reads this {
      && Tracked(Now(), history, greetedAt, openAt)
      && Enveloped(history) && Patient(history) && Faithful(history)
      && (faulted ==> steps > 0 && faults(steps - 1))
      && received == |OfferedIn(history)| && handed == Taken(OfferedIn(history))
    }

    ghost predicate Valid() reads this, stream {
      Consistent() && stream.Valid()
    }

    /** The last command was answered. */
    ghost predicate Answered() reads this {
      !EndsWith(history, Handled(Hello)) && !EndsWith(history, Handled(Rset))
    }

    /** Counts a command. */
    method Count(commandCount: nat, command: Command)
      requires Consistent() && SinceCompleted(history) == commandCount < MAX_COMMANDS_PER_TRANSACTION && Answered()
      modifies `history
      ensures Consistent() && history == old(history) + [Handled(command)] &&
              SinceCompleted(history) == commandCount + 1
      ensures EndsWith(history, Handled(command))
    {
      hide Tracked, Enveloped, Patient, SinceCompleted, OfferedIn, Faithful;
      var e := Handled(command);
      StaysEnveloped(history, e);
      StaysPatient(history, e);
      StaysFaithful(history, e);
      TrackSame(Now(), history, greetedAt, openAt, e);
      assert rcptTo + [] == rcptTo;
      history := history + [e];
    }

    /** A greeting, a reset, an upgrade or a completed message: the transaction is over. */
    method EndTransaction(e: Event)
      requires Consistent() && (e.Greeted? || e.Cleared? || e.Completed? || e.Secured?) && Follows(history, e)
      modifies `greeted, `mailFrom, `rcptTo, `history, `greetedAt
      ensures Consistent() && history == old(history) + [e] && Answered() && mailFrom == None && rcptTo == []
      ensures greeted == ((old(greeted) || e.Greeted?) && !e.Secured?)
      ensures SinceCompleted(history) == if e.Completed? then 0 else old(SinceCompleted(history))
    {
      hide Tracked, Enveloped, Patient, SinceCompleted, OfferedIn, Faithful;
      StaysEnveloped(history, e);
      StaysPatient(history, e);
      StaysFaithful(history, e);
      TrackEnd(Now(), history, greetedAt, openAt, e);
      if e.Greeted? {
        greeted := true;
        greetedAt := |history|;
      } else if e.Secured? {
        greeted := false;
      }
      mailFrom, rcptTo := None, [];
      history := history + [e];
    }

    method HandleMailFrom(sender: Address, sizeRefused: bool)
      requires Consistent() && EndsWith(history, Handled(MailFrom(sender, sizeRefused)))
      modifies `mailFrom, `rcptTo, `history, `openAt
      ensures Consistent() && Answered() && SinceCompleted(history) == old(SinceCompleted(history))
      ensures if greeted && !sizeRefused then mailFrom == Some(sender) && rcptTo == [] &&
              history == old(history) + [Sender(sender)]
              else mailFrom == old(mailFrom) && rcptTo == old(rcptTo) && history == old(history)
    {
      hide Tracked, Enveloped, Patient, SinceCompleted, OfferedIn, Faithful;
      if greeted && !sizeRefused {
        StaysEnveloped(history, Sender(sender));
        StaysPatient(history, Sender(sender));
        StaysFaithful(history, Sender(sender));
        TrackBegin(Now(), history, greetedAt, openAt, sender);
        mailFrom, rcptTo := Some(sender), [];
        openAt := |history|;
        history := history + [Sender(sender)];
      }
    }

    method HandleRcptTo(recipient: Address)
      requires Consistent() && EndsWith(history, Handled(RcptTo(recipient)))
      modifies `rcptTo, `history
      ensures Consistent() && Answered() && SinceCompleted(history) == old(SinceCompleted(history))
      ensures if mailFrom.Some? && |old(rcptTo)| < MAX_RECIPIENTS
              then rcptTo == old(rcptTo) + [recipient] && history == old(history) + [Recipient(recipient)]
              else rcptTo == old(rcptTo) && history == old(history)
    {
      hide Tracked, Enveloped, Patient, SinceCompleted, OfferedIn, Faithful;
      if mailFrom.Some? && |rcptTo| < MAX_RECIPIENTS {
        StaysEnveloped(history, Recipient(recipient));
        StaysPatient(history, Recipient(recipient));
        StaysFaithful(history, Recipient(recipient));
        TrackSame(Now(), history, greetedAt, openAt, Recipient(recipient));
        rcptTo := rcptTo + [recipient];
        history := history + [Recipient(recipient)];
      }
    }

    /** Hands a message over, unless nobody takes messages any more. */
    method Deliver(raw: seq<Byte>)
      requires Consistent() && mailFrom.Some? && rcptTo != [] && EndsWith(history, Handled(Data))
      modifies `handed, `history, `received
      ensures Consistent() && Follows(history, Completed) && SinceCompleted(history) == old(SinceCompleted(history))
      ensures var message := Message(mailFrom.value, rcptTo, raw);
              && history == old(history) + [Offered(message)]
              && received == old(received) + 1
              && handed == old(handed) +
                           (if closesAfter.Some? && old(received) >= closesAfter.value then [] else [message])
    {
      hide Tracked, Enveloped, Patient, SinceCompleted, OfferedIn, Faithful;
      var message := Message(mailFrom.value, rcptTo, raw);
      StaysFaithful(history, Offered(message));
      HandOver(Now(), history, greetedAt, openAt, message);
      if closesAfter.None? || received < closesAfter.value {
        handed := handed + [message];
      }
      received := received + 1;
      history := history + [Offered(message)];
    }

    /** What a command other than DATA does, in the state a session is in. */
    function Effect(command: Command, s: State, tls: bool): seq<Event> {
      match command
      case Hello => [Greeted]
      case StartTls => if tlsConfigured && !tls then [Secured] else []
      case MailFrom(sender, sizeRefused) => if s.greeted && !sizeRefused then [Sender(sender)] else []
      case RcptTo(recipient) => if s.mailFrom.Some? && |s.rcptTo| < MAX_RECIPIENTS then [Recipient(recipient)] else []
      case Rset => [Cleared]
      case _ => []
    }

    /** What the DATA phase leads to in a transaction open in state `s`. */
    function ActData(unread: seq<Byte>, s: State, tls: bool, count: nat): (step: Step)
      requires s.mailFrom.Some?
      ensures step.tls == tls && (step.rest.Some? ==> |step.rest.value| <= |unread|)
    {
      ReceiveShrinks(unread, [], maxMessageSize);
      var end := Receive(unread, [], maxMessageSize);
      var closed := s.After(Completed);
      match end.verdict
      case Received(raw) =>
        Step([Offered(Message(s.mailFrom.value, s.rcptTo, raw)), Completed], closed, tls, 0, Some(end.rest))
      case Disconnected => Step([Completed], closed, tls, 0, Some(end.rest))
      case TooLarge => Step([], s, tls, count, Some(end.rest))
      case Dropped => Step([], s, tls, count, None)
    }

    /**
     * What `command` leads to in state `s`, with `unread` behind it on the
     * channel and `secured` on the channel it may upgrade to.
     */
    function Act(command: Command, unread: seq<Byte>, secured: seq<Byte>, s: State, tls: bool, count: nat): (step: Step)
      ensures step.rest.Some? ==>
        if step.tls == tls then |step.rest.value| <= |unread| else step.tls && step.rest.value == secured
    {
      if command.Data? && s.mailFrom.Some? && s.rcptTo != [] then ActData(unread, s, tls, count)
      else
        var events := Effect(command, s, tls);
        if events == [Secured] then Step(events, s.After(Secured), true, count, Some(secured))
        else Step(events, if events == [] then s else s.After(events[0]), tls, count, Behind(command, unread))
    }

    /** Everything a session comes to if nothing but its peer ends it: a function of the bytes on both channels. */
    function Talk(unread: seq<Byte>, secured: seq<Byte>, s: State, tls: bool, count: nat): seq<Event>
      decreases !tls, |unread|
    {
      var n := LineLen(unread);
      if n == 0 || n > MAX_LINE_LENGTH || count >= MAX_COMMANDS_PER_TRANSACTION then []
      else
        var command := parse(unread[..n]);
        var step := Act(command, unread[n..], secured, s, tls, count + 1);
        [Handled(command)] + step.events +
        if step.rest.None? then [] else Talk(step.rest.value, secured, step.state, step.tls, step.count)
    }

    /**
     * The session has come as far as `step` says, or was cut short on the way,
     * as it is exactly if the network failed.
     */
    twostate predicate Reached(step: Step, over: bool, cut: bool, next: nat) reads this, stream {
      && history <= old(history) + step.events
      && (!cut ==> history == old(history) + step.events && (over <==> step.rest.None?))
      && (cut ==> over) && (cut <==> faulted)
      && (!over ==>
            && Now() == step.state && tlsActive == step.tls && next == step.count
            && step.rest == Some(stream.Unread()))
    }

    /**
     * The DATA phase. A message refused for its size leaves the transaction
     * open; a message received, or a peer that left in mid transfer, ends it.
     */
    method HandleData(commandCount: nat) returns (over: bool, cut: bool, next: nat)
      requires Valid() && mailFrom.Some? && rcptTo != [] && EndsWith(history, Handled(Data))
      requires SinceCompleted(history) == commandCount && !faulted
      modifies `mailFrom, `rcptTo, `history, `handed, `received, `steps, `faulted, `greeted, `greetedAt, stream
      ensures Valid() && Answered() && (!over ==> SinceCompleted(history) == next)
      ensures Reached(ActData(old(stream.Unread()), old(Now()), tlsActive, commandCount), over, cut, next)
    {
      hide Receive, SinceCompleted, Consistent, ByteStream.Unread, ByteStream.Valid;
      ghost var step := ActData(stream.Unread(), Now(), tlsActive, commandCount);
      over, cut, next := false, false, commandCount;
      var verdict := ReceiveData(stream, maxMessageSize);
      var failed := Network();
      if failed {
        return true, true, next;
      }
      if verdict.Dropped? {
        return true, false, next;
      }
      if verdict.TooLarge? {
        return;
      }
      cut := Conclude(verdict);
      over, next := cut, 0;
    }

    /** A message was received, or the peer left: the transaction is over, once it was answered for. */
    method Conclude(verdict: Verdict) returns (cut: bool)
      requires Consistent() && mailFrom.Some? && rcptTo != [] && EndsWith(history, Handled(Data)) && !faulted
      requires verdict.Received? || verdict.Disconnected?
      modifies `mailFrom, `rcptTo, `history, `handed, `received, `steps, `faulted, `greeted, `greetedAt
      ensures Consistent() && Answered() && cut == faulted && (!cut ==> SinceCompleted(history) == 0)
      ensures !cut ==> Now() == old(Now()).After(Completed)
      ensures var events := if verdict.Disconnected? then [Completed]
                            else [Offered(Message(old(mailFrom.value), old(rcptTo), verdict.raw)), Completed];
              if cut then history <= old(history) + events else history == old(history) + events
    {
      hide SinceCompleted, Consistent;
      cut := false;
      if verdict.Received? {
        ghost var offered := Offered(Message(mailFrom.value, rcptTo, verdict.raw));
        Deliver(verdict.raw);
        cut := Network();
        assert [offered, Completed] == [offered] + [Completed];
        if cut {
          return;
        }
      }
      EndTransaction(Completed);
    }

    /** Reads a line of credentials, which nothing is done with. */
    method SkipLine() returns (over: bool)
      requires stream.Valid()
      modifies stream
      ensures stream.Valid()
      ensures over <==> AfterLine(old(stream.Unread())).None?
      ensures !over ==> AfterLine(old(stream.Unread())) == Some(stream.Unread())
    {
      var line, tooLong := ReadLine(stream, MAX_LINE_LENGTH);
      over := tooLong;
      if !tooLong {
        LineOfRead(line, stream.Unread());
      }
    }

    /** Reads what follows a command on the channel: up to two lines of credentials. */
    method SkipBehind(command: Command) returns (over: bool)
      requires stream.Valid()
      modifies stream
      ensures stream.Valid()
      ensures over <==> Behind(command, old(stream.Unread())).None?
      ensures !over ==> Behind(command, old(stream.Unread())) == Some(stream.Unread())
    {
      hide AfterLine;
      over := command.Quit?;
      if command.AuthPlain? && !command.inline {
        over := SkipLine();
      } else if command.AuthLogin? {
        over := SkipLine();
        if !over {
          over := SkipLine();
        }
      }
    }

    /** A command that only concerns the transaction: at most one event follows it. */
    method DispatchMail(command: Command)
      requires Consistent() && EndsWith(history, Handled(command)) && Effect(command, Now(), tlsActive) != [Secured]
      modifies `greeted, `mailFrom, `rcptTo, `history, `greetedAt, `openAt
      ensures Consistent() && Answered() && SinceCompleted(history) == old(SinceCompleted(history))
      ensures var events := Effect(command, old(Now()), tlsActive);
              && history == old(history) + events
              && Now() == if events == [] then old(Now()) else old(Now()).After(events[0])
    {
      hide SinceCompleted, Tracked, Enveloped, Patient, OfferedIn, Faithful;
      if command.Hello? {
        EndTransaction(Greeted);
      } else if command.MailFrom? {
        HandleMailFrom(command.sender, command.sizeRefused);
      } else if command.RcptTo? {
        HandleRcptTo(command.recipient);
      } else if command.Rset? {
        EndTransaction(Cleared);
      }
    }

    /** Goes on over TLS, with nothing of what was said before. */
    method Upgrade(secured: ByteStream)
      requires Consistent() && secured.Valid() && EndsWith(history, Handled(StartTls)) && !tlsActive
      modifies `stream, `tlsActive, `greeted, `mailFrom, `rcptTo, `history, `greetedAt
      ensures Valid() && Answered() && stream == secured && tlsActive
      ensures history == old(history) + [Secured] && Now() == old(Now()).After(Secured)
      ensures SinceCompleted(history) == old(SinceCompleted(history))
    {
      hide SinceCompleted, Tracked, Enveloped, Patient, OfferedIn, Faithful;
      stream, tlsActive := secured, true;
      EndTransaction(Secured);
    }

    /** Does what a command asks for, short of the last reply. */
    method Perform(command: Command, commandCount: nat, secured: ByteStream) returns (over: bool, cut: bool, next: nat)
      requires Valid() && secured.Valid() && SinceCompleted(history) == commandCount && !faulted
      requires EndsWith(history, Handled(command))
      requires tlsActive || secured != stream
      modifies this, stream
      ensures Valid() && secured.Valid() && (!over ==> Answered() && SinceCompleted(history) == next)
      ensures var step :=
                Act(command, old(stream.Unread()), old(secured.Unread()), old(Now()), old(tlsActive), commandCount);
              Reached(step, over, cut, next)
      ensures stream == if tlsActive == old(tlsActive) then old(stream) else secured
    {
      hide SinceCompleted, ActData, Consistent, Behind, ByteStream.Unread, ByteStream.Valid;
      over, cut, next := false, false, commandCount;
      if command.StartTls? && tlsConfigured && !tlsActive {
        cut := Network();
        over := cut;
        if !cut {
          Upgrade(secured);
        }
      } else if command.Data? && mailFrom.Some? && rcptTo != [] {
        over, cut, next := HandleData(commandCount);
      } else {
        DispatchMail(command);
        over := SkipBehind(command);
      }
    }

    /**
     * Acts on one command, counted already. `secured` is what the peer sends
     * once the channel is upgraded; whatever it sent before is dropped with
     * the channel. A reply that cannot be written, a timeout or a failed
     * upgrade cuts the session short.
     */
    method Dispatch(command: Command, commandCount: nat, secured: ByteStream) returns (over: bool, cut: bool, next: nat)
      requires Valid() && secured.Valid() && SinceCompleted(history) == commandCount && !faulted
      requires EndsWith(history, Handled(command))
      requires tlsActive || secured != stream
      modifies this, stream
      ensures Valid() && secured.Valid() && (!over ==> Answered() && SinceCompleted(history) == next)
      ensures var step :=
                Act(command, old(stream.Unread()), old(secured.Unread()), old(Now()), old(tlsActive), commandCount);
              Reached(step, over, cut, next)
      ensures stream == if tlsActive == old(tlsActive) then old(stream) else secured
    {
      hide SinceCompleted, Act, Consistent, ByteStream.Unread, ByteStream.Valid;
      over, cut, next := Perform(command, commandCount, secured);
      if !over {
        cut := Network();
        over := cut;
      }
    }

    /** Reads a command line, or finds that there is none or that it is too long. */
    method ReadCommand() returns (line: seq<Byte>, over: bool)
      requires stream.Valid()
      modifies stream
      ensures stream.Valid()
      ensures over ==> LineLen(old(stream.Unread())) > MAX_LINE_LENGTH || old(stream.Unread()) == []
      ensures !over ==>
        && old(stream.Unread()) == line + stream.Unread() && 0 < |line| <= MAX_LINE_LENGTH
        && (IsLine(line) || (Open(line) && stream.Unread() == []))
    {
      var tooLong;
      line, tooLong := ReadLine(stream, MAX_LINE_LENGTH);
      over := tooLong || line == [];
      if !tooLong {
        LineOfRead(line, stream.Unread());
      }
    }

    /** One turn of the loop: a line read, a command counted, and what it led to. */
    lemma OneTurn(before: seq<Event>, line: seq<Byte>, rest: seq<Byte>, secured: seq<Byte>, s: State, tls: bool,
                  count: nat)
      requires line != [] && (IsLine(line) || (Open(line) && rest == []))
      requires |line| <= MAX_LINE_LENGTH && count < MAX_COMMANDS_PER_TRANSACTION
      ensures var step := Act(parse(line), rest, secured, s, tls, count + 1);
              before + Talk(line + rest, secured, s, tls, count) ==
              before + [Handled(parse(line))] + step.events +
              if step.rest.None? then [] else Talk(step.rest.value, secured, step.state, step.tls, step.count)
    {
      hide Act;
      LineOfRead(line, rest);
    }

    /** Once upgraded, a session does not upgrade again. */
    lemma UpgradesOnce(command: Command, unread: seq<Byte>, a: seq<Byte>, b: seq<Byte>, s: State, count: nat)
      ensures Act(command, unread, a, s, true, count) == Act(command, unread, b, s, true, count)
    {
    }

    /** A line too long, or the end of the stream, is where the talk ends. */
    lemma NoMoreTurns(unread: seq<Byte>, secured: seq<Byte>, s: State, tls: bool, count: nat)
      requires LineLen(unread) > MAX_LINE_LENGTH || unread == [] || count >= MAX_COMMANDS_PER_TRANSACTION
      ensures Talk(unread, secured, s, tls, count) == []
    {
    }

    lemma NothingYet()
      requires Consistent() && history == []
      ensures Now() == State(false, None, []) && SinceCompleted(history) == 0 && Answered()
    {
      TrackNothing(Now(), greetedAt, openAt);
    }

    /**
     * The whole session: commands until the peer leaves, quits, talks too long
     * or is cut off. However the bytes arrive, it does what they say, up to
     * where it was cut short.
     */
    method Handle(secured: ByteStream) returns (cut: bool)
      requires Valid() && history == [] && !tlsActive && !faulted && secured.Valid() && secured != stream
      modifies this, stream, secured
      ensures Valid() && (cut <==> faulted)
      ensures var all := Talk(old(stream.Unread()), old(secured.Unread()), State(false, None, []), false, 0);
              history <= all && (!cut ==> history == all)
    {
      hide Consistent, SinceCompleted, Receive, Act, Talk, LineLen, Flatten, IsLine, Open, ByteStream.Unread,
           ByteStream.Valid, EndsWith, ActData, Behind, AfterLine;
      var commandCount: nat := 0;
      NothingYet();
      ghost var later := secured.Unread();
      ghost var all := Talk(stream.Unread(), later, Now(), false, 0);
      while true
        invariant Valid() && secured.Valid() && SinceCompleted(history) == commandCount && Answered()
        invariant !faulted
        invariant if tlsActive then stream == secured else stream == old(stream) && secured.Unread() == later
        invariant all == history + Talk(stream.Unread(), later, Now(), tlsActive, commandCount)
        decreases !tlsActive, |stream.Unread()|
      {
        ghost var unread := stream.Unread();
        var line, over := ReadCommand();
        cut := Network();
        if cut {
          return;
        }
        if over || commandCount + 1 > MAX_COMMANDS_PER_TRANSACTION {
          NoMoreTurns(unread, later, Now(), tlsActive, commandCount);
          assert history + [] == history;
          return false;
        }
        var command := parse(line);
        OneTurn(history, line, stream.Unread(), later, Now(), tlsActive, commandCount);
        Count(commandCount, command);
        if tlsActive {
          UpgradesOnce(command, stream.Unread(), secured.Unread(), later, Now(), commandCount + 1);
        }
        over, cut, commandCount := Dispatch(command, commandCount + 1, secured);
        if over {
          return;
        }
      }
    }

    /** Every message handed over has the envelope of the transaction it was received in. */
    lemma EnvelopeIntegrity(k: nat) returns (g: nat, at: nat)
      requires Valid() && k < |history| && history[k].Offered?
      ensures g < at < k && history[g].Greeted? && SameChannel(history[g..k])
      ensures history[at - 1] == Handled(MailFrom(history[k].message.sender, false))
      ensures history[at] == Sender(history[k].message.sender) && SameTransaction(history[at + 1..k])
      ensures 1 <= |history[k].message.recipients| <= MAX_RECIPIENTS
      ensures history[k].message.recipients == RecipientsIn(history[at + 1..k])
      ensures forall i :: at < i < k ==> history[i] != Handled(Hello) && history[i] != Handled(Rset)
    {
      var m, before := history[k].message, history[..k];
      at :| OpenSince(before, at, m.sender, m.recipients);
      g :| 0 <= g < at && before[g].Greeted? && SameChannel(before[g..]);
      assert before[g..] == history[g..k] && before[at + 1..] == history[at + 1..k];
      assert Follows(history[..at], history[at]);
      NotInterrupted(history, at, k);
    }

    /** Between two received messages at most a thousand commands are handled. */
    lemma TalkIsBounded(a: nat, b: nat)
      requires Valid() && a <= b <= |history| && forall i :: a <= i < b ==> !history[i].Completed?
      ensures |set i | a <= i < b && history[i].Handled?| <= 1000
    {
      Stretch(history[..b], a);
      assert (set i | a <= i < b && history[i].Handled?) == HandledSince(history[..b], a);
    }
  }

  /** Where commands were handled since `a`. */
  function HandledSince(history: seq<Event>, a: nat): set<int> {
    set i | a <= i < |history| && history[i].Handled?
  }

  lemma {:induction false} Stretch(history: seq<Event>, a: nat)
    requires a <= |history| && forall i :: a <= i < |history| ==> !history[i].Completed?
    ensures |HandledSince(history, a)| <= SinceCompleted(history)
    decreases |history|
  {
    if a < |history| {
      var n := |history| - 1;
      Stretch(history[..n], a);
      var before := HandledSince(history[..n], a);
      assert HandledSince(history, a) == if history[n].Handled? then before + {n} else before;
    } else {
      assert HandledSince(history, a) == {};
    }
  }

  /** In one transaction no greeting and no reset was handled: either would have been answered. */
  lemma NotInterrupted(history: seq<Event>, at: nat, k: nat)
    requires Faithful(history) && at < k < |history| && history[k].Offered? && SameTransaction(history[at + 1..k])
    ensures forall i :: at < i < k ==> history[i] != Handled(Hello) && history[i] != Handled(Rset)
  {
    forall i | at < i < k ensures history[i] != Handled(Hello) && history[i] != Handled(Rset) {
      assert Follows(history[..i + 1], history[i + 1]);
      assert i + 1 < k ==> history[at + 1..k][i - at] == history[i + 1];
    }
  }

  lemma HandOver(s: State, history: seq<Event>, greetedAt: nat, openAt: nat, message: Message)
    requires Tracked(s, history, greetedAt, openAt) && Enveloped(history) && Patient(history)
    requires s.mailFrom == Some(message.sender) && message.recipients == s.rcptTo != []
    ensures Tracked(s, history + [Offered(message)], greetedAt, openAt)
    ensures Enveloped(history + [Offered(message)]) && Patient(history + [Offered(message)])
    ensures SinceCompleted(history + [Offered(message)]) == SinceCompleted(history)
    ensures OfferedIn(history + [Offered(message)]) == OfferedIn(history) + [message]
  {
    assert OpenSince(history, openAt, message.sender, message.recipients);
    hide Enveloped, Patient, SinceCompleted, OfferedIn, OpenSince, Tracked;
    StaysEnveloped(history, Offered(message));
    StaysPatient(history, Offered(message));
    TrackSame(s, history, greetedAt, openAt, Offered(message));
    assert s.(rcptTo := s.rcptTo + []) == s;
  }

  lemma {:induction false} ReceiveShrinks(u: seq<Byte>, data: seq<Byte>, max: nat)
    ensures |Receive(u, data, max).rest| <= |u|
    decreases |u|
  {
    if u != [] {
      var n := LineLen(u);
      var line, rest := u[..n], u[n..];
      DrainShrinks(rest, false);
      if n <= Budget(|data|, max) && !IsTerminator(line) && |data| + n <= max {
        ReceiveShrinks(rest, data + Unstuffed(line), max);
      }
    }
  }

  lemma {:induction false} DrainShrinks(u: seq<Byte>, midLine: bool)
    ensures Drain(u, midLine).Some? ==> |Drain(u, midLine).value| <= |u|
    decreases |u|
  {
    var n := LineLen(u);
    if EndsLine(u[..n]) && (midLine || !IsTerminator(u[..n])) {
      DrainShrinks(u[n..], false);
    }
  }
}
