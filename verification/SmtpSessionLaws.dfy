/**
 * What a session says and does, as a function of the bytes it is sent: a mail
 * transaction goes through whole, and no byte of its message is taken for a
 * command.
 */
module SmtpSessionLaws {
  import opened Bytes
  import opened Helpers
  import opened SmtpData
  import opened SmtpSession

  import Laws = SmtpDataLaws

  /** `line` is one command line, and is taken for `command`. */
  predicate Says(session: Session, line: seq<Byte>, command: Command) {
    IsLine(line) && |line| <= MAX_LINE_LENGTH && session.parse(line) == command
  }

  /** What is read off `line + rest` is `command`: a line, or the last words of a peer that left. */
  predicate Heard(session: Session, line: seq<Byte>, rest: seq<Byte>, command: Command) {
    && line != [] && (IsLine(line) || (Open(line) && rest == []))
    && |line| <= MAX_LINE_LENGTH && session.parse(line) == command
  }

  lemma SaidIsHeard(session: Session, line: seq<Byte>, command: Command, rest: seq<Byte>)
    requires Says(session, line, command)
    ensures Heard(session, line, rest, command)
  {
  }

  /** One command at the front of the stream. */
  lemma TalkLine(session: Session, line: seq<Byte>, command: Command, rest: seq<Byte>, secured: seq<Byte>,
                 s: State, tls: bool, count: nat)
    requires Heard(session, line, rest, command) && count < MAX_COMMANDS_PER_TRANSACTION
    ensures var step := session.Act(command, rest, secured, s, tls, count + 1);
            session.Talk(line + rest, secured, s, tls, count) ==
            [Handled(command)] + step.events +
            if step.rest.None? then [] else session.Talk(step.rest.value, secured, step.state, step.tls, step.count)
  {
    hide Session.Act;
    LineOfRead(line, rest);
  }

  /** A greeting is accepted in every state, and starts afresh on the next line. */
  lemma TalkHello(session: Session, line: seq<Byte>, rest: seq<Byte>, secured: seq<Byte>,
                  s: State, tls: bool, count: nat)
    requires Heard(session, line, rest, Hello) && count < MAX_COMMANDS_PER_TRANSACTION
    ensures session.Talk(line + rest, secured, s, tls, count) ==
            [Handled(Hello), Greeted] + session.Talk(rest, secured, State(true, None, []), tls, count + 1)
  {
    hide Session.Talk;
    TalkLine(session, line, Hello, rest, secured, s, tls, count);
  }

  /** A reset forgets the envelope and nothing else, and the next line is a command. */
  lemma TalkReset(session: Session, line: seq<Byte>, rest: seq<Byte>, secured: seq<Byte>,
                  s: State, tls: bool, count: nat)
    requires Heard(session, line, rest, Rset) && count < MAX_COMMANDS_PER_TRANSACTION
    ensures session.Talk(line + rest, secured, s, tls, count) ==
            [Handled(Rset), Cleared] + session.Talk(rest, secured, State(s.greeted, None, []), tls, count + 1)
  {
    hide Session.Talk;
    TalkLine(session, line, Rset, rest, secured, s, tls, count);
  }

  /**
   * A command that is out of sequence, refused, unknown or idle changes
   * nothing, and the very next line is a command.
   */
  lemma TalkIdle(session: Session, line: seq<Byte>, command: Command, rest: seq<Byte>, secured: seq<Byte>,
                 s: State, tls: bool, count: nat)
    requires Heard(session, line, rest, command) && count < MAX_COMMANDS_PER_TRANSACTION
    requires match command
             case MailFrom(_, sizeRefused) => !s.greeted || sizeRefused
             case RcptTo(_) => s.mailFrom.None? || |s.rcptTo| >= MAX_RECIPIENTS
             case Data => s.mailFrom.None? || s.rcptTo == []
             case StartTls => !session.tlsConfigured || tls
             case AuthPlain(inline) => inline
             case Other => true
             case _ => false
    ensures session.Talk(line + rest, secured, s, tls, count) ==
            [Handled(command)] + session.Talk(rest, secured, s, tls, count + 1)
  {
    hide Session.Talk;
    TalkLine(session, line, command, rest, secured, s, tls, count);
  }

  /** Credentials announced on the command line take exactly one line more. */
  lemma TalkAuthPlain(session: Session, line: seq<Byte>, credentials: seq<Byte>, rest: seq<Byte>, secured: seq<Byte>,
                      s: State, tls: bool, count: nat)
    requires Heard(session, line, credentials + rest, AuthPlain(false)) && count < MAX_COMMANDS_PER_TRANSACTION
    requires IsLine(credentials) || (Open(credentials) && rest == [])
    ensures session.Talk(line + (credentials + rest), secured, s, tls, count) ==
            [Handled(AuthPlain(false))] +
            if |credentials| > MAX_LINE_LENGTH then [] else session.Talk(rest, secured, s, tls, count + 1)
  {
    hide Session.Talk, LineLen;
    TalkLine(session, line, AuthPlain(false), credentials + rest, secured, s, tls, count);
    LineOfRead(credentials, rest);
  }

  /** A login takes exactly two lines more. */
  lemma TalkAuthLogin(session: Session, line: seq<Byte>, user: seq<Byte>, password: seq<Byte>, rest: seq<Byte>,
                      secured: seq<Byte>, s: State, tls: bool, count: nat)
    requires Heard(session, line, user + (password + rest), AuthLogin) && count < MAX_COMMANDS_PER_TRANSACTION
    requires IsLine(user) || (Open(user) && password == rest == [])
    requires IsLine(password) || (Open(password) && rest == [])
    ensures session.Talk(line + (user + (password + rest)), secured, s, tls, count) ==
            [Handled(AuthLogin)] +
            if |user| > MAX_LINE_LENGTH || |password| > MAX_LINE_LENGTH then []
            else session.Talk(rest, secured, s, tls, count + 1)
  {
    hide Session.Talk, LineLen;
    TalkLine(session, line, AuthLogin, user + (password + rest), secured, s, tls, count);
    LineOfRead(user, password + rest);
    LineOfRead(password, rest);
  }

  /** Nothing behind QUIT is read. */
  lemma TalkQuit(session: Session, line: seq<Byte>, rest: seq<Byte>, secured: seq<Byte>,
                 s: State, tls: bool, count: nat)
    requires Heard(session, line, rest, Quit) && count < MAX_COMMANDS_PER_TRANSACTION
    ensures session.Talk(line + rest, secured, s, tls, count) == [Handled(Quit)]
  {
    hide Session.Talk;
    TalkLine(session, line, Quit, rest, secured, s, tls, count);
  }

  /** An upgrade goes on with what the secured channel brings, ungreeted, and drops what was sent before. */
  lemma TalkStartTls(session: Session, line: seq<Byte>, rest: seq<Byte>, secured: seq<Byte>, s: State, count: nat)
    requires Heard(session, line, rest, StartTls) && count < MAX_COMMANDS_PER_TRANSACTION && session.tlsConfigured
    ensures session.Talk(line + rest, secured, s, false, count) ==
            [Handled(StartTls), Secured] + session.Talk(secured, secured, State(false, None, []), true, count + 1)
  {
    hide Session.Talk;
    TalkLine(session, line, StartTls, rest, secured, s, false, count);
  }

  /** A sender, where one is accepted; it takes the place of an earlier one and of its recipients. */
  lemma TalkMailFrom(session: Session, line: seq<Byte>, sender: Address, rest: seq<Byte>, secured: seq<Byte>,
                     s: State, tls: bool, count: nat)
    requires Heard(session, line, rest, MailFrom(sender, false)) && s.greeted && count < MAX_COMMANDS_PER_TRANSACTION
    ensures session.Talk(line + rest, secured, s, tls, count) ==
            [Handled(MailFrom(sender, false)), Sender(sender)] +
            session.Talk(rest, secured, State(true, Some(sender), []), tls, count + 1)
  {
    hide Session.Talk;
    TalkLine(session, line, MailFrom(sender, false), rest, secured, s, tls, count);
  }

  /** A recipient, where one is accepted. */
  lemma TalkRcptTo(session: Session, line: seq<Byte>, recipient: Address, rest: seq<Byte>, secured: seq<Byte>,
                   s: State, tls: bool, count: nat)
    requires Heard(session, line, rest, RcptTo(recipient)) && count < MAX_COMMANDS_PER_TRANSACTION
    requires s.mailFrom.Some? && |s.rcptTo| < MAX_RECIPIENTS
    ensures session.Talk(line + rest, secured, s, tls, count) ==
            [Handled(RcptTo(recipient)), Recipient(recipient)] +
            session.Talk(rest, secured, State(s.greeted, s.mailFrom, s.rcptTo + [recipient]), tls, count + 1)
  {
    hide Session.Talk;
    TalkLine(session, line, RcptTo(recipient), rest, secured, s, tls, count);
  }

  /**
   * The DATA phase of an open transaction. A message received or cut off
   * closes the transaction and restarts the count, one that is too large
   * leaves both, and a stream that ends in a drain ends the session.
   */
  lemma TalkData(session: Session, line: seq<Byte>, body: seq<Byte>, secured: seq<Byte>, s: State, tls: bool,
                 count: nat)
    requires Heard(session, line, body, Data) && count < MAX_COMMANDS_PER_TRANSACTION
    requires s.mailFrom.Some? && s.rcptTo != []
    ensures var end := Receive(body, [], session.maxMessageSize);
            session.Talk(line + body, secured, s, tls, count) ==
            match end.verdict
            case Received(raw) =>
              [Handled(Data), Offered(Message(s.mailFrom.value, s.rcptTo, raw)), Completed] +
              session.Talk(end.rest, secured, State(s.greeted, None, []), tls, 0)
            case Disconnected =>
              [Handled(Data), Completed] + session.Talk(end.rest, secured, State(s.greeted, None, []), tls, 0)
            case TooLarge => [Handled(Data)] + session.Talk(end.rest, secured, s, tls, count + 1)
            case Dropped => [Handled(Data)]
  {
    hide Receive, Session.Talk;
    TalkLine(session, line, Data, body, secured, s, tls, count);
    var end := Receive(body, [], session.maxMessageSize);
    if end.verdict.Received? {
      var offered := Offered(Message(s.mailFrom.value, s.rcptTo, end.verdict.raw));
      assert [Handled(Data)] + [offered, Completed] == [Handled(Data), offered, Completed];
    }
  }

  /** The talk is over at the end of the stream, at a line that is too long, and after a thousand commands. */
  lemma TalkEnds(session: Session, unread: seq<Byte>, secured: seq<Byte>, s: State, tls: bool, count: nat)
    requires unread == [] || LineLen(unread) > 4096 || count >= 1000
    ensures session.Talk(unread, secured, s, tls, count) == []
  {
    session.NoMoreTurns(unread, secured, s, tls, count);
  }

  /** What the recipients of a transaction add to a session. */
  function Named(recipients: seq<Address>): seq<Event> {
    if recipients == [] then []
    else [Handled(RcptTo(recipients[0])), Recipient(recipients[0])] + Named(recipients[1..])
  }

  lemma {:induction false} TalkRecipients(session: Session, lines: seq<seq<Byte>>, recipients: seq<Address>,
                                          rest: seq<Byte>, secured: seq<Byte>, s: State, tls: bool, count: nat)
    requires |lines| == |recipients| && s.mailFrom.Some? && |s.rcptTo| + |lines| <= MAX_RECIPIENTS
    requires forall i :: 0 <= i < |lines| ==> Says(session, lines[i], RcptTo(recipients[i]))
    requires count + |lines| <= MAX_COMMANDS_PER_TRANSACTION
    ensures session.Talk(Flatten(lines) + rest, secured, s, tls, count) ==
            Named(recipients) +
            session.Talk(rest, secured, State(s.greeted, s.mailFrom, s.rcptTo + recipients), tls, count + |lines|)
  {
    hide Session.Talk, OfferedIn, LineLen;
    if lines == [] {
      assert Flatten(lines) + rest == rest && s.rcptTo + recipients == s.rcptTo;
    } else {
      var behind := Flatten(lines[1..]) + rest;
      assert Flatten(lines) + rest == lines[0] + behind;
      SaidIsHeard(session, lines[0], RcptTo(recipients[0]), behind);
      TalkRcptTo(session, lines[0], recipients[0], behind, secured, s, tls, count);
      var next := State(s.greeted, s.mailFrom, s.rcptTo + [recipients[0]]);
      TalkRecipients(session, lines[1..], recipients[1..], rest, secured, next, tls, count + 1);
      assert next.rcptTo + recipients[1..] == s.rcptTo + recipients;
    }
  }

  /** A message that was received closes its transaction. */
  lemma TalkReceived(session: Session, line: seq<Byte>, body: seq<Byte>, raw: seq<Byte>, fits: bool, rest: seq<Byte>,
                     secured: seq<Byte>, s: State, tls: bool, count: nat)
    requires Heard(session, line, body, Data) && count < MAX_COMMANDS_PER_TRANSACTION
    requires s.mailFrom.Some? && s.rcptTo != []
    requires Receive(body, [], session.maxMessageSize) == Outcome(if fits then Received(raw) else TooLarge, rest)
    ensures session.Talk(line + body, secured, s, tls, count) ==
            [Handled(Data)] +
            if fits then
              [Offered(Message(s.mailFrom.value, s.rcptTo, raw)), Completed] +
              session.Talk(rest, secured, State(s.greeted, None, []), tls, 0)
            else session.Talk(rest, secured, s, tls, count + 1)
  {
    hide Receive, Session.Talk, Heard;
    TalkData(session, line, body, secured, s, tls, count);
    var message := Offered(Message(s.mailFrom.value, s.rcptTo, raw));
    assert [Handled(Data), message, Completed] == [Handled(Data)] + [message, Completed];
  }

  /** The same for a message as a sender transmits it. */
  lemma TalkMessage(session: Session, data: seq<Byte>, raw: seq<Byte>, rest: seq<Byte>, secured: seq<Byte>,
                    s: State, tls: bool, count: nat)
    requires Says(session, data, Data) && count < MAX_COMMANDS_PER_TRANSACTION
    requires s.mailFrom.Some? && s.rcptTo != [] && Laws.NoBareLineFeed(raw)
    ensures var fits := |Laws.Ended(raw)| + (if Laws.LastLineDotted(raw) then 1 else 0) <= session.maxMessageSize;
            session.Talk(data + (Laws.ToData(raw) + rest), secured, s, tls, count) ==
            [Handled(Data)] +
            if fits then
              [Offered(Message(s.mailFrom.value, s.rcptTo, Laws.Ended(raw))), Completed] +
              session.Talk(rest, secured, State(s.greeted, None, []), tls, 0)
            else session.Talk(rest, secured, s, tls, count + 1)
  {
    hide *;
    var body := Laws.ToData(raw) + rest;
    SaidIsHeard(session, data, Data, body);
    Laws.RoundTrip(raw, rest, session.maxMessageSize);
    var fits := |Laws.Ended(raw)| + (if Laws.LastLineDotted(raw) then 1 else 0) <= session.maxMessageSize;
    TalkReceived(session, data, body, Laws.Ended(raw), fits, rest, secured, s, tls, count);
  }

  /** A transaction sent in one go, in any state after a greeting. */
  lemma TalkMail(session: Session, mail: seq<Byte>, sender: Address,
                 lines: seq<seq<Byte>>, recipients: seq<Address>,
                 data: seq<Byte>, raw: seq<Byte>, rest: seq<Byte>,
                 secured: seq<Byte>, s: State, tls: bool, count: nat)
    requires s.greeted && Says(session, mail, MailFrom(sender, false)) && Says(session, data, Data)
    requires 1 <= |lines| == |recipients| <= MAX_RECIPIENTS
    requires forall i :: 0 <= i < |lines| ==> Says(session, lines[i], RcptTo(recipients[i]))
    requires count + |lines| + 2 <= MAX_COMMANDS_PER_TRANSACTION
    requires Laws.NoBareLineFeed(raw)
    ensures var fits := |Laws.Ended(raw)| + (if Laws.LastLineDotted(raw) then 1 else 0) <= session.maxMessageSize;
            var open := State(true, Some(sender), recipients);
            session.Talk(mail + (Flatten(lines) + (data + (Laws.ToData(raw) + rest))), secured, s, tls, count) ==
            [Handled(MailFrom(sender, false)), Sender(sender)] + Named(recipients) + [Handled(Data)] +
            if fits then
              [Offered(Message(sender, recipients, Laws.Ended(raw))), Completed] +
              session.Talk(rest, secured, State(true, None, []), tls, 0)
            else session.Talk(rest, secured, open, tls, count + |lines| + 2)
  {
    hide *;
    var body := data + (Laws.ToData(raw) + rest);
    SaidIsHeard(session, mail, MailFrom(sender, false), Flatten(lines) + body);
    TalkMailFrom(session, mail, sender, Flatten(lines) + body, secured, s, tls, count);
    TalkRecipients(session, lines, recipients, body, secured, State(true, Some(sender), []), tls, count + 1);
    assert [] + recipients == recipients;
    var open := State(true, Some(sender), recipients);
    TalkMessage(session, data, raw, rest, secured, open, tls, count + |lines| + 1);
    Chained([Handled(MailFrom(sender, false)), Sender(sender)], Named(recipients),
            session.Talk(body, secured, open, tls, count + |lines| + 1));
  }

  lemma Chained(a: seq<Event>, b: seq<Event>, c: seq<Event>)
    ensures a + (b + c) == a + b + c
    ensures forall d, e :: c == d + e ==> a + (b + c) == a + b + d + e
  {
  }

  /**
   * A greeting and a transaction sent in one go, in any state. The message is
   * handed over byte for byte if it fits, whatever it holds, and the next
   * command read is what follows its terminator.
   */
  lemma PipelinedMail(session: Session, hello: seq<Byte>, mail: seq<Byte>, sender: Address,
                      lines: seq<seq<Byte>>, recipients: seq<Address>,
                      data: seq<Byte>, raw: seq<Byte>, rest: seq<Byte>,
                      secured: seq<Byte>, s: State, tls: bool, count: nat)
    requires Says(session, hello, Hello)
    requires Says(session, mail, MailFrom(sender, false)) && Says(session, data, Data)
    requires 1 <= |lines| == |recipients| <= MAX_RECIPIENTS
    requires forall i :: 0 <= i < |lines| ==> Says(session, lines[i], RcptTo(recipients[i]))
    requires count + |lines| + 3 <= MAX_COMMANDS_PER_TRANSACTION
    requires Laws.NoBareLineFeed(raw)
    ensures var fits := |Laws.Ended(raw)| + (if Laws.LastLineDotted(raw) then 1 else 0) <= session.maxMessageSize;
            var open := State(true, Some(sender), recipients);
            session.Talk(hello + (mail + (Flatten(lines) + (data + (Laws.ToData(raw) + rest)))), secured, s, tls, count)
            ==
            [Handled(Hello), Greeted] +
            ([Handled(MailFrom(sender, false)), Sender(sender)] + Named(recipients) + [Handled(Data)] +
             if fits then
               [Offered(Message(sender, recipients, Laws.Ended(raw))), Completed] +
               session.Talk(rest, secured, State(true, None, []), tls, 0)
             else session.Talk(rest, secured, open, tls, count + |lines| + 3))
  {
    hide *;
    var behind := mail + (Flatten(lines) + (data + (Laws.ToData(raw) + rest)));
    SaidIsHeard(session, hello, Hello, behind);
    TalkHello(session, hello, behind, secured, s, tls, count);
    TalkMail(session, mail, sender, lines, recipients, data, raw, rest, secured, State(true, None, []), tls, count + 1);
  }

  /** A prefix of a history offers a prefix of its messages. */
  lemma {:induction false} OfferedPrefix(a: seq<Event>, b: seq<Event>)
    requires a <= b
    ensures OfferedIn(a) <= OfferedIn(b)
    decreases |b|
  {
    if a == b {
    } else {
      var n := |b| - 1;
      OfferedPrefix(a, b[..n]);
    }
  }

  lemma TakenPrefix(session: Session, a: seq<Message>, b: seq<Message>)
    requires a <= b
    ensures session.Taken(a) <= session.Taken(b) <= b
  {
  }

  /**
   * However the bytes arrive on the two channels, a session hands over a
   * prefix of the messages they hold, and if the network never fails it hands
   * over all of them that the queue takes.
   */
  method HandsOver(session: Session, secured: ByteStream) returns (cut: bool)
    requires session.Valid() && session.history == [] && !session.tlsActive && !session.faulted
    requires secured.Valid() && secured != session.stream
    modifies session, session.stream, secured
    ensures var all := session.Talk(
              old(session.stream.Unread()), old(secured.Unread()), State(false, None, []), false, 0);
            && session.handed <= session.Taken(OfferedIn(all)) <= OfferedIn(all)
            && (!cut ==> session.handed == session.Taken(OfferedIn(all)))
    ensures (forall i :: !session.faults(i)) ==> !cut
  {
    hide Session.Talk, OfferedIn;
    ghost var all := session.Talk(session.stream.Unread(), secured.Unread(), State(false, None, []), false, 0);
    cut := session.Handle(secured);
    OfferedPrefix(session.history, all);
    TakenPrefix(session, OfferedIn(session.history), OfferedIn(all));
  }
}
