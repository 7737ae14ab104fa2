/** What a POP3 client gets for each command: which message, of which lines, and what changes. */
module Mailbox {
  import opened Text
  import opened Pop3

  // Lines and words

  predicate AtPair(s: string) {
    |s| > 1 && s[0] == '\r' && s[1] == '\n'
  }

  lemma UnifyStep(s: string)
    requires s != ""
    ensures UnifyNewlines(s) == if AtPair(s) then ['\n'] + UnifyNewlines(s[2..]) else [s[0]] + UnifyNewlines(s[1..])
  {
  }

  predicate EndsLine(a: string, eol: string) {
    eol == "\r\n" || (eol == "\n" && (a == "" || a[|a| - 1] != '\r'))
  }

  lemma InFront(a: string, eol: string, b: string)
    requires EndsLine(a, eol)
    ensures a + eol + b != ""
    ensures var s := a + eol + b;
      && (a != "" ==> s[0] == a[0] && s[1..] == a[1..] + eol + b && (AtPair(s) <==> AtPair(a)) && EndsLine(a[1..], eol))
      && (AtPair(a) ==> s[2..] == a[2..] + eol + b && EndsLine(a[2..], eol))
      && (a == "" ==> s == eol + b && s[0] == eol[0] && AtPair(s) == (eol == "\r\n") && s[|eol|..] == b)
  {
  }

  lemma {:induction false} UnifyAround(a: string, eol: string, b: string)
    requires EndsLine(a, eol)
    ensures UnifyNewlines(a + eol + b) == UnifyNewlines(a) + "\n" + UnifyNewlines(b)
  {
    hide UnifyNewlines, AtPair, EndsLine;
    var s, end := a + eol + b, UnifyNewlines(b);
    InFront(a, eol, b);
    UnifyStep(s);
    if a == "" {
      UnifyNothing("");
      FirstLine(eol, s, b);
      assert "" + "\n" + end == ['\n'] + end;
    } else {
      UnifyStep(a);
      var k := if AtPair(a) then 2 else 1;
      var c := if AtPair(a) then '\n' else a[0];
      var rest := UnifyNewlines(a[k..]);
      UnifyAround(a[k..], eol, b);
      assert [c] + (rest + "\n" + end) == [c] + rest + "\n" + end;
    }
  }

  lemma FirstLine(eol: string, s: string, b: string)
    requires EndsLine("", eol) && s == eol + b
    ensures UnifyNewlines(s) == ['\n'] + UnifyNewlines(b)
  {
    hide UnifyNewlines;
    UnifyStep(s);
    assert s[|eol|..] == b;
  }

  lemma {:induction false} UnifyNothing(body: string)
    requires '\n' !in body
    ensures UnifyNewlines(body) == body
  {
    if body != "" {
      UnifyNothing(body[1..]);
      assert |body| > 1 ==> body[1] in body;
      assert body == [body[0]] + body[1..];
    }
  }

  /** A body falls into lines at each newline, with or without a carriage return before it, and nowhere else. */
  lemma BodyLinesAre(a: string, eol: string, b: string)
    requires EndsLine(a, eol)
    ensures BodyLines(a + eol + b) == BodyLines(a) + BodyLines(b)
    ensures '\n' !in b ==> BodyLines(b) == [b]
  {
    hide UnifyNewlines, Split, EndsLine;
    UnifyAround(a, eol, b);
    SplitAround(UnifyNewlines(a), '\n', UnifyNewlines(b));
    assert UnifyNewlines(a) + "\n" + UnifyNewlines(b) == UnifyNewlines(a) + ['\n'] + UnifyNewlines(b);
    if '\n' !in b {
      UnifyNothing(b);
      SplitWithoutSeparator(b, '\n');
    }
  }

  /** The command is what stands before the first space, its argument all that follows it. */
  lemma {:induction false} WordsAre(a: string, b: string)
    requires ' ' !in a
    ensures Words2(a + " " + b) == (a, b) && Words2(a) == (a, "")
  {
    FirstSpace(a, b);
    var s := a + " " + b;
    assert s[..|a|] == a && s[|a| + 1..] == b;
  }

  lemma {:induction false} FirstSpace(a: string, b: string)
    requires ' ' !in a
    ensures SpaceAt(a + " " + b) == |a| == SpaceAt(a)
  {
    if a == "" {
      assert a + " " + b == " " + b;
    } else {
      assert (a + " " + b)[1..] == a[1..] + " " + b;
      assert a[0] in a;
      FirstSpace(a[1..], b);
    }
  }

  lemma {:induction false} SizesAre(bodies: seq<string>)
    ensures |Sizes(bodies)| == |bodies| && forall i | 0 <= i < |bodies| :: Sizes(bodies)[i] == |bodies[i]|
  {
    if bodies != [] {
      SizesAre(bodies[1..]);
    }
  }

  // Commands

  /** What a client reads of a message reply. */
  function LinesRead(r: Response): Option<seq<string>> {
    if !r.Message? || ReadLine(r.text).None? then None
    else
      var message := ReadMessage(ReadLine(r.text).value.1);
      if message.Some? then Some(message.value.0) else None
  }

  lemma MessageIsRead(body: string)
    ensures LinesRead(Message(MessageReply(body))) == Some(BodyLines(body))
  {
    hide ReadLine, ReadMessage, MessageReply, BodyLines;
    MessageReadsBack(body, "");
    assert MessageReply(body) + "" == MessageReply(body);
  }

  /** The characters of a message of one line. */
  lemma OneLineOnTheWire(line: string)
    requires '\n' !in line
    ensures MessageReply(line)
      == "+OK message follows\r\n" + (if line != "" && line[0] == '.' then "." + line else line) + "\r\n.\r\n"
  {
    assert EndsLine("", "\r\n");
    hide UnifyNewlines, Split, EndsLine;
    BodyLinesAre("", "\r\n", line);
    var stuffed := StuffOne(line);
    assert StuffAll([line]) == [stuffed];
    assert STATUS_LINE + CRLF == "+OK message follows\r\n" && CRLF + "." + CRLF == "\r\n.\r\n";
  }

  /** RETR and TOP: a client reads the lines of message `n`, counted from 1; a text the model made takes the
      place of that message, ended by a newline, and of no other. */
  lemma RetrieveReads(cfg: Config, s: Session, input: Input)
    requires CommandOf(cfg, input) in {"RETR", "TOP"} && s.authed
    ensures var (s', r) := Answer(cfg, s, input); var n := cfg.parseInt(ArgumentOf(input));
      && (r == NoSuchMessage <==> n.None? || !(1 <= n.value <= |s.bodies|))
      && (r == NoSuchMessage ==> s' == s)
      && (r != NoSuchMessage ==>
          && s' == s.(bodies := s'.bodies) && |s'.bodies| == |s.bodies|
          && LinesRead(r) == Some(BodyLines(s'.bodies[n.value - 1]))
          && (forall i | 0 <= i < |s.bodies| && i + 1 != n.value :: s'.bodies[i] == s.bodies[i])
          && var body := s'.bodies[n.value - 1]; var made := input.generated.GetOr("");
          && (made == "" ==> body == s.bodies[n.value - 1])
          && (made != "" ==> body == if made[|made| - 1] == '\n' then made else made + "\r\n"))
  {
    hide ReadLine, ReadMessage, MessageReply, BodyLines, CommandOf, ArgumentOf, LinesRead, Sizes, TotalSize;
    var n := cfg.parseInt(ArgumentOf(input));
    if n.Some? && 1 <= n.value <= |s.bodies| {
      MessageIsRead(Answer(cfg, s, input).0.bodies[n.value - 1]);
    }
  }

  /** Logging in: a pair from the configuration, or the configured number of attempts. */
  lemma LoggingIn(cfg: Config, s: Session, input: Input)
    ensures var (s', r) := Answer(cfg, s, input); var arg := ArgumentOf(input);
      && (CommandOf(cfg, input) == "USER" ==> s' == s.(user := Some(arg)) && r == UserOk(arg))
      && (CommandOf(cfg, input) == "PASS" ==>
          var pair := (if s.user.Some? then s.user.value else "None") + ":" + arg;
          var accepted := pair in cfg.accepted || s.attempts + 1 >= cfg.acceptAfter;
          && (r == PassOk(|s.bodies|) <==> accepted) && (r == PassRejected <==> !accepted)
          && s'.attempts == s.attempts + 1 && (s'.authed <==> s.authed || accepted)
          && s'.credentials
            == s.credentials + [Credential(if s.user.Some? then s.user.value else "", arg, accepted)]
          && s'.bodies == s.bodies && s'.user == s.user)
  {
    hide CommandOf, ArgumentOf;
  }

  const COMMANDS: set<string> := {
    "USER", "PASS", "STAT", "LIST", "UIDL", "RETR", "TOP", "DELE", "NOOP", "RSET", "CAPA", "QUIT"}

  /** The other commands change nothing, DELE among them; STAT and LIST tell the present sizes. */
  lemma LookingAround(cfg: Config, s: Session, input: Input)
    requires CommandOf(cfg, input) !in {"USER", "PASS", "RETR", "TOP"}
    ensures var (s', r) := Answer(cfg, s, input); var cmd := CommandOf(cfg, input);
      && s' == s
      && (cmd == "CAPA" ==> r == Capabilities) && (cmd == "QUIT" ==> r == Bye)
      && (s.authed && cmd == "STAT" ==> r == Stat(|s.bodies|, Sum(Sizes(s.bodies))))
      && (s.authed && cmd == "LIST" ==>
          && r.Listing? && |r.sizes| == |s.bodies|
          && forall i | 0 <= i < |s.bodies| :: r.sizes[i] == |s.bodies[i]|)
      && (s.authed && cmd == "UIDL" ==> r == UniqueIds(|s.bodies|))
      && (s.authed && cmd in {"DELE", "NOOP", "RSET"} ==> r == Done)
      && (s.authed ==> (r == Unknown <==> cmd !in COMMANDS))
  {
    hide CommandOf, Sizes, TotalSize, Sum;
    StatIsSumOfList(s.bodies);
    SizesAre(s.bodies);
  }
}
