/** The POP3 session of `services/pop3/server.py`: how a message is sent, and the command loop. */
module Pop3 {
  import opened Text

  // Sending a message

  /** `body.replace("\r\n", "\n")` */
  function UnifyNewlines(body: string): string {
    if body == "" then ""
    else if body[0] == '\r' && |body| > 1 && body[1] == '\n' then ['\n'] + UnifyNewlines(body[2..])
    else [body[0]] + UnifyNewlines(body[1..])
  }

  /** The lines of a body; a lone carriage return is part of its line. */
  function BodyLines(body: string): seq<string> {
    Split(UnifyNewlines(body), '\n')
  }

  function StuffOne(line: string): string {
    if line != "" && line[0] == '.' then "." + line else line
  }

  function StuffAll(lines: seq<string>): (r: seq<string>)
    ensures |r| == |lines|
  {
    if lines == [] then [] else [StuffOne(lines[0])] + StuffAll(lines[1..])
  }

  const CRLF := "\r\n"

  const STATUS_LINE := "+OK message follows"

  /** The reply to RETR for a message that exists. */
  function MessageReply(body: string): string {
    STATUS_LINE + CRLF + (Join(StuffAll(BodyLines(body)), CRLF) + (CRLF + "." + CRLF))
  }

  // The client (section 3 of RFC 1939)

  /** The next line, up to the first CRLF. */
  function ReadLine(s: string): (r: Option<(string, string)>)
    ensures r.Some? ==> |r.value.1| < |s|
  {
    if |s| < 2 then None
    else if s[0] == '\r' && s[1] == '\n' then Some(("", s[2..]))
    else
      var r := ReadLine(s[1..]);
      if r.None? then None else Some(([s[0]] + r.value.0, r.value.1))
  }

  /** Lines up to one that is a lone dot, each without the dot it was stuffed with. */
  function ReadMessage(s: string): Option<(seq<string>, string)>
    decreases |s|
  {
    var line := ReadLine(s);
    if line.None? then None
    else if line.value.0 == "." then Some(([], line.value.1))
    else
      var rest := ReadMessage(line.value.1);
      if rest.None? then None else Some(([Unstuff(line.value.0)] + rest.value.0, rest.value.1))
  }

  function Unstuff(line: string): string {
    if line != "" && line[0] == '.' then line[1..] else line
  }

  lemma {:induction false} LineReadsBack(line: string, rest: string)
    requires '\n' !in line
    ensures ReadLine(line + (CRLF + rest)) == Some((line, rest))
  {
    var s := line + (CRLF + rest);
    if line == "" {
      assert s == CRLF + rest && s[2..] == rest;
    } else {
      assert s[0] == line[0] && s[1..] == line[1..] + (CRLF + rest);
      assert |line| > 1 ==> s[1] == line[1] && line[1] in line;
      LineReadsBack(line[1..], rest);
      assert line == [line[0]] + line[1..];
    }
  }

  lemma StuffedLine(line: string)
    requires '\n' !in line
    ensures var stuffed := StuffOne(line); '\n' !in stuffed && stuffed != "." && Unstuff(stuffed) == line
  {
  }

  lemma OneMoreLine(line: string, after: string)
    requires '\n' !in line && ReadMessage(after).Some?
    ensures ReadMessage(StuffOne(line) + (CRLF + after))
      == Some(([line] + ReadMessage(after).value.0, ReadMessage(after).value.1))
  {
    hide ReadLine, StuffOne, Unstuff;
    StuffedLine(line);
    LineReadsBack(StuffOne(line), after);
  }

  lemma MessageEnds(rest: string)
    ensures ReadMessage("." + (CRLF + rest)) == Some(([], rest))
  {
    hide ReadLine;
    LineReadsBack(".", rest);
  }

  lemma LastLine(line: string, rest: string)
    requires '\n' !in line
    ensures ReadMessage(StuffOne(line) + (CRLF + "." + CRLF + rest)) == Some(([line], rest))
  {
    hide ReadLine, ReadMessage, StuffOne;
    var tail := "." + (CRLF + rest);
    assert CRLF + "." + CRLF + rest == CRLF + tail;
    MessageEnds(rest);
    OneMoreLine(line, tail);
    assert [line] + [] == [line];
  }

  lemma {:induction false} LinesReadBack(lines: seq<string>, rest: string)
    requires lines != [] && forall l | l in lines :: '\n' !in l
    ensures ReadMessage(Join(StuffAll(lines), CRLF) + (CRLF + "." + CRLF + rest)) == Some((lines, rest))
    decreases |lines|
  {
    hide ReadMessage, StuffOne;
    assert lines[0] in lines && StuffAll(lines)[1..] == StuffAll(lines[1..]);
    if |lines| == 1 {
      assert lines == [lines[0]];
      LastLine(lines[0], rest);
    } else {
      var stuffed, more, ending := StuffOne(lines[0]), Join(StuffAll(lines[1..]), CRLF), CRLF + "." + CRLF + rest;
      assert Join(StuffAll(lines), CRLF) == stuffed + CRLF + more;
      hide Join, StuffAll;
      LinesReadBack(lines[1..], rest);
      Regrouped(stuffed, CRLF, more, ending);
      OneMoreLine(lines[0], more + ending);
      assert lines == [lines[0]] + lines[1..];
    }
  }

  lemma Regrouped(a: string, b: string, c: string, d: string)
    ensures a + b + c + d == a + (b + (c + d))
  {
  }

  /** A client recovers exactly the lines of the body, for every body: leading dots, lone dots, lone
      carriage returns and mixed line endings included. It stops at the terminator and nowhere before,
      so the next reply starts where it should. */
  lemma MessageReadsBack(body: string, rest: string)
    ensures var status := ReadLine(MessageReply(body) + rest);
      && status.Some? && status.value.0 == STATUS_LINE
      && ReadMessage(status.value.1) == Some((BodyLines(body), rest))
  {
    hide ReadMessage, ReadLine, BodyLines;
    var stuffed := Join(StuffAll(BodyLines(body)), CRLF);
    var message := stuffed + (CRLF + "." + CRLF + rest);
    assert MessageReply(body) + rest == STATUS_LINE + (CRLF + message);
    LineReadsBack(STATUS_LINE, message);
    BodyLinesFacts(body);
    LinesReadBack(BodyLines(body), rest);
  }

  lemma BodyLinesFacts(body: string)
    ensures BodyLines(body) != [] && forall l | l in BodyLines(body) :: '\n' !in l
  {
    SplitHasNoSeparator(UnifyNewlines(body), '\n');
  }

  // The command loop

  /** Configuration, and the library calls left open: upper-casing and reading a number. */
  datatype Config = Config(acceptAfter: int, accepted: set<string>,
                           upper: string -> string, parseInt: string -> Option<int>)

  datatype Credential = Credential(username: string, password: string, accepted: bool)

  datatype Session = Session(user: Option<string>, authed: bool, attempts: nat,
                             bodies: seq<string>, credentials: seq<Credential>)

  datatype Response =
    | UserOk(name: string)
    | PassOk(count: nat)
    | PassRejected
    | NotAllowed
    | Stat(count: nat, total: nat)
    | Listing(sizes: seq<nat>)
    | UniqueIds(count: nat)
    | Message(text: string)
    | NoSuchMessage
    | Done
    | Capabilities
    | Bye
    | Unknown

  /** One line from the client, and what the model would make of a message asked for by it. */
  datatype Input = Input(text: string, generated: Option<string>)

  /** `text.split(" ", 1)` */
  function Words2(text: string): (string, string) {
    var i := SpaceAt(text);
    if i == |text| then (text, "") else (text[..i], text[i + 1..])
  }

  function SpaceAt(s: string): (i: nat)
    ensures i <= |s|
  {
    if s == "" || s[0] == ' ' then 0 else 1 + SpaceAt(s[1..])
  }

  function CommandOf(cfg: Config, input: Input): string {
    cfg.upper(Words2(input.text).0)
  }

  function ArgumentOf(input: Input): string {
    Words2(input.text).1
  }

  /** `f"{user}:{arg}"`, which prints an unset user as None. */
  function CredentialText(user: Option<string>, password: string): string {
    user.GetOr("None") + ":" + password
  }

  function Sizes(bodies: seq<string>): seq<nat> {
    if bodies == [] then [] else [|bodies[0]|] + Sizes(bodies[1..])
  }

  function Sum(ns: seq<nat>): nat {
    if ns == [] then 0 else ns[0] + Sum(ns[1..])
  }

  function TotalSize(bodies: seq<string>): nat {
    if bodies == [] then 0 else |bodies[0]| + TotalSize(bodies[1..])
  }

  /** `_retr`: a generated text replaces the body for good. */
  function Retrieve(cfg: Config, s: Session, input: Input): (Session, Response) {
    var n := cfg.parseInt(ArgumentOf(input));
    if n.None? || n.value < 1 || n.value > |s.bodies| then (s, NoSuchMessage)
    else
      var i := n.value - 1;
      var text := input.generated.GetOr("");
      if text == "" then (s, Message(MessageReply(s.bodies[i])))
      else
        var body := if text[|text| - 1] == '\n' then text else text + CRLF;
        (s.(bodies := s.bodies[i := body]), Message(MessageReply(body)))
  }

  function Pass(cfg: Config, s: Session, password: string): (Session, Response) {
    var attempts := s.attempts + 1;
    var accepted := CredentialText(s.user, password) in cfg.accepted || attempts >= cfg.acceptAfter;
    (s.(attempts := attempts, authed := s.authed || accepted,
        credentials := s.credentials + [Credential(s.user.GetOr(""), password, accepted)]),
     if accepted then PassOk(|s.bodies|) else PassRejected)
  }

  /** One command. */
  function Answer(cfg: Config, s: Session, input: Input): (Session, Response) {
    var cmd, arg := CommandOf(cfg, input), ArgumentOf(input);
    if cmd == "USER" then (s.(user := Some(arg)), UserOk(arg))
    else if cmd == "PASS" then Pass(cfg, s, arg)
    else if !s.authed && cmd != "QUIT" && cmd != "CAPA" then (s, NotAllowed)
    else if cmd == "STAT" then (s, Stat(|s.bodies|, TotalSize(s.bodies)))
    else if cmd == "LIST" then (s, Listing(Sizes(s.bodies)))
    else if cmd == "UIDL" then (s, UniqueIds(|s.bodies|))
    else if cmd == "RETR" || cmd == "TOP" then Retrieve(cfg, s, input)
    else if cmd == "DELE" || cmd == "NOOP" || cmd == "RSET" then (s, Done)
    else if cmd == "CAPA" then (s, Capabilities)
    else if cmd == "QUIT" then (s, Bye)
    else (s, Unknown)
  }

  /** The loop: empty lines are skipped and QUIT is the last command answered. */
  function Serve(cfg: Config, s: Session, inputs: seq<Input>): (Session, seq<Response>)
    decreases |inputs|
  {
    if inputs == [] then (s, [])
    else if inputs[0].text == "" then Serve(cfg, s, inputs[1..])
    else
      var (s', response) := Answer(cfg, s, inputs[0]);
      if CommandOf(cfg, inputs[0]) == "QUIT" then (s', [response])
      else
        var (end, rest) := Serve(cfg, s', inputs[1..]);
        (end, [response] + rest)
  }

  method Handle(cfg: Config, bodies: seq<string>, inputs: seq<Input>) returns (end: Session, responses: seq<Response>)
    ensures (end, responses) == Serve(cfg, Session(None, false, 0, bodies, []), inputs)
  {
    hide Answer, CommandOf;
    var s := Session(None, false, 0, bodies, []);
    responses := [];
    assert inputs[0..] == inputs;
    ghost var goal := Serve(cfg, s, inputs);
    assert [] + goal.1 == goal.1;
    for i := 0 to |inputs|
      invariant goal == (Serve(cfg, s, inputs[i..]).0, responses + Serve(cfg, s, inputs[i..]).1)
    {
      assert inputs[i..][1..] == inputs[i + 1..];
      if inputs[i].text == "" {
        continue;
      }
      var (s', response) := Answer(cfg, s, inputs[i]);
      ghost var rest := Serve(cfg, s', inputs[i + 1..]).1;
      assert responses + ([response] + rest) == responses + [response] + rest;
      s := s';
      responses := responses + [response];
      if CommandOf(cfg, inputs[i]) == "QUIT" {
        return s, responses;
      }
    }
    assert responses + [] == responses;
    end := s;
  }

  // What holds over every session

  ghost predicate SomeAccepted(credentials: seq<Credential>) {
    exists i | 0 <= i < |credentials| :: credentials[i].accepted
  }

  /** A session is logged in exactly when some recorded attempt was accepted, and the attempt that
      completes the configured number always is. */
  ghost predicate Inv(cfg: Config, s: Session) {
    && s.attempts == |s.credentials|
    && (s.authed <==> SomeAccepted(s.credentials))
    && (forall i | 0 <= i < |s.credentials| && i + 1 >= cfg.acceptAfter :: s.credentials[i].accepted)
  }

  /** The passwords of the PASS lines the loop reads, in order. */
  function Passwords(cfg: Config, inputs: seq<Input>): seq<string>
    decreases |inputs|
  {
    if inputs == [] then []
    else if inputs[0].text == "" then Passwords(cfg, inputs[1..])
    else if CommandOf(cfg, inputs[0]) == "QUIT" then []
    else
      (if CommandOf(cfg, inputs[0]) == "PASS" then [ArgumentOf(inputs[0])] else [])
      + Passwords(cfg, inputs[1..])
  }

  function PasswordsOf(credentials: seq<Credential>): seq<string> {
    if credentials == [] then [] else [credentials[0].password] + PasswordsOf(credentials[1..])
  }

  lemma {:induction false} PasswordsOfAppend(a: seq<Credential>, c: Credential)
    ensures PasswordsOf(a + [c]) == PasswordsOf(a) + [c.password]
  {
    if a == [] {
      assert [c][1..] == [] && a + [c] == [c];
    } else {
      assert (a + [c])[1..] == a[1..] + [c];
      PasswordsOfAppend(a[1..], c);
    }
  }

  lemma PassKeepsInv(cfg: Config, s: Session, password: string)
    requires Inv(cfg, s)
    ensures Inv(cfg, Pass(cfg, s, password).0)
  {
    var s' := Pass(cfg, s, password).0;
    forall i | 0 <= i < |s.credentials| ensures s'.credentials[i] == s.credentials[i] {}
    if s.authed {
      var i :| 0 <= i < |s.credentials| && s.credentials[i].accepted;
      assert s'.credentials[i].accepted;
    }
    if s'.credentials[|s.credentials|].accepted { assert SomeAccepted(s'.credentials); }
  }

  /** A password sent before any user name is looked for as that of the user "None", and recorded for "". */
  lemma UnsetUserIsNone(cfg: Config, s: Session, password: string)
    requires s.user.None?
    ensures var s' := Pass(cfg, s, password).0; var last := s'.credentials[|s.credentials|];
      && last.username == ""
      && (last.accepted <==> "None:" + password in cfg.accepted || s.attempts + 1 >= cfg.acceptAfter)
  {
    assert "None" + ":" + password == "None:" + password;
  }

  lemma AnswerKeeps(cfg: Config, s: Session, input: Input)
    requires Inv(cfg, s)
    ensures var (s', r) := Answer(cfg, s, input);
      var cmd := CommandOf(cfg, input);
      && Inv(cfg, s') && |s'.bodies| == |s.bodies| && (s.authed ==> s'.authed)
      && (cmd == "PASS" ==> PasswordsOf(s'.credentials) == PasswordsOf(s.credentials) + [ArgumentOf(input)])
      && (cmd != "PASS" ==> s'.credentials == s.credentials)
      && (!s.authed && cmd != "USER" && cmd != "PASS" && cmd != "QUIT" && cmd != "CAPA" ==> r == NotAllowed && s' == s)
      && (r == NotAllowed ==> !s.authed)
  {
    hide CommandOf, ArgumentOf, MessageReply, TotalSize, Sizes, Inv;
    PassKeepsInv(cfg, s, ArgumentOf(input));
    var c := Pass(cfg, s, ArgumentOf(input)).0.credentials[|s.credentials|];
    PasswordsOfAppend(s.credentials, c);
    if CommandOf(cfg, input) != "PASS" {
      InvNeeds(cfg, s, Answer(cfg, s, input).0);
    }
  }

  lemma InvNeeds(cfg: Config, s: Session, s': Session)
    requires Inv(cfg, s) && s'.attempts == s.attempts && s'.authed == s.authed && s'.credentials == s.credentials
    ensures Inv(cfg, s')
  {
  }

  /** Over every session: the log-in flag never falls back, it is set exactly when an attempt was
      accepted, by the configured number of attempts at the latest; the attempts recorded are exactly
      the PASS lines in order; and the mailbox keeps its size. */
  lemma {:induction false} SessionsKeep(cfg: Config, s: Session, inputs: seq<Input>)
    requires Inv(cfg, s)
    ensures var end := Serve(cfg, s, inputs).0;
      && Inv(cfg, end) && |end.bodies| == |s.bodies| && (s.authed ==> end.authed)
      && PasswordsOf(end.credentials) == PasswordsOf(s.credentials) + Passwords(cfg, inputs)
      && (cfg.acceptAfter >= 1 && |end.credentials| >= cfg.acceptAfter ==> end.authed)
    decreases |inputs|
  {
    hide Answer, CommandOf, ArgumentOf, PasswordsOf;
    if inputs == [] {
      assert PasswordsOf(s.credentials) + [] == PasswordsOf(s.credentials);
      LateAttempt(cfg, s);
    } else if inputs[0].text == "" {
      SessionsKeep(cfg, s, inputs[1..]);
    } else {
      hide Inv;
      AnswerKeeps(cfg, s, inputs[0]);
      var s' := Answer(cfg, s, inputs[0]).0;
      if CommandOf(cfg, inputs[0]) == "QUIT" {
        assert PasswordsOf(s.credentials) + [] == PasswordsOf(s.credentials);
        LateAttempt(cfg, s');
      } else {
        SessionsKeep(cfg, s', inputs[1..]);
        var now := if CommandOf(cfg, inputs[0]) == "PASS" then [ArgumentOf(inputs[0])] else [];
        var before, later := PasswordsOf(s.credentials), Passwords(cfg, inputs[1..]);
        assert PasswordsOf(s'.credentials) == before + now;
        assert before + now + later == before + (now + later);
      }
    }
  }

  lemma LateAttempt(cfg: Config, s: Session)
    requires Inv(cfg, s)
    ensures cfg.acceptAfter >= 1 && |s.credentials| >= cfg.acceptAfter ==> s.authed
  {
    if cfg.acceptAfter >= 1 && |s.credentials| >= cfg.acceptAfter {
      assert s.credentials[cfg.acceptAfter - 1].accepted;
    }
  }

  /** The commands a session answers, in order. */
  function Commands(cfg: Config, inputs: seq<Input>): seq<string>
    decreases |inputs|
  {
    if inputs == [] then []
    else if inputs[0].text == "" then Commands(cfg, inputs[1..])
    else
      var cmd := CommandOf(cfg, inputs[0]);
      [cmd] + if cmd == "QUIT" then [] else Commands(cfg, inputs[1..])
  }

  predicate NeedsLogin(cmd: string) {
    cmd != "USER" && cmd != "PASS" && cmd != "QUIT" && cmd != "CAPA"
  }

  ghost predicate LoggedInBy(responses: seq<Response>) {
    exists i | 0 <= i < |responses| :: responses[i].PassOk?
  }

  lemma AnswerGates(cfg: Config, s: Session, input: Input)
    ensures var (s', r) := Answer(cfg, s, input);
      && (r == NotAllowed <==> !s.authed && NeedsLogin(CommandOf(cfg, input)))
      && (s'.authed <==> s.authed || r.PassOk?)
  {
    hide CommandOf, ArgumentOf, MessageReply, TotalSize, Sizes, CredentialText;
  }

  /** Over a whole session each command has its response, and the ones refused are exactly the commands
      that need a login and come before the first PASS that was accepted. */
  lemma {:induction false} RefusedUntilLogin(cfg: Config, s: Session, inputs: seq<Input>)
    ensures var responses, commands := Serve(cfg, s, inputs).1, Commands(cfg, inputs);
      && |responses| == |commands|
      && forall i | 0 <= i < |responses| ::
        responses[i] == NotAllowed <==> NeedsLogin(commands[i]) && !s.authed && !LoggedInBy(responses[..i])
    decreases |inputs|
  {
    hide Answer, CommandOf, NeedsLogin;
    if inputs != [] && inputs[0].text == "" {
      RefusedUntilLogin(cfg, s, inputs[1..]);
    } else if inputs != [] {
      var (s', r) := Answer(cfg, s, inputs[0]);
      AnswerGates(cfg, s, inputs[0]);
      var responses := Serve(cfg, s, inputs).1;
      if CommandOf(cfg, inputs[0]) != "QUIT" {
        RefusedUntilLogin(cfg, s', inputs[1..]);
        var rest := Serve(cfg, s', inputs[1..]).1;
        assert responses == [r] + rest;
        forall i | 0 < i < |responses|
          ensures LoggedInBy(responses[..i]) <==> r.PassOk? || LoggedInBy(rest[..i - 1])
        {
          OneMoreResponse(r, rest, i);
        }
      }
      assert responses[..0] == [];
    }
  }

  lemma OneMoreResponse(r: Response, rest: seq<Response>, i: nat)
    requires 0 < i <= |rest|
    ensures LoggedInBy(([r] + rest)[..i]) <==> r.PassOk? || LoggedInBy(rest[..i - 1])
  {
    var all := ([r] + rest)[..i];
    assert all == [r] + rest[..i - 1];
    assert all[0] == r;
    if LoggedInBy(rest[..i - 1]) {
      var j :| 0 <= j < i - 1 && rest[j].PassOk?;
      assert all[j + 1].PassOk?;
    }
  }

  /** STAT agrees with LIST whenever both are answered in the same state. */
  lemma {:induction false} StatIsSumOfList(bodies: seq<string>)
    ensures TotalSize(bodies) == Sum(Sizes(bodies)) && |Sizes(bodies)| == |bodies|
  {
    if bodies != [] {
      StatIsSumOfList(bodies[1..]);
      assert Sizes(bodies)[1..] == Sizes(bodies[1..]);
    }
  }
}
