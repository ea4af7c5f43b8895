/**
 * The chat room of protohacker3 ("budgetchat") as a sequential state machine.
 *
 * A `Room` holds the registry, from each admitted name to the log of everything written to that
 * client's connection, and the channel of events from the connection workers to the single
 * broadcaster, as a FIFO queue. The workers' steps (`Handshake`, `RoomDescription`, `Register`,
 * `Post`, `Leave`) and the broadcaster's step (`ProcessOne`) are separate methods, each one lock
 * section of the source, so any interleaving of them is a sequence of method calls.
 */
module Chat {
  import opened Bytes
  import opened Stream
  import LineFramer

  type Name = Bytes

  const WELCOME_MESSAGE: Bytes := Lit("Welcome to budgetchat! What shall I call you?\n")
  const ROSTER_PREFIX: Bytes := Lit("*Welcome. Users in room: ")

  datatype Event = Joined(user: Name) | Left(user: Name) | Sent(user: Name, text: Bytes)

  datatype HandshakeError = Framing(cause: LineFramer.FrameError) | InvalidUsername

  // ---------------------------------------------------------------------------------------------
  // Usernames

  predicate IsAsciiAlphanumeric(b: byte)
  {
    48 <= b <= 57 || 65 <= b <= 90 || 97 <= b <= 122
  }

  predicate IsAscii(s: Bytes)
  {
    forall i :: 0 <= i < |s| ==> s[i] < 128
  }

  /** `validate_username`: non-empty, ASCII, and every character a letter or a digit. */
  function ValidateUsername(s: Bytes): (ok: bool)
    ensures ok <==> |s| > 0 && forall i :: 0 <= i < |s| ==> IsAsciiAlphanumeric(s[i])
  {
    if s == [] then false
    else if !IsAscii(s) then false
    else AlphanumericAt(s)
  }

  /** `s.chars().all(|x| x.is_alphanumeric())` once `s` is known to be ASCII, byte by byte. */
  function AlphanumericAt(s: Bytes): (ok: bool)
    ensures ok <==> forall i :: 0 <= i < |s| ==> IsAsciiAlphanumeric(s[i])
  {
    if s == [] then true
    else
      var rest := AlphanumericAt(s[1..]);
      assert forall i :: 1 <= i < |s| ==> s[i] == s[1..][i - 1];
      IsAsciiAlphanumeric(s[0]) && rest
  }

  /** Names that show each rule: empty, a space, an underscore, a non-ASCII letter, and a valid one. */
  lemma UsernameExamples()
    ensures !ValidateUsername([])
    ensures !ValidateUsername([97, 32, 98])  // "a b"
    ensures !ValidateUsername([97, 95, 98])  // "a_b"
    ensures !ValidateUsername([104, 195, 169, 108, 108, 111])  // "héllo" in UTF-8
    ensures ValidateUsername([97, 108, 105, 99, 101, 49, 50, 51])  // "alice123"
  {
    RejectedAt([97, 32, 98], 1);
    RejectedAt([97, 95, 98], 1);
    RejectedAt([104, 195, 169, 108, 108, 111], 1);
    var alice: Bytes := [97, 108, 105, 99, 101, 49, 50, 51];
    assert forall i :: 0 <= i < |alice| ==> IsAsciiAlphanumeric(alice[i]);
  }

  /** One byte that is not a letter or a digit makes a name invalid. */
  lemma RejectedAt(s: Bytes, i: nat)
    requires i < |s| && !IsAsciiAlphanumeric(s[i])
    ensures !ValidateUsername(s)
  {
  }

  // ---------------------------------------------------------------------------------------------
  // What the broadcaster writes

  const ANNOUNCE: Bytes := Lit("* ")
  const JOINED_TEXT: Bytes := Lit(" has joined the room")
  const LEFT_TEXT: Bytes := Lit(" has left the room")
  const JOINED_TAIL: Bytes := JOINED_TEXT + [NL]
  const LEFT_TAIL: Bytes := LEFT_TEXT + [NL]
  const OPEN: Bytes := Lit("[")
  const CLOSE: Bytes := Lit("] ")

  /** The rendering match of `sender_thread`. */
  function Render(e: Event): Bytes
  {
    match e
    case Joined(u) => ANNOUNCE + u + JOINED_TAIL
    case Left(u) => ANNOUNCE + u + LEFT_TAIL
    case Sent(u, t) => OPEN + u + CLOSE + t + [NL]
  }
  /** An event a worker can produce: a valid name, and a chat text that is one line. */
  predicate WellFormed(e: Event)
  {
    ValidateUsername(e.user) && (e.Sent? ==> NL !in e.text)
  }

  /** Every rendered event is exactly one line on the wire. */
  lemma RenderIsOneLine(e: Event)
    requires WellFormed(e)
    ensures var m := Render(e); |m| > 0 && m[|m| - 1] == NL && NL !in m[..|m| - 1]
  {
    FixedTextsOnOneLine();
    NameOnOneLine(e.user);
    match e
    case Joined(u) => EndsLine(ANNOUNCE + u + JOINED_TEXT, Render(e));
    case Left(u) => EndsLine(ANNOUNCE + u + LEFT_TEXT, Render(e));
    case Sent(u, t) => EndsLine(OPEN + u + CLOSE + t, Render(e));
  }

  lemma FixedTextsOnOneLine()
    ensures NL !in ANNOUNCE && NL !in JOINED_TEXT && NL !in LEFT_TEXT && NL !in OPEN && NL !in CLOSE
  {
    LitExcludes("* ", '\n');
    LitExcludes(" has joined the room", '\n');
    LitExcludes(" has left the room", '\n');
    LitExcludes("[", '\n');
    LitExcludes("] ", '\n');
  }

  lemma NameOnOneLine(u: Name)
    requires ValidateUsername(u)
    ensures NL !in u
  {
  }

  /** A text without a newline, followed by one, is a single line. */
  lemma EndsLine(body: Bytes, m: Bytes)
    requires NL !in body && m == body + [NL]
    ensures |m| > 0 && m[|m| - 1] == NL && NL !in m[..|m| - 1]
  {
    assert m[..|m| - 1] == body;
  }

  /** A valid name followed by a byte that is not a letter or digit ends at that byte. */
  lemma NameEndsAt(u: Name, rest: Bytes, b: byte)
    requires ValidateUsername(u) && |rest| > 0 && rest[0] == b && !IsAsciiAlphanumeric(b)
    ensures FirstIndex(u + rest, b) == Some(|u|)
  {
    var s := u + rest;
    assert s[..|u|] == u;
    FirstIndexIs(s, b, |u|);
  }

  /** A valid name and what follows it separate at the first byte that is not a letter or digit. */
  lemma SplitAtName(u1: Name, r1: Bytes, u2: Name, r2: Bytes, b: byte)
    requires ValidateUsername(u1) && ValidateUsername(u2) && !IsAsciiAlphanumeric(b)
    requires |r1| > 0 && r1[0] == b && |r2| > 0 && r2[0] == b
    requires u1 + r1 == u2 + r2
    ensures u1 == u2 && r1 == r2
  {
    NameEndsAt(u1, r1, b);
    NameEndsAt(u2, r2, b);
    assert u1 == (u1 + r1)[..|u1|];
    assert u2 == (u2 + r2)[..|u2|];
    assert r1 == (u1 + r1)[|u1|..];
    assert r2 == (u2 + r2)[|u2|..];
  }

  lemma SentInjective(u1: Name, t1: Bytes, u2: Name, t2: Bytes)
    requires ValidateUsername(u1) && ValidateUsername(u2)
    requires Render(Sent(u1, t1)) == Render(Sent(u2, t2))
    ensures u1 == u2 && t1 == t2
  {
    var m := Render(Sent(u1, t1));
    var r1, r2 := CLOSE + t1 + [NL], CLOSE + t2 + [NL];
    assert m == OPEN + (u1 + r1) == OPEN + (u2 + r2);
    assert u1 + r1 == m[1..] == u2 + r2;
    SplitAtName(u1, r1, u2, r2, 93);
    assert t1 == r1[2..|r1| - 1];
    assert t2 == r2[2..|r2| - 1];
  }

  lemma AnnounceInjective(u1: Name, r1: Bytes, u2: Name, r2: Bytes)
    requires ValidateUsername(u1) && ValidateUsername(u2)
    requires |r1| > 0 && r1[0] == SPACE && |r2| > 0 && r2[0] == SPACE
    requires ANNOUNCE + u1 + r1 == ANNOUNCE + u2 + r2
    ensures u1 == u2 && r1 == r2
  {
    var m := ANNOUNCE + u1 + r1;
    assert u1 + r1 == m[2..] == u2 + r2;
    SplitAtName(u1, r1, u2, r2, SPACE);
  }

  /** What follows the name in a join or leave announcement. */
  function Tail(e: Event): Bytes
    requires !e.Sent?
  {
    if e.Joined? then JOINED_TAIL else LEFT_TAIL
  }

  /** Rendering loses nothing: a recipient can tell exactly which event produced a line. */
  lemma RenderInjective(e1: Event, e2: Event)
    requires WellFormed(e1) && WellFormed(e2)
    requires Render(e1) == Render(e2)
    ensures e1 == e2
  {
    assert Render(e1)[0] == (if e1.Sent? then 91 else 42);
    assert Render(e2)[0] == (if e2.Sent? then 91 else 42);
    if e1.Sent? {
      SentInjective(e1.user, e1.text, e2.user, e2.text);
    } else {
      assert Render(e1) == ANNOUNCE + e1.user + Tail(e1);
      assert Render(e2) == ANNOUNCE + e2.user + Tail(e2);
      AnnounceInjective(e1.user, Tail(e1), e2.user, Tail(e2));
      assert |JOINED_TAIL| == 21 && |LEFT_TAIL| == 19;
    }
  }

  // ---------------------------------------------------------------------------------------------
  // The roster sent to a new member

  /** `keys().fold(String::new(), |acc, ele| acc + ", " + ele)` over the names in iteration order. */
  function JoinNames(names: seq<Name>): Bytes
  {
    if names == [] then []
    else JoinNames(names[..|names| - 1]) + Lit(", ") + names[|names| - 1]
  }

  /** `send_room_description`'s message for the names in the registry's iteration order. */
  function Roster(names: seq<Name>): Bytes
  {
    ROSTER_PREFIX + JoinNames(names) + [NL]
  }

  /** Reads the names back out of a roster list: each is introduced by ", " and ends at a comma. */
  function SplitNames(s: Bytes): seq<Name>
    decreases |s|
  {
    if |s| < 2 then []
    else
      var body := s[2..];
      match FirstIndex(body, COMMA)
      case None => [body]
      case Some(i) => [body[..i]] + SplitNames(body[i..])
  }

  /** The names a roster message lists. */
  function RosterNames(r: Bytes): seq<Name>
    requires |r| > |ROSTER_PREFIX|
  {
    SplitNames(r[|ROSTER_PREFIX|..|r| - 1])
  }

  /** The left fold read from the front: the first name comes first, after its ", ". */
  lemma {:induction false} JoinNamesCons(x: Name, t: seq<Name>)
    ensures JoinNames([x] + t) == Lit(", ") + x + JoinNames(t)
    decreases |t|
  {
    if t != [] {
      var xt := [x] + t;
      assert xt[..|xt| - 1] == [x] + t[..|t| - 1];
      JoinNamesCons(x, t[..|t| - 1]);
    }
  }

  /** Splitting the joined list of valid names gives back the names (valid names have no comma). */
  lemma {:induction false} SplitJoinNames(names: seq<Name>)
    requires forall i :: 0 <= i < |names| ==> ValidateUsername(names[i])
    ensures SplitNames(JoinNames(names)) == names
    decreases |names|
  {
    if names != [] {
      var x, t := names[0], names[1..];
      assert names == [x] + t;
      JoinNamesCons(x, t);
      if t != [] {
        JoinNamesCons(t[0], t[1..]);
        assert [t[0]] + t[1..] == t;
      }
      SplitStep(x, JoinNames(t));
      SplitJoinNames(t);
    }
  }

  /** One name of the list: ", " `x`, then either nothing or the next ", ". */
  lemma SplitStep(x: Name, j: Bytes)
    requires ValidateUsername(x) && (j == [] || j[0] == COMMA)
    ensures SplitNames(Lit(", ") + x + j) == [x] + SplitNames(j)
  {
    var s := Lit(", ") + x + j;
    assert s[2..] == x + j;
    if j == [] {
      assert x + j == x;
      assert COMMA !in x;
    } else {
      NameEndsAt(x, j, COMMA);
      assert (x + j)[|x|..] == j;
      assert (x + j)[..|x|] == x;
    }
  }

  /** The roster lists exactly the names it was computed from, in the same order. */
  lemma RosterRoundTrip(names: seq<Name>)
    requires forall i :: 0 <= i < |names| ==> ValidateUsername(names[i])
    ensures |Roster(names)| > |ROSTER_PREFIX|
    ensures RosterNames(Roster(names)) == names
  {
    var r := Roster(names);
    assert r[|ROSTER_PREFIX|..|r| - 1] == JoinNames(names);
    SplitJoinNames(names);
  }

  /** An empty room is described as "*Welcome. Users in room: \n"; one member gets a leading ", ". */
  lemma RosterExamples(alice: Name)
    ensures Roster([]) == Lit("*Welcome. Users in room: \n")
    ensures Roster([alice]) == Lit("*Welcome. Users in room: , ") + alice + [NL]
  {
    var noNames: seq<Name> := [];
    assert [alice][..0] == noNames;
  }

  /** `order` is an iteration order of the key set `keys`: each key exactly once. */
  ghost predicate Enumerates(order: seq<Name>, keys: set<Name>)
  {
    && (forall i, j :: 0 <= i < j < |order| ==> order[i] != order[j])
    && (forall n :: n in order <==> n in keys)
  }

  // ---------------------------------------------------------------------------------------------
  // Fan-out, and what the whole event sequence does to the members' logs

  /** `send_to_all_but`: `message` appended once to every log but that of `but`. */
  function FanOut(clients: map<Name, seq<Bytes>>, message: Bytes, but: Name): map<Name, seq<Bytes>>
  {
    map n | n in clients :: if n == but then clients[n] else clients[n] + [message]
  }

  /** The broadcaster processing `events` in order against a fixed registry. */
  function Broadcast(clients: map<Name, seq<Bytes>>, events: seq<Event>): map<Name, seq<Bytes>>
    decreases |events|
  {
    if events == [] then clients
    else Broadcast(FanOut(clients, Render(events[0]), events[0].user), events[1..])
  }

  /** What `member` receives from `events`: every event it did not originate, in channel order. */
  function Observed(events: seq<Event>, member: Name): seq<Bytes>
    decreases |events|
  {
    if events == [] then []
    else (if events[0].user == member then [] else [Render(events[0])]) + Observed(events[1..], member)
  }

  /**
   * Total order and self-exclusion: a member present for a run of events receives exactly the
   * events others originated, each once, in the order they entered the channel.
   */
  lemma {:induction false} BroadcastOrder(clients: map<Name, seq<Bytes>>, events: seq<Event>, member: Name)
    requires member in clients
    ensures Broadcast(clients, events).Keys == clients.Keys
    ensures Broadcast(clients, events)[member] == clients[member] + Observed(events, member)
    decreases |events|
  {
    if events != [] {
      var e := events[0];
      var next := FanOut(clients, Render(e), e.user);
      FanOutMember(clients, Render(e), e.user, member);
      BroadcastOrder(next, events[1..], member);
      var own: seq<Bytes> := if e.user == member then [] else [Render(e)];
      assert Observed(events, member) == own + Observed(events[1..], member);
      AppendAssoc(clients[member], own, Observed(events[1..], member));
    }
  }


  /** One fan-out keeps the registry's names and appends the message to `member`'s log unless it is `but`. */
  lemma FanOutMember(clients: map<Name, seq<Bytes>>, message: Bytes, but: Name, member: Name)
    requires member in clients
    ensures FanOut(clients, message, but).Keys == clients.Keys
    ensures FanOut(clients, message, but)[member] ==
      clients[member] + (if member == but then [] else [message])
  {
    assert clients[member] + [] == clients[member];
  }

  /**
   * A member never receives the rendering of its own events: it receives one line per event of
   * the others, and, when every event is well-formed, no line that renders one of its own.
   */
  lemma ObservedExcludesOwn(events: seq<Event>, member: Name)
    ensures |Observed(events, member)| == |events| - CountBy(events, member)
    ensures (forall i :: 0 <= i < |events| ==> WellFormed(events[i])) ==>
      forall i :: 0 <= i < |events| && events[i].user == member ==> Render(events[i]) !in Observed(events, member)
  {
    ObservedCount(events, member);
    if forall i :: 0 <= i < |events| ==> WellFormed(events[i]) {
      forall i | 0 <= i < |events| && events[i].user == member
        ensures Render(events[i]) !in Observed(events, member)
      {
        if Render(events[i]) in Observed(events, member) {
          var j := ObservedFrom(events, member, Render(events[i]));
          RenderInjective(events[j], events[i]);
        }
      }
    }
  }

  /** One line per event of the others. */
  lemma {:induction false} ObservedCount(events: seq<Event>, member: Name)
    ensures |Observed(events, member)| == |events| - CountBy(events, member)
    decreases |events|
  {
    if events != [] {
      ObservedCount(events[1..], member);
    }
  }

  /** Every line a member observes is the rendering of an event someone else originated. */
  lemma {:induction false} ObservedFrom(events: seq<Event>, member: Name, line: Bytes) returns (j: nat)
    requires line in Observed(events, member)
    ensures j < |events| && events[j].user != member && Render(events[j]) == line
    decreases |events|
  {
    if events[0].user != member && line == Render(events[0]) {
      return 0;
    }
    assert Observed(events, member)
        == (if events[0].user == member then [] else [Render(events[0])]) + Observed(events[1..], member);
    var k := ObservedFrom(events[1..], member, line);
    j := k + 1;
  }

  /** How many of `events` `member` originated. */
  function CountBy(events: seq<Event>, member: Name): (c: nat)
    ensures c <= |events|
    decreases |events|
  {
    if events == [] then 0
    else (if events[0].user == member then 1 else 0) + CountBy(events[1..], member)
  }

  /** The `Sent` events of `user` for the lines it sent, in order. */
  function SentAll(user: Name, lines: seq<Bytes>): (r: seq<Event>)
    ensures |r| == |lines| && forall i :: 0 <= i < |lines| ==> r[i] == Sent(user, lines[i])
  {
    seq(|lines|, i requires 0 <= i < |lines| => Sent(user, lines[i]))
  }

  lemma SentAllAppend(user: Name, lines: seq<Bytes>, line: Bytes)
    ensures SentAll(user, lines + [line]) == SentAll(user, lines) + [Sent(user, line)]
  {
  }

  /** Registering a name that was absent and then removing it restores the registry. */
  lemma AddThenRemove(m: map<Name, seq<Bytes>>, name: Name, log: seq<Bytes>)
    requires name !in m
    ensures m[name := log] - {name} == m
  {
  }

  // ---------------------------------------------------------------------------------------------
  // The room

  class Room {
    /** The registry: each admitted name with the log of all that was written to its connection. */
    var clients: map<Name, seq<Bytes>>
    /** The channel from the workers to the broadcaster, oldest event first. */
    var queue: seq<Event>

    ghost predicate Valid()
      reads this
    {
      && (forall n :: n in clients ==> ValidateUsername(n))
      && (forall i :: 0 <= i < |queue| ==> WellFormed(queue[i]))
    }

    constructor ()
      ensures Valid() && clients == map[] && queue == []
    {
      clients := map[];
      queue := [];
    }

    /**
     * `handshake`: read the proposed name and accept it only if it is valid and not currently
     * registered. The registry is only looked at: rejection leaves the room as it was.
     */
    method Handshake(input: seq<Read>) returns (result: Result<Name, HandshakeError>, rest: seq<Read>)
      ensures rest == LineFramer.ReadLineSpec(input).1
      ensures var line := LineFramer.ReadLineSpec(input).0;
        && (line.Err? ==> result == Err(Framing(line.error)))
        && (line.Ok? ==>
              result == if ValidateUsername(line.value) && line.value !in clients then Ok(line.value)
                        else Err(InvalidUsername))
      ensures result.Ok? ==> ValidateUsername(result.value) && result.value !in clients
      ensures result.Ok? ==> result.value + [NL] <= Delivered(input)
    {
      var line;
      line, rest := LineFramer.ReadLine(input);
      LineFramer.ReadLineOkIsLine(input);
      match line
      case Err(e) =>
        result := Err(Framing(e));
      case Ok(name) =>
        if ValidateUsername(name) && name !in clients {
          result := Ok(name);
        } else {
          result := Err(InvalidUsername);
        }
    }

    /** `send_room_description`: the roster of the names registered now, in iteration order. */
    method RoomDescription(order: seq<Name>) returns (roster: Bytes)
      requires Valid() && Enumerates(order, clients.Keys)
      ensures |roster| > |ROSTER_PREFIX| && RosterNames(roster) == order
      ensures forall n :: n in RosterNames(roster) <==> n in clients
      ensures roster == Roster(order)
    {
      roster := ROSTER_PREFIX + JoinNames(order) + [NL];
      assert forall i :: 0 <= i < |order| ==> order[i] in clients;
      RosterRoundTrip(order);
    }

    /**
     * The insertion of `handle_stream`: register `name` with its connection, whose log so far is
     * the welcome prompt and the roster, and post `Joined`. A name already registered is
     * overwritten, as `HashMap::insert` does.
     */
    method Register(name: Name, roster: Bytes)
      requires Valid() && ValidateUsername(name)
      modifies this
      ensures clients == old(clients)[name := [WELCOME_MESSAGE, roster]]
      ensures queue == old(queue) + [Joined(name)]
      ensures Valid()
    {
      clients := clients[name := [WELCOME_MESSAGE, roster]];
      queue := queue + [Joined(name)];
    }

    /** Describe the room, then register: the two lock sections that follow a handshake. */
    method Admit(name: Name, order: seq<Name>) returns (roster: Bytes)
      requires Valid() && ValidateUsername(name) && Enumerates(order, clients.Keys)
      modifies this
      ensures roster == Roster(order) && |roster| > |ROSTER_PREFIX| && RosterNames(roster) == order
      ensures forall n :: n in RosterNames(roster) <==> n in old(clients)
      ensures name !in old(clients) ==> name !in RosterNames(roster)
      ensures clients == old(clients)[name := [WELCOME_MESSAGE, roster]]
      ensures queue == old(queue) + [Joined(name)]
      ensures Valid()
    {
      roster := RoomDescription(order);
      Register(name, roster);
    }

    /** The `Sent` event a worker posts for each line its client sends. */
    method Post(name: Name, text: Bytes)
      requires Valid() && ValidateUsername(name) && NL !in text
      modifies this
      ensures clients == old(clients)
      ensures queue == old(queue) + [Sent(name, text)]
      ensures Valid()
    {
      queue := queue + [Sent(name, text)];
    }

    /** Teardown: remove the name (`remove_entry(..).unwrap()` needs it present) and post `Left`. */
    method Leave(name: Name)
      requires Valid() && ValidateUsername(name) && name in clients
      modifies this
      ensures clients == old(clients) - {name}
      ensures queue == old(queue) + [Left(name)]
      ensures Valid()
    {
      clients := clients - {name};
      queue := queue + [Left(name)];
    }

    /** `send_to_all_but`: write `message` to every registered connection except `but`'s. */
    method SendToAllBut(message: Bytes, but: Name)
      modifies this
      ensures queue == old(queue)
      ensures clients.Keys == old(clients).Keys
      ensures but in clients ==> clients[but] == old(clients)[but]
      ensures forall n :: n in clients && n != but ==> clients[n] == old(clients)[n] + [message]
    {
      var pending := clients.Keys;
      while pending != {}
        invariant pending <= clients.Keys && clients.Keys == old(clients).Keys
        invariant queue == old(queue)
        invariant forall n :: n in clients ==>
          clients[n] == if n in pending || n == but then old(clients)[n] else old(clients)[n] + [message]
        decreases pending
      {
        var n :| n in pending;
        if n != but {
          clients := clients[n := clients[n] + [message]];
        }
        pending := pending - {n};
      }
    }

    /** One turn of `sender_thread`: take the oldest event and fan its rendering out. */
    method ProcessOne() returns (e: Event)
      requires Valid() && queue != []
      modifies this
      ensures e == old(queue)[0] && queue == old(queue)[1..]
      ensures clients == FanOut(old(clients), Render(e), e.user)
      ensures Valid()
    {
      e := queue[0];
      queue := queue[1..];
      SendToAllBut(Render(e), e.user);
      assert clients == FanOut(old(clients), Render(e), e.user);
    }

    /**
     * `receive_messages`: post a `Sent` event for every line until the framer fails, then leave.
     * The worker's events enter the channel in its own order and `Left` comes after all of them.
     */
    method ReceiveMessages(name: Name, input: seq<Read>)
      requires Valid() && ValidateUsername(name) && name in clients
      modifies this
      ensures clients == old(clients) - {name}
      ensures queue == old(queue) + SentAll(name, LineFramer.Lines(input)) + [Left(name)]
      ensures Valid()
    {
      var rest := input;
      ghost var posted: seq<Bytes> := [];
      while true
        invariant Valid() && clients == old(clients)
        invariant LineFramer.Lines(input) == posted + LineFramer.Lines(rest)
        invariant queue == old(queue) + SentAll(name, posted)
        decreases Size(rest)
      {
        var line, next := LineFramer.ReadLine(rest);
        if line.Err? {
          LineFramer.LinesStep(rest);
          assert posted + [] == posted;
          break;
        }
        LineFramer.ReadLineOkIsLine(rest);
        LineFramer.LinesAdvance(posted, rest);
        Post(name, line.value);
        SentAllAppend(name, posted, line.value);
        AppendAssoc(old(queue), SentAll(name, posted), [Sent(name, line.value)]);
        posted := posted + [line.value];
        rest := next;
      }
      Leave(name);
    }

    /**
     * `handle_stream` for one connection run to its end without other workers in between: a
     * rejected handshake changes nothing; an accepted one leaves the registry as it was and the
     * channel extended by `Joined`, the member's lines and `Left`.
     */
    method HandleStream(input: seq<Read>, order: seq<Name>) returns (result: Result<Name, HandshakeError>)
      requires Valid() && Enumerates(order, clients.Keys)
      modifies this
      ensures result.Err? ==> clients == old(clients) && queue == old(queue)
      ensures result.Ok? ==>
        && result.value !in old(clients)
        && clients == old(clients)
        && queue == old(queue) + [Joined(result.value)]
                  + SentAll(result.value, LineFramer.Lines(LineFramer.ReadLineSpec(input).1))
                  + [Left(result.value)]
      ensures Valid()
    {
      var rest;
      result, rest := Handshake(input);
      if result.Err? {
        return;
      }
      var name := result.value;
      ghost var before := clients;
      var roster := Admit(name, order);
      ReceiveMessages(name, rest);
      AddThenRemove(before, name, [WELCOME_MESSAGE, roster]);
    }

    /**
     * Admission with one member per name: the free-name check and the insertion in one step, so
     * two attempts for one name cannot both succeed.
     */
    method TryAdmit(name: Name, order: seq<Name>) returns (ok: bool, roster: Bytes)
      requires Valid() && Enumerates(order, clients.Keys)
      modifies this
      ensures ok == (ValidateUsername(name) && name !in old(clients))
      ensures ok ==> roster == Roster(order) && name !in RosterNames(roster)
      ensures ok ==> clients == old(clients)[name := [WELCOME_MESSAGE, roster]]
      ensures ok ==> queue == old(queue) + [Joined(name)]
      ensures !ok ==> clients == old(clients) && queue == old(queue)
      ensures Valid()
    {
      ok := ValidateUsername(name) && name !in clients;
      roster := [];
      if ok {
        roster := Admit(name, order);
      }
    }
  }

  /** The name both connections propose in the scenarios below. */
  const CAROL: Name := [99, 97, 114, 111, 108]  // "carol"

  /**
   * Two connections both send "carol" before either is registered: both handshakes accept, the
   * second roster lists "carol" to carol, one registry entry stands for two connections, and once
   * the first leaves the second's teardown finds no entry to remove.
   */
  method AdmissionRace() returns (first: Result<Name, HandshakeError>, second: Result<Name, HandshakeError>,
                                  secondRoster: Bytes, registeredAfterFirstLeaves: bool)
    ensures first == Ok(CAROL) && second == Ok(CAROL)
    ensures |secondRoster| > |ROSTER_PREFIX| && RosterNames(secondRoster) == [CAROL]
    ensures !registeredAfterFirstLeaves
  {
    var input := [Data(CAROL + [NL])];
    CarolIsValid();
    CarolSendsHerName();
    var room := new Room();
    var rest;
    first, rest := room.Handshake(input);
    second, rest := room.Handshake(input);
    assert first == Ok(CAROL) && second == Ok(CAROL);
    var firstRoster := room.Admit(CAROL, []);
    OnlyEntry(map[], CAROL, room.clients[CAROL]);
    secondRoster := room.Admit(CAROL, [CAROL]);
    assert |secondRoster| > |ROSTER_PREFIX| && RosterNames(secondRoster) == [CAROL];
    room.Leave(CAROL);
    registeredAfterFirstLeaves := CAROL in room.clients;
  }

  /** A registry holding one name is enumerated by that name alone. */
  lemma OnlyEntry(m: map<Name, seq<Bytes>>, name: Name, log: seq<Bytes>)
    requires m == map[]
    ensures m[name := log].Keys == {name} && Enumerates([name], m[name := log].Keys)
  {
  }

  lemma CarolIsValid()
    ensures ValidateUsername(CAROL)
  {
  }

  /** A connection whose first read is "carol\n" proposes the name "carol". */
  lemma CarolSendsHerName()
    ensures LineFramer.ReadLineSpec([Data(CAROL + [NL])]).0 == Ok(CAROL)
  {
    LineFramer.ReadLineDropsRestOfRead(CAROL, [], []);
    assert CAROL + [NL] + [] == CAROL + [NL];
    assert [Data(CAROL + [NL])] + [] == [Data(CAROL + [NL])];
  }

  /** The same two attempts through `TryAdmit`: exactly one is admitted. */
  method AtomicAdmission() returns (first: bool, second: bool)
    ensures first && !second
  {
    var room := new Room();
    CarolIsValid();
    var r;
    first, r := room.TryAdmit(CAROL, []);
    second, r := room.TryAdmit(CAROL, [CAROL]);
  }
}
