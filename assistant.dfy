/** The assistant object: its command tables, its liveness flag, one command at a
    time (`process_command`) and the listening session (`start`). Hearing is not
    modelled: a session is driven by the sequence of turns the recogniser would
    produce. */
module Assistant {
  import opened Wrappers
  import opened Text
  import opened Handlers
  import opened CommandTable
  import opened Builder
  import opened Resolver

  /** The name an assistant gets when none is given. */
  const DefaultName := "Assistant"

  /** The line spoken when the session starts. */
  function Intro(name: string): string
  {
    "Hello! I'm " + name + ", your voice assistant with over 5000 commands. How can I help you?"
  }

  /** One pass of the listening loop: what `listen` returned (`None` for a timeout or
      an unrecognised utterance) and what the clock and random source supply when the
      reply is computed. */
  datatype Turn = Turn(heard: Option<string>, env: Env)

  /** The loop only processes a turn in which something non-empty was heard. */
  predicate Heard(c: Turn)
  {
    c.heard.Some? && c.heard.value != ""
  }

  /** Processing turn `c` against table `t` runs the `stop` handler. */
  predicate StopsAt(t: Table, c: Turn)
  {
    Heard(c) && Stops(Resolve(t, c.heard))
  }

  predicate StopsWithin(t: Table, turns: seq<Turn>)
  {
    exists i | 0 <= i < |turns| :: StopsAt(t, turns[i])
  }

  /** What the loop of `start` says after its greeting, turn by turn: nothing for a
      turn with no input, the reply otherwise, and nothing more once a reply came from
      `stop`. */
  function Session(t: Table, name: string, turns: seq<Turn>): seq<string>
    decreases |turns|
  {
    if turns == [] then []
    else if !Heard(turns[0]) then Session(t, name, turns[1..])
    else
      var r := Resolve(t, turns[0].heard);
      [Reply(r, name, turns[0].env)] + (if Stops(r) then [] else Session(t, name, turns[1..]))
  }

  /** The reply to every turn with input, as if no command ever stopped the loop. */
  function Answers(t: Table, name: string, turns: seq<Turn>): (a: seq<string>)
    ensures |a| <= |turns|
    decreases |turns|
  {
    if turns == [] then []
    else if !Heard(turns[0]) then Answers(t, name, turns[1..])
    else [Reply(Resolve(t, turns[0].heard), name, turns[0].env)] + Answers(t, name, turns[1..])
  }

  /** The position of the first turn whose command stops the assistant. */
  function FirstStop(t: Table, turns: seq<Turn>): (r: Option<nat>)
    ensures r.Some? ==> r.value < |turns| && StopsAt(t, turns[r.value])
    ensures r.Some? ==> forall j :: 0 <= j < r.value ==> !StopsAt(t, turns[j])
    ensures r.None? <==> !StopsWithin(t, turns)
    decreases |turns|
  {
    if turns == [] then None
    else if StopsAt(t, turns[0]) then Some(0)
    else
      match FirstStop(t, turns[1..])
      case Some(k) =>
        assert forall j :: 1 <= j < k + 1 ==> turns[j] == turns[1..][j - 1];
        Some(k + 1)
      case None =>
        assert forall i | 1 <= i < |turns| :: turns[i] == turns[1..][i - 1];
        None
  }

  /** The session says the answers to the turns up to and including the first one that
      stops, and to all of them when none does. */
  lemma {:induction false} SessionUpToStop(t: Table, name: string, turns: seq<Turn>)
    ensures FirstStop(t, turns).Some? ==>
      Session(t, name, turns) == Answers(t, name, turns[..FirstStop(t, turns).value + 1])
    ensures FirstStop(t, turns).None? ==> Session(t, name, turns) == Answers(t, name, turns)
    decreases |turns|
  {
    if turns != [] {
      SessionUpToStop(t, name, turns[1..]);
      if StopsAt(t, turns[0]) {
        assert turns[..1] == [turns[0]];
        assert turns[..1][1..] == [];
      } else {
        match FirstStop(t, turns[1..])
        case Some(k) => StopFoundLater(t, name, turns, k);
        case None => StopNeverFound(t, name, turns);
      }
    }
  }

  /** The first stop comes after the first turn: both sides gain that turn's answer. */
  lemma StopFoundLater(t: Table, name: string, turns: seq<Turn>, k: nat)
    requires turns != [] && !StopsAt(t, turns[0]) && k < |turns| - 1
    requires Session(t, name, turns[1..]) == Answers(t, name, turns[1..][..k + 1])
    ensures Session(t, name, turns) == Answers(t, name, turns[..k + 2])
  {
    assert turns[..k + 2][1..] == turns[1..][..k + 1];
    assert turns[..k + 2][0] == turns[0];
  }

  /** No turn stops: both sides gain the first turn's answer. */
  lemma StopNeverFound(t: Table, name: string, turns: seq<Turn>)
    requires turns != [] && !StopsAt(t, turns[0])
    requires Session(t, name, turns[1..]) == Answers(t, name, turns[1..])
    ensures Session(t, name, turns) == Answers(t, name, turns)
  {
  }

  /** Once a command has stopped the session, later turns are never heard. */
  lemma {:induction false} LaterTurnsIgnored(t: Table, name: string, turns: seq<Turn>, more: seq<Turn>)
    requires StopsWithin(t, turns)
    ensures Session(t, name, turns + more) == Session(t, name, turns)
    decreases |turns|
  {
    assert (turns + more)[1..] == turns[1..] + more;
    assert (turns + more)[0] == turns[0];
    if !StopsAt(t, turns[0]) {
      var i :| 0 <= i < |turns| && StopsAt(t, turns[i]);
      assert turns[1..][i - 1] == turns[i];
      LaterTurnsIgnored(t, name, turns[1..], more);
    }
  }

  /** A session that stops ends with the goodbye reply. */
  lemma {:induction false} StoppedSessionSaysGoodbye(t: Table, name: string, turns: seq<Turn>)
    requires StopsWithin(t, turns)
    ensures Session(t, name, turns) != []
    ensures Session(t, name, turns)[|Session(t, name, turns)| - 1] == StopReply
    decreases |turns|
  {
    if StopsAt(t, turns[0]) {
      StoppingTurn(t, name, turns);
    } else {
      var i :| 0 <= i < |turns| && StopsAt(t, turns[i]);
      assert turns[1..][i - 1] == turns[i];
      StoppedSessionSaysGoodbye(t, name, turns[1..]);
      ContinuingKeepsLast(t, name, turns);
    }
  }

  /** A turn that does not stop leaves the last reply of the rest of the session last. */
  lemma ContinuingKeepsLast(t: Table, name: string, turns: seq<Turn>)
    requires turns != [] && !StopsAt(t, turns[0]) && Session(t, name, turns[1..]) != []
    ensures Session(t, name, turns) != []
    ensures Session(t, name, turns)[|Session(t, name, turns)| - 1] ==
      Session(t, name, turns[1..])[|Session(t, name, turns[1..])| - 1]
  {
    ContinuingTurn(t, name, turns);
  }

  /** A turn that stops is the last one answered, with the goodbye reply. */
  lemma StoppingTurn(t: Table, name: string, turns: seq<Turn>)
    requires turns != [] && StopsAt(t, turns[0])
    ensures Session(t, name, turns) == [StopReply]
  {
  }

  /** A turn that does not stop is answered (if anything was heard) and the session
      goes on. */
  lemma ContinuingTurn(t: Table, name: string, turns: seq<Turn>)
    requires turns != [] && !StopsAt(t, turns[0])
    ensures Session(t, name, turns) ==
      (if Heard(turns[0]) then [Reply(Resolve(t, turns[0].heard), name, turns[0].env)] else []) +
      Session(t, name, turns[1..])
  {
  }

  /** One more turn extends a session that has not stopped by that turn's reply. */
  lemma {:induction false} SessionStep(t: Table, name: string, turns: seq<Turn>, c: Turn)
    requires !StopsWithin(t, turns)
    ensures Session(t, name, turns + [c]) ==
      Session(t, name, turns) + (if Heard(c) then [Reply(Resolve(t, c.heard), name, c.env)] else [])
    decreases |turns|
  {
    if turns == [] {
      assert [] + [c] == [c];
    } else {
      assert (turns + [c])[1..] == turns[1..] + [c];
      assert (turns + [c])[0] == turns[0];
      assert !StopsAt(t, turns[0]);
      assert forall i | 0 <= i < |turns[1..]| :: turns[1..][i] == turns[i + 1];
      SessionStep(t, name, turns[1..], c);
    }
  }

  /** The voice assistant: its name, its liveness flag and its three command tables. */
  class VoiceAssistant {
    const name: string
    var isActive: bool
    const commands: Table
    const extendedCommands: Table
    const allCommands: Table

    /** `file` is the content of the commands file when one exists; the name defaults
        to "Assistant". */
    constructor (file: Option<seq<(string, string)>>, name: string := DefaultName)
      ensures this.name == name && !isActive
      ensures commands == LoadCommands(file)
      ensures extendedCommands == ExtendedCommands()
      ensures allCommands == AllCommands(file)
    {
      var loaded := LoadCommands(file);
      var ext := GenerateExtended();
      this.name := name;
      isActive := false;
      commands := loaded;
      extendedCommands := ext;
      allCommands := Merge(loaded, ext);
    }

    /** `stop`: clear the liveness flag and say goodbye. */
    method Stop() returns (r: string)
      modifies this
      ensures !isActive && r == StopReply
    {
      isActive := false;
      r := StopReply;
    }

    /** Run handler `h`, or return it when it is a static value. */
    method Invoke(h: Handler, env: Env) returns (r: string)
      modifies this
      ensures r == Respond(h, name, env)
      ensures isActive == (old(isActive) && !IsStop(h))
    {
      if IsStop(h) {
        StopSaysGoodbye(name, env);
        r := Stop();
      } else {
        r := Respond(h, name, env);
      }
    }

    /** `process_command`: scan the table in order for the first phrase occurring in
        the text, then try the keyword rules, then give up politely. */
    method ProcessCommand(text: Option<string>, env: Env) returns (response: string)
      modifies this
      ensures response == Reply(Resolve(allCommands, text), name, env)
      ensures isActive == (old(isActive) && !Stops(Resolve(allCommands, text)))
    {
      if text == None || text == Some("") {
        return DidNotCatchReply;
      }
      var u := text.value;
      var i := 0;
      while i < |allCommands|
        invariant 0 <= i <= |allCommands|
        invariant forall j :: 0 <= j < i ==> !Contains(u, allCommands[j].0)
        invariant isActive == old(isActive)
      {
        if Contains(u, allCommands[i].0) {
          FirstMatchFound(allCommands, u, i);
          response := Invoke(allCommands[i].1, env);
          return;
        }
        i := i + 1;
      }
      match Fallback(u)
      case Some(h) =>
        response := Respond(h, name, env);
      case None =>
        response := NotSureReply;
    }

    /** `start`: raise the flag, greet, then answer every turn with input until a
        command stops the assistant or the turns run out. */
    method Start(turns: seq<Turn>) returns (spoken: seq<string>)
      modifies this
      ensures spoken == [Intro(name)] + Session(allCommands, name, turns)
      ensures isActive == !StopsWithin(allCommands, turns)
    {
      isActive := true;
      spoken := [Intro(name)];
      var i := 0;
      while isActive && i < |turns|
        invariant 0 <= i <= |turns|
        invariant isActive == !StopsWithin(allCommands, turns[..i])
        invariant spoken == [Intro(name)] + Session(allCommands, name, turns[..i])
      {
        var c := turns[i];
        NextTurn(allCommands, name, turns, i);
        if c.heard.Some? && c.heard.value != "" {
          var response := ProcessCommand(c.heard, c.env);
          spoken := spoken + [response];
        }
        i := i + 1;
      }
      SessionOver(allCommands, name, turns, i);
    }
  }

  /** The loop's step: taking one more turn into the prefix the loop has handled. */
  lemma NextTurn(t: Table, name: string, turns: seq<Turn>, i: nat)
    requires i < |turns| && !StopsWithin(t, turns[..i])
    ensures Session(t, name, turns[..i + 1]) == Session(t, name, turns[..i]) +
      (if Heard(turns[i]) then [Reply(Resolve(t, turns[i].heard), name, turns[i].env)] else [])
    ensures StopsWithin(t, turns[..i + 1]) <==> StopsAt(t, turns[i])
  {
    assert turns[..i + 1] == turns[..i] + [turns[i]];
    SessionStep(t, name, turns[..i], turns[i]);
    StopsWithinStep(t, turns[..i], turns[i]);
  }

  /** The loop's exit: the handled prefix says all the session says, whether it ends
      with a stop or takes in every turn. */
  lemma SessionOver(t: Table, name: string, turns: seq<Turn>, i: nat)
    requires i <= |turns| && (StopsWithin(t, turns[..i]) || i == |turns|)
    ensures Session(t, name, turns) == Session(t, name, turns[..i])
    ensures StopsWithin(t, turns) <==> StopsWithin(t, turns[..i])
  {
    if i < |turns| {
      StopsWithinPrefix(t, turns, i);
      assert turns == turns[..i] + turns[i..];
      LaterTurnsIgnored(t, name, turns[..i], turns[i..]);
    } else {
      assert turns[..i] == turns;
    }
  }

  /** A stop within prefix and last turn is a stop within the extended sequence. */
  lemma StopsWithinStep(t: Table, turns: seq<Turn>, c: Turn)
    ensures StopsWithin(t, turns + [c]) <==> StopsWithin(t, turns) || StopsAt(t, c)
  {
    var s := turns + [c];
    assert s[|turns|] == c;
    assert forall i | 0 <= i < |turns| :: s[i] == turns[i];
  }

  /** A stop within a prefix is a stop within the whole sequence. */
  lemma StopsWithinPrefix(t: Table, turns: seq<Turn>, n: nat)
    requires n <= |turns| && StopsWithin(t, turns[..n])
    ensures StopsWithin(t, turns)
  {
    var i :| 0 <= i < n && StopsAt(t, turns[..n][i]);
    assert turns[i] == turns[..n][i];
  }
}
