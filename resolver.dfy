/** `process_command` as a specification: which table entry, keyword rule or fixed
    reply answers an utterance, and what the reply is. */
module Resolver {
  import opened Wrappers
  import opened Text
  import opened Handlers
  import opened CommandTable

  const DidNotCatchReply := "I didn't catch that. Could you repeat?"
  const NotSureReply := "I'm not sure how to respond to that. Say 'help' for a list of commands."

  // The keyword lists of the fallback chain, in priority order.
  const GreetingWords: seq<string> := ["hello", "hi", "hey", "greetings"]
  const TimeWords: seq<string> := ["time", "hour", "clock"]
  const DateWords: seq<string> := ["date", "day", "today"]
  const JokeWords: seq<string> := ["joke", "funny"]

  /** `any(word in text for word in words)`. */
  predicate MentionsAny(text: string, words: seq<string>)
  {
    exists w | w in words :: Contains(text, w)
  }

  /** Entry `i` is the first entry, in table order, whose phrase occurs in `u`. */
  ghost predicate IsFirstMatch(t: Table, u: string, i: int)
  {
    0 <= i < |t| && Contains(u, t[i].0) &&
    forall j :: 0 <= j < i ==> !Contains(u, t[j].0)
  }

  /** The position the scan over the table stops at, if any phrase occurs in `u`. */
  function FirstMatch(t: Table, u: string): (r: Option<nat>)
    ensures r.Some? ==> IsFirstMatch(t, u, r.value)
    ensures r.None? ==> forall j :: 0 <= j < |t| ==> !Contains(u, t[j].0)
  {
    if |t| == 0 then None
    else if Contains(u, t[0].0) then Some(0)
    else
      match FirstMatch(t[1..], u)
      case None => None
      case Some(i) => Some(i + 1)
  }

  /** The keyword chain tried when no phrase of the table occurs. */
  function Fallback(u: string): (r: Option<Handler>)
    ensures r == Some(Greeting) <==> MentionsAny(u, GreetingWords)
    ensures r == Some(Time) <==> !MentionsAny(u, GreetingWords) && MentionsAny(u, TimeWords)
    ensures r == Some(Date) <==>
      !MentionsAny(u, GreetingWords) && !MentionsAny(u, TimeWords) && MentionsAny(u, DateWords)
    ensures r == Some(Joke) <==>
      !MentionsAny(u, GreetingWords) && !MentionsAny(u, TimeWords) && !MentionsAny(u, DateWords)
      && MentionsAny(u, JokeWords)
    ensures r.None? <==>
      !MentionsAny(u, GreetingWords) && !MentionsAny(u, TimeWords) && !MentionsAny(u, DateWords)
      && !MentionsAny(u, JokeWords)
  {
    if MentionsAny(u, GreetingWords) then Some(Greeting)
    else if MentionsAny(u, TimeWords) then Some(Time)
    else if MentionsAny(u, DateWords) then Some(Date)
    else if MentionsAny(u, JokeWords) then Some(Joke)
    else None
  }

  /** How an utterance is answered. */
  datatype Resolution =
    | NoInput                              // nothing was heard
    | Matched(index: nat, handler: Handler) // the table entry at `index` answers
    | Guessed(handler: Handler)            // a keyword rule answers
    | Unrecognised                         // nothing applies

  /** The decision `process_command` makes for `text` (`None` stands for Python's `None`). */
  function Resolve(t: Table, text: Option<string>): (r: Resolution)
    ensures r.NoInput? <==> text == None || text == Some("")
    ensures r.Matched? ==> text.Some? && IsFirstMatch(t, text.value, r.index) && r.handler == t[r.index].1
    ensures r.Guessed? || r.Unrecognised? ==>
      text.Some? && forall j :: 0 <= j < |t| ==> !Contains(text.value, t[j].0)
    ensures r.Guessed? ==> Fallback(text.value) == Some(r.handler)
    ensures r.Unrecognised? ==> Fallback(text.value).None?
  {
    if text == None || text == Some("") then NoInput
    else
      match FirstMatch(t, text.value)
      case Some(i) => Matched(i, t[i].1)
      case None =>
        match Fallback(text.value)
        case Some(h) => Guessed(h)
        case None => Unrecognised
  }

  /** The string `process_command` returns for a resolution. */
  function Reply(r: Resolution, name: string, env: Env): string
  {
    match r
    case NoInput => DidNotCatchReply
    case Matched(_, h) => Respond(h, name, env)
    case Guessed(h) => Respond(h, name, env)
    case Unrecognised => NotSureReply
  }

  /** The resolution invokes `stop`. */
  predicate Stops(r: Resolution)
  {
    r.Matched? && IsStop(r.handler)
  }

  /** Only one entry can be the first match. */
  lemma FirstMatchUnique(t: Table, u: string, i: int, k: int)
    requires IsFirstMatch(t, u, i) && IsFirstMatch(t, u, k)
    ensures i == k
  {
  }

  /** The first match is what the scan finds. */
  lemma FirstMatchFound(t: Table, u: string, i: int)
    requires IsFirstMatch(t, u, i)
    ensures FirstMatch(t, u) == Some(i)
  {
  }

  /** A missing or empty utterance gets the clarification reply whatever the table holds. */
  lemma NoInputReply(t: Table, text: Option<string>, name: string, env: Env)
    requires text == None || text == Some("")
    ensures Reply(Resolve(t, text), name, env) == DidNotCatchReply
  {
  }

  /** Entries after the winning one are never consulted: appending any entries to the
      table leaves a match as it was. */
  lemma LaterEntriesIgnored(t: Table, more: Table, text: Option<string>)
    requires Resolve(t, text).Matched?
    ensures Resolve(t + more, text) == Resolve(t, text)
  {
    var i := Resolve(t, text).index;
    var u := text.value;
    assert forall j :: 0 <= j < |t| ==> (t + more)[j] == t[j];
    assert IsFirstMatch(t + more, u, i);
    FirstMatchFound(t + more, u, i);
  }

  /** The reply to a matched entry is its handler's reply; a static entry's value is
      returned as it is; only the keyword chain or the fixed reply can answer an
      utterance that no phrase occurs in. */
  lemma MatchedReply(t: Table, u: string, i: nat, name: string, env: Env)
    requires u != "" && IsFirstMatch(t, u, i)
    ensures Reply(Resolve(t, Some(u)), name, env) == Respond(t[i].1, name, env)
    ensures t[i].1.Static? ==> Reply(Resolve(t, Some(u)), name, env) == t[i].1.text
  {
    FirstMatchFound(t, u, i);
  }

  /** With no phrase in the utterance, the reply is the first keyword rule's, or the
      fixed "not sure" reply. */
  lemma UnmatchedReply(t: Table, u: string, name: string, env: Env)
    requires u != ""
    requires forall j :: 0 <= j < |t| ==> !Contains(u, t[j].0)
    ensures Reply(Resolve(t, Some(u)), name, env) ==
      match Fallback(u)
      case Some(h) => Respond(h, name, env)
      case None => NotSureReply
  {
  }
}
