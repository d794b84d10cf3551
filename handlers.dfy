/** The closed set of handlers a phrase can be bound to, and the reply each produces.
    The wall clock and the random source are not modelled; what they would supply at
    the moment a handler runs is passed in as an `Env`. */
module Handlers {

  datatype Handler =
    | Greeting        // _respond_hello
    | Time            // _get_time
    | Date            // _get_date
    | Joke            // _tell_joke
    | Help            // _provide_help
    | Name            // the "what is your name" lambda
    | Thanks          // the "thank you" lambda
    | WeatherSetup    // the base-table "weather" lambda
    | WeatherStub     // the extended weather lambdas
    | CalculatorStub  // the calculator lambdas
    | MusicStub       // the music lambdas
    | Stop            // the bound method `stop`
    | Static(text: string)  // a table value that is not callable, returned as it is

  /** What the outside world supplies when a handler runs: the clock already
      formatted (`%I:%M %p` and `%A, %B %d, %Y`) and the index drawn by the
      random source. */
  datatype Env = Env(timeText: string, dateText: string, pick: nat)

  const StopReply := "Stopping the voice assistant. Goodbye!"

  /** The handler is the bound method `stop`, the one handler that ends the session. */
  predicate IsStop(h: Handler)
  {
    h == Stop
  }

  function Greetings(name: string): seq<string>
  {
    [ "Hello! How can I help you today?",
      "Hi there! I'm " + name + ", your voice assistant.",
      "Hey! What can I do for you?",
      "Greetings! How may I assist you today?" ]
  }

  /** The ten jokes of `_tell_joke`, in their order. */
  const Jokes: seq<string> :=
    [ "Why don't scientists trust atoms? Because they make up everything!",
      "Did you hear about the mathematician who's afraid of negative numbers? He'll stop at nothing to avoid them!",
      "Why did the scarecrow win an award? Because he was outstanding in his field!",
      "I told my wife she was drawing her eyebrows too high. She looked surprised.",
      "What do you call a bear with no teeth? A gummy bear!",
      "Why don't eggs tell jokes? They'd crack each other up!",
      "What's the best thing about Switzerland? I don't know, but the flag is a big plus.",
      "How do you organize a space party? You planet!",
      "Why did the bicycle fall over? Because it was two tired!",
      "How does a penguin build its house? Igloos it together!" ]

  /** The usage summary of `_provide_help`, an indented triple-quoted string
      with the assistant's name spliced into its first line. */
  function HelpText(name: string): string
  {
    "\n        I'm " + name + ", your voice assistant with over 5000 commands!\n        \n        Here are some example commands you can try:\n        - \"Hello\" or \"Hi\" for greetings\n        - \"What time is it\" for the current time\n        - \"What day is it\" for today's date\n        - \"Tell me a joke\" for a random joke\n        - \"Weather\" for weather information (requires setup)\n        - \"Play music\" for music playback (requires setup)\n        - \"Calculate 2 plus 2\" for simple calculations\n        - \"Stop listening\" or \"Exit\" to stop the assistant\n        \n        Just speak naturally and I'll try to understand your request.\n        "
  }

  /** `random.choice(options)` with the drawn index supplied from outside. */
  function Choose(options: seq<string>, pick: nat): (r: string)
    requires options != []
    ensures r in options
  {
    options[pick % |options|]
  }

  /** Every candidate can be drawn: the choice ranges over the whole list. */
  lemma ChooseCoversAll(options: seq<string>, o: string)
    requires o in options
    ensures exists pick: nat :: Choose(options, pick) == o
  {
    var i :| 0 <= i < |options| && options[i] == o;
    assert Choose(options, i) == o;
  }

  /** `_respond_hello`: one of the four greetings. */
  function GreetingReply(name: string, pick: nat): (r: string)
    ensures r in Greetings(name)
  {
    Choose(Greetings(name), pick)
  }

  /** `_tell_joke`: one of the ten jokes. */
  function JokeReply(pick: nat): (r: string)
    ensures r in Jokes
  {
    Choose(Jokes, pick)
  }

  /** The reply produced by invoking handler `h` (or by returning it, when it is a
      static value) for an assistant called `name`. For `Stop` this is only the
      reply; clearing the liveness flag is done by the assistant object. What the
      replies are is stated by the lemmas below, one handler at a time. */
  function Respond(h: Handler, name: string, env: Env): string
  {
    match h
    case Greeting => GreetingReply(name, env.pick)
    case Time => "The current time is " + env.timeText
    case Date => "Today is " + env.dateText
    case Joke => JokeReply(env.pick)
    case Help => HelpText(name)
    case Name => "My name is " + name + ". How can I help you?"
    case Thanks => "You're welcome! Is there anything else I can help with?"
    case WeatherSetup => "I don't have access to weather data yet, but I can be configured to check the forecast."
    case WeatherStub => "Weather forecast is available in the full version."
    case CalculatorStub => "Calculator functionality is available in the full version."
    case MusicStub => "Music playback is available in the full version."
    case Stop => StopReply
    case Static(text) => text
  }

  /** A value that is not callable is returned as it is. */
  lemma StaticVerbatim(text: string, name: string, env: Env)
    ensures Respond(Static(text), name, env) == text
  {
  }

  /** The `stop` handler says goodbye. */
  lemma StopSaysGoodbye(name: string, env: Env)
    ensures Respond(Stop, name, env) == StopReply
  {
  }

  /** The greeting replies depend on the random draw only through the position it
      selects, and every position is reachable. */
  lemma {:induction false} EveryGreetingReachable(name: string, env: Env)
    ensures forall g :: g in Greetings(name) ==>
      exists pick: nat :: Respond(Greeting, name, env.(pick := pick)) == g
  {
    forall g | g in Greetings(name)
      ensures exists pick: nat :: Respond(Greeting, name, env.(pick := pick)) == g
    {
      ChooseCoversAll(Greetings(name), g);
      var pick: nat :| Choose(Greetings(name), pick) == g;
      assert Respond(Greeting, name, env.(pick := pick)) == g;
    }
  }

  /** Likewise every joke can be told. */
  lemma {:induction false} EveryJokeReachable(name: string, env: Env)
    ensures forall j :: j in Jokes ==>
      exists pick: nat :: Respond(Joke, name, env.(pick := pick)) == j
  {
    forall j | j in Jokes
      ensures exists pick: nat :: Respond(Joke, name, env.(pick := pick)) == j
    {
      ChooseCoversAll(Jokes, j);
      var pick: nat :| Choose(Jokes, pick) == j;
      assert Respond(Joke, name, env.(pick := pick)) == j;
    }
  }
}
