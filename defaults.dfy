/** Facts about the table an assistant actually builds: the base table (or a commands
    file) merged with the templated extension. */
module DefaultTable {
  import opened Wrappers
  import opened Text
  import opened Handlers
  import opened CommandTable
  import opened Builder
  import opened Resolver

  /** Every phrase bound to `stop` in the default table. */
  const StopPhrases: seq<string> := ["stop listening", "exit"] + SystemPhrases

  lemma BaseUnique()
    ensures UniqueKeys(BaseCommands)
  {
  }

  lemma ExtendedUnique()
    ensures UniqueKeys(ExtendedCommands())
  {
  }

  /** A phrase that no template can generate is not in the extended table. */
  lemma NotExtended(k: string)
    requires k !in WeatherPhrases && k !in MusicPhrases && k !in HelpVariations
    requires k !in SystemPhrases && k !in GreetingVariations
    requires forall q | q in TimePrefixes :: !StartsWith(k, q)
    requires forall q | q in DatePrefixes :: !StartsWith(k, q)
    requires forall q | q in JokePrefixes :: !StartsWith(k, q)
    requires forall q | q in CalcCommands :: !StartsWith(k, q)
    ensures k !in Keys(ExtendedCommands())
  {
    ExtendedLookup(k);
    NotInProduct(TimePrefixes, " ", TimeSuffixes, k);
    NotInProduct(DatePrefixes, " ", DateSuffixes, k);
    NotInProduct(JokePrefixes, " me ", JokeObjects, k);
    NotInProduct(CalcCommands, " ", CalcExamples, k);
    LookupDefined(ExtendedCommands(), k);
  }

  /** The calculator phrases are at least 14 characters long. */
  lemma CalcPhrasesLong()
    ensures forall p | p in CalcPhrases() :: |p| >= 14
  {
    ProductMinLength(CalcCommands, " ", CalcExamples, 5, 8);
  }

  /** The system phrases survive every later insertion with their `stop` binding: none
      is a help, music or weather phrase, and all are shorter than any calculator phrase. */
  lemma SystemPhrasesExtended(k: string)
    requires k in SystemPhrases
    ensures Lookup(ExtendedCommands(), k) == Some(Stop)
  {
    ExtendedLookup(k);
    CalcPhrasesLong();
    SystemPhrasesDistinct();
  }

  /** The system phrases are short, and none is a help, music or weather phrase. */
  lemma SystemPhrasesDistinct()
    ensures forall k | k in SystemPhrases ::
      |k| <= 12 && k !in HelpVariations && k !in MusicPhrases && k !in WeatherPhrases
  {
  }

  lemma StopListeningNotExtended()
    ensures "stop listening" !in Keys(ExtendedCommands())
  {
    NotExtended("stop listening");
  }

  lemma ExitNotExtended()
    ensures "exit" !in Keys(ExtendedCommands())
  {
    NotExtended("exit");
  }

  lemma HelloNotExtended()
    ensures "hello" !in Keys(ExtendedCommands())
  {
    NotExtended("hello");
  }

  lemma HiNotExtended()
    ensures "hi" !in Keys(ExtendedCommands())
  {
    NotExtended("hi");
  }

  /** Only the system phrases are bound to `stop` in the extended table. */
  lemma ExtendedStopsOnlySystem(k: string)
    ensures Lookup(ExtendedCommands(), k) == Some(Stop) ==> k in SystemPhrases
  {
    if Lookup(ExtendedCommands(), k) == Some(Stop) {
      PutAllLookup([], Insertions(), k);
      LastBindingFrom(Insertions(), k, Stop);
      BindMember(TimePhrases(), Time, (k, Stop));
      BindMember(DatePhrases(), Date, (k, Stop));
      BindMember(JokePhrases(), Joke, (k, Stop));
      BindMember(GreetingVariations, Greeting, (k, Stop));
      BindMember(SystemPhrases, Stop, (k, Stop));
      BindMember(HelpVariations, Help, (k, Stop));
      BindMember(CalcPhrases(), CalculatorStub, (k, Stop));
      BindMember(MusicPhrases, MusicStub, (k, Stop));
      BindMember(WeatherPhrases, WeatherStub, (k, Stop));
    }
  }

  /** Without a commands file the table is the base table merged with the extension. */
  lemma DefaultIsMerge()
    ensures AllCommands(None) == Merge(BaseCommands, ExtendedCommands())
  {
  }

  /** Each of the eight stop phrases is bound to `stop` in the default table. */
  lemma StopPhrasesStop(k: string)
    requires k in StopPhrases
    ensures Lookup(AllCommands(None), k) == Some(Stop)
  {
    DefaultIsMerge();
    ExtendedUnique();
    if k in SystemPhrases {
      SystemPhrasesExtended(k);
      StopPhraseKept(ExtendedCommands(), k);
    } else if k == "stop listening" {
      StopListeningNotExtended();
      StopPhraseKept(ExtendedCommands(), k);
    } else {
      ExitNotExtended();
      StopPhraseKept(ExtendedCommands(), k);
    }
  }

  /** Merging any extension that binds the system phrases to `stop` and leaves the
      two base stop phrases alone keeps all eight bound to `stop`. */
  lemma StopPhraseKept(ext: Table, k: string)
    requires UniqueKeys(ext)
    requires Lookup(ext, k) == Some(Stop) || ((k == "stop listening" || k == "exit") && k !in Keys(ext))
    ensures Lookup(Merge(BaseCommands, ext), k) == Some(Stop)
  {
    BaseUnique();
    MergeLookup(BaseCommands, ext, k);
    LookupDefined(ext, k);
    BaseStopEntries();
  }

  /** The base table binds "stop listening" and "exit" to `stop`. */
  lemma BaseStopEntries()
    ensures Lookup(BaseCommands, "stop listening") == Some(Stop)
    ensures Lookup(BaseCommands, "exit") == Some(Stop)
  {
    BaseUnique();
    LookupAt(BaseCommands, 9);
    LookupAt(BaseCommands, 10);
  }

  /** No other phrase is bound to `stop` in the default table. */
  lemma OnlyStopPhrasesStop(k: string)
    requires Lookup(AllCommands(None), k) == Some(Stop)
    ensures k in StopPhrases
  {
    DefaultIsMerge();
    BaseUnique();
    ExtendedUnique();
    MergeLookup(BaseCommands, ExtendedCommands(), k);
    if k in Keys(ExtendedCommands()) {
      ExtendedStopsOnlySystem(k);
    } else {
      LookupFound(BaseCommands, k);
      BaseStops(k);
    }
  }

  /** The base table binds `stop` to "stop listening" and "exit" only. */
  lemma BaseStops(k: string)
    requires (k, Stop) in BaseCommands
    ensures k == "stop listening" || k == "exit"
  {
  }

  /** In the default table exactly the eight stop phrases are bound to `stop`:
      the two of the base table and the six system commands. */
  lemma StopBindings(k: string)
    ensures Lookup(AllCommands(None), k) == Some(Stop) <==> k in StopPhrases
  {
    if k in StopPhrases {
      StopPhrasesStop(k);
    }
    if Lookup(AllCommands(None), k) == Some(Stop) {
      OnlyStopPhrasesStop(k);
    }
  }

  /** A bound phrase is bound by one of the table's entries. */
  lemma LookupFound(t: Table, k: string)
    requires Lookup(t, k).Some?
    ensures (k, Lookup(t, k).value) in t
  {
    var i := IndexOf(t, k).value;
    assert t[i] == (k, Lookup(t, k).value);
  }

  /** With a commands file the base table is gone: only the six system phrases stop
      the assistant, since a loaded value is never callable. */
  lemma LoadedStopBindings(pairs: seq<(string, string)>, k: string)
    ensures Lookup(AllCommands(Some(pairs)), k) == Some(Stop) <==> k in SystemPhrases
  {
    var base := LoadCommands(Some(pairs));
    ExtendedUnique();
    MergeLookup(base, ExtendedCommands(), k);
    ExtendedLookup(k);
    LookupDefined(ExtendedCommands(), k);
    if k in SystemPhrases {
      SystemPhrasesExtended(k);
    } else if k !in Keys(ExtendedCommands()) && Lookup(base, k).Some? {
      StaticsOnly(pairs, k);
    }
  }

  /** Every value a commands file supplies is static. */
  lemma {:induction false} StaticsOnly(pairs: seq<(string, string)>, k: string)
    ensures LastBinding(Statics(pairs), k).Some? ==> LastBinding(Statics(pairs), k).value.Static?
    decreases |pairs|
  {
    if pairs != [] {
      var n := |pairs| - 1;
      assert Statics(pairs)[..n] == Statics(pairs[..n]);
      StaticsOnly(pairs[..n], k);
    }
  }

  /** "hello" and "hi" keep the first two places of the default table, bound to the
      greeting handler, since no template generates either of them. */
  lemma GreetingsLead()
    ensures |AllCommands(None)| >= 2
    ensures AllCommands(None)[0] == ("hello", Greeting)
    ensures AllCommands(None)[1] == ("hi", Greeting)
  {
    DefaultIsMerge();
    BaseUnique();
    ExtendedUnique();
    HelloNotExtended();
    HiNotExtended();
    BaseLeadKept(ExtendedCommands());
  }

  /** Merging into the base table keeps its first two entries when the merged-in table
      binds neither "hello" nor "hi". */
  lemma BaseLeadKept(ext: Table)
    requires UniqueKeys(ext) && "hello" !in Keys(ext) && "hi" !in Keys(ext)
    ensures |Merge(BaseCommands, ext)| >= 2
    ensures Merge(BaseCommands, ext)[0] == ("hello", Greeting)
    ensures Merge(BaseCommands, ext)[1] == ("hi", Greeting)
  {
    BaseUnique();
    BaseLead();
    MergeKeeps(BaseCommands, ext, 0);
    MergeKeeps(BaseCommands, ext, 1);
  }

  lemma BaseLead()
    ensures BaseCommands[0] == ("hello", Greeting) && BaseCommands[1] == ("hi", Greeting)
  {
  }

  /** With the default table, any utterance containing "hi" anywhere (in "this",
      "what time is it, chief", ...) is answered with a greeting, even when another
      phrase occurs in it too: one of the first two entries always wins. */
  lemma HiAlwaysGreets(u: string, name: string, env: Env)
    requires Contains(u, "hi")
    ensures Resolve(AllCommands(None), Some(u)).Matched?
    ensures Resolve(AllCommands(None), Some(u)).handler == Greeting
    ensures Reply(Resolve(AllCommands(None), Some(u)), name, env) in Greetings(name)
  {
    GreetingsLead();
    GreetingFirst(AllCommands(None), u, name, env);
  }

  /** A table led by "hello" and "hi" greets every utterance containing "hi". */
  lemma GreetingFirst(t: Table, u: string, name: string, env: Env)
    requires |t| >= 2 && t[0] == ("hello", Greeting) && t[1] == ("hi", Greeting)
    requires Contains(u, "hi")
    ensures Resolve(t, Some(u)).Matched? && Resolve(t, Some(u)).handler == Greeting
    ensures Reply(Resolve(t, Some(u)), name, env) in Greetings(name)
  {
    ContainsShorter(u, "hi");
    if Contains(u, "hello") {
      FirstMatchFound(t, u, 0);
    } else {
      FirstMatchFound(t, u, 1);
    }
  }

  /** Entry `i` of the base table keeps its place in a merge with a table that lacks
      its phrase, and every base phrase keeps its place. */
  lemma BaseKept(ext: Table, i: nat)
    requires UniqueKeys(ext) && i < |BaseCommands|
    ensures i < |Merge(BaseCommands, ext)| && Merge(BaseCommands, ext)[i].0 == BaseCommands[i].0
    ensures BaseCommands[i].0 !in Keys(ext) ==> Merge(BaseCommands, ext)[i] == BaseCommands[i]
  {
    BaseUnique();
    MergePrefix(BaseCommands, ext, i);
    if BaseCommands[i].0 !in Keys(ext) {
      MergeKeeps(BaseCommands, ext, i);
    }
  }

  /** "tell me something funny" is one of the generated joke phrases, and the default
      table keeps it bound to the joke handler. */
  lemma SomethingFunnyBound()
    ensures Lookup(AllCommands(None), "tell me something funny") == Some(Joke)
  {
    var k := "tell me something funny";
    DefaultIsMerge();
    BaseUnique();
    ExtendedUnique();
    FunnyIsJokePhrase();
    FunnyNotCalculation();
    FunnyNotListed();
    ExtendedLookup(k);
    LookupDefined(ExtendedCommands(), k);
    MergeLookup(BaseCommands, ExtendedCommands(), k);
  }

  lemma FunnyIsJokePhrase()
    ensures "tell me something funny" in JokePhrases()
  {
    assert JokePrefixes[0] + " me " + JokeObjects[1] == "tell me something funny";
    ProductMember(JokePrefixes, " me ", JokeObjects, "tell me something funny");
  }

  lemma FunnyNotCalculation()
    ensures "tell me something funny" !in CalcPhrases()
  {
    NotInProduct(CalcCommands, " ", CalcExamples, "tell me something funny");
  }

  lemma FunnyNotListed()
    ensures "tell me something funny" !in WeatherPhrases + MusicPhrases + HelpVariations
    ensures "tell me something funny" !in SystemPhrases + GreetingVariations
  {
  }

  /** Said alone, "tell me something funny" is still answered with a greeting: its
      "somet-hi-ng" contains "hi", one of the first two entries of the table. The same
      holds of every generated phrase built on "something". */
  lemma SomethingFunnyGreets(name: string, env: Env)
    ensures Lookup(AllCommands(None), "tell me something funny") == Some(Joke)
    ensures Resolve(AllCommands(None), Some("tell me something funny")).Matched?
    ensures Resolve(AllCommands(None), Some("tell me something funny")).handler == Greeting
  {
    SomethingFunnyBound();
    FunnyContainsHi();
    HiAlwaysGreets("tell me something funny", name, env);
  }

  lemma FunnyContainsHi()
    ensures Contains("tell me something funny", "hi")
  {
    ContainsInfix("tell me somet", "hi", "ng funny");
    assert "tell me somet" + "hi" + "ng funny" == "tell me something funny";
  }

  /** "what's the weather" is bound to the extended weather stub, but the scan reaches
      the base table's "weather" entry, eighth in table order, first: the reply is the
      base table's weather reply. */
  lemma WeatherAnsweredByBase()
    ensures Lookup(AllCommands(None), "what's the weather") == Some(WeatherStub)
    ensures Resolve(AllCommands(None), Some("what's the weather")) == Matched(7, WeatherSetup)
  {
    WeatherBound();
    DefaultIsMerge();
    ExtendedUnique();
    WeatherNotExtended();
    WeatherFirstIn(ExtendedCommands());
    FirstMatchFound(AllCommands(None), "what's the weather", 7);
  }

  lemma WeatherBound()
    ensures Lookup(AllCommands(None), "what's the weather") == Some(WeatherStub)
  {
    var u := "what's the weather";
    DefaultIsMerge();
    BaseUnique();
    ExtendedUnique();
    ExtendedLookup(u);
    LookupDefined(ExtendedCommands(), u);
    MergeLookup(BaseCommands, ExtendedCommands(), u);
  }

  /** Merged with a table that lacks "weather", the base table's "weather" entry is the
      first whose phrase occurs in "what's the weather". */
  lemma WeatherFirstIn(ext: Table)
    requires UniqueKeys(ext) && "weather" !in Keys(ext)
    ensures IsFirstMatch(Merge(BaseCommands, ext), "what's the weather", 7)
    ensures Merge(BaseCommands, ext)[7] == ("weather", WeatherSetup)
  {
    var u := "what's the weather";
    var all := Merge(BaseCommands, ext);
    BaseKept(ext, 7);
    forall j | 0 <= j < 7
      ensures !Contains(u, all[j].0)
    {
      BaseKept(ext, j);
      WeatherMisses(j);
    }
    BaseWeather();
    WeatherWord();
  }

  lemma WeatherNotExtended()
    ensures "weather" !in Keys(ExtendedCommands())
  {
    NotExtended("weather");
  }

  lemma BaseWeather()
    ensures BaseCommands[7] == ("weather", WeatherSetup)
  {
  }

  lemma WeatherWord()
    ensures Contains("what's the weather", "weather")
  {
    ContainsInfix("what's the ", "weather", "");
    assert "what's the " + "weather" + "" == "what's the weather";
  }

  /** None of the seven phrases before "weather" occurs in "what's the weather": each
      has a letter the utterance lacks. */
  lemma WeatherMisses(j: nat)
    requires j < 7
    ensures !Contains("what's the weather", BaseCommands[j].0)
  {
    var p := BaseCommands[j].0;
    var u := "what's the weather";
    var c := if j in {1, 3, 4, 5} then 'i' else if j == 2 then 'y' else 'l';
    assert c in p;
    MissingLetter(u, p, c);
  }

}
