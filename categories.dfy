/** The categories of `_generate_extended_commands` do not overlap: each template
    generates distinct phrases, no phrase of one category is generated by another,
    and so every generated phrase keeps the handler its own category assigns. */
module Categories {
  import opened Wrappers
  import opened Text
  import opened Handlers
  import opened CommandTable
  import opened Builder
  import opened DefaultTable

  /** The 20 time, 25 date, 25 joke and 30 calculator phrases are all different. */
  lemma TimePhrasesDistinct()
    ensures Distinct(TimePhrases())
  {
    ProductDistinct(TimePrefixes, " ", TimeSuffixes);
  }

  lemma DatePhrasesDistinct()
    ensures Distinct(DatePhrases())
  {
    ProductDistinct(DatePrefixes, " ", DateSuffixes);
  }

  lemma JokePhrasesDistinct()
    ensures Distinct(JokePhrases())
  {
    ProductDistinct(JokePrefixes, " me ", JokeObjects);
  }

  lemma CalcPhrasesDistinct()
    ensures Distinct(CalcPhrases())
  {
    ProductDistinct(CalcCommands, " ", CalcExamples);
  }

  // No two templates generate a common phrase: no suffix of one ends a suffix of the other.

  lemma TimeApartDate()
    ensures forall p | p in TimePhrases() :: p !in DatePhrases()
  {
    ProductsApart(TimePrefixes, " ", TimeSuffixes, DatePrefixes, " ", DateSuffixes);
  }

  lemma TimeApartJoke()
    ensures forall p | p in TimePhrases() :: p !in JokePhrases()
  {
    ProductsApart(TimePrefixes, " ", TimeSuffixes, JokePrefixes, " me ", JokeObjects);
  }

  lemma TimeApartCalc()
    ensures forall p | p in TimePhrases() :: p !in CalcPhrases()
  {
    ProductsApart(TimePrefixes, " ", TimeSuffixes, CalcCommands, " ", CalcExamples);
  }

  lemma DateApartJoke()
    ensures forall p | p in DatePhrases() :: p !in JokePhrases()
  {
    ProductsApart(DatePrefixes, " ", DateSuffixes, JokePrefixes, " me ", JokeObjects);
  }

  lemma DateApartCalc()
    ensures forall p | p in DatePhrases() :: p !in CalcPhrases()
  {
    ProductsApart(DatePrefixes, " ", DateSuffixes, CalcCommands, " ", CalcExamples);
  }

  lemma JokeApartCalc()
    ensures forall p | p in JokePhrases() :: p !in CalcPhrases()
  {
    ProductsApart(JokePrefixes, " me ", JokeObjects, CalcCommands, " ", CalcExamples);
  }

  // No phrase of a literal list is a templated phrase: none ends with a suffix of the template.

  lemma GreetingNotTime()
    ensures forall q | q in GreetingVariations :: q !in TimePhrases()
  {
    ListApart(GreetingVariations, TimePrefixes, " ", TimeSuffixes);
  }

  lemma GreetingNotDate()
    ensures forall q | q in GreetingVariations :: q !in DatePhrases()
  {
    ListApart(GreetingVariations, DatePrefixes, " ", DateSuffixes);
  }

  lemma GreetingNotJoke()
    ensures forall q | q in GreetingVariations :: q !in JokePhrases()
  {
    ListApart(GreetingVariations, JokePrefixes, " me ", JokeObjects);
  }

  lemma GreetingNotCalc()
    ensures forall q | q in GreetingVariations :: q !in CalcPhrases()
  {
    ListApart(GreetingVariations, CalcCommands, " ", CalcExamples);
  }

  lemma SystemNotTime()
    ensures forall q | q in SystemPhrases :: q !in TimePhrases()
  {
    ListApart(SystemPhrases, TimePrefixes, " ", TimeSuffixes);
  }

  lemma SystemNotDate()
    ensures forall q | q in SystemPhrases :: q !in DatePhrases()
  {
    ListApart(SystemPhrases, DatePrefixes, " ", DateSuffixes);
  }

  lemma SystemNotJoke()
    ensures forall q | q in SystemPhrases :: q !in JokePhrases()
  {
    ListApart(SystemPhrases, JokePrefixes, " me ", JokeObjects);
  }

  lemma SystemNotCalc()
    ensures forall q | q in SystemPhrases :: q !in CalcPhrases()
  {
    ListApart(SystemPhrases, CalcCommands, " ", CalcExamples);
  }

  lemma HelpNotTime()
    ensures forall q | q in HelpVariations :: q !in TimePhrases()
  {
    ListApart(HelpVariations, TimePrefixes, " ", TimeSuffixes);
  }

  lemma HelpNotDate()
    ensures forall q | q in HelpVariations :: q !in DatePhrases()
  {
    ListApart(HelpVariations, DatePrefixes, " ", DateSuffixes);
  }

  lemma HelpNotJoke()
    ensures forall q | q in HelpVariations :: q !in JokePhrases()
  {
    ListApart(HelpVariations, JokePrefixes, " me ", JokeObjects);
  }

  lemma HelpNotCalc()
    ensures forall q | q in HelpVariations :: q !in CalcPhrases()
  {
    ListApart(HelpVariations, CalcCommands, " ", CalcExamples);
  }

  lemma MusicNotTime()
    ensures forall q | q in MusicPhrases :: q !in TimePhrases()
  {
    ListApart(MusicPhrases, TimePrefixes, " ", TimeSuffixes);
  }

  lemma MusicNotDate()
    ensures forall q | q in MusicPhrases :: q !in DatePhrases()
  {
    ListApart(MusicPhrases, DatePrefixes, " ", DateSuffixes);
  }

  lemma MusicNotJoke()
    ensures forall q | q in MusicPhrases :: q !in JokePhrases()
  {
    ListApart(MusicPhrases, JokePrefixes, " me ", JokeObjects);
  }

  lemma MusicNotCalc()
    ensures forall q | q in MusicPhrases :: q !in CalcPhrases()
  {
    ListApart(MusicPhrases, CalcCommands, " ", CalcExamples);
  }

  lemma WeatherNotTime()
    ensures forall q | q in WeatherPhrases :: q !in TimePhrases()
  {
    ListApart(WeatherPhrases, TimePrefixes, " ", TimeSuffixes);
  }

  lemma WeatherNotDate()
    ensures forall q | q in WeatherPhrases :: q !in DatePhrases()
  {
    ListApart(WeatherPhrases, DatePrefixes, " ", DateSuffixes);
  }

  lemma WeatherNotJoke()
    ensures forall q | q in WeatherPhrases :: q !in JokePhrases()
  {
    ListApart(WeatherPhrases, JokePrefixes, " me ", JokeObjects);
  }

  lemma WeatherNotCalc()
    ensures forall q | q in WeatherPhrases :: q !in CalcPhrases()
  {
    ListApart(WeatherPhrases, CalcCommands, " ", CalcExamples);
  }

  /** The literal lists share no phrase. */
  lemma GreetingListApart()
    ensures forall q | q in GreetingVariations ::
      q !in SystemPhrases && q !in HelpVariations && q !in MusicPhrases && q !in WeatherPhrases
  {
  }

  lemma HelpListApart()
    ensures forall q | q in HelpVariations :: q !in MusicPhrases && q !in WeatherPhrases
  {
  }

  lemma MusicListApart()
    ensures forall q | q in MusicPhrases :: q !in WeatherPhrases
  {
  }

  // Each phrase keeps the handler its own category binds it to.

  lemma TimeKept(p: string)
    requires p in TimePhrases()
    ensures Lookup(ExtendedCommands(), p) == Some(Time)
  {
    ExtendedLookup(p);
    TimeApartDate();
    TimeApartJoke();
    GreetingNotTime();
    SystemNotTime();
    HelpNotTime();
    TimeApartCalc();
    MusicNotTime();
    WeatherNotTime();
  }

  lemma DateKept(p: string)
    requires p in DatePhrases()
    ensures Lookup(ExtendedCommands(), p) == Some(Date)
  {
    ExtendedLookup(p);
    DateApartJoke();
    GreetingNotDate();
    SystemNotDate();
    HelpNotDate();
    DateApartCalc();
    MusicNotDate();
    WeatherNotDate();
  }

  lemma JokeKept(p: string)
    requires p in JokePhrases()
    ensures Lookup(ExtendedCommands(), p) == Some(Joke)
  {
    ExtendedLookup(p);
    GreetingNotJoke();
    SystemNotJoke();
    HelpNotJoke();
    JokeApartCalc();
    MusicNotJoke();
    WeatherNotJoke();
  }

  lemma GreetingKept(p: string)
    requires p in GreetingVariations
    ensures Lookup(ExtendedCommands(), p) == Some(Greeting)
  {
    ExtendedLookup(p);
    GreetingListApart();
    GreetingNotCalc();
  }

  lemma HelpKept(p: string)
    requires p in HelpVariations
    ensures Lookup(ExtendedCommands(), p) == Some(Help)
  {
    ExtendedLookup(p);
    HelpListApart();
    HelpNotCalc();
  }

  lemma CalcKept(p: string)
    requires p in CalcPhrases()
    ensures Lookup(ExtendedCommands(), p) == Some(CalculatorStub)
  {
    ExtendedLookup(p);
    MusicNotCalc();
    WeatherNotCalc();
  }

  lemma MusicKept(p: string)
    requires p in MusicPhrases
    ensures Lookup(ExtendedCommands(), p) == Some(MusicStub)
  {
    ExtendedLookup(p);
    MusicListApart();
  }

  lemma WeatherKept(p: string)
    requires p in WeatherPhrases
    ensures Lookup(ExtendedCommands(), p) == Some(WeatherStub)
  {
    ExtendedLookup(p);
  }

  // No assignment of `_generate_extended_commands` overwrites another: the phrases it
  // assigns, category after category, are all different.

  /** The literal lists repeat no phrase. */
  lemma ListsDistinct()
    ensures Distinct(GreetingVariations) && Distinct(SystemPhrases) && Distinct(HelpVariations)
    ensures Distinct(MusicPhrases) && Distinct(WeatherPhrases)
  {
  }

  lemma UpToJoke()
    ensures Distinct(TimePhrases() + DatePhrases() + JokePhrases())
  {
    TimePhrasesDistinct();
    DatePhrasesDistinct();
    JokePhrasesDistinct();
    TimeApartDate();
    DistinctAppend(TimePhrases(), DatePhrases());
    TimeApartJoke();
    DateApartJoke();
    DistinctAppend(TimePhrases() + DatePhrases(), JokePhrases());
  }

  lemma UpToSystem()
    ensures Distinct(TimePhrases() + DatePhrases() + JokePhrases() + GreetingVariations + SystemPhrases)
  {
    var a := TimePhrases() + DatePhrases() + JokePhrases();
    UpToJoke();
    ListsDistinct();
    GreetingNotTime();
    GreetingNotDate();
    GreetingNotJoke();
    DistinctAppend(a, GreetingVariations);
    SystemNotTime();
    SystemNotDate();
    SystemNotJoke();
    GreetingListApart();
    DistinctAppend(a + GreetingVariations, SystemPhrases);
  }

  lemma UpToHelp()
    ensures Distinct(TimePhrases() + DatePhrases() + JokePhrases() + GreetingVariations + SystemPhrases
                     + HelpVariations)
  {
    var a := TimePhrases() + DatePhrases() + JokePhrases() + GreetingVariations + SystemPhrases;
    UpToSystem();
    ListsDistinct();
    HelpNotTime();
    HelpNotDate();
    HelpNotJoke();
    GreetingListApart();
    SystemPhrasesDistinct();
    DistinctAppend(a, HelpVariations);
  }

  lemma UpToCalc()
    ensures Distinct(TimePhrases() + DatePhrases() + JokePhrases() + GreetingVariations + SystemPhrases
                     + HelpVariations + CalcPhrases())
  {
    var a := TimePhrases() + DatePhrases() + JokePhrases() + GreetingVariations + SystemPhrases
             + HelpVariations;
    UpToHelp();
    CalcPhrasesDistinct();
    TimeApartCalc();
    DateApartCalc();
    JokeApartCalc();
    GreetingNotCalc();
    SystemPhrasesDistinct();
    CalcPhrasesLong();
    HelpNotCalc();
    DistinctAppend(a, CalcPhrases());
  }

  lemma UpToWeather()
    ensures Distinct(TimePhrases() + DatePhrases() + JokePhrases() + GreetingVariations + SystemPhrases
                     + HelpVariations + CalcPhrases() + MusicPhrases + WeatherPhrases)
  {
    var a := TimePhrases() + DatePhrases() + JokePhrases() + GreetingVariations + SystemPhrases
             + HelpVariations + CalcPhrases();
    UpToCalc();
    ListsDistinct();
    MusicNotTime();
    MusicNotDate();
    MusicNotJoke();
    MusicNotCalc();
    GreetingListApart();
    SystemPhrasesDistinct();
    HelpListApart();
    DistinctAppend(a, MusicPhrases);
    WeatherNotTime();
    WeatherNotDate();
    WeatherNotJoke();
    WeatherNotCalc();
    MusicListApart();
    DistinctAppend(a + MusicPhrases, WeatherPhrases);
  }

  /** The phrases assigned, in order, are the categories' phrases one after another. */
  lemma InsertionKeys()
    ensures Keys(Insertions()) == TimePhrases() + DatePhrases() + JokePhrases() + GreetingVariations
      + SystemPhrases + HelpVariations + CalcPhrases() + MusicPhrases + WeatherPhrases
  {
    var a := Bind(TimePhrases(), Time);
    var b := a + Bind(DatePhrases(), Date);
    var c := b + Bind(JokePhrases(), Joke);
    var d := c + Bind(GreetingVariations, Greeting);
    var e := d + Bind(SystemPhrases, Stop);
    var f := e + Bind(HelpVariations, Help);
    var g := f + Bind(CalcPhrases(), CalculatorStub);
    var h := g + Bind(MusicPhrases, MusicStub);
    KeysAppend(h, Bind(WeatherPhrases, WeatherStub));
    KeysAppend(g, Bind(MusicPhrases, MusicStub));
    KeysAppend(f, Bind(CalcPhrases(), CalculatorStub));
    KeysAppend(e, Bind(HelpVariations, Help));
    KeysAppend(d, Bind(SystemPhrases, Stop));
    KeysAppend(c, Bind(GreetingVariations, Greeting));
    KeysAppend(b, Bind(JokePhrases(), Joke));
    KeysAppend(a, Bind(DatePhrases(), Date));
    BindKeys(WeatherPhrases, WeatherStub);
    BindKeys(MusicPhrases, MusicStub);
    BindKeys(CalcPhrases(), CalculatorStub);
    BindKeys(HelpVariations, Help);
    BindKeys(SystemPhrases, Stop);
    BindKeys(GreetingVariations, Greeting);
    BindKeys(JokePhrases(), Joke);
    BindKeys(DatePhrases(), Date);
    BindKeys(TimePhrases(), Time);
  }

  /** Since no assignment overwrites another, the generated table is the list of
      assignments itself: 20 time, 25 date and 25 joke phrases, 9 greetings, 6 system
      phrases, 8 help phrases, 30 calculator, 7 music and 5 weather phrases, 135 in all,
      in the order they are assigned. */
  lemma ExtendedIsInsertions()
    ensures ExtendedCommands() == Insertions()
    ensures |ExtendedCommands()| == 135
  {
    InsertionKeys();
    UpToWeather();
    UniqueIsDistinct(Insertions());
    PutAllIntoEmpty(Insertions());
    TemplateSizes();
    assert |Keys(Insertions())| == 135;
  }
}
