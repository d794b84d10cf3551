/** Building the assistant's phrase table: the base table (or the commands file that
    replaces it), the templated extension, and the merge of the two. */
module Builder {
  import opened Wrappers
  import opened Text
  import opened Handlers
  import opened CommandTable

  /** The literal table of `_load_commands`. */
  const BaseCommands: Table :=
    [ ("hello", Greeting),
      ("hi", Greeting),
      ("hey", Greeting),
      ("what is your name", Name),
      ("what time is it", Time),
      ("what day is it", Date),
      ("tell me a joke", Joke),
      ("weather", WeatherSetup),
      ("thank you", Thanks),
      ("stop listening", Stop),
      ("exit", Stop),
      ("help", Help),
      ("what can you do", Help) ]

  /** The pairs of a commands file as table entries: loaded values are plain data,
      never callable, so each becomes a static reply. */
  function Statics(pairs: seq<(string, string)>): seq<Entry>
  {
    seq(|pairs|, i requires 0 <= i < |pairs| => (pairs[i].0, Static(pairs[i].1)))
  }

  /** `_load_commands`: the commands file, when it exists and parses, replaces the base
      table; otherwise the base table is used. `file` is the parsed file, `None` when it
      is missing or unreadable. */
  function LoadCommands(file: Option<seq<(string, string)>>): (t: Table)
    ensures UniqueKeys(t)
    ensures file.None? ==> t == BaseCommands
    ensures file.Some? ==> forall k :: k in Keys(t) <==> k in Keys(Statics(file.value))
    ensures file.Some? ==> forall k :: Lookup(t, k) == LastBinding(Statics(file.value), k)
    ensures file.Some? ==> Keys(t) == FreshKeys([], Statics(file.value))
  {
    match file
    case None => BaseCommands
    case Some(pairs) =>
      var t := PutAll([], Statics(pairs));
      PutAllKeys([], Statics(pairs));
      assert forall k :: Lookup(t, k) == LastBinding(Statics(pairs), k) by {
        forall k ensures Lookup(t, k) == LastBinding(Statics(pairs), k) {
          PutAllLookup([], Statics(pairs), k);
        }
      }
      assert forall k :: k in Keys(t) <==> k in Keys(Statics(pairs)) by {
        forall k ensures k in Keys(t) <==> k in Keys(Statics(pairs)) {
          PutAllLookup([], Statics(pairs), k);
          LookupDefined(t, k);
          LastBindingDefined(Statics(pairs), k);
        }
      }
      t
  }

  /** The phrases `prefix + sep + s` for each `s` of `suffixes`, in order. */
  function Row(prefix: string, sep: string, suffixes: seq<string>): seq<string>
  {
    seq(|suffixes|, j requires 0 <= j < |suffixes| => prefix + sep + suffixes[j])
  }

  /** The nested-loop cartesian product: for each prefix in order, for each suffix in
      order, `prefix + sep + suffix`. */
  function Product(prefixes: seq<string>, sep: string, suffixes: seq<string>): seq<string>
    decreases |prefixes|
  {
    if prefixes == [] then []
    else
      var n := |prefixes| - 1;
      Product(prefixes[..n], sep, suffixes) + Row(prefixes[n], sep, suffixes)
  }

  /** The product holds `|prefixes| * |suffixes|` phrases, the one for prefix `i` and
      suffix `j` at position `i * |suffixes| + j`. */
  lemma ProductShape(prefixes: seq<string>, sep: string, suffixes: seq<string>)
    ensures |Product(prefixes, sep, suffixes)| == |prefixes| * |suffixes|
    ensures forall i, j :: 0 <= i < |prefixes| && 0 <= j < |suffixes| ==>
      Product(prefixes, sep, suffixes)[i * |suffixes| + j] == prefixes[i] + sep + suffixes[j]
  {
    ProductLength(prefixes, sep, suffixes);
    forall i, j | 0 <= i < |prefixes| && 0 <= j < |suffixes|
      ensures i * |suffixes| + j < |Product(prefixes, sep, suffixes)|
        && Product(prefixes, sep, suffixes)[i * |suffixes| + j] == prefixes[i] + sep + suffixes[j]
    {
      ProductAt(prefixes, sep, suffixes, i, j);
    }
  }

  lemma {:induction false} ProductLength(prefixes: seq<string>, sep: string, suffixes: seq<string>)
    ensures |Product(prefixes, sep, suffixes)| == |prefixes| * |suffixes|
    decreases |prefixes|
  {
    if prefixes != [] {
      var n := |prefixes| - 1;
      ProductLength(prefixes[..n], sep, suffixes);
      assert n * |suffixes| + |suffixes| == (n + 1) * |suffixes|;
    }
  }

  lemma {:induction false} ProductAt(prefixes: seq<string>, sep: string, suffixes: seq<string>, i: nat, j: nat)
    requires i < |prefixes| && j < |suffixes|
    ensures i * |suffixes| + j < |Product(prefixes, sep, suffixes)|
    ensures Product(prefixes, sep, suffixes)[i * |suffixes| + j] == prefixes[i] + sep + suffixes[j]
    decreases |prefixes|
  {
    var n := |prefixes| - 1;
    var m := |suffixes|;
    ProductLength(prefixes[..n], sep, suffixes);
    ProductLength(prefixes, sep, suffixes);
    if i < n {
      ProductAt(prefixes[..n], sep, suffixes, i, j);
      MulBelow(i, n, m);
      assert prefixes[..n][i] == prefixes[i];
    } else {
      MulBelow(i, n + 1, m);
    }
  }

  lemma MulBelow(i: nat, n: nat, m: nat)
    requires i < n
    ensures i * m + m <= n * m
    decreases n
  {
    if i + 1 < n {
      MulBelow(i, n - 1, m);
      assert (n - 1) * m + m == n * m;
    }
  }

  /** A phrase is in the product exactly when it joins some prefix to some suffix. */
  lemma ProductMember(prefixes: seq<string>, sep: string, suffixes: seq<string>, p: string)
    ensures p in Product(prefixes, sep, suffixes) <==>
      exists i, j :: 0 <= i < |prefixes| && 0 <= j < |suffixes| && p == prefixes[i] + sep + suffixes[j]
  {
    if p in Product(prefixes, sep, suffixes) {
      ProductOnlyJoins(prefixes, sep, suffixes, p);
    }
    if exists i, j :: 0 <= i < |prefixes| && 0 <= j < |suffixes| && p == prefixes[i] + sep + suffixes[j] {
      var i, j :| 0 <= i < |prefixes| && 0 <= j < |suffixes| && p == prefixes[i] + sep + suffixes[j];
      ProductAt(prefixes, sep, suffixes, i, j);
    }
  }

  lemma {:induction false} ProductOnlyJoins(prefixes: seq<string>, sep: string, suffixes: seq<string>, p: string)
    requires p in Product(prefixes, sep, suffixes)
    ensures exists i, j :: 0 <= i < |prefixes| && 0 <= j < |suffixes| && p == prefixes[i] + sep + suffixes[j]
    decreases |prefixes|
  {
    var n := |prefixes| - 1;
    if p in Product(prefixes[..n], sep, suffixes) {
      ProductOnlyJoins(prefixes[..n], sep, suffixes, p);
      var i, j :| 0 <= i < n && 0 <= j < |suffixes| && p == prefixes[..n][i] + sep + suffixes[j];
      assert p == prefixes[i] + sep + suffixes[j];
    } else {
      var j :| 0 <= j < |suffixes| && Row(prefixes[n], sep, suffixes)[j] == p;
      assert p == prefixes[n] + sep + suffixes[j];
    }
  }

  /** A phrase that starts with none of the prefixes is not in the product. */
  lemma NotInProduct(prefixes: seq<string>, sep: string, suffixes: seq<string>, p: string)
    requires forall q | q in prefixes :: !StartsWith(p, q)
    ensures p !in Product(prefixes, sep, suffixes)
  {
    ProductStartsWith(prefixes, sep, suffixes, p);
  }

  /** Every product phrase starts with one of the prefixes. */
  lemma ProductStartsWith(prefixes: seq<string>, sep: string, suffixes: seq<string>, p: string)
    ensures p in Product(prefixes, sep, suffixes) ==> exists q | q in prefixes :: StartsWith(p, q)
  {
    ProductMember(prefixes, sep, suffixes, p);
    if p in Product(prefixes, sep, suffixes) {
      var i, j :| 0 <= i < |prefixes| && 0 <= j < |suffixes| && p == prefixes[i] + sep + suffixes[j];
      assert prefixes[i] in prefixes && StartsWith(p, prefixes[i]);
    }
  }

  /** Every product phrase is at least as long as the shortest prefix, the
      separator and the shortest suffix together. */
  lemma ProductMinLength(prefixes: seq<string>, sep: string, suffixes: seq<string>, a: nat, b: nat)
    requires forall q | q in prefixes :: |q| >= a
    requires forall s | s in suffixes :: |s| >= b
    ensures forall p | p in Product(prefixes, sep, suffixes) :: |p| >= a + |sep| + b
  {
    forall p | p in Product(prefixes, sep, suffixes) ensures |p| >= a + |sep| + b {
      ProductMember(prefixes, sep, suffixes, p);
      var i, j :| 0 <= i < |prefixes| && 0 <= j < |suffixes| && p == prefixes[i] + sep + suffixes[j];
      assert prefixes[i] in prefixes && suffixes[j] in suffixes;
    }
  }

  /** Every product phrase ends with one of the suffixes. */
  lemma ProductEndsWith(prefixes: seq<string>, sep: string, suffixes: seq<string>, p: string)
    ensures p in Product(prefixes, sep, suffixes) ==> exists s | s in suffixes :: EndsWith(p, s)
  {
    if p in Product(prefixes, sep, suffixes) {
      ProductOnlyJoins(prefixes, sep, suffixes, p);
      var i, j :| 0 <= i < |prefixes| && 0 <= j < |suffixes| && p == prefixes[i] + sep + suffixes[j];
      JoinEnds(prefixes[i] + sep, suffixes[j]);
      assert suffixes[j] in suffixes;
    }
  }

  /** No phrase of a list that ends with none of the suffixes is generated. */
  lemma ListApart(phrases: seq<string>, prefixes: seq<string>, sep: string, suffixes: seq<string>)
    requires forall q, s | q in phrases && s in suffixes :: !EndsWith(q, s)
    ensures forall q | q in phrases :: q !in Product(prefixes, sep, suffixes)
  {
    forall q | q in phrases
      ensures q !in Product(prefixes, sep, suffixes)
    {
      ProductEndsWith(prefixes, sep, suffixes, q);
    }
  }

  /** Two templates none of whose suffixes ends another generate no phrase in common. */
  lemma ProductsApart(prefixes: seq<string>, sep: string, suffixes: seq<string>,
                      prefixes': seq<string>, sep': string, suffixes': seq<string>)
    requires forall s, t | s in suffixes && t in suffixes' :: !EndsWith(s, t) && !EndsWith(t, s)
    ensures forall p | p in Product(prefixes, sep, suffixes) :: p !in Product(prefixes', sep', suffixes')
  {
    forall p | p in Product(prefixes, sep, suffixes)
      ensures p !in Product(prefixes', sep', suffixes')
    {
      ProductEndsWith(prefixes, sep, suffixes, p);
      ProductEndsWith(prefixes', sep', suffixes', p);
      var s :| s in suffixes && EndsWith(p, s);
      if t :| t in suffixes' && EndsWith(p, t) {
        if |s| <= |t| {
          TwoEnds(p, s, t);
        } else {
          TwoEnds(p, t, s);
        }
      }
    }
  }

  /** A sequence with no phrase twice. */
  ghost predicate Distinct(phrases: seq<string>)
  {
    forall x, y :: 0 <= x < y < |phrases| ==> phrases[x] != phrases[y]
  }

  /** Distinct prefixes and suffixes none of which ends another generate no phrase
      twice. */
  lemma {:induction false} ProductDistinct(prefixes: seq<string>, sep: string, suffixes: seq<string>)
    requires Distinct(prefixes)
    requires forall j, l :: 0 <= j < |suffixes| && 0 <= l < |suffixes| && j != l ==>
      !EndsWith(suffixes[j], suffixes[l])
    ensures Distinct(Product(prefixes, sep, suffixes))
    decreases |prefixes|
  {
    if prefixes != [] {
      var n := |prefixes| - 1;
      var front := Product(prefixes[..n], sep, suffixes);
      var row := Row(prefixes[n], sep, suffixes);
      assert Distinct(prefixes[..n]) by {
        forall x, y | 0 <= x < y < n ensures prefixes[..n][x] != prefixes[..n][y] {
          assert prefixes[..n][x] == prefixes[x] && prefixes[..n][y] == prefixes[y];
        }
      }
      ProductDistinct(prefixes[..n], sep, suffixes);
      forall x, y | 0 <= x < y < |front + row|
        ensures (front + row)[x] != (front + row)[y]
      {
        if y < |front| {
          assert (front + row)[x] == front[x] && (front + row)[y] == front[y];
        } else if x >= |front| {
          RowApart(prefixes[n], sep, suffixes, x - |front|, y - |front|);
        } else {
          assert front[x] in front;
          FrontApartRow(prefixes, sep, suffixes, front[x], y - |front|);
        }
      }
    }
  }

  /** Two lists without a repeated phrase and without a common phrase join into a list
      without a repeated phrase. */
  lemma DistinctAppend(a: seq<string>, b: seq<string>)
    requires Distinct(a) && Distinct(b)
    requires forall p | p in a :: p !in b
    ensures Distinct(a + b)
  {
    forall x, y | 0 <= x < y < |a + b| ensures (a + b)[x] != (a + b)[y] {
      if x < |a| <= y {
        assert (a + b)[x] == a[x] && a[x] in a;
        assert (a + b)[y] == b[y - |a|];
      } else if |a| <= x {
        assert (a + b)[x] == b[x - |a|] && (a + b)[y] == b[y - |a|];
      } else {
        assert (a + b)[x] == a[x] && (a + b)[y] == a[y];
      }
    }
  }

  /** A table has unique phrases exactly when its list of phrases has no repeat. */
  lemma UniqueIsDistinct(t: Table)
    ensures UniqueKeys(t) <==> Distinct(Keys(t))
  {
    assert forall i | 0 <= i < |t| :: Keys(t)[i] == t[i].0;
  }

  /** One prefix joined to two different suffixes gives two different phrases. */
  lemma RowApart(prefix: string, sep: string, suffixes: seq<string>, j: nat, l: nat)
    requires j < l < |suffixes|
    requires !EndsWith(suffixes[j], suffixes[l]) && !EndsWith(suffixes[l], suffixes[j])
    ensures Row(prefix, sep, suffixes)[j] != Row(prefix, sep, suffixes)[l]
  {
    EndsItself(suffixes[j]);
    if Row(prefix, sep, suffixes)[j] == Row(prefix, sep, suffixes)[l] {
      JoinsEqual(prefix, prefix, sep, suffixes[j], suffixes[l]);
    }
  }

  /** A phrase made from an earlier prefix is never a phrase of the last prefix's row. */
  lemma FrontApartRow(prefixes: seq<string>, sep: string, suffixes: seq<string>, p: string, l: nat)
    requires prefixes != [] && Distinct(prefixes) && l < |suffixes|
    requires forall j, l :: 0 <= j < |suffixes| && 0 <= l < |suffixes| && j != l ==>
      !EndsWith(suffixes[j], suffixes[l])
    requires p in Product(prefixes[..|prefixes| - 1], sep, suffixes)
    ensures p != Row(prefixes[|prefixes| - 1], sep, suffixes)[l]
  {
    var n := |prefixes| - 1;
    ProductOnlyJoins(prefixes[..n], sep, suffixes, p);
    var i, j :| 0 <= i < n && 0 <= j < |suffixes| && p == prefixes[..n][i] + sep + suffixes[j];
    assert prefixes[..n][i] == prefixes[i];
    if p == Row(prefixes[n], sep, suffixes)[l] {
      JoinsEqual(prefixes[i], prefixes[n], sep, suffixes[j], suffixes[l]);
    }
  }

  /** Every phrase of a list bound to the same handler. */
  function Bind(phrases: seq<string>, h: Handler): seq<Entry>
  {
    seq(|phrases|, i requires 0 <= i < |phrases| => (phrases[i], h))
  }

  /** The phrases of a bound list are the list itself. */
  lemma BindKeys(phrases: seq<string>, h: Handler)
    ensures Keys(Bind(phrases, h)) == phrases
  {
  }

  /** The entries of a bound list are its phrases, each with that handler. */
  lemma BindMember(phrases: seq<string>, h: Handler, e: Entry)
    ensures e in Bind(phrases, h) <==> e.0 in phrases && e.1 == h
  {
    if e.0 in phrases && e.1 == h {
      var i :| 0 <= i < |phrases| && phrases[i] == e.0;
      assert Bind(phrases, h)[i] == e;
    }
  }

  /** Inserting a uniformly bound list binds exactly its phrases to that handler. */
  lemma {:induction false} LastBindingBind(phrases: seq<string>, h: Handler, k: string)
    ensures LastBinding(Bind(phrases, h), k) == if k in phrases then Some(h) else None
    decreases |phrases|
  {
    if phrases != [] {
      var n := |phrases| - 1;
      assert Bind(phrases, h)[..n] == Bind(phrases[..n], h);
      LastBindingBind(phrases[..n], h, k);
      assert phrases == phrases[..n] + [phrases[n]];
    }
  }

  /** Inserting `a + b`: a key bound by `b` takes its value from `b`, otherwise from `a`. */
  lemma {:induction false} LastBindingAppend(a: seq<Entry>, b: seq<Entry>, k: string)
    ensures LastBinding(a + b, k) ==
      if LastBinding(b, k).Some? then LastBinding(b, k) else LastBinding(a, k)
    decreases |b|
  {
    if b == [] {
      assert a + b == a;
    } else {
      var n := |b| - 1;
      assert (a + b)[..|a + b| - 1] == a + b[..n];
      LastBindingAppend(a, b[..n], k);
    }
  }

  /** A binding that survives was made by some entry. */
  lemma {:induction false} LastBindingFrom(es: seq<Entry>, k: string, v: Handler)
    requires LastBinding(es, k) == Some(v)
    ensures (k, v) in es
    decreases |es|
  {
    var n := |es| - 1;
    if es[n].0 != k {
      LastBindingFrom(es[..n], k, v);
    }
  }

  // The template lists of `_generate_extended_commands`.
  const TimePrefixes: seq<string> := ["what's", "tell me", "what is", "do you know", "can you tell me"]
  const TimeSuffixes: seq<string> := ["the time", "the current time", "what time it is", "the hour"]
  const DatePrefixes: seq<string> := ["what's", "tell me", "what is", "do you know", "can you tell me"]
  const DateSuffixes: seq<string> := ["the date", "today's date", "what day it is", "the day", "today"]
  const JokePrefixes: seq<string> := ["tell", "say", "give", "share", "do you know"]
  const JokeObjects: seq<string> := ["a joke", "something funny", "a funny joke", "a good joke", "something humorous"]
  const GreetingVariations: seq<string> :=
    ["hello there", "good morning", "good afternoon", "good evening",
     "hi there", "hey there", "greetings", "howdy", "what's up"]
  /** The keys of the `system_commands` dict, each bound to `stop`. */
  const SystemPhrases: seq<string> :=
    ["turn off", "shutdown", "go to sleep", "end program", "stop program", "terminate"]
  const HelpVariations: seq<string> :=
    ["what commands", "show commands", "command list", "available commands",
     "what can I say", "command help", "instructions", "how to use"]
  const CalcCommands: seq<string> := ["calculate", "compute", "what is", "solve", "evaluate"]
  const CalcExamples: seq<string> :=
    ["2 plus 2", "5 minus 3", "4 times 6", "8 divided by 2", "square root of 16", "7 squared"]
  /** The keys of the `music_commands` dict, each bound to the music stub. */
  const MusicPhrases: seq<string> :=
    ["play music", "play some music", "start music", "next song", "previous song",
     "pause music", "stop music"]
  /** The keys of the `weather_commands` dict, each bound to the weather stub. */
  const WeatherPhrases: seq<string> :=
    ["what's the weather", "tell me the weather", "weather forecast", "is it going to rain",
     "temperature outside"]

  function TimePhrases(): seq<string> { Product(TimePrefixes, " ", TimeSuffixes) }
  function DatePhrases(): seq<string> { Product(DatePrefixes, " ", DateSuffixes) }
  function JokePhrases(): seq<string> { Product(JokePrefixes, " me ", JokeObjects) }
  function CalcPhrases(): seq<string> { Product(CalcCommands, " ", CalcExamples) }

  /** Every assignment `_generate_extended_commands` makes, in the order it makes them. */
  function Insertions(): seq<Entry>
  {
    Bind(TimePhrases(), Time) + Bind(DatePhrases(), Date) + Bind(JokePhrases(), Joke)
    + Bind(GreetingVariations, Greeting) + Bind(SystemPhrases, Stop) + Bind(HelpVariations, Help)
    + Bind(CalcPhrases(), CalculatorStub) + Bind(MusicPhrases, MusicStub) + Bind(WeatherPhrases, WeatherStub)
  }

  /** The table `_generate_extended_commands` returns. */
  function ExtendedCommands(): Table
  {
    PutAll([], Insertions())
  }

  /** `self.all_commands` for a given commands file. */
  function AllCommands(file: Option<seq<(string, string)>>): Table
  {
    Merge(LoadCommands(file), ExtendedCommands())
  }

  /** The templates expand to 5 x 4 time phrases, 5 x 5 date phrases, 5 x 5 joke
      phrases and 5 x 6 calculator phrases, each prefix joined to each suffix in
      loop order: by `" "`, or by `" me "` for the jokes. */
  lemma TemplateSizes()
    ensures |TimePhrases()| == 20 && |DatePhrases()| == 25
    ensures |JokePhrases()| == 25 && |CalcPhrases()| == 30
    ensures forall i, j :: 0 <= i < 5 && 0 <= j < 4 ==>
      TimePhrases()[4 * i + j] == TimePrefixes[i] + " " + TimeSuffixes[j]
    ensures forall i, j :: 0 <= i < 5 && 0 <= j < 5 ==>
      DatePhrases()[5 * i + j] == DatePrefixes[i] + " " + DateSuffixes[j]
    ensures forall i, j :: 0 <= i < 5 && 0 <= j < 5 ==>
      JokePhrases()[5 * i + j] == JokePrefixes[i] + " me " + JokeObjects[j]
    ensures forall i, j :: 0 <= i < 5 && 0 <= j < 6 ==>
      CalcPhrases()[6 * i + j] == CalcCommands[i] + " " + CalcExamples[j]
  {
    ProductShape(TimePrefixes, " ", TimeSuffixes);
    ProductShape(DatePrefixes, " ", DateSuffixes);
    ProductShape(JokePrefixes, " me ", JokeObjects);
    ProductShape(CalcCommands, " ", CalcExamples);
  }

  /** What the extended table binds a phrase to: the category inserted last among
      those that generate the phrase, since a later assignment overwrites an earlier
      one; `None` when no template generates it. */
  lemma ExtendedLookup(k: string)
    ensures Lookup(ExtendedCommands(), k) ==
      if k in WeatherPhrases then Some(WeatherStub)
      else if k in MusicPhrases then Some(MusicStub)
      else if k in CalcPhrases() then Some(CalculatorStub)
      else if k in HelpVariations then Some(Help)
      else if k in SystemPhrases then Some(Stop)
      else if k in GreetingVariations then Some(Greeting)
      else if k in JokePhrases() then Some(Joke)
      else if k in DatePhrases() then Some(Date)
      else if k in TimePhrases() then Some(Time)
      else None
  {
    var a := Bind(TimePhrases(), Time);
    var b := a + Bind(DatePhrases(), Date);
    var c := b + Bind(JokePhrases(), Joke);
    var d := c + Bind(GreetingVariations, Greeting);
    var e := d + Bind(SystemPhrases, Stop);
    var f := e + Bind(HelpVariations, Help);
    var g := f + Bind(CalcPhrases(), CalculatorStub);
    var h := g + Bind(MusicPhrases, MusicStub);
    assert Insertions() == h + Bind(WeatherPhrases, WeatherStub);
    PutAllLookup([], Insertions(), k);
    LastBindingAppend(h, Bind(WeatherPhrases, WeatherStub), k);
    LastBindingAppend(g, Bind(MusicPhrases, MusicStub), k);
    LastBindingAppend(f, Bind(CalcPhrases(), CalculatorStub), k);
    LastBindingAppend(e, Bind(HelpVariations, Help), k);
    LastBindingAppend(d, Bind(SystemPhrases, Stop), k);
    LastBindingAppend(c, Bind(GreetingVariations, Greeting), k);
    LastBindingAppend(b, Bind(JokePhrases(), Joke), k);
    LastBindingAppend(a, Bind(DatePhrases(), Date), k);
    LastBindingBind(WeatherPhrases, WeatherStub, k);
    LastBindingBind(MusicPhrases, MusicStub, k);
    LastBindingBind(CalcPhrases(), CalculatorStub, k);
    LastBindingBind(HelpVariations, Help, k);
    LastBindingBind(SystemPhrases, Stop, k);
    LastBindingBind(GreetingVariations, Greeting, k);
    LastBindingBind(JokePhrases(), Joke, k);
    LastBindingBind(DatePhrases(), Date, k);
    LastBindingBind(TimePhrases(), Time, k);
  }

  /** `_generate_extended_commands`, written as the source writes it: nested loops
      over each template's lists assigning into a dict that starts empty, and
      `update` calls for the literal sub-tables. */
  method GenerateExtended() returns (ext: Table)
    ensures ext == ExtendedCommands()
  {
    ext := [];
    ext := AddProduct(ext, TimePrefixes, " ", TimeSuffixes, Time);
    ghost var done := Bind(TimePhrases(), Time);
    ext := AddProduct(ext, DatePrefixes, " ", DateSuffixes, Date);
    PutAllAppend([], done, Bind(DatePhrases(), Date));
    done := done + Bind(DatePhrases(), Date);
    ext := AddProduct(ext, JokePrefixes, " me ", JokeObjects, Joke);
    PutAllAppend([], done, Bind(JokePhrases(), Joke));
    done := done + Bind(JokePhrases(), Joke);
    ext := AddEach(ext, GreetingVariations, Greeting);
    PutAllAppend([], done, Bind(GreetingVariations, Greeting));
    done := done + Bind(GreetingVariations, Greeting);
    ext := PutAll(ext, Bind(SystemPhrases, Stop));
    PutAllAppend([], done, Bind(SystemPhrases, Stop));
    done := done + Bind(SystemPhrases, Stop);
    ext := AddEach(ext, HelpVariations, Help);
    PutAllAppend([], done, Bind(HelpVariations, Help));
    done := done + Bind(HelpVariations, Help);
    ext := AddProduct(ext, CalcCommands, " ", CalcExamples, CalculatorStub);
    PutAllAppend([], done, Bind(CalcPhrases(), CalculatorStub));
    done := done + Bind(CalcPhrases(), CalculatorStub);
    ext := PutAll(ext, Bind(MusicPhrases, MusicStub));
    PutAllAppend([], done, Bind(MusicPhrases, MusicStub));
    done := done + Bind(MusicPhrases, MusicStub);
    ext := PutAll(ext, Bind(WeatherPhrases, WeatherStub));
    PutAllAppend([], done, Bind(WeatherPhrases, WeatherStub));
    done := done + Bind(WeatherPhrases, WeatherStub);
    assert done == Insertions();
  }

  /** `for prefix in prefixes: for suffix in suffixes: t[prefix + sep + suffix] = h`. */
  method AddProduct(t: Table, prefixes: seq<string>, sep: string, suffixes: seq<string>, h: Handler)
    returns (r: Table)
    ensures r == PutAll(t, Bind(Product(prefixes, sep, suffixes), h))
  {
    r := t;
    for i := 0 to |prefixes|
      invariant r == PutAll(t, Bind(Product(prefixes[..i], sep, suffixes), h))
    {
      ghost var before := Bind(Product(prefixes[..i], sep, suffixes), h);
      assert Bind(Row(prefixes[i], sep, suffixes[..0]), h) == [];
      assert before + [] == before;
      for j := 0 to |suffixes|
        invariant r == PutAll(t, before + Bind(Row(prefixes[i], sep, suffixes[..j]), h))
      {
        var phrase := prefixes[i] + sep + suffixes[j];
        InsertStep(t, before, Bind(Row(prefixes[i], sep, suffixes[..j]), h), phrase, h);
        RowStep(prefixes[i], sep, suffixes, j, h);
        r := Put(r, phrase, h);
      }
      ProductStep(prefixes, sep, suffixes, i, h);
    }
    assert prefixes[..|prefixes|] == prefixes;
  }

  /** Assigning one more phrase extends the run of insertions by one. */
  lemma InsertStep(t: Table, before: seq<Entry>, done: seq<Entry>, phrase: string, h: Handler)
    ensures PutAll(t, before + (done + [(phrase, h)])) == Put(PutAll(t, before + done), phrase, h)
  {
    var es := before + (done + [(phrase, h)]);
    assert es[..|es| - 1] == before + done;
    PutAllLast(t, es);
  }

  /** The row for one prefix grows by one suffix at a time. */
  lemma RowStep(prefix: string, sep: string, suffixes: seq<string>, j: nat, h: Handler)
    requires j < |suffixes|
    ensures Bind(Row(prefix, sep, suffixes[..j + 1]), h)
         == Bind(Row(prefix, sep, suffixes[..j]), h) + [(prefix + sep + suffixes[j], h)]
  {
  }

  /** The product grows by one whole row per prefix. */
  lemma ProductStep(prefixes: seq<string>, sep: string, suffixes: seq<string>, i: nat, h: Handler)
    requires i < |prefixes|
    ensures Bind(Product(prefixes[..i + 1], sep, suffixes), h)
         == Bind(Product(prefixes[..i], sep, suffixes), h) + Bind(Row(prefixes[i], sep, suffixes[..|suffixes|]), h)
  {
    assert prefixes[..i + 1][..i] == prefixes[..i];
    assert suffixes[..|suffixes|] == suffixes;
    BindAppend(Product(prefixes[..i], sep, suffixes), Row(prefixes[i], sep, suffixes), h);
  }

  lemma BindAppend(a: seq<string>, b: seq<string>, h: Handler)
    ensures Bind(a + b, h) == Bind(a, h) + Bind(b, h)
  {
  }

  /** `for phrase in phrases: t[phrase] = h`. */
  method AddEach(t: Table, phrases: seq<string>, h: Handler) returns (r: Table)
    ensures r == PutAll(t, Bind(phrases, h))
  {
    r := t;
    for i := 0 to |phrases|
      invariant r == PutAll(t, Bind(phrases[..i], h))
    {
      r := Put(r, phrases[i], h);
      assert Bind(phrases[..i + 1], h)[..i] == Bind(phrases[..i], h);
      PutAllLast(t, Bind(phrases[..i + 1], h));
    }
    assert phrases[..|phrases|] == phrases;
  }
}
