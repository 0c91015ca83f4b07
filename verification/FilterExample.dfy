/** The matchmaking search that clients of Mario Kart Wii send, in terms of the texts of a server. */
module FilterExample {
  import opened FilterGrammar
  import opened FilterMeaning
  import opened FilterValue
  import FilterBasics
  import ServerFilter

  function Is(name: string, op: string, x: int): Term {
    Compare(op, Operand.Leaf(Identity(name)), Operand.Leaf(Number(x)))
  }

  function Regions(): Term {
    Compare("=", Operand.Leaf(Identity("rk")), Operand.Leaf(Text("vs")))
  }

  /** rk = 'vs' and ev >= 4250 and ev <= 5750 and p = 0 */
  function Wanted(): Chain {
    And(And(And(One(Regions()), "and", Is("ev", ">=", 4250)), "and", Is("ev", "<=", 5750)), "and", Is("p", "=", 0))
  }

  /** dwc_mver = 90 and dwc_pid != 43 and numplayers < 11 and (...) */
  function Matchmaking(): Chain {
    And(And(And(One(Is("dwc_mver", "=", 90)), "and", Is("dwc_pid", "!=", 43)), "and", Is("numplayers", "<", 11)),
        "and", Plain(Paren(Filter(Wanted()))))
  }

  lemma {:induction false} Numbers()
    ensures FormatInt(90) == "90" && FormatInt(43) == "43" && FormatInt(0) == "0"
  {
    assert Digits(9) == "9" && Digits(4) == "4";
  }

  lemma {:induction false} Words()
    ensures Lower("=") == "=" && Lower("!=") == "!=" && Lower("<") == "<" && Lower(">=") == ">=" && Lower("<=") == "<="
    ensures Level("=") == 3 && Level("!=") == 3 && Level("<") == 3 && Level(">=") == 3 && Level("<=") == 3
    ensures Level("and") == 2
  {
    assert Lower("and") == "and";
  }

  lemma {:induction false} SameText(env: Env, name: string, x: int)
    requires name != "rk"
    ensures TermHolds(env, Is(name, "=", x)) == Ok(true) <==> env.Get(name) == FormatInt(x)
    ensures TermHolds(env, Is(name, "!=", x)) == Ok(true) <==> env.Get(name) != FormatInt(x)
  {
    Words();
    var l, r := Operand.Leaf(Identity(name)), Operand.Leaf(Number(x));
    assert !Overridden(env, l, ["rk"]) && Stands(env, l) == Ok(env.Get(name)) && Stands(env, r) == Ok(FormatInt(x));
    assert TermHolds(env, Compare("=", l, r)) == Compares(env, Compare("=", l, r)) == Ok(env.Get(name) == FormatInt(x));
    assert TermHolds(env, Compare("!=", l, r)) == Compares(env, Compare("!=", l, r)) == Ok(env.Get(name) != FormatInt(x));
  }

  lemma {:induction false} FewerThan(env: Env, name: string, x: int)
    requires name !in ["ev", "eb"]
    ensures TermHolds(env, Is(name, "<", x)) == Ok(true) <==> ParseInt(env.Get(name)).Ok? && ParseInt(env.Get(name)).value < x
  {
    Words();
    var l, r := Operand.Leaf(Identity(name)), Operand.Leaf(Number(x));
    assert !Overridden(env, l, ["ev", "eb"]) && Counts(env, l) == ParseInt(env.Get(name)) && Counts(env, r) == Ok(x);
    assert TermHolds(env, Compare("<", l, r)) == Compares(env, Compare("<", l, r));
  }

  predicate AnyRegion(text: string) {
    text == "vs" || exists d :: d in "012345" && text == "vs_" + [d]
  }

  /** Ratings are not compared, and a region behind vs does not matter. */
  lemma {:induction false} OverridesHold(env: Env, x: int)
    requires env.queryGame == "mariokartwii"
    ensures TermHolds(env, Is("ev", ">=", x)) == Ok(true) && TermHolds(env, Is("ev", "<=", x)) == Ok(true)
    ensures TermHolds(env, Regions()) == Ok(true) <==> AnyRegion(env.Get("rk"))
  {
    Words();
    FilterBasics.RegionFreeMeans(env.Get("rk"));
    assert Overridden(env, Operand.Leaf(Identity("ev")), ["ev", "eb"]);
    assert Overridden(env, Operand.Leaf(Identity("rk")), ["rk"]);
    assert RegionFree("vs") == "vs" && Stands(env, Operand.Leaf(Text("vs"))) == Ok("vs");
    assert TermHolds(env, Regions()) == Ok(RegionFree(env.Get("rk")) == "vs");
  }

  lemma {:induction false} BothHold(env: Env, init: Chain, word: string, t: Term)
    ensures ChainHolds(env, And(init, word, t)) == Ok(true) <==> ChainHolds(env, init) == Ok(true) && TermHolds(env, t) == Ok(true)
  {
  }

  lemma {:induction false} WantedHolds(env: Env)
    requires env.queryGame == "mariokartwii"
    ensures ChainHolds(env, Wanted()) == Ok(true) <==> AnyRegion(env.Get("rk")) && env.Get("p") == "0"
  {
    var region := One(Regions());
    var above := And(region, "and", Is("ev", ">=", 4250));
    var below := And(above, "and", Is("ev", "<=", 5750));
    Numbers();
    OverridesHold(env, 4250);
    OverridesHold(env, 5750);
    SameText(env, "p", 0);
    assert ChainHolds(env, region) == TermHolds(env, Regions());
    BothHold(env, region, "and", Is("ev", ">=", 4250));
    BothHold(env, above, "and", Is("ev", "<=", 5750));
    BothHold(env, below, "and", Is("p", "=", 0));
  }

  lemma {:induction false} BracketHolds(env: Env, c: Chain)
    requires c.And?
    ensures TermHolds(env, Plain(Paren(Filter(c)))) == Ok(true) <==> ChainHolds(env, c) == Ok(true)
  {
  }

  lemma {:induction false} IsGood(name: string, x: int)
    ensures forall op :: op in ["=", "!=", "<", ">=", "<="] ==> GoodTerm(Is(name, op, x))
  {
    Words();
  }

  lemma {:induction false} MatchmakingGood()
    ensures GoodChain(Wanted()) && GoodChain(Matchmaking())
  {
    Words();
    IsGood("ev", 4250);
    IsGood("ev", 5750);
    IsGood("p", 0);
    assert GoodTerm(Regions()) && GoodChain(Wanted());
    IsGood("dwc_mver", 90);
    IsGood("dwc_pid", 43);
    IsGood("numplayers", 11);
    assert GoodTerm(Plain(Paren(Filter(Wanted()))));
  }

  lemma {:induction false} MatchmakingHolds(env: Env)
    requires env.queryGame == "mariokartwii"
    ensures ChainHolds(env, Matchmaking()) == Ok(true) <==>
            && env.Get("dwc_mver") == "90" && env.Get("dwc_pid") != "43"
            && ParseInt(env.Get("numplayers")).Ok? && ParseInt(env.Get("numplayers")).value < 11
            && AnyRegion(env.Get("rk")) && env.Get("p") == "0"
  {
    var version := One(Is("dwc_mver", "=", 90));
    var others := And(version, "and", Is("dwc_pid", "!=", 43));
    var free := And(others, "and", Is("numplayers", "<", 11));
    Numbers();
    SameText(env, "dwc_mver", 90);
    SameText(env, "dwc_pid", 43);
    FewerThan(env, "numplayers", 11);
    assert ChainHolds(env, version) == TermHolds(env, Is("dwc_mver", "=", 90));
    BothHold(env, version, "and", Is("dwc_pid", "!=", 43));
    BothHold(env, others, "and", Is("numplayers", "<", 11));
    BothHold(env, free, "and", Plain(Paren(Filter(Wanted()))));
    BracketHolds(env, Wanted());
    WantedHolds(env);
  }

  /** Which servers of the game the search finds, in terms of their texts. */
  lemma {:induction false} MatchmakingFinds(env: Env)
    requires env.queryGame == "mariokartwii"
    ensures Parse(ChainTokens(Matchmaking())).Accepted?
    ensures var r := Eval(env, Parse(ChainTokens(Matchmaking())).tree);
            r.Ok? && r.value != 0 <==>
            && env.Get("dwc_mver") == "90" && env.Get("dwc_pid") != "43"
            && ParseInt(env.Get("numplayers")).Ok? && ParseInt(env.Get("numplayers")).value < 11
            && (env.Get("rk") == "vs" || exists d :: d in "012345" && env.Get("rk") == "vs_" + [d])
            && env.Get("p") == "0"
  {
    var c := Matchmaking();
    MatchmakingGood();
    MatchmakingHolds(env);
    FilterAccepts(env, c);
    ChainIsConjunction(env, c);
  }

  lemma {:induction false} VersionHolds(env: Env)
    ensures GoodChain(One(Is("dwc_mver", "=", 90)))
    ensures Means(env, Filter(One(Is("dwc_mver", "=", 90)))) == Ok(if env.Get("dwc_mver") == "90" then 1 else 0)
  {
    Words();
    Numbers();
    var t := Is("dwc_mver", "=", 90);
    assert TermHolds(env, t) == Ok(env.Get("dwc_mver") == "90");
    assert ChainHolds(env, One(t)) == TermHolds(env, t);
  }

  /** A server whose version reads 90 is found, one that reads 09 is not. */
  lemma {:induction false} VersionSearch(game: string, like: (string, string) -> Outcome<int>, version: string)
    ensures var server := map["gamename" := game, "dwc_mver" := version];
            var tokens := [Value(Identity("dwc_mver")), Op("="), Value(Number(90))];
            ServerFilter.Found(ServerFilter.Search(game, like), tokens, [server]) == Ok(if version == "90" then [server] else [])
  {
    var q, server := ServerFilter.Search(game, like), map["gamename" := game, "dwc_mver" := version];
    var c := One(Is("dwc_mver", "=", 90));
    var env := q.Over(server);
    VersionHolds(env);
    assert ChainTokens(c) == [Value(Identity("dwc_mver")), Op("="), Value(Number(90))];
    FilterAccepts(env, c);
    ParseEval(env, Filter(c));
    OneServer(q, c, server);
  }

  lemma {:induction false} OneServer(q: ServerFilter.Search, c: Chain, server: ServerFilter.Server)
    requires GoodChain(c) && q.Concerns(server) && Means(q.Over(server), Filter(c)).Ok?
    ensures ServerFilter.Found(q, ChainTokens(c), [server]) == Ok(if Means(q.Over(server), Filter(c)).value != 0 then [server] else [])
  {
    ServerFilter.ValueOn(q, c, server);
    ServerFilter.SearchFindsMatching(q, c, [server]);
    assert Front([server]) == [] && Last([server]) == server;
    assert ServerFilter.Matching(q, c, []) == [];
    assert ServerFilter.Valued(q, c, [server]);
    assert ServerFilter.Matches(q, c, server) <==> Means(q.Over(server), Filter(c)).value != 0;
    assert [] + [server] == [server];
  }
}
