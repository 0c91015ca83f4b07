/**
  The server browser search: the filter is parsed once and evaluated over the values of every server
  of the game, in order.
 */
module ServerFilter {
  import opened FilterGrammar
  import opened FilterValue
  import FilterEval
  import FilterMeaning
  import FilterParser

  type Server = map<string, string>

  /** The game searched for, and the pattern matcher that evaluation needs. */
  datatype Search = Search(game: string, like: (string, string) -> Outcome<int>) {
    function Over(server: Server): Env {
      Env(server, game, like)
    }

    predicate Concerns(server: Server) {
      Over(server).Get("gamename") == game
    }
  }

  /** The servers of the game whose filter value is not zero; the first server without a value ends the search. */
  function Selected(q: Search, tree: Tree, servers: seq<Server>): Outcome<seq<Server>> {
    if servers == [] then Ok([])
    else
      var before :- Selected(q, tree, Front(servers));
      var server := Last(servers);
      if !q.Concerns(server) then Ok(before)
      else
        var x :- Eval(q.Over(server), tree);
        Ok(if x != 0 then before + [server] else before)
  }

  lemma {:induction false} SelectedAppend(q: Search, tree: Tree, servers: seq<Server>, more: seq<Server>)
    requires !Selected(q, tree, servers).Ok?
    ensures Selected(q, tree, servers + more) == Selected(q, tree, servers)
  {
    if more == [] {
      assert servers + more == servers;
    } else {
      assert Front(servers + more) == servers + Front(more);
      SelectedAppend(q, tree, servers, Front(more));
    }
  }

  lemma {:induction false} SelectedStep(q: Search, tree: Tree, servers: seq<Server>, i: nat)
    requires i < |servers|
    ensures Selected(q, tree, servers[..i + 1])
         == (var before :- Selected(q, tree, servers[..i]);
             if !q.Concerns(servers[i]) then Ok(before)
             else var x :- Eval(q.Over(servers[i]), tree); Ok(if x != 0 then before + [servers[i]] else before))
  {
    assert Front(servers[..i + 1]) == servers[..i] && Last(servers[..i + 1]) == servers[i];
  }

  lemma {:induction false} FailsAt(q: Search, tree: Tree, servers: seq<Server>, k: nat, before: seq<Server>, x: Outcome<int>)
    requires k < |servers| && Selected(q, tree, servers[..k]) == Ok(before)
    requires q.Concerns(servers[k]) && Eval(q.Over(servers[k]), tree) == x && !x.Ok?
    ensures Selected(q, tree, servers) == if x.Fault? then Fault else Escape
  {
    SelectedStep(q, tree, servers, k);
    SelectedAppend(q, tree, servers[..k + 1], servers[k + 1..]);
    assert servers[..k + 1] + servers[k + 1..] == servers;
  }

  /** An unreadable filter or a fault finds nothing; an escaping panic has no answer. */
  function Found(q: Search, tokens: seq<Token>, servers: seq<Server>): Outcome<seq<Server>> {
    match Parse(tokens)
    case Failed => Ok([])
    case Accepted(tree) =>
      var selected := Selected(q, tree, servers);
      if selected.Fault? then Ok([]) else selected
  }

  method Evaluate(q: Search, server: Server, root: FilterParser.TreeNode, ghost finished: map<FilterParser.TreeNode, Tree>)
    returns (ret: Outcome<int>)
    requires root in finished && FilterParser.HeapTree(finished)
    ensures ret == Eval(q.Over(server), finished[root])
  {
    var e := new FilterEval.Expression(q.Over(server), finished);
    ret := e.Eval(root);
  }

  method FilterServers(q: Search, tokens: seq<Token>, servers: seq<Server>) returns (r: Outcome<seq<Server>>)
    ensures r == Found(q, tokens, servers)
  {
    var root, finished := FilterParser.Parse(tokens);
    if root == null {
      return Ok([]);
    }
    ghost var tree := finished[root];
    var filtered: seq<Server> := [];
    for i := 0 to |servers|
      invariant Selected(q, tree, servers[..i]) == Ok(filtered)
      invariant root in finished && finished[root] == tree && FilterParser.HeapTree(finished)
    {
      SelectedStep(q, tree, servers, i);
      if q.Concerns(servers[i]) {
        var ret := Evaluate(q, servers[i], root, finished);
        if !ret.Ok? {
          SelectedAppend(q, tree, servers[..i + 1], servers[i + 1..]);
          assert servers[..i + 1] + servers[i + 1..] == servers;
          return if ret.Fault? then Ok([]) else Escape;
        }
        if ret.value != 0 {
          filtered := filtered + [servers[i]];
        }
      }
    }
    assert servers[..|servers|] == servers;
    r := Ok(filtered);
  }

  // ----- What a search finds -----

  function TreeOf(c: FilterMeaning.Chain): Tree {
    Node(Base, [FilterMeaning.ExprTree(FilterMeaning.Filter(c))])
  }

  function MeansOn(q: Search, c: FilterMeaning.Chain, server: Server): Outcome<int> {
    FilterMeaning.Means(q.Over(server), FilterMeaning.Filter(c))
  }

  ghost predicate Matches(q: Search, c: FilterMeaning.Chain, server: Server) {
    q.Concerns(server) && FilterMeaning.Accepts(q.Over(server), c)
  }

  ghost function Matching(q: Search, c: FilterMeaning.Chain, servers: seq<Server>): seq<Server> {
    if servers == [] then []
    else Matching(q, c, Front(servers)) + if Matches(q, c, Last(servers)) then [Last(servers)] else []
  }

  /** The filter has a value on every server of the game. */
  ghost predicate Valued(q: Search, c: FilterMeaning.Chain, servers: seq<Server>) {
    forall i :: 0 <= i < |servers| && q.Concerns(servers[i]) ==> MeansOn(q, c, servers[i]).Ok?
  }

  lemma {:induction false} ValueOn(q: Search, c: FilterMeaning.Chain, server: Server)
    requires FilterMeaning.GoodChain(c)
    ensures Parse(FilterMeaning.ChainTokens(c)) == Accepted(TreeOf(c))
    ensures Eval(q.Over(server), TreeOf(c)) == MeansOn(q, c, server)
    ensures MeansOn(q, c, server).Ok? && MeansOn(q, c, server).value != 0 <==> FilterMeaning.Accepts(q.Over(server), c)
  {
    FilterMeaning.ParsesTo(FilterMeaning.Filter(c));
    FilterMeaning.ParseEval(q.Over(server), FilterMeaning.Filter(c));
    FilterMeaning.FilterAccepts(q.Over(server), c);
  }

  /** With a value on every server of the game, exactly the matching ones are selected, in order. */
  lemma {:induction false} SelectsMatching(q: Search, c: FilterMeaning.Chain, servers: seq<Server>)
    requires FilterMeaning.GoodChain(c) && Valued(q, c, servers)
    ensures Selected(q, TreeOf(c), servers) == Ok(Matching(q, c, servers))
  {
    if servers != [] {
      SelectsMatching(q, c, Front(servers));
      ValueOn(q, c, Last(servers));
      assert Matching(q, c, Front(servers)) + [] == Matching(q, c, Front(servers));
    }
  }

  /** The first server of the game without a value decides how the search fails. */
  lemma {:induction false} FirstUnvalued(q: Search, c: FilterMeaning.Chain, servers: seq<Server>, k: nat)
    requires FilterMeaning.GoodChain(c) && k < |servers| && Valued(q, c, servers[..k])
    requires q.Concerns(servers[k]) && !MeansOn(q, c, servers[k]).Ok?
    ensures Selected(q, TreeOf(c), servers) == if MeansOn(q, c, servers[k]).Fault? then Fault else Escape
  {
    var tree := TreeOf(c);
    SelectsMatching(q, c, servers[..k]);
    ValueOn(q, c, servers[k]);
    FailsAt(q, tree, servers, k, Matching(q, c, servers[..k]), MeansOn(q, c, servers[k]));
  }

  /**
    A search finds, in order, exactly the servers of the game that the filter accepts. When it has no
    value on some of them the first such one decides: a fault finds nothing, an escape has no answer.
   */
  lemma {:induction false} SearchFindsMatching(q: Search, c: FilterMeaning.Chain, servers: seq<Server>)
    requires FilterMeaning.GoodChain(c)
    ensures Valued(q, c, servers) ==> Found(q, FilterMeaning.ChainTokens(c), servers) == Ok(Matching(q, c, servers))
    ensures forall k :: 0 <= k < |servers| && Valued(q, c, servers[..k]) && q.Concerns(servers[k]) && !MeansOn(q, c, servers[k]).Ok? ==>
              Found(q, FilterMeaning.ChainTokens(c), servers) == if MeansOn(q, c, servers[k]).Fault? then Ok([]) else Escape
  {
    FilterMeaning.ParsesTo(FilterMeaning.Filter(c));
    if Valued(q, c, servers) {
      SelectsMatching(q, c, servers);
    }
    forall k | 0 <= k < |servers| && Valued(q, c, servers[..k]) && q.Concerns(servers[k]) && !MeansOn(q, c, servers[k]).Ok?
      ensures Found(q, FilterMeaning.ChainTokens(c), servers) == if MeansOn(q, c, servers[k]).Fault? then Ok([]) else Escape
    {
      FirstUnvalued(q, c, servers, k);
    }
  }

  lemma {:induction false} MatchingHolds(q: Search, c: FilterMeaning.Chain, servers: seq<Server>, server: Server)
    ensures server in Matching(q, c, servers) <==> server in servers && Matches(q, c, server)
  {
    if servers != [] {
      MatchingHolds(q, c, Front(servers), server);
      assert servers == Front(servers) + [Last(servers)];
    }
  }
}
