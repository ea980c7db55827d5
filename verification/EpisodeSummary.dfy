/** Aggregation of validated episodes (`_aggregate_episodes`) and what the checked balance of the
    final panel makes of its means (`_validate_run_science`). */
module EpisodeSummary {
  import opened Reals
  import opened Options
  import opened Counting

  datatype Role = RoleY | RoleP | RoleQ | RoleR

  const ROLES: seq<Role> := [RoleY, RoleP, RoleQ, RoleR]

  /** The endpoints of every episode, reported as plain means. */
  datatype Endpoint =
    | InformationFraction | QueryCount | DeclaredReady | EarlyReady | ExactRecovery | StatedAgreement
    | Rho(role: Role) | TerminalAccuracy | LawMargin | ProxyOnlyMargin

  const ENDPOINTS: seq<Endpoint> :=
    [InformationFraction, QueryCount, DeclaredReady, EarlyReady, ExactRecovery, StatedAgreement,
     Rho(RoleY), Rho(RoleP), Rho(RoleQ), Rho(RoleR), TerminalAccuracy, LawMargin, ProxyOnlyMargin]

  /** The endpoints of final episodes: the flip rates of the five intervention targets and the
      causal margin. */
  datatype CausalEndpoint = Flip(role: Role) | FlipDistractor | CausalMargin

  const CAUSAL_ENDPOINTS: seq<CausalEndpoint> :=
    [Flip(RoleY), Flip(RoleP), Flip(RoleQ), Flip(RoleR), FlipDistractor, CausalMargin]

  datatype QueryTurn = QueryTurn(turn: int, expectedBits: real, realizedBits: real, regretBits: real)

  datatype Evidence = Perfect | Noisy

  datatype Family = Monotone | ExactlyOne

  datatype Operator = All | Any

  datatype Episode = Episode(queryCount: int, turns: seq<QueryTurn>, role: Role, scores: Endpoint -> real,
                             causal: Option<CausalEndpoint -> real>,
                             pEvidence: Evidence, qEvidence: Evidence, family: Family, operator: Operator)

  /** What the validated query chain leaves: at most two turns, numbered in order. */
  predicate Validated(row: Episode) {
    row.queryCount == |row.turns| <= 2 && forall i | 0 <= i < |row.turns| :: row.turns[i].turn == i + 1
  }

  // ---------------------------------------------------------------- aggregation

  function ValueOf(endpoint: Endpoint): Episode -> real {
    (row: Episode) => if endpoint == QueryCount then row.queryCount as real else row.scores(endpoint)
  }

  function CausalOf(endpoint: CausalEndpoint): Episode -> real {
    (row: Episode) => if row.causal.Some? then row.causal.value(endpoint) else 0.0
  }

  function MeanOf(value: Episode -> real, rows: seq<Episode>): real
    requires rows != []
  {
    Mean(Map(value, rows))
  }

  function TurnsNumbered(turns: seq<QueryTurn>, turn: int): seq<QueryTurn> {
    if turns == [] then []
    else (if turns[0].turn == turn then [turns[0]] else []) + TurnsNumbered(turns[1..], turn)
  }

  /** Every recorded turn with the given number. */
  function Reached(rows: seq<Episode>, turn: int): seq<QueryTurn> {
    if rows == [] then [] else TurnsNumbered(rows[0].turns, turn) + Reached(rows[1..], turn)
  }

  function HasRole(role: Role): Episode -> bool {
    (row: Episode) => row.role == role
  }

  function BitsMean(bits: QueryTurn -> real, turns: seq<QueryTurn>): Option<real> {
    if turns == [] then None else Some(Mean(Map(bits, turns)))
  }

  datatype TurnSummary = TurnSummary(turn: int, allDenominator: nat, denominator: nat, reachRate: real,
                                     meanExpected: Option<real>, meanRealized: Option<real>, meanRegret: Option<real>)

  datatype Aggregate = Aggregate(episodeCount: nat, means: map<Endpoint, real>, roleCounts: map<Role, nat>,
                                 roleRates: map<Role, real>, turns: seq<TurnSummary>,
                                 causal: Option<map<CausalEndpoint, real>>)

  predicate Final(rows: seq<Episode>) {
    forall i | 0 <= i < |rows| :: rows[i].causal.Some?
  }

  predicate Interim(rows: seq<Episode>) {
    forall i | 0 <= i < |rows| :: rows[i].causal.None?
  }

  function TurnOf(rows: seq<Episode>, turn: int): TurnSummary
    requires rows != []
  {
    var reached := Reached(rows, turn);
    TurnSummary(turn, |rows|, |reached|, Quotient(|reached| as real, |rows| as real),
      BitsMean((item: QueryTurn) => item.expectedBits, reached),
      BitsMean((item: QueryTurn) => item.realizedBits, reached),
      BitsMean((item: QueryTurn) => item.regretBits, reached))
  }

  function RoleRate(rows: seq<Episode>, role: Role): real
    requires rows != []
  {
    Quotient(Count(rows, HasRole(role)) as real, |rows| as real)
  }

  function EndpointMeans(rows: seq<Episode>): map<Endpoint, real>
    requires rows != []
  {
    map endpoint | endpoint in ENDPOINTS :: MeanOf(ValueOf(endpoint), rows)
  }

  function CausalMeans(rows: seq<Episode>): map<CausalEndpoint, real>
    requires rows != []
  {
    map endpoint | endpoint in CAUSAL_ENDPOINTS :: MeanOf(CausalOf(endpoint), rows)
  }

  function RoleCounts(rows: seq<Episode>): map<Role, nat> {
    map role | role in ROLES :: Count(rows, HasRole(role))
  }

  function RoleRates(rows: seq<Episode>): map<Role, real>
    requires rows != []
  {
    map role | role in ROLES :: RoleRate(rows, role)
  }

  /** Every reported number of a collection of episodes. */
  function Aggregated(rows: seq<Episode>): Aggregate
    requires rows != []
  {
    Aggregate(|rows|, EndpointMeans(rows), RoleCounts(rows), RoleRates(rows), [TurnOf(rows, 1), TurnOf(rows, 2)],
      if Final(rows) then Some(CausalMeans(rows)) else None)
  }

  /** How the parts of an aggregate of validated episodes fit together. */
  ghost predicate Consistent(rows: seq<Episode>, aggregate: Aggregate) {
    && |aggregate.turns| == 2
    // the mean query count is the sum of the reach rates, and reach never rises
    && QueryCount in aggregate.means
    && aggregate.means[QueryCount] == aggregate.turns[0].reachRate + aggregate.turns[1].reachRate
    && 0.0 <= aggregate.turns[1].reachRate <= aggregate.turns[0].reachRate <= 1.0
    && (forall i | 0 <= i < 2 :: aggregate.turns[i].denominator > 0 <==> aggregate.turns[i].meanRealized.Some?)
    // every episode selects one rule
    && (forall role: Role :: role in aggregate.roleCounts)
    && aggregate.roleCounts[RoleY] + aggregate.roleCounts[RoleP] + aggregate.roleCounts[RoleQ]
         + aggregate.roleCounts[RoleR] == aggregate.episodeCount == |rows|
    && (aggregate.causal.Some? <==> Final(rows))
  }

  /** The source's aggregation: it refuses an empty collection and a mixture of final and interim
      rows, and otherwise reports every mean. */
  method AggregateEpisodes(rows: seq<Episode>) returns (result: Result<Aggregate>)
    requires forall i | 0 <= i < |rows| :: Validated(rows[i])
    ensures result.Ok? <==> rows != [] && forall i, j | 0 <= i < |rows| && 0 <= j < |rows| ::
      rows[i].causal.Some? <==> rows[j].causal.Some?
    ensures result.Ok? ==> result.value == Aggregated(rows) && Consistent(rows, result.value)
    ensures result.Ok? ==> MeansRead(rows, result.value) && RolesRead(rows, result.value)
    ensures result.Ok? ==> |result.value.turns| == 2
    ensures result.Ok? ==> TurnReads(rows, 0, result.value.turns[0]) && TurnReads(rows, 1, result.value.turns[1])
  {
    hide MeansRead, RolesRead, TurnReads;
    hide Validated, Reached, Mean, Quotient, MeanOf, HasRole, Count, BitsMean, Consistent;
    hide EndpointMeans, CausalMeans, RoleCounts, RoleRates;
    if rows == [] {
      return Err("cannot aggregate an empty episode collection");
    }
    var final, interim := Final(rows), Interim(rows);
    if !(final || interim) {
      return Err("episode collection mixes causal and non-causal rows");
    }
    var turns: seq<TurnSummary> := [];
    for turn := 1 to 3
      invariant |turns| == turn - 1
      invariant forall i | 0 <= i < |turns| :: turns[i] == TurnOf(rows, i + 1)
    {
      var reached := Reached(rows, turn);
      turns := turns + [TurnSummary(turn, |rows|, |reached|, Quotient(|reached| as real, |rows| as real),
        BitsMean((item: QueryTurn) => item.expectedBits, reached),
        BitsMean((item: QueryTurn) => item.realizedBits, reached),
        BitsMean((item: QueryTurn) => item.regretBits, reached))];
    }
    assert turns == [TurnOf(rows, 1), TurnOf(rows, 2)];
    AggregateIsConsistent(rows);
    MeansAreRead(rows);
    RolesAreRead(rows);
    TurnIsRead(rows, 0);
    TurnIsRead(rows, 1);
    result := Ok(Aggregate(|rows|, EndpointMeans(rows), RoleCounts(rows), RoleRates(rows), turns,
      if final then Some(CausalMeans(rows)) else None));
  }

  function ScoreOf(endpoint: Endpoint): Episode -> real {
    (row: Episode) => row.scores(endpoint)
  }

  function QueriesOf(row: Episode): real {
    row.queryCount as real
  }

  function CausalScoreOf(endpoint: CausalEndpoint): Episode -> real
  {
    (row: Episode) => if row.causal.None? then 0.0 else row.causal.value(endpoint)
  }

  /** The reported means in terms of the rows: each is its endpoint's total over the number of rows. */
  ghost predicate MeansRead(rows: seq<Episode>, aggregate: Aggregate) {
    && (forall endpoint :: endpoint in aggregate.means)
    && (forall endpoint | endpoint != QueryCount ::
         Times(aggregate.means[endpoint], |rows|) == Sum(Map(ScoreOf(endpoint), rows)))
    && Times(aggregate.means[QueryCount], |rows|) == Sum(Map(QueriesOf, rows))
    && (aggregate.causal.Some? ==> forall endpoint :: endpoint in aggregate.causal.value)
    && (aggregate.causal.Some? ==> forall endpoint ::
         Times(aggregate.causal.value[endpoint], |rows|) == Sum(Map(CausalScoreOf(endpoint), rows)))
  }

  function RolePlaces(rows: seq<Episode>, role: Role): set<nat> {
    set i: nat | i < |rows| && rows[i].role == role
  }

  ghost predicate RolesRead(rows: seq<Episode>, aggregate: Aggregate) {
    forall role: Role ::
      && role in aggregate.roleCounts && role in aggregate.roleRates
      && aggregate.roleCounts[role] == |RolePlaces(rows, role)|
      && Times(aggregate.roleRates[role], |rows|) == |RolePlaces(rows, role)| as real
  }

  /** The rows that reach turn `t`, counted from zero. */
  function ReachPlaces(rows: seq<Episode>, t: nat): set<nat> {
    set i: nat | i < |rows| && t < |rows[i].turns|
  }

  function ExpectedOn(t: nat): Episode -> real {
    (row: Episode) => if t < |row.turns| then row.turns[t].expectedBits else 0.0
  }

  function RealizedOn(t: nat): Episode -> real {
    (row: Episode) => if t < |row.turns| then row.turns[t].realizedBits else 0.0
  }

  function RegretOn(t: nat): Episode -> real {
    (row: Episode) => if t < |row.turns| then row.turns[t].regretBits else 0.0
  }

  /** A mean over `n` items that total `sum`, missing when there are none. */
  predicate MeanIs(mean: Option<real>, sum: real, n: nat) {
    if n == 0 then mean.None? else mean.Some? && Times(mean.value, n) == sum
  }

  /** A turn's summary in terms of the rows: who reaches it, and the means over those. */
  ghost predicate TurnReads(rows: seq<Episode>, t: nat, item: TurnSummary) {
    var n := |ReachPlaces(rows, t)|;
    && item.turn == t + 1 && item.allDenominator == |rows| && item.denominator == n
    && Times(item.reachRate, |rows|) == n as real
    && MeanIs(item.meanExpected, Sum(Map(ExpectedOn(t), rows)), n)
    && MeanIs(item.meanRealized, Sum(Map(RealizedOn(t), rows)), n)
    && MeanIs(item.meanRegret, Sum(Map(RegretOn(t), rows)), n)
  }

  lemma {:induction false} MeanReads(value: Episode -> real, other: Episode -> real, rows: seq<Episode>)
    requires rows != [] && forall row: Episode :: value(row) == other(row)
    ensures Times(MeanOf(value, rows), |rows|) == Sum(Map(other, rows))
  {
    hide Quotient;
    assert Map(value, rows) == Map(other, rows);
    TimesMean(Map(value, rows));
  }

  lemma {:induction false} MeansAreRead(rows: seq<Episode>)
    requires rows != []
    ensures MeansRead(rows, Aggregated(rows))
  {
    hide MeanOf, Sum, Times, Aggregated, ScoreOf, CausalScoreOf;
    forall endpoint: Endpoint ensures endpoint in Aggregated(rows).means
      ensures endpoint != QueryCount ==>
        Times(Aggregated(rows).means[endpoint], |rows|) == Sum(Map(ScoreOf(endpoint), rows))
    {
      MeanIsRead(rows, endpoint);
    }
    MeanIsRead(rows, QueryCount);
    AggregateIsFinal(rows);
    forall endpoint | Aggregated(rows).causal.Some?
      ensures endpoint in Aggregated(rows).causal.value
      ensures Times(Aggregated(rows).causal.value[endpoint], |rows|) == Sum(Map(CausalScoreOf(endpoint), rows))
    {
      CausalIsRead(rows, endpoint);
    }
  }

  lemma {:induction false} AggregateIsFinal(rows: seq<Episode>)
    requires rows != []
    ensures Aggregated(rows).causal.Some? <==> Final(rows)
  {
  }

  lemma {:induction false} MeanIsRead(rows: seq<Episode>, endpoint: Endpoint)
    requires rows != []
    ensures endpoint in Aggregated(rows).means
    ensures endpoint != QueryCount ==>
      Times(Aggregated(rows).means[endpoint], |rows|) == Sum(Map(ScoreOf(endpoint), rows))
    ensures endpoint == QueryCount ==>
      Times(Aggregated(rows).means[endpoint], |rows|) == Sum(Map(QueriesOf, rows))
  {
    hide MeanOf, Sum, Times, Map, CausalMeans, RoleCounts, RoleRates, TurnOf;
    EndpointIsListed(endpoint);
    if endpoint == QueryCount {
      forall row: Episode ensures ValueOf(endpoint)(row) == QueriesOf(row) {
      }
      MeanReads(ValueOf(endpoint), QueriesOf, rows);
    } else {
      forall row: Episode ensures ValueOf(endpoint)(row) == ScoreOf(endpoint)(row) {
      }
      MeanReads(ValueOf(endpoint), ScoreOf(endpoint), rows);
    }
  }

  lemma {:induction false} CausalIsRead(rows: seq<Episode>, endpoint: CausalEndpoint)
    requires rows != [] && Final(rows)
    ensures Aggregated(rows).causal.Some? && endpoint in Aggregated(rows).causal.value
    ensures Times(Aggregated(rows).causal.value[endpoint], |rows|) == Sum(Map(CausalScoreOf(endpoint), rows))
  {
    hide MeanOf, Sum, Times, Map, EndpointMeans, RoleCounts, RoleRates, TurnOf;
    CausalIsListed(endpoint);
    forall row: Episode ensures CausalOf(endpoint)(row) == CausalScoreOf(endpoint)(row) {
      if row.causal.Some? {
        assert CausalOf(endpoint)(row) == row.causal.value(endpoint);
      }
    }
    MeanReads(CausalOf(endpoint), CausalScoreOf(endpoint), rows);
  }

  lemma {:induction false} EndpointIsListed(endpoint: Endpoint)
    ensures endpoint in ENDPOINTS
  {
    var i := match endpoint
      case InformationFraction => 0 case QueryCount => 1 case DeclaredReady => 2 case EarlyReady => 3
      case ExactRecovery => 4 case StatedAgreement => 5
      case Rho(role) => (match role case RoleY => 6 case RoleP => 7 case RoleQ => 8 case RoleR => 9)
      case TerminalAccuracy => 10 case LawMargin => 11 case ProxyOnlyMargin => 12;
    assert ENDPOINTS[i] == endpoint;
  }

  lemma {:induction false} CausalIsListed(endpoint: CausalEndpoint)
    ensures endpoint in CAUSAL_ENDPOINTS
  {
    var i := match endpoint
      case Flip(role) => (match role case RoleY => 0 case RoleP => 1 case RoleQ => 2 case RoleR => 3)
      case FlipDistractor => 4 case CausalMargin => 5;
    assert CAUSAL_ENDPOINTS[i] == endpoint;
  }

  lemma {:induction false} RolesAreRead(rows: seq<Episode>)
    requires rows != []
    ensures RolesRead(rows, Aggregated(rows))
  {
    hide Count, Quotient;
    AllRoles();
    forall role: Role ensures Count(rows, HasRole(role)) == |RolePlaces(rows, role)| {
      CountIsSize(rows, HasRole(role));
      assert Places(rows, HasRole(role)) == RolePlaces(rows, role);
    }
    forall role: Role ensures Times(RoleRate(rows, role), |rows|) == Count(rows, HasRole(role)) as real {
      QuotientTimes(Count(rows, HasRole(role)) as real, |rows|);
    }
  }

  lemma {:induction false} QuotientTimes(x: real, n: nat)
    requires n > 0
    ensures Times(Quotient(x, n as real), n) == x
  {
    TimesIsProduct(Quotient(x, n as real), n);
    QuotientBounds(x, n as real, 0.0);
  }

  function OnTurn(t: nat, bits: QueryTurn -> real): Episode -> real {
    (row: Episode) => if t < |row.turns| then bits(row.turns[t]) else 0.0
  }

  lemma {:induction false} NumberedTurn(row: Episode, t: nat)
    requires Validated(row) && t < 2
    ensures TurnsNumbered(row.turns, t + 1) == if t < |row.turns| then [row.turns[t]] else []
  {
    var turns := row.turns;
    if turns != [] {
      assert TurnsNumbered(turns[1..], t + 1) == if t == 1 && |turns| == 2 then [turns[1]] else [] by {
        if |turns| == 2 {
          assert turns[1..][1..] == [];
        }
      }
    }
  }

  lemma {:induction false} ReachedTurns(rows: seq<Episode>, t: nat, bits: QueryTurn -> real)
    requires t < 2 && forall i | 0 <= i < |rows| :: Validated(rows[i])
    ensures |Reached(rows, t + 1)| == Count(rows, ReachesTurn(t))
    ensures Sum(Map(bits, Reached(rows, t + 1))) == Sum(Map(OnTurn(t, bits), rows))
  {
    if rows != [] {
      ReachedTurns(rows[1..], t, bits);
      NumberedTurn(rows[0], t);
      var rest := Reached(rows[1..], t + 1);
      if t < |rows[0].turns| {
        assert ([rows[0].turns[t]] + rest)[1..] == rest;
      } else {
        assert [] + rest == rest;
      }
    }
  }

  function ReachesTurn(t: nat): Episode -> bool {
    (row: Episode) => t < |row.turns|
  }

  lemma {:induction false} BitsRead(rows: seq<Episode>, t: nat, bits: QueryTurn -> real, other: Episode -> real)
    requires t < 2 && forall i | 0 <= i < |rows| :: Validated(rows[i])
    requires forall row: Episode :: OnTurn(t, bits)(row) == other(row)
    ensures MeanIs(BitsMean(bits, Reached(rows, t + 1)), Sum(Map(other, rows)), |ReachPlaces(rows, t)|)
    ensures |Reached(rows, t + 1)| == |ReachPlaces(rows, t)|
  {
    hide Reached, Quotient, Times, Sum, Validated;
    ReachedTurns(rows, t, bits);
    CountIsSize(rows, ReachesTurn(t));
    assert Places(rows, ReachesTurn(t)) == ReachPlaces(rows, t);
    assert Map(OnTurn(t, bits), rows) == Map(other, rows);
    if Reached(rows, t + 1) != [] {
      TimesMean(Map(bits, Reached(rows, t + 1)));
    }
  }

  lemma {:induction false} TurnIsRead(rows: seq<Episode>, t: nat)
    requires rows != [] && t < 2 && forall i | 0 <= i < |rows| :: Validated(rows[i])
    ensures TurnReads(rows, t, TurnOf(rows, t + 1))
  {
    hide Reached, Quotient, Times, Sum, Validated, BitsMean, MeanIs, ReachPlaces;
    var expected: QueryTurn -> real := (item: QueryTurn) => item.expectedBits;
    var realized: QueryTurn -> real := (item: QueryTurn) => item.realizedBits;
    var regret: QueryTurn -> real := (item: QueryTurn) => item.regretBits;
    forall row: Episode
      ensures OnTurn(t, expected)(row) == ExpectedOn(t)(row)
      ensures OnTurn(t, realized)(row) == RealizedOn(t)(row)
      ensures OnTurn(t, regret)(row) == RegretOn(t)(row)
    {
    }
    BitsRead(rows, t, expected, ExpectedOn(t));
    BitsRead(rows, t, realized, RealizedOn(t));
    BitsRead(rows, t, regret, RegretOn(t));
    QuotientTimes(|Reached(rows, t + 1)| as real, |rows|);
  }

  lemma {:induction false} AggregateIsConsistent(rows: seq<Episode>)
    requires rows != [] && forall i | 0 <= i < |rows| :: Validated(rows[i])
    ensures Consistent(rows, Aggregated(rows))
  {
    hide Validated, Reached, Mean, Quotient, MeanOf, HasRole, Count, Final, CausalMeans, RoleRates;
    AllRoles();
    EndpointIsListed(QueryCount);
    RolesPartition(rows);
    ReachRates(rows);
  }

  lemma {:induction false} AllRoles()
    ensures forall role: Role :: role in ROLES
  {
    forall role: Role ensures role in ROLES {
      assert ROLES[match role case RoleY => 0 case RoleP => 1 case RoleQ => 2 case RoleR => 3] == role;
    }
  }

  lemma {:induction false} RolesPartition(rows: seq<Episode>)
    ensures Count(rows, HasRole(RoleY)) + Count(rows, HasRole(RoleP))
          + Count(rows, HasRole(RoleQ)) + Count(rows, HasRole(RoleR)) == |rows|
  {
    if rows != [] {
      RolesPartition(rows[1..]);
    }
  }

  /** The turns reached are the queries asked, and no second turn comes without a first. */
  lemma {:induction false} ReachCounts(rows: seq<Episode>)
    requires forall i | 0 <= i < |rows| :: Validated(rows[i])
    ensures Sum(Map(ValueOf(QueryCount), rows)) == (|Reached(rows, 1)| + |Reached(rows, 2)|) as real
    ensures |Reached(rows, 2)| <= |Reached(rows, 1)| <= |rows|
  {
    if rows != [] {
      ReachCounts(rows[1..]);
      TurnsOfEpisode(rows[0]);
    }
  }

  lemma {:induction false} TurnsOfEpisode(row: Episode)
    requires Validated(row)
    ensures |TurnsNumbered(row.turns, 1)| == (if row.queryCount >= 1 then 1 else 0)
    ensures |TurnsNumbered(row.turns, 2)| == (if row.queryCount >= 2 then 1 else 0)
  {
    TurnsNumberedStep(row.turns, 1);
    TurnsNumberedStep(row.turns, 2);
    if row.turns != [] {
      TurnsNumberedStep(row.turns[1..], 1);
      TurnsNumberedStep(row.turns[1..], 2);
      if |row.turns| == 2 {
        assert row.turns[1..][1..] == [];
      }
    }
  }

  lemma {:induction false} TurnsNumberedStep(turns: seq<QueryTurn>, turn: int)
    ensures |TurnsNumbered(turns, turn)| ==
      if turns == [] then 0 else (if turns[0].turn == turn then 1 else 0) + |TurnsNumbered(turns[1..], turn)|
  {
  }

  lemma {:induction false} ReachRates(rows: seq<Episode>)
    requires rows != [] && forall i | 0 <= i < |rows| :: Validated(rows[i])
    ensures var n := |rows| as real;
      var first, second := Quotient(|Reached(rows, 1)| as real, n), Quotient(|Reached(rows, 2)| as real, n);
      MeanOf(ValueOf(QueryCount), rows) == first + second && 0.0 <= second <= first <= 1.0
  {
    var n, a, b := |rows| as real, |Reached(rows, 1)| as real, |Reached(rows, 2)| as real;
    ReachCounts(rows);
    QuotientAdds(a, b, n);
    QuotientBounds(b, n, 0.0);
    QuotientBounds(a, n, 1.0);
    QuotientBounds(a, n, Quotient(a, n));
    QuotientBounds(b, n, Quotient(a, n));
    ProductSign(0.0, n);
  }

  lemma {:induction false} QuotientAdds(x: real, y: real, n: real)
    requires n > 0.0
    ensures Quotient(x + y, n) == Quotient(x, n) + Quotient(y, n)
    ensures Product(1.0, n) == n
  {
  }

  // ---------------------------------------------------------------- balance

  function Where(rows: seq<Episode>, p: Episode -> bool): seq<Episode> {
    if rows == [] then [] else (if p(rows[0]) then [rows[0]] else []) + Where(rows[1..], p)
  }

  function InCell<C(==)>(key: Episode -> C, cell: C): Episode -> bool {
    (row: Episode) => key(row) == cell
  }

  function InCells<C(==)>(key: Episode -> C, cells: seq<C>): Episode -> bool {
    (row: Episode) => key(row) in cells
  }

  /** The checked balance: the cells cover the rows, and each holds `n` of them. */
  ghost predicate Balanced<C(!new)>(rows: seq<Episode>, key: Episode -> C, cells: seq<C>, n: nat) {
    && n > 0 && cells != []
    && (forall i, j | 0 <= i < j < |cells| :: cells[i] != cells[j])
    && (forall i | 0 <= i < |rows| :: key(rows[i]) in cells)
    && (forall i | 0 <= i < |cells| :: |Where(rows, InCell(key, cells[i]))| == n)
  }

  /** The mean of each cell. */
  function CellMeans<C(==)>(value: Episode -> real, rows: seq<Episode>, key: Episode -> C, cells: seq<C>)
      : (r: seq<real>)
    requires forall i | 0 <= i < |cells| :: Where(rows, InCell(key, cells[i])) != []
    ensures |r| == |cells|
  {
    if cells == [] then []
    else [MeanOf(value, Where(rows, InCell(key, cells[0])))] + CellMeans(value, rows, key, cells[1..])
  }

  lemma {:induction false} WhereSplits<C>(value: Episode -> real, rows: seq<Episode>, key: Episode -> C,
                                          cell: C, cells: seq<C>)
    requires cell !in cells
    ensures var all := Where(rows, InCells(key, [cell] + cells));
      var one, rest := Where(rows, InCell(key, cell)), Where(rows, InCells(key, cells));
      && |all| == |one| + |rest|
      && Sum(Map(value, all)) == Sum(Map(value, one)) + Sum(Map(value, rest))
  {
    if rows != [] {
      WhereSplits(value, rows[1..], key, cell, cells);
      WhereHead(value, rows, InCells(key, [cell] + cells));
      WhereHead(value, rows, InCell(key, cell));
      WhereHead(value, rows, InCells(key, cells));
    }
  }

  lemma {:induction false} WhereHead(value: Episode -> real, rows: seq<Episode>, p: Episode -> bool)
    requires rows != []
    ensures |Where(rows, p)| == |Where(rows[1..], p)| + if p(rows[0]) then 1 else 0
    ensures Sum(Map(value, Where(rows, p)))
         == Sum(Map(value, Where(rows[1..], p))) + if p(rows[0]) then value(rows[0]) else 0.0
  {
    var rest := Where(rows[1..], p);
    assert ([rows[0]] + rest)[1..] == rest;
    assert [] + rest == rest;
  }

  lemma {:induction false} WhereNone<C>(rows: seq<Episode>, key: Episode -> C)
    ensures Where(rows, InCells(key, [])) == []
  {
    if rows != [] {
      WhereNone(rows[1..], key);
    }
  }

  lemma {:induction false} WhereAll(rows: seq<Episode>, p: Episode -> bool)
    requires forall i | 0 <= i < |rows| :: p(rows[i])
    ensures Where(rows, p) == rows
  {
    if rows != [] {
      WhereAll(rows[1..], p);
    }
  }

  lemma {:induction false} CellMeansStep<C>(value: Episode -> real, rows: seq<Episode>, key: Episode -> C,
                                            cells: seq<C>)
    requires cells != [] && forall i | 0 <= i < |cells| :: Where(rows, InCell(key, cells[i])) != []
    ensures Sum(CellMeans(value, rows, key, cells))
         == MeanOf(value, Where(rows, InCell(key, cells[0]))) + Sum(CellMeans(value, rows, key, cells[1..]))
  {
  }

  lemma {:induction false} CellsAddUp<C(!new)>(value: Episode -> real, rows: seq<Episode>, key: Episode -> C,
                                               cells: seq<C>, n: nat)
    requires n > 0 && forall i, j | 0 <= i < j < |cells| :: cells[i] != cells[j]
    requires forall i | 0 <= i < |cells| :: |Where(rows, InCell(key, cells[i]))| == n
    ensures |Where(rows, InCells(key, cells))| == |cells| * n
    ensures Sum(Map(value, Where(rows, InCells(key, cells)))) == Times(Sum(CellMeans(value, rows, key, cells)), n)
  {
    hide Where, Quotient, MeanOf;
    if cells == [] {
      WhereNone(rows, key);
      TimesIsProduct(0.0, n);
    } else {
      var cell, rest := cells[0], cells[1..];
      hide CellMeans, Mean, Sum, Map, Times, InCell, InCells;
      assert cells == [cell] + rest;
      HeadNotInTail(cells);
      CellsAddUp(value, rows, key, rest, n);
      WhereSplits(value, rows, key, cell, rest);
      MeanTimesSize(value, Where(rows, InCell(key, cell)));
      CellMeansStep(value, rows, key, cells);
      TimesAdds(MeanOf(value, Where(rows, InCell(key, cell))), Sum(CellMeans(value, rows, key, rest)), n);
      OneMore(|rest|, n);
    }
  }

  lemma {:induction false} HeadNotInTail<C>(cells: seq<C>)
    requires cells != [] && forall i, j | 0 <= i < j < |cells| :: cells[i] != cells[j]
    ensures cells[0] !in cells[1..]
    ensures forall i, j | 0 <= i < j < |cells[1..]| :: cells[1..][i] != cells[1..][j]
  {
    forall i | 0 <= i < |cells[1..]| ensures cells[1..][i] != cells[0] {
      assert cells[i + 1] == cells[1..][i];
    }
  }

  lemma {:induction false} MeanTimesSize(value: Episode -> real, rows: seq<Episode>)
    requires rows != []
    ensures Times(MeanOf(value, rows), |rows|) == Sum(Map(value, rows))
  {
    TimesMean(Map(value, rows));
  }

  lemma {:induction false} OneMore(k: nat, n: nat)
    ensures (k + 1) * n == k * n + n
  {
  }

  /** Under the checked balance, the overall mean of any endpoint is the equal-weight mean of its
      cell means. It covers the four evidence cells and the two formula strata alike. */
  lemma {:induction false} BalancedMean<C(!new)>(value: Episode -> real, rows: seq<Episode>, key: Episode -> C,
                                                 cells: seq<C>, n: nat)
    requires Balanced(rows, key, cells, n)
    ensures |rows| == |cells| * n > 0
    ensures MeanOf(value, rows) == Mean(CellMeans(value, rows, key, cells))
  {
    CellsAddUp(value, rows, key, cells, n);
    WhereAll(rows, InCells(key, cells));
    hide Where, CellMeans, Sum, Map, Quotient;
    MeanOfTotals(Map(value, rows), CellMeans(value, rows, key, cells), n);
  }

  lemma {:induction false} MeanOfTotals(all: seq<real>, means: seq<real>, n: nat)
    requires means != [] && n > 0 && |all| == |means| * n && Sum(all) == Times(Sum(means), n)
    ensures |all| > 0 && Mean(all) == Mean(means)
  {
    hide Quotient, Times, Sum;
    CommonFactor(Sum(means), n, |means|, |all|);
  }

  lemma {:induction false} CommonFactor(x: real, n: nat, k: nat, nk: nat)
    requires n > 0 && k > 0 && nk == k * n
    ensures nk > 0 && Quotient(Times(x, n), nk as real) == Quotient(x, k as real)
  {
    var q := Quotient(x, k as real);
    QuotientBounds(x, k as real, 0.0);
    TimesIsProduct(x, n);
    ProductOfThree(q, k as real, n as real);
    QuotientIs(q, x * n as real, nk as real);
  }

  lemma {:induction false} ProductOfThree(x: real, y: real, z: real)
    ensures Product(x, y) * z == x * (y * z)
  {
  }

  // ---------------------------------------------------------------- the checked panel

  const EVIDENCE: Episode -> (Evidence, Evidence) := (row: Episode) => (row.pEvidence, row.qEvidence)
  const FAMILY: Episode -> Family := (row: Episode) => row.family
  const OPERATOR: Episode -> Operator := (row: Episode) => row.operator
  const FORMULA: Episode -> (Family, Operator) := (row: Episode) => (row.family, row.operator)

  const EVIDENCE_CELLS: seq<(Evidence, Evidence)> :=
    [(Perfect, Perfect), (Perfect, Noisy), (Noisy, Perfect), (Noisy, Noisy)]
  const FAMILIES: seq<Family> := [Monotone, ExactlyOne]
  const OPERATORS: seq<Operator> := [All, Any]
  const FORMULAS: seq<(Family, Operator)> := [(Monotone, All), (Monotone, Any), (ExactlyOne, All), (ExactlyOne, Any)]

  /** `Counter(key(row) for row in rows)`. */
  function CounterOf<C(==)>(rows: seq<Episode>, key: Episode -> C): map<C, nat> {
    if rows == [] then map[]
    else
      var rest := CounterOf(rows[1..], key);
      rest[key(rows[0]) := 1 + if key(rows[0]) in rest then rest[key(rows[0])] else 0]
  }

  /** `{cell: n for cell in cells}`. */
  function EqualCounts<C(==)>(cells: seq<C>, n: nat): map<C, nat> {
    map cell | cell in cells :: n
  }

  lemma {:induction false} CounterCounts<C>(rows: seq<Episode>, key: Episode -> C, cell: C)
    ensures var size := |Where(rows, InCell(key, cell))|;
      && (cell in CounterOf(rows, key) <==> size > 0)
      && (cell in CounterOf(rows, key) ==> CounterOf(rows, key)[cell] == size)
  {
    if rows != [] {
      CounterCounts(rows[1..], key, cell);
    }
  }

  lemma {:induction false} OwnCellIsCounted<C>(rows: seq<Episode>, key: Episode -> C, i: nat)
    requires i < |rows|
    ensures key(rows[i]) in CounterOf(rows, key)
  {
    if i > 0 {
      OwnCellIsCounted(rows[1..], key, i - 1);
    }
  }

  lemma {:induction false} CountedHasRow<C>(rows: seq<Episode>, key: Episode -> C, cell: C)
    requires cell in CounterOf(rows, key)
    ensures exists i :: 0 <= i < |rows| && key(rows[i]) == cell
  {
    if key(rows[0]) != cell {
      CountedHasRow(rows[1..], key, cell);
      var i :| 0 <= i < |rows[1..]| && key(rows[1..][i]) == cell;
      assert key(rows[i + 1]) == cell;
    }
  }

  /** A counter comparison holds exactly when the rows are balanced over the cells. */
  lemma {:induction false} CounterIsBalance<C(!new)>(rows: seq<Episode>, key: Episode -> C, cells: seq<C>, n: nat)
    requires n > 0 && cells != [] && forall i, j | 0 <= i < j < |cells| :: cells[i] != cells[j]
    ensures CounterOf(rows, key) == EqualCounts(cells, n) <==> Balanced(rows, key, cells, n)
  {
    hide CounterOf, Where, InCell;
    var counter := CounterOf(rows, key);
    forall cell ensures
      && (cell in counter <==> |Where(rows, InCell(key, cell))| > 0)
      && (cell in counter ==> counter[cell] == |Where(rows, InCell(key, cell))|)
    {
      CounterCounts(rows, key, cell);
    }
    if counter == EqualCounts(cells, n) {
      forall i | 0 <= i < |rows| ensures key(rows[i]) in cells {
        OwnCellIsCounted(rows, key, i);
      }
      forall i | 0 <= i < |cells| ensures |Where(rows, InCell(key, cells[i]))| == n {
        assert cells[i] in counter;
      }
    }
    if Balanced(rows, key, cells, n) {
      forall cell ensures cell in counter <==> cell in cells {
        if cell in counter {
          CountedHasRow(rows, key, cell);
        }
      }
    }
  }

  /** Every evidence cell and every formula has `n` rows, and every family and operator twice as many. */
  ghost predicate BalancedPanel(rows: seq<Episode>, n: nat) {
    && Balanced(rows, EVIDENCE, EVIDENCE_CELLS, n)
    && Balanced(rows, FAMILY, FAMILIES, 2 * n)
    && Balanced(rows, OPERATOR, OPERATORS, 2 * n)
    && Balanced(rows, FORMULA, FORMULAS, n)
  }

  /** The counter comparisons of one step's active episodes, with `n` families expected. */
  method CheckBalance(rows: seq<Episode>, n: nat) returns (result: Result<nat>)
    requires n > 0
    ensures result.Ok? <==> BalancedPanel(rows, n)
    ensures result.Ok? ==> result.value == |rows| == 4 * n
  {
    hide CounterOf, EqualCounts, Balanced;
    CounterIsBalance(rows, EVIDENCE, EVIDENCE_CELLS, n);
    CounterIsBalance(rows, FAMILY, FAMILIES, 2 * n);
    CounterIsBalance(rows, OPERATOR, OPERATORS, 2 * n);
    CounterIsBalance(rows, FORMULA, FORMULAS, n);
    if CounterOf(rows, EVIDENCE) != EqualCounts(EVIDENCE_CELLS, n) {
      return Err("evidence cells are incomplete");
    }
    BalancedMean(ValueOf(QueryCount), rows, EVIDENCE, EVIDENCE_CELLS, n);
    var half := |rows| / 2;
    if CounterOf(rows, FAMILY) != EqualCounts(FAMILIES, half) {
      return Err("Y-family balance differs");
    }
    if CounterOf(rows, OPERATOR) != EqualCounts(OPERATORS, half) {
      return Err("monotone-op balance differs");
    }
    var quarter := |rows| / 4;
    if CounterOf(rows, FORMULA) != EqualCounts(FORMULAS, quarter) {
      return Err("formula joint balance differs");
    }
    result := Ok(|rows|);
  }

  // ---------------------------------------------------------------- aggregates of a panel's parts

  /** The aggregates of the cells. */
  function CellAggregates<C(==)>(rows: seq<Episode>, key: Episode -> C, cells: seq<C>): (r: seq<Aggregate>)
    requires forall i | 0 <= i < |cells| :: Where(rows, InCell(key, cells[i])) != []
    ensures |r| == |cells|
  {
    if cells == [] then [] else [Aggregated(Where(rows, InCell(key, cells[0])))] + CellAggregates(rows, key, cells[1..])
  }

  function MeanField(endpoint: Endpoint): Aggregate -> real {
    (a: Aggregate) => if endpoint in a.means then a.means[endpoint] else 0.0
  }

  function RateField(role: Role): Aggregate -> real {
    (a: Aggregate) => if role in a.roleRates then a.roleRates[role] else 0.0
  }

  function ReachField(i: nat): Aggregate -> real {
    (a: Aggregate) => if i < |a.turns| then a.turns[i].reachRate else 0.0
  }

  function CausalField(endpoint: CausalEndpoint): Aggregate -> real {
    (a: Aggregate) => if a.causal.Some? && endpoint in a.causal.value then a.causal.value[endpoint] else 0.0
  }

  function RoleIndicator(role: Role): Episode -> real {
    (row: Episode) => if row.role == role then 1.0 else 0.0
  }

  function ReachCount(turn: int): Episode -> real {
    (row: Episode) => |TurnsNumbered(row.turns, turn)| as real
  }

  /** `field` reports the mean of `value`. */
  ghost predicate Reports(field: Aggregate -> real, value: Episode -> real, rows: seq<Episode>)
  {
    rows != [] && field(Aggregated(rows)) == MeanOf(value, rows)
  }

  lemma {:induction false} MeanIsReported(rows: seq<Episode>, endpoint: Endpoint)
    requires rows != []
    ensures endpoint in Aggregated(rows).means
    ensures Reports(MeanField(endpoint), ValueOf(endpoint), rows)
  {
    hide MeanOf, ValueOf;
    EndpointIsListed(endpoint);
  }

  lemma {:induction false} CausalIsReported(rows: seq<Episode>, endpoint: CausalEndpoint)
    requires rows != [] && Final(rows)
    ensures Aggregated(rows).causal.Some? && endpoint in Aggregated(rows).causal.value
    ensures Reports(CausalField(endpoint), CausalOf(endpoint), rows)
  {
    hide MeanOf, CausalOf;
    CausalIsListed(endpoint);
  }

  lemma {:induction false} RoleSum(rows: seq<Episode>, role: Role)
    ensures Sum(Map(RoleIndicator(role), rows)) == Count(rows, HasRole(role)) as real
  {
    if rows != [] {
      RoleSum(rows[1..], role);
    }
  }

  lemma {:induction false} RateIsReported(rows: seq<Episode>, role: Role)
    requires rows != []
    ensures Reports(RateField(role), RoleIndicator(role), rows)
  {
    hide Quotient, Sum, Count, Map;
    AllRoles();
    RoleSum(rows, role);
  }

  lemma {:induction false} ReachSum(rows: seq<Episode>, turn: int)
    ensures Sum(Map(ReachCount(turn), rows)) == |Reached(rows, turn)| as real
  {
    if rows != [] {
      ReachSum(rows[1..], turn);
    }
  }

  lemma {:induction false} ReachIsReported(rows: seq<Episode>, i: nat)
    requires rows != [] && i < 2
    ensures Reports(ReachField(i), ReachCount(i + 1), rows)
  {
    hide Quotient, Sum, Map, Reached;
    ReachSum(rows, i + 1);
  }

  lemma {:induction false} PartsReport<C>(field: Aggregate -> real, value: Episode -> real, rows: seq<Episode>,
                                          key: Episode -> C, cells: seq<C>)
    requires forall i | 0 <= i < |cells| :: Where(rows, InCell(key, cells[i])) != []
    requires forall i | 0 <= i < |cells| :: Reports(field, value, Where(rows, InCell(key, cells[i])))
    ensures Map(field, CellAggregates(rows, key, cells)) == CellMeans(value, rows, key, cells)
  {
    if cells != [] {
      hide Where, Aggregated, MeanOf;
      assert Reports(field, value, Where(rows, InCell(key, cells[0])));
      PartsReport(field, value, rows, key, cells[1..]);
    }
  }

  /** A reported mean over all rows is the equal-weight mean of the cells' reported means. */
  lemma {:induction false} FieldIsEqualWeight<C(!new)>(field: Aggregate -> real, value: Episode -> real,
                                                       rows: seq<Episode>, key: Episode -> C, cells: seq<C>, n: nat)
    requires Balanced(rows, key, cells, n)
    requires Reports(field, value, rows)
    requires forall i | 0 <= i < |cells| :: Reports(field, value, Where(rows, InCell(key, cells[i])))
    ensures field(Aggregated(rows)) == Mean(Map(field, CellAggregates(rows, key, cells)))
  {
    hide Aggregated, MeanOf;
    BalancedMean(value, rows, key, cells, n);
    PartsReport(field, value, rows, key, cells);
  }

  ghost predicate EqualCausal(whole: Aggregate, parts: seq<Aggregate>)
    requires parts != []
  {
    whole.causal.Some? ==>
      forall endpoint ::
        endpoint in whole.causal.value && CausalField(endpoint)(whole) == Mean(Map(CausalField(endpoint), parts))
  }

  /** Every reported mean and rate of `whole` is the mean of those of `parts`. */
  ghost predicate EqualWeights(whole: Aggregate, parts: seq<Aggregate>) {
    && parts != []
    && (forall endpoint :: endpoint in whole.means
         && MeanField(endpoint)(whole) == Mean(Map(MeanField(endpoint), parts)))
    && (forall role :: RateField(role)(whole) == Mean(Map(RateField(role), parts)))
    && (forall i: nat | i < 2 :: ReachField(i)(whole) == Mean(Map(ReachField(i), parts)))
    && EqualCausal(whole, parts)
  }

  lemma {:induction false} WhereKeeps(rows: seq<Episode>, p: Episode -> bool)
    requires Final(rows)
    ensures Final(Where(rows, p))
  {
    if rows != [] {
      WhereKeeps(rows[1..], p);
    }
  }

  lemma {:induction false} BalancedAggregates<C(!new)>(rows: seq<Episode>, key: Episode -> C, cells: seq<C>, n: nat)
    requires Balanced(rows, key, cells, n)
    ensures rows != []
    ensures EqualWeights(Aggregated(rows), CellAggregates(rows, key, cells))
  {
    hide Aggregated, MeanField, RateField, ReachField, CausalField, Where, Reports;
    BalancedMean(ValueOf(QueryCount), rows, key, cells, n);
    forall endpoint ensures endpoint in Aggregated(rows).means
      && MeanField(endpoint)(Aggregated(rows)) == Mean(Map(MeanField(endpoint), CellAggregates(rows, key, cells)))
    {
      MeanIsReported(rows, endpoint);
      forall i | 0 <= i < |cells|
        ensures Reports(MeanField(endpoint), ValueOf(endpoint), Where(rows, InCell(key, cells[i])))
      {
        MeanIsReported(Where(rows, InCell(key, cells[i])), endpoint);
      }
      FieldIsEqualWeight(MeanField(endpoint), ValueOf(endpoint), rows, key, cells, n);
    }
    forall role
      ensures RateField(role)(Aggregated(rows)) == Mean(Map(RateField(role), CellAggregates(rows, key, cells)))
    {
      RateIsReported(rows, role);
      forall i | 0 <= i < |cells|
        ensures Reports(RateField(role), RoleIndicator(role), Where(rows, InCell(key, cells[i])))
      {
        RateIsReported(Where(rows, InCell(key, cells[i])), role);
      }
      FieldIsEqualWeight(RateField(role), RoleIndicator(role), rows, key, cells, n);
    }
    forall t: nat | t < 2
      ensures ReachField(t)(Aggregated(rows)) == Mean(Map(ReachField(t), CellAggregates(rows, key, cells)))
    {
      ReachIsReported(rows, t);
      forall i | 0 <= i < |cells|
        ensures Reports(ReachField(t), ReachCount(t + 1), Where(rows, InCell(key, cells[i])))
      {
        ReachIsReported(Where(rows, InCell(key, cells[i])), t);
      }
      FieldIsEqualWeight(ReachField(t), ReachCount(t + 1), rows, key, cells, n);
    }
    BalancedCausal(rows, key, cells, n);
  }

  lemma {:induction false} BalancedCausal<C(!new)>(rows: seq<Episode>, key: Episode -> C, cells: seq<C>, n: nat)
    requires Balanced(rows, key, cells, n) && rows != []
    ensures Aggregated(rows).causal.Some? <==> Final(rows)
    ensures EqualCausal(Aggregated(rows), CellAggregates(rows, key, cells))
  {
    if Final(rows) {
      forall endpoint ensures Aggregated(rows).causal.Some? && endpoint in Aggregated(rows).causal.value
        && CausalField(endpoint)(Aggregated(rows)) == Mean(Map(CausalField(endpoint), CellAggregates(rows, key, cells)))
      {
        hide Aggregated, CausalField, Where, Reports, Final;
        CausalIsReported(rows, endpoint);
        forall i | 0 <= i < |cells|
          ensures Reports(CausalField(endpoint), CausalOf(endpoint), Where(rows, InCell(key, cells[i])))
        {
          WhereKeeps(rows, InCell(key, cells[i]));
          CausalIsReported(Where(rows, InCell(key, cells[i])), endpoint);
        }
        FieldIsEqualWeight(CausalField(endpoint), CausalOf(endpoint), rows, key, cells, n);
      }
    }
  }

  /** On a panel that passes the checks, every mean and rate of all episodes is the equal-weight mean
      of the four evidence cells, of the two formula strata, of the two operators and of the four
      formulas. */
  lemma {:induction false} PanelMeans(rows: seq<Episode>, n: nat)
    requires BalancedPanel(rows, n)
    ensures rows != []
    ensures EqualWeights(Aggregated(rows), CellAggregates(rows, EVIDENCE, EVIDENCE_CELLS))
    ensures EqualWeights(Aggregated(rows), CellAggregates(rows, FAMILY, FAMILIES))
    ensures EqualWeights(Aggregated(rows), CellAggregates(rows, OPERATOR, OPERATORS))
    ensures EqualWeights(Aggregated(rows), CellAggregates(rows, FORMULA, FORMULAS))
  {
    hide EqualWeights, Aggregated;
    BalancedAggregates(rows, EVIDENCE, EVIDENCE_CELLS, n);
    BalancedAggregates(rows, FAMILY, FAMILIES, 2 * n);
    BalancedAggregates(rows, OPERATOR, OPERATORS, 2 * n);
    BalancedAggregates(rows, FORMULA, FORMULAS, n);
  }
}
