/**
 * The App wiring: the setup form hands the parsed players to the balance view. On every edit
 * the form passes them on only when the text parsed without an error; on first load it
 * passes the players of DEFAULT_TEXT.
 */
module Pipeline {
  import opened Types
  import opened Masks
  import opened Options
  import opened TeamSetupForm
  import opened BalanceView
  import opened SampleRoster

  /**
   * Text that parses without an error yields min(maxOptions, 126) options, and every one of
   * them splits the ten players 5/5 with a role coverage between 0 and 10.
   */
  lemma ParsedRosterBalances(text: string, maxOptions: nat)
    requires ValidateAndParse(text).errorMessage.None?
    ensures var options := BalanceOptions(ValidateAndParse(text).players, maxOptions);
      |options| == Min(maxOptions, 126)
      && forall o :: o in options ==>
           |o.radiant| == 5 && |o.dire| == 5
           && multiset(o.radiant) + multiset(o.dire) == multiset(ValidateAndParse(text).players)
           && 0 <= o.totalCoverage <= 10
  {
    var players := ValidateAndParse(text).players;
    ErrorFreeResult(text);
    RosterBalances(players, maxOptions);
  }

  /** The balance view on a roster of ten players whose labels are all role labels. */
  lemma RosterBalances(players: seq<Player>, maxOptions: nat)
    requires |players| == 10 && AllLabelsValid(players)
    ensures var options := BalanceOptions(players, maxOptions);
      |options| == Min(maxOptions, 126)
      && forall o :: o in options ==>
           |o.radiant| == 5 && |o.dire| == 5
           && multiset(o.radiant) + multiset(o.dire) == multiset(players)
           && 0 <= o.totalCoverage <= 10
  {
    var options := BalanceOptions(players, maxOptions);
    assert players[..10] == players;
    BalanceOptionsLength(players, maxOptions);
    BalanceOptionsFromSplits(players, maxOptions);
    forall o | o in options
      ensures |o.radiant| == 5 && |o.dire| == 5
      ensures multiset(o.radiant) + multiset(o.dire) == multiset(players)
      ensures 0 <= o.totalCoverage <= 10
    {
      SplitOfRoster(players, o);
    }
  }

  /** Each split of a ten-player roster with role labels only is 5/5 with coverage at most 10. */
  lemma SplitOfRoster(players: seq<Player>, o: BalanceOption)
    requires |players| == 10 && AllLabelsValid(players)
    requires o in AllSplits(players)
    ensures |o.radiant| == 5 && |o.dire| == 5
    ensures multiset(o.radiant) + multiset(o.dire) == multiset(players)
    ensures 0 <= o.totalCoverage <= 10
  {
    var all := AllSplits(players);
    AllSplitsShape(players);
    var k :| 0 <= k < |all| && all[k] == o;
    SplitScores(players, KeptMasks(Pow2(|players|))[k]);
  }

  /**
   * On first load the form parses DEFAULT_TEXT and hands its ten players on: the view then
   * shows min(maxOptions, 126) splits of them, each with a coverage of at most 10.
   */
  lemma DefaultRosterBalances(maxOptions: nat)
    ensures ValidateAndParse(DefaultText).players == DefaultRoster
    ensures var options := BalanceOptions(DefaultRoster, maxOptions);
      |options| == Min(maxOptions, 126) && forall o :: o in options ==> 0 <= o.totalCoverage <= 10
  {
    DefaultTextParses();
    ParsedRosterBalances(DefaultText, maxOptions);
  }
}
