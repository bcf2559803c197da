/**
 * validateAndParseText: read a roster typed one player per line as `name,rank,positions`,
 * collecting the players and the last error message met, then insisting on ten players.
 */
module TeamSetupForm {
  import opened Types
  import opened JsStrings

  const MissingFieldsMessage: string := "Please enter player name, rank and positions for all players."
  const RankNotNumberMessage: string := "Rank must be a number."
  const CountMessage: string := "Please enter at 10 players."

  function InvalidPositionMessage(pos: Position, name: string): string {
    "Invalid position \"" + pos + "\" for player \"" + name + "\". Valid positions are 1, 2, 3, 4, or 5."
  }

  /** The positions a player gets when the line gives none. */
  const DefaultPositions: seq<Position> := ["1", "2", "3", "4", "5"]

  /** What validateAndParseText returns; None stands for a null errorMessage. */
  datatype ParseResult = ParseResult(errorMessage: Option<string>, players: seq<Player>)

  /** What one line does: nothing, set an error and add no player, or add a player (perhaps setting an error). */
  datatype LineOutcome = Blank | Rejected(message: string) | Accepted(player: Player, positionError: Option<string>)

  /** `parts[i]?.trim()`: the trimmed field, None when the line has fewer fields. */
  function Field(parts: seq<string>, i: nat): Option<string> {
    if i < |parts| then Some(Trim(parts[i])) else None
  }

  /** JavaScript truthiness of an optional string: present and not empty. */
  predicate Present(field: Option<string>) {
    field.Some? && field.value != ""
  }

  /** `s.split("").map((pos) => pos.trim())`: each character as a label, white space becoming "". */
  function CharLabels(s: string): (r: seq<Position>)
    ensures |r| == |s|
  {
    seq(|s|, i requires 0 <= i < |s| => Trim([s[i]]))
  }

  /** The error the position loop leaves: the message for the last invalid label, if any. */
  function LastInvalid(positions: seq<Position>, name: string): Option<string> {
    if positions == [] then None
    else if !IsValidPosition(positions[|positions| - 1])
      then Some(InvalidPositionMessage(positions[|positions| - 1], name))
    else LastInvalid(positions[..|positions| - 1], name)
  }

  /** What the forEach callback does with one line. */
  function ParseLine(line: string): LineOutcome {
    if Trim(line) == "" then Blank else ParseFields(line)
  }

  /**
   * The callback on a line that is not blank: the line is rejected, or its player is added
   * with a non-empty trimmed name, and a position error is reported exactly when one of the
   * player's labels is not a role label.
   */
  function ParseFields(line: string): (r: LineOutcome)
    ensures !r.Blank?
    ensures r.Rejected? ==> r.message == MissingFieldsMessage || r.message == RankNotNumberMessage
    ensures r.Accepted? ==> r.player.name != "" && Trim(r.player.name) == r.player.name
    ensures r.Accepted? ==> (r.positionError.None? <==> forall q :: q in r.player.positions ==> IsValidPosition(q))
  {
    var parts := Split(line, ',');
    var playerName := Field(parts, 0);
    var rankStr := Field(parts, 1);
    var positionsStr := Field(parts, 2);
    if !Present(playerName) || !Present(rankStr) then Rejected(MissingFieldsMessage)
    else match ParseInt(rankStr.value)
      case None => Rejected(RankNotNumberMessage)
      case Some(rank) =>
        TrimIdempotent(parts[0]);
        if Present(positionsStr) then
          var positions := CharLabels(positionsStr.value);
          LastInvalidCharacterised(positions, playerName.value);
          Accepted(Player(playerName.value, rank, positions), LastInvalid(positions, playerName.value))
        else
          Accepted(Player(playerName.value, rank, DefaultPositions), None)
  }

  /** The effect of one line's outcome on the error message and the player list. */
  function Step(state: ParseResult, outcome: LineOutcome): ParseResult {
    match outcome
    case Blank => state
    case Rejected(message) => ParseResult(Some(message), state.players)
    case Accepted(player, positionError) =>
      ParseResult(if positionError.Some? then positionError else state.errorMessage, state.players + [player])
  }

  /** The state after the outcomes have been applied in turn, starting from state. */
  function Apply(state: ParseResult, outcomes: seq<LineOutcome>): ParseResult {
    if outcomes == [] then state
    else Step(Apply(state, outcomes[..|outcomes| - 1]), outcomes[|outcomes| - 1])
  }

  /** The outcome of each line, in line order. */
  function ParseLines(lines: seq<string>): (r: seq<LineOutcome>)
    ensures |r| == |lines|
  {
    seq(|lines|, i requires 0 <= i < |lines| => ParseLine(lines[i]))
  }

  const Initial: ParseResult := ParseResult(None, [])

  /** The lines of the trimmed text, one per "\n". */
  function Lines(text: string): seq<string> {
    Split(Trim(text), '\n')
  }

  /** What validateAndParseText returns. */
  function ValidateAndParse(text: string): ParseResult {
    var state := Apply(Initial, ParseLines(Lines(text)));
    if |state.players| != 10 && state.errorMessage.None? then ParseResult(Some(CountMessage), state.players)
    else state
  }

  // ----- properties of the line fold -----

  /** Applying a + b is applying a, then b. */
  lemma {:induction false} ApplyAppend(state: ParseResult, a: seq<LineOutcome>, b: seq<LineOutcome>)
    ensures Apply(state, a + b) == Apply(Apply(state, a), b)
    decreases |b|
  {
    if b == [] {
      assert a + b == a;
    } else {
      ApplyAppend(state, a, b[..|b| - 1]);
      assert (a + b)[..|a + b| - 1] == a + b[..|b| - 1];
    }
  }

  /**
   * What a run of outcomes does to any starting state: it appends the players the outcomes
   * give on their own, and leaves the last error they set, or the starting error if they set none.
   */
  lemma {:induction false} ApplyFrom(state: ParseResult, outcomes: seq<LineOutcome>)
    ensures Apply(state, outcomes).players == state.players + Apply(Initial, outcomes).players
    ensures Apply(state, outcomes).errorMessage
         == if Apply(Initial, outcomes).errorMessage.Some? then Apply(Initial, outcomes).errorMessage else state.errorMessage
  {
    if outcomes != [] {
      ApplyFrom(state, outcomes[..|outcomes| - 1]);
    }
  }

  lemma ParseLinesAppend(a: seq<string>, b: seq<string>)
    ensures ParseLines(a + b) == ParseLines(a) + ParseLines(b)
  {
    var joined := ParseLines(a + b);
    var parts := ParseLines(a) + ParseLines(b);
    forall i | 0 <= i < |joined|
      ensures joined[i] == parts[i]
    {
      if i < |a| {
        assert (a + b)[i] == a[i];
      } else {
        assert (a + b)[i] == b[i - |a|];
      }
    }
  }

  /**
   * Players appear in line order, and a later line's error overwrites an earlier one: over
   * the lines a + b the players are a's then b's, and the error is b's if b sets one,
   * otherwise a's.
   */
  lemma LastErrorWins(a: seq<string>, b: seq<string>)
    ensures Apply(Initial, ParseLines(a + b)).players
         == Apply(Initial, ParseLines(a)).players + Apply(Initial, ParseLines(b)).players
    ensures Apply(Initial, ParseLines(a + b)).errorMessage
         == if Apply(Initial, ParseLines(b)).errorMessage.Some? then Apply(Initial, ParseLines(b)).errorMessage
            else Apply(Initial, ParseLines(a)).errorMessage
  {
    ParseLinesAppend(a, b);
    ApplyAppend(Initial, ParseLines(a), ParseLines(b));
    ApplyFrom(Apply(Initial, ParseLines(a)), ParseLines(b));
  }

  /** A line that trims to nothing neither adds a player nor sets an error. */
  lemma BlankLineSkipped(a: seq<string>, line: string, b: seq<string>)
    requires Trim(line) == ""
    ensures Apply(Initial, ParseLines(a + [line] + b)) == Apply(Initial, ParseLines(a + b))
  {
    ParseLinesAppend(a + [line], b);
    ParseLinesAppend(a, [line]);
    ParseLinesAppend(a, b);
    assert ParseLines([line]) == [Blank];
    ApplyAppend(Initial, ParseLines(a) + [Blank], ParseLines(b));
    ApplyAppend(Initial, ParseLines(a), ParseLines(b));
    assert (ParseLines(a) + [Blank])[..|ParseLines(a)|] == ParseLines(a);
  }

  /** The number of outcomes that are not Blank. */
  function NonBlankCount(outcomes: seq<LineOutcome>): nat {
    if outcomes == [] then 0
    else NonBlankCount(outcomes[..|outcomes| - 1]) + (if outcomes[|outcomes| - 1].Blank? then 0 else 1)
  }

  lemma {:induction false} ApplyCountBound(outcomes: seq<LineOutcome>)
    ensures |Apply(Initial, outcomes).players| <= NonBlankCount(outcomes)
  {
    if outcomes != [] {
      ApplyCountBound(outcomes[..|outcomes| - 1]);
    }
  }

  /** The number of lines that do not trim to nothing. */
  function NonBlankLines(lines: seq<string>): nat {
    if lines == [] then 0
    else NonBlankLines(lines[..|lines| - 1]) + (if Trim(lines[|lines| - 1]) == "" then 0 else 1)
  }

  lemma ParseLinesPrefix(lines: seq<string>, n: nat)
    requires n <= |lines|
    ensures ParseLines(lines)[..n] == ParseLines(lines[..n])
  {
    var whole := ParseLines(lines);
    var prefix := ParseLines(lines[..n]);
    forall i | 0 <= i < n
      ensures whole[i] == prefix[i]
    {
      assert lines[..n][i] == lines[i];
    }
  }

  lemma {:induction false} NonBlankOutcomes(lines: seq<string>)
    ensures NonBlankCount(ParseLines(lines)) == NonBlankLines(lines)
  {
    if lines != [] {
      var n := |lines| - 1;
      NonBlankOutcomes(lines[..n]);
      ParseLinesPrefix(lines, n);
      assert ParseLines(lines)[n] == ParseLine(lines[n]);
    }
  }

  /** Each line adds at most one player, and a line that trims to nothing adds none. */
  lemma PlayerCountBound(lines: seq<string>)
    ensures |Apply(Initial, ParseLines(lines)).players| <= NonBlankLines(lines)
  {
    ApplyCountBound(ParseLines(lines));
    NonBlankOutcomes(lines);
  }

  /** The position loop sets no error exactly when every label is valid; otherwise it names the last invalid one. */
  lemma {:induction false} LastInvalidCharacterised(positions: seq<Position>, name: string)
    ensures LastInvalid(positions, name).None? <==> forall q :: q in positions ==> IsValidPosition(q)
    ensures LastInvalid(positions, name).Some? ==>
              exists k :: 0 <= k < |positions| && !IsValidPosition(positions[k])
                && (forall j :: k < j < |positions| ==> IsValidPosition(positions[j]))
                && LastInvalid(positions, name) == Some(InvalidPositionMessage(positions[k], name))
  {
    if positions != [] {
      var init := positions[..|positions| - 1];
      var last := positions[|positions| - 1];
      LastInvalidCharacterised(init, name);
      assert positions == init + [last];
      if IsValidPosition(last) && LastInvalid(init, name).Some? {
        var k :| 0 <= k < |init| && !IsValidPosition(init[k])
                 && (forall j :: k < j < |init| ==> IsValidPosition(init[j]))
                 && LastInvalid(init, name) == Some(InvalidPositionMessage(init[k], name));
        assert positions[k] == init[k];
      }
    }
  }

  /** Players that a run without any error has added: valid labels and a non-empty, trimmed name. */
  predicate WellFormed(players: seq<Player>) {
    AllLabelsValid(players) && forall k :: 0 <= k < |players| ==> players[k].name != "" && Trim(players[k].name) == players[k].name
  }

  /** What an outcome that sets no error tells about its player. */
  predicate CleanOutcome(outcome: LineOutcome) {
    outcome.Accepted? && outcome.positionError.None? ==> WellFormed([outcome.player])
  }

  /** A line accepted without a position error gives a well-formed player. */
  lemma LineWellFormed(line: string)
    ensures CleanOutcome(ParseLine(line))
  {
    var outcome := ParseLine(line);
    if outcome.Accepted? && outcome.positionError.None? {
      assert [outcome.player][0] == outcome.player;
    }
  }

  lemma {:induction false} NoErrorWellFormed(outcomes: seq<LineOutcome>)
    requires forall k :: 0 <= k < |outcomes| ==> CleanOutcome(outcomes[k])
    ensures Apply(Initial, outcomes).errorMessage.None? ==> WellFormed(Apply(Initial, outcomes).players)
  {
    if outcomes != [] {
      var init := outcomes[..|outcomes| - 1];
      var before := Apply(Initial, init);
      NoErrorWellFormed(init);
      var outcome := outcomes[|outcomes| - 1];
      if outcome.Accepted? && Apply(Initial, outcomes).errorMessage.None? {
        var player := outcome.player;
        assert CleanOutcome(outcome);
        assert [player][0] == player;
        assert Apply(Initial, outcomes).players == before.players + [player];
        forall k, p | 0 <= k < |before.players| + 1 && p in (before.players + [player])[k].positions
          ensures IsValidPosition(p)
        {
          if k < |before.players| {
            assert (before.players + [player])[k] == before.players[k];
          }
        }
      }
    }
  }

  /**
   * When validateAndParseText reports no error it has returned exactly ten players, each with
   * a non-empty trimmed name and only the role labels "1" to "5".
   */
  lemma ErrorFreeResult(text: string)
    ensures ValidateAndParse(text).errorMessage.None? ==>
              |ValidateAndParse(text).players| == 10 && WellFormed(ValidateAndParse(text).players)
  {
    var outcomes := ParseLines(Lines(text));
    forall k | 0 <= k < |outcomes|
      ensures CleanOutcome(outcomes[k])
    {
      LineWellFormed(Lines(text)[k]);
    }
    NoErrorWellFormed(outcomes);
  }

  // ----- the rules of one line, field by field -----

  /**
   * A line whose trimmed name or trimmed rank is missing or empty is rejected with the
   * missing-fields message, and only such a line is.
   */
  lemma MissingFieldsRule(line: string)
    ensures var parts := Split(line, ',');
      ParseFields(line) == Rejected(MissingFieldsMessage)
      <==> |parts| < 2 || Trim(parts[0]) == "" || Trim(parts[1]) == ""
  {
  }

  /**
   * When name and rank are both given, the line is rejected with the rank message exactly when
   * parseInt finds no number in the trimmed rank; otherwise the player it adds carries the
   * trimmed name and the number parseInt reads, whatever follows the digits.
   */
  lemma RankRule(line: string)
    ensures var parts := Split(line, ',');
      |parts| >= 2 && Trim(parts[0]) != "" && Trim(parts[1]) != "" ==>
        (ParseFields(line) == Rejected(RankNotNumberMessage) <==> ParseInt(Trim(parts[1])).None?)
        && (ParseInt(Trim(parts[1])).Some? ==>
              ParseFields(line).Accepted?
              && ParseFields(line).player.name == Trim(parts[0])
              && ParseFields(line).player.rank == ParseInt(Trim(parts[1])).value)
  {
  }

  /**
   * The positions of an accepted player: the characters of the trimmed third field, each one a
   * label, with the error naming the last invalid one; or, when that field is absent or blank,
   * all five roles and no error.
   */
  lemma PositionsRule(line: string)
    ensures var parts := Split(line, ','); var r := ParseFields(line);
      r.Accepted? ==>
        if |parts| >= 3 && Trim(parts[2]) != "" then
          r.player.positions == CharLabels(Trim(parts[2]))
          && r.positionError == LastInvalid(r.player.positions, r.player.name)
        else
          r.player.positions == DefaultPositions && r.positionError.None?
  {
  }

  /**
   * A line with a name, a number and a positions field holding a label that is not a role
   * still adds its player; it also sets an error naming an invalid label.
   */
  lemma InvalidLabelKept(state: ParseResult, line: string, k: nat)
    requires var parts := Split(line, ',');
      |parts| >= 3 && Trim(parts[0]) != "" && ParseInt(Trim(parts[1])).Some?
      && k < |Trim(parts[2])| && !IsValidPosition(CharLabels(Trim(parts[2]))[k])
    ensures var parts := Split(line, ','); var after := Step(state, ParseLine(line));
      after.players == state.players
                       + [Player(Trim(parts[0]), ParseInt(Trim(parts[1])).value, CharLabels(Trim(parts[2])))]
      && after.errorMessage.Some?
      && exists q :: q in CharLabels(Trim(parts[2])) && !IsValidPosition(q)
           && after.errorMessage == Some(InvalidPositionMessage(q, Trim(parts[0])))
  {
    var parts := Split(line, ',');
    var labels := CharLabels(Trim(parts[2]));
    NamedLineNotBlank(line);
    assert labels[k] in labels;
    LastInvalidCharacterised(labels, Trim(parts[0]));
  }

  /** A line whose first field has a non-blank name is not a blank line. */
  lemma NamedLineNotBlank(line: string)
    ensures Trim(Split(line, ',')[0]) != "" ==> Trim(line) != ""
  {
    var first := Split(line, ',')[0];
    SplitPieceChars(line, ',');
    TrimEmpty(line);
    TrimEmpty(first);
    if AllWhiteSpace(line) {
      forall i | 0 <= i < |first|
        ensures IsWhiteSpace(first[i])
      {
        assert first[i] in Split(line, ',')[0];
        assert first[i] in line;
        var j :| 0 <= j < |line| && line[j] == first[i];
      }
    }
  }

  /** A white-space character of the positions field gives the label "", which is not a role. */
  lemma WhiteSpaceLabel(s: string, i: nat)
    requires i < |s| && IsWhiteSpace(s[i])
    ensures CharLabels(s)[i] == "" && !IsValidPosition(CharLabels(s)[i])
  {
    TrimEmpty([s[i]]);
  }

  /** Fields after the third are ignored: appending ",extra" to a three-field line changes nothing. */
  lemma ExtraFieldsIgnored(line: string, extra: string)
    requires |Split(line, ',')| >= 3
    ensures ParseFields(line + "," + extra) == ParseFields(line)
  {
    var parts, parts' := Split(line, ','), Split(line + "," + extra, ',');
    SplitAppend(line, extra, ',');
    assert line + "," + extra == line + [','] + extra;
    assert parts'[..3] == parts[..3];
    assert Field(parts', 0) == Field(parts, 0) && Field(parts', 1) == Field(parts, 1);
    assert Field(parts', 2) == Field(parts, 2);
  }

  // ----- the messages -----

  /** A message one line can set. */
  ghost predicate LineMessage(m: string) {
    m == MissingFieldsMessage || m == RankNotNumberMessage
    || exists pos, name :: m == InvalidPositionMessage(pos, name)
  }

  /** Every error a line sets is a line message. */
  ghost predicate SoundOutcome(outcome: LineOutcome) {
    (outcome.Rejected? ==> LineMessage(outcome.message))
    && (outcome.Accepted? && outcome.positionError.Some? ==> LineMessage(outcome.positionError.value))
  }

  lemma LineErrors(line: string)
    ensures SoundOutcome(ParseLine(line))
  {
    var r := ParseLine(line);
    if r.Accepted? && r.positionError.Some? {
      LastInvalidCharacterised(r.player.positions, r.player.name);
    }
  }

  /** The error a run of lines leaves, if any, is a line message. */
  lemma {:induction false} FoldErrors(outcomes: seq<LineOutcome>)
    requires forall k :: 0 <= k < |outcomes| ==> SoundOutcome(outcomes[k])
    ensures Apply(Initial, outcomes).errorMessage.Some? ==> LineMessage(Apply(Initial, outcomes).errorMessage.value)
  {
    if outcomes != [] {
      FoldErrors(outcomes[..|outcomes| - 1]);
      assert SoundOutcome(outcomes[|outcomes| - 1]);
    }
  }

  /** The count message is not one that a line sets. */
  lemma CountMessageDistinct()
    ensures !LineMessage(CountMessage)
  {
    forall pos, name
      ensures InvalidPositionMessage(pos, name) != CountMessage
    {
      assert InvalidPositionMessage(pos, name)[0] == 'I';
      assert CountMessage[0] == 'P';
    }
    assert |CountMessage| != |MissingFieldsMessage|;
  }

  /**
   * validateAndParseText returns the players of the line fold. It reports the count message
   * exactly when no line set an error and the player count is not ten; otherwise the error is
   * the one the lines left.
   */
  lemma CountRule(text: string)
    ensures var fold := Apply(Initial, ParseLines(Lines(text)));
      ValidateAndParse(text).players == fold.players
      && (ValidateAndParse(text).errorMessage == Some(CountMessage)
          <==> fold.errorMessage.None? && |fold.players| != 10)
      && (fold.errorMessage.Some? ==> ValidateAndParse(text).errorMessage == fold.errorMessage)
  {
    var outcomes := ParseLines(Lines(text));
    forall k | 0 <= k < |outcomes|
      ensures SoundOutcome(outcomes[k])
    {
      LineErrors(Lines(text)[k]);
    }
    FoldErrors(outcomes);
    CountMessageDistinct();
  }

  // ----- printing a player as a line, and reading it back -----

  /** The labels written one after another. */
  function Concat(positions: seq<Position>): string {
    if positions == [] then [] else Concat(positions[..|positions| - 1]) + positions[|positions| - 1]
  }

  /** A roster line for the player: `name,rank,positions`. */
  function FormatLine(player: Player): string {
    player.name + "," + IntToString(player.rank) + "," + Concat(player.positions)
  }

  /** A player that a line can describe exactly. */
  predicate Printable(player: Player) {
    player.name != [] && Trim(player.name) == player.name && ',' !in player.name
    && player.positions != [] && forall q :: q in player.positions ==> IsValidPosition(q)
  }

  lemma {:induction false} ConcatOfLabels(positions: seq<Position>)
    requires forall q :: q in positions ==> IsValidPosition(q)
    ensures |Concat(positions)| == |positions|
    ensures forall i :: 0 <= i < |positions| ==> [Concat(positions)[i]] == positions[i]
  {
    if positions != [] {
      var init := positions[..|positions| - 1];
      assert forall q :: q in init ==> q in positions;
      ConcatOfLabels(init);
      assert positions[|positions| - 1] in positions;
      forall i | 0 <= i < |positions|
        ensures [Concat(positions)[i]] == positions[i]
      {
        if i < |init| {
          assert positions[i] == init[i];
        }
      }
    }
  }

  /** The character of a role label is neither white space nor a comma, and trims to itself. */
  lemma LabelChar(c: char)
    requires IsValidPosition([c])
    ensures !IsWhiteSpace(c) && c != ','
    ensures Trim([c]) == [c]
  {
    assert c in {'1', '2', '3', '4', '5'} by {
      assert [c] in ValidPositions;
      if [c] == "1" { assert [c][0] == "1"[0]; }
      else if [c] == "2" { assert [c][0] == "2"[0]; }
      else if [c] == "3" { assert [c][0] == "3"[0]; }
      else if [c] == "4" { assert [c][0] == "4"[0]; }
      else { assert [c] == "5" && [c][0] == "5"[0]; }
    }
    TrimTrimmed([c]);
  }

  /** The labels written out read back as the same labels. */
  lemma LabelsRoundTrip(positions: seq<Position>)
    requires positions != [] && forall q :: q in positions ==> IsValidPosition(q)
    ensures Trim(Concat(positions)) == Concat(positions) && Concat(positions) != []
    ensures ',' !in Concat(positions)
    ensures CharLabels(Concat(positions)) == positions
  {
    var s := Concat(positions);
    ConcatOfLabels(positions);
    forall i | 0 <= i < |s|
      ensures !IsWhiteSpace(s[i]) && s[i] != ',' && CharLabels(s)[i] == positions[i]
    {
      assert [s[i]] == positions[i] && positions[i] in positions;
      LabelChar(s[i]);
    }
    TrimTrimmed(s);
  }

  lemma SplitFields(a: string, b: string, c: string)
    requires ',' !in a && ',' !in b && ',' !in c
    ensures Split(a + "," + b + "," + c, ',') == [a, b, c]
  {
    var parts := [a, b, c];
    assert parts[1..] == [b, c] && parts[1..][1..] == [c];
    assert Join([c], ',') == c;
    assert Join([b, c], ',') == b + [','] + c;
    assert Join(parts, ',') == a + [','] + (b + [','] + c);
    assert a + "," + b + "," + c == a + [','] + (b + [','] + c);
    SplitJoin(parts, ',');
  }

  /** A printed line is not blank: it starts with the player's name. */
  lemma FormattedNotBlank(player: Player)
    requires Printable(player)
    ensures Trim(FormatLine(player)) != ""
  {
    var line := FormatLine(player);
    assert line[0] == player.name[0];
    TrimEmpty(line);
  }

  /** Three well-formed fields make an accepted player, with no error. */
  lemma AcceptedFields(line: string, name: string, rankText: string, labels: string, rank: int)
    requires Split(line, ',') == [name, rankText, labels]
    requires name != "" && Trim(name) == name
    requires rankText != "" && Trim(rankText) == rankText && ParseInt(rankText) == Some(rank)
    requires labels != "" && Trim(labels) == labels
    requires forall q :: q in CharLabels(labels) ==> IsValidPosition(q)
    ensures ParseFields(line) == Accepted(Player(name, rank, CharLabels(labels)), None)
  {
    var parts := Split(line, ',');
    assert Field(parts, 0) == Some(name);
    assert Field(parts, 1) == Some(rankText);
    assert Field(parts, 2) == Some(labels);
  }

  /** The fields of a printed line read back as the player, with no error. */
  lemma FieldsReadBack(player: Player)
    requires Printable(player)
    ensures ParseFields(FormatLine(player)) == Accepted(player, None)
  {
    var rank := IntToString(player.rank);
    var labels := Concat(player.positions);
    NumeralShape(player.rank);
    TrimTrimmed(rank);
    LabelsRoundTrip(player.positions);
    SplitFields(player.name, rank, labels);
    ParseIntRoundTrip(player.rank, []);
    assert rank + [] == rank;
    AcceptedFields(FormatLine(player), player.name, rank, labels, player.rank);
  }

  /** Reading a printed line gives back the player, with no error. */
  lemma ParseFormatLine(player: Player)
    requires Printable(player)
    ensures ParseLine(FormatLine(player)) == Accepted(player, None)
  {
    FormattedNotBlank(player);
    FieldsReadBack(player);
  }

  // ----- the imperative code -----

  /** The `for (const pos of positions)` loop: each invalid label overwrites the error message. */
  method CheckPositions(positions: seq<Position>, playerName: string, errorMessage: Option<string>)
    returns (errorMessage': Option<string>)
    ensures errorMessage' == if LastInvalid(positions, playerName).Some? then LastInvalid(positions, playerName) else errorMessage
  {
    errorMessage' := errorMessage;
    for q := 0 to |positions|
      invariant errorMessage' == if LastInvalid(positions[..q], playerName).Some?
                                 then LastInvalid(positions[..q], playerName) else errorMessage
    {
      assert positions[..q + 1][..q] == positions[..q];
      if !IsValidPosition(positions[q]) {
        errorMessage' := Some(InvalidPositionMessage(positions[q], playerName));
      }
    }
    assert positions[..|positions|] == positions;
  }

  /** The forEach callback: parse one line, append its player, overwrite the error message. */
  method HandleLine(line: string, errorMessage: Option<string>, players: seq<Player>)
    returns (errorMessage': Option<string>, players': seq<Player>)
    ensures ParseResult(errorMessage', players') == Step(ParseResult(errorMessage, players), ParseLine(line))
  {
    errorMessage', players' := errorMessage, players;
    if Trim(line) == "" {
      return;
    }
    var parts := Split(line, ',');
    var playerName := Field(parts, 0);
    var rankStr := Field(parts, 1);
    var positionsStr := Field(parts, 2);
    if !Present(playerName) || !Present(rankStr) {
      errorMessage' := Some(MissingFieldsMessage);
      return;
    }
    var rank := ParseInt(rankStr.value);
    if rank.None? {
      errorMessage' := Some(RankNotNumberMessage);
      return;
    }
    var positions := DefaultPositions;
    if Present(positionsStr) {
      positions := CharLabels(positionsStr.value);
      errorMessage' := CheckPositions(positions, playerName.value, errorMessage');
    }
    players' := players' + [Player(playerName.value, rank.value, positions)];
  }

  /** validateAndParseText. */
  method ValidateAndParseText(text: string) returns (errorMessage: Option<string>, players: seq<Player>)
    ensures ParseResult(errorMessage, players) == ValidateAndParse(text)
  {
    var lines := Split(Trim(text), '\n');
    ghost var outcomes := ParseLines(lines);
    players := [];
    errorMessage := None;
    for li := 0 to |lines|
      invariant ParseResult(errorMessage, players) == Apply(Initial, outcomes[..li])
    {
      assert outcomes[..li + 1][..li] == outcomes[..li];
      errorMessage, players := HandleLine(lines[li], errorMessage, players);
    }
    assert outcomes[..|lines|] == outcomes;
    if |players| != 10 && errorMessage.None? {
      errorMessage := Some(CountMessage);
    }
  }
}
