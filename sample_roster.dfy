/**
 * DEFAULT_TEXT, the roster the setup form starts with, and the proof that it parses to ten
 * players without an error.
 */
module SampleRoster {
  import opened Types
  import opened JsStrings
  import opened TeamSetupForm

  /** The lines of the template literal, one player per line. */
  const DefaultLines: seq<string> := [
    "Miracle-,12200,1",
    "Yatoro,11950,1",
    "Arteezy,11800,1",
    "Topson,11650,2",
    "SumaiL,11400,12",
    "Nisha,11150,2",
    "Quinn,11000,2",
    "Puppey,10300,5",
    "Cr1t-,9700,4",
    "JerAx,9400,4"
  ]

  /** DEFAULT_TEXT: the template literal opens and closes with a line break and is trimmed. */
  const DefaultText: string := Trim("\n" + Join(DefaultLines, '\n') + "\n")

  /** The players DEFAULT_TEXT describes, in line order. */
  const DefaultRoster: seq<Player> := [
    Player("Miracle-", 12200, ["1"]),
    Player("Yatoro", 11950, ["1"]),
    Player("Arteezy", 11800, ["1"]),
    Player("Topson", 11650, ["2"]),
    Player("SumaiL", 11400, ["1", "2"]),
    Player("Nisha", 11150, ["2"]),
    Player("Quinn", 11000, ["2"]),
    Player("Puppey", 10300, ["5"]),
    Player("Cr1t-", 9700, ["4"]),
    Player("JerAx", 9400, ["4"])
  ]

  /** The joined text starts with the first part's first character and ends with the last part's last. */
  lemma {:induction false} JoinEnds(parts: seq<string>, sep: char)
    requires |parts| >= 1 && forall k :: 0 <= k < |parts| ==> parts[k] != []
    ensures Join(parts, sep) != []
    ensures Join(parts, sep)[0] == parts[0][0]
    ensures Join(parts, sep)[|Join(parts, sep)| - 1] == parts[|parts| - 1][|parts[|parts| - 1]| - 1]
  {
    if |parts| > 1 {
      JoinEnds(parts[1..], sep);
    }
  }

  /** Outcomes that each accept a player without an error give exactly those players, with no error. */
  lemma {:induction false} AllAccepted(outcomes: seq<LineOutcome>, players: seq<Player>)
    requires |outcomes| == |players|
    requires forall k :: 0 <= k < |outcomes| ==> outcomes[k] == Accepted(players[k], None)
    ensures Apply(Initial, outcomes) == ParseResult(None, players)
  {
    if outcomes != [] {
      var n := |outcomes| - 1;
      AllAccepted(outcomes[..n], players[..n]);
      assert players[..n] + [players[n]] == players;
    }
  }

  /*
   * Line k of DEFAULT_TEXT is the printed form of player k. Each line gets a lemma of its own
   * because printing a rank is computed digit by digit.
   */
  lemma MiracleLine()
    ensures DefaultLines[0] == FormatLine(DefaultRoster[0])
  {
    assert DefaultRoster[0] == Player("Miracle-", 12200, ["1"]);
    assert NatToString(1) == "1";
    assert NatToString(12) == "12";
    assert NatToString(122) == "122";
    assert NatToString(1220) == "1220";
    assert NatToString(12200) == "12200";
    assert Concat(["1"]) == "1";
    assert FormatLine(DefaultRoster[0]) == "Miracle-" + "," + "12200" + "," + "1";
    assert DefaultLines[0] == "Miracle-,12200,1";
  }

  lemma YatoroLine()
    ensures DefaultLines[1] == FormatLine(DefaultRoster[1])
  {
    assert DefaultRoster[1] == Player("Yatoro", 11950, ["1"]);
    assert NatToString(1) == "1";
    assert NatToString(11) == "11";
    assert NatToString(119) == "119";
    assert NatToString(1195) == "1195";
    assert NatToString(11950) == "11950";
    assert Concat(["1"]) == "1";
    assert FormatLine(DefaultRoster[1]) == "Yatoro" + "," + "11950" + "," + "1";
    assert DefaultLines[1] == "Yatoro,11950,1";
  }

  lemma ArteezyLine()
    ensures DefaultLines[2] == FormatLine(DefaultRoster[2])
  {
    assert DefaultRoster[2] == Player("Arteezy", 11800, ["1"]);
    assert NatToString(1) == "1";
    assert NatToString(11) == "11";
    assert NatToString(118) == "118";
    assert NatToString(1180) == "1180";
    assert NatToString(11800) == "11800";
    assert Concat(["1"]) == "1";
    assert FormatLine(DefaultRoster[2]) == "Arteezy" + "," + "11800" + "," + "1";
    assert DefaultLines[2] == "Arteezy,11800,1";
  }

  lemma TopsonLine()
    ensures DefaultLines[3] == FormatLine(DefaultRoster[3])
  {
    assert DefaultRoster[3] == Player("Topson", 11650, ["2"]);
    assert NatToString(1) == "1";
    assert NatToString(11) == "11";
    assert NatToString(116) == "116";
    assert NatToString(1165) == "1165";
    assert NatToString(11650) == "11650";
    assert Concat(["2"]) == "2";
    assert FormatLine(DefaultRoster[3]) == "Topson" + "," + "11650" + "," + "2";
    assert DefaultLines[3] == "Topson,11650,2";
  }

  lemma SumailLine()
    ensures DefaultLines[4] == FormatLine(DefaultRoster[4])
  {
    assert DefaultRoster[4] == Player("SumaiL", 11400, ["1", "2"]);
    assert NatToString(1) == "1";
    assert NatToString(11) == "11";
    assert NatToString(114) == "114";
    assert NatToString(1140) == "1140";
    assert NatToString(11400) == "11400";
    assert Concat(["1", "2"]) == "12" by {
      assert ["1", "2"][..1] == ["1"];
    }
    assert FormatLine(DefaultRoster[4]) == "SumaiL" + "," + "11400" + "," + "12";
    assert DefaultLines[4] == "SumaiL,11400,12";
  }

  lemma NishaLine()
    ensures DefaultLines[5] == FormatLine(DefaultRoster[5])
  {
    assert DefaultRoster[5] == Player("Nisha", 11150, ["2"]);
    assert NatToString(1) == "1";
    assert NatToString(11) == "11";
    assert NatToString(111) == "111";
    assert NatToString(1115) == "1115";
    assert NatToString(11150) == "11150";
    assert Concat(["2"]) == "2";
    assert FormatLine(DefaultRoster[5]) == "Nisha" + "," + "11150" + "," + "2";
    assert DefaultLines[5] == "Nisha,11150,2";
  }

  lemma QuinnLine()
    ensures DefaultLines[6] == FormatLine(DefaultRoster[6])
  {
    assert DefaultRoster[6] == Player("Quinn", 11000, ["2"]);
    assert NatToString(1) == "1";
    assert NatToString(11) == "11";
    assert NatToString(110) == "110";
    assert NatToString(1100) == "1100";
    assert NatToString(11000) == "11000";
    assert Concat(["2"]) == "2";
    assert FormatLine(DefaultRoster[6]) == "Quinn" + "," + "11000" + "," + "2";
    assert DefaultLines[6] == "Quinn,11000,2";
  }

  lemma PuppeyLine()
    ensures DefaultLines[7] == FormatLine(DefaultRoster[7])
  {
    assert DefaultRoster[7] == Player("Puppey", 10300, ["5"]);
    assert NatToString(1) == "1";
    assert NatToString(10) == "10";
    assert NatToString(103) == "103";
    assert NatToString(1030) == "1030";
    assert NatToString(10300) == "10300";
    assert Concat(["5"]) == "5";
    assert FormatLine(DefaultRoster[7]) == "Puppey" + "," + "10300" + "," + "5";
    assert DefaultLines[7] == "Puppey,10300,5";
  }

  lemma CritLine()
    ensures DefaultLines[8] == FormatLine(DefaultRoster[8])
  {
    assert DefaultRoster[8] == Player("Cr1t-", 9700, ["4"]);
    assert NatToString(9) == "9";
    assert NatToString(97) == "97";
    assert NatToString(970) == "970";
    assert NatToString(9700) == "9700";
    assert Concat(["4"]) == "4";
    assert FormatLine(DefaultRoster[8]) == "Cr1t-" + "," + "9700" + "," + "4";
    assert DefaultLines[8] == "Cr1t-,9700,4";
  }

  lemma JeraxLine()
    ensures DefaultLines[9] == FormatLine(DefaultRoster[9])
  {
    assert DefaultRoster[9] == Player("JerAx", 9400, ["4"]);
    assert NatToString(9) == "9";
    assert NatToString(94) == "94";
    assert NatToString(940) == "940";
    assert NatToString(9400) == "9400";
    assert Concat(["4"]) == "4";
    assert FormatLine(DefaultRoster[9]) == "JerAx" + "," + "9400" + "," + "4";
    assert DefaultLines[9] == "JerAx,9400,4";
  }

  lemma DefaultLineFormatted(k: nat)
    requires k < 10
    ensures DefaultLines[k] == FormatLine(DefaultRoster[k])
  {
    match k
    case 0 => MiracleLine();
    case 1 => YatoroLine();
    case 2 => ArteezyLine();
    case 3 => TopsonLine();
    case 4 => SumailLine();
    case 5 => NishaLine();
    case 6 => QuinnLine();
    case 7 => PuppeyLine();
    case 8 => CritLine();
    case 9 => JeraxLine();
  }

  /** Every player of DEFAULT_TEXT can be printed as a line that reads back exactly. */
  lemma DefaultPlayerPrintable(k: nat)
    requires k < 10
    ensures Printable(DefaultRoster[k])
  {
    TrimTrimmed(DefaultRoster[k].name);
  }

  /** Each line of DEFAULT_TEXT reads back as its player, without an error. */
  lemma DefaultLinesAccepted()
    ensures forall k :: 0 <= k < 10 ==> ParseLine(DefaultLines[k]) == Accepted(DefaultRoster[k], None)
  {
    forall k | 0 <= k < 10
      ensures ParseLine(DefaultLines[k]) == Accepted(DefaultRoster[k], None)
    {
      DefaultLineFormatted(k);
      DefaultPlayerPrintable(k);
      ParseFormatLine(DefaultRoster[k]);
    }
  }

  /** No line of DEFAULT_TEXT is empty or holds a line break. */
  lemma DefaultLinesUnbroken()
    ensures forall k :: 0 <= k < 10 ==> DefaultLines[k] != [] && '\n' !in DefaultLines[k]
  {
  }

  /**
   * A template literal that frames its lines with line breaks splits back into those lines,
   * when none of them is empty or holds a line break and the text does not start or end
   * with white space inside the frame.
   */
  lemma FramedLines(lines: seq<string>)
    requires |lines| >= 1 && forall k :: 0 <= k < |lines| ==> lines[k] != [] && '\n' !in lines[k]
    requires !IsWhiteSpace(lines[0][0]) && !IsWhiteSpace(lines[|lines| - 1][|lines[|lines| - 1]| - 1])
    ensures Lines(Trim("\n" + Join(lines, '\n') + "\n")) == lines
  {
    var body := Join(lines, '\n');
    JoinEnds(lines, '\n');
    TrimFramed(body);
    TrimIdempotent("\n" + body + "\n");
    SplitJoin(lines, '\n');
  }

  /** A text whose ten lines each read back as a player without an error gives those players, with no error. */
  lemma AcceptedText(text: string, players: seq<Player>)
    requires |Lines(text)| == |players| == 10
    requires forall k :: 0 <= k < 10 ==> ParseLine(Lines(text)[k]) == Accepted(players[k], None)
    ensures ValidateAndParse(text) == ParseResult(None, players)
  {
    AllAccepted(ParseLines(Lines(text)), players);
  }

  /**
   * DEFAULT_TEXT parses to the ten players above with no error; "SumaiL" gets rank 11400
   * and positions "1" and "2".
   */
  lemma DefaultTextParses()
    ensures ValidateAndParse(DefaultText) == ParseResult(None, DefaultRoster)
    ensures DefaultRoster[4] == Player("SumaiL", 11400, ["1", "2"])
  {
    DefaultLinesUnbroken();
    FramedLines(DefaultLines);
    DefaultLinesAccepted();
    AcceptedText(DefaultText, DefaultRoster);
  }
}
