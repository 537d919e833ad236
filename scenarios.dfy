/**
 * Concrete lines run through the classification: a connection line, a player line and an admin
 * login line, what the last two leave in the trusted sets, and the report of a small log.
 */
module Scenarios {
  import opened Wrappers
  import opened Patterns
  import opened Aggregate
  import opened Report

  /** With no character starting the marker, the marker's pattern finds nothing. */
  lemma AbsentMarker(s: string, marker: string)
    requires |marker| > 0
    requires forall p :: 0 <= p < |s| ==> s[p] != marker[0]
    ensures IpAfter(s, marker).None?
  {
  }

  /** With no lower-case a, there is no admin login. */
  lemma AbsentLogin(s: string)
    requires forall p :: 0 <= p < |s| ==> s[p] != 'a'
    ensures AdminIp(s).None?
  {
    forall a: nat | a < |s|
      ensures !AdminLoginAt(s, a)
    {
      assert s[a + 0] != "admin"[0];
    }
  }

  /** On one line, a login followed by a last `RemoteAddr:` field gives that field's address. */
  lemma AdminIpFromFields(s: string, a: nat, b: nat)
    requires OneLine(s) && AdminLoginAt(s, a) && a + 11 <= b && IsLastMarked(s, RemoteMarker, b)
    ensures AdminIp(s) == QuadAt(s, b + 12)
  {
    AdminIpCharacterized(s);
  }

  /** A plain connection line. */
  const ClientLine := "Client 10.0.0.5"

  lemma ClientLineChars()
    ensures OneLine(ClientLine)
    ensures forall p :: 0 <= p < |ClientLine| ==> ClientLine[p] != 'P' && ClientLine[p] != 'a'
  {
  }

  /** Its one whitespace-preceded dotted quad is 10.0.0.5. */
  lemma ClientLineField()
    ensures IsLastMarked(ClientLine, "", 6) && QuadAt(ClientLine, 7) == Some("10.0.0.5")
  {
    var s := ClientLine;
    assert QuadEnd(s, 7) == Some(15);
    assert s[7..15] == "10.0.0.5";
    forall p: nat | 6 < p < |s|
      ensures !MarkedQuadAt(s, p, "")
    {
      assert !IsSpace(s[p]);
    }
  }

  /** The generic pattern reads the connection line's address. */
  lemma ClientLineGeneric(s: string)
    requires s == ClientLine
    ensures GenericIp(s) == Some("10.0.0.5")
  {
    ClientLineChars();
    ClientLineField();
    IpAfterTakesLast(s, "");
  }

  /** The connection line carries neither a player field nor an admin login. */
  lemma ClientLineUnmarked(s: string)
    requires s == ClientLine
    ensures PlayerIp(s).None? && AdminIp(s).None?
  {
    ClientLineChars();
    AbsentMarker(s, PlayerMarker);
    AbsentLogin(s);
  }

  /** A line with an address but neither marker is counted under that address. */
  lemma ClientLineVerdict()
    ensures Classify(ClientLine) == Occurrence("10.0.0.5")
  {
    ClientLineGeneric(ClientLine);
    ClientLineUnmarked(ClientLine);
    ClassifyByPrecedence(ClientLine);
  }

  /** A connection line from the address that the player line below also names. */
  const ReturningLine := "Client 1.2.3.4"

  lemma ReturningLineChars()
    ensures OneLine(ReturningLine)
    ensures forall p :: 0 <= p < |ReturningLine| ==> ReturningLine[p] != 'P' && ReturningLine[p] != 'a'
  {
  }

  /** Its one whitespace-preceded dotted quad is 1.2.3.4. */
  lemma ReturningLineField()
    ensures IsLastMarked(ReturningLine, "", 6) && QuadAt(ReturningLine, 7) == Some("1.2.3.4")
  {
    var s := ReturningLine;
    assert QuadEnd(s, 7) == Some(14);
    assert s[7..14] == "1.2.3.4";
    forall p: nat | 6 < p < |s|
      ensures !MarkedQuadAt(s, p, "")
    {
      assert !IsSpace(s[p]);
    }
  }

  lemma ReturningLineGeneric(s: string)
    requires s == ReturningLine
    ensures GenericIp(s) == Some("1.2.3.4")
  {
    ReturningLineChars();
    ReturningLineField();
    IpAfterTakesLast(s, "");
  }

  lemma ReturningLineUnmarked(s: string)
    requires s == ReturningLine
    ensures PlayerIp(s).None? && AdminIp(s).None?
  {
    ReturningLineChars();
    AbsentMarker(s, PlayerMarker);
    AbsentLogin(s);
  }

  /** On its own, the line is counted under 1.2.3.4. */
  lemma ReturningLineVerdict()
    ensures Classify(ReturningLine) == Occurrence("1.2.3.4")
  {
    ReturningLineGeneric(ReturningLine);
    ReturningLineUnmarked(ReturningLine);
    ClassifyByPrecedence(ReturningLine);
  }

  /** A line that starts with a date stamp: the stamp is dotted but follows no whitespace. */
  const StampLine := "2024.01.01 10.0.0.5"

  lemma StampLineChars()
    ensures OneLine(StampLine)
    ensures forall p :: 0 <= p < |StampLine| && p != 10 ==> !IsSpace(StampLine[p])
  {
  }

  /** Its one whitespace-preceded dotted quad is 10.0.0.5. */
  lemma StampLineField()
    ensures IsLastMarked(StampLine, "", 10) && QuadAt(StampLine, 11) == Some("10.0.0.5")
  {
    var s := StampLine;
    StampLineChars();
    assert QuadEnd(s, 11) == Some(19);
    assert s[11..19] == "10.0.0.5";
  }

  /** The generic pattern skips the leading stamp and reads the address after the space. */
  lemma StampLineGeneric(s: string)
    requires s == StampLine
    ensures GenericIp(s) == Some("10.0.0.5")
  {
    StampLineChars();
    StampLineField();
    IpAfterTakesLast(s, "");
  }

  /** A dotted quad with no whitespace before it is no match; one space in front makes it one. */
  const BareStamp := "24.01.01.12"

  lemma BareStampUnmatched(s: string)
    requires s == BareStamp
    ensures GenericIp(s).None?
    ensures GenericIp(" " + s).Some?
  {
    var t := " 24.01.01.12";
    assert t == " " + s;
    assert IsSpace(t[0]) && QuadEnd(t, 1) == Some(12);
    forall p: nat | p < |s|
      ensures !IsSpace(s[p])
    {
    }
  }

  /** A line with player information. */
  const PlayerLine := "PlayerIP: 1.2.3.4"

  lemma PlayerLineOneLine()
    ensures OneLine(PlayerLine)
  {
  }

  /** Its `PlayerIP:` field holds 1.2.3.4. */
  lemma PlayerLineField()
    ensures MarkedQuadAt(PlayerLine, 0, PlayerMarker) && QuadAt(PlayerLine, 10) == Some("1.2.3.4")
  {
    var s := PlayerLine;
    assert TextAt(s, 0, PlayerMarker);
    assert QuadEnd(s, 10) == Some(17);
    assert s[10..17] == "1.2.3.4";
  }

  /** No `PlayerIP:` field follows it. */
  lemma PlayerLineLast()
    ensures IsLastMarked(PlayerLine, PlayerMarker, 0)
  {
    var s := PlayerLine;
    PlayerLineField();
    forall p: nat | 0 < p < |s|
      ensures !MarkedQuadAt(s, p, PlayerMarker)
    {
      if p + 9 < |s| {
        assert s[p + 0] != PlayerMarker[0] || s[p + 1] != PlayerMarker[1];
      }
    }
  }

  /** The player pattern reads the address after `PlayerIP:`. */
  lemma PlayerLinePlayerIp(s: string)
    requires s == PlayerLine
    ensures PlayerIp(s) == Some("1.2.3.4")
  {
    PlayerLineOneLine();
    PlayerLineField();
    PlayerLineLast();
    IpAfterTakesLast(s, PlayerMarker);
  }

  /** A line with a `PlayerIP:` field is filed as a valid player's IP. */
  lemma PlayerLineVerdict()
    ensures Classify(PlayerLine) == ValidPlayer("1.2.3.4")
  {
    PlayerLinePlayerIp(PlayerLine);
    ClassifyByPrecedence(PlayerLine);
  }

  /** A line recording an admin login. */
  const AdminLine := "admin login RemoteAddr: 1.2.3.4"

  lemma AdminLineChars()
    ensures OneLine(AdminLine)
    ensures forall p :: 0 <= p < |AdminLine| ==> AdminLine[p] != 'P'
  {
  }

  /** It starts with the login words. */
  lemma AdminLineLogin()
    ensures AdminLoginAt(AdminLine, 0)
  {
    assert TextAt(AdminLine, 0, "admin") && TextAt(AdminLine, 6, "login");
  }

  /** Its `RemoteAddr:` field holds 1.2.3.4. */
  lemma AdminLineField()
    ensures MarkedQuadAt(AdminLine, 12, RemoteMarker) && QuadAt(AdminLine, 24) == Some("1.2.3.4")
  {
    var s := AdminLine;
    assert TextAt(s, 12, RemoteMarker);
    assert QuadEnd(s, 24) == Some(31);
    assert s[24..31] == "1.2.3.4";
  }

  /** No `RemoteAddr:` field follows it. */
  lemma AdminLineLast()
    ensures IsLastMarked(AdminLine, RemoteMarker, 12)
  {
    var s := AdminLine;
    AdminLineField();
    forall p: nat | 12 < p < |s|
      ensures !MarkedQuadAt(s, p, RemoteMarker)
    {
      if p + 11 < |s| {
        assert s[p + 0] != RemoteMarker[0];
      }
    }
  }

  /** The admin line holds no `PlayerIP:` field. */
  lemma AdminLineHasNoPlayer(s: string)
    requires s == AdminLine
    ensures PlayerIp(s).None?
  {
    AdminLineChars();
    AbsentMarker(s, PlayerMarker);
  }

  /** The admin pattern captures the address after `RemoteAddr:`. */
  lemma AdminLineAdminIp(s: string)
    requires s == AdminLine
    ensures AdminIp(s) == Some("1.2.3.4")
  {
    AdminLineChars();
    AdminLineLogin();
    AdminLineField();
    AdminLineLast();
    AdminIpFromFields(s, 0, 12);
  }

  /** A line recording an admin login is filed as an admin's IP. */
  lemma AdminLineVerdict()
    ensures Classify(AdminLine) == AdminLogin("1.2.3.4")
  {
    AdminLineHasNoPlayer(AdminLine);
    AdminLineAdminIp(AdminLine);
    ClassifyByPrecedence(AdminLine);
  }

  /** Nothing keeps an IP out of both trusted sets at once: the same address can log in as an
      admin and appear as a player. */
  lemma TrustedSetsMayOverlap()
    ensures var t := TallyOf(Verdicts([PlayerLine, AdminLine]));
            "1.2.3.4" in t.valid && "1.2.3.4" in t.admin
  {
    var lines := [PlayerLine, AdminLine];
    var vs := Verdicts(lines);
    PlayerLineVerdict();
    AdminLineVerdict();
    assert vs[0] == ValidPlayer("1.2.3.4") && vs[1] == AdminLogin("1.2.3.4");
    TallySets(vs);
  }

  /** A small log: two connections from 10.0.0.5, a connection from 1.2.3.4, then the player
      line and the admin line, both for 1.2.3.4. */
  const ExampleLog := [ClientLine, ClientLine, ReturningLine, PlayerLine, AdminLine]

  /** The first two lines of the example log are connection lines, and are counted. */
  lemma ExampleClientVerdict(log: seq<string>, i: nat)
    requires log == ExampleLog && i < 2
    ensures Verdicts(log)[i] == Occurrence("10.0.0.5")
  {
    assert log[i] == ClientLine;
    ClientLineVerdict();
  }

  /** Its third line is counted under 1.2.3.4. */
  lemma ExampleReturningVerdict(log: seq<string>)
    requires log == ExampleLog
    ensures Verdicts(log)[2] == Occurrence("1.2.3.4")
  {
    assert log[2] == ReturningLine;
    ReturningLineVerdict();
  }

  /** Its fourth line is a player's. */
  lemma ExamplePlayerVerdict(log: seq<string>)
    requires log == ExampleLog
    ensures Verdicts(log)[3] == ValidPlayer("1.2.3.4")
  {
    PlayerLineVerdict();
  }

  /** Its fifth line is an admin login. */
  lemma ExampleAdminVerdict(log: seq<string>)
    requires log == ExampleLog
    ensures Verdicts(log)[4] == AdminLogin("1.2.3.4")
  {
    AdminLineVerdict();
  }

  /** The pass counts both addresses; the filter then drops 1.2.3.4, which a player line named,
      and leaves 10.0.0.5 with its two lines. */
  lemma ExampleFilter(vs: seq<Verdict>)
    requires |vs| == 5 && vs[0] == vs[1] == Occurrence("10.0.0.5") && vs[2] == Occurrence("1.2.3.4")
    requires vs[3] == ValidPlayer("1.2.3.4") && vs[4] == AdminLogin("1.2.3.4")
    ensures TallyOf(vs).counts == map["10.0.0.5" := 2, "1.2.3.4" := 1]
    ensures Suspicious(vs) == map["10.0.0.5" := 2]
  {
    assert TallyOf(vs[..1]) == Tally(map["10.0.0.5" := 1], {}, {});
    assert vs[..2][..1] == vs[..1];
    assert TallyOf(vs[..2]) == Tally(map["10.0.0.5" := 2], {}, {});
    assert vs[..3][..2] == vs[..2];
    assert TallyOf(vs[..3]) == Tally(map["10.0.0.5" := 2, "1.2.3.4" := 1], {}, {});
    assert vs[..4][..3] == vs[..3];
    assert TallyOf(vs[..4]) == Tally(map["10.0.0.5" := 2, "1.2.3.4" := 1], {"1.2.3.4"}, {});
    assert vs[..4] == vs[..|vs| - 1];
    assert TallyOf(vs) == Tally(map["10.0.0.5" := 2, "1.2.3.4" := 1], {"1.2.3.4"}, {"1.2.3.4"});
  }

  /** Only 10.0.0.5 is reported for the example log, with its two lines; 1.2.3.4 was counted once
      but is trusted. */
  lemma ExampleSuspicious(log: seq<string>)
    requires log == ExampleLog
    ensures "1.2.3.4" in TallyOf(Verdicts(log)).counts
    ensures Suspicious(Verdicts(log)) == map["10.0.0.5" := 2]
  {
    ExampleClientVerdict(log, 0);
    ExampleClientVerdict(log, 1);
    ExampleReturningVerdict(log);
    ExamplePlayerVerdict(log);
    ExampleAdminVerdict(log);
    ExampleFilter(Verdicts(log));
  }

  /** A report of one IP is the header and that IP's row. */
  lemma SingleRowReport(m: map<string, nat>, ip: string, count: nat, keys: seq<string>)
    requires m == map[ip := count] && Enumerates(keys, m)
    ensures Header + Rows(keys, m) == Header + ip + "," + Decimal(count) + "\n"
  {
    EnumerationLength(keys, m);
    assert keys == [ip];
  }

  /** The report written for the example log is the header and the single row `10.0.0.5,2`. */
  lemma ExampleReport(log: seq<string>, keys: seq<string>)
    requires log == ExampleLog
    requires Enumerates(keys, Suspicious(Verdicts(log)))
    ensures Header + Rows(keys, Suspicious(Verdicts(log))) == "IP,matches\n10.0.0.5,2\n"
  {
    ExampleSuspicious(log);
    ExampleRow(Suspicious(Verdicts(log)), keys);
  }

  /** The text of that one-row report. */
  lemma ExampleRow(m: map<string, nat>, keys: seq<string>)
    requires m == map["10.0.0.5" := 2] && Enumerates(keys, m)
    ensures Header + Rows(keys, m) == "IP,matches\n10.0.0.5,2\n"
  {
    SingleRowReport(m, "10.0.0.5", 2, keys);
    assert Decimal(2) == "2";
  }
}
