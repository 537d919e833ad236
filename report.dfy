/**
 * What `main` does after the pass: it drops every IP that was seen with player information or in
 * an admin login from the count map, then writes the remaining counts as CSV rows under a header.
 */
module Report {
  import opened Wrappers
  import opened Patterns
  import opened Aggregate

  /** after is before without the keys in valid or admin, every other count unchanged. */
  ghost predicate Filtered(before: map<string, nat>, valid: set<string>, admin: set<string>, after: map<string, nat>) {
    && (forall ip :: ip in after <==> ip in before && ip !in valid && ip !in admin)
    && (forall ip :: ip in after ==> after[ip] == before[ip])
  }

  /** Filtering twice with the same sets gives the map that filtering once gives. */
  lemma FilterIdempotent(counts: map<string, nat>, valid: set<string>, admin: set<string>,
                         once: map<string, nat>, twice: map<string, nat>)
    requires Filtered(counts, valid, admin, once) && Filtered(once, valid, admin, twice)
    ensures twice == once
  {
    assert twice.Keys == once.Keys;
  }

  /** Removes the trusted IPs from the count map, key by key, the valid ones first and then the
      admin ones; a key that is not (or no longer) in the map is passed over. */
  method DropTrusted(counts: map<string, nat>, valid: set<string>, admin: set<string>)
    returns (suspicious: map<string, nat>)
    ensures Filtered(counts, valid, admin, suspicious)
  {
    suspicious := counts;
    var rest := valid;
    while rest != {}
      invariant rest <= valid
      invariant forall ip :: ip in suspicious <==> ip in counts && (ip !in valid || ip in rest)
      invariant forall ip :: ip in suspicious ==> suspicious[ip] == counts[ip]
      decreases rest
    {
      var vi :| vi in rest;
      if vi in suspicious {
        suspicious := suspicious - {vi};
      }
      rest := rest - {vi};
    }
    rest := admin;
    while rest != {}
      invariant rest <= admin
      invariant forall ip :: ip in suspicious <==> ip in counts && ip !in valid && (ip !in admin || ip in rest)
      invariant forall ip :: ip in suspicious ==> suspicious[ip] == counts[ip]
      decreases rest
    {
      var ai :| ai in rest;
      if ai in suspicious {
        suspicious := suspicious - {ai};
      }
      rest := rest - {ai};
    }
  }

  /** The map the report is written from: the counts of every IP of a counted line that never
      appeared as a player's or an admin's IP. */
  function Suspicious(vs: seq<Verdict>): (m: map<string, nat>)
    ensures m.Keys <= TallyOf(vs).counts.Keys
  {
    var t := TallyOf(vs);
    map ip | ip in t.counts && ip !in t.valid && ip !in t.admin :: t.counts[ip]
  }

  /** An IP is reported exactly when some line was counted for it and no line filed it as a player
      or admin IP, and its number is the number of lines counted for it. */
  lemma SuspiciousCharacterized(vs: seq<Verdict>)
    ensures forall ip :: ip in Suspicious(vs) <==>
              Occurrence(ip) in vs && ValidPlayer(ip) !in vs && AdminLogin(ip) !in vs
    ensures forall ip :: ip in Suspicious(vs) ==> Suspicious(vs)[ip] == CountOf(vs, Occurrence(ip)) > 0
  {
    TallyCounts(vs);
    TallySets(vs);
    forall ip
      ensures Occurrence(ip) in vs <==> CountOf(vs, Occurrence(ip)) > 0
    {
      CountPositive(vs, Occurrence(ip));
    }
  }

  /** A verdict occurs exactly when it is counted at least once. */
  lemma {:induction false} CountPositive(vs: seq<Verdict>, v: Verdict)
    ensures v in vs <==> CountOf(vs, v) > 0
    decreases |vs|
  {
    if vs != [] {
      var init := vs[..|vs| - 1];
      CountPositive(init, v);
      assert vs == init + [vs[|vs| - 1]];
    }
  }

  /** Every reported IP is a dotted quad read from some line. */
  lemma SuspiciousShape(lines: seq<string>)
    ensures forall ip :: ip in Suspicious(Verdicts(lines)) ==> IsDottedQuad(ip)
  {
    var vs := Verdicts(lines);
    SuspiciousCharacterized(vs);
    forall ip | ip in Suspicious(vs)
      ensures IsDottedQuad(ip)
    {
      var i :| 0 <= i < |vs| && vs[i] == Occurrence(ip);
      VerdictShape(lines[i]);
    }
  }

  /** A digit character for 0..9. */
  function DigitChar(d: nat): (c: char)
    requires d < 10
    ensures IsDigit(c) && (c as int) - ('0' as int) == d
  {
    (('0' as int) + d) as char
  }

  /** The decimal text of a count, as `str` writes it: no sign, no leading zero. */
  function Decimal(n: nat): (s: string)
    ensures 1 <= |s|
    ensures forall j :: 0 <= j < |s| ==> IsDigit(s[j])
    ensures s[0] == '0' ==> n == 0
    decreases n
  {
    if n < 10 then [DigitChar(n)] else Decimal(n / 10) + [DigitChar(n % 10)]
  }

  /** The number a string of decimal digits denotes. */
  function DecimalValue(s: string): nat
    requires forall j :: 0 <= j < |s| ==> IsDigit(s[j])
    decreases |s|
  {
    if s == [] then 0
    else
      assert IsDigit(s[|s| - 1]);
      10 * DecimalValue(s[..|s| - 1]) + ((s[|s| - 1] as int) - ('0' as int))
  }

  /** Reading back the count column gives the count. */
  lemma {:induction false} DecimalRoundTrip(n: nat)
    ensures DecimalValue(Decimal(n)) == n
    decreases n
  {
    var s := Decimal(n);
    if n >= 10 {
      DecimalRoundTrip(n / 10);
      assert s[..|s| - 1] == Decimal(n / 10);
    }
  }

  /** The first line of the file. */
  const Header := "IP,matches\n"

  /** One row: the IP, a comma, its count and a newline. */
  function Row(ip: string, count: nat): string {
    ip + "," + Decimal(count) + "\n"
  }

  /** The first position of c in s, if any. */
  function IndexOf(s: string, c: char): (r: Option<nat>)
    ensures r.Some? ==> r.value < |s| && s[r.value] == c && c !in s[..r.value]
    ensures r.None? ==> c !in s
    decreases |s|
  {
    if s == [] then None
    else if s[0] == c then Some(0)
    else match IndexOf(s[1..], c)
      case None => None
      case Some(k) => assert s[1..][..k] == s[1..k + 1]; Some(k + 1)
  }

  /** Reads one row back: the IP up to the first comma and the count up to the newline ending it. */
  function ParseRow(row: string): Option<(string, nat)> {
    match IndexOf(row, ',')
    case None => None
    case Some(k) =>
      var field := row[k + 1..];
      if |field| >= 2 && field[|field| - 1] == '\n'
         && forall j :: 0 <= j < |field| - 1 ==> IsDigit(field[j])
      then Some((row[..k], DecimalValue(field[..|field| - 1])))
      else None
  }

  /** A row whose IP holds no comma reads back as that IP and count. */
  lemma RowRoundTrip(ip: string, count: nat)
    requires ',' !in ip
    ensures ParseRow(Row(ip, count)) == Some((ip, count))
  {
    var row := Row(ip, count);
    var d := Decimal(count);
    RowParts(ip, d);
    IndexOfPrefix(row, ip, ',');
    var field := row[|ip| + 1..];
    assert field[..|field| - 1] == d;
    DecimalRoundTrip(count);
  }

  /** The pieces of a row: the IP, the comma, and the count with its newline. */
  lemma RowParts(ip: string, d: string)
    ensures var row := ip + "," + d + "\n";
            |row| == |ip| + |d| + 2 && row[..|ip|] == ip && row[|ip|] == ','
            && row[|ip| + 1..] == d + "\n"
  {
    var row := ip + "," + d + "\n";
    assert row == ip + ([','] + d + "\n");
  }

  /** The first c lies just after a prefix free of c. */
  lemma IndexOfPrefix(s: string, p: string, c: char)
    requires |p| < |s| && s[..|p|] == p && s[|p|] == c && c !in p
    ensures IndexOf(s, c) == Some(|p|)
  {
    assert s[..|p| + 1][|p|] == c;
  }

  /** A dotted quad holds digits and dots only, so no comma and no newline. */
  lemma QuadHasNoSeparators(q: string)
    requires IsDottedQuad(q)
    ensures forall j :: 0 <= j < |q| ==> IsDigit(q[j]) || q[j] == '.'
    ensures ',' !in q && '\n' !in q
  {
    var a, b, c, d :| IsOctetText(a) && IsOctetText(b) && IsOctetText(c) && IsOctetText(d)
                      && q == a + "." + b + "." + c + "." + d;
    forall j | 0 <= j < |q|
      ensures IsDigit(q[j]) || q[j] == '.'
    {
      if j < |a| {
        assert q[j] == a[j];
      } else if j < |a| + 1 {
      } else if j < |a| + 1 + |b| {
        assert q[j] == b[j - |a| - 1];
      } else if j < |a| + 2 + |b| {
      } else if j < |a| + 2 + |b| + |c| {
        assert q[j] == c[j - |a| - 2 - |b|];
      } else if j < |a| + 3 + |b| + |c| {
      } else {
        assert q[j] == d[j - |a| - 3 - |b| - |c|];
      }
    }
  }

  /** The rows for the keys in the given order. */
  function Rows(keys: seq<string>, m: map<string, nat>): string
    requires forall j :: 0 <= j < |keys| ==> keys[j] in m
    decreases |keys|
  {
    if keys == [] then ""
    else Rows(keys[..|keys| - 1], m) + Row(keys[|keys| - 1], m[keys[|keys| - 1]])
  }

  /** The keys list every key of the map once (in the order the dictionary yields them). */
  ghost predicate Enumerates(keys: seq<string>, m: map<string, nat>) {
    (forall j :: 0 <= j < |keys| ==> keys[j] in m)
    && (forall k :: k in m ==> k in keys)
    && (forall i, j :: 0 <= i < j < |keys| ==> keys[i] != keys[j])
  }

  /** An enumeration has one entry per key. */
  lemma {:induction false} EnumerationLength(keys: seq<string>, m: map<string, nat>)
    requires Enumerates(keys, m)
    ensures |keys| == |m|
    decreases |keys|
  {
    if keys != [] {
      var last := keys[|keys| - 1];
      var init := keys[..|keys| - 1];
      var m' := m - {last};
      forall k | k in m'
        ensures k in init
      {
        var j :| 0 <= j < |keys| && keys[j] == k;
        assert j != |keys| - 1;
      }
      forall j | 0 <= j < |init|
        ensures init[j] in m'
      {
        assert init[j] == keys[j] && keys[j] != keys[|keys| - 1];
      }
      EnumerationLength(init, m');
      assert m'.Keys == m.Keys - {last};
    }
  }

  /** The number of occurrences of c in s. */
  function Occurrences(s: string, c: char): nat
    decreases |s|
  {
    if s == [] then 0 else Occurrences(s[..|s| - 1], c) + (if s[|s| - 1] == c then 1 else 0)
  }

  /** Occurrences adds up over a concatenation. */
  lemma {:induction false} OccurrencesAppend(s: string, t: string, c: char)
    ensures Occurrences(s + t, c) == Occurrences(s, c) + Occurrences(t, c)
    decreases |t|
  {
    if t != [] {
      assert (s + t)[..|s + t| - 1] == s + t[..|t| - 1];
      OccurrencesAppend(s, t[..|t| - 1], c);
    } else {
      assert s + t == s;
    }
  }

  /** A string without c holds none of it. */
  lemma {:induction false} OccurrencesAbsent(s: string, c: char)
    requires c !in s
    ensures Occurrences(s, c) == 0
    decreases |s|
  {
    if s != [] {
      assert s[..|s| - 1] <= s;
      OccurrencesAbsent(s[..|s| - 1], c);
    }
  }

  /** A row holds exactly one newline when its IP holds none. */
  lemma RowNewline(ip: string, count: nat)
    requires '\n' !in ip
    ensures Occurrences(Row(ip, count), '\n') == 1
  {
    var d := Decimal(count);
    var body := ip + "," + d;
    assert Row(ip, count) == body + "\n";
    forall j | 0 <= j < |body|
      ensures body[j] != '\n'
    {
      if j < |ip| {
        assert body[j] == ip[j];
      } else if j > |ip| {
        assert body[j] == d[j - |ip| - 1];
      }
    }
    OccurrencesAppend(body, "\n", '\n');
    OccurrencesAbsent(body, '\n');
    assert "\n"[..0] == [];
  }

  /** Each row ends one line of the file when no IP holds a newline. */
  lemma {:induction false} RowsLines(keys: seq<string>, m: map<string, nat>)
    requires forall j :: 0 <= j < |keys| ==> keys[j] in m && '\n' !in keys[j]
    ensures Occurrences(Rows(keys, m), '\n') == |keys|
    decreases |keys|
  {
    if keys != [] {
      var k := keys[|keys| - 1];
      RowsLines(keys[..|keys| - 1], m);
      OccurrencesAppend(Rows(keys[..|keys| - 1], m), Row(k, m[k]), '\n');
      RowNewline(k, m[k]);
    }
  }

  /** The header is one line. */
  lemma HeaderLine()
    ensures Occurrences(Header, '\n') == 1
  {
    assert Header == "IP,matches" + "\n";
    OccurrencesAppend("IP,matches", "\n", '\n');
    OccurrencesAbsent("IP,matches", '\n');
  }

  /** One more key adds its row at the end. */
  lemma RowsSnoc(keys: seq<string>, k: string, m: map<string, nat>)
    requires (forall j :: 0 <= j < |keys| ==> keys[j] in m) && k in m
    ensures Rows(keys + [k], m) == Rows(keys, m) + Row(k, m[k])
  {
    assert (keys + [k])[..|keys|] == keys;
  }

  /** Writes the header and then one row per key of the map, in the map's own iteration order. */
  method WriteCsv(m: map<string, nat>) returns (out: string)
    ensures exists keys :: Enumerates(keys, m) && out == Header + Rows(keys, m)
  {
    out := Header;
    var rest := m.Keys;
    ghost var done: seq<string> := [];
    while rest != {}
      invariant rest <= m.Keys
      invariant forall j :: 0 <= j < |done| ==> done[j] in m && done[j] !in rest
      invariant forall k :: k in m && k !in rest ==> k in done
      invariant forall i, j :: 0 <= i < j < |done| ==> done[i] != done[j]
      invariant out == Header + Rows(done, m)
      decreases rest
    {
      var key :| key in rest;
      RowsSnoc(done, key, m);
      assert Header + Rows(done + [key], m) == (Header + Rows(done, m)) + Row(key, m[key]);
      out := out + Row(key, m[key]);
      ghost var prev := done;
      done := done + [key];
      rest := rest - {key};
      assert forall k :: k in prev ==> k in done;
      assert done[|prev|] == key;
    }
    assert Enumerates(done, m);
  }

  /** The file holds the header line and one line per reported IP, each IP once. */
  lemma CsvLines(m: map<string, nat>, keys: seq<string>)
    requires forall k :: k in m ==> '\n' !in k
    requires Enumerates(keys, m)
    ensures Occurrences(Header + Rows(keys, m), '\n') == 1 + |m|
  {
    EnumerationLength(keys, m);
    RowsLines(keys, m);
    OccurrencesAppend(Header, Rows(keys, m), '\n');
    HeaderLine();
  }

  /** The whole of `main` after the file has been read into lines: the pass, the filtering of
      trusted IPs and the CSV text, which has one line per reported IP after the header. */
  method Run(lines: seq<string>) returns (csv: string)
    ensures exists keys :: Enumerates(keys, Suspicious(Verdicts(lines)))
                           && csv == Header + Rows(keys, Suspicious(Verdicts(lines)))
    ensures Occurrences(csv, '\n') == 1 + |Suspicious(Verdicts(lines))|
  {
    var counts, valid, admin := Scan(lines);
    var suspicious := DropTrusted(counts, valid, admin);
    assert suspicious == Suspicious(Verdicts(lines));
    csv := WriteCsv(suspicious);
    ReportLines(lines, csv);
  }

  /** Every report of a log has a line per reported IP after the header. */
  lemma ReportLines(lines: seq<string>, csv: string)
    requires exists keys :: Enumerates(keys, Suspicious(Verdicts(lines)))
                            && csv == Header + Rows(keys, Suspicious(Verdicts(lines)))
    ensures Occurrences(csv, '\n') == 1 + |Suspicious(Verdicts(lines))|
  {
    var m := Suspicious(Verdicts(lines));
    var keys :| Enumerates(keys, m) && csv == Header + Rows(keys, m);
    SuspiciousShape(lines);
    forall k | k in m
      ensures '\n' !in k
    {
      QuadHasNoSeparators(k);
    }
    CsvLines(m, keys);
  }

  /** A log of n copies of a counted line reports that line's IP with count n. */
  lemma RepeatedLine(line: string, n: nat)
    requires Classify(line).Occurrence? && n > 0
    ensures Suspicious(Verdicts(seq(n, _ => line))) == map[Classify(line).ip := n]
  {
    var vs := Verdicts(seq(n, _ => line));
    var v := Classify(line);
    assert forall i :: 0 <= i < |vs| ==> vs[i] == v;
    UniformTally(vs, v.ip);
  }

  /** The tally of verdicts that all count the same IP. */
  lemma {:induction false} UniformTally(vs: seq<Verdict>, ip: string)
    requires vs != [] && forall i :: 0 <= i < |vs| ==> vs[i] == Occurrence(ip)
    ensures TallyOf(vs) == Tally(map[ip := |vs|], {}, {})
    decreases |vs|
  {
    if |vs| > 1 {
      UniformTally(vs[..|vs| - 1], ip);
    }
  }
}
