/**
 * The single pass of `main` over the log: each line that the generic pattern matches goes to
 * exactly one of three buckets (valid player, admin, plain occurrence), in the order the code
 * tests the patterns: PlayerIP first, admin login only when that fails.
 */
module Aggregate {
  import opened Wrappers
  import opened Patterns

  /** Where one line goes. */
  datatype Verdict = Skipped | ValidPlayer(ip: string) | AdminLogin(ip: string) | Occurrence(ip: string)

  /** The branches of the loop body for one line. */
  function Classify(line: string): Verdict {
    match GenericIp(line)
    case None => Skipped
    case Some(ip) =>
      var isValid := PlayerIp(line);
      var isAdmin := if isValid.None? then AdminIp(line) else None;
      if isAdmin.Some? then AdminLogin(isAdmin.value)
      else if isValid.Some? then ValidPlayer(isValid.value)
      else Occurrence(ip)
  }

  /** The verdict by precedence alone: a player line is a player line whatever else it holds, an
      admin line without a player field is an admin line, and only the rest are counted. The
      outer generic test hides no marker line. */
  lemma ClassifyByPrecedence(line: string)
    ensures Classify(line) ==
              if PlayerIp(line).Some? then ValidPlayer(PlayerIp(line).value)
              else if AdminIp(line).Some? then AdminLogin(AdminIp(line).value)
              else if GenericIp(line).Some? then Occurrence(GenericIp(line).value)
              else Skipped
  {
    PlayerLineIsGeneric(line);
    AdminLineIsGeneric(line);
  }

  /** Every IP a line is filed under is a dotted quad. */
  lemma VerdictShape(line: string)
    ensures !Classify(line).Skipped? ==> IsDottedQuad(Classify(line).ip)
  {
  }

  /** The three collections of the pass: `ip_dict`, `valid_ips` and `admin_ips`. */
  datatype Tally = Tally(counts: map<string, nat>, valid: set<string>, admin: set<string>)

  /** The verdict of every line, in order. */
  function Verdicts(lines: seq<string>): seq<Verdict>
  {
    seq(|lines|, i requires 0 <= i < |lines| => Classify(lines[i]))
  }

  /** Files one verdict: only its own bucket changes, and a skipped line changes nothing. */
  function Record(t: Tally, v: Verdict): (r: Tally)
    ensures v.Skipped? ==> r == t
    ensures (r.valid == t.valid && r.admin == t.admin)
            || (r.counts == t.counts && r.admin == t.admin)
            || (r.counts == t.counts && r.valid == t.valid)
    ensures t.counts.Keys <= r.counts.Keys && t.valid <= r.valid && t.admin <= r.admin
  {
    match v
    case Skipped => t
    case ValidPlayer(ip) => t.(valid := t.valid + {ip})
    case AdminLogin(ip) => t.(admin := t.admin + {ip})
    case Occurrence(ip) => t.(counts := t.counts[ip := (if ip in t.counts then t.counts[ip] else 0) + 1])
  }

  /** The collections after filing the verdicts in order. */
  function TallyOf(vs: seq<Verdict>): Tally
    decreases |vs|
  {
    if vs == [] then Tally(map[], {}, {})
    else Record(TallyOf(vs[..|vs| - 1]), vs[|vs| - 1])
  }

  /** The number of times v occurs among the verdicts. */
  function CountOf(vs: seq<Verdict>, v: Verdict): nat
    decreases |vs|
  {
    if vs == [] then 0
    else CountOf(vs[..|vs| - 1], v) + (if vs[|vs| - 1] == v then 1 else 0)
  }

  /** `ip_dict[ip]` is the number of counted lines whose IP is ip; it holds no other keys. */
  lemma {:induction false} TallyCounts(vs: seq<Verdict>)
    ensures forall ip :: ip in TallyOf(vs).counts <==> CountOf(vs, Occurrence(ip)) > 0
    ensures forall ip :: ip in TallyOf(vs).counts ==> TallyOf(vs).counts[ip] == CountOf(vs, Occurrence(ip))
    decreases |vs|
  {
    if vs != [] {
      TallyCounts(vs[..|vs| - 1]);
    }
  }

  /** `valid_ips` holds exactly the IPs of player lines, `admin_ips` exactly those of admin lines. */
  lemma {:induction false} TallySets(vs: seq<Verdict>)
    ensures forall ip :: ip in TallyOf(vs).valid <==> ValidPlayer(ip) in vs
    ensures forall ip :: ip in TallyOf(vs).admin <==> AdminLogin(ip) in vs
    decreases |vs|
  {
    if vs != [] {
      var init := vs[..|vs| - 1];
      TallySets(init);
      assert vs == init + [vs[|vs| - 1]];
    }
  }

  /** The sum of the values of a count map. */
  ghost function Total(m: map<string, nat>): nat
    decreases |m|
  {
    if m == map[] then 0
    else
      var k :| k in m;
      m[k] + Total(m - {k})
  }

  /** Total does not depend on which key it takes first. */
  lemma {:induction false} TotalRemove(m: map<string, nat>, k: string)
    requires k in m
    ensures Total(m) == m[k] + Total(m - {k})
    decreases |m|
  {
    var k' :| k' in m && Total(m) == m[k'] + Total(m - {k'});
    if k' != k {
      assert |m - {k'}| < |m|;
      TotalRemove(m - {k'}, k);
      TotalRemove(m - {k}, k');
      assert m - {k'} - {k} == m - {k} - {k'};
    }
  }

  /** Counting one more line adds one to the total. */
  lemma TotalIncrement(m: map<string, nat>, k: string)
    ensures Total(m[k := (if k in m then m[k] else 0) + 1]) == Total(m) + 1
  {
    var m' := m[k := (if k in m then m[k] else 0) + 1];
    TotalRemove(m', k);
    assert m' - {k} == m - {k};
    if k in m {
      TotalRemove(m, k);
    } else {
      assert m - {k} == m;
    }
  }

  /** The number of counted verdicts, whatever their IP. */
  function CountOccurrences(vs: seq<Verdict>): (n: nat)
    ensures n <= |vs|
    decreases |vs|
  {
    if vs == [] then 0
    else CountOccurrences(vs[..|vs| - 1]) + (if vs[|vs| - 1].Occurrence? then 1 else 0)
  }

  /** The counts add up to the number of counted lines, so never to more than the lines read. */
  lemma {:induction false} TallyTotal(vs: seq<Verdict>)
    ensures Total(TallyOf(vs).counts) == CountOccurrences(vs)
    decreases |vs|
  {
    if vs != [] {
      var last := vs[|vs| - 1];
      TallyTotal(vs[..|vs| - 1]);
      if last.Occurrence? {
        TotalIncrement(TallyOf(vs[..|vs| - 1]).counts, last.ip);
      }
    }
  }

  /** Filing a line as the loop body does: the branches of the loop body agree with Record. */
  lemma RecordBranches(t: Tally, line: string)
    ensures Record(t, Classify(line)) ==
      if GenericIp(line).None? then t
      else if PlayerIp(line).None? && AdminIp(line).Some? then t.(admin := t.admin + {AdminIp(line).value})
      else if PlayerIp(line).Some? then t.(valid := t.valid + {PlayerIp(line).value})
      else
        var ip := GenericIp(line).value;
        t.(counts := t.counts[ip := (if ip in t.counts then t.counts[ip] else 0) + 1])
  {
  }

  /** The verdicts of one more line. */
  lemma VerdictsSnoc(lines: seq<string>, i: nat)
    requires i < |lines|
    ensures Verdicts(lines[..i + 1]) == Verdicts(lines[..i]) + [Classify(lines[i])]
  {
  }

  /** The body of the loop for one line: tests the patterns in the code's order and updates the
      one collection the line belongs to. */
  method FileLine(line: string, counts: map<string, nat>, valid: set<string>, admin: set<string>)
    returns (counts': map<string, nat>, valid': set<string>, admin': set<string>)
    ensures Tally(counts', valid', admin') == Record(Tally(counts, valid, admin), Classify(line))
  {
    counts', valid', admin' := counts, valid, admin;
    var found := GenericIp(line);
    if found.Some? {
      var isValid := PlayerIp(line);
      var isAdmin: Option<string> := None;
      if isValid.None? {
        isAdmin := AdminIp(line);
      }
      if isAdmin.Some? {
        admin' := admin + {isAdmin.value};
      } else if isValid.Some? {
        valid' := valid + {isValid.value};
      } else {
        var ip := found.value;
        counts' := counts[ip := (if ip in counts then counts[ip] else 0) + 1];
      }
    }
    assert Tally(counts', valid', admin') == Record(Tally(counts, valid, admin), Classify(line)) by {
      RecordBranches(Tally(counts, valid, admin), line);
    }
  }

  /** The loop of `main` over the lines: updates the count map and the two sets in place. */
  method Scan(lines: seq<string>) returns (counts: map<string, nat>, valid: set<string>, admin: set<string>)
    ensures Tally(counts, valid, admin) == TallyOf(Verdicts(lines))
    ensures forall ip :: ip in counts <==> CountOf(Verdicts(lines), Occurrence(ip)) > 0
    ensures forall ip :: ip in counts ==> counts[ip] == CountOf(Verdicts(lines), Occurrence(ip))
    ensures forall ip :: ip in valid <==> ValidPlayer(ip) in Verdicts(lines)
    ensures forall ip :: ip in admin <==> AdminLogin(ip) in Verdicts(lines)
  {
    counts, valid, admin := map[], {}, {};
    for i := 0 to |lines|
      invariant Tally(counts, valid, admin) == TallyOf(Verdicts(lines[..i]))
    {
      counts, valid, admin := FileLine(lines[i], counts, valid, admin);
      VerdictsSnoc(lines, i);
      assert (Verdicts(lines[..i]) + [Classify(lines[i])])[..i] == Verdicts(lines[..i]);
    }
    assert lines[..|lines|] == lines;
    TallyCounts(Verdicts(lines));
    TallySets(Verdicts(lines));
  }
}
