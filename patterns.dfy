/**
 * The three line patterns of the log parser, written out as string functions instead of
 * regular expressions:
 *
 *   IP_PATTERN  = .*\s(Q).*
 *   VALID_IP    = .*PlayerIP:\s(Q).*
 *   ADMIN_IP    = .*admin\slogin.*RemoteAddr:\s(Q).*
 *
 * where Q is \d{1,3}\.\d{1,3}\.\d{1,3}\.\d{1,3}. Each is used with `search`, so the engine
 * tries every start position from the left; at one start the greedy `.*` first takes every
 * character up to (not including) the next newline and then gives them back one at a time.
 * The capture is therefore the LAST candidate of the first line segment that has one.
 */
module Patterns {
  import opened Wrappers

  /** `\s` of Python's `re` on text: the ASCII whitespace, the separators \x1c-\x1f, NEL and NBSP.
      These are all the whitespace characters text decoded as Latin-1 can contain. */
  predicate IsSpace(c: char) {
    c == ' ' || c == '\t' || c == '\n' || c == '\r' || c == '\U{0B}' || c == '\U{0C}'
    || ('\U{1C}' <= c <= '\U{1F}') || c == '\U{85}' || c == '\U{A0}'
  }

  /** `\d`: the only decimal digits of the Latin-1 range are the ASCII ones. */
  predicate IsDigit(c: char) {
    '0' <= c <= '9'
  }

  /** The text of one octet group: one to three digits, with no check that it is at most 255. */
  predicate IsOctetText(g: string) {
    1 <= |g| <= 3 && forall j :: 0 <= j < |g| ==> IsDigit(g[j])
  }

  /** A dotted quad: four octet groups joined by dots. */
  ghost predicate IsDottedQuad(q: string) {
    exists a, b, c, d :: IsOctetText(a) && IsOctetText(b) && IsOctetText(c) && IsOctetText(d)
                         && q == a + "." + b + "." + c + "." + d
  }

  /** Length of the run of digits that starts at index i. */
  function DigitRun(s: string, i: nat): (n: nat)
    requires i <= |s|
    ensures i + n <= |s|
    decreases |s| - i
  {
    if i < |s| && IsDigit(s[i]) then 1 + DigitRun(s, i + 1) else 0
  }

  /** DigitRun is the whole run: digits up to it, a non-digit (or the end) right after. */
  lemma {:induction false} DigitRunSpec(s: string, i: nat)
    requires i <= |s|
    ensures forall j :: i <= j < i + DigitRun(s, i) ==> IsDigit(s[j])
    ensures i + DigitRun(s, i) < |s| ==> !IsDigit(s[i + DigitRun(s, i)])
    decreases |s| - i
  {
    if i < |s| && IsDigit(s[i]) {
      DigitRunSpec(s, i + 1);
    }
  }

  /** `\d{1,3}\.` at index i: the index just past the dot, if it matches. Backtracking over
      the digit count cannot help, since the dot must follow the whole run. */
  function GroupDot(s: string, i: nat): (r: Option<nat>)
    requires i <= |s|
    ensures r.Some? ==> i + 2 <= r.value <= i + 4 && r.value <= |s| && s[r.value - 1] == '.'
  {
    var n := DigitRun(s, i);
    if 1 <= n <= 3 && i + n < |s| && s[i + n] == '.' then Some(i + n + 1) else None
  }

  /** What `\d{1,3}\.` reads before its dot is an octet group. */
  lemma GroupDotOctet(s: string, i: nat)
    requires i <= |s| && GroupDot(s, i).Some?
    ensures IsOctetText(s[i..GroupDot(s, i).value - 1])
  {
    DigitRunSpec(s, i);
  }

  /** End index of `(\d{1,3}\.){dots}\d{1,3}` starting at i. The last `\d{1,3}` is greedy and
      nothing has to follow it, so it takes at most three digits of the final run. */
  function GroupsEnd(s: string, i: nat, dots: nat): (r: Option<nat>)
    requires i <= |s|
    ensures r.Some? ==> i + 2 * dots < r.value <= |s|
    decreases dots
  {
    if dots == 0 then
      var n := DigitRun(s, i);
      if n == 0 then None else Some(i + (if n < 3 then n else 3))
    else
      match GroupDot(s, i)
      case None => None
      case Some(j) => GroupsEnd(s, j, dots - 1)
  }

  /** End index of a dotted quad that starts at i, read group by group: the reference reading. */
  function GroupedQuadEnd(s: string, i: nat): (r: Option<nat>)
    requires i <= |s|
    ensures r.Some? ==> i + 7 <= r.value <= |s|
  {
    GroupsEnd(s, i, 3)
  }

  /** End index of a dotted quad read character by character, in state (dots seen, digits of
      the current group). A fourth digit in one of the first three groups fails, since a dot
      must follow the whole group; the final group stops after its third digit. */
  function QuadScan(s: string, j: nat, dots: nat, run: nat): (r: Option<nat>)
    requires j <= |s| && dots <= 3 && run <= 3
    ensures r.Some? ==> j < r.value <= |s| || (run > 0 && j == r.value)
    decreases |s| - j
  {
    if j < |s| && IsDigit(s[j]) && run < 3 then QuadScan(s, j + 1, dots, run + 1)
    else if dots < 3 then
      if j < |s| && s[j] == '.' && run > 0 then QuadScan(s, j + 1, dots + 1, 0) else None
    else if run > 0 then Some(j)
    else None
  }

  /** End index of the dotted quad that starts at i, as the matchers read it. */
  function QuadEnd(s: string, i: nat): Option<nat>
    requires i <= |s|
  {
    QuadScan(s, i, 0, 0)
  }

  /** Reading k more digits only advances the digit count. */
  lemma {:induction false} ScanDigits(s: string, j: nat, dots: nat, run: nat, k: nat)
    requires j + k <= |s| && dots <= 3 && run + k <= 3
    requires forall m :: j <= m < j + k ==> IsDigit(s[m])
    ensures QuadScan(s, j, dots, run) == QuadScan(s, j + k, dots, run + k)
    decreases k
  {
    if k > 0 {
      ScanDigits(s, j + 1, dots, run + 1, k - 1);
    }
  }

  /** One group of the character-by-character reading is one `\d{1,3}\.` of the reference. */
  lemma {:induction false} ScanGroup(s: string, j: nat, dots: nat)
    requires j <= |s| && dots < 3
    ensures QuadScan(s, j, dots, 0) == match GroupDot(s, j)
                                        case None => None
                                        case Some(j') => QuadScan(s, j', dots + 1, 0)
  {
    var n := DigitRun(s, j);
    DigitRunSpec(s, j);
    var m := if n < 3 then n else 3;
    ScanDigits(s, j, dots, 0, m);
  }

  /** The final group of the character-by-character reading is the reference's final group. */
  lemma {:induction false} ScanFinal(s: string, j: nat)
    requires j <= |s|
    ensures QuadScan(s, j, 3, 0) == GroupsEnd(s, j, 0)
  {
    var n := DigitRun(s, j);
    DigitRunSpec(s, j);
    var m := if n < 3 then n else 3;
    ScanDigits(s, j, 3, 0, m);
  }

  /** The two readings of a dotted quad agree everywhere. */
  lemma {:induction false} QuadEndAgrees(s: string, i: nat)
    requires i <= |s|
    ensures QuadEnd(s, i) == GroupedQuadEnd(s, i)
  {
    ScanGroup(s, i, 0);
    match GroupDot(s, i)
    case None =>
    case Some(i2) =>
      ScanGroup(s, i2, 1);
      match GroupDot(s, i2)
      case None =>
      case Some(i3) =>
        ScanGroup(s, i3, 2);
        match GroupDot(s, i3)
        case None =>
        case Some(i4) =>
          ScanFinal(s, i4);
          assert GroupsEnd(s, i3, 1) == GroupsEnd(s, i4, 0);
          assert GroupsEnd(s, i2, 2) == GroupsEnd(s, i3, 1);
  }

  /** The captured group `(\d{1,3}\.\d{1,3}\.\d{1,3}\.\d{1,3})` when it starts at index i. */
  function QuadAt(s: string, i: nat): (r: Option<string>)
    requires i <= |s|
    ensures r.Some? ==> r.value <= s[i..]
  {
    match QuadEnd(s, i)
    case None => None
    case Some(e) => Some(s[i..e])
  }

  /** What QuadAt captures is a dotted quad. */
  lemma QuadAtShape(s: string, i: nat)
    requires i <= |s| && QuadAt(s, i).Some?
    ensures IsDottedQuad(QuadAt(s, i).value)
  {
    QuadEndAgrees(s, i);
    GroupedQuadShape(s, i);
  }

  lemma GroupedQuadShape(s: string, i: nat)
    requires i <= |s| && GroupedQuadEnd(s, i).Some?
    ensures IsDottedQuad(s[i..GroupedQuadEnd(s, i).value])
  {
    var i2 := GroupDot(s, i).value;
    var i3 := GroupDot(s, i2).value;
    var i4 := GroupDot(s, i3).value;
    var e := GroupedQuadEnd(s, i).value;
    GroupedQuadChain(s, i, i2, i3, i4);
    GroupDotOctet(s, i);
    GroupDotOctet(s, i2);
    GroupDotOctet(s, i3);
    FinalGroupOctet(s, i4);
    JoinDots(s, i, i2, i3, i4, e);
    DottedQuadIntro(s[i..i2 - 1], s[i2..i3 - 1], s[i3..i4 - 1], s[i4..e]);
  }

  lemma DottedQuadIntro(a: string, b: string, c: string, d: string)
    requires IsOctetText(a) && IsOctetText(b) && IsOctetText(c) && IsOctetText(d)
    ensures IsDottedQuad(a + "." + b + "." + c + "." + d)
  {
  }

  lemma FinalGroupOctet(s: string, j: nat)
    requires j <= |s| && GroupsEnd(s, j, 0).Some?
    ensures IsOctetText(s[j..GroupsEnd(s, j, 0).value])
  {
    DigitRunSpec(s, j);
  }

  /** Cutting s[i..e] at the three dots. */
  lemma JoinDots(s: string, i: nat, i2: nat, i3: nat, i4: nat, e: nat)
    requires i < i2 < i3 < i4 <= e <= |s|
    requires s[i2 - 1] == '.' && s[i3 - 1] == '.' && s[i4 - 1] == '.'
    ensures s[i..e] == s[i..i2 - 1] + "." + s[i2..i3 - 1] + "." + s[i3..i4 - 1] + "." + s[i4..e]
  {
    assert s[i3..e] == s[i3..i4 - 1] + "." + s[i4..e];
    assert s[i2..e] == s[i2..i3 - 1] + "." + s[i3..e];
    assert s[i..e] == s[i..i2 - 1] + "." + s[i2..e];
  }

  /** An octet group followed by a dot at index o is exactly what `\d{1,3}\.` reads there. */
  lemma {:induction false} GroupDotReads(s: string, o: nat, g: string)
    requires o + |g| < |s| && IsOctetText(g) && s[o..o + |g|] == g && s[o + |g|] == '.'
    ensures GroupDot(s, o) == Some(o + |g| + 1)
  {
    DigitRunSpec(s, o);
  }

  /** `\d{1,3}\.` reads the group of a prefix `g.rest` of s[o..] and leaves `rest` to be read. */
  lemma {:induction false} ReadsGroup(s: string, o: nat, g: string, rest: string)
    requires IsOctetText(g)
    requires o + |g| + 1 + |rest| <= |s| && s[o..o + |g| + 1 + |rest|] == g + "." + rest
    ensures GroupDot(s, o) == Some(o + |g| + 1)
    ensures s[o + |g| + 1..o + |g| + 1 + |rest|] == rest
  {
    var w := g + "." + rest;
    assert s[o + |g|] == w[|g|];
    assert s[o..o + |g|] == w[..|g|];
    assert s[o + |g| + 1..o + |g| + 1 + |rest|] == w[|g| + 1..];
    GroupDotReads(s, o, g);
  }

  /** Any dotted quad that s[i..] starts with is matched at i, and the match is at least as long:
      QuadAt returns the longest dotted-quad prefix, and None only when there is none. */
  lemma {:induction false} QuadAtLongest(s: string, i: nat, q: string)
    requires i <= |s| && IsDottedQuad(q) && q <= s[i..]
    ensures QuadAt(s, i).Some? && |q| <= |QuadAt(s, i).value|
  {
    var a, b, c, d :| IsOctetText(a) && IsOctetText(b) && IsOctetText(c) && IsOctetText(d)
                      && q == a + "." + b + "." + c + "." + d;
    var r2 := c + "." + d;
    var r1 := b + "." + r2;
    assert q == a + "." + r1;
    assert s[i..i + |q|] == q;
    QuadPrefixReads(s, i, a, b, c, d, r1, r2);
    QuadEndAgrees(s, i);
  }

  lemma {:induction false} QuadPrefixReads(s: string, i: nat, a: string, b: string, c: string, d: string,
                                           r1: string, r2: string)
    requires IsOctetText(a) && IsOctetText(b) && IsOctetText(c) && IsOctetText(d)
    requires r2 == c + "." + d && r1 == b + "." + r2
    requires i + |a| + 1 + |r1| <= |s| && s[i..i + |a| + 1 + |r1|] == a + "." + r1
    ensures GroupedQuadEnd(s, i).Some? && i + |a| + 1 + |r1| <= GroupedQuadEnd(s, i).value
  {
    ReadsGroup(s, i, a, r1);
    var o2 := i + |a| + 1;
    ReadsTail(s, o2, b, c, d, r2);
    GroupedQuadChain(s, i, o2, o2 + |b| + 1, o2 + |b| + |c| + 2);
  }

  /** The last three groups of a dotted quad that s[o2..] starts with. */
  lemma {:induction false} ReadsTail(s: string, o2: nat, b: string, c: string, d: string, r2: string)
    requires IsOctetText(b) && IsOctetText(c) && IsOctetText(d) && r2 == c + "." + d
    requires o2 + |b| + 1 + |r2| <= |s| && s[o2..o2 + |b| + 1 + |r2|] == b + "." + r2
    ensures GroupDot(s, o2) == Some(o2 + |b| + 1)
    ensures GroupDot(s, o2 + |b| + 1) == Some(o2 + |b| + |c| + 2)
    ensures GroupsEnd(s, o2 + |b| + |c| + 2, 0).Some?
    ensures o2 + |b| + |c| + 2 + |d| <= GroupsEnd(s, o2 + |b| + |c| + 2, 0).value
  {
    ReadsGroup(s, o2, b, r2);
    var o3 := o2 + |b| + 1;
    ReadsGroup(s, o3, c, d);
    FinalGroupReads(s, o3 + |c| + 1, d);
  }

  lemma GroupedQuadChain(s: string, i: nat, o2: nat, o3: nat, o4: nat)
    requires i <= o2 <= o3 <= o4 <= |s|
    requires GroupDot(s, i) == Some(o2) && GroupDot(s, o2) == Some(o3) && GroupDot(s, o3) == Some(o4)
    ensures GroupedQuadEnd(s, i) == GroupsEnd(s, o4, 0)
  {
    assert GroupsEnd(s, o3, 1) == GroupsEnd(s, o4, 0);
    assert GroupsEnd(s, o2, 2) == GroupsEnd(s, o3, 1);
  }

  lemma {:induction false} FinalGroupReads(s: string, o: nat, d: string)
    requires IsOctetText(d) && o + |d| <= |s| && s[o..o + |d|] == d
    ensures GroupsEnd(s, o, 0).Some? && o + |d| <= GroupsEnd(s, o, 0).value
  {
    DigitRunSpec(s, o);
  }

  /** A final group of four or more digits is cut to its first three. */
  lemma TruncatedFinalGroup()
    ensures QuadAt(" 1.2.3.4567", 1) == Some("1.2.3.456")
  {
    var s := " 1.2.3.4567";
    assert QuadEnd(s, 1) == Some(10);
    assert s[1..10] == "1.2.3.456";
  }

  /** Where a `.*` that starts at index i has to stop: the first newline at or after i. */
  function LineEnd(s: string, i: nat): (e: nat)
    requires i <= |s|
    ensures i <= e <= |s|
    ensures e < |s| ==> s[e] == '\n'
    decreases |s| - i
  {
    if i == |s| || s[i] == '\n' then i else LineEnd(s, i + 1)
  }

  /** LineEnd is the FIRST newline: there is none before it. */
  lemma {:induction false} LineEndSpec(s: string, i: nat)
    requires i <= |s|
    ensures forall j :: i <= j < LineEnd(s, i) ==> s[j] != '\n'
    decreases |s| - i
  {
    if i < |s| && s[i] != '\n' {
      LineEndSpec(s, i + 1);
    }
  }

  /** One past the last index that a pattern `.*X` started at i may try X at: `.*` reaches the
      newline, and `\s` may still match that newline itself. */
  function WindowEnd(s: string, i: nat): (w: nat)
    requires i <= |s|
    ensures i <= w <= |s|
  {
    var e := LineEnd(s, i);
    if e < |s| then e + 1 else e
  }

  /** The literal text w occurs in s at index p. */
  predicate TextAt(s: string, p: nat, w: string) {
    p + |w| <= |s| && forall k :: 0 <= k < |w| ==> s[p + k] == w[k]
  }

  /** `marker\s(Q)` matches at index p. The generic pattern is the case of the empty marker. */
  predicate MarkedQuadAt(s: string, p: nat, marker: string) {
    && p + |marker| < |s|
    && TextAt(s, p, marker)
    && IsSpace(s[p + |marker|])
    && QuadEnd(s, p + |marker| + 1).Some?
  }

  /** The positions at which `marker\s(Q)` matches. */
  function Marked(s: string, marker: string): nat -> bool {
    (p: nat) => MarkedQuadAt(s, p, marker)
  }

  /** The greedy backtracking of a `.*` over [lo, hi): the greatest position at which the rest
      of the pattern, P, matches. */
  function LastWhere(P: nat -> bool, lo: nat, hi: nat): (r: Option<nat>)
    requires lo <= hi
    ensures r.Some? ==> lo <= r.value < hi && P(r.value)
    ensures r.Some? ==> forall p: nat :: r.value < p < hi ==> !P(p)
    ensures r.None? ==> forall p: nat :: lo <= p < hi ==> !P(p)
    decreases hi - lo
  {
    if lo == hi then None
    else if P(hi - 1) then Some(hi - 1)
    else LastWhere(P, lo, hi - 1)
  }

  lemma WindowEndStable(s: string, i: nat, j: nat)
    requires i <= |s| && i <= j < WindowEnd(s, i)
    ensures WindowEnd(s, j) == WindowEnd(s, i)
  {
    LineEndSpec(s, i);
    LineEndSpec(s, j);
    assert LineEnd(s, j) == LineEnd(s, i);
  }

  /** `re.search` of `.*R` where R matches at the positions P: every start from `start` on is
      tried in turn, and at each one the greedy `.*` gives back characters from the end of its
      window. The result is where R matched. */
  function SearchFrom(s: string, P: nat -> bool, start: nat): (r: Option<nat>)
    requires start <= |s|
    ensures r.Some? ==> start <= r.value < |s| && P(r.value)
    ensures r.Some? ==> forall p: nat :: r.value < p < WindowEnd(s, r.value) ==> !P(p)
    ensures r.None? ==> forall p: nat :: start <= p < |s| ==> !P(p)
    ensures r.Some? ==> forall p: nat :: start <= p < r.value && WindowEnd(s, p) <= r.value ==> !P(p)
    decreases |s| - start
  {
    if start == |s| then None
    else
      match LastWhere(P, start, WindowEnd(s, start))
      case Some(p) =>
        WindowEndStable(s, start, p);
        assert forall q: nat :: start <= q < p ==> WindowEnd(s, q) == WindowEnd(s, start) by {
          forall q: nat | start <= q < p
            ensures WindowEnd(s, q) == WindowEnd(s, start)
          {
            WindowEndStable(s, start, q);
          }
        }
        Some(p)
      case None => SearchFrom(s, P, start + 1)
  }

  /** The group captured by `.*marker\s(Q).*`: the text matches exactly when `marker\s(Q)`
      occurs somewhere in it, and what is captured is a dotted quad. */
  function IpAfter(s: string, marker: string): (r: Option<string>)
    ensures r.Some? <==> exists p: nat :: MarkedQuadAt(s, p, marker)
    ensures r.Some? ==> IsDottedQuad(r.value)
  {
    match SearchFrom(s, Marked(s, marker), 0)
    case None =>
      assert forall p: nat :: !MarkedQuadAt(s, p, marker) by {
        forall p: nat
          ensures !MarkedQuadAt(s, p, marker)
        {
          if p < |s| {
            assert !Marked(s, marker)(p);
          }
        }
      }
      None
    case Some(p) =>
      assert Marked(s, marker)(p);
      QuadAtShape(s, p + |marker| + 1);
      QuadAt(s, p + |marker| + 1)
  }

  const PlayerMarker := "PlayerIP:"
  const RemoteMarker := "RemoteAddr:"

  /** IP_PATTERN: a whitespace-preceded dotted quad. A line matches exactly when a whitespace
      character is followed by a dotted quad somewhere in it. */
  function GenericIp(s: string): (r: Option<string>)
    ensures r.Some? <==> exists p: nat :: p + 1 < |s| && IsSpace(s[p]) && QuadEnd(s, p + 1).Some?
    ensures r.Some? ==> IsDottedQuad(r.value)
  {
    assert forall p: nat :: MarkedQuadAt(s, p, "") <==> p + 1 < |s| && IsSpace(s[p]) && QuadEnd(s, p + 1).Some?;
    IpAfter(s, "")
  }

  /** VALID_IP: the dotted quad of a `PlayerIP:` field. A line matches exactly when it holds
      `PlayerIP:`, a whitespace character and a dotted quad. */
  function PlayerIp(s: string): (r: Option<string>)
    ensures r.Some? <==> exists p: nat :: MarkedQuadAt(s, p, PlayerMarker)
    ensures r.Some? ==> IsDottedQuad(r.value)
  {
    IpAfter(s, PlayerMarker)
  }

  /** `admin\slogin` at index a (case-sensitive). */
  predicate AdminLoginAt(s: string, a: nat) {
    && a + 11 <= |s|
    && TextAt(s, a, "admin")
    && IsSpace(s[a + 5])
    && TextAt(s, a + 6, "login")
  }

  /** The `.*RemoteAddr:\s(Q)` after an `admin\slogin` at a: the last `RemoteAddr:` field the
      second `.*` can reach from the end of `login`. */
  function RemoteAfterLogin(s: string, a: nat): Option<nat>
    requires a + 11 <= |s|
  {
    LastWhere(Marked(s, RemoteMarker), a + 11, WindowEnd(s, a + 11))
  }

  /** ADMIN_IP matches from the first `.*` on when that `.*` ends at a. */
  predicate AdminMatchAt(s: string, a: nat) {
    AdminLoginAt(s, a) && RemoteAfterLogin(s, a).Some?
  }

  function AdminMatch(s: string): nat -> bool {
    (a: nat) => AdminMatchAt(s, a)
  }

  /** ADMIN_IP: the dotted quad of a `RemoteAddr:` field that follows `admin login`. A match
      always captures such a field; it is a dotted quad. */
  function AdminIp(s: string): (r: Option<string>)
    ensures r.Some? ==> exists a: nat, b: nat :: AdminLoginAt(s, a) && a + 11 <= b
                          && MarkedQuadAt(s, b, RemoteMarker) && r == QuadAt(s, b + |RemoteMarker| + 1)
    ensures r.Some? ==> IsDottedQuad(r.value)
  {
    match AdminRemote(s)
    case None => None
    case Some(b) =>
      QuadAtShape(s, b + |RemoteMarker| + 1);
      QuadAt(s, b + |RemoteMarker| + 1)
  }

  /** Where the `RemoteAddr:` field that ADMIN_IP captures from starts: after some `admin login`. */
  function AdminRemote(s: string): (r: Option<nat>)
    ensures r.Some? ==> MarkedQuadAt(s, r.value, RemoteMarker)
    ensures r.Some? ==> exists a: nat :: AdminLoginAt(s, a) && a + 11 <= r.value
  {
    match SearchFrom(s, AdminMatch(s), 0)
    case None => None
    case Some(a) =>
      assert AdminMatch(s)(a);
      var b := RemoteAfterLogin(s, a);
      assert Marked(s, RemoteMarker)(b.value);
      assert AdminLoginAt(s, a) && a + 11 <= b.value;
      b
  }

  /** A line as iterating over a text file yields it: a newline can only be its last character. */
  predicate OneLine(s: string) {
    forall j :: 0 <= j < |s| - 1 ==> s[j] != '\n'
  }

  /** p is the last index of the line at which `marker\s(Q)` matches. */
  ghost predicate IsLastMarked(s: string, marker: string, p: nat) {
    MarkedQuadAt(s, p, marker) && forall p' :: p < p' < |s| ==> !MarkedQuadAt(s, p', marker)
  }

  lemma OneLineWindow(s: string, i: nat)
    requires OneLine(s) && i < |s|
    ensures WindowEnd(s, i) == |s|
  {
    var e := LineEnd(s, i);
    if e < |s| {
      assert e == |s| - 1;
    }
  }

  /** On one line, `.*marker\s(Q).*` matches exactly when some index does, and then captures the
      dotted quad at the LAST such index: the greedy `.*` hides every earlier one. */
  lemma {:induction false} IpAfterTakesLast(s: string, marker: string)
    requires OneLine(s)
    ensures IpAfter(s, marker).None? <==> forall p: nat :: p < |s| ==> !MarkedQuadAt(s, p, marker)
    ensures forall p: nat :: IsLastMarked(s, marker, p) ==> IpAfter(s, marker) == QuadAt(s, p + |marker| + 1)
  {
    var P := Marked(s, marker);
    match SearchFrom(s, P, 0)
    case None =>
      forall p: nat | p < |s|
        ensures !MarkedQuadAt(s, p, marker)
      {
        assert !P(p);
      }
    case Some(p0) =>
      OneLineWindow(s, p0);
      assert P(p0);
      forall p: nat | IsLastMarked(s, marker, p)
        ensures p == p0
      {
        assert P(p);
        assert !(p < p0) && !(p0 < p);
      }
  }

  /** The generic pattern never misses a line that the player pattern matches: both need a
      whitespace character right before the dotted quad. */
  lemma PlayerLineIsGeneric(s: string)
    ensures PlayerIp(s).Some? ==> GenericIp(s).Some?
  {
    if PlayerIp(s).Some? {
      var p: nat :| MarkedQuadAt(s, p, PlayerMarker);
      var g := p + |PlayerMarker|;
      assert g + 1 < |s| && IsSpace(s[g]) && QuadEnd(s, g + 1).Some?;
    }
  }

  /** Likewise for the admin pattern. */
  lemma AdminLineIsGeneric(s: string)
    ensures AdminIp(s).Some? ==> GenericIp(s).Some?
  {
    if AdminIp(s).Some? {
      var a: nat, b: nat :| AdminLoginAt(s, a) && a + 11 <= b && MarkedQuadAt(s, b, RemoteMarker)
                            && AdminIp(s) == QuadAt(s, b + |RemoteMarker| + 1);
      var g := b + |RemoteMarker|;
      assert g + 1 < |s| && IsSpace(s[g]) && QuadEnd(s, g + 1).Some?;
    }
  }

  /** On one line, ADMIN_IP matches exactly when some `RemoteAddr:\s(Q)` comes after an
      `admin\slogin`, and then captures the dotted quad of the LAST `RemoteAddr:` field. */
  lemma AdminIpCharacterized(s: string)
    requires OneLine(s)
    ensures AdminIp(s).Some? <==>
              exists a: nat, b: nat :: AdminLoginAt(s, a) && a + 11 <= b && MarkedQuadAt(s, b, RemoteMarker)
    ensures forall b: nat :: IsLastMarked(s, RemoteMarker, b) && AdminIp(s).Some? ==> AdminIp(s) == QuadAt(s, b + 12)
  {
    AdminIpMatches(s);
    AdminIpTakesLast(s);
  }

  /** On one line, every `RemoteAddr:` field after a login makes ADMIN_IP match. */
  lemma AdminIpMatches(s: string)
    requires OneLine(s)
    ensures AdminIp(s).None? ==>
              forall a: nat, b: nat :: AdminLoginAt(s, a) && a + 11 <= b ==> !MarkedQuadAt(s, b, RemoteMarker)
  {
    if SearchFrom(s, AdminMatch(s), 0).None? {
      forall a: nat, b: nat | AdminLoginAt(s, a) && a + 11 <= b
        ensures !MarkedQuadAt(s, b, RemoteMarker)
      {
        assert !AdminMatch(s)(a);
        if a + 11 < |s| && b < |s| {
          OneLineWindow(s, a + 11);
          assert !Marked(s, RemoteMarker)(b);
        }
      }
    }
  }

  /** On one line, ADMIN_IP captures from the last `RemoteAddr:` field. */
  lemma AdminIpTakesLast(s: string)
    requires OneLine(s)
    ensures forall b: nat :: IsLastMarked(s, RemoteMarker, b) && AdminIp(s).Some? ==> AdminIp(s) == QuadAt(s, b + 12)
  {
    match SearchFrom(s, AdminMatch(s), 0)
    case None =>
    case Some(a) =>
      assert AdminMatch(s)(a);
      var b0 := RemoteAfterLogin(s, a).value;
      assert AdminRemote(s) == Some(b0);
      forall b: nat | IsLastMarked(s, RemoteMarker, b)
        ensures b == b0
      {
        RemoteAfterLoginIsLast(s, a, b);
      }
  }

  /** On one line, the field that the second `.*` of ADMIN_IP backtracks to is the line's last. */
  lemma RemoteAfterLoginIsLast(s: string, a: nat, b: nat)
    requires OneLine(s) && AdminMatchAt(s, a) && IsLastMarked(s, RemoteMarker, b)
    ensures RemoteAfterLogin(s, a) == Some(b)
  {
    var R := Marked(s, RemoteMarker);
    var b0 := RemoteAfterLogin(s, a).value;
    assert R(b0);
    OneLineWindow(s, a + 11);
    assert R(b);
    assert !(b < b0) && !(b0 < b);
  }

  /** Of two whitespace-preceded dotted quads, the generic pattern captures the later one. */
  lemma GenericTakesLaterOfTwo()
    ensures GenericIp("a 1.1.1.1 2.2.2.2") == Some("2.2.2.2")
  {
    var s := "a 1.1.1.1 2.2.2.2";
    SecondQuadIsLast();
    IpAfterTakesLast(s, "");
    assert s[10..17] == "2.2.2.2";
  }

  lemma SecondQuadIsLast()
    ensures IsLastMarked("a 1.1.1.1 2.2.2.2", "", 9)
    ensures QuadEnd("a 1.1.1.1 2.2.2.2", 10) == Some(17)
  {
    var s := "a 1.1.1.1 2.2.2.2";
    assert QuadEnd(s, 10) == Some(17);
    forall p': nat | 9 < p' < |s|
      ensures !MarkedQuadAt(s, p', "")
    {
      assert !IsSpace(s[p']);
    }
  }
}
