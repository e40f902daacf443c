/**
 * Tab completion and inline hints of the interactive client.
 *
 * On a line that starts with '.' (but not with ".schema ") the client ranks
 * its seven dot-commands by how many leading characters they share with the
 * line. Elsewhere it finds the identifier being typed at the end of the line
 * and asks the server for candidates; the server is modelled by the reply it
 * gives, an `OracleReply`.
 */
module Completion {
  import opened CStrings

  /** The client's dot-commands, in the order of its static table. */
  const Commands: seq<string> :=
    [".tables", ".schema", ".help", ".indexes", ".alltables", ".allindexes", ".vertical"]

  /** The size of the completion line buffer, and the longest line completed. */
  const LineCapacity: int := 1000
  const MetaLimit: int := LineCapacity - 30

  /** The prefix that turns a dot-line back into a server-completed one. */
  const SchemaPrefix: string := ".schema "

  const HintColor: int := 35

  // ---------------------------------------------------------------------
  // Ranking

  /**
   * The score of a candidate against the typed line: the length of their
   * longest common prefix.
   */
  function Score(c: string, p: string): nat
  {
    if c == [] || p == [] || c[0] != p[0] then 0 else 1 + Score(c[1..], p[1..])
  }

  /** The score is a common prefix length, and the next characters differ. */
  lemma {:induction false} ScoreIsCommonPrefix(c: string, p: string)
    ensures Score(c, p) <= |c| && Score(c, p) <= |p|
    ensures c[..Score(c, p)] == p[..Score(c, p)]
    ensures Score(c, p) < |c| && Score(c, p) < |p| ==> c[Score(c, p)] != p[Score(c, p)]
  {
    if c != [] && p != [] && c[0] == p[0] {
      ScoreIsCommonPrefix(c[1..], p[1..]);
      var r := Score(c[1..], p[1..]);
      assert c[..r + 1] == [c[0]] + c[1..][..r];
      assert p[..r + 1] == [p[0]] + p[1..][..r];
    }
  }

  /** A length is a common prefix length exactly when it is at most the score. */
  lemma ScoreIsLongestCommonPrefix(c: string, p: string, k: nat)
    requires k <= |c| && k <= |p|
    ensures c[..k] == p[..k] <==> k <= Score(c, p)
  {
    ScoreIsCommonPrefix(c, p);
    var r := Score(c, p);
    if k <= r {
      assert c[..k] == c[..r][..k] && p[..k] == p[..r][..k];
    } else {
      assert c[..k][r] == c[r] && p[..k][r] == p[r];
    }
  }

  /** `sort`'s counting loop: characters that agree before the first mismatch. */
  method MatchLength(s: string, curr: string) returns (m: int)
    ensures m == Score(s, curr)
  {
    var cmp := if |s| > |curr| then |curr| else |s|;
    m := 0;
    var i := 0;
    while i < cmp
      invariant 0 <= i <= cmp && m == i
      invariant s[..i] == curr[..i]
    {
      if s[i] != curr[i] {
        break;
      }
      assert s[..i + 1] == s[..i] + [s[i]] && curr[..i + 1] == curr[..i] + [curr[i]];
      m := m + 1;
      i := i + 1;
    }
    ScoreIsCommonPrefix(s, curr);
    ScoreIsLongestCommonPrefix(s, curr, m);
    if m < cmp {
      ScoreIsLongestCommonPrefix(s, curr, m + 1);
      assert s[..m + 1][m] != curr[..m + 1][m];
    }
  }

  /**
   * The `qsort` comparator with the typed line passed explicitly: positive
   * when `s2` shares more with the line than `s1`, so higher scores sort first.
   */
  method Compare(s1: string, s2: string, curr: string) returns (r: int)
    ensures r == Score(s2, curr) - Score(s1, curr)
    ensures r > 0 <==> Score(s1, curr) < Score(s2, curr)
  {
    var m1 := MatchLength(s1, curr);
    var m2 := MatchLength(s2, curr);
    r := m2 - m1;
  }

  /** Scores never increase along `s`. */
  predicate NonIncreasing(s: seq<string>, curr: string)
  {
    forall i, j :: 0 <= i < j < |s| ==> Score(s[i], curr) >= Score(s[j], curr)
  }

  /**
   * The in-place sort of the command copy. `qsort` is not stable, so only
   * the order of scores and the permutation are promised.
   */
  method SortByScore(a: array<string>, curr: string)
    modifies a
    ensures NonIncreasing(a[..], curr)
    ensures multiset(a[..]) == multiset(old(a[..]))
  {
    var i := 0;
    while i < a.Length
      invariant 0 <= i <= a.Length
      invariant SortedPrefix(a[..], i, curr)
      invariant multiset(a[..]) == multiset(old(a[..]))
    {
      InsertLast(a, i, curr);
      i := i + 1;
    }
  }

  /** The first `n` elements of `s` are in non-increasing score order. */
  predicate SortedPrefix(s: seq<string>, n: int, curr: string)
    requires 0 <= n <= |s|
  {
    forall k, l :: 0 <= k < l < n ==> Score(s[k], curr) >= Score(s[l], curr)
  }

  /** One insertion step: move `a[i]` down past every lower-scoring element. */
  method InsertLast(a: array<string>, i: int, curr: string)
    requires 0 <= i < a.Length
    requires SortedPrefix(a[..], i, curr)
    modifies a
    ensures SortedPrefix(a[..], i + 1, curr)
    ensures multiset(a[..]) == multiset(old(a[..]))
  {
    var j := i;
    while j > 0
      invariant 0 <= j <= i
      invariant Inserting(Keys(a[..], curr), j, i)
      invariant multiset(a[..]) == multiset(old(a[..]))
    {
      var d := Compare(a[j - 1], a[j], curr);
      if d <= 0 {
        break;
      }
      ghost var before := a[..];
      SwapDown(a, j);
      KeysSwap(before, a[..], j, curr);
      InsertingStep(Keys(before, curr), j, i);
      j := j - 1;
    }
    InsertingDone(Keys(a[..], curr), j, i);
  }

  /** The scores of the elements of `s`. */
  function Keys(s: seq<string>, curr: string): (keys: seq<int>)
    ensures |keys| == |s|
    ensures forall k :: 0 <= k < |s| ==> keys[k] == Score(s[k], curr)
  {
    seq(|s|, k requires 0 <= k < |s| => Score(s[k], curr))
  }

  /** Exchanging two neighbours exchanges their scores. */
  lemma KeysSwap(s: seq<string>, t: seq<string>, j: int, curr: string)
    requires 0 < j < |s| && t == s[j - 1 := s[j]][j := s[j - 1]]
    ensures Keys(t, curr) == Keys(s, curr)[j - 1 := Keys(s, curr)[j]][j := Keys(s, curr)[j - 1]]
  {
  }

  /**
   * The insertion loop's state on the scores: apart from position `j`, the
   * scores up to `i` do not increase, and the moving element outscores
   * everything after it.
   */
  predicate Inserting(keys: seq<int>, j: int, i: int)
    requires 0 <= j <= i < |keys|
  {
    (forall k, l :: 0 <= k < l <= i && k != j && l != j ==> keys[k] >= keys[l]) &&
    (forall l :: j < l <= i ==> keys[j] > keys[l])
  }

  lemma InsertingStep(keys: seq<int>, j: int, i: int)
    requires 0 < j <= i < |keys| && Inserting(keys, j, i) && keys[j - 1] < keys[j]
    ensures Inserting(keys[j - 1 := keys[j]][j := keys[j - 1]], j - 1, i)
  {
  }

  lemma InsertingDone(keys: seq<int>, j: int, i: int)
    requires 0 <= j <= i < |keys| && Inserting(keys, j, i)
    requires j == 0 || keys[j - 1] >= keys[j]
    ensures forall k, l :: 0 <= k < l <= i ==> keys[k] >= keys[l]
  {
  }

  /** Exchange `a[j - 1]` and `a[j]`. */
  method SwapDown(a: array<string>, j: int)
    requires 0 < j < a.Length
    modifies a
    ensures a[j - 1] == old(a[j]) && a[j] == old(a[j - 1])
    ensures forall k :: 0 <= k < a.Length && k != j - 1 && k != j ==> a[k] == old(a[k])
    ensures a[..] == old(a[..])[j - 1 := old(a[j])][j := old(a[j - 1])]
    ensures multiset(a[..]) == multiset(old(a[..]))
  {
    a[j - 1], a[j] := a[j], a[j - 1];
  }

  /**
   * Completion in the dot-command context: all seven commands, each once,
   * best match first.
   */
  method MetaCompletions(buf: string) returns (offered: seq<string>)
    ensures |offered| == |Commands|
    ensures multiset(offered) == multiset(Commands)
    ensures forall c :: c in Commands ==> multiset(offered)[c] == 1
    ensures NonIncreasing(offered, buf)
  {
    var tmp := new string[|Commands|](k requires 0 <= k < |Commands| => Commands[k]);
    assert tmp[..] == Commands;
    SortByScore(tmp, buf);
    offered := tmp[..];
    CommandsOnce();
  }

  /** No command is listed twice. */
  lemma CommandsOnce()
    ensures forall c :: c in Commands ==> multiset(Commands)[c] == 1
  {
  }

  /**
   * Typed in full, a command outranks every other command: no command is a
   * prefix of another.
   */
  lemma ExactCommandRanksFirst(i: int, j: int)
    requires 0 <= i < |Commands| && 0 <= j < |Commands| && i != j
    ensures Score(Commands[j], Commands[i]) < Score(Commands[i], Commands[i]) == |Commands[i]|
  {
    var c, d := Commands[i], Commands[j];
    ScoreIsCommonPrefix(d, c);
    ScoreIsCommonPrefix(c, c);
    CommandsDiffer(i, j);
    var at := if c[1] != d[1] then 1 else 4;
    ScoreIsLongestCommonPrefix(d, c, at + 1);
    assert d[..at + 1][at] != c[..at + 1][at];
  }

  /** The characters at positions 1 and 4 tell the commands apart. */
  lemma CommandsDiffer(i: int, j: int)
    requires 0 <= i < |Commands| && 0 <= j < |Commands|
    ensures |Commands[i]| >= 5
    ensures Commands[i][1] == Commands[j][1] && Commands[i][4] == Commands[j][4] ==> i == j
  {
  }

  // ---------------------------------------------------------------------
  // The identifier being typed

  /** `isalnum` in the C locale, or '_'. */
  predicate IsIdentChar(ch: char)
  {
    ('a' <= ch <= 'z') || ('A' <= ch <= 'Z') || ('0' <= ch <= '9') || ch == '_'
  }

  /** The start of the longest run of identifier characters that ends the line. */
  function TrailingIdentStart(s: string): (h: nat)
    ensures h <= |s|
    ensures forall k :: h <= k < |s| ==> IsIdentChar(s[k])
    ensures h > 0 ==> !IsIdentChar(s[h - 1])
  {
    if s == [] || !IsIdentChar(s[|s| - 1]) then |s| else TrailingIdentStart(s[..|s| - 1])
  }

  /** The two properties of `TrailingIdentStart` pick it out. */
  lemma TrailingIdentStartUnique(s: string, h: nat)
    requires h <= |s|
    requires forall k :: h <= k < |s| ==> IsIdentChar(s[k])
    requires h > 0 ==> !IsIdentChar(s[h - 1])
    ensures h == TrailingIdentStart(s)
  {
  }

  /** The line as `strlen30` measures it. */
  function Reported(buf: string): (s: string)
    requires NUL !in buf
    ensures NUL in buf + [NUL] && |s| == CLength(buf + [NUL]) % Pow30 && s <= buf
  {
    CLengthOfTerminated(buf);
    buf[..|buf| % Pow30]
  }

  /**
   * The bounded backward scan of `hints`: stops at the first character
   * before the trailing identifier, or at -1.
   */
  method ScanBack(buf: string, len: int) returns (i: int)
    requires 0 <= len <= |buf|
    ensures i + 1 == TrailingIdentStart(buf[..len])
  {
    i := len - 1;
    while i >= 0 && IsIdentChar(buf[i])
      invariant -1 <= i < len
      invariant forall k :: i < k < len ==> IsIdentChar(buf[k])
    {
      i := i - 1;
    }
    TrailingIdentStartUnique(buf[..len], i + 1);
  }

  datatype ScanOutcome = StopsAt(i: int) | OutOfBounds

  /**
   * The scan of `completion` as written: no lower bound, so a line made only
   * of identifier characters (the empty line too) reads before its start.
   */
  method CompletionScanAsWritten(buf: string, len: int) returns (o: ScanOutcome)
    requires 0 <= len <= |buf|
    ensures o.OutOfBounds? <==> forall k :: 0 <= k < len ==> IsIdentChar(buf[k])
    ensures o.StopsAt? ==> 0 <= o.i < len && o.i + 1 == TrailingIdentStart(buf[..len])
  {
    var i := len - 1;
    while true
      invariant -1 <= i < len
      invariant forall k :: i < k < len ==> IsIdentChar(buf[k])
      decreases i + 1
    {
      if i < 0 {
        return OutOfBounds;
      }
      if !IsIdentChar(buf[i]) {
        TrailingIdentStartUnique(buf[..len], i + 1);
        return StopsAt(i);
      }
      i := i - 1;
    }
  }

  // ---------------------------------------------------------------------
  // Server candidates

  /** What the server gives back for the completion query. */
  datatype OracleReply =
    | Rows(candidates: seq<string>)
    | NoResult
    | Disconnected(message: string)

  function DisconnectedMessage(m: string): string
  {
    "Disconnected : " + m + " \n"
  }

  /**
   * The completions offered for candidates `cs` after `prefix`: the prefix
   * followed by the candidate, for each candidate short enough for the line
   * buffer, in the server's order.
   */
  function Spliced(prefix: string, cs: seq<string>): (ls: seq<string>)
    ensures |ls| <= |cs|
  {
    if cs == [] then []
    else
      var c := cs[|cs| - 1];
      var rest := Spliced(prefix, cs[..|cs| - 1]);
      if |prefix| + |c| < LineCapacity - 1 then rest + [prefix + c] else rest
  }

  /** A line is offered exactly when it is the prefix and a short enough candidate. */
  lemma {:induction false} SplicedMembers(prefix: string, cs: seq<string>, l: string)
    ensures l in Spliced(prefix, cs) <==>
      exists c :: c in cs && |prefix| + |c| < LineCapacity - 1 && l == prefix + c
  {
    if cs != [] {
      var init := cs[..|cs| - 1];
      SplicedMembers(prefix, init, l);
      assert cs == init + [cs[|cs| - 1]];
      if l in Spliced(prefix, cs) && l !in Spliced(prefix, init) {
        assert l == prefix + cs[|cs| - 1];
      }
      if exists c :: c in cs && |prefix| + |c| < LineCapacity - 1 && l == prefix + c {
        var c :| c in cs && |prefix| + |c| < LineCapacity - 1 && l == prefix + c;
        if c !in init {
          assert c == cs[|cs| - 1];
        }
      }
    }
  }

  /** Splicing keeps the server's order: it distributes over concatenation. */
  lemma {:induction false} SplicedAppend(prefix: string, a: seq<string>, b: seq<string>)
    ensures Spliced(prefix, a + b) == Spliced(prefix, a) + Spliced(prefix, b)
  {
    if b == [] {
      assert a + b == a;
    } else {
      var init := b[..|b| - 1];
      assert (a + b)[..|a + b| - 1] == a + init;
      SplicedAppend(prefix, a, init);
    }
  }

  /** The `memcpy` of a candidate with its terminator into the line at `at`. */
  method CopyCandidate(line: array<char>, at: int, c: string)
    requires 0 <= at && at + |c| < line.Length
    modifies line
    ensures forall t :: 0 <= t < at ==> line[t] == old(line[t])
    ensures line[at..at + |c|] == c && line[at + |c|] == NUL
    ensures forall t :: at + |c| < t < line.Length ==> line[t] == old(line[t])
  {
    var k := 0;
    while k < |c|
      invariant 0 <= k <= |c|
      invariant forall t :: 0 <= t < at ==> line[t] == old(line[t])
      invariant forall t :: at + k <= t < line.Length ==> line[t] == old(line[t])
      invariant forall t :: 0 <= t < k ==> line[at + t] == c[t]
    {
      line[at + k] := c[k];
      k := k + 1;
    }
    line[at + |c|] := NUL;
  }

  /**
   * The splicing loop of `completion`: copy `buf[0..head)` into the line,
   * then each fitting candidate after it.
   */
  method SpliceCandidates(buf: string, head: int, cs: seq<string>) returns (lines: seq<string>)
    requires 0 <= head <= |buf| && head < LineCapacity
    ensures lines == Spliced(buf[..head], cs)
  {
    var line := new char[LineCapacity];
    var k := 0;
    while k < head
      invariant 0 <= k <= head
      invariant forall t :: 0 <= t < k ==> line[t] == buf[t]
    {
      line[k] := buf[k];
      k := k + 1;
    }
    lines := [];
    var r := 0;
    while r < |cs|
      invariant 0 <= r <= |cs|
      invariant forall t :: 0 <= t < head ==> line[t] == buf[t]
      invariant lines == Spliced(buf[..head], cs[..r])
    {
      var c := cs[r];
      assert cs[..r + 1][..r] == cs[..r];
      if head + |c| < LineCapacity - 1 {
        CopyCandidate(line, head, c);
        assert line[..head + |c|] == buf[..head] + c;
        lines := lines + [line[..head + |c|]];
      }
      r := r + 1;
    }
    assert cs[..|cs|] == cs;
  }

  // ---------------------------------------------------------------------
  // The completion callback

  /** A line starting with '.' but not with ".schema ". */
  predicate MetaContext(buf: string)
  {
    |buf| > 0 && buf[0] == '.' && !(SchemaPrefix <= buf)
  }

  datatype Completions = Offered(lines: seq<string>) | Exits(message: string)

  /** Completion outside the dot-command context, on the measured line. */
  function SqlCompletions(line: string, reply: OracleReply): Completions
  {
    var head := TrailingIdentStart(line);
    if head == |line| then Offered([])
    else
      match reply
      case Rows(cs) => Offered(Spliced(line[..head], cs))
      case NoResult => Offered([])
      case Disconnected(m) => Exits(DisconnectedMessage(m))
  }

  /**
   * `completion`, with the backward scan bounded as in `hints` (a line made
   * only of identifier characters completes from its start).
   */
  method Complete(buf: string, reply: OracleReply) returns (o: Completions)
    requires NUL !in buf
    ensures |buf| % Pow30 > MetaLimit ==> o == Offered([])
    ensures |buf| % Pow30 <= MetaLimit && MetaContext(buf) ==>
      o.Offered? && multiset(o.lines) == multiset(Commands) && NonIncreasing(o.lines, buf)
    ensures |buf| % Pow30 <= MetaLimit && !MetaContext(buf) ==>
      o == SqlCompletions(Reported(buf), reply)
  {
    CLengthOfTerminated(buf);
    var len := StrLen30(buf + [NUL]);
    if len > MetaLimit {
      return Offered([]);
    }
    if MetaContext(buf) {
      var offered := MetaCompletions(buf);
      return Offered(offered);
    }
    var i := ScanBack(buf, len);
    if i == len - 1 {
      return Offered([]);
    }
    var head := i + 1;
    assert buf[..len][..head] == buf[..head];
    match reply
    case Disconnected(m) =>
      o := Exits(DisconnectedMessage(m));
    case NoResult =>
      o := Offered([]);
    case Rows(cs) =>
      var lines := SpliceCandidates(buf, head, cs);
      o := Offered(lines);
  }

  // ---------------------------------------------------------------------
  // The hints callback

  datatype HintOutcome =
    | NoHint
    | Hint(text: string, color: int, bold: int)
    | HintExits(message: string)

  /** The `strcmp` loop meant to recognise a command typed in full. */
  method ExactCommand(buf: string) returns (found: bool)
    ensures found <==> buf in Commands
  {
    for j := 0 to |Commands|
      invariant forall k :: 0 <= k < j ==> Commands[k] != buf
    {
      if Commands[j] == buf {
        return true;
      }
    }
    return false;
  }

  /** The same loop as written: every pass compares with the first command. */
  method ExactCommandAsWritten(buf: string) returns (found: bool)
    ensures found <==> buf == Commands[0]
  {
    for j := 0 to |Commands|
      invariant j > 0 ==> Commands[0] != buf
    {
      if Commands[0] == buf {
        return true;
      }
    }
    return false;
  }

  /**
   * The best-ranked command. `qsort` puts some command of highest score
   * first; the first-character gate always passes, since every command and
   * the line start with '.'.
   */
  method TopRankedHint(buf: string) returns (h: HintOutcome)
    requires MetaContext(buf)
    ensures h.Hint? && h.text in Commands && h.color == HintColor && h.bold == 0
    ensures forall c :: c in Commands ==> Score(c, buf) <= Score(h.text, buf)
  {
    var tmp := new string[|Commands|](k requires 0 <= k < |Commands| => Commands[k]);
    assert tmp[..] == Commands;
    SortByScore(tmp, buf);
    FirstIsBest(tmp[..], Commands, buf);
    CommandLead(tmp[0]);
    if tmp[0][0] == buf[0] {
      h := Hint(tmp[0], HintColor, 0);
    } else {
      assert false;
    }
  }

  /** The head of a list sorted by score has the best score of the list. */
  lemma FirstIsBest(s: seq<string>, cs: seq<string>, curr: string)
    requires |s| > 0 && NonIncreasing(s, curr) && multiset(s) == multiset(cs)
    ensures s[0] in cs
    ensures forall c :: c in cs ==> Score(c, curr) <= Score(s[0], curr)
  {
    assert s[0] in multiset(s);
    forall c | c in cs ensures Score(c, curr) <= Score(s[0], curr) {
      assert c in multiset(s);
      var k :| 0 <= k < |s| && s[k] == c;
    }
  }

  /** A command typed in full is the only best-scoring command. */
  lemma BestIsExact(buf: string, t: string)
    requires buf in Commands && t in Commands
    requires forall c :: c in Commands ==> Score(c, buf) <= Score(t, buf)
    ensures t == buf
  {
    var i, j := CommandIndex(buf), CommandIndex(t);
    if i != j {
      ExactCommandRanksFirst(i, j);
    }
  }

  /** Every command is a dot and at least one letter. */
  lemma CommandLead(c: string)
    requires c in Commands
    ensures |c| > 1 && c[0] == '.'
  {
    var i := CommandIndex(c);
  }

  /** Where a command stands in the list. */
  function CommandIndex(c: string): (i: int)
    requires c in Commands
    ensures 0 <= i < |Commands| && Commands[i] == c
  {
    if c == Commands[0] then 0
    else if c == Commands[1] then 1
    else if c == Commands[2] then 2
    else if c == Commands[3] then 3
    else if c == Commands[4] then 4
    else if c == Commands[5] then 5
    else 6
  }

  /** The hint outside the dot-command context, on the measured line. */
  function SqlHint(line: string, reply: OracleReply): HintOutcome
  {
    if TrailingIdentStart(line) == |line| then NoHint
    else
      match reply
      case Rows(cs) => if cs == [] then NoHint else Hint(cs[0], HintColor, 0)
      case NoResult => NoHint
      case Disconnected(m) => HintExits(DisconnectedMessage(m))
  }

  /** The server part of `hints`: only the first row is used, and in full. */
  method ServerHint(buf: string, len: int, reply: OracleReply) returns (h: HintOutcome)
    requires 0 <= len <= |buf|
    ensures h == SqlHint(buf[..len], reply)
  {
    var i := ScanBack(buf, len);
    if i == len - 1 {
      return NoHint;
    }
    match reply
    case Disconnected(m) =>
      h := HintExits(DisconnectedMessage(m));
    case NoResult =>
      h := NoHint;
    case Rows(cs) =>
      if cs == [] {
        h := NoHint;
      } else {
        h := Hint(cs[0], HintColor, 0);
      }
  }

  /** `hints`, with the full-command check comparing against every command. */
  method Hints(buf: string, reply: OracleReply) returns (h: HintOutcome)
    requires NUL !in buf
    ensures MetaContext(buf) && |buf| % Pow30 < 2 ==> h == Hint(".tables", HintColor, 0)
    ensures MetaContext(buf) && |buf| % Pow30 >= 2 && buf in Commands ==> h == NoHint
    ensures MetaContext(buf) && |buf| % Pow30 >= 2 && buf !in Commands ==>
      h.Hint? && h.text in Commands && h.color == HintColor && h.bold == 0 &&
      forall c :: c in Commands ==> Score(c, buf) <= Score(h.text, buf)
    ensures !MetaContext(buf) ==> h == SqlHint(Reported(buf), reply)
  {
    CLengthOfTerminated(buf);
    var len := StrLen30(buf + [NUL]);
    if MetaContext(buf) {
      if len < 2 {
        return Hint(".tables", HintColor, 0);
      }
      var found := ExactCommand(buf);
      if found {
        return NoHint;
      }
      h := TopRankedHint(buf);
    } else {
      h := ServerHint(buf, len, reply);
    }
  }

  /**
   * `hints` as written: a command other than ".tables", typed in full, is
   * not recognised, so the hint repeats that command after it.
   */
  method HintsAsWritten(buf: string, reply: OracleReply) returns (h: HintOutcome)
    requires NUL !in buf
    ensures MetaContext(buf) && |buf| % Pow30 >= 2 && buf == Commands[0] ==> h == NoHint
    ensures MetaContext(buf) && |buf| % Pow30 >= 2 && buf in Commands && buf != Commands[0] ==>
      h == Hint(buf, HintColor, 0)
    ensures !MetaContext(buf) ==> h == SqlHint(Reported(buf), reply)
  {
    CLengthOfTerminated(buf);
    var len := StrLen30(buf + [NUL]);
    if MetaContext(buf) {
      if len < 2 {
        return Hint(".tables", HintColor, 0);
      }
      var found := ExactCommandAsWritten(buf);
      if found {
        return NoHint;
      }
      h := TopRankedHint(buf);
      if buf in Commands {
        BestIsExact(buf, h.text);
      }
    } else {
      h := ServerHint(buf, len, reply);
    }
  }
}
